/** The optional value used wherever the pipeline may produce nothing. */
module Maybe {
  datatype Option<T> = None | Some(value: T)
}

/**
  Character classes as Python 3 sees them on `str` values: `str.isspace()` (which is also
  what the regular-expression class `\s` and argument-less `str.strip()` use), the line
  boundaries of `str.splitlines()`, the control characters a spreadsheet file cannot hold,
  and the letter equivalences of a case-insensitive (`re.I`) pattern.
 */
module Chars {

  /** `str.isspace()`: the characters Python treats as whitespace. */
  predicate IsSpace(c: char) {
    var n := c as int;
    || (0x09 <= n <= 0x0D)
    || (0x1C <= n <= 0x20)
    || n == 0x85 || n == 0xA0 || n == 0x1680
    || (0x2000 <= n <= 0x200A)
    || n == 0x2028 || n == 0x2029 || n == 0x202F || n == 0x205F || n == 0x3000
  }

  /** The characters at which `str.splitlines()` ends a line (`\r\n` counts once). */
  predicate IsLineBreak(c: char) {
    var n := c as int;
    || (0x0A <= n <= 0x0D)
    || (0x1C <= n <= 0x1E)
    || n == 0x85 || n == 0x2028 || n == 0x2029
  }

  /** The class `[\x00-\x08\x0B\x0C\x0E-\x1F]` of both sanitisers. */
  predicate IsIllegalXml(c: char) {
    var n := c as int;
    n <= 0x08 || n == 0x0B || n == 0x0C || (0x0E <= n <= 0x1F)
  }

  predicate IsAsciiUpper(c: char) { 'A' <= c <= 'Z' }
  predicate IsAsciiLower(c: char) { 'a' <= c <= 'z' }
  predicate IsAsciiLetter(c: char) { IsAsciiUpper(c) || IsAsciiLower(c) }
  predicate IsAsciiDigit(c: char) { '0' <= c <= '9' }

  /** ASCII lower-casing: the only change `str.lower()` makes to letters, digits, `.,!?` and whitespace. */
  function LowerAscii(c: char): (d: char)
    ensures IsAsciiUpper(c) ==> IsAsciiLower(d) && d as int == c as int + 32
    ensures !IsAsciiUpper(c) ==> d == c
  {
    if IsAsciiUpper(c) then (c as int + 32) as char else c
  }

  /**
    Whether text character `c` matches pattern character `p` under `re.I`. For an ASCII
    letter `p` (written in lower case) this is its two ASCII cases plus the four non-ASCII
    letters Python folds onto ASCII: U+0130 and U+0131 onto `i`, U+017F onto `s`, U+212A
    onto `k`. Any other pattern character matches only itself.
   */
  predicate CaseFoldEq(c: char, p: char) {
    if IsAsciiLower(p) then
      || c == p
      || c as int == p as int - 32
      || (p == 'i' && (c == '\U{130}' || c == '\U{131}'))
      || (p == 's' && c == '\U{17F}')
      || (p == 'k' && c == '\U{212A}')
    else
      c == p
  }
}
