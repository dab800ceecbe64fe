/**
  The two export sanitisers: `remove_illegal_xml_chars`, which both scripts define
  identically, and `sanitize_for_excel`, the spreadsheet formula-injection guard. Both
  accept any column value and leave non-strings untouched.
 */
module Sanitize {
  import opened Chars

  /** A value in a data-frame column: a string, a missing value (`None`/`NaN`), or another scalar. */
  datatype Cell = Str(s: string) | Missing | Number(n: int)

  predicate NoIllegalXml(s: string) {
    forall i :: 0 <= i < |s| ==> !IsIllegalXml(s[i])
  }

  /** The string with every character of the illegal XML class deleted. */
  function RemoveIllegalXmlChars(s: string): (r: string)
    ensures NoIllegalXml(r)
    ensures |r| <= |s|
    ensures NoIllegalXml(s) ==> r == s
  {
    if |s| == 0 then []
    else (if IsIllegalXml(s[0]) then [] else [s[0]]) + RemoveIllegalXmlChars(s[1..])
  }

  /** `remove_illegal_xml_chars(v)` on any column value. */
  function RemoveIllegalCell(v: Cell): (r: Cell)
    ensures !v.Str? ==> r == v
    ensures v.Str? ==> r.Str? && NoIllegalXml(r.s) && |r.s| <= |v.s|
    ensures v.Str? && NoIllegalXml(v.s) ==> r == v
  {
    match v
    case Str(s) => Str(RemoveIllegalXmlChars(s))
    case _ => v
  }

  /** A single illegal character between legal stretches is cut out, closing the gap. */
  lemma RemoveIllegalSkipOne(s: string, k: nat)
    requires k < |s| && IsIllegalXml(s[k])
    requires NoIllegalXml(s[..k]) && NoIllegalXml(s[k + 1..])
    ensures RemoveIllegalXmlChars(s) == s[..k] + s[k + 1..]
  {
    var front, back := s[..k], s[k..];
    assert front + back == s;
    assert back[0] == s[k] && back[1..] == s[k + 1..];
    RemoveIllegalConcat(front, back);
  }

  /** Removal works piecewise, so the characters it keeps stay in their original order. */
  lemma {:induction false} RemoveIllegalConcat(a: string, b: string)
    ensures RemoveIllegalXmlChars(a + b) == RemoveIllegalXmlChars(a) + RemoveIllegalXmlChars(b)
    decreases |a|
  {
    if |a| == 0 {
      assert a + b == b;
    } else {
      RemoveIllegalConcat(a[1..], b);
      RemoveIllegalConcatStep(a, b);
    }
  }

  /** The step of `RemoveIllegalConcat`: the first character of `a` is handled alike on both sides. */
  lemma RemoveIllegalConcatStep(a: string, b: string)
    requires |a| > 0
    requires RemoveIllegalXmlChars(a[1..] + b) == RemoveIllegalXmlChars(a[1..]) + RemoveIllegalXmlChars(b)
    ensures RemoveIllegalXmlChars(a + b) == RemoveIllegalXmlChars(a) + RemoveIllegalXmlChars(b)
  {
    var ab := a + b;
    assert ab[0] == a[0] && ab[1..] == a[1..] + b;
    RemoveIllegalHead(ab);
    RemoveIllegalHead(a);
    var h := if IsIllegalXml(a[0]) then [] else [a[0]];
    ConcatAssoc(h, RemoveIllegalXmlChars(a[1..]), RemoveIllegalXmlChars(b));
  }

  /** One unfolding of the removal at the first character. */
  lemma RemoveIllegalHead(s: string)
    requires |s| > 0
    ensures RemoveIllegalXmlChars(s) == (if IsIllegalXml(s[0]) then [] else [s[0]]) + RemoveIllegalXmlChars(s[1..])
  {
  }

  lemma ConcatAssoc(x: string, y: string, z: string)
    ensures x + (y + z) == (x + y) + z
  {
  }

  /**
    Every character outside the illegal class survives as often as it occurs, and every
    illegal one disappears.
   */
  lemma {:induction false} RemoveIllegalCounts(s: string, c: char)
    ensures !IsIllegalXml(c) ==> multiset(RemoveIllegalXmlChars(s))[c] == multiset(s)[c]
    ensures IsIllegalXml(c) ==> multiset(RemoveIllegalXmlChars(s))[c] == 0
    decreases |s|
  {
    if |s| > 0 {
      RemoveIllegalCounts(s[1..], c);
      assert s == [s[0]] + s[1..];
      assert multiset(s) == multiset{s[0]} + multiset(s[1..]);
    }
  }

  /** Whatever holds of every character of `s` holds of every character the removal keeps. */
  lemma {:induction false} RemoveIllegalKeeps(s: string, p: char -> bool)
    requires forall i :: 0 <= i < |s| ==> p(s[i])
    ensures forall i :: 0 <= i < |RemoveIllegalXmlChars(s)| ==> p(RemoveIllegalXmlChars(s)[i])
    decreases |s|
  {
    if |s| > 0 {
      RemoveIllegalKeeps(s[1..], p);
      var rest := RemoveIllegalXmlChars(s[1..]);
      assert forall i :: 0 <= i < |rest| ==> p(rest[i]);
    }
  }

  /** A legal first or last character stays first or last. */
  lemma RemoveIllegalEnds(s: string)
    ensures |s| > 0 && !IsIllegalXml(s[0]) ==>
      |RemoveIllegalXmlChars(s)| > 0 && RemoveIllegalXmlChars(s)[0] == s[0]
    ensures |s| > 0 && !IsIllegalXml(s[|s| - 1]) ==>
      var r := RemoveIllegalXmlChars(s);
      |r| > 0 && r[|r| - 1] == s[|s| - 1]
  {
    if |s| > 0 {
      var n := |s| - 1;
      assert s == s[..n] + [s[n]];
      RemoveIllegalConcat(s[..n], [s[n]]);
      assert [s[n]][1..] == [];
    }
  }

  lemma RemoveIllegalIdempotent(s: string)
    ensures RemoveIllegalXmlChars(RemoveIllegalXmlChars(s)) == RemoveIllegalXmlChars(s)
  {
  }

  /** The first characters a spreadsheet reads as the start of a formula. */
  predicate IsFormulaStart(c: char) {
    c == '=' || c == '+' || c == '-' || c == '@'
  }

  /** `sanitize_for_excel(v)`: a leading `'` before a string that starts like a formula. */
  function SanitizeForExcel(v: Cell): (r: Cell)
    ensures r.Str? && r.s != [] ==> !IsFormulaStart(r.s[0])
    ensures r != v <==> v.Str? && v.s != [] && IsFormulaStart(v.s[0])
    ensures r != v ==> r == Str("'" + v.s)
  {
    if v.Str? && v.s != [] && IsFormulaStart(v.s[0]) then Str("'" + v.s) else v
  }
}
