/**
  The line filter of `clean_body` in deepcleane.py. It cuts the raw text at the first
  blank-line boundary, then makes one pass over the lines of the rest: header lines, quoted
  lines and reply markers are dropped, and the first line that opens like a signature ends
  the pass. Its header list, signature test and test order are its own; they differ from
  the extractor's in `Heuristic`.
 */
module DeepLines {
  import opened Chars
  import opened Text
  import opened Patterns
  import opened LineScan

  /** The field names of the header test. */
  const DeepHeaderFields: seq<string> := [
    "archive-name", "from", "subject", "path", "xref", "organization",
    "lines", "newsgroups", "message-id", "keywords", "last-modified", "version"
  ]

  /** The header test: the line opens with a listed field name and a colon, in any case. */
  predicate IsDeepHeader(line: string) {
    StartsWithField(line, DeepHeaderFields)
  }

  /** The stripped line starts with `>` or `|`. */
  predicate IsDeepQuote(line: string) {
    var t := Strip(line);
    |t| > 0 && (t[0] == '>' || t[0] == '|')
  }

  /** The stripped line starts with `--`: a dash rule ends the pass as well as `-- `. */
  predicate IsDeepSig(line: string) {
    StartsWith(Strip(line), "--")
  }

  /** A `>` occurs in `s` before any newline (`.*?>`, since `.` stops at a newline). */
  predicate ClosesOnLine(s: string) {
    var g := IndexFrom(s, '>', 0);
    g < |s| && forall m :: 0 <= m < g ==> s[m] != '\n'
  }

  /** `In article\s*<.*?>` matches at the start of `s` (under `re.I`). */
  predicate ArticleTagAt(s: string) {
    && CiPrefix(s, "in article")
    && var k := 10 + LeadingSpace(s[10..]);
       k < |s| && s[k] == '<' && ClosesOnLine(s[k + 1..])
  }

  predicate HasArticleTag(s: string)
    decreases |s|
  {
    ArticleTagAt(s) || (|s| > 0 && HasArticleTag(s[1..]))
  }

  /** The two reply tests: an `In article <...>` marker, or `writes:` / `wrote:`, anywhere. */
  predicate IsDeepReply(line: string) {
    HasArticleTag(line) || CiContains(line, "writes:") || CiContains(line, "wrote:")
  }

  /** A field name of the header list cannot start with whitespace or a dash. */
  lemma NoFieldAfterDash(line: string)
    requires |line| > 0 && (IsSpace(line[0]) || line[0] == '-')
    ensures !IsDeepHeader(line)
  {
    forall i | 0 <= i < |DeepHeaderFields| ensures !CiPrefix(line, DeepHeaderFields[i] + ":") {
      var w := DeepHeaderFields[i] + ":";
      assert IsAsciiLower(w[0]);
    }
  }

  /** A line that opens like a signature is neither a header nor a quote. */
  lemma DeepSigIsPlain(line: string)
    requires IsDeepSig(line)
    ensures !IsDeepHeader(line) && !IsDeepQuote(line)
  {
    var k := LeadingSpace(line);
    var t := Strip(line);
    assert t[..2] == "--";
    assert t[0] == '-';
    assert line[k] == t[0];
    if k == 0 {
      NoFieldAfterDash(line);
    } else {
      assert line[..k][0] == line[0];
      NoFieldAfterDash(line);
    }
  }

  /**
    The tests in their source order: header, quote, signature, reply. A line is kept
    exactly when none fires, and ends the pass exactly when it opens with `--`.
   */
  function DeepClassify(line: string): (k: LineKind)
    ensures k == Content <==>
      !IsDeepHeader(line) && !IsDeepQuote(line) && !IsDeepSig(line) && !IsDeepReply(line)
    ensures k == Signature <==> IsDeepSig(line)
  {
    if IsDeepSig(line) then DeepSigIsPlain(line); Signature
    else if IsDeepHeader(line) then Header
    else if IsDeepQuote(line) then Quote
    else if IsDeepReply(line) then Reply
    else Content
  }

  /** `cleaned_lines`: the lines of the body the pass keeps, none of them a header, quote, signature or reply line. */
  function KeptLines(raw: string): (kept: seq<string>)
    ensures forall i :: 0 <= i < |kept| ==>
      !IsDeepHeader(kept[i]) && !IsDeepQuote(kept[i]) && !IsDeepSig(kept[i]) && !IsDeepReply(kept[i])
  {
    Scan(SplitLines(BodyAfterBlank(raw)), DeepClassify)
  }

  /**
    The kept lines are the unclassified lines of the text after the first blank-line
    boundary that come before its first line opening with `--`, in their original order.
   */
  lemma KeptLinesStopAtSignature(raw: string)
    ensures var lines := SplitLines(BodyAfterBlank(raw));
      KeptLines(raw) == ContentLines(lines[..FirstWhere(lines, IsDeepSig)], DeepClassify)
  {
    var lines := SplitLines(BodyAfterBlank(raw));
    ScanIsContentBeforeStop(lines, DeepClassify);
    StopAtFirst(lines, DeepClassify, IsDeepSig);
  }

  /** A header block followed by a blank line never reaches the pass. */
  lemma KeptLinesSkipHeaderBlock(h: string, b: string)
    requires forall k :: 0 <= k < |h| && h[k] == '\n' ==> k + 1 < |h| && !IsSpace(h[k + 1])
    requires b == [] || !IsSpace(b[0])
    ensures KeptLines(h + "\n\n" + b) == Scan(SplitLines(b), DeepClassify)
  {
    HeaderBlockIgnored(h, b);
  }
}
