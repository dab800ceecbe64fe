/**
  Body extraction in news_csv_50.py: the per-line classifier built from `HEADER_PATTERN`,
  `QUOTE_LINE`, `REPLY_MARKER`, `SIG_SEP` and the separator test; the heuristic extractor
  `extract_body_by_heuristic`; the light paragraph pass over envelope text; and
  `extract_main_body_from_file` with the file read and the envelope parser as parameters.
 */
module Heuristic {
  import opened Chars
  import opened Text
  import opened Seqs
  import opened Maybe
  import opened Patterns
  import opened LineScan

  /** `MIN_BODY_LEN` */
  const MinBodyLen: nat := 60

  /** The field names `HEADER_PATTERN` recognises. */
  const HeaderFields: seq<string> := [
    "archive-name", "from", "subject", "path", "xref", "organization",
    "lines", "newsgroups", "message-id", "keywords", "date", "sender"
  ]

  // ---------------------------------------------------------------------------
  // The line classifier

  /** The line opens with one of the extractor's header field names and a colon, in any case. */
  predicate IsHeaderLine(line: string) {
    StartsWithField(line, HeaderFields)
  }

  /** `QUOTE_LINE.match(line)`: the first non-whitespace character is `>` or `|`. */
  predicate IsQuoteLine(line: string) {
    var k := LeadingSpace(line);
    k < |line| && (line[k] == '>' || line[k] == '|')
  }

  /** `In article\s*<` matches at the start of `s` (under `re.I`). */
  predicate ArticleAt(s: string) {
    && CiPrefix(s, "in article")
    && var k := 10 + LeadingSpace(s[10..]);
       k < |s| && s[k] == '<'
  }

  predicate HasArticleMarker(s: string)
    decreases |s|
  {
    ArticleAt(s) || (|s| > 0 && HasArticleMarker(s[1..]))
  }

  /** `REPLY_MARKER.search(line)`: `writes:`, `wrote:` or `In article\s*<` anywhere. */
  predicate IsReplyLine(line: string) {
    CiContains(line, "writes:") || CiContains(line, "wrote:") || HasArticleMarker(line)
  }

  /** `SIG_SEP.match(line)`: `--` with nothing but whitespace around it. */
  predicate IsSigSep(line: string) {
    Strip(line) == "--"
  }

  /** A separator line: three or more `-` or `=` characters, with only whitespace around them. */
  predicate IsSeparatorLine(line: string) {
    var t := Strip(line);
    |t| >= 3 && forall i :: 0 <= i < |t| ==> t[i] == '-' || t[i] == '='
  }

  predicate DashesAndSpace(s: string) {
    forall i :: 0 <= i < |s| ==> IsSpace(s[i]) || s[i] == '-'
  }

  lemma {:induction false} NoWordIn(s: string, w: string)
    requires DashesAndSpace(s)
    requires |w| > 0 && IsAsciiLower(w[0])
    ensures !CiPrefix(s, w) && !CiContains(s, w)
    decreases |s|
  {
    if |s| > 0 {
      NoWordIn(s[1..], w);
    }
  }

  lemma {:induction false} NoArticleIn(s: string)
    requires DashesAndSpace(s)
    ensures !HasArticleMarker(s)
    decreases |s|
  {
    NoWordIn(s, "in article");
    if |s| > 0 {
      NoArticleIn(s[1..]);
    }
  }

  /** A signature line cannot pass for a header, quote or reply line. */
  lemma SigSepIsPlain(line: string)
    requires IsSigSep(line)
    ensures !IsHeaderLine(line) && !IsQuoteLine(line) && !IsReplyLine(line)
  {
    var a := LeadingSpace(line);
    assert line[a..a + 2] == "--";
    assert line[a] == '-';
    forall i | 0 <= i < |line| ensures IsSpace(line[i]) || line[i] == '-' {
      if i < a {
        assert line[..a][i] == line[i];
      } else if i < a + 2 {
        assert line[a..a + 2][i - a] == line[i];
      } else {
        assert line[a + 2..][i - a - 2] == line[i];
      }
    }
    NoWordIn(line, "writes:");
    NoWordIn(line, "wrote:");
    NoArticleIn(line);
    forall i | 0 <= i < |HeaderFields| ensures !CiPrefix(line, HeaderFields[i] + ":") {
      NoWordIn(line, HeaderFields[i] + ":");
    }
  }

  /**
    The tests in their source order: header, quote, reply, signature, separator. A line is
    kept exactly when no test fires, and stops the scan exactly when it is `--`.
   */
  function Classify(line: string): (k: LineKind)
    ensures k == Content <==>
      && !IsHeaderLine(line) && !IsQuoteLine(line) && !IsReplyLine(line)
      && !IsSigSep(line) && !IsSeparatorLine(line)
    ensures k == Signature <==> IsSigSep(line)
  {
    if IsSigSep(line) then SigSepIsPlain(line); Signature
    else if IsHeaderLine(line) then Header
    else if IsQuoteLine(line) then Quote
    else if IsReplyLine(line) then Reply
    else if IsSeparatorLine(line) then Separator
    else Content
  }

  // ---------------------------------------------------------------------------
  // Line endings

  /** Every CRLF pair becomes one newline, in one left-to-right pass. */
  function ReplaceCrLf(s: string): (r: string)
    ensures |r| <= |s|
    ensures (forall i :: 0 <= i < |s| ==> s[i] != '\r') ==> r == s
    decreases |s|
  {
    if |s| == 0 then []
    else if |s| >= 2 && s[0] == '\r' && s[1] == '\n' then "\n" + ReplaceCrLf(s[2..])
    else [s[0]] + ReplaceCrLf(s[1..])
  }

  /** CRLF pairs, then any remaining carriage returns, become newlines. */
  function NormalizeNewlines(s: string): (r: string)
    ensures forall i :: 0 <= i < |r| ==> r[i] != '\r'
    ensures (forall i :: 0 <= i < |s| ==> s[i] != '\r') ==> r == s
  {
    CrToLf(ReplaceCrLf(s))
  }

  /** Each carriage return becomes a newline; every other character stays. */
  function CrToLf(t: string): (r: string)
    ensures |r| == |t|
    ensures forall i :: 0 <= i < |t| ==> r[i] == if t[i] == '\r' then '\n' else t[i]
  {
    seq(|t|, i requires 0 <= i < |t| => if t[i] == '\r' then '\n' else t[i])
  }

  lemma CrToLfConcat(a: string, b: string)
    ensures CrToLf(a + b) == CrToLf(a) + CrToLf(b)
  {
    assert forall i :: 0 <= i < |a| ==> (a + b)[i] == a[i];
    assert forall i :: |a| <= i < |a + b| ==> (a + b)[i] == b[i - |a|];
  }

  /** No carriage return is directly followed by a newline. */
  predicate NoCrLf(s: string) {
    forall i :: 0 <= i < |s| - 1 ==> !(s[i] == '\r' && s[i + 1] == '\n')
  }

  /** A text without a CRLF pair passes the pair replacement unchanged. */
  lemma {:induction false} ReplaceCrLfNoPair(s: string)
    requires NoCrLf(s)
    ensures ReplaceCrLf(s) == s
    decreases |s|
  {
    if |s| > 0 {
      assert NoCrLf(s[1..]) by {
        forall i | 0 <= i < |s[1..]| - 1 ensures !(s[1..][i] == '\r' && s[1..][i + 1] == '\n') {
          assert s[1..][i] == s[i + 1] && s[1..][i + 1] == s[i + 2];
        }
      }
      ReplaceCrLfNoPair(s[1..]);
      assert !(|s| >= 2 && s[0] == '\r' && s[1] == '\n');
      assert [s[0]] + s[1..] == s;
    }
  }

  /** One step of the pair replacement at the head of a text. */
  lemma ReplaceCrLfHead(s: string)
    requires |s| > 0
    ensures |s| >= 2 && s[0] == '\r' && s[1] == '\n' ==> ReplaceCrLf(s) == "\n" + ReplaceCrLf(s[2..])
    ensures !(|s| >= 2 && s[0] == '\r' && s[1] == '\n') ==> ReplaceCrLf(s) == [s[0]] + ReplaceCrLf(s[1..])
  {
  }

  /**
    The pair replacement works piecewise: it distributes over a concatenation
    that does not cut a CRLF pair in two.
   */
  lemma {:induction false} ReplaceCrLfConcat(a: string, b: string)
    requires a == [] || b == [] || a[|a| - 1] != '\r' || b[0] != '\n'
    ensures ReplaceCrLf(a + b) == ReplaceCrLf(a) + ReplaceCrLf(b)
    decreases |a|
  {
    if a == [] {
      assert a + b == b;
    } else if |a| >= 2 && a[0] == '\r' && a[1] == '\n' {
      ReplaceCrLfConcat(a[2..], b);
      ReplaceCrLfConcatAtPair(a, b);
    } else {
      ReplaceCrLfConcat(a[1..], b);
      ReplaceCrLfConcatAtChar(a, b);
    }
  }

  lemma ReplaceCrLfConcatAtPair(a: string, b: string)
    requires |a| >= 2 && a[0] == '\r' && a[1] == '\n'
    requires ReplaceCrLf(a[2..] + b) == ReplaceCrLf(a[2..]) + ReplaceCrLf(b)
    ensures ReplaceCrLf(a + b) == ReplaceCrLf(a) + ReplaceCrLf(b)
  {
    var ab := a + b;
    assert ab[0] == '\r' && ab[1] == '\n';
    assert ab[2..] == a[2..] + b;
    calc {
      ReplaceCrLf(ab);
      { ReplaceCrLfHead(ab); }
      "\n" + ReplaceCrLf(a[2..] + b);
      "\n" + (ReplaceCrLf(a[2..]) + ReplaceCrLf(b));
      { SeqConcatAssoc("\n", ReplaceCrLf(a[2..]), ReplaceCrLf(b)); }
      ("\n" + ReplaceCrLf(a[2..])) + ReplaceCrLf(b);
      { ReplaceCrLfHead(a); }
      ReplaceCrLf(a) + ReplaceCrLf(b);
    }
  }

  lemma ReplaceCrLfConcatAtChar(a: string, b: string)
    requires |a| > 0 && !(|a| >= 2 && a[0] == '\r' && a[1] == '\n')
    requires b == [] || a[|a| - 1] != '\r' || b[0] != '\n'
    requires ReplaceCrLf(a[1..] + b) == ReplaceCrLf(a[1..]) + ReplaceCrLf(b)
    ensures ReplaceCrLf(a + b) == ReplaceCrLf(a) + ReplaceCrLf(b)
  {
    var ab := a + b;
    ReplaceCrLfHead(a);
    assert !(|ab| >= 2 && ab[0] == '\r' && ab[1] == '\n') by {
      assert ab[0] == a[0];
      if |a| >= 2 {
        assert ab[1] == a[1];
      } else if b != [] {
        assert ab[1] == b[0];
      }
    }
    ReplaceCrLfHead(ab);
    ConsConcat(a, b);
    SeqConcatAssoc([a[0]], ReplaceCrLf(a[1..]), ReplaceCrLf(b));
  }

  /** A CRLF pair between two texts becomes exactly one newline. */
  lemma ReplaceCrLfAtPair(a: string, b: string)
    ensures ReplaceCrLf(a + "\r\n" + b) == ReplaceCrLf(a) + "\n" + ReplaceCrLf(b)
  {
    var t := "\r\n" + b;
    SeqConcatAssoc(a, "\r\n", b);
    ReplaceCrLfConcat(a, t);
    ReplaceCrLfHead(t);
    assert t[2..] == b;
    SeqConcatAssoc(ReplaceCrLf(a), "\n", ReplaceCrLf(b));
  }

  /** The normalisation distributes over a concatenation that does not cut a CRLF pair. */
  lemma NormalizeNewlinesConcat(a: string, b: string)
    requires a == [] || b == [] || a[|a| - 1] != '\r' || b[0] != '\n'
    ensures NormalizeNewlines(a + b) == NormalizeNewlines(a) + NormalizeNewlines(b)
  {
    ReplaceCrLfConcat(a, b);
    CrToLfConcat(ReplaceCrLf(a), ReplaceCrLf(b));
  }

  /**
    A CRLF pair, and a carriage return not followed by a newline, each become
    exactly one newline between the normalised neighbours.
   */
  lemma NormalizeNewlinesAtBreak(a: string, b: string)
    ensures NormalizeNewlines(a + "\r\n" + b) == NormalizeNewlines(a) + "\n" + NormalizeNewlines(b)
    ensures b == [] || b[0] != '\n' ==>
      NormalizeNewlines(a + "\r" + b) == NormalizeNewlines(a) + "\n" + NormalizeNewlines(b)
  {
    var ra, rb := ReplaceCrLf(a), ReplaceCrLf(b);
    ReplaceCrLfAtPair(a, b);
    CrToLfAround(ra, '\n', rb);
    if b == [] || b[0] != '\n' {
      var t := "\r" + b;
      SeqConcatAssoc(a, "\r", b);
      ReplaceCrLfConcat(a, t);
      ReplaceCrLfHead(t);
      assert t[1..] == b;
      SeqConcatAssoc(ra, "\r", rb);
      CrToLfAround(ra, '\r', rb);
    }
  }

  lemma CrToLfAround(a: string, c: char, b: string)
    requires c == '\r' || c == '\n'
    ensures CrToLf(a + [c] + b) == CrToLf(a) + "\n" + CrToLf(b)
  {
    CrToLfConcat(a + [c], b);
    CrToLfConcat(a, [c]);
  }

  // ---------------------------------------------------------------------------
  // extract_body_by_heuristic

  /** The candidate body: the text after the first blank-line boundary. */
  function ScannedBody(raw: string): string {
    BodyAfterBlank(NormalizeNewlines(raw))
  }

  /** The lines the scan loop appends to `lines`. */
  function RetainedLines(raw: string): (kept: seq<string>)
    ensures forall i :: 0 <= i < |kept| ==>
      && !IsHeaderLine(kept[i]) && !IsQuoteLine(kept[i]) && !IsReplyLine(kept[i])
      && !IsSigSep(kept[i]) && !IsSeparatorLine(kept[i])
  {
    Scan(SplitLines(ScannedBody(raw)), Classify)
  }

  /**
    The retained lines are the kept lines before the first `SIG_SEP` line of the candidate
    body, in their original order.
   */
  lemma RetainedLinesStopAtSignature(raw: string)
    ensures var lines := SplitLines(ScannedBody(raw));
      RetainedLines(raw) == ContentLines(lines[..FirstWhere(lines, IsSigSep)], Classify)
  {
    var lines := SplitLines(ScannedBody(raw));
    ScanIsContentBeforeStop(lines, Classify);
    StopAtFirst(lines, Classify, IsSigSep);
  }

  /** `cleaned` after the tag substitution. */
  function CleanedText(raw: string): string {
    RemoveTags(Strip(Join("\n", RetainedLines(raw))))
  }

  /** The fallback paragraph: the non-blank lines of `s`, each stripped, joined by single spaces. */
  function JoinedLines(s: string): string {
    Join(" ", StrippedNonEmpty(SplitLines(s)))
  }

  lemma {:induction false} BlankLinesOfBlankText(s: string)
    requires AllSpace(s)
    ensures AllBlank(SplitLines(s))
    decreases |s|
  {
    if s != [] {
      var n := LineEnd(s);
      if n < |s| {
        var rest := s[n + BreakWidth(s, n)..];
        assert AllSpace(rest) by {
          assert forall i :: 0 <= i < |rest| ==> rest[i] == s[n + BreakWidth(s, n) + i];
        }
        BlankLinesOfBlankText(rest);
        assert SplitLines(s)[1..] == SplitLines(rest);
      }
    }
  }

  /**
    The fallback paragraph is always empty: it is built only when the text has no
    paragraph, which means the text is all whitespace.
   */
  lemma FallbackIsEmpty(s: string)
    requires Paragraphs(s) == []
    ensures JoinedLines(s) == ""
  {
    NoParagraphsIffBlank(s);
    BlankLinesOfBlankText(s);
  }

  /** Index of the first paragraph of at least `n` characters. */
  function FirstAtLeast(paras: seq<string>, n: nat): (r: Option<nat>)
    ensures r.Some? ==> r.value < |paras| && |paras[r.value]| >= n
    ensures r.Some? ==> forall j :: 0 <= j < r.value ==> |paras[j]| < n
    ensures r.None? ==> forall j :: 0 <= j < |paras| ==> |paras[j]| < n
  {
    if |paras| == 0 then None
    else if |paras[0]| >= n then Some(0)
    else
      match FirstAtLeast(paras[1..], n)
      case Some(k) => Some(k + 1)
      case None => None
  }

  /** `max(paras, key=len)`: the first of the longest paragraphs. */
  function LongestIndex(paras: seq<string>): (k: nat)
    requires |paras| > 0
    ensures k < |paras|
    ensures forall j :: 0 <= j < |paras| ==> |paras[j]| <= |paras[k]|
    ensures forall j :: 0 <= j < k ==> |paras[j]| < |paras[k]|
  {
    if |paras| == 1 then 0
    else
      var k := 1 + LongestIndex(paras[1..]);
      assert forall j :: 1 <= j < |paras| ==> paras[j] == paras[1..][j - 1];
      if |paras[k]| > |paras[0]| then k else 0
  }

  ghost predicate FirstLongEnough(paras: seq<string>, k: int) {
    && 0 <= k < |paras| && |paras[k]| >= MinBodyLen
    && forall j :: 0 <= j < k ==> |paras[j]| < MinBodyLen
  }

  /** `r` is what the selection loop returns from `paras`. */
  ghost predicate SelectedFrom(paras: seq<string>, r: string) {
    && (paras == [] ==> r == "")
    && (paras != [] ==>
          exists k :: 0 <= k < |paras| && r == paras[k] && (FirstLongEnough(paras, k) || FirstLongest(paras, k)))
  }

  ghost predicate FirstLongest(paras: seq<string>, k: int) {
    && 0 <= k < |paras|
    && (forall j :: 0 <= j < |paras| ==> |paras[j]| < MinBodyLen && |paras[j]| <= |paras[k]|)
    && forall j :: 0 <= j < k ==> |paras[j]| < |paras[k]|
  }

  /**
    The selection loop: the first paragraph of at least `MIN_BODY_LEN` characters; when
    there is none, the first longest one; `""` when there are no paragraphs.
   */
  function SelectParagraph(paras: seq<string>): (r: string)
    ensures paras == [] ==> r == ""
    ensures SelectedFrom(paras, r)
  {
    match FirstAtLeast(paras, MinBodyLen)
    case Some(k) => paras[k]
    case None =>
      if |paras| == 0 then "" else paras[LongestIndex(paras)]
  }

  /** The selection picks one of the paragraphs, so it inherits their trimmed edges. */
  lemma SelectedHasNoEdgeSpace(paras: seq<string>)
    requires forall i :: 0 <= i < |paras| ==> NoEdgeSpace(paras[i])
    ensures NoEdgeSpace(SelectParagraph(paras))
  {
    if paras != [] {
      var k :| 0 <= k < |paras| && SelectParagraph(paras) == paras[k];
    }
  }

  /** With no paragraph, the lone fallback paragraph is empty and so is the selection. */
  lemma FallbackSelectsEmpty(cleaned: string)
    requires Paragraphs(cleaned) == []
    ensures SelectParagraph([JoinedLines(cleaned)]) == ""
  {
    FallbackIsEmpty(cleaned);
    assert FirstAtLeast([""], MinBodyLen) == None;
  }

  /** The empty text has no retained lines, so its cleaned text is empty. */
  lemma CleanedTextOfEmpty()
    ensures CleanedText([]) == []
  {
    assert NormalizeNewlines([]) == [];
    assert ScannedBody([]) == [];
    assert SplitLines([]) == [];
    assert RetainedLines([]) == [];
    assert Join("\n", []) == [];
    assert Strip([]) == [];
  }

  /** Lines 80-86 on the cleaned text: the paragraph selection with its fallback. */
  function BodyOfCleaned(cleaned: string): (r: string)
    ensures NoEdgeSpace(r)
    ensures cleaned == [] ==> r == ""
    ensures SelectedFrom(Paragraphs(cleaned), r)
  {
    var paras := Paragraphs(cleaned);
    NoParagraphsIffBlank(cleaned);
    if paras == [] then
      FallbackSelectsEmpty(cleaned);
      SelectParagraph([JoinedLines(cleaned)])
    else
      SelectedHasNoEdgeSpace(paras);
      SelectParagraph(paras)
  }

  /** The heuristic extractor: the line filter, the tag removal, then the paragraph choice. */
  function ExtractBodyByHeuristic(raw: string): (r: string)
    ensures NoEdgeSpace(r)
    ensures raw == [] ==> r == ""
    ensures SelectedFrom(Paragraphs(CleanedText(raw)), r)
  {
    CleanedTextOfEmpty();
    BodyOfCleaned(CleanedText(raw))
  }

  /**
    Scenario: a header block whose lines all start with visible text, a blank line, then
    the body: the extractor sees only the body.
   */
  lemma HeadersNeverScanned(h: string, b: string)
    requires forall k :: 0 <= k < |h| && h[k] == '\n' ==> k + 1 < |h| && !IsSpace(h[k + 1])
    requires forall k :: 0 <= k < |h| ==> h[k] != '\r'
    requires forall k :: 0 <= k < |b| ==> b[k] != '\r'
    requires b == [] || !IsSpace(b[0])
    ensures ScannedBody(h + "\n\n" + b) == b
  {
    var s := h + "\n\n" + b;
    assert forall k :: 0 <= k < |s| ==> s[k] != '\r' by {
      forall k | 0 <= k < |s| ensures s[k] != '\r' {
        if k < |h| { assert s[k] == h[k]; }
        else if k >= |h| + 2 { assert s[k] == b[k - |h| - 2]; }
      }
    }
    HeaderBlockIgnored(h, b);
  }

  // ---------------------------------------------------------------------------
  // The light pass over envelope text

  /** The first paragraph the light pass accepts: long enough and not a quote. */
  function LightCandidate(paras: seq<string>): (r: Option<nat>)
    ensures r.Some? ==> r.value < |paras| && |paras[r.value]| >= MinBodyLen && !IsQuoteLine(paras[r.value])
    ensures r.Some? ==> forall j :: 0 <= j < r.value ==> |paras[j]| < MinBodyLen || IsQuoteLine(paras[j])
    ensures r.None? ==> forall j :: 0 <= j < |paras| ==> |paras[j]| < MinBodyLen || IsQuoteLine(paras[j])
  {
    if |paras| == 0 then None
    else if |paras[0]| >= MinBodyLen && !IsQuoteLine(paras[0]) then Some(0)
    else
      match LightCandidate(paras[1..])
      case Some(k) => Some(k + 1)
      case None => None
  }

  /** The line is empty or does not start with whitespace. */
  predicate Unindented(line: string) {
    line == [] || !IsSpace(line[0])
  }

  predicate NotHeaderLine(line: string) {
    !IsHeaderLine(line)
  }

  /**
    Lines 99-105 as written: the chosen paragraph loses its header lines and is then
    stripped; with no candidate, the heuristic runs on the same text.
   */
  function LightPassAsWritten(text: string): (r: string)
    ensures NoEdgeSpace(r)
    ensures LightCandidate(Paragraphs(ReplaceCrLf(text))).None? ==>
      r == ExtractBodyByHeuristic(ReplaceCrLf(text))
    ensures var paras := Paragraphs(ReplaceCrLf(text));
      var c := LightCandidate(paras);
      c.Some? ==> SplitLines(r) == RStripLines(LStripLines(Filter(SplitLines(paras[c.value]), NotHeaderLine)))
    ensures LightCandidate(Paragraphs(ReplaceCrLf(text))).Some? ==> OnlyNewlineBreaks(r)
  {
    var t := ReplaceCrLf(text);
    var paras := Paragraphs(t);
    match LightCandidate(paras)
    case Some(k) =>
      var kept := Filter(SplitLines(paras[k]), NotHeaderLine);
      FilteredLinesUnbroken(SplitLines(paras[k]), NotHeaderLine);
      StripJoinLines(kept);
      JoinOnlyNewlineBreaks(kept);
      StripOnlyNewlineBreaks(Join("\n", kept));
      Strip(Join("\n", kept))
    case None => ExtractBodyByHeuristic(t)
  }

  /**
    With a candidate paragraph, the as-written pass returns the kept lines,
    the first and last trimmed of outer whitespace, joined by newlines.
   */
  lemma LightPassAsWrittenIsJoin(text: string)
    ensures var paras := Paragraphs(ReplaceCrLf(text));
      var c := LightCandidate(paras);
      c.Some? ==>
        LightPassAsWritten(text) == Join("\n", RStripLines(LStripLines(Filter(SplitLines(paras[c.value]), NotHeaderLine))))
  {
    if LightCandidate(Paragraphs(ReplaceCrLf(text))).Some? {
      NewlineTextIsJoin(LightPassAsWritten(text));
    }
  }

  /**
    With a candidate paragraph, the corrected pass returns the lines that pass the
    corrected test, the first and last trimmed of outer whitespace, joined by newlines.
   */
  lemma LightPassIsJoin(text: string)
    ensures var paras := Paragraphs(ReplaceCrLf(text));
      var c := LightCandidate(paras);
      c.Some? ==>
        LightPass(text) == Join("\n", RStripLines(LStripLines(Filter(SplitLines(paras[c.value]), NotHeaderOnceUnindented))))
  {
    if LightCandidate(Paragraphs(ReplaceCrLf(text))).Some? {
      NewlineTextIsJoin(LightPass(text));
    }
  }

  /** Dropping lines from a list of break-free lines leaves break-free lines. */
  lemma FilteredLinesUnbroken(lines: seq<string>, p: string -> bool)
    requires forall i :: 0 <= i < |lines| ==> NoLineBreak(lines[i])
    ensures forall i :: 0 <= i < |Filter(lines, p)| ==> NoLineBreak(Filter(lines, p)[i])
  {
    var kept := Filter(lines, p);
    forall i | 0 <= i < |kept| ensures NoLineBreak(kept[i]) {
      assert kept[i] in kept;
      var j :| 0 <= j < |lines| && lines[j] == kept[i];
    }
  }

  /** A text with no blank-line run and no edge whitespace is one paragraph. */
  lemma OneParagraph(t: string)
    requires t != [] && NoEdgeSpace(t) && NoDoubleNewline(t)
    ensures Paragraphs(t) == [t]
  {
    assert SplitBlankRuns(t) == [t];
    assert LeadingSpace(t) == 0;
    assert TrailingSpace(t) == 0;
    assert Strip(t) == t;
    assert StrippedNonEmpty([t]) == [t] + StrippedNonEmpty([t][1..]);
  }

  /** A line that starts with whitespace is never a header line. */
  lemma IndentedIsNotHeader(line: string)
    requires |line| > 0 && IsSpace(line[0])
    ensures !IsHeaderLine(line)
  {
    HeaderFieldsStartLower();
    forall i | 0 <= i < |HeaderFields| ensures !CiPrefix(line, HeaderFields[i] + ":") {
      assert (HeaderFields[i] + ":")[0] == HeaderFields[i][0];
    }
  }

  /** Every header field name starts with a lower-case ASCII letter. */
  lemma HeaderFieldsStartLower()
    ensures forall i :: 0 <= i < |HeaderFields| ==> |HeaderFields[i]| > 0 && IsAsciiLower(HeaderFields[i][0])
  {
  }

  lemma FromIsHeader(s: string)
    requires CiPrefix(s, "from:")
    ensures IsHeaderLine(s)
  {
    assert HeaderFields[1] + ":" == "from:";
    assert CiPrefix(s, HeaderFields[1] + ":");
  }

  lemma StripOneLeading(s: string)
    requires |s| >= 2 && IsSpace(s[0]) && !IsSpace(s[1]) && !IsSpace(s[|s| - 1])
    ensures Strip(s) == s[1..]
  {
    assert LeadingSpace(s[1..]) == 0;
    assert LeadingSpace(s) == 1;
    assert TrailingSpace(s) == 0;
  }

  /**
    On a text that is one long, unquoted paragraph, the light pass filters that paragraph;
    if what the filter and the strip leave starts with `from:`, the result is a header line.
   */
  lemma LightPassAsWrittenOnOneParagraph(t: string)
    requires forall i :: 0 <= i < |t| ==> t[i] != '\r'
    requires |t| >= MinBodyLen && NoEdgeSpace(t) && NoDoubleNewline(t) && !IsQuoteLine(t)
    requires CiPrefix(Strip(Join("\n", Filter(SplitLines(t), NotHeaderLine))), "from:")
    ensures IsHeaderLine(LightPassAsWritten(t))
  {
    OneParagraph(t);
    assert ReplaceCrLf(t) == t;
    assert LightCandidate([t]) == Some(0);
    FromIsHeader(LightPassAsWritten(t));
  }

  lemma ExposedTextShape(x: string, t: string)
    requires NoLineBreak(x) && |x| >= MinBodyLen && !IsSpace(x[|x| - 1])
    requires t == "From:\n from:" + x
    ensures forall i :: 0 <= i < |t| ==> t[i] != '\r'
    ensures |t| >= MinBodyLen && NoEdgeSpace(t) && NoDoubleNewline(t) && !IsQuoteLine(t)
  {
    assert forall i :: 12 <= i < |t| ==> t[i] == x[i - 12];
    assert t[|t| - 1] == x[|x| - 1];
    assert forall i :: 0 <= i < |t| ==> t[i] != '\r' by {
      forall i | 0 <= i < |t| ensures t[i] != '\r' {
        if i >= 12 { assert !IsLineBreak(x[i - 12]); }
      }
    }
    assert NoDoubleNewline(t) by {
      forall m | 0 <= m < |t| - 1 ensures !(t[m] == '\n' && t[m + 1] == '\n') {
        if m >= 12 { assert !IsLineBreak(x[m - 12]); }
      }
    }
    assert LeadingSpace(t) == 0;
  }

  lemma TwoLines(a: string, b: string)
    requires NoLineBreak(a) && NoLineBreak(b) && b != []
    ensures SplitLines(a + "\n" + b) == [a, b]
  {
    assert Join("\n", [a, b]) == a + "\n" + b;
    SplitJoinLines([a, b]);
  }

  lemma FilterPair(a: string, b: string)
    requires IsHeaderLine(a) && !IsHeaderLine(b)
    ensures Filter([a, b], NotHeaderLine) == [b]
  {
    assert [a, b][1..] == [b];
    assert [b][1..] == [];
  }

  /** A header line followed by an indented `from:` line: the filter keeps the second, the strip unindents it. */
  lemma ExposedFromLines(first: string, second: string)
    requires IsHeaderLine(first) && NoLineBreak(first) && NoLineBreak(second)
    requires |second| >= 2 && IsSpace(second[0]) && !IsSpace(second[1]) && !IsSpace(second[|second| - 1])
    requires CiPrefix(second[1..], "from:")
    ensures CiPrefix(Strip(Join("\n", Filter(SplitLines(first + "\n" + second), NotHeaderLine))), "from:")
  {
    TwoLines(first, second);
    IndentedIsNotHeader(second);
    FilterPair(first, second);
    assert Join("\n", [second]) == second;
    StripOneLeading(second);
  }

  lemma ExposedFrom(x: string, t: string)
    requires NoLineBreak(x) && x != [] && !IsSpace(x[|x| - 1])
    requires t == "From:\n from:" + x
    ensures CiPrefix(Strip(Join("\n", Filter(SplitLines(t), NotHeaderLine))), "from:")
  {
    var second := " from:" + x;
    ExposedSecondLine(x, second);
    FromLineIsHeader();
    assert t == "From:" + "\n" + second by {
      assert "From:\n from:" == "From:" + "\n" + " from:";
    }
    ExposedFromLines("From:", second);
  }

  lemma FromLineIsHeader()
    ensures IsHeaderLine("From:") && NoLineBreak("From:")
  {
    assert CaseFoldEq("From:"[0], 'f');
    FromIsHeader("From:");
  }

  /** The second line ` from:x` is indented once, unindents to `from:`, and ends in text. */
  lemma ExposedSecondLine(x: string, second: string)
    requires NoLineBreak(x) && x != [] && !IsSpace(x[|x| - 1])
    requires second == " from:" + x
    ensures NoLineBreak(second) && |second| >= 2
    ensures IsSpace(second[0]) && !IsSpace(second[1]) && !IsSpace(second[|second| - 1])
    ensures CiPrefix(second[1..], "from:")
  {
    assert forall i :: 6 <= i < |second| ==> second[i] == x[i - 6];
    assert second[|second| - 1] == x[|x| - 1];
    assert second[1..][..5] == "from:";
  }

  /**
    The strip that follows the header filter can turn an indented header-looking line
    into a header line: the as-written pass can return text that starts with one.
   */
  lemma LightPassAsWrittenExposesHeader(x: string, t: string)
    requires |x| >= MinBodyLen
    requires NoLineBreak(x)
    requires !IsSpace(x[|x| - 1])
    requires t == "From:\n from:" + x
    ensures IsHeaderLine(LightPassAsWritten(t))
  {
    ExposedTextShape(x, t);
    ExposedFrom(x, t);
    LightPassAsWrittenOnOneParagraph(t);
  }

  /** The header test applied to a line's text after its indentation. */
  predicate NotHeaderOnceUnindented(line: string) {
    !IsHeaderLine(LStrip(line))
  }

  /** No line of `s` is a header line. */
  predicate NoHeaderLines(s: string) {
    var lines := SplitLines(s);
    forall i :: 0 <= i < |lines| ==> !IsHeaderLine(lines[i])
  }

  lemma HeaderLineOfPrefix(s: string, t: string)
    requires s <= t
    ensures IsHeaderLine(s) ==> IsHeaderLine(t)
  {
    if IsHeaderLine(s) {
      var i :| 0 <= i < |HeaderFields| && CiPrefix(s, HeaderFields[i] + ":");
      assert CiPrefix(t, HeaderFields[i] + ":");
    }
  }

  lemma EmptyIsNotHeader()
    ensures !IsHeaderLine("")
  {
  }

  /**
    A line that passes the unindented test is not a header line, and it still passes
    after either kind of strip.
   */
  lemma UnindentedTestCovers(line: string)
    requires NotHeaderOnceUnindented(line)
    ensures !IsHeaderLine(line)
    ensures NotHeaderOnceUnindented(LStrip(line)) && NotHeaderOnceUnindented(RStrip(line))
  {
    if |line| > 0 && IsSpace(line[0]) {
      IndentedIsNotHeader(line);
    } else {
      assert LStrip(line) == line;
    }
    var l := LStrip(line);
    assert LeadingSpace(l) == 0;
    assert LStrip(l) == l;
    var r := RStrip(line);
    if AllSpace(line) {
      assert LStrip(r) == [];
      EmptyIsNotHeader();
    } else {
      var m := |r|;
      assert line == r + line[m..];
      LeadingSpaceConcat(r, line[m..]);
      assert LStrip(r) <= l;
      HeaderLineOfPrefix(LStrip(r), l);
    }
  }

  /** Free of line breaks, and passes the unindented header test. */
  predicate CleanLine(line: string) {
    NoLineBreak(line) && NotHeaderOnceUnindented(line)
  }

  lemma StripKeepsClean(k: string)
    requires CleanLine(k)
    ensures CleanLine(LStrip(k)) && CleanLine(RStrip(k))
  {
    UnindentedTestCovers(k);
    StripKeepsNoLineBreak(k);
  }

  lemma StrippedLinesClean(kept: seq<string>)
    requires forall i :: 0 <= i < |kept| ==> CleanLine(kept[i])
    ensures var ms := RStripLines(LStripLines(kept));
      forall i :: 0 <= i < |ms| ==> CleanLine(ms[i])
  {
    forall i | 0 <= i < |kept| ensures CleanLine(LStrip(kept[i])) {
      StripKeepsClean(kept[i]);
    }
    LStripLinesKeep(kept, CleanLine);
    var ls := LStripLines(kept);
    forall i | 0 <= i < |ls| ensures CleanLine(RStrip(ls[i])) {
      StripKeepsClean(ls[i]);
    }
    RStripLinesKeep(ls, CleanLine);
  }

  lemma CleanLinesHeaderFree(ms: seq<string>)
    requires forall i :: 0 <= i < |ms| ==> CleanLine(ms[i])
    requires |ms| == 0 || ms[|ms| - 1] != []
    ensures NoHeaderLines(Join("\n", ms))
  {
    CleanLinesAreNotHeaders(ms);
    SplitJoinLines(ms);
  }

  lemma CleanLinesAreNotHeaders(ms: seq<string>)
    requires forall i :: 0 <= i < |ms| ==> CleanLine(ms[i])
    ensures forall i :: 0 <= i < |ms| ==> NoLineBreak(ms[i]) && !IsHeaderLine(ms[i])
  {
    forall i | 0 <= i < |ms| ensures NoLineBreak(ms[i]) && !IsHeaderLine(ms[i]) {
      UnindentedTestCovers(ms[i]);
    }
  }

  /**
    Joining clean lines and stripping the result leaves no header line, whatever the
    strip removes at either end.
   */
  lemma KeptLinesHeaderFree(kept: seq<string>)
    requires forall i :: 0 <= i < |kept| ==> CleanLine(kept[i])
    ensures NoHeaderLines(Strip(Join("\n", kept)))
  {
    StripJoin(kept);
    StrippedLinesClean(kept);
    CleanLinesHeaderFree(RStripLines(LStripLines(kept)));
  }

  /**
    The corrected pass over the lines of one paragraph: the joined, stripped
    result has no header line, its lines are the kept lines with their
    outer whitespace trimmed, and newlines are its only line breaks.
   */
  lemma UnindentedPassLines(lines: seq<string>)
    requires forall j :: 0 <= j < |lines| ==> NoLineBreak(lines[j])
    ensures var kept := Filter(lines, NotHeaderOnceUnindented);
      NoHeaderLines(Strip(Join("\n", kept)))
      && SplitLines(Strip(Join("\n", kept))) == RStripLines(LStripLines(kept))
      && OnlyNewlineBreaks(Strip(Join("\n", kept)))
  {
    var kept := Filter(lines, NotHeaderOnceUnindented);
    forall i | 0 <= i < |kept| ensures CleanLine(kept[i]) {
      assert kept[i] in kept;
      var j :| 0 <= j < |lines| && lines[j] == kept[i];
    }
    KeptLinesHeaderFree(kept);
    StripJoinLines(kept);
    JoinOnlyNewlineBreaks(kept);
    StripOnlyNewlineBreaks(Join("\n", kept));
  }

  /**
    The light pass with the header test applied to each line's unindented text: the
    paragraph it returns has no header line, whatever the final strip removes.
   */
  function LightPass(text: string): (r: string)
    ensures NoEdgeSpace(r)
    ensures LightCandidate(Paragraphs(ReplaceCrLf(text))).None? ==>
      r == ExtractBodyByHeuristic(ReplaceCrLf(text))
    ensures LightCandidate(Paragraphs(ReplaceCrLf(text))).Some? ==> NoHeaderLines(r)
    ensures var paras := Paragraphs(ReplaceCrLf(text));
      var c := LightCandidate(paras);
      c.Some? ==> SplitLines(r) == RStripLines(LStripLines(Filter(SplitLines(paras[c.value]), NotHeaderOnceUnindented)))
    ensures LightCandidate(Paragraphs(ReplaceCrLf(text))).Some? ==> OnlyNewlineBreaks(r)
  {
    var t := ReplaceCrLf(text);
    var paras := Paragraphs(t);
    match LightCandidate(paras)
    case Some(k) =>
      var lines := SplitLines(paras[k]);
      var kept := Filter(lines, NotHeaderOnceUnindented);
      UnindentedPassLines(lines);
      Strip(Join("\n", kept))
    case None => ExtractBodyByHeuristic(t)
  }

  /**
    On a paragraph none of whose lines is indented, the corrected test drops the same
    lines as the test as written.
   */
  lemma UnindentedTestAgrees(line: string)
    requires Unindented(line)
    ensures NotHeaderOnceUnindented(line) == NotHeaderLine(line)
  {
    assert LeadingSpace(line) == 0;
  }

  // ---------------------------------------------------------------------------
  // extract_main_body_from_file

  /** Latin-1 decoding: every byte becomes the character with the same code. */
  function Latin1(bytes: seq<bv8>): (s: string)
    ensures |s| == |bytes|
    ensures forall i :: 0 <= i < |s| ==> s[i] as int == bytes[i] as int
  {
    seq(|bytes|, i requires 0 <= i < |bytes| => (bytes[i] as int) as char)
  }

  /**
    `extract_main_body_from_file(path)` as written. `file` is what reading the path gives
    (`None` when it cannot be read); `parse` stands for the envelope parser and gives `None`
    when parsing fails. A non-empty parsed text goes through the light pass as written;
    otherwise the raw bytes are decoded as Latin-1 and go through the heuristic.
   */
  function ExtractMainBody(file: Option<seq<bv8>>, parse: seq<bv8> -> Option<string>): (body: string)
    ensures NoEdgeSpace(body)
    ensures file.None? ==> body == ""
    ensures file.Some? && (parse(file.value).None? || parse(file.value).value == []) ==>
      body == ExtractBodyByHeuristic(Latin1(file.value))
    ensures file.Some? && parse(file.value).Some? && parse(file.value).value != [] ==>
      body == LightPassAsWritten(parse(file.value).value)
  {
    match file
    case None => ""
    case Some(bytes) =>
      match parse(bytes)
      case Some(text) =>
        if text != [] then LightPassAsWritten(text) else ExtractBodyByHeuristic(Latin1(bytes))
      case None => ExtractBodyByHeuristic(Latin1(bytes))
  }

  /**
    The same reader with the corrected light pass: when the parsed text has a candidate
    paragraph, the body has no header line.
   */
  function ExtractMainBodyCorrected(file: Option<seq<bv8>>, parse: seq<bv8> -> Option<string>): (body: string)
    ensures NoEdgeSpace(body)
    ensures file.None? ==> body == ""
    ensures file.Some? && (parse(file.value).None? || parse(file.value).value == []) ==>
      body == ExtractBodyByHeuristic(Latin1(file.value))
    ensures file.Some? && parse(file.value).Some? && parse(file.value).value != [] ==>
      body == LightPass(parse(file.value).value)
    ensures file.Some? && parse(file.value).Some? && parse(file.value).value != [] ==>
      LightCandidate(Paragraphs(ReplaceCrLf(parse(file.value).value))).Some? ==> NoHeaderLines(body)
  {
    match file
    case None => ""
    case Some(bytes) =>
      match parse(bytes)
      case Some(text) =>
        if text != [] then LightPass(text) else ExtractBodyByHeuristic(Latin1(bytes))
      case None => ExtractBodyByHeuristic(Latin1(bytes))
  }

  /**
    When no line of the chosen paragraph starts with whitespace, the corrected light pass
    and the light pass as written give the same body.
   */
  lemma LightPassesAgree(text: string)
    requires var paras := Paragraphs(ReplaceCrLf(text));
      var c := LightCandidate(paras);
      c.Some? ==> forall i :: 0 <= i < |SplitLines(paras[c.value])| ==> Unindented(SplitLines(paras[c.value])[i])
    ensures LightPass(text) == LightPassAsWritten(text)
  {
    var paras := Paragraphs(ReplaceCrLf(text));
    var c := LightCandidate(paras);
    if c.Some? {
      var lines := SplitLines(paras[c.value]);
      forall i | 0 <= i < |lines| ensures NotHeaderOnceUnindented(lines[i]) == NotHeaderLine(lines[i]) {
        UnindentedTestAgrees(lines[i]);
      }
      FilterAgree(lines, NotHeaderOnceUnindented, NotHeaderLine);
    }
  }
}
