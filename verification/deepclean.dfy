/**
  `clean_body` in deepcleane.py and the script around it: the line filter of `DeepLines`,
  the substitution chain of `Substitute`, and the final pass over the re-read records that
  drops short texts and strips illegal characters from every string column.
 */
module DeepClean {
  import opened Maybe
  import opened Chars
  import opened Text
  import opened Seqs
  import opened Sanitize
  import opened Patterns
  import opened Substitute
  import opened DeepLines
  import opened Assembly

  /** The length the script's row filter demands of a cleaned text. */
  const MinTextLen: nat := 60

  /** What `clean_body` can emit: a legal clean character. */
  predicate IsOutputChar(c: char) {
    IsCleanChar(c) && !IsIllegalXml(c)
  }

  /**
    After the whitespace collapse every illegal character left is whitespace standing
    alone, so removing it never brings two whitespace characters together.
   */
  lemma {:induction false} RemoveIsolated(t: string)
    requires NoDoubleSpace(t)
    requires forall i :: 0 <= i < |t| && IsIllegalXml(t[i]) ==> IsSpace(t[i])
    ensures NoDoubleSpace(RemoveIllegalXmlChars(t))
    decreases |t|
  {
    if |t| > 0 {
      NoDoubleSpaceSlice(t, 1, |t|);
      assert t[1..|t|] == t[1..];
      forall i | 0 <= i < |t[1..]| && IsIllegalXml(t[1..][i]) ensures IsSpace(t[1..][i]) {
        assert t[1..][i] == t[i + 1];
      }
      RemoveIsolated(t[1..]);
      var rest := RemoveIllegalXmlChars(t[1..]);
      var r := RemoveIllegalXmlChars(t);
      if IsIllegalXml(t[0]) {
        assert r == rest;
      } else {
        assert r == [t[0]] + rest;
        if IsSpace(t[0]) && |t| > 1 {
          assert !DoubleSpaceAt(t, 0);
          RemoveIllegalEnds(t[1..]);
        }
        SingleBeforeRest(r, rest);
      }
    }
  }

  /**
    Lines 47-54 of deepcleane.py on the joined lines: emails, URLs, tags and disallowed
    characters become spaces, newline and whitespace runs shrink, the text is lowered and
    stripped, and illegal characters go. What is left holds only lower-case ASCII letters,
    digits, `.,!?` and legal whitespace, never two whitespace characters in a row, and no
    whitespace at either end.
   */
  function Normalize(body: string): (r: string)
    ensures forall i :: 0 <= i < |r| ==> IsOutputChar(r[i])
    ensures NoIllegalXml(r)
    ensures NoEdgeSpace(r)
    ensures NoDoubleSpace(r)
  {
    Finalize(Substitutions(body))
  }

  /** Lines 47-52: the substitutions, which leave admitted characters with no whitespace run. */
  function Substitutions(body: string): (r: string)
    ensures AllAllowed(r) && NoDoubleSpace(r)
  {
    var noEmail := RemoveEmails(body);
    var noUrl := RemoveUrls(noEmail);
    var noTag := RemoveTags(noUrl);
    var allowed := ReplaceDisallowed(noTag);
    CollapseSpaces(CollapseNewlines(allowed))
  }

  /** Lines 53-54 on admitted text without whitespace runs: lower, strip, remove illegal characters. */
  function Finalize(s: string): (r: string)
    requires AllAllowed(s) && NoDoubleSpace(s)
    ensures forall i :: 0 <= i < |r| ==> IsOutputChar(r[i])
    ensures NoIllegalXml(r)
    ensures NoEdgeSpace(r)
    ensures NoDoubleSpace(r)
  {
    var trimmed := LowerStrip(s);
    RemoveIllegalFromClean(trimmed);
    RemoveIllegalXmlChars(trimmed)
  }

  /** Lowering and stripping, on admitted text without whitespace runs. */
  function LowerStrip(s: string): (r: string)
    requires AllAllowed(s) && NoDoubleSpace(s)
    ensures forall i :: 0 <= i < |r| ==> IsCleanChar(r[i])
    ensures NoEdgeSpace(r) && NoDoubleSpace(r)
  {
    var lowered := LowerAll(s);
    LowerAllKeepsSingleSpaces(s);
    StripKeepsCleanChars(lowered);
    Strip(lowered)
  }

  lemma StripKeepsCleanChars(s: string)
    requires forall i :: 0 <= i < |s| ==> IsCleanChar(s[i])
    requires NoDoubleSpace(s)
    ensures forall i :: 0 <= i < |Strip(s)| ==> IsCleanChar(Strip(s)[i])
    ensures NoDoubleSpace(Strip(s))
  {
    var t := Strip(s);
    var a := LeadingSpace(s);
    var b := a + |t|;
    assert t == s[a..b];
    NoDoubleSpaceSlice(s, a, b);
    forall i | 0 <= i < |t| ensures IsCleanChar(t[i]) {
      assert t[i] == s[a + i];
    }
  }

  /** The removal on stripped clean text: the ends stay, and no whitespace pair forms. */
  lemma RemoveIllegalFromClean(t: string)
    requires forall i :: 0 <= i < |t| ==> IsCleanChar(t[i])
    requires NoEdgeSpace(t) && NoDoubleSpace(t)
    ensures var r := RemoveIllegalXmlChars(t);
      && (forall i :: 0 <= i < |r| ==> IsOutputChar(r[i]))
      && NoEdgeSpace(r) && NoDoubleSpace(r)
  {
    var r := RemoveIllegalXmlChars(t);
    RemoveIllegalKeeps(t, IsCleanChar);
    assert forall i :: 0 <= i < |r| ==> !IsIllegalXml(r[i]);
    RemoveIsolated(t);
    RemoveIllegalEnds(t);
  }

  /**
    On text the substitutions have nothing to do on (admitted characters only, no URL
    start, no whitespace pair, no whitespace at the ends) the chain only lowers the text
    and drops its illegal characters.
   */
  lemma NormalizeOnPlainText(s: string)
    requires AllAllowed(s) && NoUrl(s) && NoDoubleSpace(s) && NoEdgeSpace(s)
    ensures Normalize(s) == RemoveIllegalXmlChars(LowerAll(s))
  {
    SubstitutionsOnPlainText(s);
    StripNoEdgeSpace(LowerAll(s));
  }

  /** Lines 47-50 find nothing to remove or replace in admitted text without a URL start. */
  lemma RemovalsOnPlainText(s: string)
    requires AllAllowed(s) && NoUrl(s)
    ensures ReplaceDisallowed(RemoveTags(RemoveUrls(RemoveEmails(s)))) == s
  {
    assert NoEmail(s) by {
      forall k | 0 <= k < |s| ensures !EmailAt(s, k) {
        assert IsAllowed(s[k]);
      }
    }
    NoEmailUnchanged(s);
    NoUrlUnchanged(s);
    forall i | 0 <= i < |s| ensures s[i] != '<' {
      assert IsAllowed(s[i]);
    }
    NoOpenUnchanged(s);
  }

  lemma SubstitutionsOnPlainText(s: string)
    requires AllAllowed(s) && NoUrl(s) && NoDoubleSpace(s)
    ensures Substitutions(s) == s
  {
    RemovalsOnPlainText(s);
    NoDoubleSpaceNoDoubleNewline(s);
    NoDoubleNewlineUnchanged(s);
    NoDoubleSpaceUnchanged(s);
  }

  /** Clean text without a URL start is a fixed point of the chain. */
  lemma NormalizeFixpoint(s: string)
    requires forall i :: 0 <= i < |s| ==> IsOutputChar(s[i])
    requires NoUrl(s) && NoDoubleSpace(s) && NoEdgeSpace(s)
    ensures Normalize(s) == s
  {
    forall i | 0 <= i < |s| ensures IsAllowed(s[i]) && !IsIllegalXml(s[i]) && !IsAsciiUpper(s[i]) {
      assert IsOutputChar(s[i]);
    }
    NormalizeOnPlainText(s);
    assert LowerAll(s) == s;
    assert RemoveIllegalXmlChars(s) == s;
  }

  /** A second pass changes nothing, as long as the first left no URL start behind. */
  lemma NormalizeIdempotentWithoutUrl(body: string)
    requires NoUrl(Normalize(body))
    ensures Normalize(Normalize(body)) == Normalize(body)
  {
    NormalizeFixpoint(Normalize(body));
  }

  /**
    The URL pattern is case-sensitive and runs before the lowering, so an upper-case
    `HTTPS` survives the first pass as `https`, which a second pass removes: the chain is
    not idempotent.
   */
  lemma NormalizeNotIdempotent()
    ensures Normalize("HTTPS") == "https"
    ensures Normalize("https") == ""
  {
    UpperHttpsIsPlain();
    NormalizeOnPlainText("HTTPS");
    LowerHttps();
    HttpsSubstitutions();
    BlankFinalize();
  }

  lemma UpperHttpsIsPlain()
    ensures AllAllowed("HTTPS") && NoUrl("HTTPS") && NoDoubleSpace("HTTPS") && NoEdgeSpace("HTTPS")
  {
    var upper := "HTTPS";
    forall i | 0 <= i < |upper| ensures !UrlAt(upper, i) {
      if i == 0 {
        assert upper[0..4][0] == 'H';
      }
    }
  }

  lemma LowerHttps()
    ensures RemoveIllegalXmlChars(LowerAll("HTTPS")) == "https"
  {
    assert LowerAll("HTTPS") == "https";
    assert NoIllegalXml("https");
  }

  lemma HttpsSubstitutions()
    ensures Substitutions("https") == " "
  {
    var lower := "https";
    assert NoEmail(lower);
    NoEmailUnchanged(lower);
    HttpsUrl();
    NoOpenUnchanged(" ");
    assert ReplaceDisallowed(" ") == " ";
    NoDoubleNewlineUnchanged(" ");
    NoDoubleSpaceUnchanged(" ");
  }

  lemma HttpsUrl()
    ensures RemoveUrls("https") == " "
  {
    var lower := "https";
    assert WordEnd(lower, 0) == 5;
    assert lower[..5] == lower;
    assert lower[5..] == [];
    assert UrlAt(lower, 0) by {
      assert lower[0..4] == "http";
    }
    assert lower[..0] == [];
    assert CutUrl(lower) == " ";
  }

  lemma BlankFinalize()
    ensures Finalize(" ") == ""
  {
    assert LowerAll(" ") == " ";
    assert AllSpace(" ");
  }

  /**
    A whitespace control character ends the word `http` for the URL pattern and is only
    deleted at the last step, after which the two halves meet: a URL start is left in the
    output.
   */
  lemma NormalizeCanLeaveUrl()
    ensures Normalize("http\U{1F}a") == "httpa"
    ensures UrlAt("httpa", 0)
  {
    ControlSplitIsPlain();
    NormalizeOnPlainText("http\U{1F}a");
    ControlSplitLowered();
    HttpaHasUrl();
  }

  lemma HttpaHasUrl()
    ensures UrlAt("httpa", 0)
  {
    assert "httpa"[0..4] == "http";
  }

  lemma ControlSplitIsPlain()
    ensures var s := "http\U{1F}a";
      AllAllowed(s) && NoUrl(s) && NoDoubleSpace(s) && NoEdgeSpace(s)
  {
    var s := "http\U{1F}a";
    assert IsSpace(s[4]);
    forall i | 0 <= i < |s| ensures !UrlAt(s, i) {
    }
    forall i | 0 <= i < |s| ensures !DoubleSpaceAt(s, i) {
      assert !IsSpace(s[3]) && !IsSpace(s[5]);
    }
  }

  lemma ControlSplitLowered()
    ensures RemoveIllegalXmlChars(LowerAll("http\U{1F}a")) == "httpa"
  {
    var s := "http\U{1F}a";
    ControlSplitPieces();
    RemoveIllegalSkipOne(s, 4);
  }

  lemma ControlSplitPieces()
    ensures var s := "http\U{1F}a";
      && LowerAll(s) == s && IsIllegalXml(s[4])
      && NoIllegalXml(s[..4]) && NoIllegalXml(s[5..]) && s[..4] + s[5..] == "httpa"
  {
    var s := "http\U{1F}a";
    assert LowerAll(s) == s;
    assert NoIllegalXml(s[..4]) && NoIllegalXml(s[5..]);
  }

  /** The body after the blank-line cut and the line filter, then the substitution chain. */
  function CleanText(raw: string): (r: string)
    ensures forall i :: 0 <= i < |r| ==> IsOutputChar(r[i])
    ensures NoEdgeSpace(r) && NoDoubleSpace(r)
  {
    Normalize(Join("\n", KeptLines(raw)))
  }

  /**
    `clean_body(v)`: a missing value gives `""`; a string is cleaned; any other value makes
    `re.split` raise, which the model reports as `None`.
   */
  function CleanBody(v: Cell): (r: Option<string>)
    ensures v.Missing? ==> r == Some("")
    ensures v.Number? ==> r == None
    ensures v.Str? ==> r.Some? && NoEdgeSpace(r.value) && NoDoubleSpace(r.value)
    ensures v.Str? ==> forall i :: 0 <= i < |r.value| ==> IsOutputChar(r.value[i])
  {
    match v
    case Missing => Some("")
    case Number(_) => None
    case Str(s) => Some(CleanText(s))
  }

  // ---------------------------------------------------------------------------
  // The script

  /** The row filter: the cleaned text, stripped, has at least 60 characters. */
  predicate LongEnough(text: string) {
    |Strip(text)| >= MinTextLen
  }

  /** A record as the script saves it: clean long text, no illegal character in any string column. */
  predicate IsFinalRecord(rec: Record) {
    && rec.text.Str? && |rec.text.s| >= MinTextLen
    && NoEdgeSpace(rec.text.s) && NoDoubleSpace(rec.text.s)
    && (forall k :: 0 <= k < |rec.text.s| ==> IsOutputChar(rec.text.s[k]))
    && (rec.filename.Str? ==> NoIllegalXml(rec.filename.s))
    && (rec.category.Str? ==> NoIllegalXml(rec.category.s))
  }

  /** The record with its cleaned text and every string column passed through the illegal-character removal. */
  function Finish(rec: Record, text: string): Record {
    Record(RemoveIllegalCell(rec.filename), RemoveIllegalCell(rec.category), RemoveIllegalCell(Str(text)))
  }

  /** A text without whitespace at its ends is its own `strip()`. */
  lemma StripNoEdgeSpace(s: string)
    requires NoEdgeSpace(s)
    ensures Strip(s) == s
  {
    if |s| > 0 {
      assert LeadingSpace(s) == 0;
      assert LStrip(s) == s;
      assert TrailingSpace(s) == 0;
    }
  }

  /**
    Lines 69-79: clean every text (the run fails when a text is neither a string nor
    missing), keep the records whose cleaned text is long enough, in order, and strip
    illegal characters from every string column.
   */
  function FinalDataset(rows: seq<Record>): (out: Option<seq<Record>>)
    ensures out.None? <==> exists i :: 0 <= i < |rows| && rows[i].text.Number?
    ensures out.Some? ==> |out.value| <= |rows|
    ensures out.Some? ==> forall i :: 0 <= i < |out.value| ==> IsFinalRecord(out.value[i])
  {
    if |rows| == 0 then Some([])
    else
      var rest := FinalDataset(rows[1..]);
      NumberTextSplit(rows);
      match CleanBody(rows[0].text)
      case None => None
      case Some(t) =>
        if rest.None? then None
        else
          var kept := KeptRecord(rows[0], t);
          FinalConcat(kept, rest.value);
          Some(kept + rest.value)
  }

  /** The record, finished, when its cleaned text passes the row filter; nothing otherwise. */
  function KeptRecord(rec: Record, text: string): (kept: seq<Record>)
    requires NoEdgeSpace(text) && NoDoubleSpace(text)
    requires forall k :: 0 <= k < |text| ==> IsOutputChar(text[k])
    ensures |kept| <= 1 && (kept != [] <==> LongEnough(text))
    ensures forall i :: 0 <= i < |kept| ==> IsFinalRecord(kept[i])
  {
    if LongEnough(text) then
      forall k | 0 <= k < |text| ensures !IsIllegalXml(text[k]) {
        assert IsOutputChar(text[k]);
      }
      StripNoEdgeSpace(text);
      [Finish(rec, text)]
    else []
  }

  /** The cleaned text of a value `clean_body` accepts. */
  function CleanedCellText(v: Cell): string {
    match CleanBody(v)
    case Some(t) => t
    case None => ""
  }

  /** The row filter on a record's cleaned text. */
  predicate Passes(rec: Record) {
    LongEnough(CleanedCellText(rec.text))
  }

  function FinishAll(rows: seq<Record>): (out: seq<Record>)
    ensures |out| == |rows|
    ensures forall i :: 0 <= i < |rows| ==> out[i] == Finish(rows[i], CleanedCellText(rows[i].text))
  {
    if |rows| == 0 then [] else [Finish(rows[0], CleanedCellText(rows[0].text))] + FinishAll(rows[1..])
  }

  /**
    When every text is a string or missing, the saved records are exactly the input records
    whose cleaned text passes the row filter, in their original order, each finished.
   */
  lemma {:induction false} FinalDatasetIsFilter(rows: seq<Record>)
    requires forall i :: 0 <= i < |rows| ==> !rows[i].text.Number?
    ensures FinalDataset(rows) == Some(FinishAll(Filter(rows, Passes)))
    decreases |rows|
  {
    if |rows| > 0 {
      assert forall i :: 0 <= i < |rows[1..]| ==> !rows[1..][i].text.Number? by {
        forall i | 0 <= i < |rows[1..]| ensures !rows[1..][i].text.Number? {
          assert rows[1..][i] == rows[i + 1];
        }
      }
      FinalDatasetIsFilter(rows[1..]);
      var rest := Filter(rows[1..], Passes);
      var t := CleanedCellText(rows[0].text);
      assert CleanBody(rows[0].text) == Some(t);
      assert FinalDataset(rows) == Some(KeptRecord(rows[0], t) + FinishAll(rest));
      if Passes(rows[0]) {
        assert Filter(rows, Passes) == [rows[0]] + rest;
        assert FinishAll([rows[0]] + rest) == [Finish(rows[0], t)] + FinishAll(rest) by {
          assert ([rows[0]] + rest)[1..] == rest;
        }
        assert KeptRecord(rows[0], t) == [Finish(rows[0], t)];
      } else {
        assert Filter(rows, Passes) == rest;
        assert KeptRecord(rows[0], t) == [];
        assert KeptRecord(rows[0], t) + FinishAll(rest) == FinishAll(rest);
      }
    }
  }

  lemma NumberTextSplit(rows: seq<Record>)
    requires |rows| > 0
    ensures (exists i :: 0 <= i < |rows| && rows[i].text.Number?) <==>
      rows[0].text.Number? || exists i :: 0 <= i < |rows[1..]| && rows[1..][i].text.Number?
  {
    if exists i :: 0 <= i < |rows| && rows[i].text.Number? {
      var i :| 0 <= i < |rows| && rows[i].text.Number?;
      if i > 0 {
        assert rows[1..][i - 1] == rows[i];
      }
    }
  }

  lemma FinalConcat(a: seq<Record>, b: seq<Record>)
    requires forall i :: 0 <= i < |a| ==> IsFinalRecord(a[i])
    requires forall i :: 0 <= i < |b| ==> IsFinalRecord(b[i])
    ensures forall i :: 0 <= i < |a + b| ==> IsFinalRecord((a + b)[i])
  {
    forall i | 0 <= i < |a + b| ensures IsFinalRecord((a + b)[i]) {
      if i < |a| {
        assert (a + b)[i] == a[i];
      } else {
        assert (a + b)[i] == b[i - |a|];
      }
    }
  }
}
