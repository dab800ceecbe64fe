/**
  The regular-expression steps the two scripts share, written out as the leftmost,
  greedy scans Python's `re` module performs:
  - `re.split(r"\n\s*\n", s, maxsplit=1)`, the cut at the first blank-line boundary;
  - `re.split(r"\n{2,}", s)`, the split into paragraphs, followed by stripping each piece
    and dropping the blank ones;
  - `re.sub(r"<[^>]+>", " ", s)`, the tag removal.
 */
module Patterns {
  import opened Chars
  import opened Text
  import opened Maybe
  import opened Seqs

  // ---------------------------------------------------------------------------
  // The first blank-line boundary

  /** `\n\s*\n` matches the text from index `i` to index `j` (both newlines). */
  ghost predicate BlankMatch(s: string, i: int, j: int) {
    && 0 <= i < j < |s|
    && s[i] == '\n' && s[j] == '\n'
    && forall m :: i < m < j ==> IsSpace(s[m])
  }

  /** End of the whitespace run that starts at `k`. */
  function SpaceRunEnd(s: string, k: nat): (e: nat)
    requires k <= |s|
    ensures k <= e <= |s|
    ensures forall m :: k <= m < e ==> IsSpace(s[m])
    ensures e < |s| ==> !IsSpace(s[e])
    decreases |s| - k
  {
    if k < |s| && IsSpace(s[k]) then SpaceRunEnd(s, k + 1) else k
  }

  /** Index of the last newline in `s[a..b]`. */
  function LastNewline(s: string, a: nat, b: nat): (r: Option<nat>)
    requires a <= b <= |s|
    ensures r.Some? ==> a <= r.value < b && s[r.value] == '\n'
    ensures r.Some? ==> forall m :: r.value < m < b ==> s[m] != '\n'
    ensures r.None? ==> forall m :: a <= m < b ==> s[m] != '\n'
    decreases b - a
  {
    if a == b then None
    else if s[b - 1] == '\n' then Some(b - 1)
    else LastNewline(s, a, b - 1)
  }

  /**
    The leftmost match of `\n\s*\n` that starts at or after `i`, as the indices of its
    first and last newline. The greedy `\s*` makes the match as long as possible.
   */
  function BlankCut(s: string, i: nat): (r: Option<(nat, nat)>)
    requires i <= |s|
    ensures r.Some? ==> i <= r.value.0 && BlankMatch(s, r.value.0, r.value.1)
    ensures r.Some? ==> forall a, b :: i <= a < r.value.0 ==> !BlankMatch(s, a, b)
    ensures r.Some? ==> forall b :: r.value.1 < b ==> !BlankMatch(s, r.value.0, b)
    ensures r.None? ==> forall a, b :: i <= a ==> !BlankMatch(s, a, b)
    decreases |s| - i
  {
    if i == |s| then None
    else if s[i] == '\n' then
      var e := SpaceRunEnd(s, i + 1);
      var last := LastNewline(s, i + 1, e);
      assert forall b :: BlankMatch(s, i, b) ==> b < e && s[b] == '\n';
      if last.Some? then Some((i, last.value)) else BlankCut(s, i + 1)
    else BlankCut(s, i + 1)
  }

  /**
    The body part of the header/body cut: the text after the first blank-line boundary,
    or all of `s` when it has none.
   */
  function BodyAfterBlank(s: string): (body: string)
    ensures |body| <= |s| && body == s[|s| - |body|..]
    ensures (forall a, b :: !BlankMatch(s, a, b)) <==> body == s
  {
    match BlankCut(s, 0)
    case Some((_, j)) => s[j + 1..]
    case None => s
  }

  /**
    A header block whose every newline is followed by visible text is dropped whole, with
    the blank line after it: nothing of it reaches the scanned body.
   */
  lemma HeaderBlockIgnored(h: string, b: string)
    requires forall k :: 0 <= k < |h| && h[k] == '\n' ==> k + 1 < |h| && !IsSpace(h[k + 1])
    requires b == [] || !IsSpace(b[0])
    ensures BodyAfterBlank(h + "\n\n" + b) == b
  {
    var s := h + "\n\n" + b;
    var n := |h|;
    assert s[n] == '\n' && s[n + 1] == '\n';
    assert BlankMatch(s, n, n + 1);
    forall a, c | 0 <= a < n ensures !BlankMatch(s, a, c) {
      if s[a] == '\n' {
        assert h[a] == '\n';
        assert s[a + 1] == h[a + 1];
      }
    }
    forall c | n + 1 < c ensures !BlankMatch(s, n, c) {
      if c < |s| {
        assert s[n + 2] == b[0];
      }
    }
    var r := BlankCut(s, 0);
    assert r.Some?;
    assert r.value.0 == n;
    assert r.value.1 == n + 1;
    assert s[n + 2..] == b;
  }

  // ---------------------------------------------------------------------------
  // Paragraphs

  predicate NoDoubleNewline(s: string) {
    forall m :: 0 <= m < |s| - 1 ==> !(s[m] == '\n' && s[m + 1] == '\n')
  }

  /** Index of the first `\n\n` at or after `k`, or `|s|` when there is none. */
  function DoubleNewlineAt(s: string, k: nat): (i: nat)
    requires k <= |s|
    ensures k <= i <= |s|
    ensures i < |s| ==> i + 1 < |s| && s[i] == '\n' && s[i + 1] == '\n'
    ensures forall m :: k <= m < i && m + 1 < |s| ==> !(s[m] == '\n' && s[m + 1] == '\n')
    decreases |s| - k
  {
    if k + 1 >= |s| then |s|
    else if s[k] == '\n' && s[k + 1] == '\n' then k
    else DoubleNewlineAt(s, k + 1)
  }

  /** End of the run of newlines that starts at `k`. */
  function NewlineRunEnd(s: string, k: nat): (e: nat)
    requires k <= |s|
    ensures k <= e <= |s|
    ensures forall m :: k <= m < e ==> s[m] == '\n'
    ensures e < |s| ==> s[e] != '\n'
    decreases |s| - k
  {
    if k < |s| && s[k] == '\n' then NewlineRunEnd(s, k + 1) else k
  }

  /** `re.split(r"\n{2,}", s)`: the pieces between runs of two or more newlines. */
  function SplitBlankRuns(s: string): (pieces: seq<string>)
    ensures |pieces| >= 1
    ensures forall i :: 0 <= i < |pieces| ==> NoDoubleNewline(pieces[i])
    ensures NoDoubleNewline(s) ==> pieces == [s]
    decreases |s|
  {
    var i := DoubleNewlineAt(s, 0);
    if i == |s| then [s]
    else
      var e := NewlineRunEnd(s, i);
      assert e >= i + 2;
      [s[..i]] + SplitBlankRuns(s[e..])
  }

  /** Every piece is whitespace only. */
  predicate AllBlank(pieces: seq<string>) {
    |pieces| == 0 || (AllSpace(pieces[0]) && AllBlank(pieces[1..]))
  }

  /** The pieces that are not blank, each stripped. */
  function StrippedNonEmpty(pieces: seq<string>): (paras: seq<string>)
    ensures |paras| <= |pieces|
    ensures forall i :: 0 <= i < |paras| ==> paras[i] != [] && NoEdgeSpace(paras[i])
    ensures paras == [] <==> AllBlank(pieces)
  {
    if |pieces| == 0 then [] else StrippedOne(pieces[0]) + StrippedNonEmpty(pieces[1..])
  }

  /** One piece, stripped, or nothing when it is blank. */
  function StrippedOne(p: string): (r: seq<string>)
    ensures r == [] <==> AllSpace(p)
    ensures r != [] ==> r == [Strip(p)]
  {
    if Strip(p) != [] then [Strip(p)] else []
  }

  /** The paragraphs of `s`: the non-blank pieces between newline runs, each stripped. */
  function Paragraphs(s: string): (paras: seq<string>)
    ensures forall i :: 0 <= i < |paras| ==> paras[i] != [] && NoEdgeSpace(paras[i])
  {
    StrippedNonEmpty(SplitBlankRuns(s))
  }

  /** The text splits into no paragraph at all exactly when it is all whitespace. */
  lemma {:induction false} NoParagraphsIffBlank(s: string)
    ensures Paragraphs(s) == [] <==> AllSpace(s)
    decreases |s|
  {
    AllBlankSplit(s);
  }

  lemma {:induction false} AllBlankSplit(s: string)
    ensures AllBlank(SplitBlankRuns(s)) <==> AllSpace(s)
    decreases |s|
  {
    var pieces := SplitBlankRuns(s);
    var i := DoubleNewlineAt(s, 0);
    if i < |s| {
      var e := NewlineRunEnd(s, i);
      var rest := s[e..];
      AllBlankSplit(rest);
      assert pieces == [s[..i]] + SplitBlankRuns(rest);
      assert pieces[1..] == SplitBlankRuns(rest);
      AllSpaceAroundRun(s, i, e);
    }
  }

  /** Whitespace on both sides of a newline run is whitespace throughout. */
  lemma AllSpaceAroundRun(s: string, i: nat, e: nat)
    requires i <= e <= |s| && forall m :: i <= m < e ==> s[m] == '\n'
    ensures AllSpace(s) <==> AllSpace(s[..i]) && AllSpace(s[e..])
  {
    if AllSpace(s[..i]) && AllSpace(s[e..]) {
      forall m | 0 <= m < |s| ensures IsSpace(s[m]) {
        if m < i {
          assert s[m] == s[..i][m];
        } else if m >= e {
          assert s[m] == s[e..][m - e];
        }
      }
    }
  }

  /** The end of a newline run is fixed by the run: newlines up to `e`, and none at `e`. */
  lemma NewlineRunEndIs(s: string, k: nat, e: nat)
    requires k <= e <= |s|
    requires forall m :: k <= m < e ==> s[m] == '\n'
    requires e < |s| ==> s[e] != '\n'
    ensures NewlineRunEnd(s, k) == e
  {
  }

  lemma SpaceRunEndIs(s: string, k: nat, e: nat)
    requires k <= e <= |s|
    requires forall m :: k <= m < e ==> IsSpace(s[m])
    requires e < |s| ==> !IsSpace(s[e])
    ensures SpaceRunEnd(s, k) == e
  {
  }

  /** The first `\n\n` is fixed by its position: a pair at `i`, and none before it. */
  lemma DoubleNewlineAtIs(s: string, k: nat, i: nat)
    requires k <= i && i + 1 < |s| && s[i] == '\n' && s[i + 1] == '\n'
    requires forall m :: k <= m < i ==> !(s[m] == '\n' && s[m + 1] == '\n')
    ensures DoubleNewlineAt(s, k) == i
  {
  }

  /**
    A piece without a doubled newline and not ending in one, then a run of two or more
    newlines, then text not starting with a newline: the split yields that piece and then
    the split of the rest.
   */
  lemma SplitBlankRunsAtRun(p: string, w: string, rest: string)
    requires NoDoubleNewline(p) && (p == [] || p[|p| - 1] != '\n')
    requires |w| >= 2 && forall m :: 0 <= m < |w| ==> w[m] == '\n'
    requires rest == [] || rest[0] != '\n'
    ensures SplitBlankRuns(p + w + rest) == [p] + SplitBlankRuns(rest)
  {
    var s := p + w + rest;
    forall m | 0 <= m < |p| ensures !(s[m] == '\n' && s[m + 1] == '\n') {
      if m + 1 < |p| {
        assert s[m] == p[m] && s[m + 1] == p[m + 1];
      } else {
        assert s[m] == p[|p| - 1];
      }
    }
    assert s[|p|] == w[0] && s[|p| + 1] == w[1];
    DoubleNewlineAtIs(s, 0, |p|);
    forall m | |p| <= m < |p| + |w| ensures s[m] == '\n' {
      assert s[m] == w[m - |p|];
    }
    if |p| + |w| < |s| {
      assert s[|p| + |w|] == rest[0];
    }
    NewlineRunEndIs(s, |p|, |p| + |w|);
    assert s[..|p|] == p;
    assert s[|p| + |w|..] == rest;
  }

  /** Stripping and dropping blank pieces works piece by piece, keeping the order. */
  lemma {:induction false} StrippedNonEmptyConcat(a: seq<string>, b: seq<string>)
    ensures StrippedNonEmpty(a + b) == StrippedNonEmpty(a) + StrippedNonEmpty(b)
    decreases |a|
  {
    if |a| == 0 {
      assert a + b == b;
    } else {
      StrippedNonEmptyConcat(a[1..], b);
      ConsConcat(a, b);
      SeqConcatAssoc(StrippedOne(a[0]), StrippedNonEmpty(a[1..]), StrippedNonEmpty(b));
    }
  }

  /** One piece gives its stripped form, or nothing when it is blank. */
  lemma StrippedNonEmptyOne(p: string)
    ensures StrippedNonEmpty([p]) == if AllSpace(p) then [] else [Strip(p)]
  {
    assert [p][1..] == [];
    assert StrippedNonEmpty([p]) == StrippedOne(p) + [];
  }

  /**
    The paragraphs of a text made of a piece, a run of two or more newlines and a rest:
    the piece stripped (nothing when it is blank), then the paragraphs of the rest.
   */
  lemma ParagraphsAtRun(p: string, w: string, rest: string)
    requires NoDoubleNewline(p) && (p == [] || p[|p| - 1] != '\n')
    requires |w| >= 2 && forall m :: 0 <= m < |w| ==> w[m] == '\n'
    requires rest == [] || rest[0] != '\n'
    ensures Paragraphs(p + w + rest) == (if AllSpace(p) then [] else [Strip(p)]) + Paragraphs(rest)
  {
    SplitBlankRunsAtRun(p, w, rest);
    StrippedNonEmptyConcat([p], SplitBlankRuns(rest));
    StrippedNonEmptyOne(p);
  }

  // ---------------------------------------------------------------------------
  // Tags

  /** Index of the first `c` at or after `k`, or `|s|`. */
  function IndexFrom(s: string, c: char, k: nat): (i: nat)
    requires k <= |s|
    ensures k <= i <= |s|
    ensures i < |s| ==> s[i] == c
    ensures forall m :: k <= m < i ==> s[m] != c
    decreases |s| - k
  {
    if k == |s| || s[k] == c then k else IndexFrom(s, c, k + 1)
  }

  /** `<[^>]+>` matches at the start of `s`. */
  predicate TagAt(s: string) {
    |s| >= 2 && s[0] == '<' && s[1] != '>' && '>' in s[2..]
  }

  predicate NoTag(s: string) {
    forall i :: 0 <= i < |s| ==> !TagAt(s[i..])
  }

  /** Every character of `r` is a space or occurs in `s`. */
  predicate FromInput(r: string, s: string) {
    forall i :: 0 <= i < |r| ==> r[i] == ' ' || r[i] in s
  }

  /**
    The tag substitution: each tag, from a `<` to the first `>` after it, becomes
    one space. Nothing else changes, and no tag is left.
   */
  function RemoveTags(s: string): (r: string)
    ensures FromInput(r, s)
    ensures |s| > 0 && s[0] != '<' ==> |r| > 0 && r[0] == s[0]
    ensures NoTag(r)
    decreases |s|
  {
    if |s| == 0 then []
    else if TagAt(s) then
      var k := IndexFrom(s, '>', 2);
      var rest := RemoveTags(s[k + 1..]);
      FromInputSuffix(rest, s, k + 1);
      NoTagAfterSpace(rest);
      " " + rest
    else
      var rest := RemoveTags(s[1..]);
      FromInputSuffix(rest, s, 1);
      NoTagAfterChar(s, rest);
      [s[0]] + rest
  }

  lemma FromInputSuffix(rest: string, s: string, j: nat)
    requires j <= |s| && FromInput(rest, s[j..])
    ensures FromInput(rest, s) && FromInput(" " + rest, s)
    ensures j > 0 ==> FromInput([s[0]] + rest, s)
  {
    forall i | 0 <= i < |rest| && rest[i] != ' ' ensures rest[i] in s {
      var m :| 0 <= m < |s[j..]| && s[j..][m] == rest[i];
      assert s[j + m] == rest[i];
    }
    var r := " " + rest;
    forall i | 1 <= i < |r| ensures r[i] == ' ' || r[i] in s {
      assert r[i] == rest[i - 1];
    }
    if j > 0 {
      var q := [s[0]] + rest;
      forall i | 1 <= i < |q| ensures q[i] == ' ' || q[i] in s {
        assert q[i] == rest[i - 1];
      }
    }
  }

  lemma NoTagAfterSpace(rest: string)
    requires NoTag(rest)
    ensures NoTag(" " + rest)
  {
    var r := " " + rest;
    forall i | 1 <= i < |r| ensures !TagAt(r[i..]) {
      assert r[i..] == rest[i - 1..];
    }
  }

  lemma NoTagAfterChar(s: string, rest: string)
    requires |s| > 0 && !TagAt(s) && NoTag(rest) && FromInput(rest, s[1..])
    requires |s| == 1 ==> rest == []
    requires |s| > 1 && s[1] != '<' ==> |rest| > 0 && rest[0] == s[1]
    ensures NoTag([s[0]] + rest)
  {
    var r := [s[0]] + rest;
    forall i | 1 <= i < |r| ensures !TagAt(r[i..]) {
      assert r[i..] == rest[i - 1..];
    }
    if |r| >= 2 && r[0] == '<' && r[1] != '>' {
      assert s[1] != '>';
      assert '>' !in s[2..];
      forall i | 2 <= i < |r| ensures r[i] != '>' {
        assert r[i] == rest[i - 1];
        if rest[i - 1] != ' ' {
          var m :| 0 <= m < |s[1..]| && s[1..][m] == rest[i - 1];
          if m > 0 {
            assert s[1..][m] == s[2..][m - 1];
          }
        }
      }
      assert '>' !in r[2..];
    }
  }

  /** Text without a `<` has no tag and passes unchanged. */
  lemma {:induction false} NoOpenUnchanged(s: string)
    requires forall i :: 0 <= i < |s| ==> s[i] != '<'
    ensures RemoveTags(s) == s
    decreases |s|
  {
    if |s| > 0 {
      NoOpenUnchanged(s[1..]);
    }
  }
}
