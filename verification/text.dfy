/**
  The Python `str` operations the pipeline relies on, over `string` (a sequence of Unicode
  scalar values, like a Python `str` of code points): `strip`, `splitlines`, `join`,
  `startswith`, and case-insensitive literal matching as `re.I` performs it.
 */
module Text {
  import opened Chars

  predicate AllSpace(s: string) {
    forall i :: 0 <= i < |s| ==> IsSpace(s[i])
  }

  lemma AllSpaceConcat(a: string, b: string)
    ensures AllSpace(a + b) <==> AllSpace(a) && AllSpace(b)
  {
    var s := a + b;
    assert forall i :: 0 <= i < |a| ==> s[i] == a[i];
    assert forall i :: 0 <= i < |b| ==> s[|a| + i] == b[i];
    if AllSpace(a) && AllSpace(b) {
      forall i | 0 <= i < |s| ensures IsSpace(s[i]) {
        if i >= |a| { assert s[i] == b[i - |a|]; }
      }
    }
  }

  /** Neither end of `s` is whitespace: what `str.strip()` guarantees. */
  predicate NoEdgeSpace(s: string) {
    |s| == 0 || (!IsSpace(s[0]) && !IsSpace(s[|s| - 1]))
  }

  predicate NoLineBreak(s: string) {
    forall i :: 0 <= i < |s| ==> !IsLineBreak(s[i])
  }

  predicate StartsWith(s: string, w: string) {
    |w| <= |s| && s[..|w|] == w
  }

  /** Number of whitespace characters `str.lstrip()` removes. */
  function LeadingSpace(s: string): (n: nat)
    ensures n <= |s|
    ensures AllSpace(s[..n])
    ensures n < |s| ==> !IsSpace(s[n])
  {
    if |s| > 0 && IsSpace(s[0]) then
      var m := LeadingSpace(s[1..]);
      assert forall i :: 1 <= i < 1 + m ==> s[i] == s[1..][..m][i - 1];
      1 + m
    else 0
  }

  /** Number of whitespace characters `str.rstrip()` removes. */
  function TrailingSpace(s: string): (n: nat)
    ensures n <= |s|
    ensures AllSpace(s[|s| - n..])
    ensures n < |s| ==> !IsSpace(s[|s| - n - 1])
  {
    if |s| > 0 && IsSpace(s[|s| - 1]) then
      var m := TrailingSpace(s[..|s| - 1]);
      assert forall i :: |s| - 1 - m <= i < |s| - 1 ==> s[i] == s[..|s| - 1][i];
      1 + m
    else 0
  }

  /** `str.lstrip()` */
  function LStrip(s: string): (r: string)
    ensures r == s[LeadingSpace(s)..]
    ensures |r| > 0 ==> !IsSpace(r[0])
    ensures r == [] <==> AllSpace(s)
  {
    var n := LeadingSpace(s);
    assert AllSpace(s) ==> n == |s|;
    s[n..]
  }

  /** `str.rstrip()` */
  function RStrip(s: string): (r: string)
    ensures r == s[..|s| - TrailingSpace(s)]
    ensures |r| > 0 ==> !IsSpace(r[|r| - 1])
    ensures r == [] <==> AllSpace(s)
  {
    var n := TrailingSpace(s);
    assert AllSpace(s) ==> n == |s|;
    assert n < |s| ==> s[|s| - n - 1] == s[..|s| - n][|s| - n - 1];
    s[..|s| - n]
  }

  /**
    `str.strip()`: the slice of `s` that starts at `LeadingSpace(s)`, has whitespace only
    outside it, and has no whitespace at either of its own ends.
   */
  function Strip(s: string): (r: string)
    ensures NoEdgeSpace(r)
    ensures LeadingSpace(s) + |r| <= |s|
    ensures r == s[LeadingSpace(s)..LeadingSpace(s) + |r|]
    ensures AllSpace(s[..LeadingSpace(s)]) && AllSpace(s[LeadingSpace(s) + |r|..])
    ensures r == [] <==> AllSpace(s)
  {
    var l := LStrip(s);
    var r := RStrip(l);
    assert |r| > 0 ==> r[0] == l[0];
    assert s[LeadingSpace(s) + |r|..] == l[|r|..];
    r
  }

  /** `w` occurs at the start of `s` under `re.I` (`w` written in lower case). */
  predicate CiPrefix(s: string, w: string) {
    |w| <= |s| && forall i :: 0 <= i < |w| ==> CaseFoldEq(s[i], w[i])
  }

  /** `re.search` of the literal `w` under `re.I` finds a match somewhere in `s`. */
  predicate CiContains(s: string, w: string)
    decreases |s|
  {
    CiPrefix(s, w) || (|s| > 0 && CiContains(s[1..], w))
  }

  /** Index of the first line boundary of `s`, or `|s|` when there is none. */
  function LineEnd(s: string): (n: nat)
    ensures n <= |s|
    ensures NoLineBreak(s[..n])
    ensures n < |s| ==> IsLineBreak(s[n])
  {
    if |s| == 0 || IsLineBreak(s[0]) then 0
    else
      var m := LineEnd(s[1..]);
      assert forall i :: 1 <= i < 1 + m ==> s[i] == s[1..][..m][i - 1];
      1 + m
  }

  /** Width of the boundary at `n`: `\r\n` is one boundary of two characters. */
  function BreakWidth(s: string, n: nat): (w: nat)
    requires n < |s|
    ensures 1 <= w <= |s| - n
  {
    if s[n] == '\r' && n + 1 < |s| && s[n + 1] == '\n' then 2 else 1
  }

  /**
    `str.splitlines()`: the lines of `s` without their boundaries; no trailing empty
    line after a final boundary, and no lines at all for the empty string.
   */
  function SplitLines(s: string): (lines: seq<string>)
    ensures forall i :: 0 <= i < |lines| ==> NoLineBreak(lines[i])
    ensures lines == [] <==> s == []
    decreases |s|
  {
    if s == [] then []
    else
      var n := LineEnd(s);
      if n == |s| then [s]
      else [s[..n]] + SplitLines(s[n + BreakWidth(s, n)..])
  }

  /** The elements of `xs` with `sep` between neighbours. */
  function Join(sep: string, xs: seq<string>): string
  {
    if |xs| == 0 then ""
    else if |xs| == 1 then xs[0]
    else xs[0] + sep + Join(sep, xs[1..])
  }

  lemma LineEndOfConcat(a: string, b: string)
    requires NoLineBreak(a)
    requires |b| > 0 && IsLineBreak(b[0])
    ensures LineEnd(a + b) == |a|
  {
    var s := a + b;
    assert forall i :: 0 <= i < |a| ==> s[i] == a[i];
    assert s[|a|] == b[0];
  }

  /**
    Splitting text whose only boundaries are `\n` and joining the lines back with `"\n"`
    gives the text back, provided it does not end with a boundary.
   */
  lemma JoinCons(sep: string, x: string, tail: seq<string>)
    requires tail != []
    ensures Join(sep, [x] + tail) == x + sep + Join(sep, tail)
  {
    assert ([x] + tail)[1..] == tail;
  }

  /** The lines of `s` when its first boundary is a `\n` at `n`. */
  lemma SplitLinesAtNewline(s: string, n: nat)
    requires n < |s| && n == LineEnd(s) && s[n] == '\n'
    ensures SplitLines(s) == [s[..n]] + SplitLines(s[n + 1..])
  {
    assert BreakWidth(s, n) == 1;
    SplitLinesStep(s, n, s[n + 1..]);
  }

  /** One step of the line split at the first boundary of a text that has one. */
  lemma SplitLinesStep(s: string, n: nat, rest: string)
    requires s != [] && n == LineEnd(s) && n < |s| && rest == s[n + BreakWidth(s, n)..]
    ensures SplitLines(s) == [s[..n]] + SplitLines(rest)
  {
  }

  /** Every line-break character of `s` is a newline. */
  predicate OnlyNewlineBreaks(s: string) {
    forall i :: 0 <= i < |s| && IsLineBreak(s[i]) ==> s[i] == '\n'
  }

  /** A stripped text whose only line breaks are newlines is the newline-join of its lines. */
  lemma NewlineTextIsJoin(s: string)
    requires OnlyNewlineBreaks(s) && NoEdgeSpace(s)
    ensures Join("\n", SplitLines(s)) == s
  {
    assert |s| > 0 ==> s[|s| - 1] != '\n' by {
      assert IsSpace('\n');
    }
    JoinSplitLines(s);
  }

  /** Joining break-free lines with `"\n"` puts no other line break into the text. */
  lemma {:induction false} JoinOnlyNewlineBreaks(ks: seq<string>)
    requires forall i :: 0 <= i < |ks| ==> NoLineBreak(ks[i])
    ensures OnlyNewlineBreaks(Join("\n", ks))
    decreases |ks|
  {
    if |ks| >= 2 {
      assert forall i :: 0 <= i < |ks[1..]| ==> ks[1..][i] == ks[i + 1];
      JoinOnlyNewlineBreaks(ks[1..]);
      var j := Join("\n", ks[1..]);
      var s := ks[0] + "\n" + j;
      assert forall i :: 0 <= i < |ks[0]| ==> s[i] == ks[0][i];
      assert forall i :: |ks[0]| < i < |s| ==> s[i] == j[i - |ks[0]| - 1];
    }
  }

  /** Stripping keeps a text's line breaks newlines: the result is a slice of the input. */
  lemma StripOnlyNewlineBreaks(s: string)
    requires OnlyNewlineBreaks(s)
    ensures OnlyNewlineBreaks(Strip(s))
  {
    var l := LeadingSpace(s);
    var r := Strip(s);
    forall i | 0 <= i < |r| && IsLineBreak(r[i]) ensures r[i] == '\n' {
      assert r[i] == s[l + i];
    }
  }

  /** A string is the part before position `n`, the character at `n`, and the part after. */
  lemma SplitAround(s: string, n: nat)
    requires n < |s|
    ensures s == s[..n] + [s[n]] + s[n + 1..]
  {
    assert s[n..] == [s[n]] + s[n + 1..];
    assert s == s[..n] + s[n..];
  }

  lemma OnlyNewlinesRest(s: string, n: nat)
    requires forall i :: 0 <= i < |s| && IsLineBreak(s[i]) ==> s[i] == '\n'
    requires |s| > 0 && s[|s| - 1] != '\n'
    requires n < |s| && s[n] == '\n'
    ensures var rest := s[n + 1..];
      && (forall i :: 0 <= i < |rest| && IsLineBreak(rest[i]) ==> rest[i] == '\n')
      && rest != [] && rest[|rest| - 1] != '\n'
  {
    var rest := s[n + 1..];
    forall i | 0 <= i < |rest| && IsLineBreak(rest[i]) ensures rest[i] == '\n' {
      assert rest[i] == s[n + 1 + i];
    }
    assert n < |s| - 1;
    assert rest[|rest| - 1] == s[|s| - 1];
  }

  lemma {:induction false} JoinSplitLines(s: string)
    requires forall i :: 0 <= i < |s| && IsLineBreak(s[i]) ==> s[i] == '\n'
    requires |s| == 0 || s[|s| - 1] != '\n'
    ensures Join("\n", SplitLines(s)) == s
    decreases |s|
  {
    if s != [] {
      var n := LineEnd(s);
      if n < |s| {
        var rest := s[n + 1..];
        OnlyNewlinesRest(s, n);
        JoinSplitLines(rest);
        SplitLinesAtNewline(s, n);
        JoinCons("\n", s[..n], SplitLines(rest));
        SplitAround(s, n);
      } else {
        assert SplitLines(s) == [s];
      }
    }
  }

  /**
    Joining boundary-free lines with `"\n"` and splitting the result gives the lines back,
    provided the last line is not empty.
   */
  lemma {:induction false} SplitJoinLines(xs: seq<string>)
    requires forall i :: 0 <= i < |xs| ==> NoLineBreak(xs[i])
    requires |xs| == 0 || xs[|xs| - 1] != []
    ensures SplitLines(Join("\n", xs)) == xs
    decreases |xs|
  {
    if |xs| == 1 {
      assert LineEnd(xs[0]) == |xs[0]|;
    } else if |xs| > 1 {
      var j := Join("\n", xs[1..]);
      var s := xs[0] + "\n" + j;
      LineEndOfConcat(xs[0], "\n" + j);
      assert s == xs[0] + ("\n" + j);
      assert s[|xs[0]|] == '\n';
      assert BreakWidth(s, |xs[0]|) == 1;
      assert s[|xs[0]| + 1..] == j;
      assert s[..|xs[0]|] == xs[0];
      SplitJoinLines(xs[1..]);
      assert xs == [xs[0]] + xs[1..];
    }
  }

  // ---------------------------------------------------------------------------
  // Stripping text made of joined lines

  /** `LeadingSpace` is the only count whose prefix is whitespace and is followed by a non-space. */
  lemma LeadingSpaceUnique(s: string, n: nat)
    requires n <= |s|
    requires forall i :: 0 <= i < n ==> IsSpace(s[i])
    requires n < |s| ==> !IsSpace(s[n])
    ensures LeadingSpace(s) == n
  {
    LeadingSpaceIndex(s);
  }

  /** `TrailingSpace` is the only count whose suffix is whitespace and is preceded by a non-space. */
  lemma TrailingSpaceUnique(s: string, n: nat)
    requires n <= |s|
    requires forall i :: |s| - n <= i < |s| ==> IsSpace(s[i])
    requires n < |s| ==> !IsSpace(s[|s| - n - 1])
    ensures TrailingSpace(s) == n
  {
    TrailingSpaceIndex(s);
  }

  /** The leading-whitespace count, stated index by index. */
  lemma LeadingSpaceIndex(s: string)
    ensures forall i :: 0 <= i < LeadingSpace(s) ==> IsSpace(s[i])
  {
    var m := LeadingSpace(s);
    forall i | 0 <= i < m ensures IsSpace(s[i]) {
      assert s[..m][i] == s[i];
    }
  }

  /** The trailing-whitespace count, stated index by index. */
  lemma TrailingSpaceIndex(s: string)
    ensures forall i :: |s| - TrailingSpace(s) <= i < |s| ==> IsSpace(s[i])
  {
    var m := TrailingSpace(s);
    forall i | |s| - m <= i < |s| ensures IsSpace(s[i]) {
      assert s[|s| - m..][i - (|s| - m)] == s[i];
    }
  }

  lemma LeadingSpaceConcatBlank(a: string, b: string)
    requires AllSpace(a)
    ensures LeadingSpace(a + b) == |a| + LeadingSpace(b)
  {
    var s := a + b;
    var lb := LeadingSpace(b);
    LeadingSpaceIndex(b);
    forall i | 0 <= i < |a| + lb ensures IsSpace(s[i]) {
      if i >= |a| { assert s[i] == b[i - |a|]; } else { assert s[i] == a[i]; }
    }
    if |a| + lb < |s| { assert s[|a| + lb] == b[lb]; }
    LeadingSpaceUnique(s, |a| + lb);
  }

  lemma LeadingSpaceConcatText(a: string, b: string)
    requires !AllSpace(a)
    ensures LeadingSpace(a + b) == LeadingSpace(a)
  {
    var s := a + b;
    var la := LeadingSpace(a);
    LeadingSpaceIndex(a);
    assert la < |a|;
    forall i | 0 <= i < la ensures IsSpace(s[i]) {
      assert s[i] == a[i];
    }
    assert s[la] == a[la];
    LeadingSpaceUnique(s, la);
  }

  lemma LeadingSpaceConcat(a: string, b: string)
    ensures AllSpace(a) ==> LeadingSpace(a + b) == |a| + LeadingSpace(b)
    ensures !AllSpace(a) ==> LeadingSpace(a + b) == LeadingSpace(a)
  {
    if AllSpace(a) { LeadingSpaceConcatBlank(a, b); } else { LeadingSpaceConcatText(a, b); }
  }

  lemma TrailingSpaceConcatBlank(a: string, b: string)
    requires AllSpace(b)
    ensures TrailingSpace(a + b) == TrailingSpace(a) + |b|
  {
    var s := a + b;
    var ta := TrailingSpace(a);
    TrailingSpaceIndex(a);
    forall i | |s| - (ta + |b|) <= i < |s| ensures IsSpace(s[i]) {
      if i < |a| { assert s[i] == a[i]; } else { assert s[i] == b[i - |a|]; }
    }
    if ta + |b| < |s| { assert s[|s| - (ta + |b|) - 1] == a[|a| - ta - 1]; }
    TrailingSpaceUnique(s, ta + |b|);
  }

  lemma TrailingSpaceConcatText(a: string, b: string)
    requires !AllSpace(b)
    ensures TrailingSpace(a + b) == TrailingSpace(b)
  {
    var s := a + b;
    var tb := TrailingSpace(b);
    TrailingSpaceIndex(b);
    assert tb < |b|;
    forall i | |s| - tb <= i < |s| ensures IsSpace(s[i]) {
      assert s[i] == b[i - |a|];
    }
    assert s[|s| - tb - 1] == b[|b| - tb - 1];
    TrailingSpaceUnique(s, tb);
  }

  lemma TrailingSpaceConcat(a: string, b: string)
    ensures AllSpace(b) ==> TrailingSpace(a + b) == TrailingSpace(a) + |b|
    ensures !AllSpace(b) ==> TrailingSpace(a + b) == TrailingSpace(b)
  {
    if AllSpace(b) { TrailingSpaceConcatBlank(a, b); } else { TrailingSpaceConcatText(a, b); }
  }

  /** `(a + b).lstrip()` strips into `b` exactly when `a` is all whitespace. */
  lemma LStripConcat(a: string, b: string)
    ensures AllSpace(a) ==> LStrip(a + b) == LStrip(b)
    ensures !AllSpace(a) ==> LStrip(a + b) == LStrip(a) + b
  {
    LeadingSpaceConcat(a, b);
    if AllSpace(a) {
      assert (a + b)[|a| + LeadingSpace(b)..] == b[LeadingSpace(b)..];
    } else {
      assert (a + b)[LeadingSpace(a)..] == a[LeadingSpace(a)..] + b;
    }
  }

  /** `(a + b).rstrip()` strips into `a` exactly when `b` is all whitespace. */
  lemma RStripConcat(a: string, b: string)
    ensures AllSpace(b) ==> RStrip(a + b) == RStrip(a)
    ensures !AllSpace(b) ==> RStrip(a + b) == a + RStrip(b)
  {
    TrailingSpaceConcat(a, b);
    if AllSpace(b) {
      PrefixInFirst(a, b, |a| - TrailingSpace(a));
    } else {
      PrefixIntoSecond(a, b, |b| - TrailingSpace(b));
    }
  }

  lemma PrefixInFirst(a: string, b: string, n: nat)
    requires n <= |a|
    ensures (a + b)[..n] == a[..n]
  {
  }

  lemma PrefixIntoSecond(a: string, b: string, m: nat)
    requires m <= |b|
    ensures (a + b)[..|a| + m] == a + b[..m]
  {
  }

  lemma {:induction false} JoinSnoc(sep: string, xs: seq<string>, x: string)
    ensures Join(sep, xs + [x]) == if |xs| == 0 then x else Join(sep, xs) + sep + x
    decreases |xs|
  {
    if |xs| == 0 {
      assert xs + [x] == [x];
    } else if |xs| == 1 {
      assert xs + [x] == [xs[0], x];
      assert [xs[0], x][1..] == [x];
    } else {
      JoinSnoc(sep, xs[1..], x);
      assert (xs + [x])[1..] == xs[1..] + [x];
      assert (xs + [x])[0] == xs[0];
    }
  }

  /**
    The lines of `"\n".join(ks).lstrip()`: the leading whitespace-only lines are gone and
    the first remaining line is left-stripped; the others are untouched.
   */
  function LStripLines(ks: seq<string>): (ms: seq<string>)
    ensures |ms| <= |ks|
    ensures |ms| > 0 ==> ms[0] == LStrip(ks[|ks| - |ms|]) && ms[1..] == ks[|ks| - |ms| + 1..]
  {
    if |ks| == 0 then []
    else if AllSpace(ks[0]) then LStripLines(ks[1..])
    else [LStrip(ks[0])] + ks[1..]
  }

  /**
    The lines of `"\n".join(ks).rstrip()`: the trailing whitespace-only lines are gone and
    the last remaining line is right-stripped, so it is not empty.
   */
  function RStripLines(ks: seq<string>): (ms: seq<string>)
    ensures |ms| <= |ks|
    ensures |ms| > 0 ==> ms[..|ms| - 1] == ks[..|ms| - 1] && ms[|ms| - 1] == RStrip(ks[|ms| - 1])
    ensures |ms| > 0 ==> ms[|ms| - 1] != []
    decreases |ks|
  {
    if |ks| == 0 then []
    else
      var n := |ks| - 1;
      if AllSpace(ks[n]) then
        var init := ks[..n];
        var ms := RStripLines(init);
        assert |ms| > 0 ==> ms[..|ms| - 1] == ks[..|ms| - 1] && init[|ms| - 1] == ks[|ms| - 1];
        ms
      else
        var ms := ks[..n] + [RStrip(ks[n])];
        assert ms[..n] == ks[..n];
        assert ms[n] == RStrip(ks[n]);
        ms
  }

  /** A property of every line, and of its left-stripped form, holds of every line of `LStripLines`. */
  lemma LStripLinesKeep(ks: seq<string>, p: string -> bool)
    requires forall i :: 0 <= i < |ks| ==> p(ks[i]) && p(LStrip(ks[i]))
    ensures forall i :: 0 <= i < |LStripLines(ks)| ==> p(LStripLines(ks)[i])
  {
    var ls := LStripLines(ks);
    var d := |ks| - |ls|;
    forall i | 0 <= i < |ls| ensures p(ls[i]) {
      if i > 0 {
        assert ls[i] == ls[1..][i - 1] == ks[d + 1..][i - 1] == ks[d + i];
      }
    }
  }

  /** A property of every line, and of its right-stripped form, holds of every line of `RStripLines`. */
  lemma RStripLinesKeep(ks: seq<string>, p: string -> bool)
    requires forall i :: 0 <= i < |ks| ==> p(ks[i]) && p(RStrip(ks[i]))
    ensures forall i :: 0 <= i < |RStripLines(ks)| ==> p(RStripLines(ks)[i])
  {
    var rs := RStripLines(ks);
    RStripLinesPointwise(ks);
    forall i | 0 <= i < |rs| ensures p(rs[i]) {
      if i < |rs| - 1 {
        assert rs[i] == ks[i];
      } else {
        assert rs[i] == RStrip(ks[i]);
      }
    }
  }

  /** Right-stripping a line list keeps every line before its last one and strips that one. */
  lemma RStripLinesPointwise(ks: seq<string>)
    ensures var rs := RStripLines(ks);
      forall i :: 0 <= i < |rs| ==> rs[i] == if i < |rs| - 1 then ks[i] else RStrip(ks[i])
  {
    var rs := RStripLines(ks);
    if |rs| > 0 {
      var d := |rs| - 1;
      assert rs[..d] == ks[..d];
      forall i | 0 <= i < d ensures rs[i] == ks[i] {
        assert rs[i] == rs[..d][i];
        assert ks[..d][i] == ks[i];
      }
    }
  }

  lemma StripKeepsNoLineBreak(k: string)
    requires NoLineBreak(k)
    ensures NoLineBreak(LStrip(k)) && NoLineBreak(RStrip(k))
  {
    var n := LeadingSpace(k);
    assert forall i :: 0 <= i < |LStrip(k)| ==> LStrip(k)[i] == k[n + i];
    assert forall i :: 0 <= i < |RStrip(k)| ==> RStrip(k)[i] == k[i];
  }

  lemma {:induction false} LStripJoin(ks: seq<string>)
    ensures LStrip(Join("\n", ks)) == Join("\n", LStripLines(ks))
    decreases |ks|
  {
    if |ks| == 1 {
      assert ks[1..] == [];
      if !AllSpace(ks[0]) {
        assert LStripLines(ks) == [LStrip(ks[0])];
      }
    } else if |ks| > 1 {
      var rest := Join("\n", ks[1..]);
      assert Join("\n", ks) == ks[0] + "\n" + rest;
      if AllSpace(ks[0]) {
        AllSpaceConcat(ks[0], "\n");
        LStripConcat(ks[0] + "\n", rest);
        LStripJoin(ks[1..]);
        assert LStripLines(ks) == LStripLines(ks[1..]);
      } else {
        assert ks[0] + "\n" + rest == ks[0] + ("\n" + rest);
        LStripConcat(ks[0], "\n" + rest);
        var ms := [LStrip(ks[0])] + ks[1..];
        assert LStripLines(ks) == ms;
        assert ms[0] == LStrip(ks[0]) && ms[1..] == ks[1..];
        assert Join("\n", ms) == LStrip(ks[0]) + "\n" + rest;
      }
    }
  }

  lemma RStripJoinLast(front: string, last: string)
    ensures AllSpace(last) ==> RStrip(front + "\n" + last) == RStrip(front)
    ensures !AllSpace(last) ==> RStrip(front + "\n" + last) == front + "\n" + RStrip(last)
  {
    var tail := "\n" + last;
    assert front + "\n" + last == front + tail;
    RStripAfterNewline(last);
    RStripConcat(front, tail);
    if !AllSpace(last) {
      assert front + tail == front + "\n" + last;
      assert front + RStrip(tail) == front + "\n" + RStrip(last);
    }
  }

  /** A newline in front of a line is whitespace: it goes when the whole line does. */
  lemma RStripAfterNewline(last: string)
    ensures AllSpace("\n" + last) <==> AllSpace(last)
    ensures !AllSpace(last) ==> RStrip("\n" + last) == "\n" + RStrip(last)
  {
    AllSpaceConcat("\n", last);
    RStripConcat("\n", last);
  }

  lemma {:induction false} RStripJoin(ks: seq<string>)
    ensures RStrip(Join("\n", ks)) == Join("\n", RStripLines(ks))
    decreases |ks|
  {
    if |ks| == 1 {
      assert ks[..0] + [RStrip(ks[0])] == [RStrip(ks[0])];
    } else if |ks| > 1 {
      var init := ks[..|ks| - 1];
      var last := ks[|ks| - 1];
      assert ks == init + [last];
      JoinSnoc("\n", init, last);
      RStripJoinLast(Join("\n", init), last);
      if AllSpace(last) {
        RStripJoin(init);
      } else {
        JoinSnoc("\n", init, RStrip(last));
      }
    }
  }

  /** Stripping the newline join of `ks` is joining the stripped line list. */
  lemma StripJoin(ks: seq<string>)
    ensures Strip(Join("\n", ks)) == Join("\n", RStripLines(LStripLines(ks)))
  {
    LStripJoin(ks);
    RStripJoin(LStripLines(ks));
  }

  /** Splitting the stripped join of break-free lines gives back exactly the stripped line list. */
  lemma StripJoinLines(ks: seq<string>)
    requires forall i :: 0 <= i < |ks| ==> NoLineBreak(ks[i])
    ensures SplitLines(Strip(Join("\n", ks))) == RStripLines(LStripLines(ks))
  {
    StripJoin(ks);
    forall i | 0 <= i < |ks| ensures NoLineBreak(LStrip(ks[i])) {
      StripKeepsNoLineBreak(ks[i]);
    }
    LStripLinesKeep(ks, NoLineBreak);
    var ls := LStripLines(ks);
    forall i | 0 <= i < |ls| ensures NoLineBreak(RStrip(ls[i])) {
      StripKeepsNoLineBreak(ls[i]);
    }
    RStripLinesKeep(ls, NoLineBreak);
    SplitJoinLines(RStripLines(ls));
  }
}
