/**
  The substitution chain of `clean_body` in deepcleane.py, one `re.sub` at a time, each
  written out as the leftmost, greedy scan Python performs:
  - `\S+@\S+` and `http\S+|www\.\S+`, which act on whole whitespace-free words;
  - `[^a-zA-Z0-9\s\.\,\!\?]`, one character at a time;
  - `\n{2,}` and `\s{2,}`, which shrink runs;
  and the lowering `str.lower()` on the characters that survive the chain.
 */
module Substitute {
  import opened Chars
  import opened Text
  import opened Seqs
  import opened Patterns

  /** End of the run of non-whitespace characters that starts at `k`. */
  function WordEnd(s: string, k: nat): (e: nat)
    requires k <= |s|
    ensures k <= e <= |s|
    ensures forall m :: k <= m < e ==> !IsSpace(s[m])
    ensures e < |s| ==> IsSpace(s[e])
    decreases |s| - k
  {
    if k < |s| && !IsSpace(s[k]) then WordEnd(s, k + 1) else k
  }

  // ---------------------------------------------------------------------------
  // Emails: each match of `\S+@\S+` becomes one space

  /** An `@` at `k` with a non-whitespace character on either side. */
  predicate EmailAt(s: string, k: int) {
    1 <= k && k + 1 < |s| && s[k] == '@' && !IsSpace(s[k - 1]) && !IsSpace(s[k + 1])
  }

  /** `\S+@\S+` finds no match in `s`. */
  predicate NoEmail(s: string) {
    forall k :: 0 <= k < |s| ==> !EmailAt(s, k)
  }

  /**
    Inside a whitespace-free word, `\S+@\S+` matches (from the word's first character to
    its last) exactly when some `@` is neither the word's first nor its last character.
   */
  predicate HasInnerAt(w: string) {
    exists k :: 0 <= k < |w| && EmailAt(w, k)
  }

  /** Two email-free texts stay email-free when whitespace separates them. */
  lemma NoEmailJoin(a: string, b: string)
    requires NoEmail(a) && NoEmail(b)
    requires a == [] || b == [] || IsSpace(a[|a| - 1]) || IsSpace(b[0])
    ensures NoEmail(a + b)
  {
    var s := a + b;
    forall k | 0 <= k < |s| ensures !EmailAt(s, k) {
      if k + 1 < |a| {
        assert !EmailAt(a, k);
      } else if k > |a| {
        assert !EmailAt(b, k - |a|);
        assert s[k - 1] == b[k - 1 - |a|];
      }
    }
  }

  lemma NoEmailSuffix(s: string, m: nat)
    requires NoEmail(s) && m <= |s|
    ensures NoEmail(s[m..])
  {
    forall k | 0 <= k < |s[m..]| ensures !EmailAt(s[m..], k) {
      assert !EmailAt(s, k + m);
    }
  }

  /** The email substitution: every word with an inner `@` becomes one space. */
  function RemoveEmails(s: string): (r: string)
    ensures NoEmail(r)
    ensures |s| > 0 && IsSpace(s[0]) ==> |r| > 0 && r[0] == s[0]
    decreases |s|
  {
    if |s| == 0 then []
    else if IsSpace(s[0]) then
      var rest := RemoveEmails(s[1..]);
      NoEmailJoin([s[0]], rest);
      [s[0]] + rest
    else
      var e := WordEnd(s, 0);
      var w := s[..e];
      var piece := if HasInnerAt(w) then " " else w;
      var rest := RemoveEmails(s[e..]);
      NoEmailJoin(piece, rest);
      piece + rest
  }

  /** Text without an email address passes the substitution unchanged. */
  lemma {:induction false} NoEmailUnchanged(s: string)
    requires NoEmail(s)
    ensures RemoveEmails(s) == s
    decreases |s|
  {
    if |s| > 0 {
      if IsSpace(s[0]) {
        NoEmailSuffix(s, 1);
        NoEmailUnchanged(s[1..]);
      } else {
        var e := WordEnd(s, 0);
        var w := s[..e];
        forall k | 0 <= k < |w| ensures !EmailAt(w, k) {
          assert !EmailAt(s, k);
        }
        NoEmailSuffix(s, e);
        NoEmailUnchanged(s[e..]);
        assert s == w + s[e..];
      }
    }
  }

  /** The substitution leaves nothing for a second pass to do. */
  lemma RemoveEmailsIdempotent(s: string)
    ensures RemoveEmails(RemoveEmails(s)) == RemoveEmails(s)
  {
    NoEmailUnchanged(RemoveEmails(s));
  }

  // ---------------------------------------------------------------------------
  // URLs: each match of `http\S+|www\.\S+` becomes one space

  predicate IsUrlHead(h: string) {
    h == "http" || h == "www."
  }

  /** `http` or `www.` (case-sensitive) at `i`, with a non-whitespace character after it. */
  predicate UrlAt(s: string, i: int) {
    0 <= i && i + 4 < |s| && IsUrlHead(s[i..i + 4]) && !IsSpace(s[i + 4])
  }

  /** `http\S+|www\.\S+` finds no match in `s`. */
  predicate NoUrl(s: string) {
    forall i :: 0 <= i < |s| ==> !UrlAt(s, i)
  }

  lemma UrlHeadIsWord(h: string)
    requires IsUrlHead(h)
    ensures |h| == 4 && forall m :: 0 <= m < 4 ==> !IsSpace(h[m])
  {
  }

  /** A URL start and the character after it are all non-whitespace. */
  lemma UrlAtIsWord(s: string, i: int)
    ensures UrlAt(s, i) ==> forall m :: i <= m <= i + 4 ==> !IsSpace(s[m])
  {
    if UrlAt(s, i) {
      var h := s[i..i + 4];
      UrlHeadIsWord(h);
      forall m | i <= m < i + 4 ensures !IsSpace(s[m]) {
        assert s[m] == h[m - i];
      }
    }
  }

  /** Two URL-free texts stay URL-free when whitespace separates them. */
  lemma NoUrlJoin(a: string, b: string)
    requires NoUrl(a) && NoUrl(b)
    requires a == [] || b == [] || IsSpace(a[|a| - 1]) || IsSpace(b[0])
    ensures NoUrl(a + b)
  {
    var s := a + b;
    forall i | 0 <= i < |s| ensures !UrlAt(s, i) {
      if i + 4 < |a| {
        assert s[i..i + 4] == a[i..i + 4];
        assert !UrlAt(a, i);
      } else if i >= |a| {
        if i + 4 < |s| {
          assert s[i..i + 4] == b[i - |a|..i - |a| + 4];
        }
        assert !UrlAt(b, i - |a|);
      } else {
        UrlAtIsWord(s, i);
        assert s[|a| - 1] == a[|a| - 1];
        if |a| < |s| {
          assert s[|a|] == b[0];
        }
      }
    }
  }

  lemma NoUrlSuffix(s: string, m: nat)
    requires NoUrl(s) && m <= |s|
    ensures NoUrl(s[m..])
  {
    forall i | 0 <= i < |s[m..]| ensures !UrlAt(s[m..], i) {
      assert !UrlAt(s, i + m);
      if i + 4 < |s[m..]| {
        assert s[m..][i..i + 4] == s[i + m..i + m + 4];
      }
    }
  }

  /** Index of the first URL start at or after `i` in `w`, or `|w|`. */
  function UrlStart(w: string, i: nat): (j: nat)
    requires i <= |w|
    ensures i <= j <= |w|
    ensures j < |w| ==> UrlAt(w, j)
    ensures forall m :: i <= m < j ==> !UrlAt(w, m)
    decreases |w| - i
  {
    if i == |w| || UrlAt(w, i) then i else UrlStart(w, i + 1)
  }

  /** In one whitespace-free word: everything from the first URL start on becomes one space. */
  function CutUrl(w: string): (r: string)
    ensures NoUrl(r)
    ensures UrlStart(w, 0) == |w| ==> r == w
    ensures UrlStart(w, 0) < |w| ==> r == w[..UrlStart(w, 0)] + " "
    ensures r == w || (|r| > 0 && r[|r| - 1] == ' ')
  {
    var j := UrlStart(w, 0);
    if j < |w| then
      var front := w[..j];
      forall m | 0 <= m < |front| ensures !UrlAt(front, m) {
        if UrlAt(front, m) {
          assert front[m..m + 4] == w[m..m + 4];
          assert UrlAt(w, m);
        }
      }
      NoUrlJoin(front, " ");
      front + " "
    else
      w
  }

  /** The URL substitution, one whitespace-free word at a time. */
  function RemoveUrls(s: string): (r: string)
    ensures NoUrl(r)
    ensures |s| > 0 && IsSpace(s[0]) ==> |r| > 0 && r[0] == s[0]
    decreases |s|
  {
    if |s| == 0 then []
    else if IsSpace(s[0]) then
      var rest := RemoveUrls(s[1..]);
      NoUrlJoin([s[0]], rest);
      [s[0]] + rest
    else
      var e := WordEnd(s, 0);
      var w := s[..e];
      var piece := CutUrl(w);
      var rest := RemoveUrls(s[e..]);
      assert piece == w ==> piece[|piece| - 1] == s[e - 1];
      NoUrlJoin(piece, rest);
      piece + rest
  }

  /** Text without a URL start passes the substitution unchanged. */
  lemma {:induction false} NoUrlUnchanged(s: string)
    requires NoUrl(s)
    ensures RemoveUrls(s) == s
    decreases |s|
  {
    if |s| > 0 {
      if IsSpace(s[0]) {
        NoUrlSuffix(s, 1);
        NoUrlUnchanged(s[1..]);
      } else {
        var e := WordEnd(s, 0);
        NoUrlPrefix(s, e);
        NoUrlSuffix(s, e);
        NoUrlUnchanged(s[e..]);
        NoUrlWordUnchanged(s, e);
      }
    }
  }

  /** A prefix of a text without a URL start has none either. */
  lemma NoUrlPrefix(s: string, e: nat)
    requires NoUrl(s) && e <= |s|
    ensures UrlStart(s[..e], 0) == e
  {
    var w := s[..e];
    forall m | 0 <= m < |w| ensures !UrlAt(w, m) {
      assert !UrlAt(s, m);
      if m + 4 < |w| {
        assert w[m..m + 4] == s[m..m + 4];
      }
    }
  }

  /** The step of `NoUrlUnchanged` at a word: a URL-free word is kept as it is. */
  lemma NoUrlWordUnchanged(s: string, e: nat)
    requires |s| > 0 && !IsSpace(s[0]) && e == WordEnd(s, 0)
    requires UrlStart(s[..e], 0) == e && RemoveUrls(s[e..]) == s[e..]
    ensures RemoveUrls(s) == s
  {
    assert s == s[..e] + s[e..];
  }

  // ---------------------------------------------------------------------------
  // Disallowed characters: each character outside `[a-zA-Z0-9\s\.\,\!\?]` becomes a space

  /** The characters the class `[a-zA-Z0-9\s\.\,\!\?]` admits. */
  predicate IsAllowed(c: char) {
    IsAsciiLetter(c) || IsAsciiDigit(c) || IsSpace(c) || c == '.' || c == ',' || c == '!' || c == '?'
  }

  predicate AllAllowed(s: string) {
    forall i :: 0 <= i < |s| ==> IsAllowed(s[i])
  }

  /** Every character outside the class becomes a space; every other one stays. */
  function ReplaceDisallowed(s: string): (r: string)
    ensures |r| == |s| && AllAllowed(r)
    ensures forall i :: 0 <= i < |s| ==> (r[i] == s[i] <==> IsAllowed(s[i]))
    ensures forall i :: 0 <= i < |s| && !IsAllowed(s[i]) ==> r[i] == ' '
  {
    seq(|s|, i requires 0 <= i < |s| => if IsAllowed(s[i]) then s[i] else ' ')
  }

  // ---------------------------------------------------------------------------
  // Newline runs: each run of two or more newlines becomes one newline

  predicate NotNewline(c: char) {
    c != '\n'
  }

  /** Each run of two or more newlines becomes one newline. */
  function CollapseNewlines(s: string): (r: string)
    ensures NoDoubleNewline(r)
    ensures |s| > 0 ==> |r| > 0 && r[0] == s[0]
    ensures AllAllowed(s) ==> AllAllowed(r)
    decreases |s|
  {
    if |s| == 0 then []
    else if s[0] == '\n' then
      var e := NewlineRunEnd(s, 0);
      var rest := CollapseNewlines(s[e..]);
      var r := "\n" + rest;
      assert forall m :: 1 <= m < |r| ==> r[m] == rest[m - 1];
      r
    else
      var rest := CollapseNewlines(s[1..]);
      var r := [s[0]] + rest;
      assert forall m :: 1 <= m < |r| ==> r[m] == rest[m - 1];
      r
  }

  /** Only newlines are removed: the other characters stay, in order. */
  lemma {:induction false} CollapseNewlinesKeepsText(s: string)
    ensures Filter(CollapseNewlines(s), NotNewline) == Filter(s, NotNewline)
    decreases |s|
  {
    if |s| > 0 {
      if s[0] == '\n' {
        var e := NewlineRunEnd(s, 0);
        CollapseNewlinesKeepsText(s[e..]);
        KeepsTextAtRun(s, e);
      } else {
        CollapseNewlinesKeepsText(s[1..]);
        KeepsTextAtChar(s);
      }
    }
  }

  /** The step of `CollapseNewlinesKeepsText` at a newline run: the run holds nothing to keep. */
  lemma KeepsTextAtRun(s: string, e: nat)
    requires |s| > 0 && s[0] == '\n' && e == NewlineRunEnd(s, 0)
    requires Filter(CollapseNewlines(s[e..]), NotNewline) == Filter(s[e..], NotNewline)
    ensures Filter(CollapseNewlines(s), NotNewline) == Filter(s, NotNewline)
  {
    var rest := s[e..];
    var cr := CollapseNewlines(rest);
    var r := CollapseNewlines(s);
    assert r == "\n" + cr;
    assert r[0] == '\n' && r[1..] == cr;
    assert Filter(r, NotNewline) == Filter(cr, NotNewline);
    FilterSkipsRejected(s, e, NotNewline);
  }

  /** The step of `CollapseNewlinesKeepsText` at any other character: it is kept. */
  lemma KeepsTextAtChar(s: string)
    requires |s| > 0 && s[0] != '\n'
    requires Filter(CollapseNewlines(s[1..]), NotNewline) == Filter(s[1..], NotNewline)
    ensures Filter(CollapseNewlines(s), NotNewline) == Filter(s, NotNewline)
  {
    var r := CollapseNewlines(s);
    assert r[0] == s[0] && r[1..] == CollapseNewlines(s[1..]);
  }

  /** Text without a doubled newline passes unchanged. */
  lemma {:induction false} NoDoubleNewlineUnchanged(s: string)
    requires NoDoubleNewline(s)
    ensures CollapseNewlines(s) == s
    decreases |s|
  {
    if |s| > 0 {
      assert NoDoubleNewline(s[1..]) by {
        forall m | 0 <= m < |s[1..]| - 1 ensures !(s[1..][m] == '\n' && s[1..][m + 1] == '\n') {
          assert s[1..][m] == s[m + 1] && s[1..][m + 1] == s[m + 2];
        }
      }
      NoDoubleNewlineUnchanged(s[1..]);
      if s[0] == '\n' {
        assert NewlineRunEnd(s, 0) == 1 by {
          assert |s| > 1 ==> s[1] != '\n';
        }
      }
    }
  }

  /** One step of the newline collapse at the head of a text. */
  lemma CollapseNewlinesHead(s: string)
    requires |s| > 0
    ensures s[0] == '\n' ==> CollapseNewlines(s) == "\n" + CollapseNewlines(s[NewlineRunEnd(s, 0)..])
    ensures s[0] != '\n' ==> CollapseNewlines(s) == [s[0]] + CollapseNewlines(s[1..])
  {
  }

  /**
    The newline collapse works piecewise: it distributes over a concatenation
    that does not join two newline runs.
   */
  lemma {:induction false} CollapseNewlinesConcat(x: string, y: string)
    requires x == [] || y == [] || x[|x| - 1] != '\n' || y[0] != '\n'
    ensures CollapseNewlines(x + y) == CollapseNewlines(x) + CollapseNewlines(y)
    decreases |x|
  {
    if x == [] {
      assert x + y == y;
    } else if x[0] == '\n' {
      var e := NewlineRunEnd(x, 0);
      CollapseNewlinesConcat(x[e..], y);
      CollapseNewlinesConcatAtRun(x, y, e);
    } else {
      CollapseNewlinesConcat(x[1..], y);
      CollapseNewlinesConcatAtChar(x, y);
    }
  }

  lemma CollapseNewlinesConcatAtRun(x: string, y: string, e: nat)
    requires |x| > 0 && x[0] == '\n' && e == NewlineRunEnd(x, 0)
    requires y == [] || x[|x| - 1] != '\n' || y[0] != '\n'
    requires CollapseNewlines(x[e..] + y) == CollapseNewlines(x[e..]) + CollapseNewlines(y)
    ensures CollapseNewlines(x + y) == CollapseNewlines(x) + CollapseNewlines(y)
  {
    var xy := x + y;
    NewlineRunInConcat(x, y, e);
    calc {
      CollapseNewlines(xy);
      { CollapseNewlinesHead(xy); }
      "\n" + CollapseNewlines(x[e..] + y);
      "\n" + (CollapseNewlines(x[e..]) + CollapseNewlines(y));
      { SeqConcatAssoc("\n", CollapseNewlines(x[e..]), CollapseNewlines(y)); }
      ("\n" + CollapseNewlines(x[e..])) + CollapseNewlines(y);
      { CollapseNewlinesHead(x); }
      CollapseNewlines(x) + CollapseNewlines(y);
    }
  }

  /** A leading newline run that ends inside `x`, or at its end before a non-newline, is also the run of `x + y`. */
  lemma NewlineRunInConcat(x: string, y: string, e: nat)
    requires |x| > 0 && e == NewlineRunEnd(x, 0)
    requires y == [] || x[|x| - 1] != '\n' || y[0] != '\n'
    ensures NewlineRunEnd(x + y, 0) == e && (x + y)[e..] == x[e..] + y
  {
    var xy := x + y;
    assert forall m :: 0 <= m < e ==> xy[m] == x[m];
    assert forall m :: 0 <= m < e ==> xy[m] == '\n';
    assert e < |xy| ==> xy[e] != '\n' by {
      if e < |x| {
        assert xy[e] == x[e];
      } else if e < |xy| {
        assert e == |x|;
        assert x[|x| - 1] == '\n';
        assert xy[e] == y[0];
      }
    }
    NewlineRunEndIs(xy, 0, e);
    assert xy[e..] == x[e..] + y;
  }

  lemma CollapseNewlinesConcatAtChar(x: string, y: string)
    requires |x| > 0 && x[0] != '\n'
    requires CollapseNewlines(x[1..] + y) == CollapseNewlines(x[1..]) + CollapseNewlines(y)
    ensures CollapseNewlines(x + y) == CollapseNewlines(x) + CollapseNewlines(y)
  {
    var xy := x + y;
    ConsConcat(x, y);
    calc {
      CollapseNewlines(xy);
      { CollapseNewlinesHead(xy); }
      [x[0]] + CollapseNewlines(x[1..] + y);
      [x[0]] + (CollapseNewlines(x[1..]) + CollapseNewlines(y));
      { SeqConcatAssoc([x[0]], CollapseNewlines(x[1..]), CollapseNewlines(y)); }
      ([x[0]] + CollapseNewlines(x[1..])) + CollapseNewlines(y);
      { CollapseNewlinesHead(x); }
      CollapseNewlines(x) + CollapseNewlines(y);
    }
  }

  /** A run of newlines alone collapses to one newline. */
  lemma CollapseNewlinesOfRun(w: string)
    requires |w| >= 1 && forall m :: 0 <= m < |w| ==> w[m] == '\n'
    ensures CollapseNewlines(w) == "\n"
  {
    NewlineRunEndIs(w, 0, |w|);
    assert w[|w|..] == [];
    CollapseNewlinesHead(w);
  }

  /** A text that opens with such a run: the run becomes one newline before the rest. */
  lemma CollapseNewlinesRunFirst(w: string, b: string)
    requires |w| >= 1 && forall m :: 0 <= m < |w| ==> w[m] == '\n'
    requires b == [] || b[0] != '\n'
    ensures CollapseNewlines(w + b) == "\n" + CollapseNewlines(b)
  {
    CollapseNewlinesConcat(w, b);
    CollapseNewlinesOfRun(w);
  }

  /** A run of newlines between two other characters becomes exactly one newline. */
  lemma CollapseNewlinesAtRun(a: string, w: string, b: string)
    requires a == [] || a[|a| - 1] != '\n'
    requires |w| >= 1 && forall m :: 0 <= m < |w| ==> w[m] == '\n'
    requires b == [] || b[0] != '\n'
    ensures CollapseNewlines(a + w + b) == CollapseNewlines(a) + "\n" + CollapseNewlines(b)
  {
    var wb := w + b;
    SeqConcatAssoc(a, w, b);
    CollapseNewlinesRunFirst(w, b);
    CollapseNewlinesConcat(a, wb);
    SeqConcatAssoc(CollapseNewlines(a), "\n", CollapseNewlines(b));
  }

  // ---------------------------------------------------------------------------
  // Whitespace runs: each run of two or more whitespace characters becomes one space

  /** Whitespace at `i` and at `i + 1`. */
  predicate DoubleSpaceAt(s: string, i: int) {
    0 <= i && i + 1 < |s| && IsSpace(s[i]) && IsSpace(s[i + 1])
  }

  predicate NoDoubleSpace(s: string) {
    forall i :: 0 <= i < |s| ==> !DoubleSpaceAt(s, i)
  }

  predicate NotSpace(c: char) {
    !IsSpace(c)
  }

  /** One character put before a text whose whitespace stands alone keeps it so, unless both are whitespace. */
  lemma SingleBeforeRest(r: string, rest: string)
    requires |r| == |rest| + 1 && r[1..] == rest && NoDoubleSpace(rest)
    requires !(|rest| > 0 && IsSpace(r[0]) && IsSpace(rest[0]))
    ensures NoDoubleSpace(r)
  {
    forall i | 0 <= i < |r| ensures !DoubleSpaceAt(r, i) {
      if i > 0 {
        assert !DoubleSpaceAt(rest, i - 1);
        assert r[i] == rest[i - 1];
      }
    }
  }

  /** Each run of two or more whitespace characters becomes one space; a lone one stays. */
  function CollapseSpaces(s: string): (r: string)
    ensures NoDoubleSpace(r)
    ensures |s| > 0 ==> |r| > 0 && (IsSpace(r[0]) <==> IsSpace(s[0]))
    ensures |s| > 0 && !IsSpace(s[0]) ==> r[0] == s[0]
    ensures AllAllowed(s) ==> AllAllowed(r)
    decreases |s|
  {
    if |s| == 0 then []
    else if IsSpace(s[0]) then
      var e := SpaceRunEnd(s, 0);
      var rest := CollapseSpaces(s[e..]);
      var r := (if e >= 2 then " " else [s[0]]) + rest;
      SingleBeforeRest(r, rest);
      r
    else
      var rest := CollapseSpaces(s[1..]);
      var r := [s[0]] + rest;
      SingleBeforeRest(r, rest);
      r
  }

  /** One step of the whitespace collapse at the head of a text. */
  lemma CollapseSpacesHead(s: string)
    requires |s| > 0
    ensures IsSpace(s[0]) ==>
      CollapseSpaces(s) == (if SpaceRunEnd(s, 0) >= 2 then " " else [s[0]]) + CollapseSpaces(s[SpaceRunEnd(s, 0)..])
    ensures !IsSpace(s[0]) ==> CollapseSpaces(s) == [s[0]] + CollapseSpaces(s[1..])
  {
  }

  /**
    The whitespace collapse works piecewise: it distributes over a concatenation
    that does not join two whitespace runs.
   */
  lemma {:induction false} CollapseSpacesConcat(x: string, y: string)
    requires x == [] || y == [] || !IsSpace(x[|x| - 1]) || !IsSpace(y[0])
    ensures CollapseSpaces(x + y) == CollapseSpaces(x) + CollapseSpaces(y)
    decreases |x|
  {
    if x == [] {
      assert x + y == y;
    } else if IsSpace(x[0]) {
      var e := SpaceRunEnd(x, 0);
      CollapseSpacesConcat(x[e..], y);
      CollapseSpacesConcatAtRun(x, y, e);
    } else {
      CollapseSpacesConcat(x[1..], y);
      CollapseSpacesConcatAtChar(x, y);
    }
  }

  lemma CollapseSpacesConcatAtRun(x: string, y: string, e: nat)
    requires |x| > 0 && IsSpace(x[0]) && e == SpaceRunEnd(x, 0)
    requires y == [] || !IsSpace(x[|x| - 1]) || !IsSpace(y[0])
    requires CollapseSpaces(x[e..] + y) == CollapseSpaces(x[e..]) + CollapseSpaces(y)
    ensures CollapseSpaces(x + y) == CollapseSpaces(x) + CollapseSpaces(y)
  {
    var xy := x + y;
    var head := if e >= 2 then " " else [x[0]];
    SpaceRunInConcat(x, y, e);
    calc {
      CollapseSpaces(xy);
      { CollapseSpacesHead(xy); }
      head + CollapseSpaces(x[e..] + y);
      head + (CollapseSpaces(x[e..]) + CollapseSpaces(y));
      { SeqConcatAssoc(head, CollapseSpaces(x[e..]), CollapseSpaces(y)); }
      (head + CollapseSpaces(x[e..])) + CollapseSpaces(y);
      { CollapseSpacesHead(x); }
      CollapseSpaces(x) + CollapseSpaces(y);
    }
  }

  /** A leading whitespace run that ends inside `x`, or at its end before a visible character, is also the run of `x + y`. */
  lemma SpaceRunInConcat(x: string, y: string, e: nat)
    requires |x| > 0 && IsSpace(x[0]) && e == SpaceRunEnd(x, 0)
    requires y == [] || !IsSpace(x[|x| - 1]) || !IsSpace(y[0])
    ensures SpaceRunEnd(x + y, 0) == e && (x + y)[e..] == x[e..] + y
  {
    var xy := x + y;
    assert forall m :: 0 <= m < |x| ==> xy[m] == x[m];
    if e < |x| {
      assert xy[e] == x[e];
    } else if y != [] {
      assert IsSpace(x[|x| - 1]);
      assert xy[|x|] == y[0];
    }
    SpaceRunEndIs(xy, 0, e);
    SuffixOfConcat(x, y, e);
  }

  lemma CollapseSpacesConcatAtChar(x: string, y: string)
    requires |x| > 0 && !IsSpace(x[0])
    requires CollapseSpaces(x[1..] + y) == CollapseSpaces(x[1..]) + CollapseSpaces(y)
    ensures CollapseSpaces(x + y) == CollapseSpaces(x) + CollapseSpaces(y)
  {
    var xy := x + y;
    ConsConcat(x, y);
    calc {
      CollapseSpaces(xy);
      { CollapseSpacesHead(xy); }
      [x[0]] + CollapseSpaces(x[1..] + y);
      [x[0]] + (CollapseSpaces(x[1..]) + CollapseSpaces(y));
      { SeqConcatAssoc([x[0]], CollapseSpaces(x[1..]), CollapseSpaces(y)); }
      ([x[0]] + CollapseSpaces(x[1..])) + CollapseSpaces(y);
      { CollapseSpacesHead(x); }
      CollapseSpaces(x) + CollapseSpaces(y);
    }
  }

  /** A whitespace run alone becomes one space when it has two or more characters and stays otherwise. */
  lemma CollapseSpacesOfRun(w: string)
    requires |w| >= 1 && forall m :: 0 <= m < |w| ==> IsSpace(w[m])
    ensures CollapseSpaces(w) == if |w| >= 2 then " " else w
  {
    SpaceRunEndIs(w, 0, |w|);
    assert w[|w|..] == [];
    CollapseSpacesHead(w);
  }

  /** A text that opens with such a run: the run becomes one space before the rest. */
  lemma CollapseSpacesRunFirst(w: string, b: string)
    requires |w| >= 2 && forall m :: 0 <= m < |w| ==> IsSpace(w[m])
    requires b == [] || !IsSpace(b[0])
    ensures CollapseSpaces(w + b) == " " + CollapseSpaces(b)
  {
    CollapseSpacesConcat(w, b);
    CollapseSpacesOfRun(w);
  }

  /** A run of two or more whitespace characters between two visible ones becomes exactly one space. */
  lemma CollapseSpacesAtRun(a: string, w: string, b: string)
    requires a == [] || !IsSpace(a[|a| - 1])
    requires |w| >= 2 && forall m :: 0 <= m < |w| ==> IsSpace(w[m])
    requires b == [] || !IsSpace(b[0])
    ensures CollapseSpaces(a + w + b) == CollapseSpaces(a) + " " + CollapseSpaces(b)
  {
    var wb := w + b;
    SeqConcatAssoc(a, w, b);
    CollapseSpacesRunFirst(w, b);
    CollapseSpacesConcat(a, wb);
    SeqConcatAssoc(CollapseSpaces(a), " ", CollapseSpaces(b));
  }

  /** Only whitespace is touched: the visible characters stay, in order. */
  lemma {:induction false} CollapseSpacesKeepsText(s: string)
    ensures Filter(CollapseSpaces(s), NotSpace) == Filter(s, NotSpace)
    decreases |s|
  {
    if |s| > 0 {
      if IsSpace(s[0]) {
        var e := SpaceRunEnd(s, 0);
        CollapseSpacesKeepsText(s[e..]);
        SpacesKeepTextAtRun(s, e);
      } else {
        CollapseSpacesKeepsText(s[1..]);
        var r := CollapseSpaces(s);
        assert r[0] == s[0] && r[1..] == CollapseSpaces(s[1..]);
      }
    }
  }

  /** The step of `CollapseSpacesKeepsText` at a whitespace run: the run holds nothing to keep. */
  lemma SpacesKeepTextAtRun(s: string, e: nat)
    requires |s| > 0 && IsSpace(s[0]) && e == SpaceRunEnd(s, 0)
    requires Filter(CollapseSpaces(s[e..]), NotSpace) == Filter(s[e..], NotSpace)
    ensures Filter(CollapseSpaces(s), NotSpace) == Filter(s, NotSpace)
  {
    var cr := CollapseSpaces(s[e..]);
    var r := CollapseSpaces(s);
    assert !NotSpace(r[0]) && r[1..] == cr;
    assert Filter(r, NotSpace) == Filter(cr, NotSpace);
    FilterSkipsRejected(s, e, NotSpace);
  }

  /** Text whose whitespace characters all stand alone passes unchanged. */
  lemma {:induction false} NoDoubleSpaceUnchanged(s: string)
    requires NoDoubleSpace(s)
    ensures CollapseSpaces(s) == s
    decreases |s|
  {
    if |s| > 0 {
      assert NoDoubleSpace(s[1..]) by {
        forall i | 0 <= i < |s[1..]| ensures !DoubleSpaceAt(s[1..], i) {
          assert !DoubleSpaceAt(s, i + 1);
        }
      }
      NoDoubleSpaceUnchanged(s[1..]);
      if IsSpace(s[0]) {
        assert !DoubleSpaceAt(s, 0);
        assert SpaceRunEnd(s, 0) == 1;
      }
    }
  }

  /** A newline is whitespace, so text without a whitespace pair has no newline pair either. */
  lemma NoDoubleSpaceNoDoubleNewline(s: string)
    requires NoDoubleSpace(s)
    ensures NoDoubleNewline(s)
  {
    forall m | 0 <= m < |s| - 1 ensures !(s[m] == '\n' && s[m + 1] == '\n') {
      assert !DoubleSpaceAt(s, m);
    }
  }

  lemma NoDoubleSpaceSlice(s: string, a: nat, b: nat)
    requires NoDoubleSpace(s) && a <= b <= |s|
    ensures NoDoubleSpace(s[a..b])
  {
    forall i | 0 <= i < |s[a..b]| ensures !DoubleSpaceAt(s[a..b], i) {
      assert !DoubleSpaceAt(s, i + a);
    }
  }

  // ---------------------------------------------------------------------------
  // Lowering

  /** What survives the chain: a lower-case ASCII letter, a digit, `.,!?` or whitespace. */
  predicate IsCleanChar(c: char) {
    IsAsciiLower(c) || IsAsciiDigit(c) || IsSpace(c) || c == '.' || c == ',' || c == '!' || c == '?'
  }

  /**
    `str.lower()` on text of admitted characters: upper-case ASCII letters become lower-case
    and nothing else changes, since no digit, punctuation mark or whitespace character has
    a case.
   */
  function LowerAll(s: string): (r: string)
    ensures |r| == |s|
    ensures forall i :: 0 <= i < |s| ==> (IsSpace(r[i]) <==> IsSpace(s[i]))
    ensures forall i :: 0 <= i < |s| && IsAllowed(s[i]) ==> IsCleanChar(r[i])
    ensures forall i :: 0 <= i < |s| ==> CaseFoldEq(s[i], r[i]) || !IsAsciiLetter(s[i])
    ensures forall i :: 0 <= i < |s| && !IsAsciiUpper(s[i]) ==> r[i] == s[i]
    ensures forall i :: 0 <= i < |s| && IsAsciiUpper(s[i]) ==> IsAsciiLower(r[i]) && r[i] as int == s[i] as int + 32
    ensures (forall i :: 0 <= i < |s| ==> !IsAsciiUpper(s[i])) ==> r == s
  {
    seq(|s|, i requires 0 <= i < |s| => LowerAscii(s[i]))
  }

  lemma LowerAllKeepsSingleSpaces(s: string)
    requires NoDoubleSpace(s)
    ensures NoDoubleSpace(LowerAll(s))
  {
    var r := LowerAll(s);
    forall i | 0 <= i < |r| ensures !DoubleSpaceAt(r, i) {
      assert !DoubleSpaceAt(s, i);
    }
  }
}
