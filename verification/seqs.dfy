/**
  Sequence helpers the pipeline needs: list comprehensions with a condition, the
  "enumerate and break at the cap" prefix, and Python's ordering and `sorted()` on strings.
 */
module Seqs {

  /** The elements of `xs` that pass `p`, in order. */
  function Filter<T>(xs: seq<T>, p: T -> bool): (ys: seq<T>)
    ensures |ys| <= |xs|
    ensures forall y :: y in ys ==> y in xs && p(y)
    ensures forall i :: 0 <= i < |xs| && p(xs[i]) ==> xs[i] in ys
  {
    if |xs| == 0 then []
    else (if p(xs[0]) then [xs[0]] else []) + Filter(xs[1..], p)
  }

  lemma {:induction false} FilterMultiset<T>(xs: seq<T>, p: T -> bool)
    ensures multiset(Filter(xs, p)) <= multiset(xs)
    decreases |xs|
  {
    if |xs| > 0 {
      FilterMultiset(xs[1..], p);
      assert xs == [xs[0]] + xs[1..];
    }
  }

  lemma {:induction false} FilterNone<T>(xs: seq<T>, p: T -> bool)
    requires forall i :: 0 <= i < |xs| ==> !p(xs[i])
    ensures Filter(xs, p) == []
    decreases |xs|
  {
    if |xs| > 0 {
      FilterNone(xs[1..], p);
    }
  }

  /** Two tests that agree on every element keep the same elements. */
  lemma {:induction false} FilterAgree<T>(xs: seq<T>, p: T -> bool, q: T -> bool)
    requires forall i :: 0 <= i < |xs| ==> p(xs[i]) == q(xs[i])
    ensures Filter(xs, p) == Filter(xs, q)
    decreases |xs|
  {
    if |xs| > 0 {
      FilterAgree(xs[1..], p, q);
    }
  }

  /** No element occurs twice. */
  ghost predicate NoDuplicates(xs: seq<string>) {
    forall x :: multiset(xs)[x] <= 1
  }

  /** Without duplicates, the head does not recur in the tail, which has none either. */
  lemma NoDuplicatesTail(xs: seq<string>)
    requires NoDuplicates(xs) && |xs| > 0
    ensures NoDuplicates(xs[1..]) && xs[0] !in xs[1..]
  {
    assert xs == [xs[0]] + xs[1..];
    assert multiset(xs) == multiset{xs[0]} + multiset(xs[1..]);
    forall x ensures multiset(xs[1..])[x] <= 1 {
      assert multiset(xs[1..])[x] <= multiset(xs)[x];
    }
    assert multiset(xs)[xs[0]] == 1 + multiset(xs[1..])[xs[0]];
  }

  lemma {:induction false} FilterConcat<T>(a: seq<T>, b: seq<T>, p: T -> bool)
    ensures Filter(a + b, p) == Filter(a, p) + Filter(b, p)
    decreases |a|
  {
    if |a| > 0 {
      var ab := a + b;
      assert ab[0] == a[0] && ab[1..] == a[1..] + b;
      FilterConcat(a[1..], b, p);
      var h := if p(a[0]) then [a[0]] else [];
      var fa, fb := Filter(a[1..], p), Filter(b, p);
      assert Filter(ab, p) == h + (fa + fb);
      assert h + (fa + fb) == (h + fa) + fb;
    } else {
      assert a + b == b;
    }
  }

  /** A leading stretch of rejected elements contributes nothing to the filter. */
  lemma {:induction false} FilterSkipsRejected<T>(xs: seq<T>, e: nat, p: T -> bool)
    requires e <= |xs| && forall m :: 0 <= m < e ==> !p(xs[m])
    ensures Filter(xs, p) == Filter(xs[e..], p)
    decreases e
  {
    if e > 0 {
      assert Filter(xs, p) == [] + Filter(xs[1..], p);
      FilterSkipsRejected(xs[1..], e - 1, p);
      assert xs[1..][e - 1..] == xs[e..];
    }
  }

  /**
    The first `n` elements of `xs`: what `for i, x in enumerate(xs): if i >= n: break`
    visits. A cap of zero or less visits nothing.
   */
  function Take<T>(xs: seq<T>, n: int): (ys: seq<T>)
    ensures n <= 0 ==> ys == []
    ensures 0 <= n <= |xs| ==> ys == xs[..n]
    ensures n > |xs| ==> ys == xs
  {
    if n <= 0 then [] else if n >= |xs| then xs else xs[..n]
  }

  /** Python's `<=` on `str`: lexicographic by code point, a proper prefix coming first. */
  predicate StrLe(a: string, b: string)
    decreases |a|
  {
    |a| == 0 || (|b| > 0 && (a[0] < b[0] || (a[0] == b[0] && StrLe(a[1..], b[1..]))))
  }

  lemma {:induction false} StrLeTotal(a: string, b: string)
    ensures StrLe(a, b) || StrLe(b, a)
    decreases |a|
  {
    if |a| > 0 && |b| > 0 && a[0] == b[0] {
      StrLeTotal(a[1..], b[1..]);
    }
  }

  lemma {:induction false} StrLeTransitive(a: string, b: string, c: string)
    requires StrLe(a, b) && StrLe(b, c)
    ensures StrLe(a, c)
    decreases |a|
  {
    if |a| > 0 && a[0] == b[0] && b[0] == c[0] {
      StrLeTransitive(a[1..], b[1..], c[1..]);
    }
  }

  lemma {:induction false} StrLeAntisymmetric(a: string, b: string)
    requires StrLe(a, b) && StrLe(b, a)
    ensures a == b
    decreases |a|
  {
    if |a| > 0 {
      StrLeAntisymmetric(a[1..], b[1..]);
      assert a == [a[0]] + a[1..] && b == [b[0]] + b[1..];
    }
  }

  predicate Sorted(xs: seq<string>) {
    forall i, j :: 0 <= i < j < |xs| ==> StrLe(xs[i], xs[j])
  }

  /** Places `x` before the first element it does not come after. */
  function Insert(x: string, xs: seq<string>): (r: seq<string>)
    requires Sorted(xs)
    ensures Sorted(r)
    ensures multiset(r) == multiset(xs) + multiset{x}
  {
    if |xs| == 0 then [x]
    else if StrLe(x, xs[0]) then
      assert forall j :: 0 <= j < |xs| ==> StrLe(x, xs[j]) by {
        forall j | 0 <= j < |xs| ensures StrLe(x, xs[j]) {
          if j > 0 { StrLeTransitive(x, xs[0], xs[j]); }
        }
      }
      SortedCons(x, xs);
      [x] + xs
    else
      StrLeTotal(x, xs[0]);
      var rest := Insert(x, xs[1..]);
      HeadBelowInserted(xs, x, rest);
      SortedCons(xs[0], rest);
      assert xs == [xs[0]] + xs[1..];
      [xs[0]] + rest
  }

  /** A sorted sequence stays sorted under a head that comes before all its elements. */
  lemma SortedCons(h: string, rest: seq<string>)
    requires Sorted(rest)
    requires forall j :: 0 <= j < |rest| ==> StrLe(h, rest[j])
    ensures Sorted([h] + rest)
  {
    var r := [h] + rest;
    forall i, j | 0 <= i < j < |r| ensures StrLe(r[i], r[j]) {
      assert r[j] == rest[j - 1];
      if i > 0 {
        assert r[i] == rest[i - 1];
      }
    }
  }

  /** The head of a sorted sequence comes before everything inserting `x` into its tail yields. */
  lemma HeadBelowInserted(xs: seq<string>, x: string, rest: seq<string>)
    requires Sorted(xs) && |xs| > 0 && StrLe(xs[0], x)
    requires multiset(rest) == multiset(xs[1..]) + multiset{x}
    ensures forall j :: 0 <= j < |rest| ==> StrLe(xs[0], rest[j])
  {
    forall j | 0 <= j < |rest| ensures StrLe(xs[0], rest[j]) {
      assert rest[j] in multiset(rest);
      if rest[j] != x {
        assert rest[j] in multiset(xs[1..]);
        var k :| 0 <= k < |xs[1..]| && xs[1..][k] == rest[j];
        assert xs[k + 1] == rest[j];
      }
    }
  }

  /** `sorted(xs)` on strings. */
  function Sort(xs: seq<string>): (r: seq<string>)
    ensures Sorted(r)
    ensures multiset(r) == multiset(xs)
  {
    if |xs| == 0 then []
    else
      assert xs == [xs[0]] + xs[1..];
      Insert(xs[0], Sort(xs[1..]))
  }

  lemma SortedConcat(a: seq<string>, b: seq<string>)
    requires Sorted(a) && Sorted(b)
    requires forall i, j :: 0 <= i < |a| && 0 <= j < |b| ==> StrLe(a[i], b[j])
    ensures Sorted(a + b)
  {
    var c := a + b;
    forall i, j | 0 <= i < j < |c| ensures StrLe(c[i], c[j]) {
      if j < |a| {
        assert c[i] == a[i] && c[j] == a[j];
      } else if i < |a| {
        assert c[i] == a[i] && c[j] == b[j - |a|];
      } else {
        assert c[i] == b[i - |a|] && c[j] == b[j - |a|];
      }
    }
  }

  lemma {:induction false} FilterSorted(xs: seq<string>, p: string -> bool)
    requires Sorted(xs)
    ensures Sorted(Filter(xs, p))
    decreases |xs|
  {
    if |xs| > 0 {
      FilterSorted(xs[1..], p);
      var rest := Filter(xs[1..], p);
      forall j | 0 <= j < |rest| ensures StrLe(xs[0], rest[j]) {
        assert rest[j] in rest;
        var k :| 0 <= k < |xs[1..]| && xs[1..][k] == rest[j];
        assert xs[k + 1] == rest[j];
      }
    }
  }

  /** Splitting off the head of a non-empty left operand. */
  lemma ConsConcat<T>(a: seq<T>, b: seq<T>)
    requires |a| > 0
    ensures (a + b)[0] == a[0] && (a + b)[1..] == a[1..] + b
  {
  }

  /** Concatenation is associative. */
  lemma SeqConcatAssoc<T>(x: seq<T>, y: seq<T>, z: seq<T>)
    ensures x + (y + z) == (x + y) + z
  {
  }

  /** A suffix of a concatenation that starts inside the left operand. */
  lemma SuffixOfConcat<T>(x: seq<T>, y: seq<T>, e: nat)
    requires e <= |x|
    ensures (x + y)[e..] == x[e..] + y
  {
  }
}
