/**
 * Generic sequence operations shared by the modules: `Array.prototype.filter`,
 * the subsequence relation that describes its result, and distinctness.
 */
module Seqs {

  /** `a` is obtained from `b` by deleting elements; the rest keep their order. */
  predicate IsSubseq<T(==)>(a: seq<T>, b: seq<T>)
    decreases |b|
  {
    if a == [] then true
    else if b == [] then false
    else (a[0] == b[0] && IsSubseq(a[1..], b[1..])) || IsSubseq(a, b[1..])
  }

  /** No element occurs twice. */
  predicate Distinct<T(==)>(xs: seq<T>) {
    forall i, j :: 0 <= i < j < |xs| ==> xs[i] != xs[j]
  }

  lemma DistinctCons<T>(x: T, xs: seq<T>)
    ensures Distinct([x] + xs) <==> x !in xs && Distinct(xs)
  {
    var ys := [x] + xs;
    assert forall i :: 0 <= i < |xs| ==> ys[i + 1] == xs[i];
    if x !in xs && Distinct(xs) {
      forall i, j | 0 <= i < j < |ys|
        ensures ys[i] != ys[j]
      {
        if i > 0 {
          assert ys[i] == xs[i - 1] && ys[j] == xs[j - 1];
        } else {
          assert ys[j] == xs[j - 1];
        }
      }
    }
    if Distinct(ys) {
      forall i, j | 0 <= i < j < |xs|
        ensures xs[i] != xs[j]
      {
        assert ys[i + 1] != ys[j + 1];
      }
      forall k | 0 <= k < |xs|
        ensures xs[k] != x
      {
        assert ys[0] != ys[k + 1];
      }
    }
  }

  /** `xs.filter(p)`: the elements of `xs` that satisfy `p`, in their original order. */
  function Filter<T>(xs: seq<T>, p: T -> bool): (r: seq<T>)
    ensures |r| <= |xs|
    ensures forall i :: 0 <= i < |r| ==> p(r[i])
  {
    if xs == [] then []
    else if p(xs[0]) then [xs[0]] + Filter(xs[1..], p)
    else Filter(xs[1..], p)
  }

  /** An element is kept by `filter` exactly when it is in the input and satisfies `p`. */
  lemma {:induction false} FilterMembership<T>(xs: seq<T>, p: T -> bool, x: T)
    ensures x in Filter(xs, p) <==> x in xs && p(x)
    decreases |xs|
  {
    if xs != [] {
      FilterMembership(xs[1..], p, x);
      assert xs == [xs[0]] + xs[1..];
    }
  }

  /** The result of `filter` is a subsequence of its input. */
  lemma {:induction false} FilterIsSubseq<T>(xs: seq<T>, p: T -> bool)
    ensures IsSubseq(Filter(xs, p), xs)
    decreases |xs|
  {
    if xs != [] {
      FilterIsSubseq(xs[1..], p);
      var r := Filter(xs, p);
      if p(xs[0]) {
        assert r[0] == xs[0] && r[1..] == Filter(xs[1..], p);
      } else if r != [] {
        assert r == Filter(xs[1..], p);
      }
    }
  }

  /** Filtering with a predicate that holds nowhere gives the empty sequence. */
  lemma {:induction false} FilterNone<T>(xs: seq<T>, p: T -> bool)
    requires forall i :: 0 <= i < |xs| ==> !p(xs[i])
    ensures Filter(xs, p) == []
    decreases |xs|
  {
    if xs != [] {
      FilterNone(xs[1..], p);
    }
  }

  /** Filtering with a predicate that holds everywhere gives the input back. */
  lemma {:induction false} FilterAll<T>(xs: seq<T>, p: T -> bool)
    requires forall i :: 0 <= i < |xs| ==> p(xs[i])
    ensures Filter(xs, p) == xs
    decreases |xs|
  {
    if xs != [] {
      FilterAll(xs[1..], p);
    }
  }

  /** Filtering distributes over concatenation. */
  lemma {:induction false} FilterConcat<T>(xs: seq<T>, ys: seq<T>, p: T -> bool)
    ensures Filter(xs + ys, p) == Filter(xs, p) + Filter(ys, p)
    decreases |xs|
  {
    if xs != [] {
      assert (xs + ys)[1..] == xs[1..] + ys;
      FilterConcat(xs[1..], ys, p);
    } else {
      assert xs + ys == ys;
    }
  }

  /** Two predicates that agree on every element filter alike. */
  lemma {:induction false} FilterCongruent<T>(xs: seq<T>, p: T -> bool, q: T -> bool)
    requires forall i :: 0 <= i < |xs| ==> p(xs[i]) == q(xs[i])
    ensures Filter(xs, p) == Filter(xs, q)
    decreases |xs|
  {
    if xs != [] {
      FilterCongruent(xs[1..], p, q);
    }
  }
}
