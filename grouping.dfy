/**
 * Grouping records by a string key into a dictionary, as both the curriculum
 * page (`reduce` into an object) and the document uploader (`forEach` into a
 * `Record`) do: a key gets an empty list the first time it is seen, and each
 * record is pushed onto the list of its key. JavaScript objects list string
 * keys that are not integer-like in insertion order, which `keys` records; the
 * site's keys ("1-1", "Year 1 - Semester 1") are all of that kind.
 */
module Grouping {
  import opened Seqs

  /** The distinct keys of `xs`, in order of first occurrence. */
  function KeysOf<T>(xs: seq<T>, key: T -> string): (ks: seq<string>)
    decreases |xs|
  {
    if xs == [] then []
    else
      var ks := KeysOf(xs[..|xs| - 1], key);
      if key(xs[|xs| - 1]) in ks then ks else ks + [key(xs[|xs| - 1])]
  }

  /** The filter test "has key `k`". */
  function KeyIs<T>(key: T -> string, k: string): T -> bool {
    x => key(x) == k
  }

  /** The group of key `k`: the records with that key, in input order. */
  function GroupOf<T>(xs: seq<T>, key: T -> string, k: string): seq<T> {
    Filter(xs, KeyIs(key, k))
  }

  /** The total size of the groups listed in `ks`. */
  function SumSizes<T>(ks: seq<string>, groups: map<string, seq<T>>): nat
    requires forall k :: k in ks ==> k in groups
  {
    if ks == [] then 0 else |groups[ks[0]]| + SumSizes(ks[1..], groups)
  }

  /** The dictionary that grouping `xs` builds. */
  ghost predicate IsGrouping<T>(xs: seq<T>, key: T -> string, keys: seq<string>, groups: map<string, seq<T>>) {
    && keys == KeysOf(xs, key)
    && (forall k :: k in groups <==> k in keys)
    && (forall k :: k in groups ==> groups[k] == GroupOf(xs, key, k))
  }

  /** The grouping loop. */
  method GroupBy<T>(xs: seq<T>, key: T -> string) returns (keys: seq<string>, groups: map<string, seq<T>>)
    ensures IsGrouping(xs, key, keys, groups)
  {
    keys, groups := [], map[];
    for i := 0 to |xs|
      invariant IsGrouping(xs[..i], key, keys, groups)
    {
      var x := xs[i];
      var k := key(x);
      GroupingSnoc(xs[..i], x, key, keys, groups);
      assert xs[..i + 1] == xs[..i] + [x];
      if k !in groups {
        groups := groups[k := []];
        keys := keys + [k];
      }
      groups := groups[k := groups[k] + [x]];
    }
    assert xs[..|xs|] == xs;
  }

  /** One step of the loop: pushing record `x` keeps the dictionary a grouping. */
  lemma GroupingSnoc<T>(ys: seq<T>, x: T, key: T -> string, keys: seq<string>, groups: map<string, seq<T>>)
    requires IsGrouping(ys, key, keys, groups)
    ensures var k := key(x);
      IsGrouping(ys + [x], key,
                 if k in groups then keys else keys + [k],
                 groups[k := (if k in groups then groups[k] else []) + [x]])
  {
    var k := key(x);
    assert (ys + [x])[..|ys|] == ys;
    forall k' | k' in groups
      ensures GroupOf(ys + [x], key, k') == GroupOf(ys, key, k') + GroupOf([x], key, k')
    {
      FilterConcat(ys, [x], KeyIs(key, k'));
    }
    FilterConcat(ys, [x], KeyIs(key, k));
    if k !in groups {
      KeysMembership(ys, key, k);
      FilterNone(ys, KeyIs(key, k));
    }
  }

  // ---------------------------------------------------------------------------
  // Properties of a grouping

  /** The keys are distinct ... */
  lemma {:induction false} KeysDistinct<T>(xs: seq<T>, key: T -> string)
    ensures Distinct(KeysOf(xs, key))
    decreases |xs|
  {
    if xs != [] {
      KeysDistinct(xs[..|xs| - 1], key);
    }
  }

  /** ... and they are exactly the keys of the records. */
  lemma {:induction false} KeysMembership<T>(xs: seq<T>, key: T -> string, k: string)
    ensures k in KeysOf(xs, key) <==> exists i :: 0 <= i < |xs| && key(xs[i]) == k
    decreases |xs|
  {
    if xs != [] {
      var init := xs[..|xs| - 1];
      KeysMembership(init, key, k);
      if exists i :: 0 <= i < |xs| && key(xs[i]) == k {
        var i :| 0 <= i < |xs| && key(xs[i]) == k;
        if i < |xs| - 1 {
          assert init[i] == xs[i];
        }
      }
      if exists i :: 0 <= i < |init| && key(init[i]) == k {
        var i :| 0 <= i < |init| && key(init[i]) == k;
        assert xs[i] == init[i];
      }
    }
  }

  /** Every record lands in the group of its own key and in no other group, and
      each group keeps the input order. */
  lemma ExactlyOneGroup<T>(xs: seq<T>, key: T -> string, keys: seq<string>, groups: map<string, seq<T>>, x: T)
    requires IsGrouping(xs, key, keys, groups)
    requires x in xs
    ensures key(x) in groups && x in groups[key(x)]
    ensures forall k :: k in groups && k != key(x) ==> x !in groups[k]
    ensures forall k :: k in groups ==> IsSubseq(groups[k], xs)
  {
    var i :| 0 <= i < |xs| && xs[i] == x;
    KeysMembership(xs, key, key(x));
    FilterMembership(xs, KeyIs(key, key(x)), x);
    forall k | k in groups && k != key(x)
      ensures x !in groups[k]
    {
      FilterMembership(xs, KeyIs(key, k), x);
    }
    forall k | k in groups
      ensures IsSubseq(groups[k], xs)
    {
      FilterIsSubseq(xs, KeyIs(key, k));
    }
  }

  /** The total size of the groups of `xs` under the keys `ks`. */
  function Total<T>(xs: seq<T>, key: T -> string, ks: seq<string>): nat {
    if ks == [] then 0 else |GroupOf(xs, key, ks[0])| + Total(xs, key, ks[1..])
  }

  lemma {:induction false} SumSizesIsTotal<T>(xs: seq<T>, key: T -> string, ks: seq<string>, groups: map<string, seq<T>>)
    requires forall k :: k in ks ==> k in groups && groups[k] == GroupOf(xs, key, k)
    ensures SumSizes(ks, groups) == Total(xs, key, ks)
    decreases |ks|
  {
    if ks != [] {
      SumSizesIsTotal(xs, key, ks[1..], groups);
    }
  }

  /** Appending one record adds one to the total of exactly the key lists that
      contain its key. */
  lemma {:induction false} TotalSnoc<T>(xs: seq<T>, x: T, key: T -> string, ks: seq<string>)
    requires Distinct(ks)
    ensures Total(xs + [x], key, ks) == Total(xs, key, ks) + (if key(x) in ks then 1 else 0)
    decreases |ks|
  {
    if ks != [] {
      FilterConcat(xs, [x], KeyIs(key, ks[0]));
      TotalSnoc(xs, x, key, ks[1..]);
      assert key(x) in ks <==> key(x) == ks[0] || key(x) in ks[1..];
    }
  }

  lemma {:induction false} TotalAppendKey<T>(xs: seq<T>, key: T -> string, ks: seq<string>, k: string)
    ensures Total(xs, key, ks + [k]) == Total(xs, key, ks) + |GroupOf(xs, key, k)|
    decreases |ks|
  {
    if ks != [] {
      assert (ks + [k])[1..] == ks[1..] + [k];
      TotalAppendKey(xs, key, ks[1..], k);
    }
  }

  lemma {:induction false} TotalOfKeys<T>(xs: seq<T>, key: T -> string)
    ensures Total(xs, key, KeysOf(xs, key)) == |xs|
    decreases |xs|
  {
    if xs != [] {
      var init, x := xs[..|xs| - 1], xs[|xs| - 1];
      assert xs == init + [x];
      var ks := KeysOf(init, key);
      TotalOfKeys(init, key);
      KeysDistinct(init, key);
      if key(x) in ks {
        TotalSnoc(init, x, key, ks);
      } else {
        TotalSnoc(init, x, key, ks);
        TotalAppendKey(xs, key, ks, key(x));
        KeysMembership(init, key, key(x));
        FilterNone(init, KeyIs(key, key(x)));
        FilterConcat(init, [x], KeyIs(key, key(x)));
      }
    }
  }

  /** The group sizes add up to the number of records. */
  lemma SizesSum<T>(xs: seq<T>, key: T -> string, keys: seq<string>, groups: map<string, seq<T>>)
    requires IsGrouping(xs, key, keys, groups)
    ensures SumSizes(keys, groups) == |xs|
  {
    SumSizesIsTotal(xs, key, keys, groups);
    TotalOfKeys(xs, key);
  }
}
