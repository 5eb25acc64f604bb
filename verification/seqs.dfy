/** Two sequence idioms the Python code uses through comprehensions and
    dict updates: filtering in order, and filling a dict from a sequence
    of entries where a later key overwrites an earlier one. */
module Seqs {

  /** `[x for x in xs if p(x)]`. */
  function Filter<T>(xs: seq<T>, p: T -> bool): (r: seq<T>)
    ensures |r| <= |xs|
    ensures forall k :: 0 <= k < |r| ==> r[k] in xs && p(r[k])
    ensures forall k :: 0 <= k < |xs| && p(xs[k]) ==> xs[k] in r
    decreases |xs|
  {
    if xs == [] then []
    else
      var last := xs[|xs| - 1];
      assert xs == xs[..|xs| - 1] + [last];
      Filter(xs[..|xs| - 1], p) + (if p(last) then [last] else [])
  }

  /** Filtering distributes over concatenation, so it keeps the order of
      the elements it keeps. */
  lemma {:induction false} FilterAppend<T>(a: seq<T>, b: seq<T>, p: T -> bool)
    ensures Filter(a + b, p) == Filter(a, p) + Filter(b, p)
    decreases |b|
  {
    if b != [] {
      var b' := b[..|b| - 1];
      assert (a + b)[..|a + b| - 1] == a + b';
      FilterAppend(a, b', p);
    } else {
      assert a + b == a;
    }
  }

  /** Filtering a sequence extended by one element. */
  lemma FilterSnoc<T>(xs: seq<T>, x: T, p: T -> bool)
    ensures Filter(xs + [x], p) == Filter(xs, p) + (if p(x) then [x] else [])
  {
    assert (xs + [x])[..|xs|] == xs;
  }

  /** Nothing survives a filter that rejects every element. */
  lemma {:induction false} FilterNone<T>(xs: seq<T>, p: T -> bool)
    requires forall k :: 0 <= k < |xs| ==> !p(xs[k])
    ensures Filter(xs, p) == []
    decreases |xs|
  {
    if xs != [] {
      FilterNone(xs[..|xs| - 1], p);
    }
  }

  /** The dict that `for x in xs: d[key(x)] = val(x)` builds from `{}`. */
  function Assoc<T, K, V>(xs: seq<T>, entry: T -> (K, V)): map<K, V>
    decreases |xs|
  {
    if xs == [] then map[]
    else
      var e := entry(xs[|xs| - 1]);
      Assoc(xs[..|xs| - 1], entry)[e.0 := e.1]
  }

  /** The dict of a sequence extended by one entry. */
  lemma AssocSnoc<T, K, V>(xs: seq<T>, x: T, entry: T -> (K, V))
    ensures Assoc(xs + [x], entry) == Assoc(xs, entry)[entry(x).0 := entry(x).1]
  {
    assert (xs + [x])[..|xs|] == xs;
  }

  /** `i` is the last position of `xs` whose entry has key `k`. */
  ghost predicate IsLastWithKey<T, K, V>(xs: seq<T>, entry: T -> (K, V), k: K, i: int) {
    && 0 <= i < |xs|
    && entry(xs[i]).0 == k
    && forall j :: i < j < |xs| ==> entry(xs[j]).0 != k
  }

  /** The keys of the dict are exactly the keys of the entries. */
  lemma {:induction false} AssocKeys<T, K, V>(xs: seq<T>, entry: T -> (K, V), k: K)
    ensures k in Assoc(xs, entry) <==> exists i :: 0 <= i < |xs| && entry(xs[i]).0 == k
    decreases |xs|
  {
    if xs != [] {
      var init := xs[..|xs| - 1];
      AssocKeys(init, entry, k);
      if k in Assoc(init, entry) {
        var i :| 0 <= i < |init| && entry(init[i]).0 == k;
        assert xs[i] == init[i];
      }
      if exists i :: 0 <= i < |xs| && entry(xs[i]).0 == k {
        var i :| 0 <= i < |xs| && entry(xs[i]).0 == k;
        if i < |init| { assert init[i] == xs[i]; }
      }
    }
  }

  /** A key holds the value of its last entry: later entries overwrite. */
  lemma {:induction false} AssocLast<T, K, V>(xs: seq<T>, entry: T -> (K, V), k: K, i: int)
    requires IsLastWithKey(xs, entry, k, i)
    ensures k in Assoc(xs, entry) && Assoc(xs, entry)[k] == entry(xs[i]).1
    decreases |xs|
  {
    var init := xs[..|xs| - 1];
    if i < |xs| - 1 {
      assert init[i] == xs[i];
      forall j | i < j < |init| ensures entry(init[j]).0 != k {
        assert init[j] == xs[j];
      }
      AssocLast(init, entry, k, i);
    }
  }
}
