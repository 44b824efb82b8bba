/**
 * Stable merging and merge sort of sequences ordered by a numeric sort key.
 * The linked-list sort merges by `data`; the knapsack's greedy pass sorts its items by
 * non-increasing calories/cost ratio, which Python's stable `sorted` with `reverse=True`
 * delivers, i.e. a stable sort by the key `-(calories / cost)`. Both are instances of
 * the definitions here. Keys are exact `real`s.
 */
module StableSort {

  /** Keys never decrease from left to right. */
  ghost predicate Sorted<T>(key: T -> real, s: seq<T>)
  {
    forall i, j | 0 <= i < j < |s| :: key(s[i]) <= key(s[j])
  }

  /** The elements of `s` whose key is `k`, in their order in `s`. */
  function Tied<T>(key: T -> real, k: real, s: seq<T>): (r: seq<T>)
  {
    if s == [] then []
    else (if key(s[0]) == k then [s[0]] else []) + Tied(key, k, s[1..])
  }

  /**
   * Merge of two runs: the head of `xs` is taken whenever its key is at most that of
   * the head of `ys`, so on ties the left run wins; once a run is exhausted the rest of
   * the other one follows unchanged.
   */
  function Merge<T>(xs: seq<T>, ys: seq<T>, key: T -> real): (r: seq<T>)
    ensures multiset(r) == multiset(xs) + multiset(ys)
    decreases |xs| + |ys|
  {
    if xs == [] then ys
    else if ys == [] then xs
    else if key(xs[0]) <= key(ys[0]) then
      assert xs == [xs[0]] + xs[1..];
      [xs[0]] + Merge(xs[1..], ys, key)
    else
      assert ys == [ys[0]] + ys[1..];
      [ys[0]] + Merge(xs, ys[1..], key)
  }

  /** Where a run of length `n >= 2` is cut: after its element `(n - 1) / 2`. */
  function Cut(n: nat): nat
  {
    (n - 1) / 2 + 1
  }

  /** Merging with an empty sequence gives the other one back. */
  lemma MergeEmpty<T>(xs: seq<T>, ys: seq<T>, key: T -> real)
    requires xs == [] || ys == []
    ensures Merge(xs, ys, key) == if xs == [] then ys else xs
  {
  }

  /** Top-down merge sort that splits after the middle element, as the slow/fast walk does. */
  function MergeSort<T>(s: seq<T>, key: T -> real): (r: seq<T>)
    ensures multiset(r) == multiset(s)
    decreases |s|
  {
    if |s| <= 1 then s
    else
      var m := Cut(|s|);
      assert s == s[..m] + s[m..];
      Merge(MergeSort(s[..m], key), MergeSort(s[m..], key), key)
  }

  /** Every element of `s` has a key of at least `lo`. */
  ghost predicate AllAtLeast<T>(key: T -> real, lo: real, s: seq<T>)
  {
    forall i | 0 <= i < |s| :: lo <= key(s[i])
  }

  lemma AllAtLeastMultiset<T>(key: T -> real, lo: real, s: seq<T>, t: seq<T>)
    requires multiset(s) == multiset(t) && AllAtLeast(key, lo, t)
    ensures AllAtLeast(key, lo, s)
  {
    forall i | 0 <= i < |s| ensures lo <= key(s[i]) {
      assert s[i] in multiset(t);
      var j :| 0 <= j < |t| && t[j] == s[i];
    }
  }

  /** Merging two sorted runs gives a sorted run. */
  lemma {:induction false} MergeSorted<T>(xs: seq<T>, ys: seq<T>, key: T -> real)
    requires Sorted(key, xs) && Sorted(key, ys)
    ensures Sorted(key, Merge(xs, ys, key))
    decreases |xs| + |ys|
  {
    if xs != [] && ys != [] {
      if key(xs[0]) <= key(ys[0]) {
        var rest := Merge(xs[1..], ys, key);
        MergeSorted(xs[1..], ys, key);
        HeadBelowAll(key, xs, ys);
        AllAtLeastMultiset(key, key(xs[0]), rest, xs[1..] + ys);
        ConsSorted(key, xs[0], rest);
      } else {
        var rest := Merge(xs, ys[1..], key);
        MergeSorted(xs, ys[1..], key);
        HeadBelowAll(key, ys, xs);
        AllAtLeastMultiset(key, key(ys[0]), xs + ys[1..], ys[1..] + xs);
        AllAtLeastMultiset(key, key(ys[0]), rest, xs + ys[1..]);
        ConsSorted(key, ys[0], rest);
      }
    }
  }

  /** The head of a sorted run whose key is at most that of another run's head bounds both runs' rest. */
  lemma HeadBelowAll<T>(key: T -> real, xs: seq<T>, ys: seq<T>)
    requires Sorted(key, xs) && Sorted(key, ys) && xs != [] && ys != [] && key(xs[0]) <= key(ys[0])
    ensures AllAtLeast(key, key(xs[0]), xs[1..] + ys)
  {
  }

  /** A key at most every key of a sorted run can be put in front of it. */
  lemma ConsSorted<T>(key: T -> real, x: T, s: seq<T>)
    requires Sorted(key, s) && AllAtLeast(key, key(x), s)
    ensures Sorted(key, [x] + s)
  {
  }

  lemma {:induction false} TiedAppend<T>(key: T -> real, k: real, a: seq<T>, b: seq<T>)
    ensures Tied(key, k, a + b) == Tied(key, k, a) + Tied(key, k, b)
  {
    if a == [] {
      assert a + b == b;
    } else {
      assert (a + b)[0] == a[0] && (a + b)[1..] == a[1..] + b;
      TiedAppend(key, k, a[1..], b);
      AppendAssoc(if key(a[0]) == k then [a[0]] else [], Tied(key, k, a[1..]), Tied(key, k, b));
    }
  }

  /** No element of a sequence whose keys all exceed `k` has key `k`. */
  lemma {:induction false} TiedNone<T>(key: T -> real, k: real, s: seq<T>)
    requires forall i | 0 <= i < |s| :: k < key(s[i])
    ensures Tied(key, k, s) == []
  {
    if s != [] {
      TiedNone(key, k, s[1..]);
    }
  }

  /** The elements with key `k` of `[x] + s`. */
  lemma TiedCons<T>(key: T -> real, k: real, x: T, s: seq<T>)
    ensures Tied(key, k, [x] + s) == (if key(x) == k then [x] else []) + Tied(key, k, s)
  {
    assert ([x] + s)[1..] == s;
  }

  /**
   * Merging is stable: the elements with any key `k` come out as those of `xs`
   * followed by those of `ys`, each in its original order.
   */
  lemma {:induction false} MergeStable<T>(xs: seq<T>, ys: seq<T>, key: T -> real, k: real)
    requires Sorted(key, xs)
    ensures Tied(key, k, Merge(xs, ys, key)) == Tied(key, k, xs) + Tied(key, k, ys)
    decreases |xs| + |ys|, 1
  {
    if xs == [] {
      assert [] + Tied(key, k, ys) == Tied(key, k, ys);
    } else if ys == [] {
      assert Tied(key, k, xs) + [] == Tied(key, k, xs);
    } else if key(xs[0]) <= key(ys[0]) {
      MergeStableTakeLeft(xs, ys, key, k);
    } else {
      MergeStableTakeRight(xs, ys, key, k);
    }
  }

  /** `MergeStable` when the head of `xs` is taken first. */
  lemma {:induction false} MergeStableTakeLeft<T>(xs: seq<T>, ys: seq<T>, key: T -> real, k: real)
    requires Sorted(key, xs) && xs != [] && ys != [] && key(xs[0]) <= key(ys[0])
    ensures Tied(key, k, Merge(xs, ys, key)) == Tied(key, k, xs) + Tied(key, k, ys)
    decreases |xs| + |ys|, 0
  {
    var rest := Merge(xs[1..], ys, key);
    assert Merge(xs, ys, key) == [xs[0]] + rest;
    TiedCons(key, k, xs[0], rest);
    MergeStable(xs[1..], ys, key, k);
    assert xs == [xs[0]] + xs[1..];
    TiedCons(key, k, xs[0], xs[1..]);
    AppendAssoc(if key(xs[0]) == k then [xs[0]] else [], Tied(key, k, xs[1..]), Tied(key, k, ys));
  }

  /** `MergeStable` when the head of `ys` is taken first: it has no tie in the sorted `xs`. */
  lemma {:induction false} MergeStableTakeRight<T>(xs: seq<T>, ys: seq<T>, key: T -> real, k: real)
    requires Sorted(key, xs) && xs != [] && ys != [] && key(ys[0]) < key(xs[0])
    ensures Tied(key, k, Merge(xs, ys, key)) == Tied(key, k, xs) + Tied(key, k, ys)
    decreases |xs| + |ys|, 0
  {
    var rest := Merge(xs, ys[1..], key);
    var head := if key(ys[0]) == k then [ys[0]] else [];
    assert Merge(xs, ys, key) == [ys[0]] + rest;
    TiedCons(key, k, ys[0], rest);
    MergeStable(xs, ys[1..], key, k);
    assert ys == [ys[0]] + ys[1..];
    TiedCons(key, k, ys[0], ys[1..]);
    if key(ys[0]) == k {
      NoTieBelow(xs, key, k);
      EmptyLeft(Tied(key, k, ys[1..]));
      EmptyLeft(Tied(key, k, ys));
    } else {
      EmptyLeft(Tied(key, k, xs) + Tied(key, k, ys[1..]));
      EmptyLeft(Tied(key, k, ys[1..]));
    }
  }

  lemma EmptyLeft<T>(s: seq<T>)
    ensures [] + s == s
  {
  }

  /** A key below the first of a sorted run has no tie in it. */
  lemma NoTieBelow<T>(xs: seq<T>, key: T -> real, k: real)
    requires Sorted(key, xs) && xs != [] && k < key(xs[0])
    ensures Tied(key, k, xs) == []
  {
    assert forall i | 0 <= i < |xs| :: k < key(xs[i]) by {
      assert forall i | 0 < i < |xs| :: key(xs[0]) <= key(xs[i]);
    }
    TiedNone(key, k, xs);
  }

  lemma AppendAssoc<T>(a: seq<T>, b: seq<T>, c: seq<T>)
    ensures a + (b + c) == (a + b) + c
  {
  }

  /** Merge sort yields a sorted rearrangement of its input. */
  lemma {:induction false} MergeSortSorted<T>(s: seq<T>, key: T -> real)
    ensures Sorted(key, MergeSort(s, key))
    ensures multiset(MergeSort(s, key)) == multiset(s)
    decreases |s|
  {
    if |s| > 1 {
      var m := Cut(|s|);
      MergeSortSorted(s[..m], key);
      MergeSortSorted(s[m..], key);
      MergeSorted(MergeSort(s[..m], key), MergeSort(s[m..], key), key);
    }
  }

  /** Merge sort is stable: elements with equal keys keep their relative order. */
  lemma {:induction false} MergeSortStable<T>(s: seq<T>, key: T -> real, k: real)
    ensures Tied(key, k, MergeSort(s, key)) == Tied(key, k, s)
    decreases |s|
  {
    if |s| > 1 {
      var m := Cut(|s|);
      assert s == s[..m] + s[m..];
      MergeSortStable(s[..m], key, k);
      MergeSortStable(s[m..], key, k);
      MergeSortSorted(s[..m], key);
      MergeStable(MergeSort(s[..m], key), MergeSort(s[m..], key), key, k);
      TiedAppend(key, k, s[..m], s[m..]);
    }
  }
}
