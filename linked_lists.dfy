/**
 * Singly linked list of integers with append, in-place reversal, merge sort by relinking,
 * and merging of two sorted lists (t1.py).
 *
 * A list is a chain of `Node` objects from `head` through `next` to `null`. The ghost
 * sequence `nodes` names the chain's nodes in order, so every pointer-walking operation is
 * stated against a sequence: its contents are the `data` of those nodes.
 */
module LinkedLists {
  import opened Sequences
  import StableSort

  class Node {
    const data: int
    var next: Node?

    constructor (data: int)
      ensures this.data == data && next == null
    {
      this.data := data;
      next := null;
    }
  }

  /** The sort key of a node: its value. */
  function Key(n: Node): real
  {
    n.data as real
  }

  /** The values held by a sequence of nodes. */
  function Values(ns: seq<Node>): (r: seq<int>)
    ensures |r| == |ns|
  {
    seq(|ns|, i requires 0 <= i < |ns| => ns[i].data)
  }

  /** `s` is non-decreasing. */
  ghost predicate NonDecreasing(s: seq<int>)
  {
    forall i, j | 0 <= i < j < |s| :: s[i] <= s[j]
  }

  /** A non-decreasing sequence is determined by its multiset of values. */
  lemma {:induction false} SortedUnique(a: seq<int>, b: seq<int>)
    requires NonDecreasing(a) && NonDecreasing(b) && multiset(a) == multiset(b)
    ensures a == b
    decreases |a|
  {
    assert |a| == |multiset(a)| == |b|;
    if a != [] {
      HeadIsLeast(a, b[0]);
      HeadIsLeast(b, a[0]);
      MultisetTail(a);
      MultisetTail(b);
      assert a[0] == b[0];
      assert multiset(a[1..]) == multiset(a) - multiset{a[0]};
      SortedUnique(a[1..], b[1..]);
    }
  }

  /** The head of a non-decreasing sequence is at most any of its values. */
  lemma HeadIsLeast(a: seq<int>, x: int)
    requires NonDecreasing(a) && x in multiset(a)
    ensures a != [] && a[0] <= x
  {
    var i :| 0 <= i < |a| && a[i] == x;
    assert a[0] <= a[i];
  }

  /** The multiset of a non-empty sequence is its head's plus its tail's. */
  lemma MultisetTail(a: seq<int>)
    requires a != []
    ensures multiset(a) == multiset{a[0]} + multiset(a[1..])
  {
    assert a == [a[0]] + a[1..];
  }

  /** From index `lo` on, each node's `next` is the node after it, and the last one's is `null`. */
  ghost predicate Linked(ns: seq<Node>, lo: nat)
    reads ns
  {
    forall i {:trigger ns[i].next} | lo <= i < |ns| :: ns[i].next == (if i + 1 < |ns| then ns[i + 1] else null)
  }

  /** One link of a linked suffix. */
  lemma LinkedAt(ns: seq<Node>, lo: nat, i: nat)
    requires Linked(ns, lo) && lo <= i < |ns|
    ensures ns[i].next == (if i + 1 < |ns| then ns[i + 1] else null)
  {
  }

  /** Dropping the first node of a linked sequence leaves a linked sequence. */
  lemma LinkedTail(ns: seq<Node>)
    requires Linked(ns, 0) && ns != []
    ensures Linked(ns[1..], 0)
  {
    forall i | 0 <= i < |ns[1..]| ensures ns[1..][i].next == (if i + 1 < |ns[1..]| then ns[1..][i + 1] else null) {
      LinkedAt(ns, 0, i + 1);
    }
  }

  /** Each node's `next` is the node before it, and the first one's is `null`: a chain reversed. */
  ghost predicate BackLinked(ns: seq<Node>)
    reads ns
  {
    forall i {:trigger ns[i].next} | 0 <= i < |ns| :: ns[i].next == (if i == 0 then null else ns[i - 1])
  }

  /** A node pointing back at the last node extends a back-linked sequence. */
  lemma BackLinkedExtend(ns: seq<Node>, x: Node)
    requires BackLinked(ns)
    requires x.next == (if ns == [] then null else ns[|ns| - 1])
    ensures BackLinked(ns + [x])
  {
    forall i | 0 <= i < |ns + [x]| ensures (ns + [x])[i].next == (if i == 0 then null else (ns + [x])[i - 1]) {
      if i < |ns| {
        assert (ns + [x])[i] == ns[i];
        assert ns[i].next == (if i == 0 then null else ns[i - 1]);
      }
    }
  }

  /** A node of a distinct sequence occurs neither before nor after its own index. */
  lemma DistinctSplit(ns: seq<Node>, k: nat)
    requires Distinct(ns) && k < |ns|
    ensures ns[k] !in ns[..k] && ns[k] !in ns[k + 1..]
  {
  }

  /** A distinct back-linked sequence, read from its last node, is a chain of the reversed nodes. */
  lemma BackLinkedReversed(ns: seq<Node>)
    requires Distinct(ns) && BackLinked(ns)
    ensures Chain(if ns == [] then null else ns[|ns| - 1], Reversed(ns))
  {
    var rs := Reversed(ns);
    ReversedAt(ns);
    ReversedMultiset(ns);
    DistinctPermutation(ns, rs);
    forall j | 0 <= j < |rs| ensures rs[j].next == (if j + 1 < |rs| then rs[j + 1] else null) {
      assert rs[j] == ns[|ns| - 1 - j];
      assert ns[|ns| - 1 - j].next == (if |ns| - 1 - j == 0 then null else ns[|ns| - 1 - j - 1]);
      if j + 1 < |rs| {
        assert rs[j + 1] == ns[|ns| - 1 - j - 1];
      }
    }
    assert Linked(rs, 0);
    assert rs != [] ==> rs[0] == ns[|ns| - 1];
  }

  /** `head` starts a null-terminated chain through exactly the distinct nodes `ns`, in order. */
  ghost predicate Chain(head: Node?, ns: seq<Node>)
    reads ns
  {
    && Distinct(ns)
    && head == (if ns == [] then null else ns[0])
    && Linked(ns, 0)
  }

  /** The nodes of a chain, sorted by value with equal values kept in their original order. */
  function SortedNodes(ns: seq<Node>): seq<Node>
  {
    StableSort.MergeSort(ns, Key)
  }

  /** Reversing a chain reverses its values. */
  lemma ValuesReversed(ns: seq<Node>)
    ensures Values(Reversed(ns)) == Reversed(Values(ns))
  {
    ReversedAt(ns);
    ReversedAt(Values(ns));
  }

  /** Sorting the nodes by key sorts their values. */
  lemma SortedByKey(ns: seq<Node>)
    requires StableSort.Sorted(Key, ns)
    ensures NonDecreasing(Values(ns))
  {
    forall i, j | 0 <= i < j < |ns| ensures Values(ns)[i] <= Values(ns)[j] {
      assert Key(ns[i]) <= Key(ns[j]);
    }
  }

  /** Non-decreasing values mean the nodes are sorted by key. */
  lemma KeySorted(ns: seq<Node>)
    requires NonDecreasing(Values(ns))
    ensures StableSort.Sorted(Key, ns)
  {
    forall i, j | 0 <= i < j < |ns| ensures Key(ns[i]) <= Key(ns[j]) {
      assert Values(ns)[i] <= Values(ns)[j];
    }
  }

  /**
   * What `sort` promises about the nodes it relinks: their values end up non-decreasing,
   * they are the values of before, and nodes of equal value keep their relative order.
   */
  lemma SortSpec(ns: seq<Node>)
    ensures NonDecreasing(Values(SortedNodes(ns)))
    ensures multiset(Values(SortedNodes(ns))) == multiset(Values(ns))
    ensures forall k :: StableSort.Tied(Key, k, SortedNodes(ns)) == StableSort.Tied(Key, k, ns)
  {
    StableSort.MergeSortSorted(ns, Key);
    SortedByKey(SortedNodes(ns));
    ValuesMultiset(SortedNodes(ns), ns);
    forall k ensures StableSort.Tied(Key, k, SortedNodes(ns)) == StableSort.Tied(Key, k, ns) {
      StableSort.MergeSortStable(ns, Key, k);
    }
  }

  /**
   * What `_merge` and `merge_two_sorted` promise about the nodes of two non-decreasing
   * chains they relink: the values come out non-decreasing, they are the values of both
   * chains, and among nodes of equal value those of the left chain come first.
   */
  lemma MergeSpec(xs: seq<Node>, ys: seq<Node>)
    requires NonDecreasing(Values(xs)) && NonDecreasing(Values(ys))
    ensures NonDecreasing(Values(StableSort.Merge(xs, ys, Key)))
    ensures multiset(Values(StableSort.Merge(xs, ys, Key))) == multiset(Values(xs)) + multiset(Values(ys))
    ensures forall k :: StableSort.Tied(Key, k, StableSort.Merge(xs, ys, Key))
                     == StableSort.Tied(Key, k, xs) + StableSort.Tied(Key, k, ys)
  {
    var ms := StableSort.Merge(xs, ys, Key);
    KeySorted(xs);
    KeySorted(ys);
    StableSort.MergeSorted(xs, ys, Key);
    SortedByKey(ms);
    ValuesMultiset(ms, xs + ys);
    ValuesAppend(xs, ys);
    forall k ensures StableSort.Tied(Key, k, ms) == StableSort.Tied(Key, k, xs) + StableSort.Tied(Key, k, ys) {
      StableSort.MergeStable(xs, ys, Key, k);
    }
  }

  /** A permutation of nodes holds a permutation of their values. */
  lemma {:induction false} ValuesMultiset(ns: seq<Node>, ms: seq<Node>)
    requires multiset(ns) == multiset(ms)
    ensures multiset(Values(ns)) == multiset(Values(ms))
    decreases |ns|
  {
    if ns != [] {
      var k := PermutedHead(ns, ms);
      var rest := ms[..k] + ms[k + 1..];
      ValuesMultiset(ns[1..], rest);
      ValuesRemoveAt(ms, k);
      ValuesUncons(ns);
    }
  }

  /** The head of `ns` is at some `k` in its permutation `ms`; dropping it leaves a permutation of the tail. */
  lemma PermutedHead(ns: seq<Node>, ms: seq<Node>) returns (k: nat)
    requires ns != [] && multiset(ns) == multiset(ms)
    ensures k < |ms| && ms[k] == ns[0]
    ensures multiset(ns[1..]) == multiset(ms[..k] + ms[k + 1..])
  {
    assert ns[0] in multiset(ms);
    k :| 0 <= k < |ms| && ms[k] == ns[0];
    RemoveAt(ms, k);
    assert ns == [ns[0]] + ns[1..];
  }

  /** The values of a non-empty sequence are its head's value and the values of its tail. */
  lemma ValuesUncons(ns: seq<Node>)
    requires ns != []
    ensures multiset(Values(ns)) == multiset(Values(ns[1..])) + multiset{ns[0].data}
  {
    assert ns == [ns[0]] + ns[1..];
    ValuesAppend([ns[0]], ns[1..]);
    assert Values([ns[0]]) == [ns[0].data];
  }

  /** Dropping the element at `k` removes one occurrence of it. */
  lemma RemoveAt<T>(s: seq<T>, k: nat)
    requires k < |s|
    ensures multiset(s[..k] + s[k + 1..]) == multiset(s) - multiset{s[k]}
  {
    assert s == s[..k] + [s[k]] + s[k + 1..];
  }

  /** Dropping the node at `k` removes one occurrence of its value. */
  lemma ValuesRemoveAt(ms: seq<Node>, k: nat)
    requires k < |ms|
    ensures multiset(Values(ms)) == multiset(Values(ms[..k] + ms[k + 1..])) + multiset{ms[k].data}
  {
    var a, b := ms[..k], ms[k + 1..];
    assert ms == a + [ms[k]] + b;
    ValuesAppend(a + [ms[k]], b);
    ValuesAppend(a, [ms[k]]);
    ValuesAppend(a, b);
    assert Values([ms[k]]) == [ms[k].data];
  }

  /** The values of a concatenation are the concatenated values. */
  lemma ValuesAppend(a: seq<Node>, b: seq<Node>)
    ensures Values(a + b) == Values(a) + Values(b)
  {
  }

  /** No node of `a` is a node of `b`. */
  ghost predicate Disjoint(a: seq<Node>, b: seq<Node>)
  {
    forall n | n in a :: n !in b
  }

  /** Disjointness is symmetric. */
  lemma DisjointSymmetric(a: seq<Node>, b: seq<Node>)
    requires Disjoint(a, b)
    ensures Disjoint(b, a)
  {
  }

  /** Two distinct, disjoint sequences concatenate to a distinct one. */
  lemma DistinctConcat(a: seq<Node>, b: seq<Node>)
    requires Distinct(a) && Distinct(b) && Disjoint(a, b)
    ensures Distinct(a + b)
  {
    forall i, j | 0 <= i < j < |a + b| ensures (a + b)[i] != (a + b)[j] {
      if j < |a| {
        assert (a + b)[i] == a[i] && (a + b)[j] == a[j];
      } else if i >= |a| {
        assert (a + b)[i] == b[i - |a|] && (a + b)[j] == b[j - |a|];
      } else {
        assert (a + b)[i] == a[i] && (a + b)[j] == b[j - |a|];
        assert a[i] in a;
      }
    }
  }

  /** The halves of a distinct sequence are distinct and disjoint. */
  lemma DistinctHalves(ns: seq<Node>, m: nat)
    requires Distinct(ns) && m <= |ns|
    ensures Distinct(ns[..m]) && Distinct(ns[m..]) && Disjoint(ns[..m], ns[m..])
  {
    forall n | n in ns[..m] ensures n !in ns[m..] {
      var i :| 0 <= i < m && ns[..m][i] == n;
      assert forall j | 0 <= j < |ns| - m :: ns[m..][j] == ns[m + j];
    }
    assert Distinct(ns[m..]) by {
      forall i, j | 0 <= i < j < |ns[m..]| ensures ns[m..][i] != ns[m..][j] {
        assert ns[m..][i] == ns[m + i] && ns[m..][j] == ns[m + j];
      }
    }
  }

  /** Disjointness depends only on which nodes occur. */
  lemma DisjointPermutation(a: seq<Node>, b: seq<Node>, a': seq<Node>, b': seq<Node>)
    requires Disjoint(a, b) && multiset(a) == multiset(a') && multiset(b) == multiset(b')
    ensures Disjoint(a', b')
  {
    forall n | n in a' ensures n !in b' {
      assert n in multiset(a);
      assert n in a;
      assert n !in multiset(b);
    }
  }

  /** The tail of a chain is the chain from the head's successor. */
  lemma ChainTail(head: Node?, ns: seq<Node>)
    requires Chain(head, ns) && ns != []
    ensures Chain(ns[0].next, ns[1..])
  {
    LinkedAt(ns, 0, 0);
    LinkedTail(ns);
    DistinctHalves(ns, 1);
  }

  /** A node pointing at the head of a linked sequence extends it at the front. */
  lemma LinkedCons(x: Node, ns: seq<Node>)
    requires Linked(ns, 0)
    requires x.next == (if ns == [] then null else ns[0])
    ensures Linked([x] + ns, 0)
  {
    forall i | 0 <= i < |[x] + ns| ensures ([x] + ns)[i].next == (if i + 1 < |[x] + ns| then ([x] + ns)[i + 1] else null) {
      if i > 0 {
        assert ([x] + ns)[i] == ns[i - 1];
        LinkedAt(ns, 0, i - 1);
      }
    }
  }

  /** Detaching the head of a chain leaves a chain of the other nodes, apart from `others`. */
  lemma DetachHead(head: Node?, ns: seq<Node>, others: seq<Node>)
    requires Chain(head, ns) && ns != [] && Disjoint(ns, others)
    ensures Chain(ns[0].next, ns[1..]) && Disjoint(ns[1..], others)
    ensures ns[0] !in ns[1..] && ns[0] !in others
  {
    ChainTail(head, ns);
    DistinctHalves(ns, 1);
    assert ns[0] in ns[..1];
  }

  /** A node in neither input is not in their merge. */
  lemma OutsideMerge(x: Node, a: seq<Node>, b: seq<Node>)
    requires x !in a && x !in b
    ensures x !in StableSort.Merge(a, b, Key)
  {
    assert x !in multiset(StableSort.Merge(a, b, Key));
  }

  /** A node outside a chain that points at its head starts a longer chain. */
  lemma ChainCons(x: Node, head: Node?, ns: seq<Node>)
    requires Chain(head, ns) && x !in ns && x.next == head
    ensures Chain(x, [x] + ns)
  {
    LinkedCons(x, ns);
    assert Distinct([x] + ns) by {
      forall i, j | 0 <= i < j < |[x] + ns| ensures ([x] + ns)[i] != ([x] + ns)[j] {
        assert ([x] + ns)[j] == ns[j - 1];
        if i > 0 {
          assert ([x] + ns)[i] == ns[i - 1];
        }
      }
    }
  }

  /** Each node's `next` is the node after it, and the last one's is `last`. */
  ghost predicate LinksTo(ns: seq<Node>, last: Node?)
    reads ns
  {
    forall i {:trigger ns[i].next} | 0 <= i < |ns| :: ns[i].next == (if i + 1 < |ns| then ns[i + 1] else last)
  }

  /**
   * Cutting a chain after its first `m` nodes: the prefix before the cut node links to it,
   * and the rest is a chain of its own from the cut node's successor.
   */
  lemma SplitChain(head: Node?, ns: seq<Node>, m: nat)
    requires Chain(head, ns) && 1 <= m < |ns|
    ensures LinksTo(ns[..m - 1], ns[m - 1])
    ensures Chain(ns[m - 1].next, ns[m..])
    ensures ns[m - 1] !in ns[..m - 1] && ns[m - 1] !in ns[m..]
    ensures Distinct(ns[..m]) && Disjoint(ns[..m], ns[m..]) && Disjoint(ns[m..], ns[..m])
  {
    var pre, post := ns[..m - 1], ns[m..];
    forall i | 0 <= i < |pre| ensures pre[i].next == (if i + 1 < |pre| then pre[i + 1] else ns[m - 1]) {
      LinkedAt(ns, 0, i);
    }
    LinkedAt(ns, 0, m - 1);
    forall i | 0 <= i < |post| ensures post[i].next == (if i + 1 < |post| then post[i + 1] else null) {
      LinkedAt(ns, 0, m + i);
    }
    assert Linked(post, 0);
    DistinctHalves(ns, m);
    DistinctHalves(ns, m - 1);
    assert ns[m - 1..] == [ns[m - 1]] + post;
    DistinctSplit(ns, m - 1);
    DisjointSymmetric(ns[..m], post);
  }

  lemma LinksToAt(ns: seq<Node>, last: Node?, i: nat)
    requires LinksTo(ns, last) && i < |ns|
    ensures ns[i].next == (if i + 1 < |ns| then ns[i + 1] else last)
  {
  }

  /** A prefix linking to a node whose `next` is `null` closes into a chain. */
  lemma CloseChain(ps: seq<Node>, x: Node)
    requires LinksTo(ps, x) && x.next == null && Distinct(ps + [x])
    ensures Chain((ps + [x])[0], ps + [x])
  {
    forall i | 0 <= i < |ps + [x]| ensures (ps + [x])[i].next == (if i + 1 < |ps + [x]| then (ps + [x])[i + 1] else null) {
      if i < |ps| {
        assert (ps + [x])[i] == ps[i];
        LinksToAt(ps, x, i);
      }
    }
  }

  /** Sequences that permute the two halves of `ns` hold nodes of `ns` only. */
  lemma WithinHalves(ns: seq<Node>, m: nat, ls: seq<Node>, rs: seq<Node>)
    requires m <= |ns| && multiset(ls) == multiset(ns[..m]) && multiset(rs) == multiset(ns[m..])
    ensures forall i | 0 <= i < |ls| :: ls[i] in ns
    ensures forall i | 0 <= i < |rs| :: rs[i] in ns
  {
    assert ns == ns[..m] + ns[m..];
    forall i | 0 <= i < |ls| ensures ls[i] in ns {
      assert ls[i] in multiset(ns[..m]);
    }
    forall i | 0 <= i < |rs| ensures rs[i] in ns {
      assert rs[i] in multiset(ns[m..]);
    }
  }

  /** The step of a merge that takes the left head, on suffixes. */
  lemma MergeTakesLeft(xs: seq<Node>, ys: seq<Node>, i: nat, j: nat)
    requires i < |xs| && j < |ys| && Key(xs[i]) <= Key(ys[j])
    ensures StableSort.Merge(xs[i..], ys[j..], Key) == [xs[i]] + StableSort.Merge(xs[i + 1..], ys[j..], Key)
  {
    assert xs[i..][0] == xs[i] && xs[i..][1..] == xs[i + 1..] && ys[j..][0] == ys[j];
  }

  /** The step of a merge that takes the right head, on suffixes. */
  lemma MergeTakesRight(xs: seq<Node>, ys: seq<Node>, i: nat, j: nat)
    requires i < |xs| && j < |ys| && Key(ys[j]) < Key(xs[i])
    ensures StableSort.Merge(xs[i..], ys[j..], Key) == [ys[j]] + StableSort.Merge(xs[i..], ys[j + 1..], Key)
  {
    assert xs[i..][0] == xs[i] && ys[j..][0] == ys[j] && ys[j..][1..] == ys[j + 1..];
  }

  /** Taking the left head: the merge so far grows by that node and the left run shrinks. */
  lemma SpliceLeft(done: seq<Node>, a: seq<Node>, b: seq<Node>, whole: seq<Node>)
    requires a != [] && b != [] && Key(a[0]) <= Key(b[0])
    requires done + StableSort.Merge(a, b, Key) == whole
    ensures (done + [a[0]]) + StableSort.Merge(a[1..], b, Key) == whole
  {
  }

  /** Taking the right head: the merge so far grows by that node and the right run shrinks. */
  lemma SpliceRight(done: seq<Node>, a: seq<Node>, b: seq<Node>, whole: seq<Node>)
    requires a != [] && b != [] && Key(b[0]) < Key(a[0])
    requires done + StableSort.Merge(a, b, Key) == whole
    ensures (done + [b[0]]) + StableSort.Merge(a, b[1..], Key) == whole
  {
  }

  /** Appending the left head keeps the spliced and remaining nodes distinct. */
  lemma DistinctLeft(ps: seq<Node>, xs: seq<Node>, ys: seq<Node>, i: nat, j: nat)
    requires i < |xs| && j <= |ys| && Distinct(ps + xs[i..] + ys[j..])
    ensures Distinct(ps + [xs[i]] + xs[i + 1..] + ys[j..])
  {
    assert xs[i..] == [xs[i]] + xs[i + 1..];
    assert ps + [xs[i]] + xs[i + 1..] + ys[j..] == ps + xs[i..] + ys[j..];
  }

  /** Appending the right head keeps the spliced and remaining nodes distinct. */
  lemma DistinctRight(ps: seq<Node>, xs: seq<Node>, ys: seq<Node>, i: nat, j: nat)
    requires i <= |xs| && j < |ys| && Distinct(ps + xs[i..] + ys[j..])
    ensures Distinct(ps + [ys[j]] + xs[i..] + ys[j + 1..])
  {
    assert ys[j..] == [ys[j]] + ys[j + 1..];
    DistinctMove(ps, xs[i..], ys[j], ys[j + 1..]);
  }

  /** Leaving out an empty part changes nothing. */
  lemma DropEmpty(ps: seq<Node>, a: seq<Node>, b: seq<Node>, rest: seq<Node>)
    requires (a == [] && rest == b) || (b == [] && rest == a)
    ensures ps + a + b == ps + rest
  {
    if a == [] {
      assert ps + a == ps;
    } else {
      assert a + b == a;
    }
  }

  /** When one side is exhausted, the merge of the suffixes is the other side's suffix. */
  lemma SpliceRest(ps: seq<Node>, xs: seq<Node>, ys: seq<Node>, i: nat, j: nat, rest: seq<Node>)
    requires ps != [] && i <= |xs| && j <= |ys| && (i == |xs| || j == |ys|)
    requires rest == (if i < |xs| then xs[i..] else ys[j..])
    requires Distinct(ps + xs[i..] + ys[j..])
    requires ps[1..] + StableSort.Merge(xs[i..], ys[j..], Key) == StableSort.Merge(xs, ys, Key)
    ensures Distinct(ps + rest)
    ensures ps[1..] + rest == StableSort.Merge(xs, ys, Key)
  {
    DropEmpty(ps, xs[i..], ys[j..], rest);
    StableSort.MergeEmpty(xs[i..], ys[j..], Key);
  }

  /** Links survive a change that leaves the `next` of every node of `ns` alone. */
  twostate lemma LinkedKept(ns: seq<Node>)
    requires old(Linked(ns, 0))
    requires forall k | 0 <= k < |ns| :: ns[k].next == old(ns[k].next)
    ensures Linked(ns, 0)
  {
    forall k | 0 <= k < |ns| ensures ns[k].next == (if k + 1 < |ns| then ns[k + 1] else null) {
      assert old(ns[k].next) == (if k + 1 < |ns| then ns[k + 1] else null);
    }
  }

  /** The links of all but the last node of `ps` survive a change that leaves their `next` alone. */
  twostate lemma PrefixLinksKept(ps: seq<Node>)
    requires ps != [] && old(LinksTo(ps[..|ps| - 1], ps[|ps| - 1]))
    requires forall k | 0 <= k < |ps| - 1 :: ps[k].next == old(ps[k].next)
    ensures LinksTo(ps[..|ps| - 1], ps[|ps| - 1])
  {
    forall k | 0 <= k < |ps| - 1
      ensures ps[k].next == (if k + 1 < |ps| - 1 then ps[k + 1] else ps[|ps| - 1])
    {
      assert ps[..|ps| - 1][k] == ps[k];
      assert old(ps[k].next) == (if k + 1 < |ps| - 1 then ps[k + 1] else ps[|ps| - 1]);
    }
  }

  /** Slices of `ps + [x]`: its prefix before `x` is `ps`, and it drops its head as `ps` does. */
  lemma AppendSlices(ps: seq<Node>, x: Node)
    requires ps != []
    ensures (ps + [x])[1..] == ps[1..] + [x] && (ps + [x])[..|ps|] == ps
    ensures (ps + [x])[0] == ps[0] && (ps + [x])[|ps|] == x
  {
  }

  /** A suffix from `i` starts with element `i` and drops it into the suffix from `i + 1`. */
  lemma SuffixTail(s: seq<Node>, i: nat)
    requires i < |s|
    ensures s[i..][0] == s[i] && s[i..][1..] == s[i + 1..]
  {
  }

  /** Linking the last node of `ps` to `x` extends the links of its prefix. */
  lemma LinksToExtend(ps: seq<Node>, x: Node?)
    requires ps != [] && LinksTo(ps[..|ps| - 1], ps[|ps| - 1]) && ps[|ps| - 1].next == x
    ensures LinksTo(ps, x)
  {
    forall i | 0 <= i < |ps| ensures ps[i].next == (if i + 1 < |ps| then ps[i + 1] else x) {
      if i + 1 < |ps| {
        LinksToAt(ps[..|ps| - 1], ps[|ps| - 1], i);
      }
    }
  }

  /** In a sequence without repetitions, the last node of a prefix occurs nowhere else. */
  lemma LastApart(ps: seq<Node>, a: seq<Node>, b: seq<Node>)
    requires ps != [] && Distinct(ps + a + b)
    ensures ps[|ps| - 1] !in ps[..|ps| - 1] && ps[|ps| - 1] !in a && ps[|ps| - 1] !in b
  {
    var w, k := ps + a + b, |ps| - 1;
    DistinctSplit(w, k);
    assert w[..k] == ps[..k] && w[k + 1..] == a + b && w[k] == ps[k];
  }

  /** Moving a node from the front of `b` to the end of `p` keeps the nodes distinct. */
  lemma DistinctMove(p: seq<Node>, a: seq<Node>, y: Node, b: seq<Node>)
    requires Distinct(p + a + ([y] + b))
    ensures Distinct(p + [y] + a + b)
  {
    assert multiset(p + a + ([y] + b)) == multiset(p + [y] + a + b);
    DistinctPermutation(p + a + ([y] + b), p + [y] + a + b);
  }

  /** A spliced prefix ending at the head of a chain makes one chain after its first node. */
  lemma FinishSplice(ps: seq<Node>, rest: seq<Node>)
    requires ps != [] && LinksTo(ps, if rest == [] then null else rest[0])
    requires Linked(rest, 0) && Distinct(ps + rest)
    ensures Chain(ps[0].next, ps[1..] + rest)
  {
    var r := ps[1..] + rest;
    var h := if rest == [] then null else rest[0];
    forall i | 0 <= i < |r| ensures r[i].next == (if i + 1 < |r| then r[i + 1] else null) {
      if i + 2 < |ps| {
        LinksToAt(ps, h, i + 1);
        assert r[i] == ps[i + 1] && r[i + 1] == ps[i + 2];
      } else if i + 2 == |ps| {
        LinksToAt(ps, h, i + 1);
        assert r[i] == ps[i + 1];
        assert rest != [] ==> r[i + 1] == rest[0];
      } else {
        LinkedAt(rest, 0, i + 1 - |ps|);
        assert r[i] == rest[i + 1 - |ps|];
        assert i + 1 < |r| ==> r[i + 1] == rest[i + 2 - |ps|];
      }
    }
    assert Linked(r, 0);
    LinksToAt(ps, if rest == [] then null else rest[0], 0);
    assert ps + rest == [ps[0]] + r;
    DistinctHalves(ps + rest, 1);
    assert (ps + rest)[1..] == r;
  }

  /**
   * The state of the merge loop of `merge_two_sorted`: `l1` and `l2` are the first nodes
   * not yet spliced of the runs `xs` and `ys`; the spliced nodes `ps` start with the dummy
   * node and end at `current`; all nodes involved are distinct; and the spliced nodes
   * (after the dummy) followed by the merge of the remaining nodes are the merge of the
   * two runs.
   */
  ghost predicate SplicedOrder(dummy: Node, current: Node, l1: Node?, l2: Node?, xs: seq<Node>, ys: seq<Node>,
                               ps: seq<Node>, i: nat, j: nat)
  {
    && i <= |xs| && j <= |ys|
    && l1 == (if i < |xs| then xs[i] else null)
    && l2 == (if j < |ys| then ys[j] else null)
    && ps != [] && ps[0] == dummy && current == ps[|ps| - 1]
    && (current == dummy || current in xs || current in ys)
    && Distinct(ps + xs[i..] + ys[j..])
    && ps[1..] + StableSort.Merge(xs[i..], ys[j..], Key) == StableSort.Merge(xs, ys, Key)
  }

  /** The links of the merge loop: the remaining nodes of both runs are still linked as before,
   *  and the spliced nodes are linked in order up to `current`. */
  ghost predicate SplicedLinks(current: Node, xs: seq<Node>, ys: seq<Node>, ps: seq<Node>, i: nat, j: nat)
    reads xs, ys, ps
  {
    && i <= |xs| && j <= |ys| && ps != []
    && Linked(xs[i..], 0) && Linked(ys[j..], 0)
    && LinksTo(ps[..|ps| - 1], current)
  }

  ghost predicate Splicing(dummy: Node, current: Node, l1: Node?, l2: Node?, xs: seq<Node>, ys: seq<Node>,
                           ps: seq<Node>, i: nat, j: nat)
    reads xs, ys, ps
  {
    SplicedOrder(dummy, current, l1, l2, xs, ys, ps, i, j) && SplicedLinks(current, xs, ys, ps, i, j)
  }

  /** Splicing the left head keeps the order part of the loop state. */
  lemma OrderAfterLeft(dummy: Node, current: Node, l1: Node, l2: Node, xs: seq<Node>, ys: seq<Node>,
                       ps: seq<Node>, i: nat, j: nat, next: Node?)
    requires SplicedOrder(dummy, current, l1, l2, xs, ys, ps, i, j) && l1.data <= l2.data
    requires next == (if i + 1 < |xs| then xs[i + 1] else null)
    ensures SplicedOrder(dummy, l1, next, l2, xs, ys, ps + [l1], i + 1, j)
  {
    SuffixTail(xs, i);
    SuffixTail(ys, j);
    SpliceLeft(ps[1..], xs[i..], ys[j..], StableSort.Merge(xs, ys, Key));
    DistinctLeft(ps, xs, ys, i, j);
    AppendSlices(ps, l1);
  }

  /** Splicing the right head keeps the order part of the loop state. */
  lemma OrderAfterRight(dummy: Node, current: Node, l1: Node, l2: Node, xs: seq<Node>, ys: seq<Node>,
                        ps: seq<Node>, i: nat, j: nat, next: Node?)
    requires SplicedOrder(dummy, current, l1, l2, xs, ys, ps, i, j) && l2.data < l1.data
    requires next == (if j + 1 < |ys| then ys[j + 1] else null)
    ensures SplicedOrder(dummy, l2, l1, next, xs, ys, ps + [l2], i, j + 1)
  {
    SuffixTail(xs, i);
    SuffixTail(ys, j);
    SpliceRight(ps[1..], xs[i..], ys[j..], StableSort.Merge(xs, ys, Key));
    DistinctRight(ps, xs, ys, i, j);
    AppendSlices(ps, l2);
  }

  /** When the loop of `merge_two_sorted` stops, the nodes left are those of one run only. */
  lemma OrderAtExit(dummy: Node, current: Node, l1: Node?, l2: Node?, xs: seq<Node>, ys: seq<Node>,
                    ps: seq<Node>, i: nat, j: nat, rest: seq<Node>)
    requires SplicedOrder(dummy, current, l1, l2, xs, ys, ps, i, j) && (l1 == null || l2 == null)
    requires rest == (if l1 != null then xs[i..] else ys[j..])
    ensures ps != [] && ps[0] == dummy && current == ps[|ps| - 1]
    ensures Distinct(ps + rest) && ps[1..] + rest == StableSort.Merge(xs, ys, Key)
    ensures (if l1 != null then l1 else l2) == (if rest == [] then null else rest[0])
    ensures current !in ps[..|ps| - 1] && current !in rest
  {
    LastApart(ps, xs[i..], ys[j..]);
    SpliceRest(ps, xs, ys, i, j, rest);
  }

  /** When the loop of `merge_two_sorted` stops, the nodes left are still linked. */
  lemma LinksAtExit(current: Node, l1: Node?, xs: seq<Node>, ys: seq<Node>, ps: seq<Node>, i: nat, j: nat,
                    rest: seq<Node>)
    requires SplicedLinks(current, xs, ys, ps, i, j)
    requires rest == (if l1 != null then xs[i..] else ys[j..])
    ensures Linked(rest, 0) && LinksTo(ps[..|ps| - 1], current)
  {
  }

  /** Linking the last spliced node to the rest closes the spliced nodes and the rest into one chain. */
  lemma CloseSplice(ps: seq<Node>, rest: seq<Node>, first: Node?, ns: seq<Node>)
    requires ps != [] && LinksTo(ps[..|ps| - 1], ps[|ps| - 1])
    requires ps[|ps| - 1].next == (if rest == [] then null else rest[0])
    requires Linked(rest, 0) && Distinct(ps + rest)
    requires first == ps[0].next && ns == ps[1..] + rest
    ensures Chain(first, ns)
  {
    LinksToExtend(ps, ps[|ps| - 1].next);
    FinishSplice(ps, rest);
  }

  /** A node outside two disjoint chains' nodes, put in front of them, repeats nothing. */
  lemma FreshFront(dummy: Node, xs: seq<Node>, ys: seq<Node>)
    requires dummy !in xs && dummy !in ys && Distinct(xs) && Distinct(ys) && Disjoint(xs, ys)
    ensures Distinct([dummy] + (xs + ys))
  {
    DistinctConcat(xs, ys);
    DistinctConcat([dummy], xs + ys);
  }

  class LinkedList {
    var head: Node?
    ghost var nodes: seq<Node>

    ghost predicate Valid()
      reads this, nodes
    {
      Chain(head, nodes)
    }

    /** The values of the list from head to tail. */
    ghost function Contents(): seq<int>
      reads this
    {
      Values(nodes)
    }

    constructor ()
      ensures Valid() && nodes == []
    {
      head := null;
      nodes := [];
    }

    /** Makes the chain from `node` the contents of this list. */
    method SetHead(node: Node?, ghost ns: seq<Node>)
      requires Chain(node, ns)
      modifies this
      ensures Valid() && head == node && nodes == ns
    {
      head := node;
      nodes := ns;
    }

    /**
     * Appends a new node holding `x`: an empty list gets it as head, otherwise the walk
     * from the head stops at the last node and links the new node after it.
     */
    method InsertAtEnd(x: int)
      requires Valid()
      modifies this, nodes
      ensures Valid()
      ensures |nodes| == |old(nodes)| + 1 && nodes[..|old(nodes)|] == old(nodes)
      ensures fresh(nodes[|old(nodes)|])
      ensures Contents() == old(Contents()) + [x]
    {
      var newNode := new Node(x);
      if head == null {
        head := newNode;
        nodes := [newNode];
        return;
      }
      var current, k := LastNode();
      current.next := newNode;
      nodes := nodes + [newNode];
      assert Values(nodes) == Values(old(nodes)) + [x] by {
        ValuesAppend(old(nodes), [newNode]);
      }
    }

    /** The walk of `insert_at_end` from the head along `next` to the last node, at `k`. */
    method LastNode() returns (current: Node, ghost k: nat)
      requires Valid() && head != null
      ensures k == |nodes| - 1 && current == nodes[k] && current.next == null
    {
      current := head;
      k := 0;
      while current.next != null
        invariant 0 <= k < |nodes| && current == nodes[k]
        decreases |nodes| - k
      {
        LinkedAt(nodes, 0, k);
        current := current.next;
        k := k + 1;
      }
      LinkedAt(nodes, 0, k);
    }

    /**
     * Reverses the list in place: every node's `next` is turned to point at the node before
     * it, and the old last node becomes the head. No node is created or dropped.
     */
    method Reverse()
      requires Valid()
      modifies this, nodes
      ensures Valid()
      ensures nodes == Reversed(old(nodes))
      ensures Contents() == Reversed(old(Contents()))
    {
      ghost var ns := nodes;
      var prev: Node? := null;
      var current: Node? := head;
      ghost var k := 0;
      assert ns[k..] == ns && ns[..k] == [];
      while current != null
        modifies ns
        invariant Distinct(ns)
        invariant 0 <= k <= |ns|
        invariant current == (if k < |ns| then ns[k] else null)
        invariant prev == (if k == 0 then null else ns[k - 1])
        invariant BackLinked(ns[..k])
        invariant Linked(ns[k..], 0)
        decreases |ns| - k
      {
        LinkedAt(ns[k..], 0, 0);
        LinkedTail(ns[k..]);
        assert ns[k..][1..] == ns[k + 1..];
        assert current !in ns[..k] && current !in ns[k + 1..] by {
          DistinctSplit(ns, k);
        }
        var nextNode := current.next;
        current.next := prev;
        assert ns[..k + 1] == ns[..k] + [current];
        BackLinkedExtend(ns[..k], current);
        prev := current;
        current := nextNode;
        k := k + 1;
      }
      assert ns[..k] == ns;
      head := prev;
      nodes := Reversed(ns);
      BackLinkedReversed(ns);
      ValuesReversed(ns);
    }

    /** Sorts the list by relinking its nodes (`sort`). */
    method Sort()
      requires Valid()
      modifies this, nodes
      ensures Valid()
      ensures nodes == SortedNodes(old(nodes))
    {
      ghost var ns;
      head, ns := MergeSortChain(head, nodes);
      nodes := ns;
    }

    /**
     * Merge sort of a chain (`_merge_sort`): a chain of at most one node is returned as it
     * is; otherwise it is cut after its middle node, both halves are sorted, and the sorted
     * halves are merged.
     */
    static method MergeSortChain(head: Node?, ghost ns: seq<Node>) returns (sorted: Node?, ghost ss: seq<Node>)
      requires Chain(head, ns)
      modifies ns
      ensures ss == SortedNodes(ns)
      ensures Chain(sorted, ss)
      decreases |ns|, 1
    {
      if head == null || head.next == null {
        if head != null {
          LinkedAt(ns, 0, 0);
        }
        return head, ns;
      }
      LinkedAt(ns, 0, 0);
      var middle := GetMiddle(head, ns);
      ghost var m := StableSort.Cut(|ns|);
      ghost var lo, hi := ns[..m], ns[m..];
      SplitChain(head, ns, m);
      var nextToMiddle := middle.next;
      middle.next := null;
      assert lo == ns[..m - 1] + [middle];
      CloseChain(ns[..m - 1], middle);
      var left, right;
      ghost var ls, rs;
      left, ls, right, rs := SortHalves(head, lo, nextToMiddle, hi);
      WithinHalves(ns, m, ls, rs);
      sorted, ss := MergeChains(left, ls, right, rs);
    }

    /**
     * Merges two lists into a new list (`merge_two_sorted`) by relinking their nodes behind
     * a dummy node: while both sides have nodes the smaller head, the first list's on a tie,
     * is appended, and then the rest of the other side is linked on as it is.
     */
    static method MergeTwoSorted(list1: LinkedList, list2: LinkedList) returns (merged: LinkedList)
      requires list1.Valid() && list2.Valid() && Disjoint(list1.nodes, list2.nodes)
      modifies list1.nodes, list2.nodes
      ensures fresh(merged) && merged.Valid()
      ensures merged.nodes == StableSort.Merge(old(list1.nodes), old(list2.nodes), Key)
    {
      ghost var xs, ys := list1.nodes, list2.nodes;
      merged := new LinkedList();
      var dummy := new Node(0);
      FreshFront(dummy, xs, ys);
      var current, l1, l2;
      ghost var ps, i, j;
      current, l1, l2, ps, i, j := Interleave(dummy, list1.head, xs, list2.head, ys);
      var first;
      ghost var ns;
      first, ns := AttachRest(dummy, current, l1, l2, xs, ys, ps, i, j);
      merged.SetHead(first, ns);
    }

    /**
     * The end of `merge_two_sorted`: the run that still has nodes is linked after `current`
     * as it is, and the merged list starts after the dummy node.
     */
    static method AttachRest(dummy: Node, current: Node, l1: Node?, l2: Node?, ghost xs: seq<Node>, ghost ys: seq<Node>,
                             ghost ps: seq<Node>, ghost i: nat, ghost j: nat)
      returns (first: Node?, ghost ns: seq<Node>)
      requires Splicing(dummy, current, l1, l2, xs, ys, ps, i, j) && (l1 == null || l2 == null)
      modifies current
      ensures Chain(first, ns) && ns == StableSort.Merge(xs, ys, Key)
    {
      ghost var rest := if l1 != null then xs[i..] else ys[j..];
      OrderAtExit(dummy, current, l1, l2, xs, ys, ps, i, j, rest);
      LinksAtExit(current, l1, xs, ys, ps, i, j, rest);
      first, ns := CloseOff(dummy, current, if l1 != null then l1 else l2, ps, rest);
    }

    /** Linking the last spliced node `current` to the first node left closes one chain after the dummy node. */
    static method CloseOff(dummy: Node, current: Node, next: Node?, ghost ps: seq<Node>, ghost rest: seq<Node>)
      returns (first: Node?, ghost ns: seq<Node>)
      requires ps != [] && ps[0] == dummy && current == ps[|ps| - 1]
      requires current !in ps[..|ps| - 1] && current !in rest
      requires LinksTo(ps[..|ps| - 1], current) && Linked(rest, 0) && Distinct(ps + rest)
      requires next == (if rest == [] then null else rest[0])
      modifies current
      ensures Chain(first, ns) && ns == ps[1..] + rest
    {
      label close:
      current.next := next;
      LinkedKept@close(rest);
      PrefixLinksKept@close(ps);
      first, ns := dummy.next, ps[1..] + rest;
      CloseSplice(ps, rest, first, ns);
    }

    /**
     * The loop of `merge_two_sorted`: while both runs have nodes, the smaller head, the
     * left one on a tie, is linked after `current`, which then moves on to it. The spliced
     * nodes `ps` start with the dummy node, and with the merge of what is left of the runs
     * they make up the merge of the runs.
     */
    static method Interleave(dummy: Node, first1: Node?, ghost xs: seq<Node>, first2: Node?, ghost ys: seq<Node>)
      returns (current: Node, l1: Node?, l2: Node?, ghost ps: seq<Node>, ghost i: nat, ghost j: nat)
      requires Chain(first1, xs) && Chain(first2, ys) && Distinct([dummy] + (xs + ys))
      modifies dummy, xs, ys
      ensures Splicing(dummy, current, l1, l2, xs, ys, ps, i, j)
      ensures l1 == null || l2 == null
    {
      current, l1, l2 := dummy, first1, first2;
      ps, i, j := [dummy], 0, 0;
      assert [dummy] + (xs + ys) == ps + xs[i..] + ys[j..];
      while l1 != null && l2 != null
        invariant Splicing(dummy, current, l1, l2, xs, ys, ps, i, j)
        decreases |xs| - i + |ys| - j
      {
        current, l1, l2, ps, i, j := LinkSmaller(dummy, current, l1, l2, xs, ys, ps, i, j);
      }
    }

    /**
     * One turn of the loop of `merge_two_sorted`: the smaller of the two heads, `l1` on a
     * tie, is linked after `current`, becomes the new `current`, and its run moves on.
     */
    static method LinkSmaller(dummy: Node, current: Node, l1: Node, l2: Node, ghost xs: seq<Node>, ghost ys: seq<Node>,
                              ghost ps: seq<Node>, ghost i: nat, ghost j: nat)
      returns (current': Node, l1': Node?, l2': Node?, ghost ps': seq<Node>, ghost i': nat, ghost j': nat)
      requires Splicing(dummy, current, l1, l2, xs, ys, ps, i, j)
      modifies current
      ensures Splicing(dummy, current', l1', l2', xs, ys, ps', i', j')
      ensures i' + j' == i + j + 1
    {
      assert SplicedOrder(dummy, current, l1, l2, xs, ys, ps, i, j);
      LastApart(ps, xs[i..], ys[j..]);
      SuffixTail(xs, i);
      SuffixTail(ys, j);
      if l1.data <= l2.data {
        LinkedAt(xs[i..], 0, 0);
        OrderAfterLeft(dummy, current, l1, l2, xs, ys, ps, i, j, l1.next);
        label takeLeft:
        current.next := l1;
        LinkedKept@takeLeft(xs[i..]);
        LinkedKept@takeLeft(ys[j..]);
        LinkedTail(xs[i..]);
        LinksToExtend(ps, l1);
        AppendSlices(ps, l1);
        l1' := l1.next;
        l2' := l2;
        ps', i', j' := ps + [l1], i + 1, j;
      } else {
        LinkedAt(ys[j..], 0, 0);
        OrderAfterRight(dummy, current, l1, l2, xs, ys, ps, i, j, l2.next);
        label takeRight:
        current.next := l2;
        LinkedKept@takeRight(xs[i..]);
        LinkedKept@takeRight(ys[j..]);
        LinkedTail(ys[j..]);
        LinksToExtend(ps, l2);
        AppendSlices(ps, l2);
        l2' := l2.next;
        l1' := l1;
        ps', i', j' := ps + [l2], i, j + 1;
      }
      current' := current.next;
    }

    /** The two recursive calls of `_merge_sort`, on the halves of a cut chain. */
    static method SortHalves(head: Node, ghost lo: seq<Node>, next: Node, ghost hi: seq<Node>)
      returns (left: Node?, ghost ls: seq<Node>, right: Node?, ghost rs: seq<Node>)
      requires Chain(head, lo) && Chain(next, hi) && Disjoint(lo, hi)
      modifies lo, hi
      ensures ls == SortedNodes(lo) && rs == SortedNodes(hi)
      ensures Chain(left, ls) && Chain(right, rs) && Disjoint(ls, rs)
      decreases |lo| + |hi|, 0
    {
      DisjointSymmetric(lo, hi);
      label halved:
      left, ls := MergeSortChain(head, lo);
      assert forall n | n in hi :: n.next == old@halved(n.next);
      assert multiset(ls) == multiset(lo);
      DisjointPermutation(lo, hi, ls, hi);
      label leftSorted:
      right, rs := MergeSortChain(next, hi);
      assert forall n | n in ls :: n.next == old@leftSorted(n.next);
      DisjointPermutation(lo, hi, ls, rs);
    }

    /**
     * The merge of two disjoint chains (`_merge`): the smaller head, the left one on a tie,
     * is linked in front of the merge of the rest. The nodes are relinked, not copied.
     */
    static method MergeChains(left: Node?, ghost ls: seq<Node>, right: Node?, ghost rs: seq<Node>)
        returns (result: Node?, ghost ms: seq<Node>)
      requires Chain(left, ls) && Chain(right, rs) && Disjoint(ls, rs)
      modifies ls, rs
      ensures ms == StableSort.Merge(ls, rs, Key)
      ensures Chain(result, ms)
      decreases |ls| + |rs|
    {
      if left == null {
        return right, rs;
      }
      if right == null {
        return left, ls;
      }
      if left.data <= right.data {
        DetachHead(left, ls, rs);
        var rest;
        ghost var restNodes;
        rest, restNodes := MergeChains(left.next, ls[1..], right, rs);
        OutsideMerge(left, ls[1..], rs);
        left.next := rest;
        ChainCons(left, rest, restNodes);
        result, ms := left, [left] + restNodes;
      } else {
        DisjointSymmetric(ls, rs);
        DetachHead(right, rs, ls);
        DisjointSymmetric(rs[1..], ls);
        var rest;
        ghost var restNodes;
        rest, restNodes := MergeChains(left, ls, right.next, rs[1..]);
        OutsideMerge(right, ls, rs[1..]);
        right.next := rest;
        ChainCons(right, rest, restNodes);
        result, ms := right, [right] + restNodes;
      }
    }

    /**
     * The node at index `(n - 1) / 2` of a chain of `n >= 1` nodes: `slow` advances one
     * node while `fast` advances two, as long as two more nodes follow `fast`.
     */
    static method GetMiddle(head: Node, ghost ns: seq<Node>) returns (middle: Node)
      requires Chain(head, ns)
      ensures middle == ns[(|ns| - 1) / 2]
    {
      var slow := head;
      var fast := head;
      ghost var s := 0;
      while fast.next != null && fast.next.next != null
        invariant 0 <= s && 2 * s < |ns|
        invariant slow == ns[s] && fast == ns[2 * s]
        decreases |ns| - 2 * s
      {
        LinkedAt(ns, 0, 2 * s);
        LinkedAt(ns, 0, 2 * s + 1);
        LinkedAt(ns, 0, s);
        slow := slow.next;
        fast := fast.next.next;
        s := s + 1;
      }
      LinkedAt(ns, 0, 2 * s);
      if 2 * s + 1 < |ns| {
        LinkedAt(ns, 0, 2 * s + 1);
      }
      middle := slow;
    }
  }

  /** A fresh list holding `vs`, built by `insert_at_end` one value at a time. */
  method FromValues(vs: seq<int>) returns (l: LinkedList)
    ensures fresh(l) && l.Valid() && l.Contents() == vs
    ensures forall k | 0 <= k < |l.nodes| :: fresh(l.nodes[k])
  {
    l := new LinkedList();
    for n := 0 to |vs|
      invariant fresh(l) && l.Valid() && l.Contents() == vs[..n]
      invariant forall k | 0 <= k < |l.nodes| :: fresh(l.nodes[k])
    {
      l.InsertAtEnd(vs[n]);
      assert vs[..n + 1] == vs[..n] + [vs[n]];
    }
    assert vs[..|vs|] == vs;
  }

  /**
   * The example run: 50 10 30 20 40 is reversed and sorted, 4 2 6 is sorted, and merging
   * the two sorted lists gives 2 4 6 10 20 30 40 50.
   */
  method ExampleUsage() returns (merged: LinkedList)
    ensures merged.Valid() && merged.Contents() == [2, 4, 6, 10, 20, 30, 40, 50]
  {
    var ll := ExampleFirstList();
    var ll2 := ExampleSecondList();
    assert Disjoint(ll.nodes, ll2.nodes);
    MergeSpec(ll.nodes, ll2.nodes);
    merged := LinkedList.MergeTwoSorted(ll, ll2);
    ExampleMerged(merged.Contents());
  }

  /** The only non-decreasing arrangement of the values 10 20 30 40 50 and 2 4 6. */
  lemma ExampleMerged(m: seq<int>)
    requires NonDecreasing(m) && multiset(m) == multiset([10, 20, 30, 40, 50]) + multiset([2, 4, 6])
    ensures m == [2, 4, 6, 10, 20, 30, 40, 50]
  {
    var lo, hi := [2, 4, 6], [10, 20, 30, 40, 50];
    ExampleRuns(lo, hi);
    assert multiset(lo + hi) == multiset(hi) + multiset(lo);
    SortedUnique(m, lo + hi);
  }

  /** The two sorted example lists, the shorter first, form one non-decreasing run. */
  lemma ExampleRuns(lo: seq<int>, hi: seq<int>)
    requires lo == [2, 4, 6] && hi == [10, 20, 30, 40, 50]
    ensures NonDecreasing(lo + hi)
  {
    ConcatSorted(lo, hi);
  }

  /** Two non-decreasing runs, the first ending at most where the second starts, concatenate to one. */
  lemma ConcatSorted(a: seq<int>, b: seq<int>)
    requires NonDecreasing(a) && NonDecreasing(b)
    requires a == [] || b == [] || a[|a| - 1] <= b[0]
    ensures NonDecreasing(a + b)
  {
    forall i, j | 0 <= i < j < |a + b| ensures (a + b)[i] <= (a + b)[j] {
      if i < |a| && |a| <= j {
        assert a[i] <= a[|a| - 1] && b[0] <= b[j - |a|];
      }
    }
  }

  /** The second list of the example: 4 2 6, sorted. */
  method ExampleSecondList() returns (ll: LinkedList)
    ensures fresh(ll) && ll.Valid() && ll.Contents() == [2, 4, 6]
    ensures forall k | 0 <= k < |ll.nodes| :: fresh(ll.nodes[k])
  {
    ll := FromValues([4, 2, 6]);
    ghost var ns := ll.nodes;
    ExampleSort(ll, [2, 4, 6]);
    forall k | 0 <= k < |ll.nodes| ensures fresh(ll.nodes[k]) {
      var j :| 0 <= j < |ns| && ns[j] == ll.nodes[k];
    }
  }

  /** The first list of the example: 50 10 30 20 40, reversed, then sorted. */
  method ExampleFirstList() returns (ll: LinkedList)
    ensures fresh(ll) && ll.Valid() && ll.Contents() == [10, 20, 30, 40, 50]
    ensures forall k | 0 <= k < |ll.nodes| :: fresh(ll.nodes[k])
  {
    ll := ExampleReversedList();
    ghost var ns := ll.nodes;
    ExampleFirstValues();
    ExampleSort(ll, [10, 20, 30, 40, 50]);
    forall k | 0 <= k < |ll.nodes| ensures fresh(ll.nodes[k]) {
      var j :| 0 <= j < |ns| && ns[j] == ll.nodes[k];
    }
  }

  /** 10 20 30 40 50 is the non-decreasing arrangement of the first list's values. */
  lemma ExampleFirstValues()
    ensures NonDecreasing([10, 20, 30, 40, 50])
    ensures multiset([50, 10, 30, 20, 40]) == multiset([10, 20, 30, 40, 50])
  {
    ExampleFirstSorted();
    ExampleFirstPermuted();
  }

  lemma ExampleFirstSorted()
    ensures NonDecreasing([10, 20, 30, 40, 50])
  {
  }

  lemma ExampleFirstPermuted()
    ensures multiset([50, 10, 30, 20, 40]) == multiset([10, 20, 30, 40, 50])
  {
  }

  /** The first list of the example, 50 10 30 20 40, reversed: the same values in another order. */
  method ExampleReversedList() returns (ll: LinkedList)
    ensures fresh(ll) && ll.Valid() && multiset(ll.Contents()) == multiset([50, 10, 30, 20, 40])
    ensures forall k | 0 <= k < |ll.nodes| :: fresh(ll.nodes[k])
  {
    ll := FromValues([50, 10, 30, 20, 40]);
    ghost var ns := ll.nodes;
    ExampleReverse(ll);
    forall k | 0 <= k < |ll.nodes| ensures fresh(ll.nodes[k]) {
      var j :| 0 <= j < |ns| && ns[j] == ll.nodes[k];
    }
  }

  /** Reversing a list keeps its nodes and the multiset of its values. */
  method ExampleReverse(l: LinkedList)
    requires l.Valid()
    modifies l, l.nodes
    ensures l.Valid() && multiset(l.Contents()) == multiset(old(l.Contents()))
    ensures forall k | 0 <= k < |l.nodes| :: l.nodes[k] in old(l.nodes)
  {
    ghost var ns := l.nodes;
    l.Reverse();
    ReversedMultiset(ns);
    ReversedMultiset(Values(ns));
    forall k | 0 <= k < |l.nodes| ensures l.nodes[k] in ns {
      assert l.nodes[k] in multiset(l.nodes);
    }
  }

  /** Sorting a list whose values are a permutation of the non-decreasing `expected` yields `expected`. */
  method ExampleSort(l: LinkedList, expected: seq<int>)
    requires l.Valid() && NonDecreasing(expected) && multiset(l.Contents()) == multiset(expected)
    modifies l, l.nodes
    ensures l.Valid() && l.Contents() == expected
    ensures forall k | 0 <= k < |l.nodes| :: l.nodes[k] in old(l.nodes)
  {
    ghost var ns := l.nodes;
    l.Sort();
    SortSpec(ns);
    SortedUnique(l.Contents(), expected);
    forall k | 0 <= k < |l.nodes| ensures l.nodes[k] in ns {
      assert l.nodes[k] in multiset(l.nodes);
    }
  }
}
