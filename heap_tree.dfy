/**
 * `array_to_binary_tree`: the binary tree a heap array stands for, where position `k` has
 * its children at `2k + 1` and `2k + 2`. The build is a pure recursion on the position and
 * no node changes once its children are attached, so the tree is a value here.
 */
module HeapTree {

  /** A binary tree of keys; `Nil` is Python's `None`. */
  datatype Tree = Nil | Node(val: int, left: Tree, right: Tree)

  /** The number of nodes. */
  function Size(t: Tree): nat
  {
    match t
    case Nil => 0
    case Node(_, l, r) => 1 + Size(l) + Size(r)
  }

  /**
   * The tree rooted at position `i` of `a`: `Nil` past the end, otherwise a node holding
   * `a[i]` over the trees at positions `2i + 1` and `2i + 2`. The recursion ends because
   * `|a| - i` shrinks with every call.
   */
  function Build(a: seq<int>, i: nat): (r: Tree)
    ensures r == Nil <==> i >= |a|
    ensures r != Nil ==> r.val == a[i]
    decreases |a| - i
  {
    if i >= |a| then Nil
    else Node(a[i], Build(a, 2 * i + 1), Build(a, 2 * i + 2))
  }

  /** Position `k` lies in the subtree of position `i`: it is `i`, or its parent does. */
  predicate Under(i: nat, k: nat)
    decreases k
  {
    k == i || (k > i && Under(i, (k - 1) / 2))
  }

  /** The positions of `a` in the subtree of `i`. */
  function Positions(a: seq<int>, i: nat): set<nat>
  {
    set k: nat | k < |a| && Under(i, k)
  }

  /** The subtree of `i` is `i` itself and the subtrees of its two children. */
  lemma {:induction false} UnderSplit(i: nat, k: nat)
    ensures Under(i, k) <==> k == i || Under(2 * i + 1, k) || Under(2 * i + 2, k)
    decreases k
  {
    if k > i {
      var p := (k - 1) / 2;
      if p > i {
        UnderSplit(i, p);
      }
    }
  }

  /** The subtrees of two siblings share no position. */
  lemma {:induction false} UnderSiblings(i: nat, k: nat)
    ensures !(Under(2 * i + 1, k) && Under(2 * i + 2, k))
    decreases k
  {
    if k > 2 * i + 2 {
      UnderSiblings(i, (k - 1) / 2);
    } else if k == 2 * i + 2 {
      assert !Under(2 * i + 1, i);
    }
  }

  /** Every position is in the subtree of the root. */
  lemma {:induction false} UnderRoot(k: nat)
    ensures Under(0, k)
    decreases k
  {
    if k > 0 {
      UnderRoot((k - 1) / 2);
    }
  }

  /** The positions below `n`. */
  function Below(n: nat): (r: set<nat>)
    ensures forall k: nat :: k in r <==> k < n
    ensures |r| == n
  {
    if n == 0 then {} else Below(n - 1) + {n - 1}
  }

  /** The tree at position `i` has one node per position of its subtree. */
  lemma {:induction false} BuildSize(a: seq<int>, i: nat)
    ensures Size(Build(a, i)) == |Positions(a, i)|
    decreases |a| - i
  {
    if i >= |a| {
      assert Positions(a, i) == {} by {
        forall k: nat | k < |a| && Under(i, k)
          ensures false
        {
          UnderAtLeast(i, k);
        }
      }
    } else {
      BuildSize(a, 2 * i + 1);
      BuildSize(a, 2 * i + 2);
      PositionsSplit(a, i);
      SiblingsDisjoint(a, i);
    }
  }

  /** The positions under `i` are `i` and those under its two children. */
  lemma PositionsSplit(a: seq<int>, i: nat)
    requires i < |a|
    ensures Positions(a, i) == {i} + Positions(a, 2 * i + 1) + Positions(a, 2 * i + 2)
  {
    forall k: nat
      ensures k in Positions(a, i) <==> k == i || k in Positions(a, 2 * i + 1) || k in Positions(a, 2 * i + 2)
    {
      UnderSplit(i, k);
    }
  }

  /** ... and these three parts share no position, so their sizes add up. */
  lemma SiblingsDisjoint(a: seq<int>, i: nat)
    ensures |{i} + Positions(a, 2 * i + 1) + Positions(a, 2 * i + 2)|
         == 1 + |Positions(a, 2 * i + 1)| + |Positions(a, 2 * i + 2)|
  {
    var left, right := Positions(a, 2 * i + 1), Positions(a, 2 * i + 2);
    forall k | k in left
      ensures k !in right && k != i
    {
      UnderSiblings(i, k);
      UnderAtLeast(2 * i + 1, k);
    }
    assert i !in right;
    assert left * right == {};
    assert |left + right| == |left| + |right|;
  }

  /** A position in the subtree of `i` is at least `i`. */
  lemma {:induction false} UnderAtLeast(i: nat, k: nat)
    requires Under(i, k)
    ensures i <= k
  {
  }

  /** The tree built from position 0 has exactly `|a|` nodes, one per position. */
  lemma BuildSizeFromRoot(a: seq<int>)
    ensures Size(Build(a, 0)) == |a|
  {
    BuildSize(a, 0);
    forall k: nat | k < |a|
      ensures Under(0, k)
    {
      UnderRoot(k);
    }
    assert Positions(a, 0) == Below(|a|);
  }

  /** The node built at position `k` is a leaf exactly when `2k + 1` is past the end. */
  lemma BuildLeaf(a: seq<int>, k: nat)
    requires k < |a|
    ensures Build(a, k).left == Nil && Build(a, k).right == Nil <==> 2 * k + 1 >= |a|
  {
  }

  /** Every parent's key is at most its child's, as `heapq.heapify` leaves the list. */
  ghost predicate IsMinHeap(a: seq<int>)
  {
    forall k {:trigger a[k]} | 0 < k < |a| :: a[(k - 1) / 2] <= a[k]
  }

  /** The root of `t`, if there is one, has a key of at least `key`. */
  predicate AtLeast(t: Tree, key: int)
  {
    t == Nil || key <= t.val
  }

  /** Every node's key is at most the keys of its children. */
  predicate HeapOrdered(t: Tree)
  {
    match t
    case Nil => true
    case Node(v, l, r) => AtLeast(l, v) && AtLeast(r, v) && HeapOrdered(l) && HeapOrdered(r)
  }

  /** Both children of `i` have `i` as their parent. */
  lemma ParentOfChildren(i: nat)
    ensures (2 * i + 1 - 1) / 2 == i && (2 * i + 2 - 1) / 2 == i
  {
  }

  /** A child's key is at least its parent's in a min-heap array. */
  lemma ChildAtLeast(a: seq<int>, i: nat, c: nat)
    requires IsMinHeap(a) && i < |a| && (c == 2 * i + 1 || c == 2 * i + 2)
    ensures AtLeast(Build(a, c), a[i])
  {
    if c < |a| {
      ParentOfChildren(i);
      assert a[(c - 1) / 2] <= a[c];
    }
  }

  /** A min-heap array builds a heap-ordered tree from any position. */
  lemma {:induction false} MinHeapBuildsHeapOrdered(a: seq<int>, i: nat)
    requires IsMinHeap(a)
    ensures HeapOrdered(Build(a, i))
    decreases |a| - i
  {
    if i < |a| {
      MinHeapBuildsHeapOrdered(a, 2 * i + 1);
      MinHeapBuildsHeapOrdered(a, 2 * i + 2);
      ChildAtLeast(a, i, 2 * i + 1);
      ChildAtLeast(a, i, 2 * i + 2);
    }
  }

  /** The example list `[10, 3, 5, 1, 4, 8]` heapified is `[1, 3, 5, 10, 4, 8]`, which keeps its keys... */
  lemma ExampleHeapKeys()
    ensures multiset([1, 3, 5, 10, 4, 8]) == multiset([10, 3, 5, 1, 4, 8])
  {
  }

  /** ... and is a min-heap. */
  lemma ExampleHeapified()
    ensures IsMinHeap([1, 3, 5, 10, 4, 8])
  {
    var a := [1, 3, 5, 10, 4, 8];
    assert a[0] <= a[1] && a[0] <= a[2] && a[1] <= a[3] && a[1] <= a[4] && a[2] <= a[5];
  }

  /** Its tree has 1 at the root, over 3 (over 10 and 4) and 5 (over 8), and is heap-ordered. */
  lemma ExampleHeapTree()
    ensures Build([1, 3, 5, 10, 4, 8], 0)
         == Node(1, Node(3, Node(10, Nil, Nil), Node(4, Nil, Nil)), Node(5, Node(8, Nil, Nil), Nil))
    ensures HeapOrdered(Build([1, 3, 5, 10, 4, 8], 0))
  {
    var a := [1, 3, 5, 10, 4, 8];
    assert Build(a, 5) == Node(8, Nil, Nil);
    assert Build(a, 4) == Node(4, Nil, Nil);
    assert Build(a, 3) == Node(10, Nil, Nil);
    assert Build(a, 2) == Node(5, Build(a, 5), Nil);
    assert Build(a, 1) == Node(3, Build(a, 3), Build(a, 4));
    ExampleHeapified();
    MinHeapBuildsHeapOrdered(a, 0);
  }
}
