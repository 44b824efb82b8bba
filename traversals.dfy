/**
 * `bfs` and `dfs` over a binary tree of `Node` objects: each walks the tree with a queue
 * or a stack, collecting the nodes it visits, and then paints the `i`-th visited node
 * with colour `i` of the gradient from `#1a1a80` to `#aaccff`.
 *
 * The objects are linked through their `left` and `right` fields; a ghost `Shape` value
 * describes which nodes hang where, and the traversal orders are defined on shapes.
 */
module Traversals {
  import opened Wrappers
  import opened Sequences
  import Colors

  /** A tree node: a key, two children and a colour. */
  class Node {
    const val: int
    var left: Node?
    var right: Node?
    var color: string

    constructor (val: int, color: string)
      ensures this.val == val && this.color == color && left == null && right == null
    {
      this.val := val;
      this.color := color;
      left, right := null, null;
    }
  }

  /** The shape of the tree below a node: the node itself over the shapes of its children. */
  datatype Shape = Empty | Branch(node: Node, left: Shape, right: Shape)

  /** The nodes of a shape. */
  ghost function NodesOf(t: Shape): set<Node>
  {
    match t
    case Empty => {}
    case Branch(x, l, r) => {x} + NodesOf(l) + NodesOf(r)
  }

  /** The objects hanging from `n` through `left` and `right` are laid out as `t`. */
  ghost predicate Models(n: Node?, t: Shape)
    reads NodesOf(t)`left, NodesOf(t)`right
  {
    match t
    case Empty => n == null
    case Branch(x, l, r) => n == x && Models(x.left, l) && Models(x.right, r)
  }

  /** The number of nodes. */
  function Size(t: Shape): nat
  {
    match t
    case Empty => 0
    case Branch(_, l, r) => 1 + Size(l) + Size(r)
  }

  /** Node, then left subtree, then right subtree. */
  ghost function Preorder(t: Shape): (r: seq<Node>)
    ensures |r| == Size(t)
  {
    match t
    case Empty => []
    case Branch(x, l, r) => [x] + Preorder(l) + Preorder(r)
  }

  /** A tree: no node occurs at two places. */
  ghost predicate IsTree(t: Shape)
  {
    Distinct(Preorder(t))
  }

  /** What `if child: append(child)` adds for a child of shape `t`: nothing for `None`. */
  function Pushed(t: Shape): seq<Shape>
  {
    if t.Branch? then [t] else []
  }

  /** The number of nodes in a sequence of shapes. */
  function TotalSize(ts: seq<Shape>): nat
  {
    if ts == [] then 0 else Size(ts[0]) + TotalSize(ts[1..])
  }

  /** Sizes add up over a concatenation. */
  lemma {:induction false} TotalSizeAppend(a: seq<Shape>, b: seq<Shape>)
    ensures TotalSize(a + b) == TotalSize(a) + TotalSize(b)
    decreases |a|
  {
    if a == [] {
      assert a + b == b;
    } else {
      assert (a + b)[0] == a[0] && (a + b)[1..] == a[1..] + b;
      TotalSizeAppend(a[1..], b);
    }
  }

  /** A pushed child counts as many nodes as it has. */
  lemma TotalSizePushed(t: Shape)
    ensures TotalSize(Pushed(t)) == Size(t)
  {
    if t.Branch? {
      assert [t][1..] == [];
    }
  }

  // ---------------------------------------------------------------------------------
  // dfs
  // ---------------------------------------------------------------------------------

  /** `rest` with the children of a popped node pushed, right first so that left is on top. */
  function PushChildren(rest: seq<Shape>, l: Shape, r: Shape): (s: seq<Shape>)
    ensures TotalSize(s) == TotalSize(rest) + Size(r) + Size(l)
  {
    TotalSizeAppend(rest, Pushed(r));
    TotalSizeAppend(rest + Pushed(r), Pushed(l));
    TotalSizePushed(l);
    TotalSizePushed(r);
    rest + Pushed(r) + Pushed(l)
  }

  /** The order in which the loop of `dfs` pops nodes from the stack `stack` (top last). */
  ghost function StackOrder(stack: seq<Shape>): seq<Node>
    decreases TotalSize(stack), |stack|
  {
    if stack == [] then []
    else
      var rest := stack[..|stack| - 1];
      TotalSizeAppend(rest, [stack[|stack| - 1]]);
      assert rest + [stack[|stack| - 1]] == stack;
      TotalSizePushed(stack[|stack| - 1]);
      match stack[|stack| - 1]
      case Empty => StackOrder(rest)
      case Branch(x, l, r) => [x] + StackOrder(PushChildren(rest, l, r))
  }

  /** Pushing a tree on a stack puts its preorder ahead of what the stack would pop anyway. */
  lemma {:induction false} StackPreorder(stack: seq<Shape>, t: Shape)
    ensures StackOrder(stack + Pushed(t)) == Preorder(t) + StackOrder(stack)
    decreases TotalSize(stack) + Size(t)
  {
    match t
    case Empty =>
      assert stack + Pushed(t) == stack;
    case Branch(x, l, r) =>
      var rest := stack + Pushed(r);
      assert StackOrder(stack + Pushed(t)) == [x] + StackOrder(rest + Pushed(l)) by {
        var s := stack + [t];
        assert s[..|s| - 1] == stack && s[|s| - 1] == t && Pushed(t) == [t];
      }
      assert StackOrder(rest + Pushed(l)) == Preorder(l) + StackOrder(rest) by {
        TotalSizeAppend(stack, Pushed(r));
        TotalSizePushed(r);
        StackPreorder(rest, l);
      }
      assert StackOrder(rest) == Preorder(r) + StackOrder(stack) by {
        StackPreorder(stack, r);
      }
      SeqAssoc4([x], Preorder(l), Preorder(r), StackOrder(stack));
  }

  /** Concatenation regroups freely. */
  lemma SeqAssoc3<T>(a: seq<T>, b: seq<T>, c: seq<T>)
    ensures a + (b + c) == a + b + c
  {
  }

  /** ... also over four parts. */
  lemma SeqAssoc4<T>(a: seq<T>, b: seq<T>, c: seq<T>, d: seq<T>)
    ensures a + (b + (c + d)) == a + b + c + d
  {
  }

  /** The loop of `dfs` started on a tree visits it in preorder. */
  lemma DfsIsPreorder(t: Shape)
    requires t.Branch?
    ensures StackOrder([t]) == Preorder(t)
  {
    StackPreorder([], t);
    assert [] + Pushed(t) == [t];
  }

  /** The nodes of a sequence of shapes. */
  ghost function AllNodes(ts: seq<Shape>): set<Node>
  {
    if ts == [] then {} else NodesOf(ts[0]) + AllNodes(ts[1..])
  }

  /** The nodes on a stack or queue are laid out as the shapes beside them. */
  ghost predicate Aligned(ns: seq<Node>, ts: seq<Shape>)
    reads AllNodes(ts)`left, AllNodes(ts)`right
    decreases |ts|
  {
    |ns| == |ts| && (ts != [] ==> ts[0].Branch? && Models(ns[0], ts[0]) && Aligned(ns[1..], ts[1..]))
  }

  /** Joining two aligned sequences keeps them aligned. */
  lemma {:induction false} AlignedAppend(a: seq<Node>, ta: seq<Shape>, b: seq<Node>, tb: seq<Shape>)
    requires Aligned(a, ta) && Aligned(b, tb)
    ensures Aligned(a + b, ta + tb)
    decreases |ta|
  {
    if ta == [] {
      assert a + b == b && ta + tb == tb;
    } else {
      AlignedAppend(a[1..], ta[1..], b, tb);
      assert (a + b)[1..] == a[1..] + b && (ta + tb)[1..] == ta[1..] + tb;
    }
  }

  /** Dropping the last entry keeps the rest aligned, and the last entry was a node over its shape. */
  lemma {:induction false} AlignedInit(ns: seq<Node>, ts: seq<Shape>)
    requires Aligned(ns, ts) && ts != []
    ensures Aligned(ns[..|ns| - 1], ts[..|ts| - 1])
    ensures ts[|ts| - 1].Branch? && Models(ns[|ns| - 1], ts[|ts| - 1])
    decreases |ts|
  {
    if |ts| > 1 {
      AlignedInit(ns[1..], ts[1..]);
      assert ns[1..][..|ns| - 2] == ns[..|ns| - 1][1..] && ts[1..][..|ts| - 2] == ts[..|ts| - 1][1..];
      assert ns[1..][|ns| - 2] == ns[|ns| - 1] && ts[1..][|ts| - 2] == ts[|ts| - 1];
    }
  }

  /** What `if child: append(child)` adds for the child `n`. */
  function Child(n: Node?): seq<Node>
  {
    if n != null then [n] else []
  }

  /** A child is enqueued or pushed exactly when its shape is not empty. */
  lemma AlignedChild(n: Node?, t: Shape)
    requires Models(n, t)
    ensures Aligned(Child(n), Pushed(t))
  {
  }

  /** One turn of the loop of `dfs`: the popped node joins `visited`, its children go on the stack. */
  lemma DfsStep(visited: seq<Node>, stack: seq<Shape>, x: Node, l: Shape, r: Shape, whole: seq<Node>)
    requires stack != [] && stack[|stack| - 1] == Branch(x, l, r)
    requires visited + StackOrder(stack) == whole
    ensures (visited + [x]) + StackOrder(PushChildren(stack[..|stack| - 1], l, r)) == whole
    ensures TotalSize(PushChildren(stack[..|stack| - 1], l, r)) < TotalSize(stack)
  {
    var rest := stack[..|stack| - 1];
    var q := StackOrder(PushChildren(rest, l, r));
    assert StackOrder(stack) == [x] + q by {
      assert stack[|stack| - 1] == Branch(x, l, r);
    }
    SeqAssoc3(visited, [x], q);
    assert TotalSize(stack) == TotalSize(rest) + Size(stack[|stack| - 1]) by {
      TotalSizeAppend(rest, [stack[|stack| - 1]]);
      assert rest + [stack[|stack| - 1]] == stack;
      TotalSizePushed(stack[|stack| - 1]);
    }
  }

  /** After the pop and the pushes, the stack is still laid out as its shapes. */
  lemma DfsAligned(before: seq<Node>, shapes: seq<Shape>, mid: seq<Node>, after: seq<Node>)
    requires before != [] && Aligned(before, shapes)
    requires var c := before[|before| - 1];
             mid == before[..|before| - 1] + Child(c.right) && after == mid + Child(c.left)
    ensures var top := shapes[|shapes| - 1];
            top.Branch? && before[|before| - 1] == top.node &&
            Aligned(after, PushChildren(shapes[..|shapes| - 1], top.left, top.right))
  {
    var c, top := before[|before| - 1], shapes[|shapes| - 1];
    AlignedInit(before, shapes);
    AlignedChild(c.right, top.right);
    AlignedChild(c.left, top.left);
    AlignedAppend(before[..|before| - 1], shapes[..|shapes| - 1], Child(c.right), Pushed(top.right));
    AlignedAppend(before[..|before| - 1] + Child(c.right), shapes[..|shapes| - 1] + Pushed(top.right),
                  Child(c.left), Pushed(top.left));
  }

  /** One whole turn of the loop of `dfs`, in terms of its invariants. */
  lemma DfsTurn(visited: seq<Node>, before: seq<Node>, shapes: seq<Shape>, mid: seq<Node>, after: seq<Node>,
                order: seq<Node>)
    returns (next: seq<Shape>)
    requires before != [] && Aligned(before, shapes) && visited + StackOrder(shapes) == order
    requires var c := before[|before| - 1];
             mid == before[..|before| - 1] + Child(c.right) && after == mid + Child(c.left)
    ensures Aligned(after, next) && (visited + [before[|before| - 1]]) + StackOrder(next) == order
    ensures TotalSize(next) < TotalSize(shapes)
  {
    DfsAligned(before, shapes, mid, after);
    var top := shapes[|shapes| - 1];
    DfsStep(visited, shapes, before[|before| - 1], top.left, top.right, order);
    next := PushChildren(shapes[..|shapes| - 1], top.left, top.right);
  }

  /**
   * The loop of `dfs` (the traversal before the painting): pop the last node of the stack,
   * append it to `visited`, push its right child and then its left child when they are
   * not `None`. The nodes come out in preorder.
   */
  method DfsVisit(root: Node, ghost t: Shape) returns (visited: seq<Node>)
    requires t.Branch? && Models(root, t)
    ensures visited == Preorder(t)
  {
    var stack: seq<Node> := [root];
    ghost var shapes := [t];
    ghost var order := Preorder(t);
    visited := [];
    assert visited + StackOrder(shapes) == order by {
      DfsIsPreorder(t);
    }
    while stack != []
      invariant Aligned(stack, shapes)
      invariant visited + StackOrder(shapes) == order
      decreases TotalSize(shapes)
    {
      ghost var before := stack;
      var current := stack[|stack| - 1];
      stack := stack[..|stack| - 1] + Child(current.right);
      ghost var mid := stack;
      stack := stack + Child(current.left);
      shapes := DfsTurn(visited, before, shapes, mid, stack, order);
      visited := visited + [current];
    }
  }

  // ---------------------------------------------------------------------------------
  // bfs
  // ---------------------------------------------------------------------------------

  /** `rest` with the children of a dequeued node enqueued, left first. */
  function EnqueueChildren(rest: seq<Shape>, l: Shape, r: Shape): (q: seq<Shape>)
    ensures TotalSize(q) == TotalSize(rest) + Size(l) + Size(r)
  {
    TotalSizeAppend(rest, Pushed(l));
    TotalSizeAppend(rest + Pushed(l), Pushed(r));
    TotalSizePushed(l);
    TotalSizePushed(r);
    rest + Pushed(l) + Pushed(r)
  }

  /** The order in which the loop of `bfs` takes nodes from the front of the queue `queue`. */
  ghost function QueueOrder(queue: seq<Shape>): seq<Node>
    decreases TotalSize(queue), |queue|
  {
    if queue == [] then []
    else
      match queue[0]
      case Empty => QueueOrder(queue[1..])
      case Branch(x, l, r) => [x] + QueueOrder(EnqueueChildren(queue[1..], l, r))
  }

  /** The roots of a row of shapes, left to right. */
  ghost function Roots(row: seq<Shape>): seq<Node>
  {
    if row == [] then []
    else (if row[0].Branch? then [row[0].node] else []) + Roots(row[1..])
  }

  /** The children of a row of shapes, left to right: the next row down. */
  function Children(row: seq<Shape>): seq<Shape>
  {
    if row == [] then []
    else (if row[0].Branch? then Pushed(row[0].left) + Pushed(row[0].right) else []) + Children(row[1..])
  }

  /** A row holds its roots and the nodes of its children. */
  lemma {:induction false} ChildrenSize(row: seq<Shape>)
    ensures TotalSize(row) == |Roots(row)| + TotalSize(Children(row))
    decreases |row|
  {
    if row != [] {
      var t := row[0];
      ChildrenSize(row[1..]);
      var kids := if t.Branch? then Pushed(t.left) + Pushed(t.right) else [];
      TotalSizeAppend(kids, Children(row[1..]));
      if t.Branch? {
        TotalSizePushed(t.left);
        TotalSizePushed(t.right);
        TotalSizeAppend(Pushed(t.left), Pushed(t.right));
      }
    }
  }

  /** Level order: the roots of the row, then the level order of the row below. */
  ghost function LevelOrder(row: seq<Shape>): seq<Node>
    decreases TotalSize(row)
  {
    ChildrenSize(row);
    if Roots(row) == [] then [] else Roots(row) + LevelOrder(Children(row))
  }

  /** Taking the shapes of `a` off the front of the queue yields their roots and queues their children. */
  lemma {:induction false} QueueRows(a: seq<Shape>, b: seq<Shape>)
    ensures QueueOrder(a + b) == Roots(a) + QueueOrder(b + Children(a))
    decreases |a|
  {
    if a == [] {
      assert a + b == b && b + Children(a) == b;
    } else if a[0] == Empty {
      QueueRowsEmpty(a, b);
      QueueRows(a[1..], b);
    } else {
      var kids := Pushed(a[0].left) + Pushed(a[0].right);
      QueueRowsBranch(a, b, kids);
      QueueRows(a[1..], b + kids);
      SeqAssoc3(b, kids, Children(a[1..]));
      SeqAssoc3([a[0].node], Roots(a[1..]), QueueOrder(b + Children(a)));
    }
  }

  /** An empty first shape adds nothing: no root, no children, nothing taken. */
  lemma QueueRowsEmpty(a: seq<Shape>, b: seq<Shape>)
    requires a != [] && a[0] == Empty
    ensures QueueOrder(a + b) == QueueOrder(a[1..] + b)
    ensures Roots(a) == Roots(a[1..]) && Children(a) == Children(a[1..])
  {
    assert (a + b)[0] == a[0] && (a + b)[1..] == a[1..] + b;
  }

  /** A first shape with a root is taken first and queues its children behind `b`. */
  lemma QueueRowsBranch(a: seq<Shape>, b: seq<Shape>, kids: seq<Shape>)
    requires a != [] && a[0].Branch? && kids == Pushed(a[0].left) + Pushed(a[0].right)
    ensures QueueOrder(a + b) == [a[0].node] + QueueOrder(a[1..] + (b + kids))
    ensures Roots(a) == [a[0].node] + Roots(a[1..]) && Children(a) == kids + Children(a[1..])
  {
    assert (a + b)[0] == a[0] && (a + b)[1..] == a[1..] + b;
    assert EnqueueChildren((a + b)[1..], a[0].left, a[0].right) == a[1..] + (b + kids);
  }

  /** The loop of `bfs` visits a row of shapes in level order. */
  lemma {:induction false} QueueIsLevelOrder(row: seq<Shape>)
    ensures QueueOrder(row) == LevelOrder(row)
    decreases TotalSize(row)
  {
    QueueRows(row, []);
    assert row + [] == row && [] + Children(row) == Children(row);
    ChildrenSize(row);
    if Roots(row) == [] {
      EmptyRow(row);
    } else {
      QueueIsLevelOrder(Children(row));
    }
  }

  /** A row without roots has no children either. */
  lemma {:induction false} EmptyRow(row: seq<Shape>)
    requires Roots(row) == []
    ensures Children(row) == []
    decreases |row|
  {
    if row != [] {
      EmptyRow(row[1..]);
    }
  }

  /** The loop of `bfs` takes every node of its queue exactly once. */
  lemma {:induction false} QueueVisitsAll(queue: seq<Shape>)
    ensures multiset(QueueOrder(queue)) == multiset(Preorders(queue))
    decreases TotalSize(queue), |queue|
  {
    if queue != [] {
      match queue[0]
      case Empty =>
        QueueVisitsAll(queue[1..]);
      case Branch(x, l, r) =>
        var next := EnqueueChildren(queue[1..], l, r);
        QueueVisitsAll(next);
        PreordersAppend(queue[1..], Pushed(l));
        PreordersAppend(queue[1..] + Pushed(l), Pushed(r));
        PreordersPushed(l);
        PreordersPushed(r);
    }
  }

  /** The preorders of a row of shapes, one after the other. */
  ghost function Preorders(ts: seq<Shape>): seq<Node>
  {
    if ts == [] then [] else Preorder(ts[0]) + Preorders(ts[1..])
  }

  /** Preorders concatenate over a concatenation. */
  lemma {:induction false} PreordersAppend(a: seq<Shape>, b: seq<Shape>)
    ensures Preorders(a + b) == Preorders(a) + Preorders(b)
    decreases |a|
  {
    if a == [] {
      assert a + b == b;
    } else {
      assert (a + b)[0] == a[0] && (a + b)[1..] == a[1..] + b;
      PreordersAppend(a[1..], b);
    }
  }

  /** A pushed child contributes its preorder. */
  lemma PreordersPushed(t: Shape)
    ensures Preorders(Pushed(t)) == Preorder(t)
  {
    if t.Branch? {
      assert [t][1..] == [];
    }
  }

  /** The loop of `bfs` started on a tree visits every node exactly once, in level order. */
  lemma BfsIsLevelOrder(t: Shape)
    ensures QueueOrder([t]) == LevelOrder([t])
    ensures multiset(LevelOrder([t])) == multiset(Preorder(t)) && |LevelOrder([t])| == Size(t)
  {
    QueueIsLevelOrder([t]);
    assert multiset(LevelOrder([t])) == multiset(Preorder(t)) by {
      QueueVisitsAll([t]);
      assert [t][1..] == [];
      assert Preorders([t]) == Preorder(t);
    }
    assert |LevelOrder([t])| == |multiset(LevelOrder([t]))|;
  }

  /** Level order starts at the root. */
  lemma LevelOrderFirst(t: Shape)
    requires t.Branch?
    ensures LevelOrder([t]) != [] && LevelOrder([t])[0] == t.node
  {
    assert [t][1..] == [];
    assert Roots([t]) == [t.node];
  }

  /** One turn of the loop of `bfs`: the dequeued node joins `visited`, its children join the queue. */
  lemma BfsStep(visited: seq<Node>, queue: seq<Shape>, x: Node, l: Shape, r: Shape, whole: seq<Node>)
    requires queue != [] && queue[0] == Branch(x, l, r)
    requires visited + QueueOrder(queue) == whole
    ensures (visited + [x]) + QueueOrder(EnqueueChildren(queue[1..], l, r)) == whole
    ensures TotalSize(EnqueueChildren(queue[1..], l, r)) < TotalSize(queue)
  {
    var q := QueueOrder(EnqueueChildren(queue[1..], l, r));
    assert QueueOrder(queue) == [x] + q;
    SeqAssoc3(visited, [x], q);
    assert TotalSize(queue) == 1 + Size(l) + Size(r) + TotalSize(queue[1..]);
  }

  /** After the dequeue and the enqueues, the queue is still laid out as its shapes. */
  lemma BfsAligned(before: seq<Node>, shapes: seq<Shape>, mid: seq<Node>, after: seq<Node>)
    requires before != [] && Aligned(before, shapes)
    requires var c := before[0];
             mid == before[1..] + Child(c.left) && after == mid + Child(c.right)
    ensures var front := shapes[0];
            front.Branch? && before[0] == front.node &&
            Aligned(after, EnqueueChildren(shapes[1..], front.left, front.right))
  {
    var c, front := before[0], shapes[0];
    AlignedChild(c.left, front.left);
    AlignedChild(c.right, front.right);
    AlignedAppend(before[1..], shapes[1..], Child(c.left), Pushed(front.left));
    AlignedAppend(before[1..] + Child(c.left), shapes[1..] + Pushed(front.left),
                  Child(c.right), Pushed(front.right));
  }

  /** One whole turn of the loop of `bfs`, in terms of its invariants. */
  lemma BfsTurn(visited: seq<Node>, before: seq<Node>, shapes: seq<Shape>, mid: seq<Node>, after: seq<Node>,
                order: seq<Node>)
    returns (next: seq<Shape>)
    requires before != [] && Aligned(before, shapes) && visited + QueueOrder(shapes) == order
    requires mid == before[1..] + Child(before[0].left) && after == mid + Child(before[0].right)
    ensures Aligned(after, next) && (visited + [before[0]]) + QueueOrder(next) == order
    ensures TotalSize(next) < TotalSize(shapes)
  {
    BfsAligned(before, shapes, mid, after);
    var front := shapes[0];
    BfsStep(visited, shapes, before[0], front.left, front.right, order);
    next := EnqueueChildren(shapes[1..], front.left, front.right);
  }

  /**
   * The loop of `bfs` (the traversal before the painting): take the first node of the
   * queue, append it to `visited`, enqueue its left child and then its right child when
   * they are not `None`. The nodes come out in level order.
   */
  method BfsVisit(root: Node, ghost t: Shape) returns (visited: seq<Node>)
    requires t.Branch? && Models(root, t)
    ensures visited == LevelOrder([t])
  {
    var queue: seq<Node> := [root];
    ghost var shapes := [t];
    ghost var order := LevelOrder([t]);
    visited := [];
    assert visited + QueueOrder(shapes) == order by {
      BfsIsLevelOrder(t);
    }
    while queue != []
      invariant Aligned(queue, shapes)
      invariant visited + QueueOrder(shapes) == order
      decreases TotalSize(shapes)
    {
      ghost var before := queue;
      var current := queue[0];
      queue := queue[1..] + Child(current.left);
      ghost var mid := queue;
      queue := queue + Child(current.right);
      shapes := BfsTurn(visited, before, shapes, mid, queue, order);
      visited := visited + [current];
    }
  }

  // ---------------------------------------------------------------------------------
  // Painting
  // ---------------------------------------------------------------------------------

  /** Colour `i` of the `n` colours from `#1a1a80` to `#aaccff`. */
  function TraversalColor(i: int, n: int): string
    requires n > 1
  {
    Colors.RgbToHex(Colors.Blend([26, 26, 128], [170, 204, 255], i, n))
  }

  /** `for i, node in enumerate(visited): node.color = gradient[i]`. */
  method Paint(visited: seq<Node>, gradient: seq<string>)
    requires |gradient| == |visited| && Distinct(visited)
    modifies set k | 0 <= k < |visited| :: visited[k]`color
    ensures forall k | 0 <= k < |visited| :: visited[k].color == gradient[k]
  {
    for i := 0 to |visited|
      invariant forall k | 0 <= k < i :: visited[k].color == gradient[k]
    {
      visited[i].color := gradient[i];
    }
  }

  /**
   * The end of `bfs` and `dfs`: the gradient of as many colours as there are visited
   * nodes, which divides by zero for a single node, then the painting.
   */
  method PaintVisited(visited: seq<Node>) returns (r: Result<(), Colors.Failure>)
    requires visited != [] && Distinct(visited)
    modifies set k | 0 <= k < |visited| :: visited[k]`color
    ensures r.Err? <==> |visited| == 1
    ensures r.Err? ==> r.error == Colors.ZeroDivisionError
                       && forall k | 0 <= k < |visited| :: visited[k].color == old(visited[k].color)
    ensures r.Ok? ==> forall k | 0 <= k < |visited| :: visited[k].color == TraversalColor(k, |visited|)
  {
    Colors.TraversalColors();
    var gradient := Colors.HexColorGradient("#1a1a80", "#aaccff", |visited|);
    if gradient.Err? {
      return Err(gradient.error);
    }
    Paint(visited, gradient.value);
    r := Ok(());
  }

  /**
   * `bfs`: visit the tree in level order and paint the `i`-th visited node with colour `i`;
   * a one-node tree raises ZeroDivisionError before anything is painted. Only colours change.
   */
  method Bfs(root: Node, ghost t: Shape) returns (r: Result<(), Colors.Failure>)
    requires t.Branch? && Models(root, t) && IsTree(t)
    modifies NodesOf(t)`color
    ensures r.Err? <==> Size(t) == 1
    ensures r.Err? ==> r.error == Colors.ZeroDivisionError && root.color == old(root.color)
    ensures r.Ok? ==> |LevelOrder([t])| == Size(t)
                      && forall k | 0 <= k < Size(t) :: LevelOrder([t])[k].color == TraversalColor(k, Size(t))
    ensures Models(root, t)
  {
    NodesAllocated(t);
    var visited := BfsVisit(root, t);
    assert Distinct(visited) && |visited| == Size(t) && visited[0] == root
           && forall k | 0 <= k < |visited| :: visited[k] in NodesOf(t) by {
      BfsIsLevelOrder(t);
      LevelOrderFirst(t);
      DistinctPermutation(Preorder(t), visited);
      VisitedInTree(t, visited);
    }
    r := PaintVisited(visited);
  }

  /**
   * `dfs`: visit the tree in preorder and paint the `i`-th visited node with colour `i`;
   * a one-node tree raises ZeroDivisionError before anything is painted. Only colours change.
   */
  method Dfs(root: Node, ghost t: Shape) returns (r: Result<(), Colors.Failure>)
    requires t.Branch? && Models(root, t) && IsTree(t)
    modifies NodesOf(t)`color
    ensures r.Err? <==> Size(t) == 1
    ensures r.Err? ==> r.error == Colors.ZeroDivisionError && root.color == old(root.color)
    ensures r.Ok? ==> forall k | 0 <= k < Size(t) :: Preorder(t)[k].color == TraversalColor(k, Size(t))
    ensures Models(root, t)
  {
    NodesAllocated(t);
    var visited := DfsVisit(root, t);
    VisitedInTree(t, visited);
    r := PaintVisited(visited);
  }

  /** The nodes of a shape are objects that exist. */
  lemma {:induction false} NodesAllocated(t: Shape)
    ensures forall n | n in NodesOf(t) :: allocated(n)
  {
    match t
    case Empty =>
    case Branch(x, l, r) =>
      NodesAllocated(l);
      NodesAllocated(r);
  }

  /** The nodes of a shape are the entries of its preorder. */
  lemma {:induction false} NodesInPreorder(t: Shape)
    ensures forall n :: n in NodesOf(t) <==> n in Preorder(t)
  {
    match t
    case Empty =>
    case Branch(x, l, r) =>
      NodesInPreorder(l);
      NodesInPreorder(r);
  }

  /** Every node a traversal visits, in any order, is a node of the tree. */
  lemma VisitedInTree(t: Shape, visited: seq<Node>)
    requires multiset(visited) == multiset(Preorder(t))
    ensures forall k | 0 <= k < |visited| :: visited[k] in NodesOf(t)
  {
    NodesInPreorder(t);
    forall k | 0 <= k < |visited|
      ensures visited[k] in NodesOf(t)
    {
      assert visited[k] in multiset(visited);
    }
  }
}
