# algo-fp in Dafny

A model of five small algorithm exercises from the Python repository yarqui/algo-fp, with
proofs about each:

- **t3.py**: a weighted undirected graph built edge by edge, and Dijkstra's algorithm with a
  binary heap and lazy deletion (module `ShortestPaths`). `Graph` is a class whose
  `adjacency` map is reassigned by `AddEdge`. `Dijkstra` is a method whose loop is proved to
  return exactly the least walk weights from the start vertex. The heap is an abstract multiset
  of (distance, vertex) entries, and a closing lemma checks the example graph.
- **t1.py**: a singly linked list of integers (module `LinkedLists`). `Node` and
  `LinkedList` are classes whose `next` and `head` fields are relinked in place. A ghost
  sequence `nodes` names the chain, and each method is proved against it: append at the end,
  in-place reversal, merge sort by relinking (split at the middle, recursive sort, recursive
  merge) and the merge of two sorted lists. The sort and the merge are specified by a stable
  merge sort on sequences (module `StableSort`, shared with t6). The example run is proved to
  produce `[2, 4, 6, 10, 20, 30, 40, 50]`.
- **t6.py**: choosing food items within a budget (module `Knapsack`). There is a greedy pass in
  non-increasing calories/cost order, and a 0/1 knapsack table in an `array2`, filled row by
  row and then walked back. The errors the source raises are modelled: ZeroDivisionError
  for an item of cost 0 in the greedy pass, and IndexError for a negative budget or a negative
  cost in the table. The table's answer is proved optimal over every selection within the
  budget.
- **t4.py**: the binary tree a heap array stands for (module `HeapTree`). The tree has one node
  per array position. The heapified example list is proved to give a heap-ordered tree.
- **t5.py**: hex colour gradients and breadth- and depth-first traversals of a binary tree
  of mutable `Node` objects that are then painted along the gradient (modules `Colors` and
  `Traversals`). The BFS order is proved to be the level order. The DFS order is proved to be
  the preorder (the right child is pushed first, so the left child is processed first). Both
  passes paint the k-th visited node with the k-th gradient colour, and both fail with
  ZeroDivisionError, leaving the root's colour unchanged, when the tree has one node.

`Wrappers` holds the `Result` type. `Sequences` holds sequence reversal and distinctness.

## Model

| member | source | states |
|---|---|---|
| ShortestPaths.Graph.constructor | t3.py:6-7 | a new graph has an empty adjacency map and satisfies the graph invariant (closed and undirected) |
| ShortestPaths.Graph.AddEdge | t3.py:9-19 | the new adjacency is the old one with `(v, w)` appended to `u`'s list and `(u, w)` appended to `v`'s list, missing lists created first; the invariant is kept |
| ShortestPaths.AddArc | t3.py:13-15 | appending an arc creates the vertex's list if needed, puts the arc last and leaves every other list unchanged |
| ShortestPaths.WithEdgeLists | t3.py:13-19 | after adding an edge the key set gains `u` and `v`; `u`'s list and `v`'s list each end in the new arc (a self-loop gets both arcs in order); every other list is unchanged |
| ShortestPaths.WithEdgeCount | t3.py:9-19 | adding an edge raises the count of arc `(y, w')` in `x`'s list by exactly one for `x = u, y = v` and by one for `x = v, y = u`, and by nothing anywhere else |
| ShortestPaths.WithEdgeClosed | t3.py:9-19 | adding an edge keeps every arc's neighbour a vertex with a list of its own |
| ShortestPaths.WithEdgeUndirected | t3.py:9-19 | adding an edge keeps the graph undirected: arc `u -> v` of weight `w` occurs as often as `v -> u` |
| ShortestPaths.NeighborsSymmetric | t3.py:9-19 | in such a graph the multiplicity of `(y, w)` among `x`'s arcs equals that of `(x, w)` among `y`'s, for any two vertices |
| ShortestPaths.Graph.Dijkstra | t3.py:21-43 | the result has one entry per vertex of the graph and the start; the start is at 0; every finite entry is the weight of some walk from the start; every walk's end is finite and at most the walk's weight; the map is relaxed over every arc |
| ShortestPaths.Graph.RelaxArcs | t3.py:36-41 | after the inner loop over the popped vertex's arcs, every one of its arcs is relaxed against its popped distance, and the main invariant's parts still hold |
| ShortestPaths.Graph.RelaxArc | t3.py:37-41 | one arc: a strictly smaller distance is recorded and pushed, otherwise nothing changes; either way one more arc is relaxed |
| ShortestPaths.SkipStale | t3.py:32-35 | popping an entry whose distance exceeds the recorded one and skipping it keeps the loop invariant |
| ShortestPaths.SettleFresh | t3.py:32-35 | a popped entry that is not stale carries its vertex's final distance and settles that vertex |
| ShortestPaths.Finished | t3.py:31-43 | when the queue is empty the invariant gives the shortest-distance property and relaxedness |
| ShortestPaths.RelaxedBoundsWalks | t3.py:37-41 | a relaxed map with the start at 0 bounds the weight of every walk from the start from below |
| ShortestPaths.PotentialBoundsWalks | t3.py:37-41 | any potential that no arc improves on and that is 0 at the start is a lower bound on every walk's weight |
| ShortestPaths.ShortestDistancesUnique | t3.py:21-43 | two maps with the shortest-distance property are equal, so the order of equal-distance pops does not change the result |
| ShortestPaths.ExampleGraphLists | t3.py:46-52 | the six example edges produce exactly the listed adjacency lists |
| ShortestPaths.ExampleDistances | t3.py:46-55 | from A the example's shortest distances are A 0, B 1, C 3, D 4, E 7 |
| ShortestPaths.ExampleRun | t3.py:46-55 | building the example graph with `AddEdge` and running `Dijkstra` from A returns exactly those distances |
| LinkedLists.Node.constructor | t1.py:4-7 | a new node holds its value and points nowhere |
| LinkedLists.LinkedList.constructor | t1.py:11-12 | a new list is empty |
| LinkedLists.LinkedList.InsertAtEnd | t1.py:14-22 | the chain is the old chain followed by one fresh node, so the contents gain `x` at the end |
| LinkedLists.LinkedList.LastNode | t1.py:19-21 | the walk from the head stops at the last node of the chain, whose `next` is null |
| LinkedLists.LinkedList.Reverse | t1.py:31-39 | the chain is relinked as the reverse of the old chain, so the contents are reversed |
| LinkedLists.LinkedList.Sort | t1.py:41-42 | the chain becomes the stable merge sort of the old nodes by value |
| LinkedLists.LinkedList.MergeSortChain | t1.py:44-55 | the chain from `head` is relinked into its stable merge sort and that chain is returned |
| LinkedLists.LinkedList.SortHalves | t1.py:48-53 | cutting after the middle and sorting both halves gives two disjoint sorted chains of the halves |
| LinkedLists.LinkedList.MergeChains | t1.py:57-70 | two disjoint chains are relinked into their stable merge: the left head goes first on ties |
| LinkedLists.LinkedList.GetMiddle | t1.py:72-78 | the slow/fast walk stops at position `(n - 1) / 2` of an `n`-node chain |
| LinkedLists.LinkedList.MergeTwoSorted | t1.py:80-100 | the merged list's chain is the stable merge of the two old chains, and it is a fresh valid list |
| LinkedLists.LinkedList.Interleave | t1.py:84-96 | the splicing loop ends with one input exhausted, having linked behind the dummy exactly the merge order taken so far |
| LinkedLists.LinkedList.LinkSmaller | t1.py:90-96 | one loop turn links the smaller head (the first list's on ties) and keeps the splicing invariant |
| LinkedLists.LinkedList.AttachRest | t1.py:98-99 | attaching the unexhausted rest completes a chain equal to the stable merge of the two chains |
| LinkedLists.SortSpec | t1.py:41-55 | the sorted chain's values are non-decreasing, a permutation of the old values, and equal values keep their order |
| LinkedLists.MergeSpec | t1.py:57-70 | merging two sorted chains gives non-decreasing values, the union multiset of values, and ties in input order, left first |
| LinkedLists.SortedUnique | t1.py:41-42 | two non-decreasing sequences with the same multiset are equal, so sorted contents are determined by the input values |
| LinkedLists.FromValues | t1.py:105-107 | inserting the values one by one at the end gives a list with exactly those contents |
| LinkedLists.ExampleReversedList | t1.py:105-112 | the first example list, `[50, 10, 30, 20, 40]` inserted and then reversed, holds the same values |
| LinkedLists.ExampleFirstList | t1.py:105-116 | after it is also sorted it holds `[10, 20, 30, 40, 50]` |
| LinkedLists.ExampleReverse | t1.py:112 | reversing keeps the multiset of contents and the nodes |
| LinkedLists.ExampleSort | t1.py:116-123 | sorting a list gives the one non-decreasing arrangement of its values |
| LinkedLists.ExampleSecondList | t1.py:120-123 | the second example list, built from `[4, 2, 6]` and sorted, holds `[2, 4, 6]` |
| LinkedLists.ExampleUsage | t1.py:103-130 | the whole example ends with the merged list `[2, 4, 6, 10, 20, 30, 40, 50]` |
| LinkedLists.ExampleMerged | t1.py:128 | a non-decreasing arrangement of both lists' values is exactly `[2, 4, 6, 10, 20, 30, 40, 50]` |
| StableSort.Merge | t1.py:57-70 | the merge holds exactly the elements of both inputs |
| StableSort.MergeSort | t1.py:44-55 | the sort holds exactly the elements of its input |
| StableSort.MergeSorted | t1.py:57-70 | merging two sorted sequences gives a sorted sequence |
| StableSort.MergeStable | t1.py:57-70 | among elements of equal key the merge keeps the left ones, in order, before the right ones |
| StableSort.MergeSortSorted | t1.py:44-55 | the merge sort is sorted and a permutation of its input |
| StableSort.MergeSortStable | t1.py:44-55 | the merge sort keeps elements of equal key in their input order |
| Sequences.ReversedReversed | t1.py:31-39 | reversing twice gives the original sequence |
| Sequences.ReversedMultiset | t1.py:31-39 | reversal keeps the multiset |
| Knapsack.ByRatioSpec | t6.py:15-17 | the greedy order is a permutation of the items by non-increasing calories/cost, and items of equal ratio keep their dictionary order |
| Knapsack.Greedy | t6.py:13-27 | ZeroDivisionError exactly when some item costs 0; otherwise the names of the greedy picks over that order |
| Knapsack.GreedyDecisions | t6.py:22-25 | the greedy picks are a selection of the ordered items, and each item is taken exactly when what was taken before it plus its cost stays within the budget |
| Knapsack.GreedyWithinBudget | t6.py:22-25 | the greedy picks never cost more than the budget |
| Knapsack.FillRow | t6.py:38-47 | filling row `i` fails exactly when item `i - 1` has a negative cost; otherwise every cell of the row holds the best value of the first `i` items within that cost; other rows are unchanged |
| Knapsack.Backtrack | t6.py:50-58 | the walk back through a filled table returns the names of the chosen items in dictionary order |
| Knapsack.BacktrackTakes | t6.py:53-56 | a cell that differs from the one above means its item is taken and fits |
| Knapsack.BacktrackSkips | t6.py:53 | a cell equal to the one above means its item is skipped |
| Knapsack.DynamicProgramming | t6.py:30-59 | IndexError exactly when there are items and the budget or some cost is negative; otherwise the names of the chosen items |
| Knapsack.ChosenAchievesBest | t6.py:38-58 | the chosen items fit the budget and their calories equal the table cell's value |
| Knapsack.BestIsMaximal | t6.py:38-47 | no selection of the first `i` items within cost `w` has more calories than cell `(i, w)` |
| Knapsack.DynamicProgrammingOptimal | t6.py:30-59 | the chosen items fit the budget, and no selection of all the items within the budget has more calories |
| HeapTree.Build | t4.py:17-25 | position `i` gives no tree exactly when it is past the end; otherwise the node holds `a[i]` |
| HeapTree.BuildSizeFromRoot | t4.py:17-25 | the tree built from position 0 has exactly one node per array element |
| HeapTree.BuildLeaf | t4.py:19-24 | the node at position `k` is a leaf exactly when `2k + 1` is past the end |
| HeapTree.MinHeapBuildsHeapOrdered | t4.py:17-25 | a min-heap array builds a tree in which every parent's key is at most each child's |
| HeapTree.ExampleHeapKeys | t4.py:68-70 | the heapified example list is a rearrangement of `[10, 3, 5, 1, 4, 8]` |
| HeapTree.ExampleHeapified | t4.py:70 | `[1, 3, 5, 10, 4, 8]` is a min-heap |
| HeapTree.ExampleHeapTree | t4.py:67-73 | the example tree is 1 over (3 over 10 and 4) and (5 over 8), and it is heap-ordered |
| Colors.StripHashes | t5.py:62 | removes the longest prefix made of `#` characters only |
| Colors.HexToRgb | t5.py:61-63 | a parse gives three channels in 0..255; a failure is ValueError |
| Colors.RgbRoundTrip | t5.py:61-66 | formatting three channels in 0..255 gives a lower-case `#rrggbb`, and parsing it gives the channels back |
| Colors.ColorRoundTrip | t5.py:61-66 | every `#rrggbb` string parses, and formatting the channels gives its lower-case form |
| Colors.DigitRoundTrip | t5.py:63-66 | a hex digit's value prints back as the digit in lower case, and a value below 16 reads back from its digit |
| Colors.ChannelBetween | t5.py:72-76 | the interpolated channel is the start at step 0, the end at the last step, and between the two in between |
| Colors.GradientEnds | t5.py:72-77 | the gradient starts at the start colour, ends at the end colour, and stays channel-wise between them |
| Colors.HexColorGradient | t5.py:58-79 | ValueError when either colour does not parse, else ZeroDivisionError when `steps == 1`; otherwise `max(steps, 0)` colours, the i-th being the interpolation at step i |
| Colors.TraversalColors | t5.py:93 | the two traversal colours parse to `[26, 26, 128]` and `[170, 204, 255]` |
| Traversals.Node.constructor | t5.py:8-14 | a new node holds its value and colour and has no children |
| Traversals.DfsVisit | t5.py:99-108 | the stack loop visits the nodes exactly in preorder: node, left subtree, right subtree |
| Traversals.DfsIsPreorder | t5.py:101-108 | the order in which a stack holding only the tree pops its nodes is the preorder |
| Traversals.StackPreorder | t5.py:101-108 | pushing a tree on a stack puts its preorder before the order of the rest of the stack |
| Traversals.DfsStep | t5.py:102-108 | one pop: the popped node is next in the order, and the stack's remaining size shrinks |
| Traversals.BfsVisit | t5.py:83-91 | the queue loop visits the nodes exactly in level order, left to right within a level |
| Traversals.BfsIsLevelOrder | t5.py:85-91 | the order in which a queue holding only the tree serves its nodes is the level order, which holds each node of the tree once |
| Traversals.QueueRows | t5.py:85-91 | serving a whole row of the queue visits its roots and enqueues their children behind the rest |
| Traversals.BfsStep | t5.py:86-91 | one pop: the served node is next in the order, and the queue's remaining size shrinks |
| Traversals.LevelOrderFirst | t5.py:83-87 | the level order starts at the root |
| Traversals.PaintVisited | t5.py:93-95 | painting a list of distinct nodes: ZeroDivisionError, no colour changed, when there is one node; otherwise node k gets gradient colour k |
| Traversals.Bfs | t5.py:82-95 | ZeroDivisionError, root unchanged, for a one-node tree; otherwise the k-th node in level order gets the k-th colour of the gradient; the tree's links are unchanged |
| Traversals.Dfs | t5.py:98-112 | ZeroDivisionError, root unchanged, for a one-node tree; otherwise the k-th node in preorder gets the k-th colour of the gradient; the tree's links are unchanged |

## Left out

- Printing: `print_list` (t1.py:24-29) and every `print` call in the examples. They only write to standard output.
- Drawing: `add_edges`, `draw_tree` (t4.py) and `draw_tree_with_colors` (t5.py). They call networkx and matplotlib. The `uuid` node ids exist only for drawing and are not modelled.
- t5.py:114-134: the sample tree script with `copy.deepcopy` builds a tree and draws it. `Bfs` and `Dfs` are stated for every tree instead.
- t6.py:63-70: the `main` block only prints the two results for the item table. Both procedures are stated for every item list instead.
- t2.py (turtle fractal drawing) and t7.py (dice simulation with random numbers and plotting) are not part of this model.
- `heapq.heapify` (t4.py:70) itself is not modelled. The example uses the list it leaves behind for this input, which is proved to be a min-heap with the same keys.
- `heapq` in `dijkstra`: the queue is a multiset from which any entry of least distance is popped. Python breaks ties by vertex name. Since the result is proved unique, the tie order does not matter.
- `float("inf")` is the `Infinity` case of `Distance`, and finite distances are exact unbounded integers.
- ShortestPaths.Graph.AddEdge: weights are natural numbers. Negative weights, which the source accepts and for which Dijkstra's algorithm promises nothing, are not modelled.
- ShortestPaths.Graph.AddEdge: the `add_edge` docstring calls the edge directed, but the code adds both directions. The model follows the code.
- ShortestPaths.Graph.Dijkstra: it requires the class invariant that every graph built by `AddEdge` satisfies: every neighbour has a list, and arcs come in pairs. A graph whose dictionary was edited by hand could raise KeyError in the source.
- Knapsack.Greedy: the calories/cost ratio is an exact rational, not a float. Ratios that differ only below float precision could sort differently in the source.
- Colors.HexColorGradient: each channel `int(s + (e - s) * i / (steps - 1))` is computed as an exact floor division. The value is never negative, so truncation is the floor. The source rounds twice, once in the true division and once in the float addition of `s`, for a total error of at most about 6e-13. An exact result that is not an integer lies at least `1 / (steps - 1)` from the nearest integer, so both land on the same integer whenever `steps` is below about 10^12, and no longer gradient can be built.
- Colors.HexToRgb: every two-character slice that is not made of ASCII hex digits is treated as ValueError. Python's `int(x, 16)` also reads a sign, surrounding whitespace and non-ASCII digits, so the source returns a channel for such slices (`" f"` gives 15, `"+1"` gives 1, `"-1"` gives -1) where the model raises ValueError. Only a minus sign gives a channel outside 0..255.
- Traversals.Node.constructor: the colour is always passed. The default `"#1a1a80"` of t5.py:9 is used only by the sample script, which is not modelled.
- Recursion depth: `_merge_sort`, `_merge` and `array_to_binary_tree` recurse without bound in the model. Python's recursion limit (a RecursionError on long lists) is not modelled.
- LinkedLists.LinkedList.MergeTwoSorted: it requires the two lists to share no node. The source does not check this. Merging a list with itself links nodes into a cycle.
- LinkedLists.Node: `data` is an `int` that never changes. The source allows `None` (`Optional[int]`), but only the dummy node and inserted integers occur in the core.
- The linked list nodes, tree nodes and traversal nodes are objects, but the graph is a value. `Traversals` names the tree's shape with a ghost `Shape` value that mirrors the node links.
