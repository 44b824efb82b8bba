/**
 * Weighted undirected graph and single-source shortest distances by Dijkstra's algorithm
 * with lazy deletion (t3.py).
 *
 * The adjacency dictionary maps a vertex to its list of (neighbour, weight) arcs. The
 * priority queue (`heapq` in the source) is an abstract multiset of (distance, vertex)
 * entries from which an entry of least distance is removed. `float("inf")`, the distance
 * of a vertex not reached yet, is the `Infinity` value of `Distance`.
 */
module ShortestPaths {

  type Vertex = string

  /** An arc to `0` (the neighbour) of weight `1`, as stored in an adjacency list. */
  type Arc = (Vertex, nat)

  type Adjacency = map<Vertex, seq<Arc>>

  /** A recorded distance: a finite total weight, or infinity for "no path found yet". */
  datatype Distance = Infinity | Finite(value: nat)

  /** `d < x`, where every finite `d` is below infinity. */
  predicate Below(d: nat, x: Distance)
  {
    x.Infinity? || d < x.value
  }

  /** `d > x`; no number exceeds infinity. */
  predicate Exceeds(d: nat, x: Distance)
  {
    x.Finite? && d > x.value
  }

  /** The arcs leaving `v`; a vertex without a list has none (`dict.get(v, [])`). */
  function Neighbors(adj: Adjacency, v: Vertex): seq<Arc>
  {
    if v in adj then adj[v] else []
  }

  /** Every neighbour named in an adjacency list has a list of its own. */
  ghost predicate Closed(adj: Adjacency)
  {
    forall u, a | u in adj && a in adj[u] :: a.0 in adj
  }

  /** Arc `u -> v` of weight `w` occurs as often as arc `v -> u` of weight `w`. */
  ghost predicate Undirected(adj: Adjacency)
  {
    forall u, v, w | u in adj && v in adj :: multiset(adj[u])[(v, w)] == multiset(adj[v])[(u, w)]
  }

  /**
   * `hops` is a walk from `s` to `t`: each hop is an arc in the list of the vertex the
   * previous hop reached (the first hop leaves `s`).
   */
  ghost predicate IsWalk(adj: Adjacency, s: Vertex, hops: seq<Arc>, t: Vertex)
    decreases |hops|
  {
    if hops == [] then t == s
    else
      var last := hops[|hops| - 1];
      var from := if |hops| == 1 then s else hops[|hops| - 2].0;
      && last.0 == t
      && from in adj
      && last in adj[from]
      && IsWalk(adj, s, hops[..|hops| - 1], from)
  }

  /** Total weight of a walk. */
  function Weight(hops: seq<Arc>): nat
  {
    if hops == [] then 0 else Weight(hops[..|hops| - 1]) + hops[|hops| - 1].1
  }

  /** Extending a walk to `u` by an arc of `u`'s list gives a walk to that arc's neighbour. */
  lemma WalkExtend(adj: Adjacency, s: Vertex, hops: seq<Arc>, u: Vertex, a: Arc)
    requires IsWalk(adj, s, hops, u)
    requires u in adj && a in adj[u]
    ensures IsWalk(adj, s, hops + [a], a.0)
    ensures Weight(hops + [a]) == Weight(hops) + a.1
  {
    assert (hops + [a])[..|hops|] == hops;
    if hops != [] {
      assert (hops + [a])[|hops| - 1] == hops[|hops| - 1];
    }
  }

  /**
   * `dist` is relaxed: for every arc `(u, v, w)` with `dist[u]` finite, `dist[v]` is
   * finite and at most `dist[u] + w` (the triangle inequality).
   */
  ghost predicate Relaxed(adj: Adjacency, dist: map<Vertex, Distance>)
  {
    forall u, a | u in adj && u in dist && dist[u].Finite? && a in adj[u] ::
      a.0 in dist && dist[a.0].Finite? && dist[a.0].value <= dist[u].value + a.1
  }

  /**
   * A relaxed map with `start` at 0 bounds every walk from `start`: its end has a finite
   * distance no larger than the walk's weight.
   */
  lemma {:induction false} RelaxedBoundsWalks(adj: Adjacency, dist: map<Vertex, Distance>,
                                              start: Vertex, hops: seq<Arc>, t: Vertex)
    requires start in dist && dist[start] == Finite(0)
    requires Relaxed(adj, dist)
    requires IsWalk(adj, start, hops, t)
    ensures t in dist && dist[t].Finite? && dist[t].value <= Weight(hops)
    decreases |hops|
  {
    if hops != [] {
      var from := if |hops| == 1 then start else hops[|hops| - 2].0;
      RelaxedBoundsWalks(adj, dist, start, hops[..|hops| - 1], from);
    }
  }

  /** `pot` gives every vertex with a list a value that no arc improves on. */
  ghost predicate Feasible(adj: Adjacency, pot: map<Vertex, nat>)
  {
    forall u, a | u in adj && a in adj[u] :: u in pot && a.0 in pot && pot[a.0] <= pot[u] + a.1
  }

  /**
   * A potential that satisfies the triangle inequality on every arc and is 0 at `start`
   * is a lower bound on the weight of every walk from `start`.
   */
  lemma {:induction false} PotentialBoundsWalks(adj: Adjacency, pot: map<Vertex, nat>,
                                                start: Vertex, hops: seq<Arc>, t: Vertex)
    requires start in pot && pot[start] == 0
    requires Feasible(adj, pot)
    requires IsWalk(adj, start, hops, t)
    ensures t in pot && pot[t] <= Weight(hops)
    decreases |hops|
  {
    if hops != [] {
      var from := if |hops| == 1 then start else hops[|hops| - 2].0;
      PotentialBoundsWalks(adj, pot, start, hops[..|hops| - 1], from);
    }
  }

  /** Exactly the distances Dijkstra's algorithm promises: least walk weights, or infinity. */
  ghost predicate ShortestDistances(adj: Adjacency, start: Vertex, dist: map<Vertex, Distance>)
  {
    && dist.Keys == adj.Keys + {start}
    && dist[start] == Finite(0)
    && (forall v | v in dist && dist[v].Finite? ::
          exists hops :: IsWalk(adj, start, hops, v) && Weight(hops) == dist[v].value)
    && (forall hops, v | IsWalk(adj, start, hops, v) ::
          v in dist && dist[v].Finite? && dist[v].value <= Weight(hops))
  }

  /**
   * The shortest distances are determined by the graph and the start vertex alone, so the
   * order in which equal-distance entries leave the queue does not matter and running the
   * algorithm twice gives the same map.
   */
  lemma ShortestDistancesUnique(adj: Adjacency, start: Vertex, d1: map<Vertex, Distance>, d2: map<Vertex, Distance>)
    requires ShortestDistances(adj, start, d1) && ShortestDistances(adj, start, d2)
    ensures d1 == d2
  {
    forall v | v in d1 ensures d1[v] == d2[v] {
      if d1[v].Finite? {
        var h1 :| IsWalk(adj, start, h1, v) && Weight(h1) == d1[v].value;
        assert d2[v].Finite? && d2[v].value <= d1[v].value;
      }
      if d2[v].Finite? {
        var h2 :| IsWalk(adj, start, h2, v) && Weight(h2) == d2[v].value;
        assert d1[v].Finite? && d1[v].value <= d2[v].value;
      }
    }
  }

  /** A non-empty set of entries has one of least distance, `e`. */
  lemma {:induction false} MinInSet(s: set<(nat, Vertex)>) returns (e: (nat, Vertex))
    requires s != {}
    ensures e in s && forall f | f in s :: e.0 <= f.0
    decreases |s|
  {
    var x: (nat, Vertex) :| x in s;
    if s == {x} {
      e := x;
    } else {
      var m := MinInSet(s - {x});
      e := if x.0 <= m.0 then x else m;
      forall f | f in s ensures e.0 <= f.0 {
        if f != x {
          assert f in s - {x};
        }
      }
    }
  }

  /** A non-empty queue has an entry of least distance. */
  lemma MinEntryExists(heap: multiset<(nat, Vertex)>)
    requires |heap| > 0
    ensures exists e :: e in heap && forall f | f in heap :: e.0 <= f.0
  {
    var x: (nat, Vertex) :| x in heap;
    var s := set e | e in heap;
    assert x in s;
    var m := MinInSet(s);
    assert m in heap && forall f | f in heap :: m.0 <= f.0;
  }

  /** Every queue entry is at least the recorded distance of its vertex. */
  ghost predicate EntriesAboveRecorded(dist: map<Vertex, Distance>, heap: multiset<(nat, Vertex)>)
  {
    forall e | e in heap :: e.1 in dist && dist[e.1].Finite? && dist[e.1].value <= e.0
  }

  /**
   * Bookkeeping of the settled set `done` against the last popped distance `low`:
   * no entry is below `low`, settled vertices are at most `low`, a vertex's current
   * distance is queued at most once (never once it is settled), and every finite
   * vertex is settled or queued at its current distance.
   */
  ghost predicate Frontier(dist: map<Vertex, Distance>, heap: multiset<(nat, Vertex)>, done: set<Vertex>, low: nat)
  {
    && done <= dist.Keys
    && (forall e | e in heap :: low <= e.0)
    && (forall v | v in done :: dist[v].Finite? && dist[v].value <= low)
    && (forall v | v in dist && dist[v].Finite? ::
          heap[(dist[v].value, v)] <= (if v in done then 0 else 1))
    && (forall v | v in dist && dist[v].Finite? :: v in done || (dist[v].value, v) in heap)
  }

  /** The arcs of every settled vertex are relaxed. */
  ghost predicate SettledRelaxed(adj: Adjacency, dist: map<Vertex, Distance>, done: set<Vertex>)
  {
    forall u, a | u in done && u in dist && dist[u].Finite? && a in Neighbors(adj, u) ::
      a.0 in dist && dist[a.0].Finite? && dist[a.0].value <= dist[u].value + a.1
  }

  /** Every finite distance is the weight of the walk recorded for it. */
  ghost predicate Witnessed(adj: Adjacency, start: Vertex, dist: map<Vertex, Distance>, via: map<Vertex, seq<Arc>>)
  {
    forall v | v in dist && dist[v].Finite? ::
      v in via && IsWalk(adj, start, via[v], v) && Weight(via[v]) == dist[v].value
  }

  /** `now` is nowhere worse than `before`: recorded distances never increase. */
  ghost predicate NoWorse(now: map<Vertex, Distance>, before: map<Vertex, Distance>)
  {
    && now.Keys == before.Keys
    && forall v | v in before && before[v].Finite? :: now[v].Finite? && now[v].value <= before[v].value
  }

  /** The invariant of the main loop of `Dijkstra`. */
  ghost predicate LoopInv(adj: Adjacency, start: Vertex, dist: map<Vertex, Distance>,
                          heap: multiset<(nat, Vertex)>, done: set<Vertex>, low: nat,
                          via: map<Vertex, seq<Arc>>)
  {
    && Closed(adj)
    && dist.Keys == adj.Keys + {start}
    && dist[start] == Finite(0)
    && EntriesAboveRecorded(dist, heap)
    && Frontier(dist, heap, done, low)
    && SettledRelaxed(adj, dist, done)
    && Witnessed(adj, start, dist, via)
  }

  /**
   * The invariant of the relaxation loop over the arcs of `x`, popped at distance `d`
   * and already counted as settled: the arcs before `i` are relaxed.
   */
  ghost predicate RelaxInv(adj: Adjacency, start: Vertex, dist: map<Vertex, Distance>,
                           heap: multiset<(nat, Vertex)>, done: set<Vertex>,
                           via: map<Vertex, seq<Arc>>, x: Vertex, d: nat, i: nat,
                           before: map<Vertex, Distance>)
  {
    && Closed(adj)
    && dist.Keys == adj.Keys + {start}
    && dist[start] == Finite(0)
    && x in done
    && x in dist
    && dist[x] == Finite(d)
    && i <= |Neighbors(adj, x)|
    && NoWorse(dist, before)
    && EntriesAboveRecorded(dist, heap)
    && Frontier(dist, heap, done, d)
    && SettledRelaxed(adj, dist, done - {x})
    && ArcsRelaxed(adj, dist, x, d, i)
    && Witnessed(adj, start, dist, via)
  }

  /** The first `i` arcs of `x` are relaxed against `d`. */
  ghost predicate ArcsRelaxed(adj: Adjacency, dist: map<Vertex, Distance>, x: Vertex, d: nat, i: nat)
  {
    forall k | 0 <= k < i && k < |Neighbors(adj, x)| ::
      var a := Neighbors(adj, x)[k];
      a.0 in dist && dist[a.0].Finite? && dist[a.0].value <= d + a.1
  }

  /** The state before the first pop satisfies the loop invariant. */
  lemma InitialState(adj: Adjacency, start: Vertex)
    requires Closed(adj)
    ensures LoopInv(adj, start, (map v | v in adj :: Infinity)[start := Finite(0)],
                    multiset{(0, start)}, {}, 0, map[start := []])
  {
  }

  /** Skipping a stale entry of least distance keeps the loop invariant. */
  lemma SkipStale(adj: Adjacency, start: Vertex, dist: map<Vertex, Distance>,
                  heap: multiset<(nat, Vertex)>, done: set<Vertex>, low: nat,
                  via: map<Vertex, seq<Arc>>, e: (nat, Vertex))
    requires LoopInv(adj, start, dist, heap, done, low, via)
    requires e in heap && forall f | f in heap :: e.0 <= f.0
    requires Exceeds(e.0, dist[e.1])
    ensures LoopInv(adj, start, dist, heap - multiset{e}, done, e.0, via)
  {
    var rest := heap - multiset{e};
    forall v | v in dist && dist[v].Finite?
      ensures v in done || (dist[v].value, v) in rest
    {
      if v !in done {
        assert (dist[v].value, v) in heap;
        assert (dist[v].value, v) != e || v != e.1;
      }
    }
  }

  /** Removing the least entry `(d, x)`, now settled, keeps the frontier bookkeeping at `d`. */
  lemma FrontierAfterPop(dist: map<Vertex, Distance>, heap: multiset<(nat, Vertex)>,
                         done: set<Vertex>, low: nat, d: nat, x: Vertex)
    requires Frontier(dist, heap, done, low)
    requires (d, x) in heap && forall f | f in heap :: d <= f.0
    requires x in dist && dist[x] == Finite(d)
    ensures Frontier(dist, heap - multiset{(d, x)}, done + {x}, d)
  {
    var rest := heap - multiset{(d, x)};
    var done' := done + {x};
    assert rest[(d, x)] == 0;
    forall v | v in done' ensures dist[v].Finite? && dist[v].value <= d {
      if v in done {
        assert low <= d;
      }
    }
    forall v | v in dist && dist[v].Finite?
      ensures v in done' || (dist[v].value, v) in rest
    {
      if v !in done' {
        assert (dist[v].value, v) in heap;
      }
    }
  }

  /** Popping the current distance of an unsettled vertex starts its relaxation loop. */
  lemma SettleFresh(adj: Adjacency, start: Vertex, dist: map<Vertex, Distance>,
                    heap: multiset<(nat, Vertex)>, done: set<Vertex>, low: nat,
                    via: map<Vertex, seq<Arc>>, d: nat, x: Vertex)
    requires LoopInv(adj, start, dist, heap, done, low, via)
    requires (d, x) in heap && forall f | f in heap :: d <= f.0
    requires !Exceeds(d, dist[x])
    ensures x in dist && dist[x] == Finite(d) && x !in done
    ensures RelaxInv(adj, start, dist, heap - multiset{(d, x)}, done + {x}, via, x, d, 0, dist)
  {
    assert dist[x] == Finite(d);
    assert x !in done by {
      assert heap[(dist[x].value, x)] >= 1;
    }
    FrontierAfterPop(dist, heap, done, low, d, x);
    assert done + {x} - {x} == done;
  }

  /** Lowering `v` to `c` and pushing `(c, v)` keeps every entry at or above its record. */
  lemma EntriesAfterLower(dist: map<Vertex, Distance>, heap: multiset<(nat, Vertex)>, v: Vertex, c: nat)
    requires EntriesAboveRecorded(dist, heap)
    requires v in dist && Below(c, dist[v])
    ensures EntriesAboveRecorded(dist[v := Finite(c)], heap + multiset{(c, v)})
  {
    var dist' := dist[v := Finite(c)];
    forall f | f in heap + multiset{(c, v)}
      ensures f.1 in dist' && dist'[f.1].Finite? && dist'[f.1].value <= f.0
    {
      if f != (c, v) {
        assert f in heap;
      }
    }
  }

  /** Lowering an unsettled `v` to `c >= d` and pushing `(c, v)` keeps the frontier at `d`. */
  lemma FrontierAfterLower(dist: map<Vertex, Distance>, heap: multiset<(nat, Vertex)>,
                           done: set<Vertex>, d: nat, v: Vertex, c: nat)
    requires Frontier(dist, heap, done, d)
    requires EntriesAboveRecorded(dist, heap)
    requires v in dist && Below(c, dist[v]) && v !in done && d <= c
    ensures Frontier(dist[v := Finite(c)], heap + multiset{(c, v)}, done, d)
  {
    var dist' := dist[v := Finite(c)];
    var heap' := heap + multiset{(c, v)};
    assert heap[(c, v)] == 0;
    forall u | u in dist' && dist'[u].Finite?
      ensures heap'[(dist'[u].value, u)] <= (if u in done then 0 else 1)
    {
      if u != v {
        assert (dist'[u].value, u) != (c, v);
      }
    }
  }

  /** Lowering an unsettled `v` keeps the relaxed arcs of the settled vertices relaxed. */
  lemma SettledAfterLower(adj: Adjacency, dist: map<Vertex, Distance>, settled: set<Vertex>, v: Vertex, c: nat)
    requires SettledRelaxed(adj, dist, settled)
    requires v in dist && Below(c, dist[v]) && v !in settled
    ensures SettledRelaxed(adj, dist[v := Finite(c)], settled)
  {
  }

  /** The walk recorded for `v` after relaxing arc `a` of `x` weighs `c`. */
  lemma WitnessedAfterLower(adj: Adjacency, start: Vertex, dist: map<Vertex, Distance>,
                            via: map<Vertex, seq<Arc>>, x: Vertex, a: Arc, c: nat)
    requires Witnessed(adj, start, dist, via)
    requires x in adj && a in adj[x] && x in dist && dist[x].Finite? && c == dist[x].value + a.1
    ensures Witnessed(adj, start, dist[a.0 := Finite(c)], via[a.0 := via[x] + [a]])
  {
    WalkExtend(adj, start, via[x], x, a);
  }

  /** The arc `(v, w)` at `i` improves on the distance of `v`: `v` is lowered to `c`, `d` plus `w`, and queued. */
  lemma RelaxLowers(adj: Adjacency, start: Vertex, dist: map<Vertex, Distance>,
                    heap: multiset<(nat, Vertex)>, done: set<Vertex>,
                    via: map<Vertex, seq<Arc>>, x: Vertex, d: nat, i: nat,
                    before: map<Vertex, Distance>, v: Vertex, w: nat, c: nat)
    requires RelaxInv(adj, start, dist, heap, done, via, x, d, i, before)
    requires i < |Neighbors(adj, x)| && Neighbors(adj, x)[i] == (v, w)
    requires c == d + w && v in dist && Below(c, dist[v])
    ensures RelaxInv(adj, start, dist[v := Finite(c)], heap + multiset{(c, v)},
                     done, via[v := via[x] + [(v, w)]], x, d, i + 1, before)
  {
    assert x in adj && (v, w) in adj[x];
    assert v !in done;
    RecordsAfterLower(adj, dist, before, start, x, d, v, c);
    EntriesAfterLower(dist, heap, v, c);
    FrontierAfterLower(dist, heap, done, d, v, c);
    SettledAfterLower(adj, dist, done - {x}, v, c);
    WitnessedAfterLower(adj, start, dist, via, x, (v, w), c);
    ArcsAfterLower(adj, dist, x, d, i, (v, w), c);
  }

  /** Lowering `v` from above `c` to `c >= d` keeps the keys, `start` at 0, `x` at `d` and nothing worse. */
  lemma RecordsAfterLower(adj: Adjacency, dist: map<Vertex, Distance>, before: map<Vertex, Distance>, start: Vertex,
                          x: Vertex, d: nat, v: Vertex, c: nat)
    requires dist.Keys == adj.Keys + {start} && NoWorse(dist, before) && dist[start] == Finite(0)
    requires x in dist && dist[x] == Finite(d) && v in dist && Below(c, dist[v]) && d <= c
    ensures var dist' := dist[v := Finite(c)];
            && dist'.Keys == adj.Keys + {start} && NoWorse(dist', before)
            && dist'[start] == Finite(0) && x in dist' && dist'[x] == Finite(d)
  {
    assert dist[v := Finite(c)].Keys == dist.Keys;
  }

  /** Lowering the neighbour of arc `i` of `x` to `c`, `d` plus its weight, relaxes the arcs up to `i`. */
  lemma ArcsAfterLower(adj: Adjacency, dist: map<Vertex, Distance>, x: Vertex, d: nat, i: nat, a: Arc, c: nat)
    requires i < |Neighbors(adj, x)| && Neighbors(adj, x)[i] == a && c == d + a.1
    requires a.0 in dist && Below(c, dist[a.0]) && ArcsRelaxed(adj, dist, x, d, i)
    ensures ArcsRelaxed(adj, dist[a.0 := Finite(c)], x, d, i + 1)
  {
  }

  /** The arc `(v, w)` at `i` does not improve on the distance of `v`: nothing changes. */
  lemma RelaxKeeps(adj: Adjacency, start: Vertex, dist: map<Vertex, Distance>,
                   heap: multiset<(nat, Vertex)>, done: set<Vertex>,
                   via: map<Vertex, seq<Arc>>, x: Vertex, d: nat, i: nat,
                   before: map<Vertex, Distance>, v: Vertex, w: nat)
    requires RelaxInv(adj, start, dist, heap, done, via, x, d, i, before)
    requires i < |Neighbors(adj, x)| && Neighbors(adj, x)[i] == (v, w)
    requires v in dist && !Below(d + w, dist[v])
    ensures RelaxInv(adj, start, dist, heap, done, via, x, d, i + 1, before)
  {
  }

  /** Settling a vertex that was not settled yet shrinks the set of unsettled vertices. */
  lemma SettleShrinks(keys: set<Vertex>, done: set<Vertex>, x: Vertex)
    requires x in keys && x !in done
    ensures |keys - (done + {x})| < |keys - done|
  {
    assert keys - done == (keys - (done + {x})) + {x};
  }

  /** When all arcs of `x` are relaxed, the loop invariant holds again with `x` settled. */
  lemma RelaxDone(adj: Adjacency, start: Vertex, dist: map<Vertex, Distance>,
                  heap: multiset<(nat, Vertex)>, done: set<Vertex>,
                  via: map<Vertex, seq<Arc>>, x: Vertex, d: nat,
                  before: map<Vertex, Distance>)
    requires RelaxInv(adj, start, dist, heap, done, via, x, d, |Neighbors(adj, x)|, before)
    ensures LoopInv(adj, start, dist, heap, done, d, via)
  {
    SettledAdd(adj, dist, done, x, d);
  }

  /** A vertex whose arcs are all relaxed joins the settled vertices whose arcs are relaxed. */
  lemma SettledAdd(adj: Adjacency, dist: map<Vertex, Distance>, done: set<Vertex>, x: Vertex, d: nat)
    requires SettledRelaxed(adj, dist, done - {x}) && ArcsRelaxed(adj, dist, x, d, |Neighbors(adj, x)|)
    requires x in done && x in dist && dist[x] == Finite(d)
    ensures SettledRelaxed(adj, dist, done)
  {
    forall u, a | u in done && u in dist && dist[u].Finite? && a in Neighbors(adj, u)
      ensures a.0 in dist && dist[a.0].Finite? && dist[a.0].value <= dist[u].value + a.1
    {
      if u == x {
        var k :| 0 <= k < |Neighbors(adj, x)| && Neighbors(adj, x)[k] == a;
      }
    }
  }

  /** With the queue empty every finite vertex is settled, so every arc is relaxed. */
  lemma FinishedRelaxed(adj: Adjacency, start: Vertex, dist: map<Vertex, Distance>,
                        done: set<Vertex>, low: nat, via: map<Vertex, seq<Arc>>)
    requires LoopInv(adj, start, dist, multiset{}, done, low, via)
    ensures Relaxed(adj, dist)
  {
    forall u, a | u in adj && u in dist && dist[u].Finite? && a in adj[u]
      ensures a.0 in dist && dist[a.0].Finite? && dist[a.0].value <= dist[u].value + a.1
    {
      assert u in done;
      assert a in Neighbors(adj, u);
    }
  }

  /** With the queue empty, the loop invariant gives the promised distances. */
  lemma Finished(adj: Adjacency, start: Vertex, dist: map<Vertex, Distance>,
                 done: set<Vertex>, low: nat, via: map<Vertex, seq<Arc>>)
    requires LoopInv(adj, start, dist, multiset{}, done, low, via)
    ensures Relaxed(adj, dist)
    ensures ShortestDistances(adj, start, dist)
  {
    FinishedRelaxed(adj, start, dist, done, low, via);
    forall v | v in dist && dist[v].Finite?
      ensures exists hops :: IsWalk(adj, start, hops, v) && Weight(hops) == dist[v].value
    {
      assert IsWalk(adj, start, via[v], v);
    }
    forall hops, v | IsWalk(adj, start, hops, v)
      ensures v in dist && dist[v].Finite? && dist[v].value <= Weight(hops)
    {
      RelaxedBoundsWalks(adj, dist, start, hops, v);
    }
  }

  /** `adj` with arc `a` appended to the list of `x` (created empty first if missing). */
  function AddArc(adj: Adjacency, x: Vertex, a: Arc): (r: Adjacency)
    ensures r.Keys == adj.Keys + {x}
    ensures r[x] == Neighbors(adj, x) + [a]
    ensures forall y | y in adj && y != x :: r[y] == adj[y]
  {
    adj[x := Neighbors(adj, x) + [a]]
  }

  /** `adj` with the undirected edge `u -- v` of weight `w`: `(v, w)` for `u`, then `(u, w)` for `v`. */
  function WithEdge(adj: Adjacency, u: Vertex, v: Vertex, w: nat): Adjacency
  {
    AddArc(AddArc(adj, u, (v, w)), v, (u, w))
  }

  /**
   * The lists after inserting edge `u -- v`: both endpoints become keys, each endpoint's
   * list gains one arc to the other at its end (a self-loop gains two), and no other list
   * changes.
   */
  lemma WithEdgeLists(adj: Adjacency, u: Vertex, v: Vertex, w: nat)
    ensures WithEdge(adj, u, v, w).Keys == adj.Keys + {u, v}
    ensures u != v ==> WithEdge(adj, u, v, w)[u] == Neighbors(adj, u) + [(v, w)]
    ensures u != v ==> WithEdge(adj, u, v, w)[v] == Neighbors(adj, v) + [(u, w)]
    ensures u == v ==> WithEdge(adj, u, v, w)[u] == Neighbors(adj, u) + [(v, w), (u, w)]
    ensures forall x | x in adj && x != u && x != v :: WithEdge(adj, u, v, w)[x] == adj[x]
  {
    assert Neighbors(adj, u) + [(v, w)] + [(u, w)] == Neighbors(adj, u) + [(v, w), (u, w)];
  }

  /** How often arc `(y, w')` leaves `x` after inserting the edge. */
  lemma WithEdgeCount(adj: Adjacency, u: Vertex, v: Vertex, w: nat, x: Vertex, y: Vertex, w': nat)
    ensures multiset(Neighbors(WithEdge(adj, u, v, w), x))[(y, w')]
         == multiset(Neighbors(adj, x))[(y, w')]
          + (if x == u && y == v && w' == w then 1 else 0)
          + (if x == v && y == u && w' == w then 1 else 0)
  {
    var mid := AddArc(adj, u, (v, w));
    assert multiset(Neighbors(mid, x)) == multiset(Neighbors(adj, x)) + (if x == u then multiset{(v, w)} else multiset{});
    assert multiset(Neighbors(WithEdge(adj, u, v, w), x)) == multiset(Neighbors(mid, x)) + (if x == v then multiset{(u, w)} else multiset{});
  }

  /** In a closed undirected graph the pairing of arcs also holds for vertices without a list. */
  lemma NeighborsSymmetric(adj: Adjacency, x: Vertex, y: Vertex, w: nat)
    requires Closed(adj) && Undirected(adj)
    ensures multiset(Neighbors(adj, x))[(y, w)] == multiset(Neighbors(adj, y))[(x, w)]
  {
    if x in adj && y !in adj {
      assert (y, w) !in adj[x];
    } else if y in adj && x !in adj {
      assert (x, w) !in adj[y];
    }
  }

  /** Inserting an edge keeps every named neighbour a key. */
  lemma WithEdgeClosed(adj: Adjacency, u: Vertex, v: Vertex, w: nat)
    requires Closed(adj)
    ensures Closed(WithEdge(adj, u, v, w))
  {
    var adj' := WithEdge(adj, u, v, w);
    forall x: Vertex, a: Arc | x in adj' && a in adj'[x] ensures a.0 in adj' {
      if x != u && x != v {
        assert a in adj[x];
      } else if a !in Neighbors(adj, x) {
        assert a == (v, w) || a == (u, w);
      }
    }
  }

  /** Inserting an edge keeps the arcs paired in both directions. */
  lemma WithEdgeUndirected(adj: Adjacency, u: Vertex, v: Vertex, w: nat)
    requires Closed(adj) && Undirected(adj)
    ensures Undirected(WithEdge(adj, u, v, w))
  {
    var adj' := WithEdge(adj, u, v, w);
    forall x: Vertex, y: Vertex, w': nat | x in adj' && y in adj'
      ensures multiset(adj'[x])[(y, w')] == multiset(adj'[y])[(x, w')]
    {
      WithEdgeCount(adj, u, v, w, x, y, w');
      WithEdgeCount(adj, u, v, w, y, x, w');
      NeighborsSymmetric(adj, x, y, w');
    }
  }

  class Graph {
    var adjacency: Adjacency

    ghost predicate Valid()
      reads this
    {
      Closed(adjacency) && Undirected(adjacency)
    }

    constructor ()
      ensures Valid() && adjacency == map[]
    {
      adjacency := map[];
    }

    /**
     * Inserts an undirected edge as two arcs: `(v, weight)` at the end of `u`'s list and
     * `(u, weight)` at the end of `v`'s list, creating empty lists first for vertices seen
     * for the first time. Nothing is deduplicated and no other list changes.
     */
    method AddEdge(u: Vertex, v: Vertex, weight: nat)
      requires Valid()
      modifies this
      ensures Valid()
      ensures adjacency == WithEdge(old(adjacency), u, v, weight)
    {
      WithEdgeClosed(adjacency, u, v, weight);
      WithEdgeUndirected(adjacency, u, v, weight);
      var adj := AppendArc(adjacency, u, (v, weight));
      adj := AppendArc(adj, v, (u, weight));
      adjacency := adj;
    }

    /** Appends arc `a` to the list of `x`, creating an empty list first if `x` has none. */
    static method AppendArc(adj: Adjacency, x: Vertex, a: Arc) returns (r: Adjacency)
      ensures r == AddArc(adj, x, a)
    {
      r := adj;
      if x !in r {
        r := r[x := []];
      }
      r := r[x := r[x] + [a]];
    }

    /**
     * The inner loop of `Dijkstra`: each arc `(neighbor, weight)` of the popped vertex `x`
     * is relaxed against its popped distance `d`; a strictly smaller `d + weight` is recorded
     * and pushed.
     */
    static method RelaxArcs(adj: Adjacency, start: Vertex, dist: map<Vertex, Distance>,
                            heap: multiset<(nat, Vertex)>, ghost done: set<Vertex>,
                            ghost via: map<Vertex, seq<Arc>>, x: Vertex, d: nat)
      returns (dist': map<Vertex, Distance>, heap': multiset<(nat, Vertex)>, ghost via': map<Vertex, seq<Arc>>)
      requires RelaxInv(adj, start, dist, heap, done, via, x, d, 0, dist)
      ensures RelaxInv(adj, start, dist', heap', done, via', x, d, |Neighbors(adj, x)|, dist)
    {
      dist', heap', via' := dist, heap, via;
      var arcs := Neighbors(adj, x);
      for i := 0 to |arcs|
        invariant RelaxInv(adj, start, dist', heap', done, via', x, d, i, dist)
      {
        var (neighbor, weight) := arcs[i];
        dist', heap', via' := RelaxArc(adj, start, dist', heap', done, via', x, d, i, dist, neighbor, weight);
      }
    }

    /**
     * One arc `(neighbor, weight)`, the one at `i` in the list of `x`: a strictly smaller
     * `d + weight` is recorded for `neighbor` and pushed; otherwise nothing changes.
     */
    static method RelaxArc(adj: Adjacency, start: Vertex, dist: map<Vertex, Distance>,
                           heap: multiset<(nat, Vertex)>, ghost done: set<Vertex>,
                           ghost via: map<Vertex, seq<Arc>>, x: Vertex, d: nat, ghost i: nat,
                           ghost before: map<Vertex, Distance>, neighbor: Vertex, weight: nat)
      returns (dist': map<Vertex, Distance>, heap': multiset<(nat, Vertex)>, ghost via': map<Vertex, seq<Arc>>)
      requires RelaxInv(adj, start, dist, heap, done, via, x, d, i, before)
      requires i < |Neighbors(adj, x)| && Neighbors(adj, x)[i] == (neighbor, weight)
      ensures RelaxInv(adj, start, dist', heap', done, via', x, d, i + 1, before)
    {
      assert x in adj && (neighbor, weight) in adj[x];
      var distance := d + weight;
      if Below(distance, dist[neighbor]) {
        RelaxLowers(adj, start, dist, heap, done, via, x, d, i, before, neighbor, weight, distance);
        dist' := dist[neighbor := Finite(distance)];
        heap' := heap + multiset{(distance, neighbor)};
        via' := via[neighbor := via[x] + [(neighbor, weight)]];
      } else {
        RelaxKeeps(adj, start, dist, heap, done, via, x, d, i, before, neighbor, weight);
        dist', heap', via' := dist, heap, via;
      }
    }

    /**
     * Dijkstra's algorithm with lazy deletion. Every vertex starts at infinity and `start`
     * at 0; the queue starts as `[(0, start)]`. An entry of least distance is popped; if its
     * distance exceeds the recorded one it is stale and skipped; otherwise each arc is
     * relaxed, and a strictly better distance is recorded and pushed.
     */
    method Dijkstra(start: Vertex) returns (distances: map<Vertex, Distance>)
      requires Valid()
      ensures Relaxed(adjacency, distances)
      ensures ShortestDistances(adjacency, start, distances)
    {
      var adj := adjacency;
      distances := map v | v in adj :: Infinity;
      distances := distances[start := Finite(0)];
      var heap: multiset<(nat, Vertex)> := multiset{(0, start)};
      ghost var done: set<Vertex> := {};
      ghost var low: nat := 0;
      ghost var via: map<Vertex, seq<Arc>> := map[start := []];
      InitialState(adj, start);

      while |heap| > 0
        invariant LoopInv(adj, start, distances, heap, done, low, via)
        decreases |distances.Keys - done|, |heap|
      {
        MinEntryExists(heap);
        var currentDist: nat, currentNode: Vertex :|
          (currentDist, currentNode) in heap && forall f | f in heap :: currentDist <= f.0;

        if Exceeds(currentDist, distances[currentNode]) {
          // A stale entry: a better distance was recorded after it was pushed.
          SkipStale(adj, start, distances, heap, done, low, via, (currentDist, currentNode));
          heap := heap - multiset{(currentDist, currentNode)};
          low := currentDist;
          continue;
        }
        SettleFresh(adj, start, distances, heap, done, low, via, currentDist, currentNode);
        SettleShrinks(distances.Keys, done, currentNode);
        heap := heap - multiset{(currentDist, currentNode)};
        low := currentDist;
        done := done + {currentNode};
        ghost var before := distances;

        distances, heap, via := RelaxArcs(adj, start, distances, heap, done, via, currentNode, currentDist);
        RelaxDone(adj, start, distances, heap, done, via, currentNode, currentDist, before);
      }
      Finished(adj, start, distances, done, low, via);
    }
  }

  /** The example graph: edges A-B 1, A-C 4, B-C 2, B-D 5, C-D 1 and D-E 3, in that order. */
  function ExampleGraph(): Adjacency
  {
    var g := WithEdge(map[], "A", "B", 1);
    var g := WithEdge(g, "A", "C", 4);
    var g := WithEdge(g, "B", "C", 2);
    var g := WithEdge(g, "B", "D", 5);
    var g := WithEdge(g, "C", "D", 1);
    WithEdge(g, "D", "E", 3)
  }

  /** The adjacency lists the example graph ends up with. */
  function ExampleLists(): Adjacency
  {
    map["A" := [("B", 1), ("C", 4)],
        "B" := [("A", 1), ("C", 2), ("D", 5)],
        "C" := [("A", 4), ("B", 2), ("D", 1)],
        "D" := [("B", 5), ("C", 1), ("E", 3)],
        "E" := [("D", 3)]]
  }

  /** Inserting example edge A-B 1. */
  lemma ExampleEdgeAB()
    ensures WithEdge(map[], "A", "B", 1)
         == map["A" := [("B", 1)], "B" := [("A", 1)]]
  {
    var g0: Adjacency := map[];
    assert Neighbors(g0, "A") + [("B", 1)] == [("B", 1)];
    var g1 := AddArc(g0, "A", ("B", 1));
    assert g1 == map["A" := [("B", 1)]];
    assert Neighbors(g1, "B") + [("A", 1)] == [("A", 1)];
    var g2 := AddArc(g1, "B", ("A", 1));
    assert g2 == map["A" := [("B", 1)], "B" := [("A", 1)]];
  }

  /** Inserting example edge A-C 4. */
  lemma ExampleEdgeAC()
    ensures WithEdge(map["A" := [("B", 1)], "B" := [("A", 1)]], "A", "C", 4)
         == map["A" := [("B", 1), ("C", 4)], "B" := [("A", 1)], "C" := [("A", 4)]]
  {
    var g0: Adjacency := map["A" := [("B", 1)], "B" := [("A", 1)]];
    assert Neighbors(g0, "A") + [("C", 4)] == [("B", 1), ("C", 4)];
    var g1 := AddArc(g0, "A", ("C", 4));
    assert g1 == map["A" := [("B", 1), ("C", 4)], "B" := [("A", 1)]];
    assert Neighbors(g1, "C") + [("A", 4)] == [("A", 4)];
    var g2 := AddArc(g1, "C", ("A", 4));
    assert g2 == map["A" := [("B", 1), ("C", 4)], "B" := [("A", 1)], "C" := [("A", 4)]];
  }

  /** Inserting example edge B-C 2. */
  lemma ExampleEdgeBC()
    ensures WithEdge(map["A" := [("B", 1), ("C", 4)], "B" := [("A", 1)], "C" := [("A", 4)]], "B", "C", 2)
         == map["A" := [("B", 1), ("C", 4)], "B" := [("A", 1), ("C", 2)], "C" := [("A", 4), ("B", 2)]]
  {
    var g0: Adjacency := map["A" := [("B", 1), ("C", 4)], "B" := [("A", 1)], "C" := [("A", 4)]];
    assert Neighbors(g0, "B") + [("C", 2)] == [("A", 1), ("C", 2)];
    var g1 := AddArc(g0, "B", ("C", 2));
    assert g1 == map["A" := [("B", 1), ("C", 4)], "B" := [("A", 1), ("C", 2)], "C" := [("A", 4)]];
    assert Neighbors(g1, "C") + [("B", 2)] == [("A", 4), ("B", 2)];
    var g2 := AddArc(g1, "C", ("B", 2));
    assert g2 == map["A" := [("B", 1), ("C", 4)], "B" := [("A", 1), ("C", 2)], "C" := [("A", 4), ("B", 2)]];
  }

  /** Inserting example edge B-D 5. */
  lemma ExampleEdgeBD()
    ensures WithEdge(map["A" := [("B", 1), ("C", 4)], "B" := [("A", 1), ("C", 2)], "C" := [("A", 4), ("B", 2)]], "B", "D", 5)
         == map["A" := [("B", 1), ("C", 4)], "B" := [("A", 1), ("C", 2), ("D", 5)], "C" := [("A", 4), ("B", 2)], "D" := [("B", 5)]]
  {
    var g0: Adjacency := map["A" := [("B", 1), ("C", 4)], "B" := [("A", 1), ("C", 2)], "C" := [("A", 4), ("B", 2)]];
    assert Neighbors(g0, "B") + [("D", 5)] == [("A", 1), ("C", 2), ("D", 5)];
    var g1 := AddArc(g0, "B", ("D", 5));
    assert g1 == map["A" := [("B", 1), ("C", 4)], "B" := [("A", 1), ("C", 2), ("D", 5)], "C" := [("A", 4), ("B", 2)]];
    assert Neighbors(g1, "D") + [("B", 5)] == [("B", 5)];
    var g2 := AddArc(g1, "D", ("B", 5));
    assert g2 == map["A" := [("B", 1), ("C", 4)], "B" := [("A", 1), ("C", 2), ("D", 5)], "C" := [("A", 4), ("B", 2)], "D" := [("B", 5)]];
  }

  /** Inserting example edge C-D 1. */
  lemma ExampleEdgeCD()
    ensures WithEdge(map["A" := [("B", 1), ("C", 4)], "B" := [("A", 1), ("C", 2), ("D", 5)], "C" := [("A", 4), ("B", 2)], "D" := [("B", 5)]], "C", "D", 1)
         == map["A" := [("B", 1), ("C", 4)], "B" := [("A", 1), ("C", 2), ("D", 5)], "C" := [("A", 4), ("B", 2), ("D", 1)], "D" := [("B", 5), ("C", 1)]]
  {
    var g0: Adjacency := map["A" := [("B", 1), ("C", 4)], "B" := [("A", 1), ("C", 2), ("D", 5)], "C" := [("A", 4), ("B", 2)], "D" := [("B", 5)]];
    assert Neighbors(g0, "C") + [("D", 1)] == [("A", 4), ("B", 2), ("D", 1)];
    var g1 := AddArc(g0, "C", ("D", 1));
    assert g1 == map["A" := [("B", 1), ("C", 4)], "B" := [("A", 1), ("C", 2), ("D", 5)], "C" := [("A", 4), ("B", 2), ("D", 1)], "D" := [("B", 5)]];
    assert Neighbors(g1, "D") + [("C", 1)] == [("B", 5), ("C", 1)];
    var g2 := AddArc(g1, "D", ("C", 1));
    assert g2 == map["A" := [("B", 1), ("C", 4)], "B" := [("A", 1), ("C", 2), ("D", 5)], "C" := [("A", 4), ("B", 2), ("D", 1)], "D" := [("B", 5), ("C", 1)]];
  }

  /** Inserting example edge D-E 3. */
  lemma ExampleEdgeDE()
    ensures WithEdge(map["A" := [("B", 1), ("C", 4)], "B" := [("A", 1), ("C", 2), ("D", 5)], "C" := [("A", 4), ("B", 2), ("D", 1)], "D" := [("B", 5), ("C", 1)]], "D", "E", 3)
         == map["A" := [("B", 1), ("C", 4)], "B" := [("A", 1), ("C", 2), ("D", 5)], "C" := [("A", 4), ("B", 2), ("D", 1)], "D" := [("B", 5), ("C", 1), ("E", 3)], "E" := [("D", 3)]]
  {
    var g0: Adjacency := map["A" := [("B", 1), ("C", 4)], "B" := [("A", 1), ("C", 2), ("D", 5)], "C" := [("A", 4), ("B", 2), ("D", 1)], "D" := [("B", 5), ("C", 1)]];
    assert Neighbors(g0, "D") + [("E", 3)] == [("B", 5), ("C", 1), ("E", 3)];
    var g1 := AddArc(g0, "D", ("E", 3));
    assert g1 == map["A" := [("B", 1), ("C", 4)], "B" := [("A", 1), ("C", 2), ("D", 5)], "C" := [("A", 4), ("B", 2), ("D", 1)], "D" := [("B", 5), ("C", 1), ("E", 3)]];
    assert Neighbors(g1, "E") + [("D", 3)] == [("D", 3)];
    var g2 := AddArc(g1, "E", ("D", 3));
    assert g2 == map["A" := [("B", 1), ("C", 4)], "B" := [("A", 1), ("C", 2), ("D", 5)], "C" := [("A", 4), ("B", 2), ("D", 1)], "D" := [("B", 5), ("C", 1), ("E", 3)], "E" := [("D", 3)]];
  }

  /** Inserting the six example edges in order builds exactly these lists. */
  lemma ExampleGraphLists()
    ensures ExampleGraph() == ExampleLists()
  {
    ExampleEdgeAB();
    ExampleEdgeAC();
    ExampleEdgeBC();
    ExampleEdgeBD();
    ExampleEdgeCD();
    ExampleEdgeDE();
  }

  /** The expected distances from A as plain numbers. */
  function ExamplePot(): map<Vertex, nat>
  {
    map["A" := 0, "B" := 1, "C" := 3, "D" := 4, "E" := 7]
  }

  /** Distances from A are a potential of the example graph: no arc shortens them. */
  lemma ExamplePotential()
    ensures Feasible(ExampleLists(), ExamplePot())
  {
    var adj := ExampleLists();
    forall u: Vertex, a: Arc | u in adj && a in adj[u]
      ensures u in ExamplePot() && a.0 in ExamplePot() && ExamplePot()[a.0] <= ExamplePot()[u] + a.1
    {
      assert u in {"A", "B", "C", "D", "E"};
      if u == "A" || u == "B" {
        ExamplePotentialAB(u, a);
      } else {
        ExamplePotentialCDE(u, a);
      }
    }
  }

  /** No arc leaving A or B shortens the example distances. */
  lemma ExamplePotentialAB(u: Vertex, a: Arc)
    requires (u == "A" || u == "B") && a in ExampleLists()[u]
    ensures u in ExamplePot() && a.0 in ExamplePot() && ExamplePot()[a.0] <= ExamplePot()[u] + a.1
  {
    if u == "A" {
      assert a in [("B", 1), ("C", 4)];
    } else {
      assert a in [("A", 1), ("C", 2), ("D", 5)];
    }
  }

  /** No arc leaving C, D or E shortens the example distances. */
  lemma ExamplePotentialCDE(u: Vertex, a: Arc)
    requires (u == "C" || u == "D" || u == "E") && a in ExampleLists()[u]
    ensures u in ExamplePot() && a.0 in ExamplePot() && ExamplePot()[a.0] <= ExamplePot()[u] + a.1
  {
    if u == "C" {
      assert a in [("A", 4), ("B", 2), ("D", 1)];
    } else if u == "D" {
      assert a in [("B", 5), ("C", 1), ("E", 3)];
    } else {
      assert a == ("D", 3);
    }
  }

  /** The distances the example prints: A 0, B 1, C 3, D 4 and E 7. */
  function ExampleExpected(): map<Vertex, Distance>
  {
    map["A" := Finite(0), "B" := Finite(1), "C" := Finite(3), "D" := Finite(4), "E" := Finite(7)]
  }

  /** Each example distance is the weight of a walk `hops` from A along A-B, B-C, C-D, D-E. */
  lemma ExampleWalks(v: Vertex) returns (hops: seq<Arc>)
    requires v in ExampleExpected()
    ensures IsWalk(ExampleLists(), "A", hops, v) && Weight(hops) == ExampleExpected()[v].value
  {
    var adj := ExampleLists();
    ExpectedIsPot(v);
    assert v in {"A", "B", "C", "D", "E"};
    hops := [];
    if v != "A" {
      hops := ExampleWalkStep(hops, "A", ("B", 1));
      if v != "B" {
        hops := ExampleWalkStep(hops, "B", ("C", 2));
        if v != "C" {
          hops := ExampleWalkStep(hops, "C", ("D", 1));
          if v != "D" {
            hops := ExampleWalkStep(hops, "D", ("E", 3));
          }
        }
      }
    }
  }

  /** A walk from A in the example lists, extended by an arc of the vertex it reaches. */
  lemma ExampleWalkStep(hops: seq<Arc>, u: Vertex, a: Arc) returns (longer: seq<Arc>)
    requires IsWalk(ExampleLists(), "A", hops, u) && u in ExampleLists() && a in ExampleLists()[u]
    ensures longer == hops + [a] && IsWalk(ExampleLists(), "A", longer, a.0) && Weight(longer) == Weight(hops) + a.1
  {
    WalkExtend(ExampleLists(), "A", hops, u, a);
    longer := hops + [a];
  }

  /** No walk from A in the example lists is shorter than the expected distance of its end. */
  lemma ExampleBounds(hops: seq<Arc>, v: Vertex)
    requires IsWalk(ExampleLists(), "A", hops, v)
    ensures v in ExampleExpected() && ExampleExpected()[v].Finite? && ExampleExpected()[v].value <= Weight(hops)
  {
    ExamplePotential();
    var pot := ExamplePot();
    assert "A" in pot && pot["A"] == 0;
    PotentialBoundsWalks(ExampleLists(), pot, "A", hops, v);
    ExpectedIsPot(v);
  }

  /** The expected distances are the potential's values, finite at every vertex. */
  lemma ExpectedIsPot(v: Vertex)
    requires v in ExamplePot()
    ensures v in ExampleExpected() && ExampleExpected()[v] == Finite(ExamplePot()[v])
  {
  }

  /** The example lists from A have exactly the expected shortest distances. */
  lemma ExampleListsDistances()
    ensures ShortestDistances(ExampleLists(), "A", ExampleExpected())
  {
    var adj := ExampleLists();
    var dist := ExampleExpected();
    assert dist.Keys == adj.Keys + {"A"};
    forall v | v in dist && dist[v].Finite?
      ensures exists hops :: IsWalk(adj, "A", hops, v) && Weight(hops) == dist[v].value
    {
      var hops := ExampleWalks(v);
    }
    forall hops, v | IsWalk(adj, "A", hops, v)
      ensures v in dist && dist[v].Finite? && dist[v].value <= Weight(hops)
    {
      ExampleBounds(hops, v);
    }
  }

  /**
   * The example of t3.py: after inserting its six edges, the distances from A are
   * A 0, B 1, C 3, D 4 and E 7, whatever order equal entries leave the queue in.
   */
  lemma ExampleDistances()
    ensures ShortestDistances(ExampleGraph(), "A", ExampleExpected())
  {
    ExampleGraphLists();
    ExampleListsDistances();
  }

  /** The example run of t3.py: six edges, then the distances from A. */
  method ExampleRun() returns (distances: map<Vertex, Distance>)
    ensures distances == ExampleExpected()
  {
    var graph := new Graph();
    graph.AddEdge("A", "B", 1);
    graph.AddEdge("A", "C", 4);
    graph.AddEdge("B", "C", 2);
    graph.AddEdge("B", "D", 5);
    graph.AddEdge("C", "D", 1);
    graph.AddEdge("D", "E", 3);
    assert graph.adjacency == ExampleGraph();
    distances := graph.Dijkstra("A");
    ExampleDistances();
    ShortestDistancesUnique(graph.adjacency, "A", distances, ExampleExpected());
  }
}
