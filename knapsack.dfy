/**
 * Choosing food items under a budget (t6.py): a greedy pass over the items in order of
 * calories per unit of cost, and an exact 0/1 knapsack table filled row by row and then
 * walked back to recover the chosen items.
 *
 * The item dictionary is a sequence of items in its insertion order. Costs and calories
 * are unbounded integers; the calories/cost ratio is an exact `real`.
 */
module Knapsack {
  import opened Wrappers
  import opened Sequences
  import StableSort

  /** A menu entry: its name (the dictionary key), its cost and its calories. */
  datatype Item = Item(name: string, cost: int, calories: int)

  /** The errors the two procedures can raise. */
  datatype Error =
    | ZeroDivisionError  // a ratio with cost 0
    | IndexError         // a table cell outside its row

  /** The names of the items, in order. */
  function Names(s: seq<Item>): seq<string>
  {
    seq(|s|, k requires 0 <= k < |s| => s[k].name)
  }

  /** The sum of the costs of the items. */
  function TotalCost(s: seq<Item>): int
  {
    if s == [] then 0 else TotalCost(s[..|s| - 1]) + s[|s| - 1].cost
  }

  /** The sum of the calories of the items. */
  function TotalCalories(s: seq<Item>): int
  {
    if s == [] then 0 else TotalCalories(s[..|s| - 1]) + s[|s| - 1].calories
  }

  /** Costs and calories add up over a concatenation. */
  lemma {:induction false} TotalsAppend(a: seq<Item>, b: seq<Item>)
    ensures TotalCost(a + b) == TotalCost(a) + TotalCost(b)
    ensures TotalCalories(a + b) == TotalCalories(a) + TotalCalories(b)
    decreases |b|
  {
    if b == [] {
      assert a + b == a;
    } else {
      var c := b[..|b| - 1];
      assert (a + b)[..|a + b| - 1] == a + c;
      TotalsAppend(a, c);
    }
  }

  /** Items that all cost something non-negative cost something non-negative together. */
  lemma {:induction false} TotalCostNonNegative(s: seq<Item>)
    requires forall k | 0 <= k < |s| :: s[k].cost >= 0
    ensures TotalCost(s) >= 0
    decreases |s|
  {
    if s != [] {
      TotalCostNonNegative(s[..|s| - 1]);
    }
  }

  /** The items whose flag in `m` is set, in their order in `s`. */
  function Select(s: seq<Item>, m: seq<bool>): (r: seq<Item>)
    requires |m| == |s|
    ensures |r| <= |s|
  {
    if s == [] then []
    else Select(s[..|s| - 1], m[..|m| - 1]) + (if m[|m| - 1] then [s[|s| - 1]] else [])
  }

  /** Selecting from `[x] + s` with flag `b` for `x`. */
  lemma {:induction false} SelectCons(x: Item, s: seq<Item>, b: bool, m: seq<bool>)
    requires |m| == |s|
    ensures Select([x] + s, [b] + m) == (if b then [x] else []) + Select(s, m)
    decreases |s|
  {
    var xs, bm := [x] + s, [b] + m;
    if s == [] {
      assert xs[..0] == [] && bm[..0] == [];
    } else {
      var t, n := s[..|s| - 1], m[..|m| - 1];
      assert xs[..|xs| - 1] == [x] + t && bm[..|bm| - 1] == [b] + n;
      SelectCons(x, t, b, n);
      StableSort.AppendAssoc(if b then [x] else [], Select(t, n), if m[|m| - 1] then [s[|s| - 1]] else []);
    }
  }

  // ---------------------------------------------------------------------------------
  // Greedy selection (greedy_algorithm)
  // ---------------------------------------------------------------------------------

  /** Calories per unit of cost; only ever asked of items whose cost is not 0. */
  function Ratio(x: Item): real
  {
    if x.cost == 0 then 0.0 else x.calories as real / x.cost as real
  }

  /** The sort key that orders items by non-increasing ratio. */
  function RatioKey(x: Item): real
  {
    -Ratio(x)
  }

  /**
   * The items by non-increasing ratio, items of equal ratio in their dictionary order:
   * what the stable `sorted(..., reverse=True)` yields.
   */
  function ByRatio(items: seq<Item>): seq<Item>
  {
    StableSort.MergeSort(items, RatioKey)
  }

  /** The greedy order is a rearrangement of the items by non-increasing ratio, stable on ties. */
  lemma ByRatioSpec(items: seq<Item>)
    ensures multiset(ByRatio(items)) == multiset(items)
    ensures forall i, j | 0 <= i < j < |ByRatio(items)| :: Ratio(ByRatio(items)[j]) <= Ratio(ByRatio(items)[i])
    ensures forall k :: StableSort.Tied(RatioKey, k, ByRatio(items)) == StableSort.Tied(RatioKey, k, items)
  {
    var s := ByRatio(items);
    StableSort.MergeSortSorted(items, RatioKey);
    forall i, j | 0 <= i < j < |s| ensures Ratio(s[j]) <= Ratio(s[i]) {
      assert RatioKey(s[i]) <= RatioKey(s[j]);
    }
    forall k ensures StableSort.Tied(RatioKey, k, s) == StableSort.Tied(RatioKey, k, items) {
      StableSort.MergeSortStable(items, RatioKey, k);
    }
  }

  /**
   * The items the greedy pass over `s` takes when it has already spent `total`: each item
   * is taken exactly when its cost added to what is spent so far stays within `budget`.
   */
  function Picks(s: seq<Item>, budget: int, total: int): seq<Item>
  {
    if s == [] then []
    else if total + s[0].cost <= budget then [s[0]] + Picks(s[1..], budget, total + s[0].cost)
    else Picks(s[1..], budget, total)
  }

  /**
   * `greedy_algorithm`: every ratio is computed when the items are sorted, so one item of
   * cost 0 raises ZeroDivisionError; otherwise the names of the greedy picks, in ratio order.
   */
  method Greedy(items: seq<Item>, budget: int) returns (r: Result<seq<string>, Error>)
    ensures r.Err? <==> exists k | 0 <= k < |items| :: items[k].cost == 0
    ensures r.Err? ==> r.error == ZeroDivisionError
    ensures r.Ok? ==> r.value == Names(Picks(ByRatio(items), budget, 0))
  {
    if exists k | 0 <= k < |items| :: items[k].cost == 0 {
      return Err(ZeroDivisionError);
    }
    var sortedItems := ByRatio(items);
    var totalCost := 0;
    var selected: seq<string> := [];
    ghost var picks := Picks(sortedItems, budget, 0);
    for i := 0 to |sortedItems|
      invariant Names(picks) == selected + Names(Picks(sortedItems[i..], budget, totalCost))
    {
      var item := sortedItems[i];
      if totalCost + item.cost <= budget {
        var nextSelected, nextCost := selected + [item.name], totalCost + item.cost;
        GreedyTakes(picks, selected, nextSelected, sortedItems, i, budget, totalCost, nextCost);
        selected, totalCost := nextSelected, nextCost;
      } else {
        GreedySkips(picks, selected, sortedItems, i, budget, totalCost);
      }
    }
    assert sortedItems[|sortedItems|..] == [];
    r := Ok(selected);
  }

  /** The greedy pass takes item `i` when it fits: its name joins the selection. */
  lemma GreedyTakes(picks: seq<Item>, selected: seq<string>, nextSelected: seq<string>, s: seq<Item>, i: nat,
                    budget: int, total: int, nextTotal: int)
    requires i < |s| && total + s[i].cost <= budget
    requires nextSelected == selected + [s[i].name] && nextTotal == total + s[i].cost
    requires Names(picks) == selected + Names(Picks(s[i..], budget, total))
    ensures Names(picks) == nextSelected + Names(Picks(s[i + 1..], budget, nextTotal))
  {
    var rest := Picks(s[i + 1..], budget, total + s[i].cost);
    assert s[i..][1..] == s[i + 1..];
    assert Picks(s[i..], budget, total) == [s[i]] + rest;
    assert Names([s[i]] + rest) == [s[i].name] + Names(rest);
  }

  /** The greedy pass skips item `i` when it does not fit: the selection stays as it is. */
  lemma GreedySkips(picks: seq<Item>, selected: seq<string>, s: seq<Item>, i: nat, budget: int, total: int)
    requires i < |s| && budget < total + s[i].cost
    requires Names(picks) == selected + Names(Picks(s[i..], budget, total))
    ensures Names(picks) == selected + Names(Picks(s[i + 1..], budget, total))
  {
    assert s[i..][1..] == s[i + 1..];
  }

  /**
   * The greedy picks are a selection from `s` in its order, each item at most once, and
   * item `k` is picked exactly when what the picks before it cost, plus its own cost,
   * stays within `budget`.
   */
  lemma {:induction false} GreedyDecisions(s: seq<Item>, budget: int, total: int) returns (m: seq<bool>)
    ensures |m| == |s| && Picks(s, budget, total) == Select(s, m)
    ensures forall k | 0 <= k < |s| :: m[k] <==> total + TotalCost(Select(s[..k], m[..k])) + s[k].cost <= budget
    decreases |s|
  {
    if s == [] {
      m := [];
    } else {
      var x := s[0];
      var take := total + x.cost <= budget;
      var next := if take then total + x.cost else total;
      var rest := GreedyDecisions(s[1..], budget, next);
      m := [take] + rest;
      PicksFollow(s, m, rest, x, take, budget, total, next);
      DecisionsFollow(s, m, rest, x, take, budget, total, next);
    }
  }

  /** The picks of the greedy pass over `s` are its first pick, if any, and those of the rest. */
  lemma PicksFollow(s: seq<Item>, m: seq<bool>, rest: seq<bool>, x: Item, take: bool,
                    budget: int, total: int, next: int)
    requires s != [] && x == s[0] && m == [take] + rest && |rest| == |s| - 1
    requires take == (total + x.cost <= budget)
    requires next == (if take then total + x.cost else total)
    requires Picks(s[1..], budget, next) == Select(s[1..], rest)
    ensures Picks(s, budget, total) == Select(s, m)
  {
    assert Picks(s, budget, total) == (if take then [x] else []) + Picks(s[1..], budget, next);
    SelectCons(x, s[1..], take, rest);
    assert [x] + s[1..] == s;
  }

  /** The decisions of the greedy pass over `s` are its first decision and those for the rest. */
  lemma DecisionsFollow(s: seq<Item>, m: seq<bool>, rest: seq<bool>, x: Item, take: bool,
                        budget: int, total: int, next: int)
    requires s != [] && x == s[0] && m == [take] + rest && |rest| == |s| - 1
    requires take == (total + x.cost <= budget)
    requires next == (if take then total + x.cost else total)
    requires forall k | 0 <= k < |s[1..]| ::
      rest[k] <==> next + TotalCost(Select(s[1..][..k], rest[..k])) + s[1..][k].cost <= budget
    ensures forall k | 0 <= k < |s| :: m[k] <==> total + TotalCost(Select(s[..k], m[..k])) + s[k].cost <= budget
  {
    forall k | 0 <= k < |s|
      ensures m[k] <==> total + TotalCost(Select(s[..k], m[..k])) + s[k].cost <= budget
    {
      if k > 0 {
        DecisionAt(s, m, rest, x, take, total, next, k);
        assert rest[k - 1] <==> next + TotalCost(Select(s[1..][..k - 1], rest[..k - 1])) + s[1..][k - 1].cost <= budget;
      } else {
        assert s[..0] == [] && m[..0] == [];
      }
    }
  }

  /** What the picks before item `k > 0` cost, read off the decisions for the rest after the first item. */
  lemma DecisionAt(s: seq<Item>, m: seq<bool>, rest: seq<bool>, x: Item, take: bool, total: int, next: int, k: nat)
    requires s != [] && x == s[0] && m == [take] + rest && |rest| == |s| - 1
    requires next == (if take then total + x.cost else total)
    requires 0 < k < |s|
    ensures s[1..][k - 1] == s[k] && m[k] == rest[k - 1]
    ensures total + TotalCost(Select(s[..k], m[..k])) == next + TotalCost(Select(s[1..][..k - 1], rest[..k - 1]))
  {
    var t, n := s[1..][..k - 1], rest[..k - 1];
    assert s[..k] == [x] + t && m[..k] == [take] + n;
    SelectCons(x, t, take, n);
    TotalsAppend(if take then [x] else [], Select(t, n));
    assert TotalCost([x]) == x.cost;
  }

  /** The greedy picks never cost more than `budget`, counting what was already spent. */
  lemma {:induction false} GreedyWithinBudget(s: seq<Item>, budget: int, total: int)
    ensures Picks(s, budget, total) == [] || total + TotalCost(Picks(s, budget, total)) <= budget
    decreases |s|
  {
    if s != [] {
      var x := s[0];
      if total + x.cost <= budget {
        var rest := Picks(s[1..], budget, total + x.cost);
        GreedyWithinBudget(s[1..], budget, total + x.cost);
        TotalsAppend([x], rest);
        assert TotalCost([x]) == x.cost;
      } else {
        GreedyWithinBudget(s[1..], budget, total);
      }
    }
  }

  // ---------------------------------------------------------------------------------
  // Exact table (dynamic_programming)
  // ---------------------------------------------------------------------------------

  /** The larger of two numbers. */
  function Max(a: int, b: int): int
  {
    if a >= b then a else b
  }

  /**
   * Cell `(i, w)` of the table: the most calories the first `i` items give within cost
   * `w`, by the recurrence of the source. It is never negative, since taking nothing is
   * allowed.
   */
  function Best(items: seq<Item>, i: nat, w: int): (r: int)
    requires i <= |items|
    ensures r >= 0
    decreases i
  {
    if i == 0 then 0
    else if items[i - 1].cost <= w then
      Max(Best(items, i - 1, w), Best(items, i - 1, w - items[i - 1].cost) + items[i - 1].calories)
    else Best(items, i - 1, w)
  }

  /**
   * The items the walk back through the table picks from the first `i` items, starting
   * at cost `w`: item `i - 1` is picked exactly when its cell differs from the one above,
   * and then the walk goes on at `w` less its cost. They come in dictionary order.
   */
  function Chosen(items: seq<Item>, i: nat, w: int): seq<Item>
    requires i <= |items|
    decreases i
  {
    if i == 0 then []
    else if Best(items, i, w) != Best(items, i - 1, w) then Chosen(items, i - 1, w - items[i - 1].cost) + [items[i - 1]]
    else Chosen(items, i - 1, w)
  }

  /** A cell that differs from the one above comes from taking item `i - 1`, which then fits. */
  lemma BestTaken(items: seq<Item>, i: nat, w: int)
    requires 0 < i <= |items| && Best(items, i, w) != Best(items, i - 1, w)
    ensures items[i - 1].cost <= w
    ensures Best(items, i, w) == Best(items, i - 1, w - items[i - 1].cost) + items[i - 1].calories
  {
  }

  /** Where item `i - 1` fits, cell `(i, w)` is at least what taking it gives. */
  lemma BestTakes(items: seq<Item>, i: nat, w: int)
    requires 0 < i <= |items| && items[i - 1].cost <= w
    ensures Best(items, i, w) >= Best(items, i - 1, w - items[i - 1].cost) + items[i - 1].calories
  {
  }

  /** Row `r` of `dp` holds `Best` for every cost from 0 to `budget`. */
  ghost predicate RowFilled(dp: array2<int>, items: seq<Item>, r: nat, budget: int)
    requires r < dp.Length0 && r <= |items| && dp.Length1 == budget + 1
    reads dp
  {
    forall w | 0 <= w <= budget :: dp[r, w] == Best(items, r, w)
  }

  /** The chosen items are a selection from the first `i` items: each at most once, in their order. */
  lemma {:induction false} ChosenIsSelection(items: seq<Item>, i: nat, w: int) returns (m: seq<bool>)
    requires i <= |items|
    ensures |m| == i && Chosen(items, i, w) == Select(items[..i], m)
    decreases i
  {
    if i == 0 {
      m := [];
    } else {
      var taken := Best(items, i, w) != Best(items, i - 1, w);
      var p := ChosenIsSelection(items, i - 1, if taken then w - items[i - 1].cost else w);
      m := p + [taken];
      assert items[..i][..i - 1] == items[..i - 1] && m[..i - 1] == p;
    }
  }

  /** Selected items of non-negative cost cost something non-negative together. */
  lemma {:induction false} SelectCostNonNegative(s: seq<Item>, m: seq<bool>)
    requires |m| == |s| && forall k | 0 <= k < |s| :: s[k].cost >= 0
    ensures TotalCost(Select(s, m)) >= 0
    decreases |s|
  {
    if s != [] {
      var t, p := s[..|s| - 1], m[..|m| - 1];
      SelectCostNonNegative(t, p);
      TotalsAppend(Select(t, p), if m[|m| - 1] then [s[|s| - 1]] else []);
      assert TotalCost([s[|s| - 1]]) == s[|s| - 1].cost;
    }
  }

  /** With costs non-negative and `w >= 0`, the chosen items fit in `w` and give exactly `Best`. */
  lemma {:induction false} ChosenAchievesBest(items: seq<Item>, i: nat, w: int)
    requires i <= |items| && w >= 0 && forall k | 0 <= k < i :: items[k].cost >= 0
    ensures TotalCost(Chosen(items, i, w)) <= w
    ensures TotalCalories(Chosen(items, i, w)) == Best(items, i, w)
    decreases i
  {
    if i > 0 {
      var x := items[i - 1];
      if Best(items, i, w) != Best(items, i - 1, w) {
        BestTaken(items, i, w);
        var before := Chosen(items, i - 1, w - x.cost);
        assert Chosen(items, i, w) == before + [x];
        ChosenAchievesBest(items, i - 1, w - x.cost);
        assert (before + [x])[..|before|] == before;
        assert TotalCost(before + [x]) == TotalCost(before) + x.cost;
        assert TotalCalories(before + [x]) == TotalCalories(before) + x.calories;
      } else {
        assert Chosen(items, i, w) == Chosen(items, i - 1, w);
        ChosenAchievesBest(items, i - 1, w);
      }
    }
  }

  /** With costs non-negative, no selection from the first `i` items that fits in `w` beats `Best`. */
  lemma {:induction false} BestIsMaximal(items: seq<Item>, i: nat, w: int, m: seq<bool>)
    requires i <= |items| && |m| == i && forall k | 0 <= k < i :: items[k].cost >= 0
    requires TotalCost(Select(items[..i], m)) <= w
    ensures TotalCalories(Select(items[..i], m)) <= Best(items, i, w)
    decreases i
  {
    if i > 0 {
      var x, p := items[i - 1], m[..i - 1];
      var s := items[..i];
      assert s[..i - 1] == items[..i - 1] && s[i - 1] == x;
      var before := Select(items[..i - 1], p);
      SelectCostNonNegative(items[..i - 1], p);
      if m[i - 1] {
        assert Select(s, m) == before + [x];
        assert (before + [x])[..|before|] == before;
        BestIsMaximal(items, i - 1, w - x.cost, p);
        BestTakes(items, i, w);
      } else {
        assert Select(s, m) == before;
        BestIsMaximal(items, i - 1, w, p);
      }
    }
  }

  /**
   * What `dynamic_programming` promises: with costs non-negative and a non-negative budget
   * the chosen items fit in the budget, and no selection of the items that fits gives more
   * calories.
   */
  lemma DynamicProgrammingOptimal(items: seq<Item>, budget: int, m: seq<bool>)
    requires budget >= 0 && forall k | 0 <= k < |items| :: items[k].cost >= 0
    requires |m| == |items| && TotalCost(Select(items, m)) <= budget
    ensures TotalCost(Chosen(items, |items|, budget)) <= budget
    ensures TotalCalories(Select(items, m)) <= TotalCalories(Chosen(items, |items|, budget))
  {
    assert items[..|items|] == items;
    ChosenAchievesBest(items, |items|, budget);
    BestIsMaximal(items, |items|, budget, m);
  }

  /**
   * One row of the table (the inner loop of `dynamic_programming`): cell `(i, w)` is
   * `dp[i - 1][w]`, or the larger of that and the cell `cost` to the left plus the item's
   * calories when the item fits. A negative cost makes that cell lie past the end of the
   * row at `w = budget` at the latest, which raises IndexError.
   */
  method FillRow(dp: array2<int>, items: seq<Item>, i: nat, budget: int) returns (ok: bool)
    requires 1 <= i < dp.Length0 == |items| + 1 && dp.Length1 == budget + 1 && budget >= 0
    requires RowFilled(dp, items, i - 1, budget)
    modifies dp
    ensures ok <==> items[i - 1].cost >= 0
    ensures ok ==> RowFilled(dp, items, i, budget)
    ensures forall r, w | 0 <= r < dp.Length0 && 0 <= w < dp.Length1 && r != i :: dp[r, w] == old(dp[r, w])
  {
    var cost, calories := items[i - 1].cost, items[i - 1].calories;
    for w := 0 to budget + 1
      invariant forall v | 0 <= v < w :: dp[i, v] == Best(items, i, v)
      invariant forall r, v | 0 <= r < dp.Length0 && 0 <= v < dp.Length1 && r != i :: dp[r, v] == old(dp[r, v])
      invariant cost < 0 && w > 0 ==> w - 1 - cost <= budget
    {
      if cost <= w {
        if w - cost > budget {
          return false;
        }
        dp[i, w] := Max(dp[i - 1, w], dp[i - 1, w - cost] + calories);
      } else {
        dp[i, w] := dp[i - 1, w];
      }
    }
    ok := true;
  }

  /**
   * `dynamic_programming`: the table of `Best` for every `i <= n` and `0 <= w <= budget`,
   * then the walk back from `(n, budget)`, the names in dictionary order. A negative budget
   * leaves every row empty, so the walk back fails at its first cell when there is an item;
   * a negative cost fails while its row is filled.
   */
  method DynamicProgramming(items: seq<Item>, budget: int) returns (r: Result<seq<string>, Error>)
    ensures r.Err? <==> |items| > 0 && (budget < 0 || exists k | 0 <= k < |items| :: items[k].cost < 0)
    ensures r.Err? ==> r.error == IndexError
    ensures r.Ok? ==> r.value == Names(Chosen(items, |items|, budget))
  {
    var n := |items|;
    if budget < 0 {
      if n > 0 {
        return Err(IndexError);
      }
      return Ok([]);
    }
    var dp := new int[n + 1, budget + 1]((_, _) => 0);
    for i := 1 to n + 1
      invariant forall j, w | 0 <= j < i && 0 <= w <= budget :: dp[j, w] == Best(items, j, w)
      invariant forall k | 0 <= k < i - 1 :: items[k].cost >= 0
    {
      assert RowFilled(dp, items, i - 1, budget);
      var ok := FillRow(dp, items, i, budget);
      if !ok {
        return Err(IndexError);
      }
    }
    var selected := Backtrack(dp, items, budget);
    r := Ok(selected);
  }

  /**
   * The walk back of `dynamic_programming`: from row `n` up, an item whose cell differs
   * from the one above is appended and its cost taken off `w`, which never goes negative;
   * the appended names are finally reversed into dictionary order.
   */
  method Backtrack(dp: array2<int>, items: seq<Item>, budget: int) returns (selected: seq<string>)
    requires dp.Length0 == |items| + 1 && dp.Length1 == budget + 1 && budget >= 0
    requires forall i, w | 0 <= i <= |items| && 0 <= w <= budget :: dp[i, w] == Best(items, i, w)
    requires forall k | 0 <= k < |items| :: items[k].cost >= 0
    ensures selected == Names(Chosen(items, |items|, budget))
  {
    var w := budget;
    var picked: seq<string> := [];
    var i := |items|;
    while i > 0
      invariant 0 <= i <= |items| && 0 <= w <= budget
      invariant Names(Chosen(items, |items|, budget)) == Names(Chosen(items, i, w)) + Reversed(picked)
      decreases i
    {
      if dp[i, w] != dp[i - 1, w] {
        BacktrackTakes(items, budget, i, w, picked);
        picked := picked + [items[i - 1].name];
        w := w - items[i - 1].cost;
      } else {
        BacktrackSkips(items, budget, i, w, picked);
      }
      i := i - 1;
    }
    selected := Reversed(picked);
  }

  /** Picking item `i - 1` on the walk back: its name goes to the end of `picked`. */
  lemma BacktrackTakes(items: seq<Item>, budget: int, i: nat, w: int, picked: seq<string>)
    requires 0 < i <= |items| && Best(items, i, w) != Best(items, i - 1, w)
    requires Names(Chosen(items, |items|, budget)) == Names(Chosen(items, i, w)) + Reversed(picked)
    ensures items[i - 1].cost <= w
    ensures Names(Chosen(items, |items|, budget))
         == Names(Chosen(items, i - 1, w - items[i - 1].cost)) + Reversed(picked + [items[i - 1].name])
  {
    var before := Chosen(items, i - 1, w - items[i - 1].cost);
    assert Names(before + [items[i - 1]]) == Names(before) + [items[i - 1].name];
    assert (picked + [items[i - 1].name])[..|picked|] == picked;
  }

  /** Passing over item `i - 1` on the walk back. */
  lemma BacktrackSkips(items: seq<Item>, budget: int, i: nat, w: int, picked: seq<string>)
    requires 0 < i <= |items| && Best(items, i, w) == Best(items, i - 1, w)
    requires Names(Chosen(items, |items|, budget)) == Names(Chosen(items, i, w)) + Reversed(picked)
    ensures Names(Chosen(items, |items|, budget)) == Names(Chosen(items, i - 1, w)) + Reversed(picked)
  {
  }
}
