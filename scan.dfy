/**
 * The single left-to-right scan that most greedy heuristics share: walk the
 * sorted items once and accept an item when the heuristic's rule admits it
 * on top of the weight accepted so far.  Used, Gained, Accepted and
 * Leftovers specify that scan by recursion on the scanned prefix;
 * FirstFitPass is the loop of standardGreedyKnapsack,
 * scoredGreedyKnapsack, both passes of maxOfTwoKnapsack and the second
 * phase of transitioningGreedyKnapsack.
 */
module Scan {
  import opened Items
  import opened Optimum

  /** The acceptance tests of the heuristics. */
  datatype Rule =
    | FitsCapacity   // currentWeight + weight <= capacity
    | Limited        // the two regimes of limitedGreedyKnapsack
    | FortyPercent   // currentWeight + weight <= 0.4 * capacity

  /**
   * Whether an item of weight w is accepted when used is already taken.
   * The double factors 0.4 and 0.8 are compared exactly: x <= 0.4 * c is
   * 10 * x <= 4 * c.
   */
  predicate Accepts(rule: Rule, used: int, capacity: int, w: int) {
    match rule
    case FitsCapacity => used + w <= capacity
    case Limited =>
      var remaining := capacity - used;
      (10 * remaining > 4 * capacity && 10 * w <= 8 * remaining) ||
      (10 * remaining <= 4 * capacity && w <= remaining)
    case FortyPercent => 10 * (used + w) <= 4 * capacity
  }

  /** The weight accepted after scanning all of s, starting from weight start. */
  function Used(rule: Rule, s: seq<Item>, capacity: int, start: int): int
    decreases |s|
  {
    if |s| == 0 then start
    else
      var n := |s| - 1;
      var used := Used(rule, s[..n], capacity, start);
      if Accepts(rule, used, capacity, s[n].weight) then used + s[n].weight else used
  }

  /** The value accepted after scanning all of s. */
  function Gained(rule: Rule, s: seq<Item>, capacity: int, start: int): int
    decreases |s|
  {
    if |s| == 0 then 0
    else
      var n := |s| - 1;
      var gained := Gained(rule, s[..n], capacity, start);
      if Accepts(rule, Used(rule, s[..n], capacity, start), capacity, s[n].weight) then gained + s[n].value
      else gained
  }

  /** The items the scan accepts, in their order. */
  function Accepted(rule: Rule, s: seq<Item>, capacity: int, start: int): seq<Item>
    decreases |s|
  {
    if |s| == 0 then []
    else
      var n := |s| - 1;
      var taken := Accepted(rule, s[..n], capacity, start);
      if Accepts(rule, Used(rule, s[..n], capacity, start), capacity, s[n].weight) then taken + [s[n]]
      else taken
  }

  /** The items the scan does not accept, in their order. */
  function Leftovers(rule: Rule, s: seq<Item>, capacity: int, start: int): seq<Item>
    decreases |s|
  {
    if |s| == 0 then []
    else
      var n := |s| - 1;
      var rest := Leftovers(rule, s[..n], capacity, start);
      if Accepts(rule, Used(rule, s[..n], capacity, start), capacity, s[n].weight) then rest
      else rest + [s[n]]
  }

  /** Accepted and left-over items together are exactly the scanned items. */
  lemma {:induction false} LeftoversPartition(rule: Rule, s: seq<Item>, capacity: int, start: int)
    ensures multiset(Accepted(rule, s, capacity, start)) + multiset(Leftovers(rule, s, capacity, start))
      == multiset(s)
    decreases |s|
  {
    if |s| > 0 {
      var n := |s| - 1;
      LeftoversPartition(rule, s[..n], capacity, start);
      PartitionSnoc(Accepted(rule, s[..n], capacity, start), Leftovers(rule, s[..n], capacity, start), s);
    }
  }

  /** Extending a split of all but the last item of s by that item, on either side, splits s. */
  lemma PartitionSnoc(taken: seq<Item>, rest: seq<Item>, s: seq<Item>)
    requires |s| > 0 && multiset(taken) + multiset(rest) == multiset(s[..|s| - 1])
    ensures multiset(taken + [s[|s| - 1]]) + multiset(rest) == multiset(s)
    ensures multiset(taken) + multiset(rest + [s[|s| - 1]]) == multiset(s)
  {
    assert s == s[..|s| - 1] + [s[|s| - 1]];
  }

  /** The scan accepts a sub-multiset of what it scans. */
  lemma AcceptedSubMultiset(rule: Rule, s: seq<Item>, capacity: int, start: int)
    ensures multiset(Accepted(rule, s, capacity, start)) <= multiset(s)
    ensures multiset(Leftovers(rule, s, capacity, start)) <= multiset(s)
  {
    LeftoversPartition(rule, s, capacity, start);
  }

  /** The running weight and value are those of the accepted items. */
  lemma {:induction false} ScanTotals(rule: Rule, s: seq<Item>, capacity: int, start: int)
    ensures Used(rule, s, capacity, start) == start + SumWeights(Accepted(rule, s, capacity, start))
    ensures Gained(rule, s, capacity, start) == SumValues(Accepted(rule, s, capacity, start))
    decreases |s|
  {
    if |s| > 0 {
      var n := |s| - 1;
      ScanTotals(rule, s[..n], capacity, start);
      SumsSnoc(Accepted(rule, s[..n], capacity, start), s[n]);
    }
  }

  /** What every rule accepts fits in the capacity. */
  lemma AcceptFits(rule: Rule, used: int, capacity: int, w: int)
    requires used >= 0 && w >= 0 && Accepts(rule, used, capacity, w)
    ensures used + w <= capacity
  {
  }

  /**
   * The scan never goes below its start, and either it has accepted nothing
   * of value or what it accepted fits in the capacity.
   */
  lemma {:induction false} UsedBounds(rule: Rule, s: seq<Item>, capacity: int, start: int)
    requires ValidItems(s) && start >= 0
    ensures start <= Used(rule, s, capacity, start)
    ensures (Used(rule, s, capacity, start) == start && Gained(rule, s, capacity, start) == 0) ||
            Used(rule, s, capacity, start) <= capacity
    decreases |s|
  {
    if |s| > 0 {
      var n := |s| - 1;
      assert s[n] in s;
      SliceValid(s, 0, n);
      UsedBounds(rule, s[..n], capacity, start);
      var used := Used(rule, s[..n], capacity, start);
      if Accepts(rule, used, capacity, s[n].weight) {
        AcceptFits(rule, used, capacity, s[n].weight);
      }
    }
  }

  /** A scan started within the capacity stays within it. */
  lemma {:induction false} ScanFeasible(rule: Rule, s: seq<Item>, capacity: int, start: int)
    requires ValidItems(s) && 0 <= start <= capacity
    ensures start <= Used(rule, s, capacity, start) <= capacity
  {
    UsedBounds(rule, s, capacity, start);
  }

  /** The running weight never decreases along the scan. */
  lemma {:induction false} UsedMonotone(rule: Rule, s: seq<Item>, capacity: int, start: int, k: int)
    requires ValidItems(s) && 0 <= k <= |s|
    ensures Used(rule, s[..k], capacity, start) <= Used(rule, s, capacity, start)
    decreases |s|
  {
    if k < |s| {
      var n := |s| - 1;
      assert s[..n][..k] == s[..k];
      assert s[n] in s;
      SliceValid(s, 0, n);
      UsedMonotone(rule, s[..n], capacity, start, k);
    } else {
      assert s[..k] == s;
    }
  }

  /** A scan from weight 0 over a rearrangement of the items is worth between 0 and the optimum. */
  lemma ScanAtMostOpt(rule: Rule, items: seq<Item>, sorted: seq<Item>, capacity: int)
    requires ValidItems(items) && multiset(sorted) == multiset(items)
    ensures 0 <= Gained(rule, sorted, capacity, 0) <= Opt(items, capacity)
  {
    var taken := Accepted(rule, sorted, capacity, 0);
    SubMultisetValid(sorted, items);
    ScanTotals(rule, sorted, capacity, 0);
    UsedBounds(rule, sorted, capacity, 0);
    AcceptedSubMultiset(rule, sorted, capacity, 0);
    SubMultisetValid(taken, items);
    SumsNonNegative(taken);
    if SumWeights(taken) <= capacity {
      OptUpperBound(items, capacity, taken);
    }
  }

  /**
   * First fit skips an item only when it does not fit, and the weight only
   * grows afterwards: each skipped item is too heavy on top of everything
   * finally accepted.
   */
  lemma FirstFitMaximal(s: seq<Item>, capacity: int, start: int, i: int)
    requires ValidItems(s) && 0 <= i < |s|
    requires !Accepts(FitsCapacity, Used(FitsCapacity, s[..i], capacity, start), capacity, s[i].weight)
    ensures Used(FitsCapacity, s, capacity, start) + s[i].weight > capacity
  {
    UsedMonotone(FitsCapacity, s, capacity, start, i);
  }

  /** One step of a scan: position i is decided on the weight accepted before it. */
  lemma ScanStep(rule: Rule, s: seq<Item>, capacity: int, start: int, i: int)
    requires 0 <= i < |s|
    ensures var used := Used(rule, s[..i], capacity, start);
      var b := Accepts(rule, used, capacity, s[i].weight);
      Used(rule, s[..i + 1], capacity, start) == (if b then used + s[i].weight else used) &&
      Gained(rule, s[..i + 1], capacity, start) ==
        (if b then Gained(rule, s[..i], capacity, start) + s[i].value else Gained(rule, s[..i], capacity, start))
  {
    assert s[..i + 1][..i] == s[..i];
  }

  /** One step of a scan, for the items it leaves over. */
  lemma LeftoversStep(rule: Rule, s: seq<Item>, capacity: int, start: int, i: int)
    requires 0 <= i < |s|
    ensures Leftovers(rule, s[..i + 1], capacity, start) ==
      if Accepts(rule, Used(rule, s[..i], capacity, start), capacity, s[i].weight)
      then Leftovers(rule, s[..i], capacity, start)
      else Leftovers(rule, s[..i], capacity, start) + [s[i]]
  {
    assert s[..i + 1][..i] == s[..i];
  }

  /**
   * The first-fit loop, continuing from an accepted weight and value:
   * accept each item that fits on top of the current weight, never stop
   * early.
   */
  method FirstFitPass(sorted: seq<Item>, capacity: int, startWeight: int, startValue: int)
    returns (totalValue: int, currentWeight: int)
    ensures totalValue == startValue + Gained(FitsCapacity, sorted, capacity, startWeight)
    ensures currentWeight == Used(FitsCapacity, sorted, capacity, startWeight)
    ensures ValidItems(sorted) && 0 <= startWeight <= capacity ==> startWeight <= currentWeight <= capacity
  {
    totalValue, currentWeight := startValue, startWeight;
    var i := 0;
    while i < |sorted|
      invariant 0 <= i <= |sorted|
      invariant totalValue == startValue + Gained(FitsCapacity, sorted[..i], capacity, startWeight)
      invariant currentWeight == Used(FitsCapacity, sorted[..i], capacity, startWeight)
    {
      ScanStep(FitsCapacity, sorted, capacity, startWeight, i);
      if currentWeight + sorted[i].weight <= capacity {
        currentWeight := currentWeight + sorted[i].weight;
        totalValue := totalValue + sorted[i].value;
      }
      i := i + 1;
    }
    assert sorted[..i] == sorted;
    if ValidItems(sorted) && 0 <= startWeight <= capacity {
      ScanFeasible(FitsCapacity, sorted, capacity, startWeight);
    }
  }
}
