/**
 * transitioningGreedyKnapsack: two phases over one knapsack.  Phase 1 scans
 * the items by descending value and takes an item while the total stays
 * within 40% of the capacity, erasing each taken item from the sorted copy
 * in place.  Phase 2 re-sorts what is left by descending score and adds
 * every item that still fits the whole capacity.
 */
module TransitioningGreedy {
  import opened Items
  import opened Optimum
  import opened Comparators
  import opened Sorting
  import opened Scan

  /** What phase 1 leaves in the sorted copy is valid input for the second sort. */
  lemma LeftoversValid(o: seq<Item>, capacity: int)
    requires ValidItems(o)
    ensures ValidItems(Leftovers(FortyPercent, o, capacity, 0))
  {
    AcceptedSubMultiset(FortyPercent, o, capacity, 0);
    SubMultisetValid(Leftovers(FortyPercent, o, capacity, 0), o);
  }

  /** The value phase 1 collects over the value order. */
  function FirstPhaseValue(capacity: int, items: seq<Item>): int
    requires ValidItems(items)
  {
    Gained(FortyPercent, Sort(items, ByValue), capacity, 0)
  }

  /** The value the heuristic returns: phase 1, then first fit over the score-sorted leftovers. */
  function TransitioningGreedyValue(capacity: int, items: seq<Item>): (r: int)
    requires ValidItems(items)
    ensures FirstPhaseValue(capacity, items) <= r
    ensures 0 <= r <= Opt(items, capacity)
  {
    var o := Sort(items, ByValue);
    SubMultisetValid(o, items);
    LeftoversValid(o, capacity);
    var rest := Sort(Leftovers(FortyPercent, o, capacity, 0), ByScore);
    TwoPhaseAtMostOpt(items, o, rest, capacity);
    Gained(FortyPercent, o, capacity, 0) + Gained(FitsCapacity, rest, capacity, Used(FortyPercent, o, capacity, 0))
  }

  /**
   * Whatever order phase 1 scans and phase 2 re-sorts into, the two phases
   * together take a feasible sub-multiset of the items, and phase 2 only
   * adds value.
   */
  lemma TwoPhaseAtMostOpt(items: seq<Item>, o: seq<Item>, rest: seq<Item>, capacity: int)
    requires ValidItems(items) && multiset(o) == multiset(items)
    requires multiset(rest) == multiset(Leftovers(FortyPercent, o, capacity, 0))
    ensures var g1 := Gained(FortyPercent, o, capacity, 0);
      var g2 := Gained(FitsCapacity, rest, capacity, Used(FortyPercent, o, capacity, 0));
      0 <= g1 <= g1 + g2 <= Opt(items, capacity)
  {
    var w1 := Used(FortyPercent, o, capacity, 0);
    var taken1 := Accepted(FortyPercent, o, capacity, 0);
    var taken2 := Accepted(FitsCapacity, rest, capacity, w1);
    SubMultisetValid(o, items);
    LeftoversPartition(FortyPercent, o, capacity, 0);
    AcceptedSubMultiset(FitsCapacity, rest, capacity, w1);
    SubMultisetValid(taken1, items);
    SubMultisetValid(rest, o);
    SubMultisetValid(taken2, rest);
    ScanTotals(FortyPercent, o, capacity, 0);
    ScanTotals(FitsCapacity, rest, capacity, w1);
    SumsNonNegative(taken1);
    SumsNonNegative(taken2);
    UsedBounds(FortyPercent, o, capacity, 0);
    UsedBounds(FitsCapacity, rest, capacity, w1);
    var chosen := taken1 + taken2;
    assert multiset(chosen) <= multiset(items) by {
      assert multiset(chosen) == multiset(taken1) + multiset(taken2);
    }
    SubMultisetValid(chosen, items);
    SumsAppend(taken1, taken2);
    if w1 + SumWeights(taken2) <= capacity {
      OptUpperBound(items, capacity, chosen);
    } else if w1 <= capacity {
      OptUpperBound(items, capacity, taken1);
    }
  }

  /** Phase 1 keeps the knapsack within 40% of a non-negative capacity. */
  lemma {:induction false} FirstPhaseWithinForty(s: seq<Item>, capacity: int)
    requires ValidItems(s) && capacity >= 0
    ensures 0 <= 10 * Used(FortyPercent, s, capacity, 0) <= 4 * capacity
    decreases |s|
  {
    if |s| > 0 {
      var n := |s| - 1;
      assert s[n] in s;
      SliceValid(s, 0, n);
      FirstPhaseWithinForty(s[..n], capacity);
    }
  }

  /**
   * The load stays within 40% of the capacity after phase 1 and within the
   * capacity after phase 2, whatever order the leftovers are re-sorted into.
   */
  lemma TwoPhaseFeasible(o: seq<Item>, rest: seq<Item>, capacity: int)
    requires ValidItems(o) && capacity >= 0
    requires multiset(rest) == multiset(Leftovers(FortyPercent, o, capacity, 0))
    ensures var w1 := Used(FortyPercent, o, capacity, 0);
      0 <= 10 * w1 <= 4 * capacity && w1 <= Used(FitsCapacity, rest, capacity, w1) <= capacity
  {
    var w1 := Used(FortyPercent, o, capacity, 0);
    FirstPhaseWithinForty(o, capacity);
    LeftoversValid(o, capacity);
    SubMultisetValid(rest, Leftovers(FortyPercent, o, capacity, 0));
    ScanFeasible(FitsCapacity, rest, capacity, w1);
  }

  method TransitioningGreedyKnapsack(capacity: int, items: seq<Item>) returns (totalValue: int)
    requires ValidItems(items)
    ensures totalValue == TransitioningGreedyValue(capacity, items)
    ensures FirstPhaseValue(capacity, items) <= totalValue <= Opt(items, capacity)
  {
    var sortedItems := Sort(items, ByValue);
    ghost var o := sortedItems;
    var currentWeight;
    sortedItems, currentWeight, totalValue := FirstPhase(sortedItems, capacity);

    SubMultisetValid(o, items);
    LeftoversValid(o, capacity);
    var leftovers := Sort(sortedItems, ByScore);
    var phaseOneValue := totalValue;
    totalValue, currentWeight := FirstFitPass(leftovers, capacity, currentWeight, phaseOneValue);
  }

  /**
   * Phase 1 on the value-sorted copy: an accepted item is erased in place
   * and the index stays put (the C++ steps it back and the loop steps it
   * forward again), so every original item is examined once.
   */
  method FirstPhase(o: seq<Item>, capacity: int) returns (sortedItems: seq<Item>, currentWeight: int, totalValue: int)
    ensures sortedItems == Leftovers(FortyPercent, o, capacity, 0)
    ensures currentWeight == Used(FortyPercent, o, capacity, 0)
    ensures totalValue == Gained(FortyPercent, o, capacity, 0)
  {
    sortedItems := o;
    ghost var k := 0;
    totalValue := 0;
    currentWeight := 0;
    var i := 0;
    while i < |sortedItems|
      invariant 0 <= k <= |o|
      invariant sortedItems == Leftovers(FortyPercent, o[..k], capacity, 0) + o[k..]
      invariant i == |Leftovers(FortyPercent, o[..k], capacity, 0)|
      invariant currentWeight == Used(FortyPercent, o[..k], capacity, 0)
      invariant totalValue == Gained(FortyPercent, o[..k], capacity, 0)
      decreases |sortedItems| - i
    {
      ghost var before := Leftovers(FortyPercent, o[..k], capacity, 0);
      ghost var after := Leftovers(FortyPercent, o[..k + 1], capacity, 0);
      assert sortedItems[i] == o[k];
      ScanStep(FortyPercent, o, capacity, 0, k);
      LeftoversStep(FortyPercent, o, capacity, 0, k);
      if 10 * (currentWeight + sortedItems[i].weight) <= 4 * capacity {
        assert after == before;
        currentWeight := currentWeight + sortedItems[i].weight;
        totalValue := totalValue + sortedItems[i].value;
        EraseAt(before, o, k);
        sortedItems := sortedItems[..i] + sortedItems[i + 1..];
        assert sortedItems == after + o[k + 1..];
      } else {
        assert after == before + [o[k]];
        SkipAt(before, o, k);
        i := i + 1;
        assert sortedItems == after + o[k + 1..];
      }
      k := k + 1;
    }
    assert k == |o| && o[..k] == o;
  }

  /** Erasing position |before| of before + o[k..] leaves before + o[k + 1..]. */
  lemma EraseAt(before: seq<Item>, o: seq<Item>, k: int)
    requires 0 <= k < |o|
    ensures var t := before + o[k..];
      t[..|before|] + t[|before| + 1..] == before + o[k + 1..]
  {
    var t := before + o[k..];
    assert t[..|before|] == before;
    assert t[|before| + 1..] == o[k + 1..];
  }

  /** Stepping past position |before| of before + o[k..] keeps the sequence. */
  lemma SkipAt(before: seq<Item>, o: seq<Item>, k: int)
    requires 0 <= k < |o|
    ensures before + o[k..] == (before + [o[k]]) + o[k + 1..]
  {
    assert o[k..] == [o[k]] + o[k + 1..];
  }
}
