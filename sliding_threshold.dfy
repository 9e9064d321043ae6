/**
 * slidingThresholdKnapsack: one scan over the items by descending ratio
 * with a threshold that starts at the first item's ratio and is multiplied
 * by 0.8 when few items have been selected late in the scan.  Each step
 * adds the item if it fits, possibly lowers the threshold, then subtracts
 * the item again when the knapsack is over capacity or the item's ratio is
 * at or below the threshold; the scan stops once the weight equals the
 * capacity.
 *
 * The subtraction does not check that the item was added.  Step with
 * corrected = false is the code as written; corrected = true subtracts
 * only an item added in the same step.
 */
module SlidingThreshold {
  import opened Items
  import opened Optimum
  import opened Comparators
  import opened Sorting

  /** The loop's variables: currentWeight, totalValue, threshold, selectedItems. */
  datatype Slide = Slide(currentWeight: int, totalValue: int, threshold: real, selected: seq<int>)

  /** static_cast<double>(value) / weight, exactly. */
  function Ratio(it: Item): real
    requires it.weight > 0
  {
    (it.value as real) / (it.weight as real)
  }

  /** selected.erase(std::remove(selected.begin(), selected.end(), i), selected.end()) */
  function Without(sel: seq<int>, i: int): (r: seq<int>)
    ensures forall k | 0 <= k < |r| :: r[k] != i
    decreases |sel|
  {
    if |sel| == 0 then []
    else
      var m := |sel| - 1;
      if sel[m] == i then Without(sel[..m], i) else Without(sel[..m], i) + [sel[m]]
  }

  /** The state before the loop: nothing taken, threshold at the first (best) ratio. */
  function Start(s: seq<Item>): Slide
    requires PositiveWeights(s) && |s| > 0
  {
    assert s[0] in s;
    Slide(0, 0, Ratio(s[0]), [])
  }

  /** Add item i if it fits. */
  function AddItem(s: seq<Item>, capacity: int, i: int, st: Slide): Slide
    requires 0 <= i < |s|
  {
    if st.currentWeight + s[i].weight <= capacity then
      Slide(st.currentWeight + s[i].weight, st.totalValue + s[i].value, st.threshold, st.selected + [i])
    else st
  }

  /** The two tightening tests on a sequence of n items. */
  function Tighten(n: int, i: int, st: Slide): Slide {
    if i > n / 4 && |st.selected| <= n / 4 then st.(threshold := st.threshold * 0.8)
    else if i > n / 2 && |st.selected| <= n / 8 then st.(threshold := st.threshold * 0.8)
    else st
  }

  /** One iteration of the loop body, without the exit test. */
  function Step(s: seq<Item>, capacity: int, i: int, st: Slide, corrected: bool): Slide
    requires PositiveWeights(s) && 0 <= i < |s|
  {
    assert s[i] in s;
    var added := st.currentWeight + s[i].weight <= capacity;
    var next := Tighten(|s|, i, AddItem(s, capacity, i, st));
    if (added || !corrected) && (next.currentWeight > capacity || Ratio(s[i]) <= next.threshold) then
      Slide(next.currentWeight - s[i].weight, next.totalValue - s[i].value, next.threshold, Without(next.selected, i))
    else next
  }

  /** The loop from position i on: a step, then stop once the weight equals the capacity. */
  function Run(s: seq<Item>, capacity: int, i: int, st: Slide, corrected: bool): Slide
    requires PositiveWeights(s) && 0 <= i <= |s|
    decreases |s| - i
  {
    if i == |s| then st
    else
      var next := Step(s, capacity, i, st, corrected);
      if next.currentWeight == capacity then next else Run(s, capacity, i + 1, next, corrected)
  }

  lemma SortKeepsShape(items: seq<Item>, ord: Order)
    requires PositiveWeights(items)
    ensures ValidItems(items)
    ensures PositiveWeights(Sort(items, ord)) && |Sort(items, ord)| == |items|
  {
    var s := Sort(items, ord);
    SubMultisetPositive(s, items);
    assert |s| == |multiset(s)| == |multiset(items)| == |items|;
  }

  /** The value slidingThresholdKnapsack returns, as written. */
  function SlidingThresholdValue(capacity: int, items: seq<Item>): int
    requires PositiveWeights(items) && |items| > 0
  {
    SortKeepsShape(items, ByRatio);
    var s := Sort(items, ByRatio);
    Run(s, capacity, 0, Start(s), false).totalValue
  }

  /** The value with the subtraction limited to an item added in the same step. */
  function CorrectedValue(capacity: int, items: seq<Item>): (r: int)
    requires PositiveWeights(items) && |items| > 0
    ensures 0 <= r <= Opt(items, capacity)
  {
    SortKeepsShape(items, ByRatio);
    var s := Sort(items, ByRatio);
    CorrectedAtMostOpt(items, s, capacity);
    Run(s, capacity, 0, Start(s), true).totalValue
  }

  method SlidingThresholdKnapsack(capacity: int, items: seq<Item>) returns (totalValue: int)
    requires PositiveWeights(items) && |items| > 0
    ensures totalValue == SlidingThresholdValue(capacity, items)
  {
    SortKeepsShape(items, ByRatio);
    var sortedItems := Sort(items, ByRatio);
    totalValue := SlideLoop(sortedItems, capacity);
  }

  /** The loop of slidingThresholdKnapsack over the sorted items. */
  method SlideLoop(sortedItems: seq<Item>, capacity: int) returns (totalValue: int)
    requires PositiveWeights(sortedItems) && |sortedItems| > 0
    ensures totalValue == Run(sortedItems, capacity, 0, Start(sortedItems), false).totalValue
  {
    totalValue := 0;
    var currentWeight := 0;
    var selectedItems: seq<int> := [];
    assert sortedItems[0] in sortedItems;
    var threshold := Ratio(sortedItems[0]);
    var n := |sortedItems|;
    ghost var final := Run(sortedItems, capacity, 0, Start(sortedItems), false);

    var i := 0;
    while i < n
      invariant 0 <= i <= n
      invariant Run(sortedItems, capacity, i, Slide(currentWeight, totalValue, threshold, selectedItems), false) == final
    {
      var item := sortedItems[i];
      assert item in sortedItems;
      ghost var before := Slide(currentWeight, totalValue, threshold, selectedItems);
      if currentWeight + item.weight <= capacity {
        currentWeight := currentWeight + item.weight;
        totalValue := totalValue + item.value;
        selectedItems := selectedItems + [i];
      }
      ghost var added := Slide(currentWeight, totalValue, threshold, selectedItems);
      assert added == AddItem(sortedItems, capacity, i, before);
      if i > n / 4 && |selectedItems| <= n / 4 {
        threshold := threshold * 0.8;
      } else if i > n / 2 && |selectedItems| <= n / 8 {
        threshold := threshold * 0.8;
      }
      ghost var tightened := Slide(currentWeight, totalValue, threshold, selectedItems);
      assert tightened == Tighten(n, i, added);
      if currentWeight > capacity || Ratio(item) <= threshold {
        currentWeight := currentWeight - item.weight;
        totalValue := totalValue - item.value;
        selectedItems := Without(selectedItems, i);
      }
      StepUnfold(sortedItems, capacity, i, before, Slide(currentWeight, totalValue, threshold, selectedItems), tightened);
      RunUnfold(sortedItems, capacity, i, before, false);
      if currentWeight == capacity {
        break;
      }
      i := i + 1;
    }
  }

  lemma RunUnfold(s: seq<Item>, capacity: int, i: int, st: Slide, corrected: bool)
    requires PositiveWeights(s) && 0 <= i < |s|
    ensures var next := Step(s, capacity, i, st, corrected);
      Run(s, capacity, i, st, corrected) ==
        if next.currentWeight == capacity then next else Run(s, capacity, i + 1, next, corrected)
  {
  }

  /** The step as the loop body computes it: add, tighten, then the unguarded subtraction. */
  lemma StepUnfold(s: seq<Item>, capacity: int, i: int, before: Slide, after: Slide, tightened: Slide)
    requires PositiveWeights(s) && 0 <= i < |s|
    requires tightened == Tighten(|s|, i, AddItem(s, capacity, i, before))
    requires after == (
      if tightened.currentWeight > capacity || Ratio(s[i]) <= tightened.threshold then
        Slide(tightened.currentWeight - s[i].weight, tightened.totalValue - s[i].value,
              tightened.threshold, Without(tightened.selected, i))
      else tightened)
    ensures after == Step(s, capacity, i, before, false)
  {
  }

  // ---------------------------------------------------------------------
  // The code as written

  /** The else-if branch never fires on its own: its test implies the first test. */
  lemma SecondTighteningDead(n: int, i: int, st: Slide)
    requires n >= 0
    ensures Tighten(n, i, st) ==
      if i > n / 4 && |st.selected| <= n / 4 then st.(threshold := st.threshold * 0.8) else st
  {
    if i > n / 2 && |st.selected| <= n / 8 {
      assert n / 4 <= n / 2 && n / 8 <= n / 4;
    }
  }

  /** From a non-negative start the threshold stays non-negative and never grows. */
  lemma {:induction false} ThresholdNeverGrows(s: seq<Item>, capacity: int, i: int, st: Slide, corrected: bool)
    requires PositiveWeights(s) && 0 <= i <= |s| && 0.0 <= st.threshold
    ensures 0.0 <= Run(s, capacity, i, st, corrected).threshold <= st.threshold
    decreases |s| - i
  {
    if i < |s| {
      var next := Step(s, capacity, i, st, corrected);
      assert 0.0 <= next.threshold <= st.threshold;
      if next.currentWeight != capacity {
        ThresholdNeverGrows(s, capacity, i + 1, next, corrected);
      }
    }
  }

  /**
   * Once within the capacity, the add step keeps the weight within it and
   * the subtraction only lowers it, so the test currentWeight > capacity
   * is never true.
   */
  lemma OverweightTestNeverFires(s: seq<Item>, capacity: int, i: int, st: Slide)
    requires PositiveWeights(s) && 0 <= i < |s| && st.currentWeight <= capacity
    ensures Tighten(|s|, i, AddItem(s, capacity, i, st)).currentWeight <= capacity
    ensures Step(s, capacity, i, st, false).currentWeight <= capacity
  {
    assert s[i] in s;
  }

  /** With a non-negative capacity the weight never exceeds it (though it can go negative). */
  lemma {:induction false} RunWithinCapacity(s: seq<Item>, capacity: int, i: int, st: Slide)
    requires PositiveWeights(s) && 0 <= i <= |s| && st.currentWeight <= capacity
    ensures Run(s, capacity, i, st, false).currentWeight <= capacity
    decreases |s| - i
  {
    if i < |s| {
      OverweightTestNeverFires(s, capacity, i, st);
      var next := Step(s, capacity, i, st, false);
      if next.currentWeight != capacity {
        RunWithinCapacity(s, capacity, i + 1, next);
      }
    }
  }

  /**
   * The first item's ratio equals the starting threshold and no tightening
   * happens at i = 0, so item 0 is always subtracted: if it fitted it is
   * taken back out, and if it did not its weight and value go negative.
   */
  lemma FirstItemAlwaysSubtracted(s: seq<Item>, capacity: int)
    requires PositiveWeights(s) && |s| > 0
    ensures var r := Step(s, capacity, 0, Start(s), false);
      r.selected == [] &&
      r.currentWeight == (if s[0].weight <= capacity then 0 else -s[0].weight) &&
      r.totalValue == (if s[0].weight <= capacity then 0 else -s[0].value)
  {
    assert s[0] in s;
    assert [0][..0] == [];
  }

  /** A single item heavier than the capacity: the result is minus its value. */
  lemma NegativeResult()
    ensures SlidingThresholdValue(50, [Item(10, 100)]) == -10
  {
    var s := [Item(10, 100)];
    SortSorted(s, ByRatio);
    FirstItemAlwaysSubtracted(s, 50);
  }

  /**
   * Subtracting an item that was never added frees room that the knapsack
   * does not have: with capacity 100, an item of value 85 and weight 101
   * first, then four of value 50 and weight 60, three of the latter stay
   * (total weight 180) and the result is 65, above the optimum 50.
   */
  lemma AboveOptimum()
    ensures SlidingThresholdValue(100, AboveOptimumItems()) == 65
    ensures Opt(AboveOptimumItems(), 100) == 50
  {
    var s := AboveOptimumItems();
    AboveOptimumSorted();
    SortSorted(s, ByRatio);
    AboveOptimumRun();
    AboveOptimumOpt();
  }

  function AboveOptimumItems(): seq<Item> {
    [Item(85, 101), Item(50, 60), Item(50, 60), Item(50, 60), Item(50, 60)]
  }

  lemma AboveOptimumSorted()
    ensures ValidItems(AboveOptimumItems()) && SortedBy(AboveOptimumItems(), ByRatio)
  {
    var s := AboveOptimumItems();
    forall i, j | 0 <= i < j < |s| ensures !Less(ByRatio, s[j], s[i]) {
    }
  }

  lemma AboveOptimumRun()
    ensures PositiveWeights(AboveOptimumItems()) && |AboveOptimumItems()| > 0
    ensures Run(AboveOptimumItems(), 100, 0, Start(AboveOptimumItems()), false).totalValue == 65
  {
    var s := AboveOptimumItems();
    var t := 85.0 / 101.0;
    assert Start(s) == Slide(0, 0, t, []);
    AboveOptimumFirstSteps(t);
    AboveOptimumLastSteps(t);
    var st1, st2, st3 := Slide(-101, -85, t, []), Slide(-101, -85, t, []), Slide(-41, -35, t * 0.8, [2]);
    var st4, st5 := Slide(19, 15, t * 0.8, [2, 3]), Slide(79, 65, t * 0.8, [2, 3, 4]);
    RunUnfold(s, 100, 0, Start(s), false);
    RunUnfold(s, 100, 1, st1, false);
    RunUnfold(s, 100, 2, st2, false);
    RunUnfold(s, 100, 3, st3, false);
    RunUnfold(s, 100, 4, st4, false);
  }

  lemma AboveOptimumFirstSteps(t: real)
    requires t == 85.0 / 101.0
    ensures PositiveWeights(AboveOptimumItems())
    ensures Step(AboveOptimumItems(), 100, 0, Slide(0, 0, t, []), false) == Slide(-101, -85, t, [])
    ensures Step(AboveOptimumItems(), 100, 1, Slide(-101, -85, t, []), false) == Slide(-101, -85, t, [])
    ensures Step(AboveOptimumItems(), 100, 2, Slide(-101, -85, t, []), false) == Slide(-41, -35, t * 0.8, [2])
  {
    assert [1][..0] == [];
  }

  lemma AboveOptimumLastSteps(t: real)
    requires t == 85.0 / 101.0
    ensures PositiveWeights(AboveOptimumItems())
    ensures Step(AboveOptimumItems(), 100, 3, Slide(-41, -35, t * 0.8, [2]), false) == Slide(19, 15, t * 0.8, [2, 3])
    ensures Step(AboveOptimumItems(), 100, 4, Slide(19, 15, t * 0.8, [2, 3]), false) == Slide(79, 65, t * 0.8, [2, 3, 4])
  {
  }

  lemma AboveOptimumOpt()
    ensures Opt(AboveOptimumItems(), 100) == 50
  {
    var s := AboveOptimumItems();
    var a, c := Item(85, 101), Item(50, 60);
    assert s[..4] == [a, c, c, c] && s[..4][..3] == [a, c, c];
    assert [a, c, c][..2] == [a, c] && [a, c][..1] == [a];
    var none: seq<Item> := [];
    assert Opt(none, 40) == 0 && Opt(none, 100) == 0;
    assert [a][..0] == none;
    assert Opt([a], 40) == 0;
    assert Opt([a], 100) == 0;
    assert Opt([a, c], 40) == 0 && Opt([a, c], 100) == 50;
    assert Opt([a, c, c], 40) == 0 && Opt([a, c, c], 100) == 50;
    assert Opt([a, c, c, c], 40) == 0 && Opt([a, c, c, c], 100) == 50;
  }

  // ---------------------------------------------------------------------
  // The corrected subtraction

  /** Indices strictly increasing and all below bound. */
  predicate Ascending(sel: seq<int>, bound: int)
    decreases |sel|
  {
    |sel| == 0 || (0 <= sel[|sel| - 1] < bound && Ascending(sel[..|sel| - 1], sel[|sel| - 1]))
  }

  /** The items at the selected indices. */
  function Pick(s: seq<Item>, sel: seq<int>): seq<Item>
    decreases |sel|
  {
    if |sel| == 0 then []
    else
      var m := |sel| - 1;
      Pick(s, sel[..m]) + (if 0 <= sel[m] < |s| then [s[sel[m]]] else [])
  }

  lemma AscendingWeaken(sel: seq<int>, b1: int, b2: int)
    requires Ascending(sel, b1) && b1 <= b2
    ensures Ascending(sel, b2)
  {
  }

  /** Indices below i never include i, so erasing i after pushing it restores the list. */
  lemma {:induction false} WithoutFresh(sel: seq<int>, i: int)
    requires Ascending(sel, i)
    ensures Without(sel, i) == sel && Without(sel + [i], i) == sel
    decreases |sel|
  {
    assert (sel + [i])[..|sel|] == sel;
    if |sel| > 0 {
      var m := |sel| - 1;
      AscendingWeaken(sel[..m], sel[m], i);
      WithoutFresh(sel[..m], i);
      assert sel[..m] + [sel[m]] == sel;
    }
  }

  /** Ascending indices below bound pick a sub-multiset of the first bound items. */
  lemma {:induction false} PickSubMultiset(s: seq<Item>, sel: seq<int>, bound: int)
    requires Ascending(sel, bound) && 0 <= bound <= |s|
    ensures multiset(Pick(s, sel)) <= multiset(s[..bound])
    decreases |sel|
  {
    if |sel| > 0 {
      var m := |sel| - 1;
      var j := sel[m];
      PickSubMultiset(s, sel[..m], j);
      assert s[..j + 1] == s[..j] + [s[j]];
      assert s[..bound] == s[..j + 1] + s[j + 1..bound];
    }
  }

  /**
   * The corrected loop keeps its running totals equal to the sums of the
   * items at the selected indices, and stays within the capacity unless
   * nothing is selected.
   */
  predicate Tracks(s: seq<Item>, capacity: int, i: int, st: Slide) {
    Ascending(st.selected, i) &&
    st.currentWeight == SumWeights(Pick(s, st.selected)) &&
    st.totalValue == SumValues(Pick(s, st.selected)) &&
    (st.currentWeight <= capacity || st.selected == [])
  }

  /**
   * With the correction a step either leaves the totals and the selection
   * as they were, or adds item i, which fitted.
   */
  lemma CorrectedStepCases(s: seq<Item>, capacity: int, i: int, st: Slide)
    requires PositiveWeights(s) && 0 <= i < |s| && Ascending(st.selected, i)
    ensures var r := Step(s, capacity, i, st, true);
      (r.currentWeight == st.currentWeight && r.totalValue == st.totalValue && r.selected == st.selected) ||
      (st.currentWeight + s[i].weight <= capacity && r.currentWeight == st.currentWeight + s[i].weight &&
       r.totalValue == st.totalValue + s[i].value && r.selected == st.selected + [i])
  {
    assert s[i] in s;
    if st.currentWeight + s[i].weight <= capacity {
      WithoutFresh(st.selected, i);
    }
  }

  lemma PickSnoc(s: seq<Item>, sel: seq<int>, i: int)
    requires 0 <= i < |s|
    ensures Pick(s, sel + [i]) == Pick(s, sel) + [s[i]]
  {
    assert (sel + [i])[..|sel|] == sel;
  }

  lemma TracksStep(s: seq<Item>, capacity: int, i: int, st: Slide)
    requires PositiveWeights(s) && 0 <= i < |s| && Tracks(s, capacity, i, st)
    ensures Tracks(s, capacity, i + 1, Step(s, capacity, i, st, true))
  {
    var sel := st.selected;
    var r := Step(s, capacity, i, st, true);
    CorrectedStepCases(s, capacity, i, st);
    AscendingWeaken(sel, i, i + 1);
    if r.selected == sel + [i] && r.currentWeight == st.currentWeight + s[i].weight {
      assert Ascending(sel + [i], i + 1) by {
        assert (sel + [i])[..|sel|] == sel;
      }
      PickSnoc(s, sel, i);
      SumsSnoc(Pick(s, sel), s[i]);
    }
  }

  lemma {:induction false} TracksRun(s: seq<Item>, capacity: int, i: int, st: Slide)
    requires PositiveWeights(s) && 0 <= i <= |s| && Tracks(s, capacity, i, st)
    ensures Tracks(s, capacity, |s|, Run(s, capacity, i, st, true))
    decreases |s| - i
  {
    if i == |s| {
    } else {
      TracksStep(s, capacity, i, st);
      var next := Step(s, capacity, i, st, true);
      if next.currentWeight == capacity {
        AscendingWeaken(next.selected, i + 1, |s|);
      } else {
        TracksRun(s, capacity, i + 1, next);
      }
    }
  }

  /** With the correction the result is the value of a feasible selection, so it lies in [0, optimum]. */
  lemma CorrectedAtMostOpt(items: seq<Item>, s: seq<Item>, capacity: int)
    requires PositiveWeights(items) && |s| > 0 && multiset(s) == multiset(items)
    ensures PositiveWeights(s)
    ensures 0 <= Run(s, capacity, 0, Start(s), true).totalValue <= Opt(items, capacity)
  {
    SubMultisetPositive(s, items);
    var r := Run(s, capacity, 0, Start(s), true);
    TracksRun(s, capacity, 0, Start(s));
    var picked := Pick(s, r.selected);
    PickSubMultiset(s, r.selected, |s|);
    assert s[..|s|] == s;
    SubMultisetPositive(picked, items);
    SumsNonNegative(picked);
    if r.currentWeight <= capacity {
      OptUpperBound(items, capacity, picked);
    } else {
      assert picked == [];
    }
  }
}
