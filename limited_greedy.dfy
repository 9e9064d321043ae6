/**
 * limitedGreedyKnapsack: sort a copy by descending value and scan it once
 * with two acceptance regimes.  While more than 40% of the capacity
 * remains, an item is taken only if it uses at most 80% of what remains;
 * after that, any item that fits is taken.
 */
module LimitedGreedy {
  import opened Items
  import opened Optimum
  import opened Comparators
  import opened Sorting
  import opened Scan

  /** The value the heuristic returns: the Limited scan over the value order. */
  function LimitedGreedyValue(capacity: int, items: seq<Item>): (r: int)
    requires ValidItems(items)
    ensures 0 <= r <= Opt(items, capacity)
  {
    var sorted := Sort(items, ByValue);
    ScanAtMostOpt(Limited, items, sorted, capacity);
    Gained(Limited, sorted, capacity, 0)
  }

  /** The capacity still free after scanning s. */
  function Remaining(s: seq<Item>, capacity: int): int {
    capacity - Used(Limited, s, capacity, 0)
  }

  method LimitedGreedyKnapsack(capacity: int, items: seq<Item>) returns (totalValue: int)
    requires ValidItems(items)
    ensures totalValue == LimitedGreedyValue(capacity, items)
    ensures 0 <= totalValue <= Opt(items, capacity)
  {
    var sortedItems := Sort(items, ByValue);
    SubMultisetValid(sortedItems, items);
    totalValue := 0;
    var remainingCapacity := capacity;
    var i := 0;
    while i < |sortedItems|
      invariant 0 <= i <= |sortedItems|
      invariant remainingCapacity == Remaining(sortedItems[..i], capacity)
      invariant totalValue == Gained(Limited, sortedItems[..i], capacity, 0)
      invariant capacity >= 0 ==> 0 <= remainingCapacity <= capacity
    {
      ScanStep(Limited, sortedItems, capacity, 0, i);
      var w := sortedItems[i].weight;
      if 10 * remainingCapacity > 4 * capacity && 10 * w <= 8 * remainingCapacity {
        remainingCapacity := remainingCapacity - w;
        totalValue := totalValue + sortedItems[i].value;
      } else if 10 * remainingCapacity <= 4 * capacity && w <= remainingCapacity {
        remainingCapacity := remainingCapacity - w;
        totalValue := totalValue + sortedItems[i].value;
      }
      if capacity >= 0 {
        SliceValid(sortedItems, 0, i + 1);
        ScanFeasible(Limited, sortedItems[..i + 1], capacity, 0);
      }
      i := i + 1;
    }
    assert sortedItems[..i] == sortedItems;
  }

  /** The free capacity never grows along the scan. */
  lemma RemainingNeverGrows(s: seq<Item>, capacity: int, i: int, j: int)
    requires ValidItems(s) && 0 <= i <= j <= |s|
    ensures Remaining(s[..j], capacity) <= Remaining(s[..i], capacity) <= capacity
  {
    assert s[..j][..i] == s[..i];
    SliceValid(s, 0, j);
    UsedMonotone(Limited, s[..j], capacity, 0, i);
    SliceValid(s, 0, i);
    UsedBounds(Limited, s[..i], capacity, 0);
  }

  /** Once 40% or less of the capacity is free, every later item is judged by the second regime. */
  lemma SecondRegimeSticky(s: seq<Item>, capacity: int, i: int, j: int)
    requires ValidItems(s) && 0 <= i <= j <= |s|
    requires 10 * Remaining(s[..i], capacity) <= 4 * capacity
    ensures 10 * Remaining(s[..j], capacity) <= 4 * capacity
  {
    RemainingNeverGrows(s, capacity, i, j);
  }

  /** Neither regime takes more than is free. */
  lemma RemainingNonNegative(s: seq<Item>, capacity: int)
    requires ValidItems(s) && capacity >= 0
    ensures 0 <= Remaining(s, capacity) <= capacity
  {
    ScanFeasible(Limited, s, capacity, 0);
  }
}
