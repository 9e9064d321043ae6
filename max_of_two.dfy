/**
 * maxOfTwoKnapsack: two independent first-fit passes, one over descending
 * value and one over descending ratio, each from an empty knapsack; the
 * better of the two is returned.
 */
module MaxOfTwo {
  import opened Items
  import opened Optimum
  import opened Comparators
  import opened Sorting
  import opened Scan
  import opened StandardGreedy

  /** The first pass: first fit over the value order. */
  function ValuePassValue(capacity: int, items: seq<Item>): (r: int)
    requires ValidItems(items)
    ensures 0 <= r <= Opt(items, capacity)
  {
    var sorted := Sort(items, ByValue);
    ScanAtMostOpt(FitsCapacity, items, sorted, capacity);
    Gained(FitsCapacity, sorted, capacity, 0)
  }

  method MaxOfTwoKnapsack(capacity: int, items: seq<Item>) returns (r: int)
    requires ValidItems(items)
    ensures r == Max(ValuePassValue(capacity, items), StandardGreedyValue(capacity, items))
    ensures ValuePassValue(capacity, items) <= r && StandardGreedyValue(capacity, items) <= r
    ensures r <= Opt(items, capacity)
  {
    var sortedItemsByValue := Sort(items, ByValue);
    var totalValue1, currentWeight1 := FirstFitPass(sortedItemsByValue, capacity, 0, 0);

    var sortedItemsByRatio := Sort(items, ByRatio);
    var totalValue2, currentWeight2 := FirstFitPass(sortedItemsByRatio, capacity, 0, 0);

    if totalValue1 > totalValue2 {
      r := totalValue1;
    } else {
      r := totalValue2;
    }
  }
}
