/**
 * scoredGreedyKnapsack: the loop of the standard greedy over a different
 * order, descending score value^3 / weight^1.5.
 */
module ScoredGreedy {
  import opened Items
  import opened Optimum
  import opened Comparators
  import opened Sorting
  import opened Scan

  /** The value the heuristic returns: first fit over the score order. */
  function ScoredGreedyValue(capacity: int, items: seq<Item>): (r: int)
    requires ValidItems(items)
    ensures 0 <= r <= Opt(items, capacity)
  {
    var sorted := Sort(items, ByScore);
    ScanAtMostOpt(FitsCapacity, items, sorted, capacity);
    Gained(FitsCapacity, sorted, capacity, 0)
  }

  method ScoredGreedyKnapsack(capacity: int, items: seq<Item>) returns (totalValue: int)
    requires ValidItems(items)
    ensures totalValue == ScoredGreedyValue(capacity, items)
    ensures 0 <= totalValue <= Opt(items, capacity)
  {
    var sortedItems := Sort(items, ByScore);
    var currentWeight;
    totalValue, currentWeight := FirstFitPass(sortedItems, capacity, 0, 0);
  }
}
