/**
 * dealStingyKnapsack: the stingy shape over ascending score, so the items
 * with the lowest value^3 / weight^1.5 are the first taken out.
 */
module DealStingy {
  import opened Items
  import opened Optimum
  import opened Comparators
  import opened Sorting
  import opened Stingy

  method DealStingyKnapsack(capacity: int, items: seq<Item>) returns (totalValue: int)
    requires ValidItems(items)
    ensures totalValue == StingyValue(capacity, items, ByScoreAscending)
    ensures 0 <= totalValue <= Opt(items, capacity)
    ensures SumWeights(items) <= capacity ==> totalValue == SumValues(items)
  {
    var currentWeight;
    currentWeight, totalValue := TakeAll(items);
    var sortedItems := Sort(items, ByScoreAscending);
    totalValue, currentWeight := RemovalPass(sortedItems, capacity, currentWeight, totalValue);
    if SumWeights(items) <= capacity {
      AllFitNothingRemoved(items, ByScoreAscending, capacity);
    }
  }
}
