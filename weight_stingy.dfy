/**
 * weightStingyKnapsack: the stingy shape over ascending weight, so the
 * lightest items are the first taken out.
 */
module WeightStingy {
  import opened Items
  import opened Optimum
  import opened Comparators
  import opened Sorting
  import opened Stingy

  method WeightStingyKnapsack(capacity: int, items: seq<Item>) returns (totalValue: int)
    requires ValidItems(items)
    ensures totalValue == StingyValue(capacity, items, ByWeight)
    ensures 0 <= totalValue <= Opt(items, capacity)
    ensures SumWeights(items) <= capacity ==> totalValue == SumValues(items)
  {
    var currentWeight;
    currentWeight, totalValue := TakeAll(items);
    var sortedItems := Sort(items, ByWeight);
    totalValue, currentWeight := RemovalPass(sortedItems, capacity, currentWeight, totalValue);
    if SumWeights(items) <= capacity {
      AllFitNothingRemoved(items, ByWeight, capacity);
    }
  }
}
