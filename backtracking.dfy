/**
 * knapsackBacktracking (C++/Algorithms/Backtracking.cpp): a depth-first
 * include/exclude search over positions index .. n - 1 that carries the
 * weight and value chosen so far.
 */
module Backtracking {
  import opened Items
  import opened Optimum
  import opened Recursive

  function KnapsackBacktracking(capacity: int, items: seq<Item>, n: int,
                                currentWeight: int, currentValue: int, index: int): (r: int)
    requires 0 <= index <= n <= |items|
    ensures r >= currentValue
    decreases n - index
  {
    if index == n then currentValue
    else
      var includeItem :=
        if currentWeight + items[index].weight <= capacity then
          KnapsackBacktracking(capacity, items, n, currentWeight + items[index].weight,
                               currentValue + items[index].value, index + 1)
        else 0;
      var excludeItem := KnapsackBacktracking(capacity, items, n, currentWeight, currentValue, index + 1);
      Max(includeItem, excludeItem)
  }

  /**
   * The search returns the value carried in plus the best value of the
   * remaining positions within the remaining room.
   */
  lemma {:induction false} BacktrackingIsOpt(capacity: int, items: seq<Item>, n: int,
                                             currentWeight: int, currentValue: int, index: int)
    requires 0 <= index <= n <= |items| && ValidItems(items)
    requires currentWeight <= capacity && currentValue >= 0
    ensures KnapsackBacktracking(capacity, items, n, currentWeight, currentValue, index) ==
      currentValue + Opt(items[index..n], capacity - currentWeight)
    decreases n - index
  {
    var rest := items[index..n];
    if index == n {
      assert rest == [];
    } else {
      assert ValidItems(rest) by { forall y | y in rest ensures y in items { } }
      assert items[index] in items;
      OptFirst(rest, capacity - currentWeight);
      assert rest[0] == items[index] && rest[1..] == items[index + 1..n];
      BacktrackingIsOpt(capacity, items, n, currentWeight, currentValue, index + 1);
      if currentWeight + items[index].weight <= capacity {
        BacktrackingIsOpt(capacity, items, n, currentWeight + items[index].weight,
                          currentValue + items[index].value, index + 1);
      }
    }
  }

  /** Started empty at position 0 it agrees with the plain recursion (positive weights). */
  lemma BacktrackingAgreesWithRecursive(capacity: int, items: seq<Item>)
    requires PositiveWeights(items) && capacity >= 0
    ensures KnapsackBacktracking(capacity, items, |items|, 0, 0, 0) ==
      KnapsackRecursive(capacity, items, |items|)
    ensures KnapsackBacktracking(capacity, items, |items|, 0, 0, 0) == Opt(items, capacity)
  {
    BacktrackingIsOpt(capacity, items, |items|, 0, 0, 0);
    RecursiveIsOpt(capacity, items, |items|);
    assert items[0..|items|] == items[..|items|] == items;
  }
}
