/**
 * knapsackRecursive (C++/Algorithms/Recursive.cpp): the include/exclude
 * recurrence on item n - 1, with the shortcut that no item is considered
 * once the capacity is 0.
 */
module Recursive {
  import opened Items
  import opened Optimum

  function KnapsackRecursive(capacity: int, items: seq<Item>, n: int): (r: int)
    requires 0 <= n <= |items| && ValidItems(items)
    ensures 0 <= r <= SumValues(items[..n])
    decreases n
  {
    assert ValidItems(items[..n]) by { forall y | y in items[..n] ensures y in items { } }
    SumsNonNegative(items[..n]);
    if n == 0 || capacity == 0 then 0
    else
      assert items[..n][..n - 1] == items[..n - 1];
      assert items[n - 1] in items;
      if items[n - 1].weight > capacity then KnapsackRecursive(capacity, items, n - 1)
      else
        var includeItem := items[n - 1].value + KnapsackRecursive(capacity - items[n - 1].weight, items, n - 1);
        var excludeItem := KnapsackRecursive(capacity, items, n - 1);
        Max(includeItem, excludeItem)
  }

  /** With positive weights the recursion computes the optimum of the first n items. */
  lemma {:induction false} RecursiveIsOpt(capacity: int, items: seq<Item>, n: int)
    requires 0 <= n <= |items| && PositiveWeights(items) && capacity >= 0
    ensures KnapsackRecursive(capacity, items, n) == Opt(items[..n], capacity)
    decreases n
  {
    if n == 0 {
      assert items[..0] == [];
    } else if capacity == 0 {
      assert PositiveWeights(items[..n]) by { forall y | y in items[..n] ensures y in items { } }
      OptZeroCapacity(items[..n]);
    } else {
      OptPrefixStep(items, n, capacity);
      assert items[n - 1] in items;
      RecursiveIsOpt(capacity, items, n - 1);
      if items[n - 1].weight <= capacity {
        RecursiveIsOpt(capacity - items[n - 1].weight, items, n - 1);
      }
    }
  }

  /** More room and more items never lower the result. */
  lemma {:induction false} RecursiveMonotone(items: seq<Item>, n1: int, n2: int, c1: int, c2: int)
    requires 0 <= n1 <= n2 <= |items| && ValidItems(items) && 0 <= c1 <= c2
    ensures KnapsackRecursive(c1, items, n1) <= KnapsackRecursive(c2, items, n2)
    decreases n2
  {
    if n1 == 0 || c1 == 0 {
    } else if n1 < n2 {
      RecursiveMonotone(items, n1, n2 - 1, c1, c2);
    } else {
      var w := items[n2 - 1].weight;
      RecursiveMonotone(items, n1 - 1, n2 - 1, c1, c2);
      if w <= c1 {
        assert items[n2 - 1] in items;
        RecursiveMonotone(items, n1 - 1, n2 - 1, c1 - w, c2 - w);
      }
    }
  }

  /**
   * The capacity-0 shortcut drops a zero-weight item that the optimum takes:
   * the agreement with Opt needs positive weights.
   */
  lemma RecursiveZeroWeightGap()
    ensures KnapsackRecursive(0, [Item(5, 0)], 1) == 0
    ensures Opt([Item(5, 0)], 0) == 5
  {
    OptSingle(Item(5, 0), 0);
  }
}
