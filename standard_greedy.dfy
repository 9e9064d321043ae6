/**
 * standardGreedyKnapsack: sort a copy of the items by descending
 * value/weight ratio, then accept every item that still fits, skipping
 * (not stopping at) the ones that do not.
 */
module StandardGreedy {
  import opened Items
  import opened Optimum
  import opened Comparators
  import opened Sorting
  import opened Scan

  /** The value the heuristic returns: first fit over the ratio order. */
  function StandardGreedyValue(capacity: int, items: seq<Item>): (r: int)
    requires ValidItems(items)
    ensures 0 <= r <= Opt(items, capacity)
  {
    var sorted := Sort(items, ByRatio);
    ScanAtMostOpt(FitsCapacity, items, sorted, capacity);
    Gained(FitsCapacity, sorted, capacity, 0)
  }

  method StandardGreedyKnapsack(capacity: int, items: seq<Item>) returns (totalValue: int)
    requires ValidItems(items)
    ensures totalValue == StandardGreedyValue(capacity, items)
    ensures 0 <= totalValue <= Opt(items, capacity)
  {
    var sortedItems := Sort(items, ByRatio);
    var currentWeight;
    totalValue, currentWeight := FirstFitPass(sortedItems, capacity, 0, 0);
  }

  /**
   * The commented-out driver: values 60, 100, 120 with weights 10, 20, 30
   * and capacity 50.  The ratios 6, 5, 4 are already descending, the first
   * two items are accepted and the third skipped, for 160; the optimum,
   * the last two items, is 220.
   */
  lemma DriverExample()
    ensures StandardGreedyValue(50, [Item(60, 10), Item(100, 20), Item(120, 30)]) == 160
    ensures Opt([Item(60, 10), Item(100, 20), Item(120, 30)], 50) == 220
  {
    DriverSorted();
    DriverScan();
    DriverOpt();
  }

  lemma DriverSorted()
    ensures Sort([Item(60, 10), Item(100, 20), Item(120, 30)], ByRatio) == [Item(60, 10), Item(100, 20), Item(120, 30)]
  {
    var a, b, c := Item(60, 10), Item(100, 20), Item(120, 30);
    assert [a, b, c][..2] == [a, b];
    DriverSortedTwo();
    DriverInsertLast();
  }

  lemma DriverSortedTwo()
    ensures Sort([Item(60, 10), Item(100, 20)], ByRatio) == [Item(60, 10), Item(100, 20)]
  {
    var a, b := Item(60, 10), Item(100, 20);
    assert [a, b][..1] == [a] && [a][..0] == [];
    assert Sort([a], ByRatio) == [a];
    assert [a][1..] == [];
    assert Insert(b, [a], ByRatio) == [a, b];
  }

  lemma DriverInsertLast()
    ensures Insert(Item(120, 30), [Item(60, 10), Item(100, 20)], ByRatio) == [Item(60, 10), Item(100, 20), Item(120, 30)]
  {
    var a, b, c := Item(60, 10), Item(100, 20), Item(120, 30);
    assert [a, b][1..] == [b] && [b][1..] == [];
    assert Insert(c, [b], ByRatio) == [b, c];
  }

  lemma DriverScan()
    ensures Gained(FitsCapacity, [Item(60, 10), Item(100, 20), Item(120, 30)], 50, 0) == 160
  {
    var a, b, c := Item(60, 10), Item(100, 20), Item(120, 30);
    var items := [a, b, c];
    assert items[..2] == [a, b] && [a, b][..1] == [a] && [a][..0] == [];
    assert Used(FitsCapacity, [a], 50, 0) == 10;
    assert Gained(FitsCapacity, [a], 50, 0) == 60;
    assert Used(FitsCapacity, [a, b], 50, 0) == 30;
    assert Gained(FitsCapacity, [a, b], 50, 0) == 160;
  }

  lemma DriverOpt()
    ensures Opt([Item(60, 10), Item(100, 20), Item(120, 30)], 50) == 220
  {
    var a, b, c := Item(60, 10), Item(100, 20), Item(120, 30);
    var items := [a, b, c];
    assert items[..2] == [a, b] && [a, b][..1] == [a] && [a][..0] == [];
    assert Opt([a], 20) == 60 && Opt([a], 50) == 60 && Opt([a], 0) == 0 && Opt([a], 30) == 60;
    assert Opt([a, b], 20) == 100;
    assert Opt([a, b], 50) == 160;
  }
}
