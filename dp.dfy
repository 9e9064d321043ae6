/**
 * knapsackDP (C++/Algorithms/DP.cpp): the bottom-up table.  Cell [i, w]
 * holds the best value of the first i items within weight w; row 0 stays
 * all zeros and row i is filled from row i - 1.
 */
module DynamicProgramming {
  import opened Items
  import opened Optimum

  method KnapsackDP(capacity: int, items: seq<Item>) returns (r: int)
    requires capacity >= 0 && ValidItems(items)
    ensures r == Opt(items, capacity)
  {
    var n := |items|;
    var dp := new int[n + 1, capacity + 1]((i, w) => 0);
    assert items[..0] == [];
    var i := 1;
    while i <= n
      invariant 1 <= i <= n + 1
      invariant forall k, c | 0 <= k < i && 0 <= c <= capacity :: dp[k, c] == Opt(items[..k], c)
    {
      var item := items[i - 1];
      var w := 0;
      while w <= capacity
        invariant 0 <= w <= capacity + 1
        invariant forall k, c | 0 <= k < i && 0 <= c <= capacity :: dp[k, c] == Opt(items[..k], c)
        invariant forall c | 0 <= c < w :: dp[i, c] == Opt(items[..i], c)
      {
        OptPrefixStep(items, i, w);
        if item.weight <= w {
          assert item in items;
          dp[i, w] := Max(dp[i - 1, w], dp[i - 1, w - item.weight] + item.value);
        } else {
          dp[i, w] := dp[i - 1, w];
        }
        w := w + 1;
      }
      i := i + 1;
    }
    assert items[..n] == items;
    r := dp[n, capacity];
  }

  /**
   * The table's answer lies between 0 and the value of all items, and grows
   * with the capacity.
   */
  lemma KnapsackDPBounds(items: seq<Item>, c1: int, c2: int)
    requires ValidItems(items) && 0 <= c1 <= c2
    ensures 0 <= Opt(items, c1) <= Opt(items, c2) <= SumValues(items)
  {
    OptMonotoneCapacity(items, c1, c2);
    OptAtMostTotal(items, c2);
  }
}
