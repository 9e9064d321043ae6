/**
 * defensiveGreedyKnapsack: sort a copy by ascending weight and accept
 * items from the front until the first one that does not fit, then stop.
 * What it accepts is therefore a prefix of the weight order.
 */
module DefensiveGreedy {
  import opened Items
  import opened Optimum
  import opened Comparators
  import opened Sorting

  /**
   * The length of the longest prefix of s whose total weight is within the
   * capacity (0 when even the empty prefix is not, for a negative capacity).
   */
  function FittingPrefix(s: seq<Item>, capacity: int): (k: nat)
    ensures k <= |s|
    decreases |s|
  {
    if |s| == 0 || SumWeights(s) <= capacity then |s|
    else FittingPrefix(s[..|s| - 1], capacity)
  }

  /** The prefix FittingPrefix names fits, and every longer prefix does not. */
  lemma {:induction false} FittingPrefixLongest(s: seq<Item>, capacity: int, j: int)
    requires 0 <= j <= |s|
    ensures var k := FittingPrefix(s, capacity);
      (k == 0 || SumWeights(s[..k]) <= capacity) &&
      (k < j ==> SumWeights(s[..j]) > capacity)
    decreases |s|
  {
    var k := FittingPrefix(s, capacity);
    if |s| > 0 && SumWeights(s) > capacity {
      var n := |s| - 1;
      assert s[..n][..k] == s[..k];
      if j <= n {
        assert s[..n][..j] == s[..j];
        FittingPrefixLongest(s[..n], capacity, j);
      } else {
        assert s[..j] == s;
        FittingPrefixLongest(s[..n], capacity, 0);
      }
    } else if |s| > 0 {
      assert s[..|s|] == s;
    }
  }

  /**
   * With non-negative weights every shorter non-empty prefix fits too, so
   * the scan that stops at the first misfit stops exactly at FittingPrefix.
   */
  lemma ShorterPrefixFits(s: seq<Item>, capacity: int, i: int)
    requires ValidItems(s) && 0 < i <= FittingPrefix(s, capacity)
    ensures SumWeights(s[..i]) <= capacity
  {
    var k := FittingPrefix(s, capacity);
    FittingPrefixLongest(s, capacity, k);
    PrefixWeightMonotone(s, i, k);
  }

  /** The value the heuristic returns: the values of the longest fitting prefix of the weight order. */
  function DefensiveGreedyValue(capacity: int, items: seq<Item>): (r: int)
    requires ValidItems(items)
    ensures 0 <= r <= Opt(items, capacity)
  {
    var sorted := Sort(items, ByWeight);
    var k := FittingPrefix(sorted, capacity);
    PrefixAtMostOpt(items, sorted, capacity);
    SumValues(sorted[..k])
  }

  lemma PrefixAtMostOpt(items: seq<Item>, sorted: seq<Item>, capacity: int)
    requires ValidItems(items) && multiset(sorted) == multiset(items)
    ensures var k := FittingPrefix(sorted, capacity);
      0 <= SumValues(sorted[..k]) <= Opt(items, capacity)
  {
    var k := FittingPrefix(sorted, capacity);
    var prefix := sorted[..k];
    SumsSplit(sorted, k);
    SubMultisetValid(prefix, items);
    SumsNonNegative(prefix);
    FittingPrefixLongest(sorted, capacity, k);
    if k == 0 {
      assert prefix == [];
    } else {
      OptUpperBound(items, capacity, prefix);
    }
  }

  method DefensiveGreedyKnapsack(capacity: int, items: seq<Item>) returns (totalValue: int)
    requires ValidItems(items)
    ensures totalValue == DefensiveGreedyValue(capacity, items)
    ensures 0 <= totalValue <= Opt(items, capacity)
  {
    var sortedItems := Sort(items, ByWeight);
    SubMultisetValid(sortedItems, items);
    ghost var k := FittingPrefix(sortedItems, capacity);
    totalValue := 0;
    var currentWeight := 0;
    var i := 0;
    while i < |sortedItems|
      invariant 0 <= i <= k
      invariant currentWeight == SumWeights(sortedItems[..i])
      invariant totalValue == SumValues(sortedItems[..i])
      invariant i == 0 || currentWeight <= capacity
    {
      PrefixStep(sortedItems, i);
      if currentWeight + sortedItems[i].weight <= capacity {
        currentWeight := currentWeight + sortedItems[i].weight;
        totalValue := totalValue + sortedItems[i].value;
        FittingPrefixLongest(sortedItems, capacity, i + 1);
        i := i + 1;
      } else {
        if i < k {
          ShorterPrefixFits(sortedItems, capacity, i + 1);
        }
        break;
      }
    }
    assert i == k;
  }
}
