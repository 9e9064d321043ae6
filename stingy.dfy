/**
 * The shared shape of dealStingyKnapsack and weightStingyKnapsack: put every
 * item in the knapsack, sort a copy by the heuristic's order, and take items
 * out from the front of that order while the knapsack is over capacity.
 * What is removed is the shortest prefix of the order whose removal brings
 * the weight within the capacity.
 */
module Stingy {
  import opened Items
  import opened Optimum
  import opened Comparators
  import opened Sorting

  /**
   * How many items the removal loop takes out of s, starting from weight w:
   * it stops as soon as the weight is within the capacity or s is used up.
   */
  function CutFrom(s: seq<Item>, capacity: int, w: int): (k: nat)
    ensures k <= |s|
    decreases |s|
  {
    if |s| == 0 || w <= capacity then 0
    else 1 + CutFrom(s[1..], capacity, w - s[0].weight)
  }

  /**
   * The cut is the shortest prefix whose removal brings w within the
   * capacity: removing it does (unless every item is removed), and removing
   * any shorter prefix does not.
   */
  lemma {:induction false} CutShortest(s: seq<Item>, capacity: int, w: int, j: int)
    requires 0 <= j <= |s|
    ensures var k := CutFrom(s, capacity, w);
      (k == |s| || w - SumWeights(s[..k]) <= capacity) &&
      (j < k ==> w - SumWeights(s[..j]) > capacity)
    decreases |s|
  {
    var k := CutFrom(s, capacity, w);
    if |s| > 0 && w > capacity {
      var t := s[1..];
      var j' := if j == 0 then 0 else j - 1;
      CutShortest(t, capacity, w - s[0].weight, j');
      PrefixFront(s, k);
      if j > 0 {
        PrefixFront(s, j);
      }
    }
  }

  /** A non-empty prefix of s weighs its first item plus the matching prefix of s[1..]. */
  lemma PrefixFront(s: seq<Item>, k: int)
    requires 0 < k <= |s|
    ensures SumWeights(s[..k]) == s[0].weight + SumWeights(s[1..][..k - 1])
    ensures SumValues(s[..k]) == s[0].value + SumValues(s[1..][..k - 1])
  {
    var p := s[..k];
    SumsFrontStep(p, 0);
    assert p[1..] == s[1..][..k - 1];
    assert p[0..] == p;
  }

  /** The first loop: the weight and value of every item. */
  method TakeAll(items: seq<Item>) returns (currentWeight: int, totalValue: int)
    ensures currentWeight == SumWeights(items) && totalValue == SumValues(items)
  {
    currentWeight, totalValue := 0, 0;
    var i := 0;
    while i < |items|
      invariant 0 <= i <= |items|
      invariant currentWeight == SumWeights(items[..i]) && totalValue == SumValues(items[..i])
    {
      PrefixStep(items, i);
      currentWeight := currentWeight + items[i].weight;
      totalValue := totalValue + items[i].value;
      i := i + 1;
    }
    assert items[..i] == items;
  }

  /** The removal loop over the sorted copy, from the running totals. */
  method RemovalPass(sorted: seq<Item>, capacity: int, startWeight: int, startValue: int)
    returns (totalValue: int, currentWeight: int)
    ensures var k := CutFrom(sorted, capacity, startWeight);
      currentWeight == startWeight - SumWeights(sorted[..k]) &&
      totalValue == startValue - SumValues(sorted[..k])
  {
    ghost var k := CutFrom(sorted, capacity, startWeight);
    totalValue, currentWeight := startValue, startWeight;
    var i := 0;
    while i < |sorted|
      invariant 0 <= i <= |sorted|
      invariant k == i + CutFrom(sorted[i..], capacity, currentWeight)
      invariant currentWeight == startWeight - SumWeights(sorted[..i])
      invariant totalValue == startValue - SumValues(sorted[..i])
    {
      if currentWeight > capacity {
        PrefixStep(sorted, i);
        assert sorted[i..][1..] == sorted[i + 1..];
        currentWeight := currentWeight - sorted[i].weight;
        totalValue := totalValue - sorted[i].value;
        i := i + 1;
      } else {
        break;
      }
    }
  }

  /** The value a stingy heuristic returns for the order ord: the values of what is kept. */
  function StingyValue(capacity: int, items: seq<Item>, ord: Order): (r: int)
    requires ValidItems(items)
    ensures 0 <= r <= Opt(items, capacity)
  {
    var s := Sort(items, ord);
    var k := CutFrom(s, capacity, SumWeights(items));
    KeptAtMostOpt(items, s, capacity);
    SumValues(items) - SumValues(s[..k])
  }

  /**
   * For any rearrangement s of the items, what the cut keeps is the suffix
   * s[k..]; it fits unless it is empty, so its value is at most the optimum.
   */
  lemma KeptAtMostOpt(items: seq<Item>, s: seq<Item>, capacity: int)
    requires ValidItems(items) && multiset(s) == multiset(items)
    ensures var k := CutFrom(s, capacity, SumWeights(items));
      SumValues(items) - SumValues(s[..k]) == SumValues(s[k..]) &&
      SumWeights(items) - SumWeights(s[..k]) == SumWeights(s[k..]) &&
      0 <= SumValues(s[k..]) <= Opt(items, capacity)
  {
    var k := CutFrom(s, capacity, SumWeights(items));
    var kept := s[k..];
    SumsPermutation(s, items);
    SumsSplit(s, k);
    SubMultisetValid(kept, items);
    SumsNonNegative(kept);
    CutShortest(s, capacity, SumWeights(items), 0);
    if k < |s| {
      OptUpperBound(items, capacity, kept);
    } else {
      assert kept == [];
    }
  }

  /** With a non-negative capacity the stingy heuristics end within it. */
  lemma KeptFits(items: seq<Item>, s: seq<Item>, capacity: int)
    requires ValidItems(items) && multiset(s) == multiset(items) && capacity >= 0
    ensures SumWeights(s[CutFrom(s, capacity, SumWeights(items))..]) <= capacity
  {
    var k := CutFrom(s, capacity, SumWeights(items));
    KeptAtMostOpt(items, s, capacity);
    CutShortest(s, capacity, SumWeights(items), 0);
    if k == |s| {
      assert s[k..] == [];
    }
  }

  /** When everything fits nothing is removed, and the heuristic returns the total value. */
  lemma AllFitNothingRemoved(items: seq<Item>, ord: Order, capacity: int)
    requires ValidItems(items) && SumWeights(items) <= capacity
    ensures StingyValue(capacity, items, ord) == SumValues(items)
  {
    var s := Sort(items, ord);
    assert CutFrom(s, capacity, SumWeights(items)) == 0;
    assert s[..0] == [];
  }
}
