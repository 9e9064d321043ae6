/**
 * The problem model shared by every solver: an item is a (value, weight)
 * pair, a problem instance is a capacity and a sequence of items, and a
 * candidate solution is either a sub-multiset of the items or a 0/1 choice
 * per position.
 */
module Items {

  /** One knapsack item; the field order follows the C++ struct. */
  datatype Item = Item(value: int, weight: int)

  /** The domain every solver works in: no negative value or weight. */
  predicate ValidItems(s: seq<Item>) {
    forall x | x in s :: x.value >= 0 && x.weight >= 0
  }

  /** The stricter domain of the solvers that divide by a weight. */
  predicate PositiveWeights(s: seq<Item>) {
    forall x | x in s :: x.value >= 0 && x.weight > 0
  }

  /** std::max on two ints. */
  function Max(a: int, b: int): int {
    if a >= b then a else b
  }

  function SumValues(s: seq<Item>): int
    decreases |s|
  {
    if |s| == 0 then 0 else SumValues(s[..|s| - 1]) + s[|s| - 1].value
  }

  function SumWeights(s: seq<Item>): int
    decreases |s|
  {
    if |s| == 0 then 0 else SumWeights(s[..|s| - 1]) + s[|s| - 1].weight
  }

  /** The items at the positions a 0/1 choice vector marks, in order. */
  function Selected(s: seq<Item>, x: seq<bool>): seq<Item>
    requires |x| == |s|
    decreases |s|
  {
    if |s| == 0 then []
    else
      var n := |s| - 1;
      Selected(s[..n], x[..n]) + (if x[n] then [s[n]] else [])
  }

  /** Extending the items and the choice by one position extends the selection. */
  lemma SelectedSnoc(s: seq<Item>, x: seq<bool>, e: Item, b: bool)
    requires |x| == |s|
    ensures Selected(s + [e], x + [b]) == Selected(s, x) + (if b then [e] else [])
  {
    assert (s + [e])[..|s|] == s && (x + [b])[..|s|] == x;
  }

  lemma SumsSnoc(s: seq<Item>, e: Item)
    ensures SumValues(s + [e]) == SumValues(s) + e.value
    ensures SumWeights(s + [e]) == SumWeights(s) + e.weight
  {
    assert (s + [e])[..|s|] == s;
  }

  /** Growing a slice by one position adds that item to the sums. */
  lemma SumsSliceStep(s: seq<Item>, lo: int, j: int)
    requires 0 <= lo <= j < |s|
    ensures SumValues(s[lo..j + 1]) == SumValues(s[lo..j]) + s[j].value
    ensures SumWeights(s[lo..j + 1]) == SumWeights(s[lo..j]) + s[j].weight
  {
    assert s[lo..j + 1][..j - lo] == s[lo..j];
  }

  /** Growing a prefix by one position adds that item to the sums. */
  lemma PrefixStep(s: seq<Item>, i: int)
    requires 0 <= i < |s|
    ensures SumValues(s[..i + 1]) == SumValues(s[..i]) + s[i].value
    ensures SumWeights(s[..i + 1]) == SumWeights(s[..i]) + s[i].weight
  {
    assert s[..i + 1][..i] == s[..i];
  }

  /** With non-negative weights, a longer prefix weighs at least as much. */
  lemma {:induction false} PrefixWeightMonotone(s: seq<Item>, i: int, j: int)
    requires ValidItems(s) && 0 <= i <= j <= |s|
    ensures SumWeights(s[..i]) <= SumWeights(s[..j])
    decreases j
  {
    if i < j {
      assert s[j - 1] in s;
      PrefixStep(s, j - 1);
      PrefixWeightMonotone(s, i, j - 1);
    }
  }

  /** Dropping the first item of a suffix takes it out of the sums. */
  lemma SumsFrontStep(s: seq<Item>, i: int)
    requires 0 <= i < |s|
    ensures SumValues(s[i..]) == s[i].value + SumValues(s[i + 1..])
    ensures SumWeights(s[i..]) == s[i].weight + SumWeights(s[i + 1..])
  {
    var t := s[i..];
    assert t == [s[i]] + s[i + 1..];
    SumsSnoc([], s[i]);
    assert [] + [s[i]] == [s[i]];
    SumsAppend([s[i]], s[i + 1..]);
  }

  /** A prefix and the matching suffix split the sums. */
  lemma SumsSplit(s: seq<Item>, k: int)
    requires 0 <= k <= |s|
    ensures SumValues(s) == SumValues(s[..k]) + SumValues(s[k..])
    ensures SumWeights(s) == SumWeights(s[..k]) + SumWeights(s[k..])
    ensures multiset(s[..k]) <= multiset(s) && multiset(s[k..]) <= multiset(s)
  {
    assert s == s[..k] + s[k..];
    SumsAppend(s[..k], s[k..]);
  }

  /** A slice of a valid sequence is valid. */
  lemma SliceValid(s: seq<Item>, lo: int, hi: int)
    requires ValidItems(s) && 0 <= lo <= hi <= |s|
    ensures ValidItems(s[lo..hi])
  {
    forall y | y in s[lo..hi] ensures y.value >= 0 && y.weight >= 0 {
      assert y in s;
    }
  }

  /** A choice vector picks a sub-multiset of the items. */
  lemma {:induction false} SelectedSubMultiset(s: seq<Item>, x: seq<bool>)
    requires |x| == |s|
    ensures multiset(Selected(s, x)) <= multiset(s)
    decreases |s|
  {
    if |s| > 0 {
      var n := |s| - 1;
      var front, tail := Selected(s[..n], x[..n]), if x[n] then [s[n]] else [];
      SelectedSubMultiset(s[..n], x[..n]);
      assert Selected(s, x) == front + tail;
      assert multiset(Selected(s, x)) == multiset(front) + multiset(tail);
      assert s == s[..n] + [s[n]];
      assert multiset(s) == multiset(s[..n]) + multiset{s[n]};
      assert multiset(tail) <= multiset{s[n]};
    }
  }

  lemma PositiveWeightsAreValid(s: seq<Item>)
    requires PositiveWeights(s)
    ensures ValidItems(s)
  {
  }

  lemma {:induction false} SumsAppend(a: seq<Item>, b: seq<Item>)
    ensures SumValues(a + b) == SumValues(a) + SumValues(b)
    ensures SumWeights(a + b) == SumWeights(a) + SumWeights(b)
  {
    SumValuesAppend(a, b);
    SumWeightsAppend(a, b);
  }

  lemma {:induction false} SumValuesAppend(a: seq<Item>, b: seq<Item>)
    ensures SumValues(a + b) == SumValues(a) + SumValues(b)
    decreases |b|
  {
    if |b| == 0 {
      assert a + b == a;
    } else {
      var n := |b| - 1;
      assert (a + b)[..|a + b| - 1] == a + b[..n];
      SumValuesAppend(a, b[..n]);
    }
  }

  lemma {:induction false} SumWeightsAppend(a: seq<Item>, b: seq<Item>)
    ensures SumWeights(a + b) == SumWeights(a) + SumWeights(b)
    decreases |b|
  {
    if |b| == 0 {
      assert a + b == a;
    } else {
      var n := |b| - 1;
      assert (a + b)[..|a + b| - 1] == a + b[..n];
      SumWeightsAppend(a, b[..n]);
    }
  }

  lemma {:induction false} SumsNonNegative(s: seq<Item>)
    requires ValidItems(s)
    ensures SumValues(s) >= 0 && SumWeights(s) >= 0
    decreases |s|
  {
    if |s| > 0 {
      var n := |s| - 1;
      assert s[n] in s;
      SumsNonNegative(s[..n]);
    }
  }

  /** A sequence with every element drawn from a valid one is valid. */
  lemma SubMultisetValid(a: seq<Item>, b: seq<Item>)
    requires multiset(a) <= multiset(b) && ValidItems(b)
    ensures ValidItems(a)
  {
    forall x | x in a ensures x.value >= 0 && x.weight >= 0 {
      assert x in multiset(a);
    }
  }

  lemma SubMultisetPositive(a: seq<Item>, b: seq<Item>)
    requires multiset(a) <= multiset(b) && PositiveWeights(b)
    ensures PositiveWeights(a)
  {
    forall x | x in a ensures x.value >= 0 && x.weight > 0 {
      assert x in multiset(a);
    }
  }

  /** Taking one element out of a sequence takes its value and weight out of the sums. */
  lemma RemoveAt(s: seq<Item>, k: int)
    requires 0 <= k < |s|
    ensures multiset(s[..k] + s[k + 1..]) == multiset(s) - multiset{s[k]}
    ensures SumValues(s) == SumValues(s[..k] + s[k + 1..]) + s[k].value
    ensures SumWeights(s) == SumWeights(s[..k] + s[k + 1..]) + s[k].weight
  {
    RemoveAtMultiset(s, k);
    SumsSplit(s, k + 1);
    PrefixStep(s, k);
    SumsAppend(s[..k], s[k + 1..]);
  }

  lemma RemoveAtMultiset(s: seq<Item>, k: int)
    requires 0 <= k < |s|
    ensures multiset(s[..k] + s[k + 1..]) == multiset(s) - multiset{s[k]}
  {
    assert s == s[..k] + [s[k]] + s[k + 1..];
  }

  /** Sums do not depend on the order of the items. */
  lemma {:induction false} SumsPermutation(a: seq<Item>, b: seq<Item>)
    requires multiset(a) == multiset(b)
    ensures SumValues(a) == SumValues(b) && SumWeights(a) == SumWeights(b)
    decreases |a|
  {
    if |a| == 0 {
      assert |b| == |multiset(b)| == 0;
    } else {
      var n := |a| - 1;
      var x := a[n];
      assert a == a[..n] + [x];
      assert x in multiset(b);
      var k :| 0 <= k < |b| && b[k] == x;
      RemoveAt(b, k);
      SumsPermutation(a[..n], b[..k] + b[k + 1..]);
    }
  }

  /** Splitting a choice vector splits the chosen items. */
  lemma {:induction false} SelectedSplit(s: seq<Item>, x: seq<bool>, k: int)
    requires |x| == |s| && 0 <= k <= |s|
    ensures Selected(s, x) == Selected(s[..k], x[..k]) + Selected(s[k..], x[k..])
    decreases |s|
  {
    if k == |s| {
      assert s[k..] == [] && x[k..] == [];
      assert s[..k] == s && x[..k] == x;
    } else {
      var n := |s| - 1;
      var tail := if x[n] then [s[n]] else [];
      assert Selected(s, x) == Selected(s[..n], x[..n]) + tail;
      SelectedSplit(s[..n], x[..n], k);
      assert s[..n][..k] == s[..k] && x[..n][..k] == x[..k];
      var sk, xk := s[k..], x[k..];
      var m := |sk| - 1;
      assert sk[..m] == s[..n][k..] && xk[..m] == x[..n][k..];
      assert sk[m] == s[n] && xk[m] == x[n];
      assert Selected(sk, xk) == Selected(sk[..m], xk[..m]) + tail;
    }
  }
}
