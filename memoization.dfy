/**
 * knapsackMemoHelper and knapsackMemoization (C++/Algorithms/Memoization.cpp):
 * the recurrence of knapsackRecursive with a string-keyed cache.  The cache
 * is an unordered_map passed by reference; here it goes in as a parameter
 * and comes back as a result.
 */
module Memoization {
  import opened Items
  import opened Optimum
  import opened Recursive

  function DigitChar(d: int): char
    requires 0 <= d < 10
  {
    "0123456789"[d]
  }

  predicate IsDigit(ch: char) {
    '0' <= ch <= '9'
  }

  /** std::to_string of a non-negative int: its decimal digits. */
  function NatToString(n: nat): (s: string)
    ensures |s| >= 1 && forall i | 0 <= i < |s| :: IsDigit(s[i])
    ensures n < 10 <==> |s| == 1
    decreases n
  {
    if n < 10 then [DigitChar(n)] else NatToString(n / 10) + [DigitChar(n % 10)]
  }

  /** std::to_string of any int: a minus sign before the digits of a negative one. */
  function IntToString(c: int): string {
    if c < 0 then "-" + NatToString(-c) else NatToString(c)
  }

  /** The cache key of the pair (items considered, remaining capacity). */
  function MemoKey(n: nat, capacity: int): string {
    NatToString(n) + "-" + IntToString(capacity)
  }

  lemma {:induction false} NatToStringInjective(a: nat, b: nat)
    requires NatToString(a) == NatToString(b)
    ensures a == b
    decreases a
  {
    var s := NatToString(a);
    if a >= 10 && b >= 10 {
      var m := |s| - 1;
      assert NatToString(a / 10) == s[..m] == NatToString(b / 10);
      NatToStringInjective(a / 10, b / 10);
      assert "0123456789"[a % 10] == s[m] == "0123456789"[b % 10];
    } else if a < 10 && b < 10 {
      assert "0123456789"[a] == s[0] == "0123456789"[b];
    }
  }

  lemma IntToStringInjective(a: int, b: int)
    requires IntToString(a) == IntToString(b)
    ensures a == b
  {
    var s := IntToString(a);
    assert s[0] == '-' <==> a < 0;
    assert IntToString(b)[0] == '-' <==> b < 0;
    if a < 0 && b < 0 {
      assert NatToString(-a) == s[1..] == NatToString(-b);
      NatToStringInjective(-a, -b);
    } else if a >= 0 && b >= 0 {
      NatToStringInjective(a, b);
    }
  }

  /** In a key, the first '-' comes right after the digits of n. */
  lemma DashFollowsDigits(d: string, rest: string)
    requires forall i | 0 <= i < |d| :: IsDigit(d[i])
    ensures forall i | 0 <= i < |d| :: (d + "-" + rest)[i] != '-'
    ensures (d + "-" + rest)[|d|] == '-'
  {
  }

  /** Distinct (n, capacity) pairs never share a cache entry. */
  lemma MemoKeyInjective(n1: nat, c1: int, n2: nat, c2: int)
    requires MemoKey(n1, c1) == MemoKey(n2, c2)
    ensures n1 == n2 && c1 == c2
  {
    var d1, d2 := NatToString(n1), NatToString(n2);
    var key := MemoKey(n1, c1);
    assert key == d1 + "-" + IntToString(c1);
    assert key == d2 + "-" + IntToString(c2);
    DashFollowsDigits(d1, IntToString(c1));
    DashFollowsDigits(d2, IntToString(c2));
    assert |d1| == |d2|;
    assert d1 == key[..|d1|] == d2;
    NatToStringInjective(n1, n2);
    assert IntToString(c1) == key[|d1| + 1..] == IntToString(c2);
    IntToStringInjective(c1, c2);
  }

  /** Every cached entry holds the recursion's value for its key. */
  ghost predicate MemoSound(memo: map<string, int>, items: seq<Item>)
    requires ValidItems(items)
  {
    forall k: nat, c: int {:trigger memo[MemoKey(k, c)]} | k <= |items| && MemoKey(k, c) in memo ::
      memo[MemoKey(k, c)] == KnapsackRecursive(c, items, k)
  }

  /** Storing the correct value under a key keeps the cache sound. */
  lemma MemoStore(memo: map<string, int>, items: seq<Item>, n: nat, capacity: int)
    requires ValidItems(items) && n <= |items| && MemoSound(memo, items)
    ensures MemoSound(memo[MemoKey(n, capacity) := KnapsackRecursive(capacity, items, n)], items)
  {
    var key := MemoKey(n, capacity);
    var memo' := memo[key := KnapsackRecursive(capacity, items, n)];
    forall k: nat, c: int | k <= |items| && MemoKey(k, c) in memo'
      ensures memo'[MemoKey(k, c)] == KnapsackRecursive(c, items, k)
    {
      if MemoKey(k, c) == key {
        MemoKeyInjective(k, c, n, capacity);
      }
    }
  }

  /** One unfolding of the recursion, for n > 0 and a non-zero capacity. */
  lemma RecursiveStep(capacity: int, items: seq<Item>, n: nat)
    requires 0 < n <= |items| && ValidItems(items) && capacity != 0
    ensures KnapsackRecursive(capacity, items, n) ==
      if items[n - 1].weight > capacity then KnapsackRecursive(capacity, items, n - 1)
      else Max(items[n - 1].value + KnapsackRecursive(capacity - items[n - 1].weight, items, n - 1),
               KnapsackRecursive(capacity, items, n - 1))
  {
  }

  method KnapsackMemoHelper(capacity: int, items: seq<Item>, n: nat, memo: map<string, int>)
    returns (r: int, memo': map<string, int>)
    requires n <= |items| && ValidItems(items) && MemoSound(memo, items)
    ensures r == KnapsackRecursive(capacity, items, n)
    ensures MemoSound(memo', items)
    ensures memo.Keys <= memo'.Keys
    ensures n == 0 || capacity == 0 ==> memo' == memo
    ensures n > 0 && capacity != 0 ==> MemoKey(n, capacity) in memo' && memo'[MemoKey(n, capacity)] == r
    decreases n
  {
    if n == 0 || capacity == 0 {
      return 0, memo;
    }
    var key := MemoKey(n, capacity);
    if key in memo {
      return memo[key], memo;
    }
    ghost var expected := KnapsackRecursive(capacity, items, n);
    RecursiveStep(capacity, items, n);
    var value: int;
    var memo1: map<string, int>;
    if items[n - 1].weight > capacity {
      value, memo1 := KnapsackMemoHelper(capacity, items, n - 1, memo);
      assert value == expected;
    } else {
      var includeItem, memo2 := KnapsackMemoHelper(capacity - items[n - 1].weight, items, n - 1, memo);
      includeItem := items[n - 1].value + includeItem;
      var excludeItem, memo3 := KnapsackMemoHelper(capacity, items, n - 1, memo2);
      value, memo1 := Max(includeItem, excludeItem), memo3;
      assert value == expected;
    }
    MemoStore(memo1, items, n, capacity);
    memo' := memo1[key := value];
    r := memo'[key];
  }

  /** The wrapper: an empty cache and all the items. */
  method KnapsackMemoization(capacity: int, items: seq<Item>) returns (r: int)
    requires ValidItems(items)
    ensures r == KnapsackRecursive(capacity, items, |items|)
    ensures PositiveWeights(items) && capacity >= 0 ==> r == Opt(items, capacity)
  {
    var memo: map<string, int> := map[];
    r, memo := KnapsackMemoHelper(capacity, items, |items|, memo);
    if PositiveWeights(items) && capacity >= 0 {
      RecursiveIsOpt(capacity, items, |items|);
      assert items[..|items|] == items;
    }
  }
}
