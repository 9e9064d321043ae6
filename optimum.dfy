/**
 * The 0/1-knapsack optimum, the reference every solver is measured
 * against: the best total value of a sub-multiset of the items whose total
 * weight is at most the capacity.  It is defined by the include/exclude
 * recurrence on the last item and then proved to be exactly that maximum
 * (OptUpperBound and OptChoice).
 */
module Optimum {
  import opened Items

  ghost function Opt(items: seq<Item>, capacity: int): (r: int)
    ensures r >= 0
    decreases |items|
  {
    if |items| == 0 then 0
    else
      var n := |items| - 1;
      var exclude := Opt(items[..n], capacity);
      if items[n].weight > capacity then exclude
      else Max(exclude, items[n].value + Opt(items[..n], capacity - items[n].weight))
  }

  /** The recurrence read on a prefix: the shape the table and the recursion use. */
  lemma OptPrefixStep(items: seq<Item>, i: int, w: int)
    requires 0 < i <= |items|
    ensures Opt(items[..i], w) ==
      if items[i - 1].weight > w then Opt(items[..i - 1], w)
      else Max(Opt(items[..i - 1], w), items[i - 1].value + Opt(items[..i - 1], w - items[i - 1].weight))
  {
    assert items[..i][..i - 1] == items[..i - 1];
  }

  /** No feasible sub-multiset of the items is worth more than Opt. */
  lemma {:induction false} OptUpperBound(items: seq<Item>, capacity: int, chosen: seq<Item>)
    requires ValidItems(items)
    requires multiset(chosen) <= multiset(items)
    requires SumWeights(chosen) <= capacity
    ensures SumValues(chosen) <= Opt(items, capacity)
    decreases |items|
  {
    if |items| == 0 {
      assert |chosen| == |multiset(chosen)| == 0;
    } else {
      var n := |items| - 1;
      var last, rest := items[n], items[..n];
      DropLast(items, chosen);
      if last in multiset(chosen) {
        var others := RemoveOne(chosen, last);
        SubMultisetValid(others, rest);
        SumsNonNegative(others);
        OptUpperBound(rest, capacity - last.weight, others);
      } else {
        OptUpperBound(rest, capacity, chosen);
      }
    }
  }

  /** Splitting the last item off the items splits it off any sub-multiset too. */
  lemma DropLast(items: seq<Item>, chosen: seq<Item>)
    requires |items| > 0 && ValidItems(items) && multiset(chosen) <= multiset(items)
    ensures ValidItems(items[..|items| - 1])
    ensures items[|items| - 1] in items
    ensures items[|items| - 1] !in multiset(chosen) ==> multiset(chosen) <= multiset(items[..|items| - 1])
    ensures multiset(chosen) - multiset{items[|items| - 1]} <= multiset(items[..|items| - 1])
  {
    var n := |items| - 1;
    assert items == items[..n] + [items[n]];
    assert ValidItems(items[..n]) by { forall y | y in items[..n] ensures y in items { } }
  }

  /** Taking one occurrence of x out of a sequence, with its value and weight. */
  lemma RemoveOne(chosen: seq<Item>, x: Item) returns (others: seq<Item>)
    requires x in multiset(chosen)
    ensures multiset(others) == multiset(chosen) - multiset{x}
    ensures SumValues(chosen) == SumValues(others) + x.value
    ensures SumWeights(chosen) == SumWeights(others) + x.weight
  {
    var k :| 0 <= k < |chosen| && chosen[k] == x;
    others := chosen[..k] + chosen[k + 1..];
    RemoveAt(chosen, k);
  }

  /** A 0/1 choice that attains Opt: the optimum is achieved by a feasible selection. */
  ghost function OptChoice(items: seq<Item>, capacity: int): (x: seq<bool>)
    requires ValidItems(items) && capacity >= 0
    ensures |x| == |items|
    ensures SumWeights(Selected(items, x)) <= capacity
    ensures SumValues(Selected(items, x)) == Opt(items, capacity)
    decreases |items|
  {
    if |items| == 0 then []
    else
      var n := |items| - 1;
      var rest, last := items[..n], items[n];
      DropLast(items, []);
      assert items == rest + [last];
      if last.weight > capacity || Opt(rest, capacity) >= last.value + Opt(rest, capacity - last.weight) then
        var exclude := OptChoice(rest, capacity);
        assert Opt(items, capacity) == Opt(rest, capacity);
        ExtendChoice(rest, exclude, last, false);
        exclude + [false]
      else
        var take := OptChoice(rest, capacity - last.weight);
        assert Opt(items, capacity) == last.value + Opt(rest, capacity - last.weight);
        ExtendChoice(rest, take, last, true);
        take + [true]
  }

  /** One more position in a choice adds the item's value and weight exactly when it is chosen. */
  lemma ExtendChoice(s: seq<Item>, x: seq<bool>, e: Item, b: bool)
    requires |x| == |s|
    ensures SumValues(Selected(s + [e], x + [b])) == SumValues(Selected(s, x)) + (if b then e.value else 0)
    ensures SumWeights(Selected(s + [e], x + [b])) == SumWeights(Selected(s, x)) + (if b then e.weight else 0)
  {
    SelectedSnoc(s, x, e, b);
    if b {
      SumsSnoc(Selected(s, x), e);
    } else {
      assert Selected(s, x) + [] == Selected(s, x);
    }
  }

  /** Opt is the maximum over feasible sub-multisets, in one statement. */
  lemma OptIsMaximum(items: seq<Item>, capacity: int)
    requires ValidItems(items) && capacity >= 0
    ensures forall chosen | multiset(chosen) <= multiset(items) && SumWeights(chosen) <= capacity ::
      SumValues(chosen) <= Opt(items, capacity)
    ensures exists x | |x| == |items| ::
      (SumWeights(Selected(items, x)) <= capacity && SumValues(Selected(items, x)) == Opt(items, capacity))
  {
    forall chosen | multiset(chosen) <= multiset(items) && SumWeights(chosen) <= capacity
      ensures SumValues(chosen) <= Opt(items, capacity)
    {
      OptUpperBound(items, capacity, chosen);
    }
    var x := OptChoice(items, capacity);
    assert SumWeights(Selected(items, x)) <= capacity;
  }

  /** The witness as a sub-multiset, the form the heuristics' bounds use. */
  lemma OptWitness(items: seq<Item>, capacity: int) returns (chosen: seq<Item>)
    requires ValidItems(items) && capacity >= 0
    ensures multiset(chosen) <= multiset(items)
    ensures SumWeights(chosen) <= capacity
    ensures SumValues(chosen) == Opt(items, capacity)
  {
    var x := OptChoice(items, capacity);
    chosen := Selected(items, x);
    SelectedSubMultiset(items, x);
  }

  /** Sorting a copy of the items does not change the optimum. */
  lemma OptPermutation(a: seq<Item>, b: seq<Item>, capacity: int)
    requires ValidItems(a) && capacity >= 0
    requires multiset(a) == multiset(b)
    ensures Opt(a, capacity) == Opt(b, capacity)
  {
    SubMultisetValid(b, a);
    var wa := OptWitness(a, capacity);
    OptUpperBound(b, capacity, wa);
    var wb := OptWitness(b, capacity);
    OptUpperBound(a, capacity, wb);
  }

  /** The same recurrence read on the first item, the order backtracking explores. */
  lemma OptFirst(items: seq<Item>, capacity: int)
    requires ValidItems(items) && |items| > 0 && capacity >= 0
    ensures Opt(items, capacity) ==
      if items[0].weight > capacity then Opt(items[1..], capacity)
      else Max(Opt(items[1..], capacity), items[0].value + Opt(items[1..], capacity - items[0].weight))
  {
    OptFirstAtLeast(items, capacity);
    OptFirstAtMost(items, capacity);
  }

  lemma OptFirstAtLeast(items: seq<Item>, capacity: int)
    requires ValidItems(items) && |items| > 0 && capacity >= 0
    ensures Opt(items[1..], capacity) <= Opt(items, capacity)
    ensures items[0].weight <= capacity ==>
      items[0].value + Opt(items[1..], capacity - items[0].weight) <= Opt(items, capacity)
  {
    var first, rest := items[0], items[1..];
    assert items == [first] + rest;
    assert multiset(items) == multiset{first} + multiset(rest);
    assert ValidItems(rest) by { forall y | y in rest ensures y in items { } }
    var skip := OptWitness(rest, capacity);
    OptUpperBound(items, capacity, skip);
    if first.weight <= capacity {
      var tail := OptWitness(rest, capacity - first.weight);
      var take := [first] + tail;
      SumsAppend([first], tail);
      assert SumValues([first]) == first.value && SumWeights([first]) == first.weight by {
        assert [first][..0] == [];
      }
      OptUpperBound(items, capacity, take);
    }
  }

  lemma OptFirstAtMost(items: seq<Item>, capacity: int)
    requires ValidItems(items) && |items| > 0 && capacity >= 0
    ensures Opt(items, capacity) <= Opt(items[1..], capacity) ||
      (items[0].weight <= capacity &&
       Opt(items, capacity) <= items[0].value + Opt(items[1..], capacity - items[0].weight))
  {
    var first, rest := items[0], items[1..];
    var best := OptWitness(items, capacity);
    DropFirst(items, best);
    if first in multiset(best) {
      var others := RemoveOne(best, first);
      SubMultisetValid(others, rest);
      SumsNonNegative(others);
      OptUpperBound(rest, capacity - first.weight, others);
    } else {
      OptUpperBound(rest, capacity, best);
    }
  }

  /** Splitting the first item off the items splits it off any sub-multiset too. */
  lemma DropFirst(items: seq<Item>, chosen: seq<Item>)
    requires |items| > 0 && ValidItems(items) && multiset(chosen) <= multiset(items)
    ensures ValidItems(items[1..])
    ensures items[0] !in multiset(chosen) ==> multiset(chosen) <= multiset(items[1..])
    ensures multiset(chosen) - multiset{items[0]} <= multiset(items[1..])
  {
    assert items == [items[0]] + items[1..];
    assert ValidItems(items[1..]) by { forall y | y in items[1..] ensures y in items { } }
  }

  /** More room never lowers the optimum. */
  lemma OptMonotoneCapacity(items: seq<Item>, c1: int, c2: int)
    requires ValidItems(items) && 0 <= c1 <= c2
    ensures Opt(items, c1) <= Opt(items, c2)
  {
    var w := OptWitness(items, c1);
    OptUpperBound(items, c2, w);
  }

  /** More items never lower the optimum. */
  lemma OptMonotoneItems(items: seq<Item>, i: int, j: int, capacity: int)
    requires ValidItems(items) && 0 <= i <= j <= |items| && capacity >= 0
    ensures Opt(items[..i], capacity) <= Opt(items[..j], capacity)
  {
    assert ValidItems(items[..i]) by { forall y | y in items[..i] ensures y in items { } }
    assert ValidItems(items[..j]) by { forall y | y in items[..j] ensures y in items { } }
    var w := OptWitness(items[..i], capacity);
    assert items[..j] == items[..i] + items[i..j];
    OptUpperBound(items[..j], capacity, w);
  }

  /** The optimum never exceeds the value of all items together. */
  lemma OptAtMostTotal(items: seq<Item>, capacity: int)
    requires ValidItems(items) && capacity >= 0
    ensures Opt(items, capacity) <= SumValues(items)
  {
    var w := OptWitness(items, capacity);
    SubMultisetAtMostTotal(items, w);
  }

  /** Leaving items out never adds value. */
  lemma {:induction false} SubMultisetAtMostTotal(items: seq<Item>, chosen: seq<Item>)
    requires ValidItems(items) && multiset(chosen) <= multiset(items)
    ensures SumValues(chosen) <= SumValues(items)
    decreases |items|
  {
    if |items| == 0 {
      assert |chosen| == |multiset(chosen)| == 0;
    } else {
      var n := |items| - 1;
      var last, rest := items[n], items[..n];
      DropLast(items, chosen);
      if last in multiset(chosen) {
        var others := RemoveOne(chosen, last);
        SubMultisetAtMostTotal(rest, others);
      } else {
        SubMultisetAtMostTotal(rest, chosen);
      }
    }
  }

  /** With positive weights, nothing fits in an empty knapsack. */
  lemma {:induction false} OptZeroCapacity(items: seq<Item>)
    requires PositiveWeights(items)
    ensures Opt(items, 0) == 0
    decreases |items|
  {
    if |items| > 0 {
      var n := |items| - 1;
      assert items[n] in items;
      assert PositiveWeights(items[..n]) by { forall y | y in items[..n] ensures y in items { } }
      OptZeroCapacity(items[..n]);
    }
  }

  /** A single item is taken exactly when it fits. */
  lemma OptSingle(x: Item, capacity: int)
    requires x.value >= 0
    ensures Opt([x], capacity) == if x.weight <= capacity then x.value else 0
  {
    assert [x][..0] == [];
  }

  /** A negative capacity admits nothing, whatever the weights. */
  lemma {:induction false} OptNegativeCapacity(items: seq<Item>, capacity: int)
    requires ValidItems(items) && capacity < 0
    ensures Opt(items, capacity) == 0
    decreases |items|
  {
    if |items| > 0 {
      var n := |items| - 1;
      assert items[n] in items;
      assert ValidItems(items[..n]) by { forall y | y in items[..n] ensures y in items { } }
      OptNegativeCapacity(items[..n], capacity);
    }
  }
}
