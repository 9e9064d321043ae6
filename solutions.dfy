/**
 * Candidate solutions of the metaheuristics: a vector of ints, one per
 * item, where an entry equal to 1 takes the item.  The fitness of a
 * vector is the value of the items it takes, or 0 when they are too heavy
 * (calculateFitness_SimA and AntColony::calculateFitness_ACO).
 */
module Solutions {
  import opened Items
  import opened Optimum

  /** Every entry is 0 or 1. */
  predicate Binary(solution: seq<int>) {
    forall i | 0 <= i < |solution| :: solution[i] == 0 || solution[i] == 1
  }

  /** The items at the positions whose entry is 1, in order. */
  function Chosen(solution: seq<int>, items: seq<Item>): seq<Item>
    requires |solution| <= |items|
    decreases |solution|
  {
    if |solution| == 0 then []
    else
      var n := |solution| - 1;
      Chosen(solution[..n], items) + (if solution[n] == 1 then [items[n]] else [])
  }

  /** The value of the chosen items, or 0 when they weigh more than the capacity. */
  function Fitness(solution: seq<int>, items: seq<Item>, capacity: int): int
    requires |solution| <= |items|
  {
    var chosen := Chosen(solution, items);
    if SumWeights(chosen) > capacity then 0 else SumValues(chosen)
  }

  /** The 0/1 vector of a boolean choice. */
  function Bits(x: seq<bool>): (r: seq<int>)
    ensures |r| == |x| && Binary(r)
    ensures forall i | 0 <= i < |x| :: (r[i] == 1 <==> x[i])
  {
    seq(|x|, i requires 0 <= i < |x| => if x[i] then 1 else 0)
  }

  /** A vector takes a sub-multiset of the items. */
  lemma ChosenSubMultiset(solution: seq<int>, items: seq<Item>)
    requires |solution| <= |items|
    ensures multiset(Chosen(solution, items)) <= multiset(items)
  {
    ChosenBelow(solution, items, |solution|);
    SumsSplit(items, |solution|);
  }

  /** One more entry of the vector: its item is appended when the entry is 1. */
  lemma ChosenStep(solution: seq<int>, items: seq<Item>, i: int)
    requires 0 <= i < |solution| <= |items|
    ensures solution[i] == 1 ==> Chosen(solution[..i + 1], items) == Chosen(solution[..i], items) + [items[i]]
    ensures solution[i] != 1 ==> Chosen(solution[..i + 1], items) == Chosen(solution[..i], items)
  {
    assert solution[..i + 1][..i] == solution[..i];
    assert Chosen(solution[..i], items) + [] == Chosen(solution[..i], items);
  }

  /** A vector of length at most k takes items from the first k only. */
  lemma {:induction false} ChosenBelow(solution: seq<int>, items: seq<Item>, k: int)
    requires |solution| <= k <= |items|
    ensures multiset(Chosen(solution, items)) <= multiset(items[..k])
    decreases |solution|
  {
    if |solution| > 0 {
      var n := |solution| - 1;
      ChosenBelow(solution[..n], items, n);
      assert items[..n + 1] == items[..n] + [items[n]];
      assert items[..k] == items[..n + 1] + items[n + 1..k];
    }
  }

  /** The fitness of any vector lies between 0 and the optimum. */
  lemma FitnessBounds(solution: seq<int>, items: seq<Item>, capacity: int)
    requires ValidItems(items) && |solution| <= |items|
    ensures 0 <= Fitness(solution, items, capacity) <= Opt(items, capacity)
  {
    var chosen := Chosen(solution, items);
    ChosenSubMultiset(solution, items);
    SubMultisetValid(chosen, items);
    SumsNonNegative(chosen);
    if SumWeights(chosen) <= capacity {
      OptUpperBound(items, capacity, chosen);
    }
  }

  /** A vector with no entry equal to 1 takes nothing and is worth 0. */
  lemma {:induction false} NothingChosen(solution: seq<int>, items: seq<Item>, capacity: int)
    requires |solution| <= |items| && forall i | 0 <= i < |solution| :: solution[i] != 1
    ensures Chosen(solution, items) == []
    ensures Fitness(solution, items, capacity) == 0
    decreases |solution|
  {
    if |solution| > 0 {
      var n := |solution| - 1;
      NothingChosen(solution[..n], items, capacity);
    }
  }

  /** On a boolean choice, Chosen and Selected agree. */
  lemma {:induction false} ChosenBits(x: seq<bool>, items: seq<Item>)
    requires |x| == |items|
    ensures Chosen(Bits(x), items) == Selected(items, x)
    decreases |x|
  {
    if |x| > 0 {
      var n := |x| - 1;
      assert Bits(x)[..n] == Bits(x[..n]);
      ChosenBits(x[..n], items[..n]);
      ChosenPrefix(Bits(x[..n]), items);
    }
  }

  /** Chosen only looks at as many items as the vector is long. */
  lemma {:induction false} ChosenPrefix(solution: seq<int>, items: seq<Item>)
    requires |solution| <= |items|
    ensures Chosen(solution, items) == Chosen(solution, items[..|solution|])
    decreases |solution|
  {
    if |solution| > 0 {
      var n := |solution| - 1;
      ChosenPrefix(solution[..n], items);
      ChosenPrefix(solution[..n], items[..|solution|]);
      assert items[..|solution|][..n] == items[..n];
    }
  }

  /** The optimum is the fitness of some 0/1 vector over all the items. */
  lemma OptAttained(items: seq<Item>, capacity: int) returns (solution: seq<int>)
    requires ValidItems(items) && capacity >= 0
    ensures |solution| == |items| && Binary(solution)
    ensures Fitness(solution, items, capacity) == Opt(items, capacity)
  {
    var x := OptChoice(items, capacity);
    solution := Bits(x);
    ChosenBits(x, items);
  }

  /**
   * The fitness loop of calculateFitness_SimA and
   * AntColony::calculateFitness_ACO: accumulate weight and value over the
   * entries equal to 1, then reject an overweight total.
   */
  method CalculateFitness(solution: seq<int>, items: seq<Item>, capacity: int) returns (fitness: int)
    requires |solution| <= |items|
    ensures fitness == Fitness(solution, items, capacity)
  {
    var totalWeight := 0;
    var totalValue := 0;
    var i := 0;
    while i < |solution|
      invariant 0 <= i <= |solution|
      invariant totalWeight == SumWeights(Chosen(solution[..i], items))
      invariant totalValue == SumValues(Chosen(solution[..i], items))
    {
      ChosenStep(solution, items, i);
      if solution[i] == 1 {
        SumsSnoc(Chosen(solution[..i], items), items[i]);
        totalWeight := totalWeight + items[i].weight;
        totalValue := totalValue + items[i].value;
      }
      i := i + 1;
    }
    assert solution[..i] == solution;
    if totalWeight > capacity {
      return 0;
    }
    return totalValue;
  }
}
