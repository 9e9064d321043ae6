/**
 * knapsackSimulatedAnnealing: start from the empty solution; while the
 * temperature is above 1, flip one entry of the current solution, move to
 * the neighbour when it is strictly fitter or when the Metropolis test
 * passes, remember the fittest solution seen, and cool the temperature by
 * the cooling rate.
 *
 * rand() becomes two oracles indexed by the iteration number: pick(k) is
 * the value rand() gives for the neighbour index, and coin(k) is the
 * outcome of the test exp(delta / temperature) > rand() / RAND_MAX.
 */
module SimulatedAnnealing {
  import opened Items
  import opened Optimum
  import opened Solutions

  /** The annealing state: current and best solutions with their fitness. */
  datatype Annealing = Annealing(current: seq<int>, currentFitness: int, best: seq<int>, bestFitness: int)

  /** getNeighborSolution: a copy with the entry at draw % size flipped between 0 and 1. */
  function Neighbor(solution: seq<int>, draw: nat): (r: seq<int>)
    requires |solution| > 0
    ensures |r| == |solution|
    ensures r[draw % |solution|] == 1 - solution[draw % |solution|]
    ensures forall j | 0 <= j < |r| && j != draw % |solution| :: r[j] == solution[j]
  {
    var k := draw % |solution|;
    solution[k := 1 - solution[k]]
  }

  /** Flipping the same entry twice gives the solution back. */
  lemma NeighborInvolution(solution: seq<int>, draw: nat)
    requires |solution| > 0
    ensures Neighbor(Neighbor(solution, draw), draw) == solution
  {
    var r := Neighbor(Neighbor(solution, draw), draw);
    assert forall j | 0 <= j < |r| :: r[j] == solution[j];
  }

  /** A neighbour of a 0/1 vector is a 0/1 vector. */
  lemma NeighborBinary(solution: seq<int>, draw: nat)
    requires |solution| > 0 && Binary(solution)
    ensures Binary(Neighbor(solution, draw))
  {
    var r := Neighbor(solution, draw);
    forall j | 0 <= j < |r| ensures r[j] == 0 || r[j] == 1 {
      if j != draw % |solution| {
        assert r[j] == solution[j];
      }
    }
  }

  /** The all-zero solution and its fitness, both current and best. */
  function Initial(items: seq<Item>, capacity: int): Annealing {
    var zero := seq(|items|, _ => 0);
    Annealing(zero, Fitness(zero, items, capacity), zero, Fitness(zero, items, capacity))
  }

  /** The search starts from the empty selection, with current and best fitness 0. */
  lemma InitialFitnessZero(items: seq<Item>, capacity: int)
    ensures Initial(items, capacity).currentFitness == 0 && Initial(items, capacity).bestFitness == 0
    ensures Consistent(items, capacity, Initial(items, capacity))
  {
    NothingChosen(seq(|items|, _ => 0), items, capacity);
  }

  /** One iteration of the while loop, apart from the cooling. */
  function AnnealStep(items: seq<Item>, capacity: int, st: Annealing, draw: nat, coin: bool): Annealing
    requires |st.current| == |items| > 0
  {
    var next := Neighbor(st.current, draw);
    var fitness := Fitness(next, items, capacity);
    var moved := if fitness > st.currentFitness || coin then st.(current := next, currentFitness := fitness) else st;
    if moved.currentFitness > moved.bestFitness then moved.(best := moved.current, bestFitness := moved.currentFitness)
    else moved
  }

  /**
   * A bound on the number of iterations left: while t > 1 the temperature
   * drops by more than 1 - c at each iteration, so the quotient's floor
   * drops by at least one.
   */
  function Measure(t: real, c: real): int
    requires 0.0 < c < 1.0
  {
    (t / (1.0 - c)).Floor
  }

  lemma Cooling(t: real, c: real)
    requires t > 1.0 && 0.0 < c < 1.0
    ensures 0 <= Measure(t * c, c) < Measure(t, c)
  {
    var d := 1.0 - c;
    var x := t / d;
    var y := (t * c) / d;
    assert y == x - t by {
      assert t * c == t - t * d;
    }
    assert y <= x - 1.0;
    assert 0.0 <= y;
    assert y.Floor <= (x - 1.0).Floor == x.Floor - 1;
  }

  /** The while loop from iteration k with temperature t. */
  function Anneal(items: seq<Item>, capacity: int, t: real, c: real, pick: nat -> nat, coin: nat -> bool,
                  k: nat, st: Annealing): Annealing
    requires 0.0 < c < 1.0 && |st.current| == |items| && (|items| > 0 || t <= 1.0)
    decreases Measure(t, c)
  {
    if t <= 1.0 then st
    else
      Cooling(t, c);
      Anneal(items, capacity, t * c, c, pick, coin, k + 1, AnnealStep(items, capacity, st, pick(k), coin(k)))
  }

  /** The state the loop keeps: fitnesses are those of their solutions, and best is at least current. */
  predicate Consistent(items: seq<Item>, capacity: int, st: Annealing) {
    |st.current| == |items| && |st.best| == |items| &&
    st.currentFitness == Fitness(st.current, items, capacity) &&
    st.bestFitness == Fitness(st.best, items, capacity) &&
    st.currentFitness <= st.bestFitness
  }

  /** A strictly fitter neighbour is always taken, whatever the Metropolis test says. */
  lemma FitterNeighborAccepted(items: seq<Item>, capacity: int, st: Annealing, draw: nat, coin: bool)
    requires |st.current| == |items| > 0
    requires Fitness(Neighbor(st.current, draw), items, capacity) > st.currentFitness
    ensures AnnealStep(items, capacity, st, draw, coin).current == Neighbor(st.current, draw)
  {
  }

  /** A step keeps the state consistent and makes best the fitter of the old best and the new current. */
  lemma StepConsistent(items: seq<Item>, capacity: int, st: Annealing, draw: nat, coin: bool)
    requires |items| > 0 && Consistent(items, capacity, st)
    ensures var r := AnnealStep(items, capacity, st, draw, coin);
      Consistent(items, capacity, r) && r.bestFitness == Max(st.bestFitness, r.currentFitness)
  {
  }

  /** Over the whole loop the state stays consistent and the best fitness never decreases. */
  lemma {:induction false} AnnealConsistent(items: seq<Item>, capacity: int, t: real, c: real,
                                            pick: nat -> nat, coin: nat -> bool, k: nat, st: Annealing)
    requires 0.0 < c < 1.0 && (|items| > 0 || t <= 1.0) && Consistent(items, capacity, st)
    ensures Consistent(items, capacity, Anneal(items, capacity, t, c, pick, coin, k, st))
    ensures st.bestFitness <= Anneal(items, capacity, t, c, pick, coin, k, st).bestFitness
    decreases Measure(t, c)
  {
    if t > 1.0 {
      Cooling(t, c);
      StepConsistent(items, capacity, st, pick(k), coin(k));
      AnnealConsistent(items, capacity, t * c, c, pick, coin, k + 1, AnnealStep(items, capacity, st, pick(k), coin(k)));
    }
  }

  /** The returned fitness is that of a solution the loop visited, so it lies between 0 and the optimum. */
  lemma AnnealWithinOpt(items: seq<Item>, capacity: int, t: real, c: real, pick: nat -> nat, coin: nat -> bool)
    requires ValidItems(items) && 0.0 < c < 1.0 && (|items| > 0 || t <= 1.0)
    ensures var r := Anneal(items, capacity, t, c, pick, coin, 0, Initial(items, capacity));
      0 <= r.bestFitness <= Opt(items, capacity) && |r.best| == |items| &&
      r.bestFitness == Fitness(r.best, items, capacity)
  {
    var st := Initial(items, capacity);
    var r := Anneal(items, capacity, t, c, pick, coin, 0, st);
    AnnealConsistent(items, capacity, t, c, pick, coin, 0, st);
    FitnessBounds(r.best, items, capacity);
  }

  method KnapsackSimulatedAnnealing(capacity: int, items: seq<Item>, initialTemperature: real, coolingRate: real,
                                    pick: nat -> nat, coin: nat -> bool)
    returns (bestFitness: int)
    requires 0.0 < coolingRate < 1.0 && (|items| > 0 || initialTemperature <= 1.0)
    ensures bestFitness ==
      Anneal(items, capacity, initialTemperature, coolingRate, pick, coin, 0, Initial(items, capacity)).bestFitness
    ensures ValidItems(items) ==> 0 <= bestFitness <= Opt(items, capacity)
  {
    var numItems := |items|;
    var currentSolution := seq(numItems, _ => 0);
    var currentFitness := CalculateFitness(currentSolution, items, capacity);
    var bestSolution := currentSolution;
    bestFitness := currentFitness;
    var temperature := initialTemperature;
    var k: nat := 0;  // the iteration number, which indexes the oracles
    ghost var final := Anneal(items, capacity, initialTemperature, coolingRate, pick, coin, 0, Initial(items, capacity));

    while temperature > 1.0
      invariant |currentSolution| == numItems && (numItems > 0 || temperature <= 1.0)
      invariant Anneal(items, capacity, temperature, coolingRate, pick, coin, k,
                       Annealing(currentSolution, currentFitness, bestSolution, bestFitness)) == final
      decreases Measure(temperature, coolingRate)
    {
      ghost var before := Annealing(currentSolution, currentFitness, bestSolution, bestFitness);
      var newSolution := Neighbor(currentSolution, pick(k));
      var newFitness := CalculateFitness(newSolution, items, capacity);
      if newFitness > currentFitness || coin(k) {
        currentSolution := newSolution;
        currentFitness := newFitness;
      }
      if currentFitness > bestFitness {
        bestSolution := currentSolution;
        bestFitness := currentFitness;
      }
      assert Annealing(currentSolution, currentFitness, bestSolution, bestFitness) ==
        AnnealStep(items, capacity, before, pick(k), coin(k));
      Cooling(temperature, coolingRate);
      temperature := temperature * coolingRate;
      k := k + 1;
    }
    if ValidItems(items) {
      AnnealWithinOpt(items, capacity, initialTemperature, coolingRate, pick, coin);
    }
  }
}
