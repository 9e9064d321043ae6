/**
 * The AntColony class: per iteration every ant includes each item with a
 * probability computed from the item's pheromone level and its inverse
 * weight, the best fitness seen so far is tracked, and the pheromone
 * matrix evaporates and then gains, on its diagonal, the fitness of every
 * ant that chose the item.
 *
 * rand() becomes the oracle draw(iteration, ant, item), the value rand()
 * returns for that decision, and pow becomes the oracle function pow.  The
 * pheromone matrix, the best solution and the best value survive between
 * calls of KnapsackACO on the same colony.
 */
module Aco {
  import opened Items
  import opened Optimum
  import opened Solutions

  /** Every row i of the matrix has an entry i. */
  predicate HasDiagonal(p: seq<seq<real>>) {
    forall i | 0 <= i < |p| :: i < |p[i]|
  }

  /** The same number of rows, each of the same length. */
  predicate SameShape(p: seq<seq<real>>, q: seq<seq<real>>) {
    |p| == |q| && forall i | 0 <= i < |p| :: |p[i]| == |q[i]|
  }

  /** std::vector::resize(n, fill): truncate, or pad with copies of fill. */
  function Resize<T>(s: seq<T>, n: nat, fill: T): (r: seq<T>)
    ensures |r| == n
    ensures forall i | 0 <= i < |s| && i < n :: r[i] == s[i]
    ensures forall i | |s| <= i < n :: r[i] == fill
  {
    if |s| >= n then s[..n] else s + seq(n - |s|, _ => fill)
  }

  /** Resizing to the length a sequence already has changes nothing. */
  lemma ResizeSameLength<T>(s: seq<T>, fill: T)
    ensures Resize(s, |s|, fill) == s
  {
  }

  /** A matrix with a diagonal keeps one when resized with rows of the new length. */
  lemma ResizeKeepsDiagonal(p: seq<seq<real>>, n: nat)
    requires HasDiagonal(p)
    ensures HasDiagonal(Resize(p, n, seq(n, _ => 1.0)))
  {
    var r := Resize(p, n, seq(n, _ => 1.0));
    forall i | 0 <= i < |r| ensures i < |r[i]| {
      if i < |p| {
        assert r[i] == p[i];
      }
    }
  }

  /** Whether the ant's vector takes item i. */
  predicate Picks(solution: seq<int>, i: int) {
    0 <= i < |solution| && solution[i] == 1
  }

  /** Every item the vector takes has a diagonal entry in the matrix. */
  predicate DepositsFit(solution: seq<int>, p: seq<seq<real>>) {
    forall i | 0 <= i < |solution| && solution[i] == 1 :: i < |p| && i < |p[i]|
  }

  /** What the first ants ants deposit on diagonal entry i: the fitness of each ant that took item i. */
  function Deposit(solutions: seq<seq<int>>, fitness: seq<int>, ants: int, i: int): real
    requires 0 <= ants <= |solutions| && ants <= |fitness|
    decreases ants
  {
    if ants == 0 then 0.0
    else Deposit(solutions, fitness, ants - 1, i) + (if Picks(solutions[ants - 1], i) then fitness[ants - 1] as real else 0.0)
  }

  /** Non-negative fitness values deposit a non-negative amount. */
  lemma {:induction false} DepositNonNegative(solutions: seq<seq<int>>, fitness: seq<int>, ants: int, i: int)
    requires 0 <= ants <= |solutions| && ants <= |fitness|
    requires forall a | 0 <= a < ants :: fitness[a] >= 0
    ensures Deposit(solutions, fitness, ants, i) >= 0.0
    decreases ants
  {
    if ants > 0 {
      DepositNonNegative(solutions, fitness, ants - 1, i);
    }
  }

  /** An item no ant took receives nothing. */
  lemma {:induction false} DepositUntaken(solutions: seq<seq<int>>, fitness: seq<int>, ants: int, i: int)
    requires 0 <= ants <= |solutions| && ants <= |fitness|
    requires forall a | 0 <= a < ants :: !Picks(solutions[a], i)
    ensures Deposit(solutions, fitness, ants, i) == 0.0
    decreases ants
  {
    if ants > 0 {
      DepositUntaken(solutions, fitness, ants - 1, i);
    }
  }

  /**
   * The inclusion test (rand() % 100) < prob * 100 with
   * prob = pow(level, alpha) * pow(1.0 / weight, beta).
   */
  predicate Include(level: real, it: Item, alpha: real, beta: real, pow: (real, real) -> real, draw: nat)
    requires it.weight > 0
  {
    ((draw % 100) as real) < pow(level, alpha) * pow(1.0 / (it.weight as real), beta) * 100.0
  }

  /** The pheromone levels after evaporation and the deposits of the ants. */
  predicate Updated(p: seq<seq<real>>, old_p: seq<seq<real>>, rate: real, solutions: seq<seq<int>>, fitness: seq<int>, ants: int)
    requires 0 <= ants <= |solutions| && ants <= |fitness|
  {
    SameShape(p, old_p) &&
    forall i, j | 0 <= i < |p| && 0 <= j < |p[i]| ::
      p[i][j] == old_p[i][j] * (1.0 - rate) + (if i == j then Deposit(solutions, fitness, ants, i) else 0.0)
  }

  /**
   * With an evaporation rate in [0, 1), positive levels and non-negative
   * fitness values, every level stays positive after an update.
   */
  lemma UpdateKeepsPositive(p: seq<seq<real>>, old_p: seq<seq<real>>, rate: real,
                            solutions: seq<seq<int>>, fitness: seq<int>, ants: int)
    requires 0 <= ants <= |solutions| && ants <= |fitness| && 0.0 <= rate < 1.0
    requires forall a | 0 <= a < ants :: fitness[a] >= 0
    requires forall i, j | 0 <= i < |old_p| && 0 <= j < |old_p[i]| :: old_p[i][j] > 0.0
    requires Updated(p, old_p, rate, solutions, fitness, ants)
    ensures forall i, j | 0 <= i < |p| && 0 <= j < |p[i]| :: p[i][j] > 0.0
  {
    forall i, j | 0 <= i < |p| && 0 <= j < |p[i]| ensures p[i][j] > 0.0 {
      DepositNonNegative(solutions, fitness, ants, i);
      assert old_p[i][j] * (1.0 - rate) > 0.0;
    }
  }

  /**
   * One ant's 0/1 vector as a value: item i is taken exactly when its
   * inclusion test passes on the diagonal level p[i][i].
   */
  function AntSolution(p: seq<seq<real>>, items: seq<Item>, alpha: real, beta: real, pow: (real, real) -> real,
                       draw: (nat, nat, nat) -> nat, iteration: nat, ant: nat): (r: seq<int>)
    requires PositiveWeights(items) && |p| == |items| && HasDiagonal(p)
    ensures |r| == |items| && Binary(r)
    ensures forall item | 0 <= item < |items| ::
      (r[item] == 1 <==> Include(p[item][item], items[item], alpha, beta, pow, draw(iteration, ant, item)))
  {
    Bits(seq(|items|, item requires 0 <= item < |items| =>
      assert items[item] in items;
      Include(p[item][item], items[item], alpha, beta, pow, draw(iteration, ant, item))))
  }

  /** The fitness of each vector, in order. */
  function Scores(solutions: seq<seq<int>>, items: seq<Item>, capacity: int): (r: seq<int>)
    requires forall a | 0 <= a < |solutions| :: |solutions[a]| <= |items|
    ensures |r| == |solutions|
    decreases |solutions|
  {
    if |solutions| == 0 then []
    else
      var n := |solutions| - 1;
      Scores(solutions[..n], items, capacity) + [Fitness(solutions[n], items, capacity)]
  }

  /** Entry a of the scores is the fitness of vector a. */
  lemma {:induction false} ScoresAre(solutions: seq<seq<int>>, items: seq<Item>, capacity: int)
    requires forall a | 0 <= a < |solutions| :: |solutions[a]| <= |items|
    ensures forall a | 0 <= a < |solutions| :: Scores(solutions, items, capacity)[a] == Fitness(solutions[a], items, capacity)
    decreases |solutions|
  {
    if |solutions| > 0 {
      ScoresAre(solutions[..|solutions| - 1], items, capacity);
    }
  }

  /**
   * The best-so-far scan over the first ants ants, started from (best,
   * bestValue): the result is the first ant that is strictly fitter than
   * everything before it, or the starting pair when no ant beats it.
   */
  function Best(solutions: seq<seq<int>>, fitness: seq<int>, ants: nat, best: seq<int>, bestValue: int): (r: (seq<int>, int))
    requires ants <= |solutions| && ants <= |fitness|
    ensures bestValue <= r.1
    ensures forall a | 0 <= a < ants :: fitness[a] <= r.1
    ensures r == (best, bestValue) ||
      exists a | 0 <= a < ants :: r == (solutions[a], fitness[a]) && bestValue < fitness[a] &&
        forall b | 0 <= b < a :: fitness[b] < fitness[a]
    decreases ants
  {
    if ants == 0 then (best, bestValue)
    else
      var prev := Best(solutions, fitness, ants - 1, best, bestValue);
      if fitness[ants - 1] > prev.1 then (solutions[ants - 1], fitness[ants - 1]) else prev
  }

  /** updatePheromones as a value: every level evaporates, each diagonal entry gains its deposit. */
  function Update(p: seq<seq<real>>, rate: real, solutions: seq<seq<int>>, fitness: seq<int>, ants: int): (r: seq<seq<real>>)
    requires 0 <= ants <= |solutions| && ants <= |fitness|
    ensures Updated(r, p, rate, solutions, fitness, ants)
  {
    seq(|p|, i requires 0 <= i < |p| =>
      seq(|p[i]|, j requires 0 <= j < |p[i]| =>
        p[i][j] * (1.0 - rate) + (if i == j then Deposit(solutions, fitness, ants, i) else 0.0)))
  }

  /** The update determines the new matrix: any matrix Updated from old_p is Update(old_p, ...). */
  lemma UpdatedIsUpdate(p: seq<seq<real>>, old_p: seq<seq<real>>, rate: real, solutions: seq<seq<int>>, fitness: seq<int>, ants: int)
    requires 0 <= ants <= |solutions| && ants <= |fitness|
    requires Updated(p, old_p, rate, solutions, fitness, ants)
    ensures p == Update(old_p, rate, solutions, fitness, ants)
  {
    var q := Update(old_p, rate, solutions, fitness, ants);
    forall i | 0 <= i < |p| ensures p[i] == q[i] {
      assert |p[i]| == |q[i]|;
      forall j | 0 <= j < |p[i]| ensures p[i][j] == q[i][j] {
      }
    }
  }

  /** A sequence of values that never drops from one index to the next never drops at all. */
  lemma {:induction false} NonDecreasing(v: nat -> int, j: nat, k: nat)
    requires forall i: nat :: v(i) <= v(i + 1)
    requires j <= k
    ensures v(j) <= v(k)
    decreases k
  {
    if j < k {
      NonDecreasing(v, j, k - 1);
    }
  }

  /** The state of a colony that knapsackACO reads and writes. */
  datatype Colony = Colony(pheromones: seq<seq<real>>, bestSolution: seq<int>, bestValue: int)

  /**
   * The sizing at the start of knapsackACO as a value: the matrix and the
   * best solution are resized to n, new rows filled with 1.0 levels, and
   * the best value is reset.
   */
  function Start(c: Colony, n: nat): (r: Colony)
    requires HasDiagonal(c.pheromones)
    ensures |r.pheromones| == n && |r.bestSolution| == n && r.bestValue == 0 && HasDiagonal(r.pheromones)
    ensures forall i | 0 <= i < |c.pheromones| && i < n :: r.pheromones[i] == c.pheromones[i]
    ensures forall i | |c.pheromones| <= i < n :: r.pheromones[i] == seq(n, _ => 1.0)
  {
    ResizeKeepsDiagonal(c.pheromones, n);
    Colony(Resize(c.pheromones, n, seq(n, _ => 1.0)), Resize(c.bestSolution, n, 0), 0)
  }

  class AntColony {
    const numAnts: int
    const numIterations: int
    const alpha: real
    const beta: real
    const evaporationRate: real

    var pheromones: seq<seq<real>>
    var bestSolution: seq<int>
    var bestValue: int

    /** The colony invariant: every pheromone row has its diagonal entry. */
    predicate Valid()
      reads this
    {
      HasDiagonal(pheromones)
    }

    /** The fields knapsackACO reads and writes, as a value. */
    function State(): Colony
      reads this
    {
      Colony(pheromones, bestSolution, bestValue)
    }

    /** How many times the iteration loop runs: numIterations, or none when it is not positive. */
    function Rounds(): (r: nat)
      ensures numIterations > 0 ==> r == numIterations
      ensures numIterations <= 0 ==> r == 0
    {
      if numIterations > 0 then numIterations else 0
    }

    /** The solutions of the first ants ants of one iteration, on matrix p. */
    function AntSolutions(p: seq<seq<real>>, items: seq<Item>, iteration: nat, ants: nat, pow: (real, real) -> real,
                          draw: (nat, nat, nat) -> nat): (r: seq<seq<int>>)
      requires PositiveWeights(items) && |p| == |items| && HasDiagonal(p)
      ensures |r| == ants && forall ant | 0 <= ant < ants :: |r[ant]| == |items|
      decreases ants
    {
      if ants == 0 then []
      else AntSolutions(p, items, iteration, ants - 1, pow, draw) + [AntSolution(p, items, alpha, beta, pow, draw, iteration, ants - 1)]
    }

    /** Entry ant is that ant's solution. */
    lemma {:induction false} AntSolutionsAre(p: seq<seq<real>>, items: seq<Item>, iteration: nat, ants: nat,
                                             pow: (real, real) -> real, draw: (nat, nat, nat) -> nat)
      requires PositiveWeights(items) && |p| == |items| && HasDiagonal(p)
      ensures forall ant | 0 <= ant < ants ::
        AntSolutions(p, items, iteration, ants, pow, draw)[ant] == AntSolution(p, items, alpha, beta, pow, draw, iteration, ant)
      decreases ants
    {
      if ants > 0 {
        AntSolutionsAre(p, items, iteration, ants - 1, pow, draw);
      }
    }

    /**
     * One pass of the iteration loop of knapsackACO from state c: the ants
     * build and score their solutions, the best-so-far scan runs over
     * them, and the matrix is updated.
     */
    function Iteration(c: Colony, capacity: int, items: seq<Item>, iteration: nat, pow: (real, real) -> real,
                       draw: (nat, nat, nat) -> nat): (r: Colony)
      requires PositiveWeights(items) && |c.pheromones| == |items| && HasDiagonal(c.pheromones) && numAnts >= 0
      ensures |r.pheromones| == |items| && HasDiagonal(r.pheromones)
      ensures |c.bestSolution| == |items| ==> |r.bestSolution| == |items|
      ensures c.bestValue <= r.bestValue
      ensures forall ant | 0 <= ant < numAnts ::
        Fitness(AntSolution(c.pheromones, items, alpha, beta, pow, draw, iteration, ant), items, capacity) <= r.bestValue
      ensures (r.bestSolution == c.bestSolution && r.bestValue == c.bestValue) ||
        exists ant | 0 <= ant < numAnts ::
          r.bestSolution == AntSolution(c.pheromones, items, alpha, beta, pow, draw, iteration, ant) &&
          r.bestValue == Fitness(r.bestSolution, items, capacity)
    {
      var solutions := AntSolutions(c.pheromones, items, iteration, numAnts, pow, draw);
      var fitness := Scores(solutions, items, capacity);
      AntSolutionsAre(c.pheromones, items, iteration, numAnts, pow, draw);
      ScoresAre(solutions, items, capacity);
      var best := Best(solutions, fitness, numAnts, c.bestSolution, c.bestValue);
      Colony(Update(c.pheromones, evaporationRate, solutions, fitness, numAnts), best.0, best.1)
    }

    /** The colony state after the first k passes of the iteration loop, started from c. */
    function After(c: Colony, capacity: int, items: seq<Item>, k: nat, pow: (real, real) -> real,
                   draw: (nat, nat, nat) -> nat): (r: Colony)
      requires PositiveWeights(items) && |c.pheromones| == |items| && HasDiagonal(c.pheromones) && numAnts >= 0
      ensures |r.pheromones| == |items| && HasDiagonal(r.pheromones)
      ensures |c.bestSolution| == |items| ==> |r.bestSolution| == |items|
      decreases k, 0
    {
      if k == 0 then c else Pass(c, capacity, items, k - 1, pow, draw)
    }

    /**
     * Pass k of the iteration loop, started from c.  It is spelled out by
     * Advance one call further down, so that a proof which only steps
     * After does not also unfold Iteration.
     */
    function Pass(c: Colony, capacity: int, items: seq<Item>, k: nat, pow: (real, real) -> real,
                  draw: (nat, nat, nat) -> nat): (r: Colony)
      requires PositiveWeights(items) && |c.pheromones| == |items| && HasDiagonal(c.pheromones) && numAnts >= 0
      ensures |r.pheromones| == |items| && HasDiagonal(r.pheromones)
      ensures |c.bestSolution| == |items| ==> |r.bestSolution| == |items|
      decreases k, 2
    {
      Advance(c, capacity, items, k, pow, draw)
    }

    /** Iteration on the state the first k passes leave. */
    function Advance(c: Colony, capacity: int, items: seq<Item>, k: nat, pow: (real, real) -> real,
                     draw: (nat, nat, nat) -> nat): (r: Colony)
      requires PositiveWeights(items) && |c.pheromones| == |items| && HasDiagonal(c.pheromones) && numAnts >= 0
      ensures |r.pheromones| == |items| && HasDiagonal(r.pheromones)
      ensures |c.bestSolution| == |items| ==> |r.bestSolution| == |items|
      decreases k, 1
    {
      Iteration(After(c, capacity, items, k, pow, draw), capacity, items, k, pow, draw)
    }

    /** After k + 1 passes: one Iteration on the state after k passes. */
    lemma AfterSucc(c: Colony, capacity: int, items: seq<Item>, k: nat, pow: (real, real) -> real, draw: (nat, nat, nat) -> nat)
      requires PositiveWeights(items) && |c.pheromones| == |items| && HasDiagonal(c.pheromones) && numAnts >= 0
      ensures After(c, capacity, items, k + 1, pow, draw) == Iteration(After(c, capacity, items, k, pow, draw), capacity, items, k, pow, draw)
    {
      assert After(c, capacity, items, k + 1, pow, draw) == Pass(c, capacity, items, k, pow, draw);
      assert Pass(c, capacity, items, k, pow, draw) == Advance(c, capacity, items, k, pow, draw);
    }

    /** One more pass: the best value does not drop, no ant of the pass beats it, and it is kept or some ant's. */
    lemma AfterStep(c: Colony, capacity: int, items: seq<Item>, k: nat, pow: (real, real) -> real, draw: (nat, nat, nat) -> nat)
      requires PositiveWeights(items) && |c.pheromones| == |items| && HasDiagonal(c.pheromones) && numAnts >= 0
      ensures var prev := After(c, capacity, items, k, pow, draw);
        var next := After(c, capacity, items, k + 1, pow, draw);
        && prev.bestValue <= next.bestValue
        && (forall ant | 0 <= ant < numAnts ::
              Fitness(AntSolution(prev.pheromones, items, alpha, beta, pow, draw, k, ant), items, capacity) <= next.bestValue)
        && ((next.bestSolution == prev.bestSolution && next.bestValue == prev.bestValue) ||
            exists ant | 0 <= ant < numAnts ::
              next.bestSolution == AntSolution(prev.pheromones, items, alpha, beta, pow, draw, k, ant) &&
              next.bestValue == Fitness(next.bestSolution, items, capacity))
    {
      AfterSucc(c, capacity, items, k, pow, draw);
    }

    /** The best value never drops from one pass to a later one. */
    lemma AfterMonotone(c: Colony, capacity: int, items: seq<Item>, j: nat, k: nat,
                        pow: (real, real) -> real, draw: (nat, nat, nat) -> nat)
      requires PositiveWeights(items) && |c.pheromones| == |items| && HasDiagonal(c.pheromones) && numAnts >= 0
      requires j <= k
      ensures After(c, capacity, items, j, pow, draw).bestValue <= After(c, capacity, items, k, pow, draw).bestValue
    {
      var v := (i: nat) => After(c, capacity, items, i, pow, draw).bestValue;
      forall i: nat ensures v(i) <= v(i + 1) {
        AfterGrows(c, capacity, items, i, pow, draw);
      }
      NonDecreasing(v, j, k);
    }

    /** One more pass never lowers the best value. */
    lemma AfterGrows(c: Colony, capacity: int, items: seq<Item>, k: nat, pow: (real, real) -> real, draw: (nat, nat, nat) -> nat)
      requires PositiveWeights(items) && |c.pheromones| == |items| && HasDiagonal(c.pheromones) && numAnts >= 0
      ensures After(c, capacity, items, k, pow, draw).bestValue <= After(c, capacity, items, k + 1, pow, draw).bestValue
    {
      AfterStep(c, capacity, items, k, pow, draw);
    }

    /** Every ant of each of the first k passes scores at most the best value after them. */
    lemma AfterIsBest(c: Colony, capacity: int, items: seq<Item>, k: nat, j: nat, ant: nat,
                      pow: (real, real) -> real, draw: (nat, nat, nat) -> nat)
      requires PositiveWeights(items) && |c.pheromones| == |items| && HasDiagonal(c.pheromones) && numAnts >= 0
      requires j < k && ant < numAnts
      ensures Fitness(AntSolution(After(c, capacity, items, j, pow, draw).pheromones, items, alpha, beta, pow, draw, j, ant),
                      items, capacity)
              <= After(c, capacity, items, k, pow, draw).bestValue
    {
      AfterStep(c, capacity, items, j, pow, draw);
      AfterMonotone(c, capacity, items, j + 1, k, pow, draw);
    }

    /**
     * After k passes the best pair is either the starting one or the
     * solution of some ant of some pass, together with its fitness.
     */
    lemma {:induction false} AfterAchieved(c: Colony, capacity: int, items: seq<Item>, k: nat,
                                           pow: (real, real) -> real, draw: (nat, nat, nat) -> nat)
      requires PositiveWeights(items) && |c.pheromones| == |items| && HasDiagonal(c.pheromones) && numAnts >= 0
      ensures var r := After(c, capacity, items, k, pow, draw);
        (r.bestSolution == c.bestSolution && r.bestValue == c.bestValue) ||
        exists j, ant | 0 <= j < k && 0 <= ant < numAnts ::
          r.bestSolution == AntSolution(After(c, capacity, items, j, pow, draw).pheromones, items, alpha, beta, pow, draw, j, ant) &&
          r.bestValue == Fitness(r.bestSolution, items, capacity)
      decreases k
    {
      if k > 0 {
        var prev := After(c, capacity, items, k - 1, pow, draw);
        var r := After(c, capacity, items, k, pow, draw);
        AfterAchieved(c, capacity, items, k - 1, pow, draw);
        AfterStep(c, capacity, items, k - 1, pow, draw);
        if !(r.bestSolution == prev.bestSolution && r.bestValue == prev.bestValue) {
          var ant :| 0 <= ant < numAnts &&
            r.bestSolution == AntSolution(prev.pheromones, items, alpha, beta, pow, draw, k - 1, ant) &&
            r.bestValue == Fitness(r.bestSolution, items, capacity);
          assert 0 <= k - 1 < k;
        } else if !(prev.bestSolution == c.bestSolution && prev.bestValue == c.bestValue) {
          var j, ant :| 0 <= j < k - 1 && 0 <= ant < numAnts &&
            prev.bestSolution == AntSolution(After(c, capacity, items, j, pow, draw).pheromones, items, alpha, beta, pow, draw, j, ant) &&
            prev.bestValue == Fitness(prev.bestSolution, items, capacity);
          assert 0 <= j < k;
        }
      }
    }

    /**
     * What knapsackACO returns from state c: a value between 0 and the
     * optimum that no ant of any iteration beats, and that is 0 or the
     * fitness of the best solution, which some ant of some iteration built.
     */
    lemma ColonyResult(c: Colony, capacity: int, items: seq<Item>, pow: (real, real) -> real, draw: (nat, nat, nat) -> nat)
      requires PositiveWeights(items) && HasDiagonal(c.pheromones) && numAnts >= 0
      ensures var s := Start(c, |items|);
        var r := After(s, capacity, items, Rounds(), pow, draw);
        && 0 <= r.bestValue <= Opt(items, capacity)
        && (forall j, ant | 0 <= j < Rounds() && 0 <= ant < numAnts ::
              Fitness(AntSolution(After(s, capacity, items, j, pow, draw).pheromones, items, alpha, beta, pow, draw, j, ant),
                      items, capacity) <= r.bestValue)
        && (r.bestValue == 0 ||
            exists j, ant | 0 <= j < Rounds() && 0 <= ant < numAnts ::
              r.bestSolution == AntSolution(After(s, capacity, items, j, pow, draw).pheromones, items, alpha, beta, pow, draw, j, ant) &&
              r.bestValue == Fitness(r.bestSolution, items, capacity))
    {
      var s := Start(c, |items|);
      var r := After(s, capacity, items, Rounds(), pow, draw);
      AfterMonotone(s, capacity, items, 0, Rounds(), pow, draw);
      forall j, ant | 0 <= j < Rounds() && 0 <= ant < numAnts
        ensures Fitness(AntSolution(After(s, capacity, items, j, pow, draw).pheromones, items, alpha, beta, pow, draw, j, ant),
                        items, capacity) <= r.bestValue
      {
        AfterIsBest(s, capacity, items, Rounds(), j, ant, pow, draw);
      }
      AfterAchieved(s, capacity, items, Rounds(), pow, draw);
      PositiveWeightsAreValid(items);
      FitnessBounds(r.bestSolution, items, capacity);
    }

    /**
     * The constructor sets the parameters; the matrix and the best solution
     * start empty.  The C++ leaves bestValue unset until KnapsackACO; here
     * it starts at 0.
     */
    constructor (numAnts: int, numIterations: int, alpha: real, beta: real, evaporationRate: real)
      ensures this.numAnts == numAnts && this.numIterations == numIterations
      ensures this.alpha == alpha && this.beta == beta && this.evaporationRate == evaporationRate
      ensures pheromones == [] && bestSolution == [] && bestValue == 0
      ensures Valid()
    {
      this.numAnts := numAnts;
      this.numIterations := numIterations;
      this.alpha := alpha;
      this.beta := beta;
      this.evaporationRate := evaporationRate;
      pheromones := [];
      bestSolution := [];
      bestValue := 0;
    }

    /** calculateFitness_ACO; its double result holds an int exactly and is cast back to int. */
    method CalculateFitness(solution: seq<int>, items: seq<Item>, capacity: int) returns (fitness: int)
      requires |solution| <= |items|
      ensures fitness == Fitness(solution, items, capacity)
    {
      fitness := Solutions.CalculateFitness(solution, items, capacity);
    }

    /** updatePheromones: evaporate every level, then deposit each ant's fitness on the items it took. */
    method UpdatePheromones(solutions: seq<seq<int>>, fitness: seq<int>)
      modifies this
      requires 0 <= numAnts <= |solutions| && numAnts <= |fitness|
      requires forall ant | 0 <= ant < numAnts :: DepositsFit(solutions[ant], pheromones)
      ensures Updated(pheromones, old(pheromones), evaporationRate, solutions, fitness, numAnts)
      ensures bestSolution == old(bestSolution) && bestValue == old(bestValue)
    {
      Evaporate();
      DepositAll(solutions, fitness);
    }

    /** The first loop of updatePheromones. */
    method Evaporate()
      modifies this
      ensures SameShape(pheromones, old(pheromones))
      ensures forall i, j | 0 <= i < |pheromones| && 0 <= j < |pheromones[i]| ::
        pheromones[i][j] == old(pheromones)[i][j] * (1.0 - evaporationRate)
      ensures bestSolution == old(bestSolution) && bestValue == old(bestValue)
    {
      var i := 0;
      while i < |pheromones|
        invariant 0 <= i <= |pheromones| && SameShape(pheromones, old(pheromones))
        invariant forall r, j | 0 <= r < i && 0 <= j < |pheromones[r]| ::
          pheromones[r][j] == old(pheromones)[r][j] * (1.0 - evaporationRate)
        invariant forall r | i <= r < |pheromones| :: pheromones[r] == old(pheromones)[r]
        invariant bestSolution == old(bestSolution) && bestValue == old(bestValue)
      {
        EvaporateRow(i);
        i := i + 1;
      }
    }

    /** The inner loop of the first loop: row i evaporates, nothing else changes. */
    method EvaporateRow(i: int)
      modifies this
      requires 0 <= i < |pheromones|
      ensures SameShape(pheromones, old(pheromones))
      ensures forall j | 0 <= j < |pheromones[i]| :: pheromones[i][j] == old(pheromones)[i][j] * (1.0 - evaporationRate)
      ensures forall r | 0 <= r < |pheromones| && r != i :: pheromones[r] == old(pheromones)[r]
      ensures bestSolution == old(bestSolution) && bestValue == old(bestValue)
    {
      var j := 0;
      while j < |pheromones[i]|
        invariant SameShape(pheromones, old(pheromones)) && 0 <= j <= |pheromones[i]|
        invariant forall k | 0 <= k < j :: pheromones[i][k] == old(pheromones)[i][k] * (1.0 - evaporationRate)
        invariant forall k | j <= k < |pheromones[i]| :: pheromones[i][k] == old(pheromones)[i][k]
        invariant forall r | 0 <= r < |pheromones| && r != i :: pheromones[r] == old(pheromones)[r]
        invariant bestSolution == old(bestSolution) && bestValue == old(bestValue)
      {
        pheromones := pheromones[i := pheromones[i][j := pheromones[i][j] * (1.0 - evaporationRate)]];
        j := j + 1;
      }
    }

    /** The second loop of updatePheromones. */
    method DepositAll(solutions: seq<seq<int>>, fitness: seq<int>)
      modifies this
      requires 0 <= numAnts <= |solutions| && numAnts <= |fitness|
      requires forall ant | 0 <= ant < numAnts :: DepositsFit(solutions[ant], pheromones)
      ensures SameShape(pheromones, old(pheromones))
      ensures forall i, j | 0 <= i < |pheromones| && 0 <= j < |pheromones[i]| ::
        pheromones[i][j] == old(pheromones)[i][j] + (if i == j then Deposit(solutions, fitness, numAnts, i) else 0.0)
      ensures bestSolution == old(bestSolution) && bestValue == old(bestValue)
    {
      var ant := 0;
      assert forall i | 0 <= i < |pheromones| :: Deposit(solutions, fitness, 0, i) == 0.0;
      while ant < numAnts
        invariant 0 <= ant <= numAnts && SameShape(pheromones, old(pheromones))
        invariant forall i, j | 0 <= i < |pheromones| && 0 <= j < |pheromones[i]| ::
          pheromones[i][j] == old(pheromones)[i][j] + (if i == j then Deposit(solutions, fitness, ant, i) else 0.0)
        invariant bestSolution == old(bestSolution) && bestValue == old(bestValue)
      {
        assert DepositsFit(solutions[ant], pheromones);
        DepositAnt(solutions[ant], fitness[ant]);
        ant := ant + 1;
      }
    }

    /** The inner loop of the second loop: add value to diagonal entry i for each item i the ant took. */
    method DepositAnt(solution: seq<int>, value: int)
      modifies this
      requires DepositsFit(solution, pheromones)
      ensures SameShape(pheromones, old(pheromones))
      ensures forall i, j | 0 <= i < |pheromones| && 0 <= j < |pheromones[i]| ::
        pheromones[i][j] == old(pheromones)[i][j] + (if i == j && Picks(solution, i) then value as real else 0.0)
      ensures bestSolution == old(bestSolution) && bestValue == old(bestValue)
    {
      var k := 0;
      while k < |solution|
        invariant 0 <= k <= |solution| && SameShape(pheromones, old(pheromones))
        invariant forall i, j | 0 <= i < |pheromones| && 0 <= j < |pheromones[i]| ::
          pheromones[i][j] == old(pheromones)[i][j] + (if i == j && i < k && Picks(solution, i) then value as real else 0.0)
        invariant bestSolution == old(bestSolution) && bestValue == old(bestValue)
      {
        if solution[k] == 1 {
          assert Picks(solution, k);
          pheromones := pheromones[k := pheromones[k][k := pheromones[k][k] + value as real]];
        }
        k := k + 1;
      }
    }

    /** One ant's solution: item by item, the inclusion test on the item's pheromone level. */
    method Construct(items: seq<Item>, iteration: nat, ant: nat, pow: (real, real) -> real, draw: (nat, nat, nat) -> nat)
      returns (solution: seq<int>)
      requires PositiveWeights(items) && |pheromones| == |items| && HasDiagonal(pheromones)
      ensures |solution| == |items| && Binary(solution)
      ensures forall item | 0 <= item < |items| ::
        (solution[item] == 1 <==> Include(pheromones[item][item], items[item], alpha, beta, pow, draw(iteration, ant, item)))
      ensures solution == AntSolution(pheromones, items, alpha, beta, pow, draw, iteration, ant)
    {
      solution := seq(|items|, _ => 0);
      var item := 0;
      while item < |items|
        invariant 0 <= item <= |items| && |solution| == |items| && Binary(solution)
        invariant forall k | item <= k < |items| :: solution[k] == 0
        invariant forall k | 0 <= k < item ::
          (solution[k] == 1 <==> Include(pheromones[k][k], items[k], alpha, beta, pow, draw(iteration, ant, k)))
      {
        assert items[item] in items;
        if Include(pheromones[item][item], items[item], alpha, beta, pow, draw(iteration, ant, item)) {
          solution := solution[item := 1];
        }
        item := item + 1;
      }
      var spec := AntSolution(pheromones, items, alpha, beta, pow, draw, iteration, ant);
      assert forall k | 0 <= k < |items| :: solution[k] == spec[k];
    }

    /** All ants of one iteration build their solutions and have them scored. */
    method BuildSolutions(capacity: int, items: seq<Item>, iteration: nat, pow: (real, real) -> real,
                          draw: (nat, nat, nat) -> nat)
      returns (solutions: seq<seq<int>>, fitness: seq<int>)
      requires PositiveWeights(items) && |pheromones| == |items| && HasDiagonal(pheromones) && numAnts >= 0
      ensures |solutions| == numAnts == |fitness|
      ensures forall ant | 0 <= ant < numAnts ::
        |solutions[ant]| == |items| && Binary(solutions[ant]) && fitness[ant] == Fitness(solutions[ant], items, capacity)
      ensures forall ant, item | 0 <= ant < numAnts && 0 <= item < |items| ::
        (solutions[ant][item] == 1 <==>
         Include(pheromones[item][item], items[item], alpha, beta, pow, draw(iteration, ant, item)))
      ensures solutions == AntSolutions(pheromones, items, iteration, numAnts, pow, draw)
      ensures fitness == Scores(solutions, items, capacity)
    {
      solutions := seq(numAnts, _ => seq(|items|, _ => 0));
      fitness := seq(numAnts, _ => 0);
      var ant := 0;
      while ant < numAnts
        invariant 0 <= ant <= numAnts && |solutions| == numAnts == |fitness|
        invariant forall a | 0 <= a < ant ::
          solutions[a] == AntSolution(pheromones, items, alpha, beta, pow, draw, iteration, a) &&
          fitness[a] == Fitness(solutions[a], items, capacity)
      {
        var solution := Construct(items, iteration, ant, pow, draw);
        solutions := solutions[ant := solution];
        var f := CalculateFitness(solution, items, capacity);
        fitness := fitness[ant := f];
        ant := ant + 1;
      }
      AntSolutionsAre(pheromones, items, iteration, numAnts, pow, draw);
      ScoresAre(solutions, items, capacity);
    }

    /** The best-so-far scan over one iteration's ants: a strictly fitter ant replaces the best. */
    method BestOfIteration(solutions: seq<seq<int>>, fitness: seq<int>)
      modifies this
      requires 0 <= numAnts <= |solutions| && numAnts <= |fitness|
      ensures pheromones == old(pheromones) && old(bestValue) <= bestValue
      ensures forall ant | 0 <= ant < numAnts :: fitness[ant] <= bestValue
      ensures (bestValue == old(bestValue) && bestSolution == old(bestSolution)) ||
              exists ant | 0 <= ant < numAnts :: bestValue == fitness[ant] && bestSolution == solutions[ant]
      ensures (bestSolution, bestValue) == Best(solutions, fitness, numAnts, old(bestSolution), old(bestValue))
    {
      var ant := 0;
      while ant < numAnts
        invariant 0 <= ant <= numAnts && pheromones == old(pheromones)
        invariant (bestSolution, bestValue) == Best(solutions, fitness, ant, old(bestSolution), old(bestValue))
      {
        if fitness[ant] > bestValue {
          bestValue := fitness[ant];
          bestSolution := solutions[ant];
        }
        ant := ant + 1;
      }
    }

    /** The sizing at the start of knapsackACO: resize the matrix and the best solution, reset the best value. */
    method PrepareCall(numItems: nat)
      modifies this
      requires Valid()
      ensures pheromones == Resize(old(pheromones), numItems, seq(numItems, _ => 1.0))
      ensures bestSolution == Resize(old(bestSolution), numItems, 0) && bestValue == 0
      ensures Valid() && State() == Start(old(State()), numItems)
    {
      ResizeKeepsDiagonal(pheromones, numItems);
      pheromones := Resize(pheromones, numItems, seq(numItems, _ => 1.0));
      bestSolution := Resize(bestSolution, numItems, 0);
      bestValue := 0;
    }

    /**
     * The body of the iteration loop of knapsackACO: from the state the
     * first iteration passes left, starting at c0, it makes the state of
     * one pass more.
     */
    method OneIteration(capacity: int, items: seq<Item>, iteration: nat, pow: (real, real) -> real,
                        draw: (nat, nat, nat) -> nat, ghost c0: Colony)
      modifies this
      requires PositiveWeights(items) && |c0.pheromones| == |items| && HasDiagonal(c0.pheromones) && numAnts >= 0
      requires State() == After(c0, capacity, items, iteration, pow, draw)
      ensures Valid() && State() == After(c0, capacity, items, iteration + 1, pow, draw)
    {
      AfterSucc(c0, capacity, items, iteration, pow, draw);
      var solutions, fitness := BuildSolutions(capacity, items, iteration, pow, draw);
      BestOfIteration(solutions, fitness);
      forall ant | 0 <= ant < numAnts ensures DepositsFit(solutions[ant], pheromones) {
      }
      UpdatePheromones(solutions, fitness);
      UpdatedIsUpdate(pheromones, old(pheromones), evaporationRate, solutions, fitness, numAnts);
    }

    /**
     * knapsackACO: the colony ends in the state its iteration loop reaches
     * from the resized one, and returns that state's best value: at least
     * 0, at most the optimum, beaten by no ant of any iteration, and 0 or
     * the fitness of bestSolution, which some ant built.
     */
    method KnapsackACO(capacity: int, items: seq<Item>, pow: (real, real) -> real, draw: (nat, nat, nat) -> nat)
      returns (result: int)
      modifies this
      requires Valid() && PositiveWeights(items) && numAnts >= 0
      ensures Valid() && |pheromones| == |items| && |bestSolution| == |items|
      ensures State() == After(Start(old(State()), |items|), capacity, items, Rounds(), pow, draw)
      ensures result == bestValue && 0 <= result <= Opt(items, capacity)
      ensures result > 0 ==> result == Fitness(bestSolution, items, capacity)
      ensures var s := Start(old(State()), |items|);
        forall j, ant | 0 <= j < Rounds() && 0 <= ant < numAnts ::
          Fitness(AntSolution(After(s, capacity, items, j, pow, draw).pheromones, items, alpha, beta, pow, draw, j, ant),
                  items, capacity) <= result
      ensures var s := Start(old(State()), |items|);
        result == 0 ||
        exists j, ant | 0 <= j < Rounds() && 0 <= ant < numAnts ::
          bestSolution == AntSolution(After(s, capacity, items, j, pow, draw).pheromones, items, alpha, beta, pow, draw, j, ant) &&
          result == Fitness(bestSolution, items, capacity)
    {
      ghost var entry := State();
      PrepareCall(|items|);
      ghost var c0 := State();
      var iteration: nat := 0;
      while iteration < numIterations
        invariant iteration <= Rounds()
        invariant Valid() && |pheromones| == |items|
        invariant State() == After(c0, capacity, items, iteration, pow, draw)
      {
        OneIteration(capacity, items, iteration, pow, draw, c0);
        iteration := iteration + 1;
      }
      assert iteration == Rounds();
      result := bestValue;
      ColonyResult(entry, capacity, items, pow, draw);
    }
  }
}
