# Knapsack solver library, modelled in Dafny

This project models the solver library of a 0/1-knapsack benchmark written in C++. An `Item` is a pair `(value, weight)` (`C++/Tools/Item.h`). Every solver takes a capacity and a sequence of items and returns an integer value. The project covers four groups of solvers:

- the exact solvers: the dynamic-programming table, plain recursion, memoised recursion with its string-keyed map, backtracking, and branch-and-bound with its stack of `Node`s;
- the greedy heuristics: standard, defensive, limited, scored, max-of-two, transitioning, sliding-threshold, deal-stingy and weight-stingy;
- the skeletons of simulated annealing and of the `AntColony` class;
- the sort comparators the heuristics pass to `std::sort`.

The yardstick is a ghost function `Optimum.Opt(items, capacity)`: the best total value of a sub-multiset of the items whose total weight is at most the capacity. `Optimum.OptIsMaximum` proves that it is that maximum. Against it, the model proves:

- every exact solver returns `Opt`;
- every heuristic returns a value between 0 and `Opt`, and obeys its own selection rule exactly;
- simulated annealing returns the fitness of a solution its run visited;
- the ant colony ends in the state of its functional run (`Aco.AntColony.After`), and returns a value that no ant of any iteration beats and that is 0 or the fitness of a solution some ant built.

The one exception is sliding-threshold as written. It can return a negative value, and a value above the optimum (see "## Findings").

Modules, one per source file, plus shared modules:

- `Items`: the `Item` datatype, the value and weight sums, and sub-multiset facts.
- `Optimum`: the reference optimum and its properties.
- `Comparators`: the five comparators of `C++/Tools/Utility.cpp`, in exact integer arithmetic. Ratio tests become cross-multiplication, and score tests (`v^3/w^1.5`) are compared through their squares `v^6·w'^3`.
- `Sorting`: `std::sort` as a sorted permutation. The bounds are proved for every permutation of the input, so the unstable order of `std::sort` does not matter to them.
- `DynamicProgramming`, `Recursive`, `Memoization`, `Backtracking`, `BranchAndBound`: the exact solvers.
- `Scan`: the accept-if-it-fits scan that the standard, scored, max-of-two, limited and transitioning heuristics share. It is given by recursive functions (`Used`, `Gained`, `Accepted`, `Leftovers`) and by the loop `FirstFitPass`.
- `StandardGreedy`, `ScoredGreedy`, `MaxOfTwo`, `DefensiveGreedy`, `LimitedGreedy`, `TransitioningGreedy`, `SlidingThreshold`.
- `Stingy`, `DealStingy`, `WeightStingy`: take-everything-then-drop.
- `Solutions`: the 0/1 solution vectors and the fitness function shared by simulated annealing and the ant colony.
- `SimulatedAnnealing`, `Aco`: the randomised solvers.

The solvers that change state step by step are methods with loops. Each is proved against a function that specifies it, and the properties are then proved about that function. These are:

- the DP table, the memo map, the branch-and-bound stack;
- the heuristic loops;
- the annealing loop;
- the `AntColony` class, whose fields `pheromones`, `bestSolution` and `bestValue` are updated in place. `KnapsackACO` ends in the state `After(Start(old state, n), Rounds())`: the sizing, then `numIterations` passes of `Iteration`.

Randomness becomes explicit oracle parameters:

- For simulated annealing, `pick(k)` is the `rand()` value that chooses the flipped entry at iteration `k`. `coin(k)` is the outcome of the Metropolis test `exp(delta/T) > rand()/RAND_MAX`.
- For the ant colony, `draw(iteration, ant, item)` is the `rand()` value of one inclusion test. `pow` is the power function.

Points where the code behaves differently from what its names or doc comments suggest, and the model follows the code:

- The `AntColony` pheromone matrix is only `resize`d at the start of `knapsackACO` (`C++/Algorithms/ACO.cpp:74`, commented "initialize pheromone levels"). Existing rows keep their levels from the previous call; they are not re-initialised (`Aco.AntColony.PrepareCall`, `Aco.ResizeSameLength`).
- The doc comment of `slidingThresholdKnapsack` (`C++/Heuristics/SlidingThreshold.cpp:19-25`) promises the maximum value that can be obtained, yet the function can return a negative value (`SlidingThreshold.NegativeResult`) and a value above the optimum (`SlidingThreshold.AboveOptimum`).
- `weightStingyKnapsack` in `C++/Heuristics/WeightStingy.cpp` is its own algorithm: weight-ascending removal. The model follows that file. Which function the benchmark driver binds to which heuristic name is not part of this model.

## Model

| member | source | states |
|---|---|---|
| Optimum.OptIsMaximum | C++/Algorithms/DP.cpp:17-24 | `Opt` is at least the value of every sub-multiset of the items that fits the capacity, and some selection that fits reaches it: it is the maximum the solvers promise |
| Optimum.OptWitness | C++/Algorithms/DP.cpp:17-24 | there is a sub-multiset of the items within the capacity whose value is exactly `Opt` |
| Optimum.OptUpperBound | C++/Algorithms/Recursive.cpp:17-24 | any sub-multiset within the capacity is worth at most `Opt` |
| Optimum.OptPrefixStep | C++/Algorithms/DP.cpp:29-35 | the optimum over the first `i` items obeys the table's recurrence: skip item `i-1` when it is heavier than `w`, else the max of skipping and taking it |
| Optimum.OptPermutation | C++/Algorithms/BranchAndBound.cpp:56-57 | reordering the items (as sorting a copy does) does not change the optimum |
| Optimum.OptFirst | C++/Algorithms/Backtracking.cpp:33-39 | the optimum splits on the first item: exclude it, or include it when it fits the capacity |
| Optimum.OptMonotoneCapacity | C++/Algorithms/DP.cpp:31-35 | the optimum never drops when the capacity grows |
| Optimum.OptMonotoneItems | C++/Algorithms/DP.cpp:29-37 | the optimum over a longer prefix of the items is at least that over a shorter one |
| Optimum.OptAtMostTotal | C++/Algorithms/DP.cpp:27-39 | the optimum is at most the sum of all values |
| Optimum.OptZeroCapacity | C++/Algorithms/Recursive.cpp:26-28 | with positive weights the optimum at capacity 0 is 0, so the recursion's early `return 0` loses nothing |
| Comparators.RatioComparatorMeaning | C++/Tools/Utility.cpp:90-94 | for positive weights, the cross-multiplied test holds exactly when `a.value/a.weight > b.value/b.weight` (both directions) |
| Comparators.ScoreComparatorMeaning | C++/Tools/Utility.cpp:107-111 | for positive weights and non-negative values, the test on `v^6·w'^3` holds exactly when a's score `v^3/w^1.5` exceeds b's (both directions) |
| Comparators.ScoreAscendingIsConverse | C++/Tools/Utility.cpp:46-50 | `compareByScoreAscending(a, b)` is `compareByScore(b, a)` for all items |
| Comparators.LessIrreflexive | C++/Tools/Utility.cpp:46-111 | no comparator puts an item before itself |
| Comparators.LessTransitive | C++/Tools/Utility.cpp:46-111 | every comparator is transitive on items with non-negative value and weight |
| Comparators.LessIsStrictWeakOrder | C++/Tools/Utility.cpp:46-111 | every comparator is irreflexive and transitive, and so is incomparability: the strict weak order `std::sort` requires |
| Sorting.Sort | C++/Heuristics/StandardGreedy.cpp:28-29 | the sorted copy is a permutation of the input, ordered by the comparator |
| DynamicProgramming.KnapsackDP | C++/Algorithms/DP.cpp:25-40 | filling the table row by row (row 0 all zeros, each entry by the recurrence) returns exactly the optimum `Opt(items, capacity)` |
| DynamicProgramming.KnapsackDPBounds | C++/Algorithms/DP.cpp:27-39 | the result lies between 0 and the sum of the values, and does not drop when the capacity grows |
| Recursive.KnapsackRecursive | C++/Algorithms/Recursive.cpp:25-38 | the result lies between 0 and the sum of the values of the first `n` items |
| Recursive.RecursiveIsOpt | C++/Algorithms/Recursive.cpp:17-38 | with positive weights, the recursion over the first `n` items returns their optimum |
| Recursive.RecursiveMonotone | C++/Algorithms/Recursive.cpp:30-37 | the result is non-decreasing in both `capacity` and `n` |
| Recursive.RecursiveZeroWeightGap | C++/Algorithms/Recursive.cpp:26-28 | with a zero-weight item and capacity 0 the recursion returns 0 while the optimum is that item's value, which is why the agreement lemmas require positive weights |
| Memoization.NatToString | C++/Algorithms/Memoization.cpp:36 | the decimal rendering is a non-empty string of digits, one character long exactly for numbers below 10 |
| Memoization.NatToStringInjective | C++/Algorithms/Memoization.cpp:36 | distinct numbers have distinct decimal renderings |
| Memoization.IntToStringInjective | C++/Algorithms/Memoization.cpp:36 | `to_string` on integers (with a minus sign for negatives) is injective |
| Memoization.MemoKeyInjective | C++/Algorithms/Memoization.cpp:36 | the key `n + "-" + capacity` determines both `n` and `capacity` |
| Memoization.MemoStore | C++/Algorithms/Memoization.cpp:42-50 | storing the recursion's value under its key keeps every entry of the memo correct |
| Memoization.RecursiveStep | C++/Algorithms/Memoization.cpp:42-50 | for `n > 0` and non-zero capacity, the recursion is the skip-if-too-heavy / max-of-include-and-exclude step the helper stores |
| Memoization.KnapsackMemoHelper | C++/Algorithms/Memoization.cpp:31-52 | returns `knapsackRecursive(capacity, items, n)`; leaves the memo untouched when `n == 0` or `capacity == 0`; otherwise stores the result under its key; only ever adds keys; keeps every stored entry correct |
| Memoization.KnapsackMemoization | C++/Algorithms/Memoization.cpp:55-58 | starting from an empty memo, returns `knapsackRecursive` over all the items, which is the optimum when the weights are positive |
| Backtracking.KnapsackBacktracking | C++/Algorithms/Backtracking.cpp:28-40 | the result is at least `currentValue`, the all-exclude path |
| Backtracking.BacktrackingIsOpt | C++/Algorithms/Backtracking.cpp:28-40 | entered within capacity, the result is `currentValue` plus the optimum of items `[index, n)` within the remaining capacity |
| Backtracking.BacktrackingAgreesWithRecursive | C++/Algorithms/Backtracking.cpp:17-40 | called with `(0, 0, 0)` and positive weights, backtracking equals `knapsackRecursive` and the optimum |
| BranchAndBound.Share | C++/Algorithms/BranchAndBound.cpp:39-41 | the truncating fractional term `room * value / weight` is non-negative for non-negative room and value |
| BranchAndBound.Bound | C++/Algorithms/BranchAndBound.cpp:26-44 | returns 0 when the node's weight reaches the capacity; otherwise at least the node's profit and, over ratio-sorted items, at least the node's profit plus the optimum of the items after its level |
| BranchAndBound.ShareCoversCompletions | C++/Algorithms/BranchAndBound.cpp:33-41 | over ratio-sorted items, the greedy prefix plus the fractional share of the next item bounds every completion |
| BranchAndBound.BoundCoversCompletions | C++/Algorithms/BranchAndBound.cpp:33-41 | the same bound, also for the case where the greedy fill takes every remaining item |
| BranchAndBound.SoundAtMostOpt | C++/Algorithms/BranchAndBound.cpp:81-83 | a node built from a prefix of include/exclude decisions within capacity is worth at most the optimum |
| BranchAndBound.ChildrenCost | C++/Algorithms/BranchAndBound.cpp:73-95 | the two children, one level deeper, cost less than their parent, so the stack loop terminates |
| BranchAndBound.PrunedPath | C++/Algorithms/BranchAndBound.cpp:85-95 | pruning a node whose bound does not exceed `maxProfit` loses no better solution |
| BranchAndBound.PushIfPromising | C++/Algorithms/BranchAndBound.cpp:85-95 | pushes the child on top of the stack (LIFO) exactly when its bound exceeds `maxProfit`, and keeps the stack's invariants |
| BranchAndBound.Branch | C++/Algorithms/BranchAndBound.cpp:73-95 | expands a popped node: `maxProfit` becomes the max with the include-child's profit when it fits and never decreases or exceeds the optimum; at most two nodes are pushed |
| BranchAndBound.KnapsackBranchAndBound | C++/Algorithms/BranchAndBound.cpp:53-99 | with positive weights, the depth-first search returns exactly the optimum (hence equals `knapsackDP`) |
| Scan.ScanFeasible | C++/Heuristics/StandardGreedy.cpp:35-41 | starting within capacity, the accepted weight never exceeds the capacity |
| Scan.ScanTotals | C++/Heuristics/StandardGreedy.cpp:36-43 | the running weight and value are the sums over exactly the accepted items |
| Scan.LeftoversPartition | C++/Heuristics/TransitioningGreedy.cpp:36-44 | the accepted items and the items left behind together are a permutation of the scanned sequence |
| Scan.ScanAtMostOpt | C++/Heuristics/StandardGreedy.cpp:20-43 | over any permutation of the items, the value a scan accepts lies between 0 and the optimum |
| Scan.FirstFitMaximal | C++/Heuristics/StandardGreedy.cpp:35-41 | a skipped item does not fit the final weight either: first-fit skips and continues, and never takes an item it rejected |
| Scan.UsedMonotone | C++/Heuristics/LimitedGreedy.cpp:34-45 | the accepted weight only grows as the scan goes on |
| Scan.FirstFitPass | C++/Heuristics/StandardGreedy.cpp:31-43 | the first-fit loop returns the scan's accepted value and weight, and keeps the weight within capacity |
| StandardGreedy.StandardGreedyValue | C++/Heuristics/StandardGreedy.cpp:27-44 | the ratio-order first-fit value lies between 0 and the optimum |
| StandardGreedy.StandardGreedyKnapsack | C++/Heuristics/StandardGreedy.cpp:27-44 | sorts a copy by ratio, runs first-fit, and returns a value between 0 and the optimum |
| StandardGreedy.DriverExample | C++/Heuristics/StandardGreedy.cpp:47-50 | on `(60,10),(100,20),(120,30)` with capacity 50 the heuristic returns 160, while the optimum is 220 |
| ScoredGreedy.ScoredGreedyValue | C++/Heuristics/ScoredGreedy.cpp:27-44 | the score-order first-fit value lies between 0 and the optimum |
| ScoredGreedy.ScoredGreedyKnapsack | C++/Heuristics/ScoredGreedy.cpp:27-44 | the same first-fit loop after a descending-score sort; the result lies between 0 and the optimum |
| MaxOfTwo.ValuePassValue | C++/Heuristics/MaxOfTwo.cpp:28-41 | the value-order pass lies between 0 and the optimum |
| MaxOfTwo.MaxOfTwoKnapsack | C++/Heuristics/MaxOfTwo.cpp:26-62 | returns the max of the value-order pass and the ratio-order pass; the ratio-order pass is exactly `standardGreedyKnapsack`; the result is at least each pass and at most the optimum |
| DefensiveGreedy.FittingPrefix | C++/Heuristics/DefensiveGreedy.cpp:34-42 | the length of the accepted prefix is at most the number of items |
| DefensiveGreedy.FittingPrefixLongest | C++/Heuristics/DefensiveGreedy.cpp:34-42 | the accepted prefix fits the capacity, and every longer prefix does not: the loop stops at the first misfit |
| DefensiveGreedy.ShorterPrefixFits | C++/Heuristics/DefensiveGreedy.cpp:35-37 | every shorter prefix of the accepted one fits as well, so the weight stays within capacity throughout |
| DefensiveGreedy.PrefixAtMostOpt | C++/Heuristics/DefensiveGreedy.cpp:37-44 | the value of the accepted prefix of any permutation lies between 0 and the optimum |
| DefensiveGreedy.DefensiveGreedyValue | C++/Heuristics/DefensiveGreedy.cpp:26-45 | the weight-ascending prefix value lies between 0 and the optimum |
| DefensiveGreedy.DefensiveGreedyKnapsack | C++/Heuristics/DefensiveGreedy.cpp:26-45 | sorts a copy lightest first, accepts until the first misfit and returns that prefix's value, between 0 and the optimum |
| LimitedGreedy.RemainingNeverGrows | C++/Heuristics/LimitedGreedy.cpp:31-41 | `remainingCapacity` starts at `capacity` and never increases |
| LimitedGreedy.RemainingNonNegative | C++/Heuristics/LimitedGreedy.cpp:35-41 | `remainingCapacity` never goes below 0 |
| LimitedGreedy.SecondRegimeSticky | C++/Heuristics/LimitedGreedy.cpp:40-44 | once `remaining <= 0.4·capacity`, every later item is judged by the second regime |
| LimitedGreedy.LimitedGreedyValue | C++/Heuristics/LimitedGreedy.cpp:26-48 | the two-regime value lies between 0 and the optimum |
| LimitedGreedy.LimitedGreedyKnapsack | C++/Heuristics/LimitedGreedy.cpp:26-48 | sorts by value, applies the `0.8·remaining` regime while `remaining > 0.4·capacity` and the plain fit test after, and returns the accepted value, between 0 and the optimum |
| TransitioningGreedy.FirstPhase | C++/Heuristics/TransitioningGreedy.cpp:36-44 | erasing each accepted item and stepping `i` back examines every item once: the loop leaves exactly the rejected items, in order, with the accepted weight and value |
| TransitioningGreedy.FirstPhaseWithinForty | C++/Heuristics/TransitioningGreedy.cpp:37 | the first phase's weight stays within 40% of the capacity |
| TransitioningGreedy.TwoPhaseFeasible | C++/Heuristics/TransitioningGreedy.cpp:36-54 | the load after the first phase lies within 40% of the capacity, and the second phase, over the leftovers in any order, only adds weight and stays within the capacity |
| TransitioningGreedy.TwoPhaseAtMostOpt | C++/Heuristics/TransitioningGreedy.cpp:36-56 | when the second phase scans only the first phase's leftovers, the combined value lies between the first phase's value and the optimum |
| TransitioningGreedy.TransitioningGreedyValue | C++/Heuristics/TransitioningGreedy.cpp:28-57 | the result is at least the first phase's value and at most the optimum |
| TransitioningGreedy.TransitioningGreedyKnapsack | C++/Heuristics/TransitioningGreedy.cpp:28-57 | value-order phase within 40%, then the leftovers re-sorted by score and first-fit on the full capacity; the result is at least the first phase's value and at most the optimum |
| Stingy.CutFrom | C++/Heuristics/DealStingy.cpp:40-49 | the number of removed items is at most the number of items |
| Stingy.CutShortest | C++/Heuristics/DealStingy.cpp:40-49 | the removed prefix is the shortest one after whose removal the weight fits the capacity |
| Stingy.TakeAll | C++/Heuristics/DealStingy.cpp:31-35 | the first loop yields the total weight and total value of all items |
| Stingy.RemovalPass | C++/Heuristics/DealStingy.cpp:40-49 | the removal loop subtracts exactly the weight and value of the shortest sufficient prefix |
| Stingy.KeptFits | C++/Heuristics/WeightStingy.cpp:40-49 | with `capacity >= 0`, the final weight fits the capacity |
| Stingy.KeptAtMostOpt | C++/Heuristics/DealStingy.cpp:43-51 | the total minus the removed prefix is the value of the kept suffix, between 0 and the optimum |
| Stingy.AllFitNothingRemoved | C++/Heuristics/DealStingy.cpp:41-48 | when everything fits, nothing is removed and the result is the sum of all values |
| Stingy.StingyValue | C++/Heuristics/DealStingy.cpp:27-52 | the take-all-then-drop value lies between 0 and the optimum |
| DealStingy.DealStingyKnapsack | C++/Heuristics/DealStingy.cpp:27-52 | takes everything, drops items lowest score first while overweight, and returns a value between 0 and the optimum, equal to the total value when everything fits |
| WeightStingy.WeightStingyKnapsack | C++/Heuristics/WeightStingy.cpp:27-52 | takes everything, drops items lightest first while overweight, and returns a value between 0 and the optimum, equal to the total value when everything fits |
| SlidingThreshold.SlidingThresholdKnapsack | C++/Heuristics/SlidingThreshold.cpp:27-61 | sorts by ratio and runs the add / tighten / subtract / early-exit loop; returns the value of that run as written |
| SlidingThreshold.SlideLoop | C++/Heuristics/SlidingThreshold.cpp:34-60 | the loop starting from the first sorted item's ratio returns the specified run's value |
| SlidingThreshold.SecondTighteningDead | C++/Heuristics/SlidingThreshold.cpp:43-47 | the `else if` tightening never fires: whenever its test holds, the first test holds too |
| SlidingThreshold.ThresholdNeverGrows | C++/Heuristics/SlidingThreshold.cpp:34-47 | the threshold changes only by `×0.8`, so it stays between 0 and its starting value |
| SlidingThreshold.OverweightTestNeverFires | C++/Heuristics/SlidingThreshold.cpp:37-50 | the weight is within capacity after the add step, so the `currentWeight > capacity` disjunct never fires |
| SlidingThreshold.RunWithinCapacity | C++/Heuristics/SlidingThreshold.cpp:36-58 | the weight never exceeds the capacity during the whole loop |
| SlidingThreshold.FirstItemAlwaysSubtracted | C++/Heuristics/SlidingThreshold.cpp:34-53 | item 0's ratio equals the threshold, so it is subtracted whether or not it was added |
| SlidingThreshold.NegativeResult | C++/Heuristics/SlidingThreshold.cpp:49-53 | one item (value 10, weight 100) with capacity 50 gives −10 |
| SlidingThreshold.AboveOptimum | C++/Heuristics/SlidingThreshold.cpp:49-53 | a five-item input with capacity 100 gives 65, while the optimum is 50 |
| SlidingThreshold.CorrectedValue | C++/Heuristics/SlidingThreshold.cpp:27-61 | subtracting only an item that was just added, the result lies between 0 and the optimum |
| SlidingThreshold.TracksRun | C++/Heuristics/SlidingThreshold.cpp:36-58 | in the corrected loop, the running weight and value are the sums over the items in `selectedItems` |
| SlidingThreshold.CorrectedAtMostOpt | C++/Heuristics/SlidingThreshold.cpp:36-58 | the corrected loop over any permutation of the items returns a value between 0 and the optimum |
| Solutions.CalculateFitness | C++/Algorithms/SimulatedAnnealing.cpp:30-43 | returns the value of the entries equal to 1 when their weight fits the capacity, else 0 |
| Solutions.FitnessBounds | C++/Algorithms/SimulatedAnnealing.cpp:39-42 | every fitness lies between 0 and the optimum |
| Solutions.ChosenSubMultiset | C++/Algorithms/SimulatedAnnealing.cpp:33-38 | the items a vector selects are a sub-multiset of the items |
| Solutions.NothingChosen | C++/Algorithms/SimulatedAnnealing.cpp:71-72 | a vector with no entry equal to 1 selects nothing and has fitness 0 |
| Solutions.OptAttained | C++/Algorithms/SimulatedAnnealing.cpp:30-43 | some 0/1 vector has fitness exactly the optimum, so the upper bound is reached |
| SimulatedAnnealing.Neighbor | C++/Algorithms/SimulatedAnnealing.cpp:51-56 | the neighbour has the same length, the drawn entry is flipped `x ↦ 1 - x`, and every other entry is unchanged |
| SimulatedAnnealing.NeighborInvolution | C++/Algorithms/SimulatedAnnealing.cpp:54 | flipping the same entry twice gives the solution back |
| SimulatedAnnealing.NeighborBinary | C++/Algorithms/SimulatedAnnealing.cpp:54 | a neighbour of a 0/1 vector is a 0/1 vector |
| SimulatedAnnealing.InitialFitnessZero | C++/Algorithms/SimulatedAnnealing.cpp:70-75 | the search starts from the all-zero solution with current and best fitness 0 |
| SimulatedAnnealing.Cooling | C++/Algorithms/SimulatedAnnealing.cpp:79-93 | with `0 < coolingRate < 1` and temperature above 1, the iteration bound `T/(1-c)` drops by at least one, so the loop terminates |
| SimulatedAnnealing.FitterNeighborAccepted | C++/Algorithms/SimulatedAnnealing.cpp:83-86 | a strictly fitter neighbour always becomes the current solution, whatever the Metropolis test says |
| SimulatedAnnealing.StepConsistent | C++/Algorithms/SimulatedAnnealing.cpp:80-91 | each iteration keeps both fitnesses equal to their solutions' fitness, and makes the best the max of the old best and the new current |
| SimulatedAnnealing.AnnealConsistent | C++/Algorithms/SimulatedAnnealing.cpp:79-94 | over the whole loop the state stays consistent and the best fitness never decreases |
| SimulatedAnnealing.AnnealWithinOpt | C++/Algorithms/SimulatedAnnealing.cpp:88-96 | the returned fitness is that of the best vector visited and lies between 0 and the optimum |
| SimulatedAnnealing.KnapsackSimulatedAnnealing | C++/Algorithms/SimulatedAnnealing.cpp:67-97 | the loop returns the specified run's best fitness, which lies between 0 and the optimum |
| Aco.Resize | C++/Algorithms/ACO.cpp:74-75 | `resize` keeps the existing prefix and fills only the new positions |
| Aco.ResizeSameLength | C++/Algorithms/ACO.cpp:74 | resizing to the current length changes nothing, so a second call with the same item count keeps the previous pheromone levels |
| Aco.ResizeKeepsDiagonal | C++/Algorithms/ACO.cpp:74 | after the resize, every row still reaches its diagonal entry |
| Aco.DepositNonNegative | C++/Algorithms/ACO.cpp:55-61 | with non-negative fitness values, the deposit on any item is non-negative |
| Aco.DepositUntaken | C++/Algorithms/ACO.cpp:55-61 | an item that no ant took receives no deposit |
| Aco.UpdateKeepsPositive | C++/Algorithms/ACO.cpp:47-62 | with `0 <= evaporationRate < 1` and non-negative fitness, positive pheromone levels stay positive |
| Aco.AntSolution | C++/Algorithms/ACO.cpp:84-90 | one ant's vector is a 0/1 vector over the items that takes item `i` exactly when the inclusion test on the diagonal level `p[i][i]` passes with that ant's draw |
| Aco.Best | C++/Algorithms/ACO.cpp:97-102 | the strict `>` scan ends with a value at least the starting best and at least every ant's fitness; the pair is the starting one, or the solution and fitness of the first ant that strictly beats the starting best and every ant before it |
| Aco.UpdatedIsUpdate | C++/Algorithms/ACO.cpp:47-62 | any matrix that evaporation followed by the deposits can leave is exactly `Update(old, ...)`, so the new matrix is a function of the old one and the iteration's solutions and fitness |
| Aco.Start | C++/Algorithms/ACO.cpp:73-76 | after the sizing there are `n` rows, each reaching its diagonal; the old rows are kept, the new rows are all 1.0, the best solution has `n` entries and the best value is 0 |
| Aco.AntColony.Iteration | C++/Algorithms/ACO.cpp:78-106 | one pass never lowers the best value, ends with a best value no ant of that pass beats, and either keeps the previous best pair or takes some ant's solution together with its fitness |
| Aco.AntColony.AfterStep | C++/Algorithms/ACO.cpp:78-106 | pass `k` of the run: the best value does not drop, no ant of pass `k` beats the new best value, and the new best pair is the previous one or some ant's solution of pass `k` with its fitness |
| Aco.AntColony.AfterMonotone | C++/Algorithms/ACO.cpp:97-102 | the best value after `j` passes is at most the best value after any `k >= j` passes |
| Aco.AntColony.AfterIsBest | C++/Algorithms/ACO.cpp:78-106 | the fitness of every ant of every pass `j < k` is at most the best value after `k` passes |
| Aco.AntColony.AfterAchieved | C++/Algorithms/ACO.cpp:78-106 | after `k` passes the best pair is the starting one, or the solution some ant built in some pass `j < k` together with its fitness |
| Aco.AntColony.ColonyResult | C++/Algorithms/ACO.cpp:70-109 | from the sized state, the run's final best value lies between 0 and the optimum, no ant of any iteration beats it, and it is 0 or the fitness of a solution some ant of some iteration built |
| Aco.AntColony.constructor | C++/main.h:62-63 | stores the five parameters; the pheromone matrix and best solution start empty |
| Aco.AntColony.CalculateFitness | C++/Algorithms/ACO.cpp:27-40 | the value of the chosen items when they fit the capacity, else 0 |
| Aco.AntColony.UpdatePheromones | C++/Algorithms/ACO.cpp:47-62 | every entry becomes `old·(1 - evaporationRate)`, and diagonal entry `i` also receives the fitness of every ant that took item `i`; the best solution and value are unchanged |
| Aco.AntColony.Evaporate | C++/Algorithms/ACO.cpp:48-52 | every entry, in every row, is multiplied by `1 - evaporationRate`, keeping the matrix's shape |
| Aco.AntColony.EvaporateRow | C++/Algorithms/ACO.cpp:49-51 | one row is multiplied by `1 - evaporationRate`; the other rows are unchanged |
| Aco.AntColony.DepositAll | C++/Algorithms/ACO.cpp:55-61 | diagonal entry `i` grows by the sum of the fitness of the ants that took item `i`; off-diagonal entries are unchanged |
| Aco.AntColony.DepositAnt | C++/Algorithms/ACO.cpp:56-60 | one ant's fitness is added to the diagonal entry of each item it took, and nowhere else |
| Aco.AntColony.Construct | C++/Algorithms/ACO.cpp:84-90 | an ant's solution is a 0/1 vector over the items, taking an item exactly when `rand() % 100 < pow(level, alpha)·pow(1/weight, beta)·100`; it is exactly `AntSolution` on the current matrix |
| Aco.AntColony.BuildSolutions | C++/Algorithms/ACO.cpp:79-94 | every ant builds a 0/1 vector by the inclusion test, and its fitness is that vector's fitness; the vectors are `AntSolutions` and the fitness values are their `Scores` |
| Aco.AntColony.BestOfIteration | C++/Algorithms/ACO.cpp:97-102 | `bestValue` never decreases and ends at least every ant's fitness; when it changes, `bestSolution` is the vector of an ant that achieves it; the new pair is exactly `Best` of the old pair |
| Aco.AntColony.PrepareCall | C++/Algorithms/ACO.cpp:73-76 | the pheromone matrix and best solution are `resize`d (existing entries kept, new ones filled with 1.0 and 0), and `bestValue` is reset to 0: the new state is `Start` of the old one |
| Aco.AntColony.OneIteration | C++/Algorithms/ACO.cpp:79-105 | the body of the iteration loop takes the state after `k` passes of the run to the state after `k + 1` passes |
| Aco.AntColony.KnapsackACO | C++/Algorithms/ACO.cpp:70-109 | the colony ends in the state `After(Start(old state, n), Rounds())`; the result is its `bestValue`, lies between 0 and the optimum, is at least the fitness of every ant of every iteration, and is 0 or the fitness of `bestSolution`, which some ant of some iteration built |

## Left out

- Input and output: the benchmark driver, timing, logging, CSV parsing, console display, the Python scripts, and the test copies of the C++ files. `heavyGreedyKnapsack` is declared in `C++/main.h:20`, but its body is not part of this model.
- Floating point: ratios, scores, thresholds and pheromone levels are exact reals or exact integer comparisons.
  - `0.4·capacity` and `0.8·remaining` are compared exactly, as `10·x <= 4·c` and `10·w <= 8·r`.
  - Rounding at exact boundaries is not modelled.
  - `compareByScore` compares the squares of `v^3/w^1.5` as integers, so `std::pow`'s rounding is not reproduced.
  - The `double` returned by `calculateFitness_ACO` and its cast back to `int` are one integer.
- Integer width: C++ `int` sums and products can overflow; the model's integers are unbounded.
- Division by zero: the members that divide by a weight require positive weights, and IEEE infinities and NaNs are not modelled. These are `BranchAndBound.*` (the `bound` function), `SlidingThreshold.*` (the threshold ratios) and `Aco.*` (the inclusion test). The ratio sorts are cross-multiplied, so they stay defined for zero weights: `StandardGreedy`, `MaxOfTwo` and `Sorting.Sort` require only `ValidItems`.
- Randomness and transcendental functions: `rand`, `srand(time)`, `exp` and `pow` are parameters. The Metropolis test is one boolean per iteration; `pow` is an arbitrary function.
- `SimulatedAnnealing.KnapsackSimulatedAnnealing`: requires `0 < coolingRate < 1`. With `coolingRate >= 1` the C++ loops forever once the temperature is above 1. `coolingRate <= 0` is excluded only for the termination measure; the test driver passes rates from 0.05 to 0.99 (`Tests/C++/SimulatedAnnealing_test.cpp:29-30`). It carries an explicit iteration counter `k` to index the oracles.
- `SimulatedAnnealing.KnapsackSimulatedAnnealing`: also requires `|items| > 0 || initialTemperature <= 1.0`. With no items and a temperature above 1 the first neighbour step computes `rand() % 0` (`C++/Algorithms/SimulatedAnnealing.cpp:53`), which is undefined.
- `SlidingThreshold.SlidingThresholdKnapsack`: requires `|items| > 0`, because the C++ reads `sortedItems[0]` before the loop (`C++/Heuristics/SlidingThreshold.cpp:34`), which is undefined for an empty vector.
- `std::sort` is modelled by one deterministic sort that yields a comparator-ordered permutation.
  - Every bound is proved for every permutation, so the tie order of `std::sort` does not affect it.
  - The exact results (`SlidingThreshold.SlidingThresholdValue`, the concrete examples) are stated for the model's tie order.
- `selectedItems` is not modelled in the heuristics whose result never reads it. Sliding-threshold does keep it, because its size drives the tightening.
- `TransitioningGreedy.FirstPhase`: the `--i` on an unsigned `size_t` at index 0 wraps around and the `++i` brings it back to 0. The model steps through the items without that wrap.
- `Aco.AntColony.KnapsackACO`: the C++ constructor leaves `bestValue` uninitialised, while the model's constructor sets it to 0. Each call resets it to 0 anyway, so no result depends on it.
- `DynamicProgramming.KnapsackDP`: requires `capacity >= 0` and non-negative weights. A negative capacity gives the table a negative row size, and a negative weight indexes outside a row.
- `Aco.AntColony.KnapsackACO`: requires `numAnts >= 0` and positive weights. The inclusion test divides by the weight, and a negative ant count makes the `vector` constructor throw.
- `BranchAndBound.KnapsackBranchAndBound` and the agreement lemmas `Recursive.RecursiveIsOpt` and `Backtracking.BacktrackingAgreesWithRecursive` need positive weights. With a zero-weight item and capacity 0 the recursion drops the item while the table takes it (`Recursive.RecursiveZeroWeightGap`).
- Helper splits of one C++ loop into several methods are modelling structure, not separate operations:
  - `BranchAndBound.Branch` and `BranchAndBound.PushIfPromising`;
  - `Scan.FirstFitPass`;
  - `Stingy.TakeAll` and `Stingy.RemovalPass`;
  - `SlidingThreshold.SlideLoop`;
  - the `Aco.AntColony` methods `Evaporate`, `EvaporateRow`, `DepositAll`, `DepositAnt`, `Construct`, `BuildSolutions`, `BestOfIteration`, `PrepareCall` and `OneIteration`.

## Findings

| source | as written | input that shows it | evidently intended | confidence | as-written member | corrected member |
|---|---|---|---|---|---|---|
| C++/Heuristics/SlidingThreshold.cpp:49-53 | item `i` is subtracted whenever its ratio is at most the threshold, even when it was never added; item 0 always is, because the threshold starts at its ratio | one item `(value 10, weight 100)`, capacity 50: the item does not fit, is subtracted anyway, and the result is −10 | subtract only an item that was added in this iteration, so the result is a feasible selection's value, at least 0 | not executed | SlidingThreshold.NegativeResult | SlidingThreshold.CorrectedValue |
| C++/Heuristics/SlidingThreshold.cpp:49-53 | subtracting items that were never added raises the room left, so later items are accepted beyond the capacity's real budget | item `(value 85, weight 101)` then four items `(value 50, weight 60)`, capacity 100: the result is 65 while the best feasible value is 50 | never return more than a feasible selection is worth | not executed | SlidingThreshold.AboveOptimum | SlidingThreshold.CorrectedAtMostOpt |
