/**
 * bound and knapsackBranchAndBound (C++/Algorithms/BranchAndBound.cpp).
 * The items are sorted by decreasing value/weight; the search keeps a stack
 * of partial decisions (Node) and prunes a node whose fractional bound does
 * not beat the best profit found so far.
 */
module BranchAndBound {
  import opened Items
  import opened Optimum
  import opened Comparators
  import opened Sorting

  /** A decision-tree node: items 0 .. level have been decided. */
  datatype Node = Node(level: int, profit: int, weight: int, bound: int)

  // ---------------------------------------------------------------------
  // The fractional relaxation behind bound

  /** How far a selection's value exceeds what the ratio of p would give for its weight (times p.weight). */
  function Excess(s: seq<Item>, p: Item): int {
    SumValues(s) * p.weight - p.value * SumWeights(s)
  }

  lemma ExcessAppend(a: seq<Item>, b: seq<Item>, p: Item)
    ensures Excess(a + b, p) == Excess(a, p) + Excess(b, p)
  {
    SumsAppend(a, b);
    var va, vb, wa, wb := SumValues(a), SumValues(b), SumWeights(a), SumWeights(b);
    assert (va + vb) * p.weight == va * p.weight + vb * p.weight;
    assert p.value * (wa + wb) == p.value * wa + p.value * wb;
  }

  lemma ExcessSingle(e: Item, p: Item)
    ensures Excess([e], p) == e.value * p.weight - p.value * e.weight
  {
    SumsSnoc([], e);
    assert [] + [e] == [e];
  }

  /** Leaving out items whose ratio is at least p's never raises the excess. */
  lemma {:induction false} ExcessAtMostAbove(g: seq<Item>, x: seq<bool>, p: Item)
    requires |x| == |g|
    requires forall i | 0 <= i < |g| :: g[i].value * p.weight >= p.value * g[i].weight
    ensures Excess(Selected(g, x), p) <= Excess(g, p)
    decreases |g|
  {
    if |g| > 0 {
      var m := |g| - 1;
      ExcessAtMostAbove(g[..m], x[..m], p);
      assert g == g[..m] + [g[m]];
      ExcessAppend(g[..m], [g[m]], p);
      ExcessSingle(g[m], p);
      var tail := if x[m] then [g[m]] else [];
      ExcessAppend(Selected(g[..m], x[..m]), tail, p);
      assert Excess([], p) == 0;
    }
  }

  /** A selection of items whose ratio is at most p's has no excess. */
  lemma {:induction false} ExcessAtMostZero(t: seq<Item>, x: seq<bool>, p: Item)
    requires |x| == |t|
    requires forall i | 0 <= i < |t| :: t[i].value * p.weight <= p.value * t[i].weight
    ensures Excess(Selected(t, x), p) <= 0
    decreases |t|
  {
    if |t| > 0 {
      var m := |t| - 1;
      ExcessAtMostZero(t[..m], x[..m], p);
      var tail := if x[m] then [t[m]] else [];
      ExcessAppend(Selected(t[..m], x[..m]), tail, p);
      ExcessSingle(t[m], p);
      assert Excess([], p) == 0;
    }
  }

  /** q * d <= num with d > 0 bounds q by the (floor) quotient. */
  lemma DivLowerBound(q: int, num: int, d: int)
    requires d > 0 && q * d <= num
    ensures q <= num / d
  {
    var f, m := num / d, num % d;
    assert num == f * d + m && m < d;
    assert (q - f) * d == q * d - f * d;
    assert d * (q - f) < d * 1;
    IntScale(1, q - f, d);
  }

  /** Relative to the ratio of item k, no selection has more excess than all of items lo .. k - 1. */
  lemma SelectionExcess(items: seq<Item>, lo: int, k: int, n: int, x: seq<bool>)
    requires SortedBy(items, ByRatio)
    requires 0 <= lo <= k < n <= |items|
    requires |x| == n - lo
    ensures Excess(Selected(items[lo..n], x), items[k]) <= Excess(items[lo..k], items[k])
  {
    var s := items[lo..n];
    var p := items[k];
    var g, t := items[lo..k], items[k..n];
    assert s[..k - lo] == g && s[k - lo..] == t;
    SelectedSplit(s, x, k - lo);
    RatioAtLeast(items, lo, k);
    RatioAtMost(items, k, n);
    ExcessAtMostAbove(g, x[..k - lo], p);
    ExcessAtMostZero(t, x[k - lo..], p);
    ExcessAppend(Selected(g, x[..k - lo]), Selected(t, x[k - lo..]), p);
  }

  /** In a ratio-sorted sequence, items lo .. k - 1 have ratio at least that of item k. */
  lemma RatioAtLeast(items: seq<Item>, lo: int, k: int)
    requires SortedBy(items, ByRatio) && 0 <= lo <= k < |items|
    ensures forall i | 0 <= i < k - lo ::
      items[lo..k][i].value * items[k].weight >= items[k].value * items[lo..k][i].weight
  {
    forall i | 0 <= i < k - lo
      ensures items[lo..k][i].value * items[k].weight >= items[k].value * items[lo..k][i].weight
    {
      assert items[lo..k][i] == items[lo + i];
      assert !Less(ByRatio, items[k], items[lo + i]);
    }
  }

  /** In a ratio-sorted sequence, items k .. n - 1 have ratio at most that of item k. */
  lemma RatioAtMost(items: seq<Item>, k: int, n: int)
    requires SortedBy(items, ByRatio) && 0 <= k < n <= |items|
    ensures forall i | 0 <= i < n - k ::
      items[k..n][i].value * items[k].weight <= items[k].value * items[k..n][i].weight
  {
    forall i | 0 <= i < n - k
      ensures items[k..n][i].value * items[k].weight <= items[k].value * items[k..n][i].weight
    {
      assert items[k..n][i] == items[k + i];
      if i > 0 {
        assert !Less(ByRatio, items[k + i], items[k]);
      }
    }
  }

  /** The arithmetic step from an excess comparison to the rounded-down share of the room. */
  lemma ExcessToShare(chosen: seq<Item>, g: seq<Item>, p: Item, room: int)
    requires p.value >= 0 && p.weight > 0 && SumWeights(chosen) <= room
    requires Excess(chosen, p) <= Excess(g, p)
    ensures SumValues(chosen) <= SumValues(g) + Share(room - SumWeights(g), p)
  {
    ShareArithmetic(SumValues(chosen), SumWeights(chosen), SumValues(g), SumWeights(g), p.value, p.weight, room);
  }

  lemma ShareArithmetic(vs: int, ws: int, vg: int, wg: int, pv: int, pw: int, room: int)
    requires pv >= 0 && pw > 0 && ws <= room
    requires vs * pw - pv * ws <= vg * pw - pv * wg
    ensures vs <= vg + (room - wg) * pv / pw
  {
    MulMonotone(pv, ws, room);
    assert (vs - vg) * pw == vs * pw - vg * pw by { MulSubRight(vs, vg, pw); }
    assert (room - wg) * pv == pv * room - pv * wg by { MulSubRight(room, wg, pv); }
    DivLowerBound(vs - vg, (room - wg) * pv, pw);
  }

  lemma MulMonotone(k: int, a: int, b: int)
    requires k >= 0 && a <= b
    ensures k * a <= k * b
  {
    assert k * b - k * a == k * (b - a);
  }

  lemma MulSubRight(a: int, b: int, k: int)
    ensures (a - b) * k == a * k - b * k && a * k == k * a && b * k == k * b
  {
  }

  /** The part of item p that fits in the given room, valued at p's ratio and rounded down. */
  function Share(room: int, p: Item): (r: int)
    requires p.weight > 0
    ensures room >= 0 && p.value >= 0 ==> r >= 0
  {
    room * p.value / p.weight
  }

  // ---------------------------------------------------------------------
  // bound

  /**
   * bound(u): the profit of u plus the items after u.level taken greedily
   * while they fit, plus the next item's share of the remaining room (C++
   * integer division; both operands are non-negative, so it rounds down).
   */
  method Bound(u: Node, n: int, capacity: int, items: seq<Item>) returns (b: int)
    requires -1 <= u.level && u.level + 1 <= n <= |items| && PositiveWeights(items)
    ensures u.weight >= capacity ==> b == 0
    ensures u.weight < capacity ==> b >= u.profit
    ensures u.weight < capacity && SortedBy(items, ByRatio) ==>
      u.profit + Opt(items[u.level + 1..n], capacity - u.weight) <= b
  {
    if u.weight >= capacity {
      return 0;
    }
    var lo := u.level + 1;
    var profitBound := u.profit;
    var j := lo;
    var totalWeight := u.weight;
    assert items[lo..lo] == [];
    while j < n && totalWeight + items[j].weight <= capacity
      invariant lo <= j <= n
      invariant totalWeight == u.weight + SumWeights(items[lo..j])
      invariant profitBound == u.profit + SumValues(items[lo..j])
      invariant totalWeight <= capacity
    {
      SumsSliceStep(items, lo, j);
      totalWeight := totalWeight + items[j].weight;
      profitBound := profitBound + items[j].value;
      j := j + 1;
    }
    PositiveWeightsAreValid(items);
    SliceValid(items, lo, j);
    SumsNonNegative(items[lo..j]);
    if j < n {
      assert items[j] in items;
      // (capacity - totalWeight) * items[j].value / items[j].weight
      profitBound := profitBound + Share(capacity - totalWeight, items[j]);
    }
    b := profitBound;
    if SortedBy(items, ByRatio) {
      BoundCoversCompletions(items, lo, j, n, capacity - u.weight);
    }
  }

  /**
   * The greedy stop point j (items lo .. j - 1 fit in room) gives a bound on
   * every completion from lo on.
   */
  lemma BoundCoversCompletions(items: seq<Item>, lo: int, j: int, n: int, room: int)
    requires PositiveWeights(items) && SortedBy(items, ByRatio)
    requires 0 <= lo <= j <= n <= |items| && room >= 0
    ensures j < n ==>
      Opt(items[lo..n], room) <= SumValues(items[lo..j]) + Share(room - SumWeights(items[lo..j]), items[j])
    ensures j == n ==> Opt(items[lo..n], room) <= SumValues(items[lo..j])
  {
    PositiveWeightsAreValid(items);
    SliceValid(items, lo, n);
    if j < n {
      ShareCoversCompletions(items, lo, j, n, room);
    } else {
      var x := OptChoice(items[lo..n], room);
      SelectedSubMultiset(items[lo..n], x);
      SubMultisetAtMostTotal(items[lo..n], Selected(items[lo..n], x));
    }
  }

  lemma ShareCoversCompletions(items: seq<Item>, lo: int, j: int, n: int, room: int)
    requires PositiveWeights(items) && SortedBy(items, ByRatio)
    requires 0 <= lo <= j < n <= |items| && room >= 0 && ValidItems(items[lo..n])
    ensures Opt(items[lo..n], room) <= SumValues(items[lo..j]) + Share(room - SumWeights(items[lo..j]), items[j])
  {
    var x := OptChoice(items[lo..n], room);
    var chosen := Selected(items[lo..n], x);
    assert items[j] in items;
    SelectionExcess(items, lo, j, n, x);
    ExcessToShare(chosen, items[lo..j], items[j], room);
  }

  // ---------------------------------------------------------------------
  // knapsackBranchAndBound

  /** The node's profit is achievable with items 0 .. level within the node's weight. */
  ghost predicate Sound(node: Node, sorted: seq<Item>) {
    -1 <= node.level < |sorted| && node.weight >= 0 && node.profit >= 0 &&
    node.profit <= Opt(sorted[..node.level + 1], node.weight)
  }

  /** Some completion of the node's decisions reaches the optimum. */
  ghost predicate OnPath(node: Node, sorted: seq<Item>, capacity: int) {
    -1 <= node.level < |sorted| && 0 <= node.weight <= capacity &&
    Opt(sorted, capacity) <= node.profit + Opt(sorted[node.level + 1..|sorted|], capacity - node.weight)
  }

  /** Some node of the stack is on the optimal path. */
  ghost predicate PathIn(queue: seq<Node>, sorted: seq<Item>, capacity: int) {
    |queue| > 0 &&
    (PathIn(queue[..|queue| - 1], sorted, capacity) || OnPath(queue[|queue| - 1], sorted, capacity))
  }

  /** Every node of the stack is sound. */
  ghost predicate AllSound(queue: seq<Node>, sorted: seq<Item>) {
    |queue| > 0 ==> AllSound(queue[..|queue| - 1], sorted) && Sound(queue[|queue| - 1], sorted)
  }

  /** Every node of the stack within the capacity is worth at most the best profit. */
  predicate AllCounted(queue: seq<Node>, capacity: int, maxProfit: int) {
    |queue| > 0 ==>
      AllCounted(queue[..|queue| - 1], capacity, maxProfit) &&
      (queue[|queue| - 1].weight <= capacity ==> queue[|queue| - 1].profit <= maxProfit)
  }

  lemma {:induction false} AllCountedRaise(queue: seq<Node>, capacity: int, m1: int, m2: int)
    requires AllCounted(queue, capacity, m1) && m1 <= m2
    ensures AllCounted(queue, capacity, m2)
    decreases |queue|
  {
    if |queue| > 0 {
      AllCountedRaise(queue[..|queue| - 1], capacity, m1, m2);
    }
  }

  /** The stack invariants of the search, for the pushed node. */
  lemma PushFacts(queue: seq<Node>, v: Node, sorted: seq<Item>, capacity: int, maxProfit: int)
    ensures (queue + [v])[..|queue|] == queue && (queue + [v])[|queue|] == v
    ensures AllSound(queue, sorted) && Sound(v, sorted) ==> AllSound(queue + [v], sorted)
    ensures AllCounted(queue, capacity, maxProfit) && (v.weight <= capacity ==> v.profit <= maxProfit) ==>
      AllCounted(queue + [v], capacity, maxProfit)
    ensures PathIn(queue, sorted, capacity) || OnPath(v, sorted, capacity) ==> PathIn(queue + [v], sorted, capacity)
  {
    assert (queue + [v])[..|queue|] == queue;
  }

  function Pow2(k: nat): (r: nat)
    ensures r >= 1
  {
    if k == 0 then 1 else 2 * Pow2(k - 1)
  }

  /** An upper bound on the pops a node at this level can still cause. */
  function NodeCost(node: Node, n: int): nat {
    if -1 <= node.level < n then Pow2(n - node.level) - 1 else 0
  }

  function QueueCost(queue: seq<Node>, n: int): nat {
    if |queue| == 0 then 0 else QueueCost(queue[..|queue| - 1], n) + NodeCost(queue[|queue| - 1], n)
  }

  lemma QueueCostPush(queue: seq<Node>, v: Node, n: int)
    ensures QueueCost(queue + [v], n) == QueueCost(queue, n) + NodeCost(v, n)
  {
    assert (queue + [v])[..|queue|] == queue;
  }

  /** Both children of a node cost less than the node. */
  lemma ChildrenCost(u: Node, c1: Node, c2: Node, n: int)
    requires -1 <= u.level < n - 1 && c1.level == u.level + 1 == c2.level
    ensures NodeCost(c1, n) + NodeCost(c2, n) < NodeCost(u, n)
  {
    assert Pow2(n - u.level) == 2 * Pow2(n - u.level - 1);
  }

  /** A sound node within the capacity is worth at most the optimum. */
  lemma SoundAtMostOpt(node: Node, sorted: seq<Item>, capacity: int)
    requires ValidItems(sorted) && Sound(node, sorted) && node.weight <= capacity
    ensures node.profit <= Opt(sorted, capacity)
  {
    OptMonotoneCapacity(sorted[..node.level + 1], node.weight, capacity);
    OptMonotoneItems(sorted, node.level + 1, |sorted|, capacity);
    assert sorted[..|sorted|] == sorted;
  }

  /** Deciding item u.level + 1 either way keeps a sound node sound. */
  lemma SoundChildren(u: Node, inc: Node, exc: Node, sorted: seq<Item>)
    requires PositiveWeights(sorted) && Sound(u, sorted) && u.level < |sorted| - 1
    requires inc.level == exc.level == u.level + 1
    requires inc.profit == u.profit + sorted[u.level + 1].value
    requires inc.weight == u.weight + sorted[u.level + 1].weight
    requires exc.profit == u.profit && exc.weight == u.weight
    ensures Sound(inc, sorted) && Sound(exc, sorted)
  {
    var k := u.level + 2;
    var e := sorted[k - 1];
    assert e in sorted;
    OptPrefixStep(sorted, k, inc.weight);
    OptPrefixStep(sorted, k, exc.weight);
  }

  /** If a node on the optimal path has a next item, one of its two children is on the path. */
  lemma PathChild(u: Node, inc: Node, exc: Node, sorted: seq<Item>, capacity: int)
    requires PositiveWeights(sorted) && OnPath(u, sorted, capacity) && u.level < |sorted| - 1
    requires inc.level == exc.level == u.level + 1
    requires inc.profit == u.profit + sorted[u.level + 1].value
    requires inc.weight == u.weight + sorted[u.level + 1].weight
    requires exc.profit == u.profit && exc.weight == u.weight
    ensures OnPath(inc, sorted, capacity) || OnPath(exc, sorted, capacity)
  {
    var rest := sorted[u.level + 1..|sorted|];
    assert ValidItems(rest) by {
      PositiveWeightsAreValid(sorted);
      SliceValid(sorted, u.level + 1, |sorted|);
    }
    assert rest[0] == sorted[u.level + 1];
    assert rest[1..] == sorted[u.level + 2..|sorted|];
    assert sorted[u.level + 1] in sorted;
    OptFirst(rest, capacity - u.weight);
  }

  /** A path node whose bound does not beat the best profit means the best profit is optimal. */
  lemma PrunedPath(node: Node, b: int, maxProfit: int, n: int, sorted: seq<Item>, capacity: int)
    requires PositiveWeights(sorted) && SortedBy(sorted, ByRatio) && n == |sorted|
    requires OnPath(node, sorted, capacity)
    requires node.weight < capacity && SortedBy(sorted, ByRatio) ==>
      node.profit + Opt(sorted[node.level + 1..n], capacity - node.weight) <= b
    requires node.profit <= maxProfit && b <= maxProfit
    ensures Opt(sorted, capacity) <= maxProfit
  {
    if node.weight == capacity {
      var rest := sorted[node.level + 1..|sorted|];
      assert PositiveWeights(rest) by {
        forall y | y in rest ensures y in sorted { }
      }
      OptZeroCapacity(rest);
    }
  }

  /**
   * Computes a child's bound and pushes the child, carrying that bound, when
   * the bound beats the best profit found so far.
   */
  method PushIfPromising(v: Node, queue: seq<Node>, maxProfit: int, n: int, capacity: int, sorted: seq<Item>)
    returns (queue': seq<Node>, b: int)
    requires n == |sorted| && PositiveWeights(sorted) && SortedBy(sorted, ByRatio)
    requires -1 <= v.level < n && Sound(v, sorted) && (v.weight <= capacity ==> v.profit <= maxProfit)
    requires AllSound(queue, sorted) && AllCounted(queue, capacity, maxProfit)
    ensures queue' == if b > maxProfit then queue + [v.(bound := b)] else queue
    ensures v.weight >= capacity ==> b == 0
    ensures AllSound(queue', sorted) && AllCounted(queue', capacity, maxProfit)
    ensures QueueCost(queue', n) <= QueueCost(queue, n) + NodeCost(v, n)
    ensures PathIn(queue, sorted, capacity) ==> PathIn(queue', sorted, capacity)
    ensures OnPath(v, sorted, capacity) ==> Opt(sorted, capacity) <= maxProfit || PathIn(queue', sorted, capacity)
  {
    b := Bound(v, n, capacity, sorted);
    PushFacts(queue, v.(bound := b), sorted, capacity, maxProfit);
    QueueCostPush(queue, v.(bound := b), n);
    if b > maxProfit {
      queue' := queue + [v.(bound := b)];
    } else {
      queue' := queue;
      if OnPath(v, sorted, capacity) {
        PrunedPath(v, b, maxProfit, n, sorted, capacity);
      }
    }
  }

  /**
   * One pass of the search loop for a popped node u below the last level:
   * build the child that takes item u.level + 1, record its profit if it
   * fits and beats the best, and push it when its bound beats the best; then
   * the same for the child that leaves the item out.
   */
  method Branch(u: Node, queue: seq<Node>, maxProfit: int, n: int, capacity: int, sorted: seq<Item>)
    returns (queue': seq<Node>, maxProfit': int)
    requires n == |sorted| && PositiveWeights(sorted) && SortedBy(sorted, ByRatio)
    requires -1 <= u.level < n - 1 && Sound(u, sorted) && (u.weight <= capacity ==> u.profit <= maxProfit)
    requires 0 <= maxProfit <= Opt(sorted, capacity)
    requires AllSound(queue, sorted) && AllCounted(queue, capacity, maxProfit)
    ensures maxProfit <= maxProfit' <= Opt(sorted, capacity)
    ensures u.weight + sorted[u.level + 1].weight <= capacity ==>
      maxProfit' == Max(maxProfit, u.profit + sorted[u.level + 1].value)
    ensures u.weight + sorted[u.level + 1].weight > capacity ==> maxProfit' == maxProfit
    ensures |queue| <= |queue'| <= |queue| + 2
    ensures AllSound(queue', sorted) && AllCounted(queue', capacity, maxProfit')
    ensures QueueCost(queue', n) < QueueCost(queue, n) + NodeCost(u, n)
    ensures Opt(sorted, capacity) <= maxProfit || PathIn(queue, sorted, capacity) || OnPath(u, sorted, capacity) ==>
      Opt(sorted, capacity) <= maxProfit' || PathIn(queue', sorted, capacity)
  {
    var v := Node(u.level + 1, u.profit + sorted[u.level + 1].value, u.weight + sorted[u.level + 1].weight, 0);
    var exclude := v.(weight := u.weight, profit := u.profit);
    SoundChildren(u, v, exclude, sorted);
    ghost var costBefore := QueueCost(queue, n);
    ghost var cu, cv, ce := NodeCost(u, n), NodeCost(v, n), NodeCost(exclude, n);
    ChildrenCost(u, v, exclude, n);
    assert cv + ce < cu;
    if OnPath(u, sorted, capacity) {
      PathChild(u, v, exclude, sorted, capacity);
    }
    maxProfit' := maxProfit;
    if v.weight <= capacity && v.profit > maxProfit' {
      SoundAtMostOpt(v, sorted, capacity);
      maxProfit' := v.profit;
    }
    assert v.weight <= capacity ==> maxProfit' == Max(maxProfit, v.profit);
    AllCountedRaise(queue, capacity, maxProfit, maxProfit');
    var q1, b1 := PushIfPromising(v, queue, maxProfit', n, capacity, sorted);
    var b2;
    queue', b2 := PushIfPromising(exclude, q1, maxProfit', n, capacity, sorted);
    assert QueueCost(q1, n) <= costBefore + cv;
    assert QueueCost(queue', n) <= QueueCost(q1, n) + ce;
    assert |q1| <= |queue| + 1 && |queue'| <= |q1| + 1;
    assert PathIn(queue, sorted, capacity) ==> PathIn(queue', sorted, capacity);
  }

  /**
   * knapsackBranchAndBound: depth-first search over the ratio-sorted items
   * with a stack of nodes; a child is kept only while its bound beats the
   * best profit found so far.  It returns the optimum of the items.
   */
  method KnapsackBranchAndBound(capacity: int, items: seq<Item>) returns (maxProfit: int)
    requires PositiveWeights(items)
    ensures maxProfit == Opt(items, capacity)
  {
    var n := |items|;
    PositiveWeightsAreValid(items);
    var sortedItems := Sort(items, ByRatio);
    SubMultisetPositive(sortedItems, items);
    ghost var best := Opt(sortedItems, capacity);
    if capacity >= 0 {
      OptPermutation(items, sortedItems, capacity);
    } else {
      OptNegativeCapacity(items, capacity);
      PositiveWeightsAreValid(sortedItems);
      OptNegativeCapacity(sortedItems, capacity);
    }

    var root := Node(-1, 0, 0, 0);
    var queue := [root];
    maxProfit := 0;
    assert Sound(root, sortedItems) by {
      assert sortedItems[..0] == [];
    }
    assert capacity >= 0 ==> OnPath(root, sortedItems, capacity) by {
      assert sortedItems[0..|sortedItems|] == sortedItems;
    }
    PushFacts([], root, sortedItems, capacity, maxProfit);
    assert [] + [root] == queue;

    while |queue| > 0
      invariant |sortedItems| == n && PositiveWeights(sortedItems) && SortedBy(sortedItems, ByRatio)
      invariant 0 <= maxProfit <= best
      invariant AllSound(queue, sortedItems) && AllCounted(queue, capacity, maxProfit)
      invariant best <= maxProfit || PathIn(queue, sortedItems, capacity)
      decreases QueueCost(queue, n)
    {
      var u := queue[|queue| - 1];
      queue := queue[..|queue| - 1];
      if u.level == n - 1 {
        assert sortedItems[n..n] == [];
        continue;
      }
      queue, maxProfit := Branch(u, queue, maxProfit, n, capacity, sortedItems);
    }
  }
}
