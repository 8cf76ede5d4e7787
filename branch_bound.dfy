/** The best-first branch and bound of the exact solver
    (Corte_1/Solucion_Exacta/main.go, TSPBranchBoundWithLB).

    Correctness rests on one invariant: every tour from city 0 either costs at
    least the incumbent or extends the path of some node still queued. When
    the queue is empty, the incumbent is therefore optimal. Pruning is sound
    because the lower bound never overestimates (LowerBound.BoundAdmissible),
    which needs symmetric distances. */
module BranchBound {
  import opened Options
  import opened Perms
  import opened Sorting
  import opened Tours
  import opened LowerBound
  import opened Frontier

  /** A node whose fields agree with its path. */
  ghost predicate ValidItem(m: Matrix, it: Item)
    requires IsSquare(m)
  {
    1 <= |it.path| <= |m| && it.path[0] == 0 && Distinct(it.path) && InRange(it.path, |m|)
    && it.visited == VisitedOf(it.path)
    && it.currentCity == it.path[|it.path| - 1]
    && it.actualCost == PathCost(Edge(m), it.path)
    && Admissible(m, it)
  }

  /** The node's bound is at most the cost of every tour through its path
      (LowerBound.BoundAdmissible; it needs symmetric distances). */
  ghost predicate Admissible(m: Matrix, it: Item)
    requires IsSquare(m)
  {
    SymmetricMatrix(m) ==>
      forall t :: IsTour0(t, |m|) && Extends(t, it.path) ==> it.lowerBound <= CycleCost(Edge(m), t) as real
  }

  ghost predicate AllValid(m: Matrix, items: seq<Item>)
    requires IsSquare(m)
  {
    forall k {:trigger ValidItem(m, items[k])} :: 0 <= k < |items| ==> ValidItem(m, items[k])
  }

  /** `x >= bestCost`, where a missing best cost is +infinity. */
  predicate AtLeastBest(x: real, best: Option<nat>) {
    best.Some? && x >= best.value as real
  }

  ghost predicate Extends(t: seq<int>, path: seq<int>) {
    |path| <= |t| && t[..|path|] == path
  }

  /** Tour t needs no further search: it is no cheaper than the incumbent, or
      a queued node will still reach it. */
  ghost predicate Covered(m: Matrix, t: seq<int>, items: seq<Item>, best: Option<nat>)
    requires IsSquare(m)
  {
    (best.Some? && (SymmetricMatrix(m) ==> CycleCost(Edge(m), t) >= best.value))
    || exists k :: 0 <= k < |items| && Extends(t, items[k].path)
  }

  ghost predicate AllCovered(m: Matrix, items: seq<Item>, best: Option<nat>)
    requires IsSquare(m)
  {
    forall t :: IsTour0(t, |m|) ==> Covered(m, t, items, best)
  }

  /** While the children of `path` are generated: every tour is covered,
      except those through `path` whose next city is c or later. */
  ghost predicate CoveredExcept(m: Matrix, items: seq<Item>, best: Option<nat>, path: seq<int>, c: int)
    requires IsSquare(m)
  {
    forall t :: IsTour0(t, |m|) ==>
      Covered(m, t, items, best) || (Extends(t, path) && (|path| < |t| ==> t[|path|] >= c))
  }

  /** The incumbent: a tour from city 0 and its closed cost, or nothing yet. */
  ghost predicate Incumbent(m: Matrix, bestPath: seq<int>, best: Option<nat>) {
    (best.Some? ==> IsTour0(bestPath, |m|) && best.value == CycleCost(Edge(m), bestPath))
    && (best.None? ==> bestPath == [])
  }

  /** b to the power e. */
  function Pow(b: nat, e: nat): nat {
    if e == 0 then 1 else Times(b, Pow(b, e - 1))
  }

  lemma {:induction false} PowPositive(b: nat, e: nat)
    requires b >= 1
    ensures Pow(b, e) >= 1
  {
    if e > 0 {
      PowPositive(b, e - 1);
      TimesPositive(b, Pow(b, e - 1));
    }
  }

  /** A node with d cities still to place can spawn at most n children, each
      weighing a factor n+1 less; so the total weight of the queue drops. */
  ghost function Weight(n: nat, it: Item): nat {
    if |it.path| <= n then Pow(n + 1, n - |it.path|) else 0
  }

  ghost function Measure(n: nat, items: seq<Item>): nat {
    SumOf(items, (it: Item) => Weight(n, it))
  }

  lemma MeasurePush(n: nat, items: seq<Item>, x: Item)
    ensures Measure(n, items + [x]) == Measure(n, items) + Weight(n, x)
  {
    assert (items + [x])[..|items|] == items;
  }

  lemma MeasurePop(n: nat, items: seq<Item>, rest: seq<Item>, x: Item)
    requires multiset(rest) + multiset{x} == multiset(items)
    ensures Measure(n, items) == Measure(n, rest) + Weight(n, x)
  {
    assert multiset(rest + [x]) == multiset(items);
    SumOfPermutation(rest + [x], items, (it: Item) => Weight(n, it));
    MeasurePush(n, rest, x);
  }

  // ---------------------------------------------------------------------
  // One lemma per step of the search loop.

  lemma ValidAfterPop(m: Matrix, items: seq<Item>, rest: seq<Item>, x: Item)
    requires IsSquare(m) && AllValid(m, items)
    requires multiset(rest) + multiset{x} == multiset(items)
    ensures AllValid(m, rest) && ValidItem(m, x)
  {
    assert x in multiset(items);
    forall k | 0 <= k < |rest| ensures ValidItem(m, rest[k]) {
      assert rest[k] in multiset(items);
    }
  }

  lemma CoveredAfterPop(m: Matrix, items: seq<Item>, rest: seq<Item>, x: Item, best: Option<nat>)
    requires IsSquare(m) && AllCovered(m, items, best)
    requires multiset(rest) + multiset{x} == multiset(items)
    ensures CoveredExcept(m, rest, best, x.path, 0)
  {
    forall t | IsTour0(t, |m|)
      ensures Covered(m, t, rest, best) || (Extends(t, x.path) && (|x.path| < |t| ==> t[|x.path|] >= 0))
    {
      PermutationFacts(t, |m|);
      assert Covered(m, t, items, best);
      if !(best.Some? && (SymmetricMatrix(m) ==> CycleCost(Edge(m), t) >= best.value)) {
        var k :| 0 <= k < |items| && Extends(t, items[k].path);
        assert items[k] in multiset(rest) + multiset{x};
        if items[k] != x {
          assert items[k] in rest;
          var k' :| 0 <= k' < |rest| && rest[k'] == items[k];
        }
      }
    }
  }

  /** A tour through a valid node's path costs at least the node's bound. */
  lemma ExtensionCost(m: Matrix, t: seq<int>, it: Item)
    requires IsSquare(m) && SymmetricMatrix(m) && ValidItem(m, it)
    requires IsTour0(t, |m|) && Extends(t, it.path)
    ensures it.lowerBound <= CycleCost(Edge(m), t) as real
  {
  }

  lemma CoveredAfterPrune(m: Matrix, rest: seq<Item>, x: Item, best: Option<nat>)
    requires IsSquare(m) && ValidItem(m, x) && AtLeastBest(x.lowerBound, best)
    requires CoveredExcept(m, rest, best, x.path, 0)
    ensures AllCovered(m, rest, best)
  {
    forall t | IsTour0(t, |m|) ensures Covered(m, t, rest, best) {
      if Extends(t, x.path) && SymmetricMatrix(m) {
        ExtensionCost(m, t, x);
      }
    }
  }

  /** A complete path is a tour; a better one replaces the incumbent, and
      every tour covered before stays covered. */
  lemma CoveredAfterGoal(m: Matrix, rest: seq<Item>, x: Item, best: Option<nat>, best': Option<nat>)
    requires IsSquare(m) && ValidItem(m, x) && |x.path| == |m|
    requires CoveredExcept(m, rest, best, x.path, 0)
    requires best'.Some? && best'.value <= CycleCost(Edge(m), x.path)
    requires best.Some? ==> best'.value <= best.value
    ensures AllCovered(m, rest, best')
  {
    forall t | IsTour0(t, |m|) ensures Covered(m, t, rest, best') {
      if Extends(t, x.path) {
        assert t == t[..|x.path|];
      }
    }
  }

  lemma GoalIsTour(m: Matrix, x: Item)
    requires IsSquare(m) && ValidItem(m, x) && |x.path| == |m|
    ensures IsTour0(x.path, |m|)
    ensures x.actualCost + Edge(m)(x.currentCity, 0) == CycleCost(Edge(m), x.path)
  {
    Pigeonhole(x.path, |m|);
  }

  /** Tours through `path` do not continue with an already visited city. */
  lemma SkipVisited(m: Matrix, items: seq<Item>, best: Option<nat>, x: Item, c: int)
    requires IsSquare(m) && ValidItem(m, x) && c in x.visited
    requires CoveredExcept(m, items, best, x.path, c)
    ensures CoveredExcept(m, items, best, x.path, c + 1)
  {
    forall t | IsTour0(t, |m|) && Extends(t, x.path) && |x.path| < |t|
      ensures t[|x.path|] != c
    {
      PermutationFacts(t, |m|);
      var j :| 0 <= j < |x.path| && x.path[j] == c;
      assert t[j] == c;
    }
  }

  lemma ChildPath(m: Matrix, x: Item, t: seq<int>, c: int)
    requires IsSquare(m) && ValidItem(m, x)
    requires IsTour0(t, |m|) && Extends(t, x.path) && |x.path| < |t| && t[|x.path|] == c
    ensures Extends(t, x.path + [c]) && t[..|x.path| + 1] == x.path + [c]
  {
    assert t[..|x.path| + 1] == t[..|x.path|] + [t[|x.path|]];
  }

  lemma DistinctSnoc(s: seq<int>, c: int)
    requires Distinct(s) && c !in s
    ensures Distinct(s + [c])
  {
  }

  lemma VisitedSnoc(s: seq<int>, c: int)
    ensures VisitedOf(s + [c]) == VisitedOf(s) + {c}
  {
  }

  /** The child of x that goes on to city c is a valid node. */
  lemma ChildValid(m: Matrix, x: Item, c: int, child: Item)
    requires IsSquare(m) && ValidItem(m, x) && 0 <= c < |m| && c !in x.visited
    requires child.path == x.path + [c] && child.visited == x.visited + {c} && child.currentCity == c
    requires child.actualCost == x.actualCost + m[x.currentCity][c]
    requires child.lowerBound == Bound(m, child.path, child.visited, child.actualCost)
    ensures ValidItem(m, child)
  {
    var p := x.path + [c];
    DistinctSnoc(x.path, c);
    Pigeonhole(p, |m|);
    VisitedSnoc(x.path, c);
    PathCostSnoc(Edge(m), x.path, c);
    BoundIsAdmissible(m, child);
  }

  lemma BoundIsAdmissible(m: Matrix, it: Item)
    requires IsSquare(m) && 1 <= |it.path| <= |m|
    requires it.lowerBound == Bound(m, it.path, VisitedOf(it.path), PathCost(Edge(m), it.path))
    ensures Admissible(m, it)
  {
    forall t | SymmetricMatrix(m) && IsTour0(t, |m|) && Extends(t, it.path)
      ensures it.lowerBound <= CycleCost(Edge(m), t) as real
    {
      BoundAdmissible(m, t, |it.path|);
    }
  }

  /** Children cut off because their cost so far already reaches the best:
      a tour costs at least any of its prefixes. */
  lemma SkipCostly(m: Matrix, items: seq<Item>, best: Option<nat>, x: Item, c: int)
    requires IsSquare(m) && ValidItem(m, x) && 0 <= c < |m| && c !in x.visited
    requires AtLeastBest((x.actualCost + m[x.currentCity][c]) as real, best)
    requires CoveredExcept(m, items, best, x.path, c)
    ensures CoveredExcept(m, items, best, x.path, c + 1)
  {
    forall t | IsTour0(t, |m|) && Extends(t, x.path) && |x.path| < |t| && t[|x.path|] == c
      ensures CycleCost(Edge(m), t) >= best.value
    {
      ChildPath(m, x, t, c);
      PathCostSnoc(Edge(m), x.path, c);
      PrefixCost(m, x.path + [c], t);
    }
  }

  /** A tour costs at least the open path of any of its prefixes. */
  lemma PrefixCost(m: Matrix, path: seq<int>, t: seq<int>)
    requires 1 <= |path| && Extends(t, path)
    ensures PathCost(Edge(m), path) <= CycleCost(Edge(m), t)
  {
    PathCostPrefix(Edge(m), t, |path|);
  }

  /** Children cut off because their bound already reaches the best. */
  lemma SkipBounded(m: Matrix, items: seq<Item>, best: Option<nat>, x: Item, c: int, child: Item)
    requires IsSquare(m) && ValidItem(m, x) && ValidItem(m, child) && child.path == x.path + [c]
    requires AtLeastBest(child.lowerBound, best)
    requires CoveredExcept(m, items, best, x.path, c)
    ensures CoveredExcept(m, items, best, x.path, c + 1)
  {
    forall t | IsTour0(t, |m|) && SymmetricMatrix(m) && Extends(t, x.path) && |x.path| < |t| && t[|x.path|] == c
      ensures CycleCost(Edge(m), t) >= best.value
    {
      ChildPath(m, x, t, c);
      ExtensionCost(m, t, child);
    }
  }

  /** A queued child covers every tour through it. */
  lemma CoveredAfterPush(m: Matrix, items: seq<Item>, best: Option<nat>, x: Item, c: int, child: Item)
    requires IsSquare(m) && ValidItem(m, x) && child.path == x.path + [c]
    requires CoveredExcept(m, items, best, x.path, c)
    ensures CoveredExcept(m, items + [child], best, x.path, c + 1)
  {
    var items' := items + [child];
    forall t | IsTour0(t, |m|)
      ensures Covered(m, t, items', best) || (Extends(t, x.path) && (|x.path| < |t| ==> t[|x.path|] >= c + 1))
    {
      if Covered(m, t, items, best) {
        if !(best.Some? && (SymmetricMatrix(m) ==> CycleCost(Edge(m), t) >= best.value)) {
          var k :| 0 <= k < |items| && Extends(t, items[k].path);
          assert items'[k] == items[k];
        }
      } else if |x.path| < |t| && t[|x.path|] == c {
        ChildPath(m, x, t, c);
        assert items'[|items|].path == x.path + [c];
      }
    }
  }

  /** Everything a queued child changes: validity, coverage and weight. */
  lemma PushStep(m: Matrix, n: nat, items: seq<Item>, best: Option<nat>, x: Item, c: int, child: Item)
    requires IsSquare(m) && n == |m| && ValidItem(m, x) && ValidItem(m, child) && child.path == x.path + [c]
    requires |x.path| < n && AllValid(m, items)
    requires CoveredExcept(m, items, best, x.path, c)
    ensures AllValid(m, items + [child])
    ensures CoveredExcept(m, items + [child], best, x.path, c + 1)
    ensures Measure(n, items + [child]) == Measure(n, items) + Pow(n + 1, n - |x.path| - 1)
  {
    CoveredAfterPush(m, items, best, x, c, child);
    PushMeasure(n, items, x, child);
    AllValidPush(m, items, child);
  }

  lemma PushMeasure(n: nat, items: seq<Item>, x: Item, child: Item)
    requires |x.path| < n && |child.path| == |x.path| + 1
    ensures Measure(n, items + [child]) == Measure(n, items) + Pow(n + 1, n - |x.path| - 1)
  {
    MeasurePush(n, items, child);
    ChildWeight(n, x, child);
  }

  lemma CoveredAfterChildren(m: Matrix, items: seq<Item>, best: Option<nat>, x: Item)
    requires IsSquare(m) && ValidItem(m, x) && |x.path| < |m|
    requires CoveredExcept(m, items, best, x.path, |m|)
    ensures AllCovered(m, items, best)
  {
    forall t | IsTour0(t, |m|) ensures Covered(m, t, items, best) {
      PermutationFacts(t, |m|);
      assert 0 <= t[|x.path|] < |m|;
    }
  }

  lemma RootCovers(m: Matrix, root: Item)
    requires IsSquare(m) && |m| >= 1 && root.path == [0]
    ensures AllCovered(m, [root], None)
  {
    forall t | IsTour0(t, |m|) ensures Covered(m, t, [root], None) {
      assert t[..1] == [0];
      assert Extends(t, [root][0].path);
    }
  }

  lemma EmptyQueue(m: Matrix, best: Option<nat>)
    requires IsSquare(m) && |m| >= 1 && AllCovered(m, [], best)
    ensures best.Some?
    ensures SymmetricMatrix(m) ==> forall t :: IsTour0(t, |m|) ==> best.value <= CycleCost(Edge(m), t)
  {
    RangeIsPermutation(|m|);
    assert IsTour0(Range(|m|), |m|);
    assert Covered(m, Range(|m|), [], best);
  }

  // ---------------------------------------------------------------------

  lemma ValidItemFacts(m: Matrix, x: Item)
    requires IsSquare(m) && ValidItem(m, x)
    ensures 1 <= |x.path| <= |m| && 0 <= x.currentCity < |m| && InRange(x.path, |m|)
  {
  }

  /** The child of node that goes on to city c: the path, visited set and
      cost extended by c, and the lower bound of that path. */
  function ChildOf(m: Matrix, node: Item, c: int): Item
    requires IsSquare(m) && 0 <= node.currentCity < |m| && 0 <= c < |m|
  {
    var cost := node.actualCost + m[node.currentCity][c];
    Item(Bound(m, node.path + [c], node.visited + {c}, cost), c, node.path + [c], node.visited + {c}, cost)
  }

  /** The child loop queues the child on city c exactly when c is unvisited,
      the cost so far stays below the best cost and so does the child's
      bound. */
  predicate Queued(m: Matrix, node: Item, best: Option<nat>, c: int)
    requires IsSquare(m) && 0 <= node.currentCity < |m| && 0 <= c < |m|
  {
    c !in node.visited
    && !AtLeastBest((node.actualCost + m[node.currentCity][c]) as real, best)
    && !AtLeastBest(ChildOf(m, node, c).lowerBound, best)
  }

  /** The children queued for the cities 0..k-1, in the order of the loop. */
  function QueuedChildren(m: Matrix, node: Item, best: Option<nat>, k: nat): seq<Item>
    requires IsSquare(m) && 0 <= node.currentCity < |m| && k <= |m|
  {
    if k == 0 then [] else
      QueuedChildren(m, node, best, k - 1) + (if Queued(m, node, best, k - 1) then [ChildOf(m, node, k - 1)] else [])
  }

  /** The children queued for cities below k are exactly the children of
      those cities that pass the filters. */
  lemma {:induction false} QueuedChildrenIff(m: Matrix, node: Item, best: Option<nat>, k: nat)
    requires IsSquare(m) && 0 <= node.currentCity < |m| && k <= |m|
    ensures forall x :: x in QueuedChildren(m, node, best, k) ==>
      exists c :: 0 <= c < k && Queued(m, node, best, c) && x == ChildOf(m, node, c)
    ensures forall c :: 0 <= c < k && Queued(m, node, best, c) ==> ChildOf(m, node, c) in QueuedChildren(m, node, best, k)
  {
    var keep, make := QueuedTest(m, node, best), ChildMaker(m, node);
    QueuedChildrenKept(m, node, best, k);
    KeptIff(keep, make, k);
    forall c | 0 <= c < k
      ensures keep(c) == Queued(m, node, best, c) && make(c) == ChildOf(m, node, c)
    {
    }
  }

  /** The child loop's filter and the child it builds, as functions of the
      city. */
  function QueuedTest(m: Matrix, node: Item, best: Option<nat>): int -> bool
    requires IsSquare(m) && 0 <= node.currentCity < |m|
  {
    c => 0 <= c < |m| && Queued(m, node, best, c)
  }

  function ChildMaker(m: Matrix, node: Item): int -> Item
    requires IsSquare(m) && 0 <= node.currentCity < |m|
  {
    c => if 0 <= c < |m| then ChildOf(m, node, c) else node
  }

  /** make(c) for every c below k that passes keep, in increasing order of c. */
  function Kept<T>(keep: int -> bool, make: int -> T, k: nat): seq<T> {
    if k == 0 then [] else Kept(keep, make, k - 1) + (if keep(k - 1) then [make(k - 1)] else [])
  }

  /** Everything kept is made from a c below k that passes keep, and every
      such c has its item kept. */
  lemma {:induction false} KeptIff<T>(keep: int -> bool, make: int -> T, k: nat)
    ensures forall x :: x in Kept(keep, make, k) ==> exists c :: 0 <= c < k && keep(c) && x == make(c)
    ensures forall c :: 0 <= c < k && keep(c) ==> make(c) in Kept(keep, make, k)
  {
    if k > 0 {
      KeptIff(keep, make, k - 1);
    }
  }

  /** The queued children are what the filter keeps of the children. */
  lemma {:induction false} QueuedChildrenKept(m: Matrix, node: Item, best: Option<nat>, k: nat)
    requires IsSquare(m) && 0 <= node.currentCity < |m| && k <= |m|
    ensures QueuedChildren(m, node, best, k) == Kept(QueuedTest(m, node, best), ChildMaker(m, node), k)
  {
    if k > 0 {
      QueuedChildrenKept(m, node, best, k - 1);
    }
  }

  /** One more city: its child, if queued, follows the children before it. */
  lemma QueuedChildrenStep(m: Matrix, node: Item, best: Option<nat>, k: nat)
    requires IsSquare(m) && 0 <= node.currentCity < |m| && k < |m|
    ensures QueuedChildren(m, node, best, k + 1) ==
      QueuedChildren(m, node, best, k) + (if Queued(m, node, best, k) then [ChildOf(m, node, k)] else [])
  {
  }

  /** One turn of the child loop: city c is skipped when visited, cut off when
      the cost so far or the child's bound reaches the best cost, and queued
      otherwise. */
  method GenerateChild(distances: Matrix, ghost n: nat, pq: PriorityQueue, node: Item, bestCost: Option<nat>, nextCity: int)
    requires IsSquare(distances) && n == |distances| && ValidItem(distances, node) && 0 <= nextCity < n
    requires |node.path| < n
    requires AllValid(distances, pq.items)
    requires CoveredExcept(distances, pq.items, bestCost, node.path, nextCity)
    modifies pq
    ensures pq.items == old(pq.items) +
      (if Queued(distances, node, bestCost, nextCity) then [ChildOf(distances, node, nextCity)] else [])
    ensures AllValid(distances, pq.items)
    ensures CoveredExcept(distances, pq.items, bestCost, node.path, nextCity + 1)
    ensures Measure(n, pq.items) <= Measure(n, old(pq.items)) + Pow(n + 1, n - |node.path| - 1)
  {
    ValidItemFacts(distances, node);
    if nextCity in node.visited {
      SkipVisited(distances, pq.items, bestCost, node, nextCity);
      assert !Queued(distances, node, bestCost, nextCity);
      return;
    }
    var newActualCost := node.actualCost + distances[node.currentCity][nextCity];
    if AtLeastBest(newActualCost as real, bestCost) {
      SkipCostly(distances, pq.items, bestCost, node, nextCity);
      assert !Queued(distances, node, bestCost, nextCity);
      return;
    }
    var child := MakeChild(distances, node, nextCity, newActualCost);
    ChildIsChildOf(distances, node, nextCity, child);
    if !AtLeastBest(child.lowerBound, bestCost) {
      PushStep(distances, n, pq.items, bestCost, node, nextCity, child);
      assert Queued(distances, node, bestCost, nextCity);
      HeapPush(pq, child);
    } else {
      SkipBounded(distances, pq.items, bestCost, node, nextCity, child);
      assert !Queued(distances, node, bestCost, nextCity);
    }
  }

  lemma ChildIsChildOf(m: Matrix, node: Item, c: int, child: Item)
    requires IsSquare(m) && 0 <= node.currentCity < |m| && 0 <= c < |m|
    requires child.path == node.path + [c] && child.currentCity == c
    requires child.visited == node.visited + {c} && child.actualCost == node.actualCost + m[node.currentCity][c]
    requires child.lowerBound == Bound(m, child.path, child.visited, child.actualCost)
    ensures child == ChildOf(m, node, c)
  {
  }

  /** The child of node that goes on to nextCity: extended path, visited set
      and cost, and its lower bound. */
  method MakeChild(distances: Matrix, node: Item, nextCity: int, newActualCost: nat) returns (child: Item)
    requires IsSquare(distances) && ValidItem(distances, node) && 0 <= nextCity < |distances|
    requires nextCity !in node.visited
    requires newActualCost == node.actualCost + distances[node.currentCity][nextCity]
    ensures child.path == node.path + [nextCity] && child.currentCity == nextCity
    ensures child.visited == node.visited + {nextCity} && child.actualCost == newActualCost
    ensures child.lowerBound == Bound(distances, child.path, child.visited, newActualCost)
    ensures ValidItem(distances, child)
  {
    var newPath := node.path + [nextCity];
    var newVisited := node.visited + {nextCity};
    ValidItemFacts(distances, node);
    InRangeSnoc(node.path, nextCity, |distances|);
    var newLB := CalculateLowerBound(distances, newPath, newVisited, newActualCost);
    child := Item(newLB, nextCity, newPath, newVisited, newActualCost);
    ChildValid(distances, node, nextCity, child);
  }

  lemma ChildWeight(n: nat, x: Item, child: Item)
    requires |x.path| < n && |child.path| == |x.path| + 1
    ensures Weight(n, child) == Pow(n + 1, n - |x.path| - 1)
  {
  }

  lemma InRangeSnoc(s: seq<int>, c: int, n: int)
    requires InRange(s, n) && 0 <= c < n
    ensures InRange(s + [c], n)
  {
  }

  lemma AllValidPush(m: Matrix, items: seq<Item>, x: Item)
    requires IsSquare(m) && AllValid(m, items) && ValidItem(m, x)
    ensures AllValid(m, items + [x])
  {
  }

  /** ExpandNode's loop invariant after the cities below k: the queue is
      start followed by the children queued for them, every item is valid,
      every tour is covered except through the children still to come, and
      the weight has grown by at most k child weights. */
  ghost predicate Expanding(m: Matrix, n: nat, items: seq<Item>, node: Item, best: Option<nat>,
                            start: seq<Item>, k: nat, w: nat)
  {
    IsSquare(m) && n == |m| && ValidItem(m, node) && |node.path| < n && 0 <= node.currentCity < n && k <= n &&
    items == start + QueuedChildren(m, node, best, k) &&
    AllValid(m, items) &&
    CoveredExcept(m, items, best, node.path, k) &&
    w == Pow(n + 1, n - |node.path| - 1) &&
    Measure(n, items) <= Measure(n, start) + Times(k, w)
  }

  /** The `else` branch of the search loop: generate every child of node. */
  method ExpandNode(distances: Matrix, ghost n: nat, pq: PriorityQueue, node: Item, bestCost: Option<nat>)
    requires IsSquare(distances) && n == |distances| && ValidItem(distances, node) && |node.path| < n
    requires AllValid(distances, pq.items)
    requires CoveredExcept(distances, pq.items, bestCost, node.path, 0)
    modifies pq
    ensures pq.items == old(pq.items) + QueuedChildren(distances, node, bestCost, n)
    ensures AllValid(distances, pq.items)
    ensures AllCovered(distances, pq.items, bestCost)
    ensures Measure(n, pq.items) < Measure(n, old(pq.items)) + Weight(n, node)
  {
    ghost var w := Pow(n + 1, n - |node.path| - 1);
    ghost var start := pq.items;
    ExpandStart(distances, n, start, node, bestCost, w);
    var nextCity := 0;
    while nextCity < |distances|
      invariant 0 <= nextCity <= n
      invariant Expanding(distances, n, pq.items, node, bestCost, start, nextCity, w)
    {
      ChildTurn(distances, n, pq, node, bestCost, nextCity, start, w);
      nextCity := nextCity + 1;
    }
    ExpandDone(distances, n, pq.items, start, node, bestCost, w);
  }

  /** Before the child loop: nothing is pushed yet. */
  lemma ExpandStart(m: Matrix, n: nat, items: seq<Item>, node: Item, best: Option<nat>, w: nat)
    requires IsSquare(m) && n == |m| && ValidItem(m, node) && |node.path| < n
    requires AllValid(m, items) && CoveredExcept(m, items, best, node.path, 0)
    requires w == Pow(n + 1, n - |node.path| - 1)
    ensures Expanding(m, n, items, node, best, items, 0, w)
  {
    ValidItemFacts(m, node);
    assert items == items + QueuedChildren(m, node, best, 0);
  }

  /** After the child loop: the queue is the old one followed by the queued
      children, every tour is covered, and the weight has dropped. */
  lemma ExpandDone(m: Matrix, n: nat, items: seq<Item>, start: seq<Item>, node: Item,
                   best: Option<nat>, w: nat)
    requires Expanding(m, n, items, node, best, start, n, w)
    ensures items == start + QueuedChildren(m, node, best, n)
    ensures AllValid(m, items)
    ensures AllCovered(m, items, best)
    ensures Measure(n, items) < Measure(n, start) + Weight(n, node)
  {
    CoveredAfterChildren(m, items, best, node);
    PowPositive(n + 1, n - |node.path| - 1);
    WeightSplit(n, node);
  }

  /** One turn of ExpandNode's loop: GenerateChild for nextCity keeps the
      loop invariant. */
  method ChildTurn(distances: Matrix, ghost n: nat, pq: PriorityQueue, node: Item, bestCost: Option<nat>, nextCity: nat,
                   ghost start: seq<Item>, ghost w: nat)
    requires nextCity < n
    requires Expanding(distances, n, pq.items, node, bestCost, start, nextCity, w)
    modifies pq
    ensures Expanding(distances, n, pq.items, node, bestCost, start, nextCity + 1, w)
  {
    ghost var before := pq.items;
    assert Measure(n, before) <= Measure(n, start) + Times(nextCity, w);
    GenerateChild(distances, n, pq, node, bestCost, nextCity);
    QueuedChildrenStep(distances, node, bestCost, nextCity);
    ghost var done := QueuedChildren(distances, node, bestCost, nextCity);
    ghost var turn := if Queued(distances, node, bestCost, nextCity) then [ChildOf(distances, node, nextCity)] else [];
    assert pq.items == before + turn;
    assert start + (done + turn) == (start + done) + turn;
    assert Measure(n, pq.items) <= Measure(n, start) + Times(nextCity + 1, w);
  }

  /** a * w as repeated addition, which keeps the loop's arithmetic linear. */
  function Times(a: nat, w: nat): nat {
    if a == 0 then 0 else Times(a - 1, w) + w
  }

  lemma {:induction false} TimesPositive(a: nat, w: nat)
    requires a >= 1 && w >= 1
    ensures Times(a, w) >= 1
  {
    if a > 1 {
      TimesPositive(a - 1, w);
    }
  }

  lemma WeightSplit(n: nat, x: Item)
    requires |x.path| < n
    ensures Weight(n, x) == Times(n, Pow(n + 1, n - |x.path| - 1)) + Pow(n + 1, n - |x.path| - 1)
  {
  }

  /** The search. Returns the best tour from city 0 and its cost, or nothing
      when there are no cities. With symmetric distances the tour is optimal. */
  method TSPBranchBoundWithLB(distances: Matrix) returns (bestPath: seq<int>, bestCost: Option<nat>)
    requires IsSquare(distances)
    ensures Incumbent(distances, bestPath, bestCost)
    ensures |distances| >= 1 <==> bestCost.Some?
    ensures bestCost.Some? && SymmetricMatrix(distances) ==>
      forall t :: IsTour0(t, |distances|) ==> bestCost.value <= CycleCost(Edge(distances), t)
  {
    var n := |distances|;
    bestPath, bestCost := [], None;
    if n == 0 {
      return;
    }
    var pq := InitialQueue(distances);
    while pq.Len() > 0
      invariant AllValid(distances, pq.items)
      invariant Incumbent(distances, bestPath, bestCost)
      invariant AllCovered(distances, pq.items, bestCost)
      decreases Measure(n, pq.items)
    {
      bestPath, bestCost := SearchStep(distances, n, pq, bestPath, bestCost);
    }
    EmptyQueue(distances, bestCost);
  }

  /** One iteration of the search loop: pop the cheapest-bound node, then
      prune it, record it as a complete tour, or expand it. */
  method SearchStep(distances: Matrix, ghost n: nat, pq: PriorityQueue, bestPath: seq<int>, bestCost: Option<nat>)
    returns (bestPath': seq<int>, bestCost': Option<nat>)
    requires IsSquare(distances) && n == |distances| && |pq.items| > 0
    requires AllValid(distances, pq.items)
    requires Incumbent(distances, bestPath, bestCost)
    requires AllCovered(distances, pq.items, bestCost)
    modifies pq
    ensures AllValid(distances, pq.items)
    ensures Incumbent(distances, bestPath', bestCost')
    ensures AllCovered(distances, pq.items, bestCost')
    ensures bestCost.Some? ==> bestCost'.Some? && bestCost'.value <= bestCost.value
    ensures bestCost' != bestCost ==> bestCost'.Some? && (bestCost.None? || bestCost'.value < bestCost.value)
    ensures bestCost' == bestCost ==> bestPath' == bestPath
    ensures Measure(n, pq.items) < Measure(n, old(pq.items))
  {
    bestPath', bestCost' := bestPath, bestCost;
    ghost var before := pq.items;
    var node := HeapPop(pq);
    ValidAfterPop(distances, before, pq.items, node);
    CoveredAfterPop(distances, before, pq.items, node, bestCost);
    MeasurePop(n, before, pq.items, node);
    ValidItemFacts(distances, node);
    PowPositive(n + 1, n - |node.path|);

    if AtLeastBest(node.lowerBound, bestCost) {
      CoveredAfterPrune(distances, pq.items, node, bestCost);
    } else if |node.path| == |distances| {
      var totalCost := node.actualCost + distances[node.currentCity][0];
      GoalIsTour(distances, node);
      if bestCost.None? || totalCost < bestCost.value {
        CoveredAfterGoal(distances, pq.items, node, bestCost, Some(totalCost));
        bestPath' := node.path;
        bestCost' := Some(totalCost);
      } else {
        CoveredAfterGoal(distances, pq.items, node, bestCost, bestCost);
      }
    } else {
      ExpandNode(distances, n, pq, node, bestCost);
    }
  }

  /** The queue holding only the root: the path [0] with its lower bound. */
  method InitialQueue(distances: Matrix) returns (pq: PriorityQueue)
    requires IsSquare(distances) && |distances| >= 1
    ensures fresh(pq)
    ensures AllValid(distances, pq.items) && AllCovered(distances, pq.items, None)
  {
    var initialVisited := {0};
    var initialPath := [0];
    var initialLB := CalculateLowerBound(distances, initialPath, initialVisited, 0);
    pq := new PriorityQueue();
    var root := Item(initialLB, 0, initialPath, initialVisited, 0);
    RootValid(distances, root);
    HeapPush(pq, root);
    assert pq.items == [root];
    RootCovers(distances, root);
  }

  lemma RootValid(m: Matrix, root: Item)
    requires IsSquare(m) && |m| >= 1
    requires root == Item(Bound(m, [0], {0}, 0), 0, [0], {0}, 0)
    ensures AllValid(m, [root])
  {
    assert VisitedOf([0]) == {0};
    forall t | SymmetricMatrix(m) && IsTour0(t, |m|) && Extends(t, [0])
      ensures root.lowerBound <= CycleCost(Edge(m), t) as real
    {
      BoundAdmissible(m, t, 1);
    }
    assert ValidItem(m, root);
  }
}
