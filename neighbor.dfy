/** The nearest-neighbour construction of the Corte_1 heuristics
    (Corte_1/Heuristica/tsp/neighbor.go): from a start city, repeatedly move to
    the closest unvisited city, taking the lowest-numbered one on ties; and the
    best such tour over every start city. */
module Neighbor {
  import opened Tours
  import opened Perms
  import opened Options
  import opened Instances

  /** The city the inner loop has chosen after scanning candidates 0..k-1:
      the first strictly closest city to `cur` that is not in `path`, or -1
      when every scanned city is visited. */
  function NearestUpTo(m: Matrix, cur: int, path: seq<int>, k: nat): (r: int)
    requires IsSquare(m) && 0 <= cur < |m| && k <= |m|
    ensures -1 <= r < k
    ensures r != -1 ==> r !in path
  {
    if k == 0 then -1
    else
      var r := NearestUpTo(m, cur, path, k - 1);
      if k - 1 !in path && (r == -1 || m[cur][k - 1] < m[cur][r]) then k - 1 else r
  }

  /** What the scan finds: -1 exactly when every candidate is visited, and
      otherwise an unvisited candidate at least as close as every other one and
      strictly closer than every unvisited candidate with a smaller number. */
  lemma {:induction false} NearestUpToSpec(m: Matrix, cur: int, path: seq<int>, k: nat)
    requires IsSquare(m) && 0 <= cur < |m| && k <= |m|
    ensures NearestUpTo(m, cur, path, k) == -1 <==> forall j :: 0 <= j < k ==> j in path
    ensures var r := NearestUpTo(m, cur, path, k);
      r != -1 ==>
        (forall j :: 0 <= j < k && j !in path ==> m[cur][r] <= m[cur][j]) &&
        (forall j :: 0 <= j < r && j !in path ==> m[cur][r] < m[cur][j])
  {
    if k > 0 {
      NearestUpToSpec(m, cur, path, k - 1);
    }
  }

  /** Extends a partial tour greedily until every city is on it. */
  function NNBuild(m: Matrix, path: seq<int>): seq<int>
    requires IsSquare(m) && 1 <= |path| <= |m| && InRange(path, |m|)
    decreases |m| - |path|
  {
    if |path| == |m| then path
    else
      var r := NearestUpTo(m, path[|path| - 1], path, |m|);
      if r == -1 then path else NNBuild(m, path + [r])
  }

  /** The tour NearestNeighbor builds from `start`. */
  function NNTour(m: Matrix, start: int): seq<int>
    requires IsSquare(m) && 0 <= start < |m|
  {
    NNBuild(m, [start])
  }

  /** Step i of a tour is greedy: t[i] is a closest city to t[i-1] among those
      not yet on the tour, and no unvisited city with a smaller number is as close. */
  predicate GreedyStep(m: Matrix, t: seq<int>, i: int)
    requires IsSquare(m) && 1 <= i < |t| && InRange(t, |m|)
  {
    t[i] !in t[..i] &&
    forall j :: 0 <= j < |m| && j !in t[..i] ==>
      m[t[i - 1]][t[i]] <= m[t[i - 1]][j] && (j < t[i] ==> m[t[i - 1]][t[i]] < m[t[i - 1]][j])
  }

  /** A tour from `start` in which every step is greedy. */
  predicate GreedyTour(m: Matrix, start: int, t: seq<int>)
    requires IsSquare(m)
  {
    |t| == |m| && InRange(t, |m|) && |t| >= 1 && t[0] == start &&
    forall i :: 1 <= i < |t| ==> GreedyStep(m, t, i)
  }

  lemma NNExtend(m: Matrix, path: seq<int>) returns (r: int)
    requires IsSquare(m) && 1 <= |path| < |m| && InRange(path, |m|) && Distinct(path)
    ensures r == NearestUpTo(m, path[|path| - 1], path, |m|)
    ensures 0 <= r < |m| && r !in path
    ensures Distinct(path + [r]) && InRange(path + [r], |m|)
    ensures NNBuild(m, path + [r]) == NNBuild(m, path)
  {
    r := NearestUpTo(m, path[|path| - 1], path, |m|);
    NearestUpToSpec(m, path[|path| - 1], path, |m|);
    var v := MissingCity(path, |m|);
    assert v !in path;
  }

  lemma {:induction false} NNBuildFacts(m: Matrix, path: seq<int>)
    requires IsSquare(m) && 1 <= |path| <= |m| && InRange(path, |m|) && Distinct(path)
    ensures var t := NNBuild(m, path);
      |t| == |m| && t[..|path|] == path && Distinct(t) && InRange(t, |m|) &&
      forall i :: |path| <= i < |m| ==> GreedyStep(m, t, i)
    decreases |m| - |path|
  {
    if |path| < |m| {
      var r := NNExtend(m, path);
      var p := path + [r];
      NNBuildFacts(m, p);
      var t := NNBuild(m, path);
      assert t[..|p|] == p;
      assert t[..|path|] == p[..|path|] == path;
      assert t[|path|] == r;
      NearestUpToSpec(m, path[|path| - 1], path, |m|);
      assert GreedyStep(m, t, |path|);
    }
  }

  /** The nearest-neighbour tour is a permutation of the cities that starts at
      `start` and takes a greedy step every time. */
  lemma NNTourIsGreedy(m: Matrix, start: int)
    requires IsSquare(m) && 0 <= start < |m|
    ensures IsPermutation(NNTour(m, start), |m|)
    ensures GreedyTour(m, start, NNTour(m, start))
  {
    NNBuildFacts(m, [start]);
    var t := NNTour(m, start);
    assert t[..1] == [start];
    Pigeonhole(t, |m|);
  }

  /** Conversely, greedy steps with the lowest-number tie break leave no
      choice: any greedy tour from `start` is the nearest-neighbour tour. */
  lemma GreedyUnique(m: Matrix, start: int, t: seq<int>)
    requires IsSquare(m) && 0 <= start < |m|
    requires GreedyTour(m, start, t)
    ensures t == NNTour(m, start)
  {
    NNTourIsGreedy(m, start);
    GreedyAgree(m, start, t, NNTour(m, start), |m|);
  }

  lemma {:induction false} GreedyAgree(m: Matrix, start: int, t: seq<int>, u: seq<int>, k: nat)
    requires IsSquare(m) && GreedyTour(m, start, t) && GreedyTour(m, start, u)
    requires 1 <= k <= |m|
    ensures t[..k] == u[..k]
  {
    if k > 1 {
      GreedyAgree(m, start, t, u, k - 1);
      var i := k - 1;
      assert t[..i] == u[..i];
      assert GreedyStep(m, t, i) && GreedyStep(m, u, i);
      assert t[i - 1] == u[i - 1] by { assert t[i - 1] == t[..i][i - 1]; }
      assert t[i] == u[i];
      assert t[..k] == t[..i] + [t[i]];
      assert u[..k] == u[..i] + [u[i]];
    } else {
      assert t[..1] == [start] == u[..1];
    }
  }

  /** NearestNeighbor: the greedy tour from `startCity` and its closed length. */
  method NearestNeighbor(inst: Instance, startCity: int) returns (tour: seq<int>, length: nat)
    requires Valid(inst) && 0 <= startCity < inst.numCities
    ensures tour == NNTour(inst.distance, startCity)
    ensures length == CycleCost(Edge(inst.distance), tour)
  {
    var m := inst.distance;
    var n := inst.numCities;
    var visited := new bool[n](_ => false);
    var t := new int[n](_ => 0);
    var current := startCity;
    t[0] := current;
    visited[current] := true;
    assert t[..1] == [startCity];
    var i := 1;
    while i < n
      invariant 1 <= i <= n
      invariant current == t[i - 1]
      invariant Marks(visited, t[..i])
      invariant Distinct(t[..i]) && InRange(t[..i], n)
      invariant NNBuild(m, t[..i]) == NNTour(m, startCity)
    {
      ghost var path := t[..i];
      assert path[|path| - 1] == current;
      var nearest := ScanNearest(m, visited, current, path);
      var r := NNExtend(m, path);
      Place(t, visited, i, nearest, path);
      current := nearest;
      i := i + 1;
    }
    assert t[..] == t[..n];
    tour := t[..];
    length := TourLength(inst, tour);
  }

  /** Puts city c at position i of the tour and flags it visited. */
  method Place(t: array<int>, visited: array<bool>, i: int, c: int, ghost path: seq<int>)
    requires 0 <= i < t.Length && 0 <= c < visited.Length && t[..i] == path && Marks(visited, path)
    modifies t, visited
    ensures t[..i + 1] == path + [c] && Marks(visited, path + [c])
  {
    t[i] := c;
    visited[c] := true;
    assert t[..i + 1] == path + [c];
  }

  /** The inner loop of nearestNeighbor: scan every city and keep the first
      strictly closest one whose visited flag is clear. */
  method ScanNearest(m: Matrix, visited: array<bool>, current: int, ghost path: seq<int>) returns (nearest: int)
    requires IsSquare(m) && visited.Length == |m| && 0 <= current < |m| && Marks(visited, path)
    ensures nearest == NearestUpTo(m, current, path, |m|)
  {
    nearest := -1;
    var nearestDist: Option<nat> := None;
    var j := 0;
    while j < |m|
      invariant 0 <= j <= |m|
      invariant nearest == NearestUpTo(m, current, path, j)
      invariant nearestDist == if nearest == -1 then None else Some(m[current][nearest])
    {
      if !visited[j] && (nearestDist.None? || m[current][j] < nearestDist.value) {
        nearest := j;
        nearestDist := Some(m[current][j]);
      }
      j := j + 1;
    }
  }

  function NNLength(m: Matrix, start: int): nat
    requires IsSquare(m) && 0 <= start < |m|
  {
    CycleCost(Edge(m), NNTour(m, start))
  }

  /** The greedy tour's length from every start city. */
  function NNLengths(m: Matrix): (r: seq<nat>)
    requires IsSquare(m)
    ensures |r| == |m| && forall s :: 0 <= s < |m| ==> r[s] == NNLength(m, s)
  {
    seq(|m|, s requires 0 <= s < |m| => NNLength(m, s))
  }

  /** The start BestNearestNeighbor keeps after trying starts 0..k-1, given
      the length of each start's tour: the first one whose tour is strictly
      shorter than every earlier one's, or -1 before any start is tried. */
  function BestStartUpTo(lengths: seq<nat>, k: nat): (r: int)
    requires k <= |lengths|
    ensures -1 <= r < k
    ensures r == -1 <==> k == 0
  {
    if k == 0 then -1
    else
      var r := BestStartUpTo(lengths, k - 1);
      if r == -1 || lengths[k - 1] < lengths[r] then k - 1 else r
  }

  /** The chosen start has the shortest tour of all starts tried, and the
      lowest number among the starts that reach that length. */
  lemma {:induction false} BestStartSpec(lengths: seq<nat>, k: nat)
    requires 1 <= k <= |lengths|
    ensures var r := BestStartUpTo(lengths, k);
      (forall s :: 0 <= s < k ==> lengths[r] <= lengths[s]) &&
      (forall s :: 0 <= s < r ==> lengths[r] < lengths[s])
  {
    if k > 1 {
      BestStartSpec(lengths, k - 1);
    }
  }

  /** One start of bestNearestNeighbor: build its tour and keep it when
      there is no best yet or it is strictly shorter than the best. */
  method ConsiderStart(inst: Instance, start: int, bestTour: seq<int>, bestLength: Option<nat>, ghost lengths: seq<nat>)
    returns (bestTour': seq<int>, bestLength': Option<nat>, chosen: bool)
    requires Valid(inst) && 0 <= start < inst.numCities && lengths == NNLengths(inst.distance)
    ensures chosen <==> bestLength.None? || lengths[start] < bestLength.value
    ensures chosen ==> bestTour' == NNTour(inst.distance, start) && bestLength' == Some(lengths[start])
    ensures !chosen ==> bestTour' == bestTour && bestLength' == bestLength
  {
    var tour, length := NearestNeighbor(inst, start);
    bestTour', bestLength', chosen := bestTour, bestLength, false;
    if bestLength.None? || length < bestLength.value {
      bestTour', bestLength', chosen := tour, Some(length), true;
    }
  }

  /** BestNearestNeighbor: the nearest-neighbour tour from the best start and
      its length; with no cities, the empty tour and no length (the source's
      MaxFloat64). */
  method BestNearestNeighbor(inst: Instance) returns (bestTour: seq<int>, bestLength: Option<nat>)
    requires Valid(inst)
    ensures inst.numCities == 0 ==> bestTour == [] && bestLength == None
    ensures inst.numCities > 0 ==>
      var s := BestStartUpTo(NNLengths(inst.distance), inst.numCities);
      bestTour == NNTour(inst.distance, s) && bestLength == Some(NNLength(inst.distance, s))
  {
    var n := inst.numCities;
    ghost var lengths := NNLengths(inst.distance);
    bestTour := [];
    bestLength := None;
    ghost var best := -1;
    var start := 0;
    while start < n
      invariant 0 <= start <= n && |lengths| == n
      invariant best == BestStartUpTo(lengths, start)
      invariant best == -1 ==> bestLength == None && bestTour == []
      invariant best != -1 ==> bestLength == Some(lengths[best]) && bestTour == NNTour(inst.distance, best)
    {
      var chosen;
      bestTour, bestLength, chosen := ConsiderStart(inst, start, bestTour, bestLength, lengths);
      assert BestStartUpTo(lengths, start + 1) == if chosen then start else best;
      if chosen {
        best := start;
      }
      start := start + 1;
    }
  }
}
