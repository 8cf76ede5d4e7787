/** Farthest insertion over a distance matrix (Corte_1/Heuristica/tsp/insertion.go,
    and the same rounds in Corte_2/Algoritmo_Genetico/geneticalgorithm/heuristic.go).

    The tour is seeded with the farthest pair of cities and the city farthest
    from both; then, round by round, the city whose distance to the tour is
    largest is inserted where it raises the closed length least. Every choice
    takes the first candidate on ties, because every comparison is strict. */
module Insertion {
  import opened Tours
  import opened Perms
  import opened Options
  import opened Instances

  /** Pair (a, b) comes before pair (c1, c2) in the order the nested seed loops
      visit them. */
  predicate Before(a: int, b: int, c1: int, c2: int) {
    a < c1 || (a == c1 && b < c2)
  }

  /** The pair the seed loops hold once they reach pair (i, j): the first pair
      a < b of largest distance among those visited before (i, j). */
  function PairUpTo(m: Matrix, i: nat, j: nat): (r: Option<(int, int)>)
    requires IsSquare(m) && i <= |m| && j <= |m|
    ensures r.Some? ==> 0 <= r.value.0 < r.value.1 < |m| && Before(r.value.0, r.value.1, i, j)
    decreases i, j
  {
    if j > i + 1 then
      var p := PairUpTo(m, i, j - 1);
      if p.None? || m[i][j - 1] > m[p.value.0][p.value.1] then Some((i, j - 1)) else p
    else if i == 0 then None
    else PairUpTo(m, i - 1, |m|)
  }

  /** The seed pair is the first pair, in loop order, of maximum distance. */
  lemma {:induction false} PairUpToSpec(m: Matrix, i: nat, j: nat)
    requires IsSquare(m) && i <= |m| && j <= |m|
    ensures PairUpTo(m, i, j).None? <==>
      forall a, b :: 0 <= a < b < |m| ==> !Before(a, b, i, j)
    ensures var r := PairUpTo(m, i, j);
      r.Some? ==> forall a, b :: 0 <= a < b < |m| && Before(a, b, i, j) ==>
        m[a][b] <= m[r.value.0][r.value.1] &&
        (Before(a, b, r.value.0, r.value.1) ==> m[a][b] < m[r.value.0][r.value.1])
    decreases i, j
  {
    if j > i + 1 {
      PairUpToSpec(m, i, j - 1);
    } else if i > 0 {
      PairUpToSpec(m, i - 1, |m|);
    }
  }

  function Min2(m: Matrix, c1: int, c2: int, i: int): nat
    requires IsSquare(m) && 0 <= c1 < |m| && 0 <= c2 < |m| && 0 <= i < |m|
  {
    if m[c1][i] <= m[c2][i] then m[c1][i] else m[c2][i]
  }

  predicate IsSeedPair(c1: int, c2: int, i: int) {
    i == c1 || i == c2
  }

  /** The third seed city after scanning cities 0..k-1: the first city other
      than c1 and c2 whose smaller distance to them is largest, or -1. */
  function ThirdUpTo(m: Matrix, c1: int, c2: int, k: nat): (r: int)
    requires IsSquare(m) && 0 <= c1 < |m| && 0 <= c2 < |m| && k <= |m|
    ensures -1 <= r < k
    ensures r != -1 ==> r != c1 && r != c2
  {
    if k == 0 then -1
    else
      var r := ThirdUpTo(m, c1, c2, k - 1);
      var i := k - 1;
      if !IsSeedPair(c1, c2, i) && (r == -1 || Min2(m, c1, c2, i) > Min2(m, c1, c2, r)) then i else r
  }

  lemma {:induction false} ThirdUpToSpec(m: Matrix, c1: int, c2: int, k: nat)
    requires IsSquare(m) && 0 <= c1 < |m| && 0 <= c2 < |m| && k <= |m|
    ensures ThirdUpTo(m, c1, c2, k) == -1 <==> forall i :: 0 <= i < k ==> IsSeedPair(c1, c2, i)
    ensures var r := ThirdUpTo(m, c1, c2, k);
      r != -1 ==> forall i :: 0 <= i < k && !IsSeedPair(c1, c2, i) ==>
        Min2(m, c1, c2, i) <= Min2(m, c1, c2, r) && (i < r ==> Min2(m, c1, c2, i) < Min2(m, c1, c2, r))
  {
    if k > 0 {
      ThirdUpToSpec(m, c1, c2, k - 1);
    }
  }

  /** The smallest distance from c to the first k cities of the tour. */
  function MinTo(m: Matrix, c: int, tour: seq<int>, k: nat): nat
    requires IsSquare(m) && 0 <= c < |m| && InRange(tour, |m|) && 1 <= k <= |tour|
  {
    if k == 1 then m[c][tour[0]]
    else
      var r := MinTo(m, c, tour, k - 1);
      if m[c][tour[k - 1]] < r then m[c][tour[k - 1]] else r
  }

  lemma {:induction false} MinToSpec(m: Matrix, c: int, tour: seq<int>, k: nat)
    requires IsSquare(m) && 0 <= c < |m| && InRange(tour, |m|) && 1 <= k <= |tour|
    ensures forall t :: 0 <= t < k ==> MinTo(m, c, tour, k) <= m[c][tour[t]]
    ensures exists t :: 0 <= t < k && MinTo(m, c, tour, k) == m[c][tour[t]]
  {
    if k == 1 {
      assert MinTo(m, c, tour, k) == m[c][tour[0]];
    } else {
      MinToSpec(m, c, tour, k - 1);
      var t :| 0 <= t < k - 1 && MinTo(m, c, tour, k - 1) == m[c][tour[t]];
      if m[c][tour[k - 1]] < MinTo(m, c, tour, k - 1) {
        assert MinTo(m, c, tour, k) == m[c][tour[k - 1]];
      } else {
        assert MinTo(m, c, tour, k) == m[c][tour[t]];
      }
    }
  }

  /** Distance from c to the nearest city of the tour. */
  function DistToTour(m: Matrix, c: int, tour: seq<int>): nat
    requires IsSquare(m) && 0 <= c < |m| && InRange(tour, |m|) && |tour| >= 1
  {
    MinTo(m, c, tour, |tour|)
  }

  /** The city chosen after scanning cities 0..k-1: the first city off the
      tour whose distance to the tour is largest, or -1. */
  function FarthestUpTo(m: Matrix, tour: seq<int>, k: nat): (r: int)
    requires IsSquare(m) && InRange(tour, |m|) && |tour| >= 1 && k <= |m|
    ensures -1 <= r < k
    ensures r != -1 ==> r !in tour
  {
    if k == 0 then -1
    else
      var r := FarthestUpTo(m, tour, k - 1);
      var c := k - 1;
      if c !in tour && (r == -1 || DistToTour(m, c, tour) > DistToTour(m, r, tour)) then c else r
  }

  lemma {:induction false} FarthestUpToSpec(m: Matrix, tour: seq<int>, k: nat)
    requires IsSquare(m) && InRange(tour, |m|) && |tour| >= 1 && k <= |m|
    ensures FarthestUpTo(m, tour, k) == -1 <==> forall c :: 0 <= c < k ==> c in tour
    ensures var r := FarthestUpTo(m, tour, k);
      r != -1 ==> forall c :: 0 <= c < k && c !in tour ==>
        DistToTour(m, c, tour) <= DistToTour(m, r, tour) &&
        (c < r ==> DistToTour(m, c, tour) < DistToTour(m, r, tour))
  {
    if k > 0 {
      FarthestUpToSpec(m, tour, k - 1);
    }
  }

  /** What inserting f between tour[pos] and its cyclic successor adds to the
      closed length: d(i, f) + d(f, j) - d(i, j). */
  function InsertCost(m: Matrix, tour: seq<int>, pos: int, f: int): int
    requires IsSquare(m) && InRange(tour, |m|) && 0 <= pos < |tour| && 0 <= f < |m|
  {
    var i, j := tour[pos], tour[Next(pos, |tour|)];
    (m[i][f] as int) + m[f][j] - m[i][j]
  }

  /** The position chosen after scanning positions 0..k-1: the first one of
      least insertion cost, or -1 when none is scanned. */
  function BestPosUpTo(m: Matrix, tour: seq<int>, f: int, k: nat): (r: int)
    requires IsSquare(m) && InRange(tour, |m|) && 0 <= f < |m| && k <= |tour|
    ensures -1 <= r < k
    ensures r == -1 <==> k == 0
  {
    if k == 0 then -1
    else
      var r := BestPosUpTo(m, tour, f, k - 1);
      if r == -1 || InsertCost(m, tour, k - 1, f) < InsertCost(m, tour, r, f) then k - 1 else r
  }

  lemma {:induction false} BestPosUpToSpec(m: Matrix, tour: seq<int>, f: int, k: nat)
    requires IsSquare(m) && InRange(tour, |m|) && 0 <= f < |m| && 1 <= k <= |tour|
    ensures var r := BestPosUpTo(m, tour, f, k);
      forall p :: 0 <= p < k ==>
        InsertCost(m, tour, r, f) <= InsertCost(m, tour, p, f) &&
        (p < r ==> InsertCost(m, tour, r, f) < InsertCost(m, tour, p, f))
  {
    if k > 1 {
      BestPosUpToSpec(m, tour, f, k - 1);
    }
  }

  /** The tour with f spliced in right after position pos. */
  function InsertAfter(tour: seq<int>, pos: int, f: int): (r: seq<int>)
    requires 0 <= pos < |tour|
    ensures |r| == |tour| + 1 && multiset(r) == multiset(tour) + multiset{f}
  {
    assert tour == tour[..pos + 1] + tour[pos + 1..];
    tour[..pos + 1] + [f] + tour[pos + 1..]
  }

  /** Inserting f puts it at pos + 1 and keeps every other city in its
      relative order: deleting f again gives back the tour. */
  lemma InsertAfterOrder(tour: seq<int>, pos: int, f: int)
    requires 0 <= pos < |tour|
    ensures var r := InsertAfter(tour, pos, f);
      r[pos + 1] == f && r[..pos + 1] + r[pos + 2..] == tour
  {
    var r := InsertAfter(tour, pos, f);
    assert r[..pos + 1] == tour[..pos + 1];
    assert r[pos + 2..] == tour[pos + 1..];
    assert tour == tour[..pos + 1] + tour[pos + 1..];
  }

  lemma InsertKeeps(tour: seq<int>, pos: int, f: int, n: int)
    requires 0 <= pos < |tour| && InRange(tour, n) && Distinct(tour) && 0 <= f < n && f !in tour
    ensures InRange(InsertAfter(tour, pos, f), n) && Distinct(InsertAfter(tour, pos, f))
  {
    var r := InsertAfter(tour, pos, f);
    var A, B := tour[..pos + 1], tour[pos + 1..];
    assert r == A + [f] + B;
    assert tour == A + B;
    forall i, j | 0 <= i < j < |r| ensures r[i] != r[j] {
      if j < |A| || i > |A| {
        var i', j' := if i < |A| then i else i - 1, if j < |A| then j else j - 1;
        assert r[i] == tour[i'] && r[j] == tour[j'];
      } else if i == |A| {
        assert r[j] == tour[j - 1];
      } else if j == |A| {
        assert r[i] == tour[i];
      } else {
        assert r[i] == tour[i] && r[j] == tour[j - 1];
      }
    }
    forall i | 0 <= i < |r| ensures 0 <= r[i] < n {
      if i < |A| {
        assert r[i] == tour[i];
      } else if i > |A| {
        assert r[i] == tour[i - 1];
      }
    }
  }

  /** The insertion rounds: add the farthest city after the cheapest position
      until every city is on the tour. */
  function Build(m: Matrix, tour: seq<int>): seq<int>
    requires IsSquare(m) && 1 <= |tour| <= |m| && InRange(tour, |m|) && Distinct(tour)
    decreases |m| - |tour|
  {
    if |tour| == |m| then tour
    else
      var f := FarthestUpTo(m, tour, |m|);
      if f == -1 then tour
      else
        var pos := BestPosUpTo(m, tour, f, |tour|);
        InsertKeeps(tour, pos, f, |m|);
        Build(m, InsertAfter(tour, pos, f))
  }

  /** The seed triangle [city1, city2, city3]. */
  function SeedTour(m: Matrix): (r: seq<int>)
    requires IsSquare(m) && |m| >= 3
    ensures |r| == 3 && InRange(r, |m|) && Distinct(r)
  {
    var n := |m|;
    PairUpToSpec(m, n, n);
    assert Before(0, 1, n, n);
    var p := PairUpTo(m, n, n).value;
    ThirdUpToSpec(m, p.0, p.1, n);
    var c3 := ThirdUpTo(m, p.0, p.1, n);
    assert c3 != -1 by {
      var v := if !IsSeedPair(p.0, p.1, 0) then 0 else if !IsSeedPair(p.0, p.1, 1) then 1 else 2;
      assert !IsSeedPair(p.0, p.1, v);
    }
    [p.0, p.1, c3]
  }

  /** The tour farthest insertion builds for at least three cities. */
  function FarthestInsertionTour(m: Matrix): seq<int>
    requires IsSquare(m) && |m| >= 3
  {
    Build(m, SeedTour(m))
  }

  lemma {:induction false} BuildFacts(m: Matrix, tour: seq<int>)
    requires IsSquare(m) && 1 <= |tour| <= |m| && InRange(tour, |m|) && Distinct(tour)
    ensures |Build(m, tour)| == |m| && IsPermutation(Build(m, tour), |m|)
    decreases |m| - |tour|
  {
    if |tour| == |m| {
      Pigeonhole(tour, |m|);
    } else {
      FarthestUpToSpec(m, tour, |m|);
      var v := MissingCity(tour, |m|);
      assert v !in tour;
      var f := FarthestUpTo(m, tour, |m|);
      var pos := BestPosUpTo(m, tour, f, |tour|);
      InsertKeeps(tour, pos, f, |m|);
      BuildFacts(m, InsertAfter(tour, pos, f));
    }
  }

  /** While cities remain, the scan finds an off-tour city. */
  lemma FarthestExists(m: Matrix, tour: seq<int>) returns (f: int)
    requires IsSquare(m) && 1 <= |tour| < |m| && InRange(tour, |m|) && Distinct(tour)
    ensures f == FarthestUpTo(m, tour, |m|) && 0 <= f < |m| && f !in tour
  {
    FarthestUpToSpec(m, tour, |m|);
    var v := MissingCity(tour, |m|);
    assert v !in tour;
    f := FarthestUpTo(m, tour, |m|);
  }

  /** One round when cities remain: the city FarthestUpTo picks goes right
      after the position BestPosUpTo picks, and the rest of the rounds go on
      from there. */
  lemma BuildRound(m: Matrix, tour: seq<int>, f: int, pos: int)
    requires IsSquare(m) && 1 <= |tour| < |m| && InRange(tour, |m|) && Distinct(tour)
    requires f == FarthestUpTo(m, tour, |m|) && 0 <= f
    requires pos == BestPosUpTo(m, tour, f, |tour|)
    ensures 0 <= pos < |tour|
    ensures InRange(InsertAfter(tour, pos, f), |m|) && Distinct(InsertAfter(tour, pos, f))
    ensures Build(m, tour) == Build(m, InsertAfter(tour, pos, f))
  {
    InsertKeeps(tour, pos, f, |m|);
  }

  /** For at least three cities the result visits every city exactly once. */
  lemma FarthestInsertionIsPermutation(m: Matrix)
    requires IsSquare(m) && |m| >= 3
    ensures IsPermutation(FarthestInsertionTour(m), |m|)
  {
    BuildFacts(m, SeedTour(m));
  }

  /** The seed loops: city1 < city2 is the first pair of maximum distance. */
  method SeedPair(m: Matrix) returns (city1: int, city2: int)
    requires IsSquare(m) && |m| >= 2
    ensures PairUpTo(m, |m|, |m|) == Some((city1, city2))
  {
    var n := |m|;
    var best: Option<(int, int)> := None;
    var i := 0;
    while i < n
      invariant 0 <= i <= n
      invariant best == PairUpTo(m, i, if i < n then i + 1 else n)
    {
      var j := i + 1;
      while j < n
        invariant i + 1 <= j <= n
        invariant best == PairUpTo(m, i, j)
      {
        if best.None? || m[i][j] > m[best.value.0][best.value.1] {
          best := Some((i, j));
        }
        j := j + 1;
      }
      i := i + 1;
    }
    PairUpToSpec(m, n, n);
    assert Before(0, 1, n, n);
    city1, city2 := best.value.0, best.value.1;
  }

  /** The third seed loop. */
  method SeedThird(m: Matrix, city1: int, city2: int) returns (city3: int)
    requires IsSquare(m) && 0 <= city1 < |m| && 0 <= city2 < |m|
    ensures city3 == ThirdUpTo(m, city1, city2, |m|)
  {
    var n := |m|;
    var maxMinDist: Option<nat> := None;
    city3 := -1;
    var i := 0;
    while i < n
      invariant 0 <= i <= n
      invariant city3 == ThirdUpTo(m, city1, city2, i)
      invariant maxMinDist == if city3 == -1 then None else Some(Min2(m, city1, city2, city3))
    {
      if i != city1 && i != city2 {
        var minDist := if m[city1][i] <= m[city2][i] then m[city1][i] else m[city2][i];
        if maxMinDist.None? || minDist > maxMinDist.value {
          maxMinDist := Some(minDist);
          city3 := i;
        }
      }
      i := i + 1;
    }
  }

  /** Distance from c to the nearest city of the tour, as the inner loop finds it. */
  method MinDistScan(m: Matrix, c: int, tour: seq<int>) returns (minDist: nat)
    requires IsSquare(m) && 0 <= c < |m| && InRange(tour, |m|) && |tour| >= 1
    ensures minDist == DistToTour(m, c, tour)
  {
    var best: Option<nat> := None;
    var k := 0;
    while k < |tour|
      invariant 0 <= k <= |tour|
      invariant best == if k == 0 then None else Some(MinTo(m, c, tour, k))
    {
      var t := tour[k];
      if best.None? || m[c][t] < best.value {
        best := Some(m[c][t]);
      }
      k := k + 1;
    }
    minDist := best.value;
  }

  /** The farthest-city loop of one round. */
  method FarthestScan(m: Matrix, tour: seq<int>, inTour: array<bool>) returns (farthestCity: int)
    requires IsSquare(m) && InRange(tour, |m|) && |tour| >= 1
    requires inTour.Length == |m| && Marks(inTour, tour)
    ensures farthestCity == FarthestUpTo(m, tour, |m|)
  {
    var n := |m|;
    farthestCity := -1;
    var maxMinDist: Option<nat> := None;
    var c := 0;
    while c < n
      invariant 0 <= c <= n
      invariant farthestCity == FarthestUpTo(m, tour, c)
      invariant maxMinDist == if farthestCity == -1 then None else Some(DistToTour(m, farthestCity, tour))
    {
      if !inTour[c] {
        var minDist := MinDistScan(m, c, tour);
        if maxMinDist.None? || minDist > maxMinDist.value {
          maxMinDist := Some(minDist);
          farthestCity := c;
        }
      }
      c := c + 1;
    }
  }

  /** The best-position loop of one round. */
  method BestPosScan(m: Matrix, tour: seq<int>, f: int) returns (bestPos: int)
    requires IsSquare(m) && InRange(tour, |m|) && 0 <= f < |m|
    ensures bestPos == BestPosUpTo(m, tour, f, |tour|)
  {
    bestPos := -1;
    var bestCost: Option<int> := None;
    var pos := 0;
    while pos < |tour|
      invariant 0 <= pos <= |tour|
      invariant bestPos == BestPosUpTo(m, tour, f, pos)
      invariant bestCost == if bestPos == -1 then None else Some(InsertCost(m, tour, bestPos, f))
    {
      var next := Next(pos, |tour|);
      assert next == (pos + 1) % |tour|;
      var i, j := tour[pos], tour[next];
      var costIncrease := (m[i][f] as int) + m[f][j] - m[i][j];
      if bestCost.None? || costIncrease < bestCost.value {
        bestCost := Some(costIncrease);
        bestPos := pos;
      }
      pos := pos + 1;
    }
  }

  /** Seed and insertion rounds, shared by both copies of the heuristic. */
  method InsertionRounds(m: Matrix) returns (tour: seq<int>)
    requires IsSquare(m) && |m| >= 3
    ensures tour == FarthestInsertionTour(m)
  {
    var n := |m|;
    var city1, city2 := SeedPair(m);
    var city3 := SeedThird(m, city1, city2);
    tour := [city1, city2, city3];
    assert tour == SeedTour(m);
    assert tour[2] == city3;
    var inTour := new bool[n](_ => false);
    inTour[city1] := true;
    inTour[city2] := true;
    inTour[city3] := true;
    while |tour| < n
      invariant 3 <= |tour| <= n && InRange(tour, n) && Distinct(tour)
      invariant inTour.Length == n && Marks(inTour, tour)
      invariant Build(m, tour) == FarthestInsertionTour(m)
      decreases n - |tour|
    {
      tour := InsertionRound(m, tour, inTour);
    }
  }

  /** One round: find the farthest city, find its cheapest position and
      splice it in after that position. */
  method InsertionRound(m: Matrix, tour: seq<int>, inTour: array<bool>) returns (newTour: seq<int>)
    requires IsSquare(m) && 1 <= |tour| < |m| && InRange(tour, |m|) && Distinct(tour)
    requires inTour.Length == |m| && Marks(inTour, tour)
    modifies inTour
    ensures |newTour| == |tour| + 1 && InRange(newTour, |m|) && Distinct(newTour)
    ensures Marks(inTour, newTour)
    ensures Build(m, newTour) == Build(m, tour)
  {
    var farthestCity := FarthestScan(m, tour, inTour);
    var f := FarthestExists(m, tour);
    var bestPos := BestPosScan(m, tour, farthestCity);
    BuildRound(m, tour, farthestCity, bestPos);
    newTour := tour[..bestPos + 1] + [farthestCity] + tour[bestPos + 1..];
    InsertMembers(tour, bestPos, farthestCity, newTour);
    MarkCity(inTour, tour, farthestCity, newTour);
  }

  method MarkCity(inTour: array<bool>, tour: seq<int>, f: int, newTour: seq<int>)
    requires Marks(inTour, tour) && 0 <= f < inTour.Length
    requires forall c :: c in newTour <==> c in tour || c == f
    modifies inTour
    ensures Marks(inTour, newTour)
  {
    inTour[f] := true;
  }

  lemma InsertMembers(tour: seq<int>, pos: int, f: int, r: seq<int>)
    requires 0 <= pos < |tour| && r == tour[..pos + 1] + [f] + tour[pos + 1..]
    ensures r == InsertAfter(tour, pos, f)
    ensures forall c :: c in r <==> c in tour || c == f
  {
    assert tour == tour[..pos + 1] + tour[pos + 1..];
  }

  /** FarthestInsertion (Corte_1): no tour and length 0 for fewer than three
      cities; otherwise the farthest-insertion tour and its closed length. */
  method FarthestInsertion(inst: Instance) returns (tour: seq<int>, length: nat)
    requires Valid(inst)
    ensures inst.numCities < 3 ==> tour == [] && length == 0
    ensures inst.numCities >= 3 ==>
      tour == FarthestInsertionTour(inst.distance) && length == CycleCost(Edge(inst.distance), tour)
  {
    var n := inst.numCities;
    if n < 3 {
      return [], 0;
    }
    tour := InsertionRounds(inst.distance);
    FarthestInsertionIsPermutation(inst.distance);
    PermutationFacts(tour, n);
    length := TourLength(inst, tour);
  }
}
