/** Tabu search over a tour of cities (Corte_2/Tabu/tabu.go): a shuffled
    start, then per iteration the best admissible 2-opt move of the whole
    neighbourhood 1 <= i < j <= n-1, taken even when it makes the tour
    longer. A move is tabu while the matrix entry of its two cities is above
    the iteration number, unless it would beat the best tour so far
    (aspiration); a move that is made marks its two cities tabu for
    `tenenciaTabu` iterations.

    `rand.Shuffle` is the Fisher-Yates shuffle of the Random module, reading
    the stream from draw t. */
module Tabu {
  import opened Tours
  import opened Options
  import opened Random
  import opened Cities
  import LocalSearch

  /** Every city of s has an ID that indexes an m by m matrix. */
  predicate IdsBelow(s: seq<City>, m: int) {
    forall c :: c in s ==> 0 <= c.id < m
  }

  /** A rearrangement of s keeps its IDs. */
  lemma IdsOfRearrangement(s: seq<City>, r: seq<City>, m: int)
    requires multiset(r) == multiset(s) && IdsBelow(s, m)
    ensures IdsBelow(r, m)
  {
    forall c | c in r ensures 0 <= c.id < m {
      assert c in multiset(r);
      assert c in multiset(s);
    }
  }

  /** The largest ID of the cities, and 0 when none is positive. */
  method MaxID(ciudades: array<City>) returns (maxID: int)
    ensures maxID >= 0 && forall k :: 0 <= k < ciudades.Length ==> ciudades[k].id <= maxID
    ensures maxID == 0 || exists k :: 0 <= k < ciudades.Length && ciudades[k].id == maxID
  {
    maxID := 0;
    var k := 0;
    while k < ciudades.Length
      invariant 0 <= k <= ciudades.Length
      invariant maxID >= 0 && forall q :: 0 <= q < k ==> ciudades[q].id <= maxID
      invariant maxID == 0 || exists q :: 0 <= q < k && ciudades[q].id == maxID
    {
      if ciudades[k].id > maxID {
        maxID := ciudades[k].id;
      }
      k := k + 1;
    }
  }

  /** (i', j') comes before (i, j) in the scan's row-by-row order. */
  predicate Before(i': int, j': int, i: int, j: int) {
    i' < i || (i' == i && j' < j)
  }

  /** The cost the tour would have after the move (i, j). */
  function NeighbourCost(d: (City, City) -> nat, s: seq<City>, costoActual: int, i: int, j: int): int
    requires 1 <= i < j < |s|
  {
    costoActual + TwoOptDelta(d, s, i, j)
  }

  /** The move (i, j) is in the neighbourhood and may be taken: its two cities
      are not tabu at iteration iter, or the move would beat the best tour
      (aspiration). */
  predicate Admissible(d: (City, City) -> nat, s: seq<City>, tabu: array2<int>, iter: int,
                       costoActual: int, costoBest: int, i: int, j: int)
    reads tabu
  {
    1 <= i < j < |s| && 0 <= s[i].id < tabu.Length0 && 0 <= s[j].id < tabu.Length1 &&
    (tabu[s[i].id, s[j].id] <= iter || NeighbourCost(d, s, costoActual, i, j) < costoBest)
  }

  /** What the scan knows once every move before (i, j) has been looked at:
      with no admissible move among them the best is None and both indices
      are -1; otherwise it is the cheapest admissible one, at (mi, mj), and every admissible move
      before (mi, mj) is strictly dearer (the first minimum wins). */
  ghost predicate ScanState(d: (City, City) -> nat, s: seq<City>, tabu: array2<int>, iter: int,
                      costoActual: int, costoBest: int, i: int, j: int,
                      best: Option<int>, mi: int, mj: int)
    reads tabu
  {
    (best.None? ==>
      (mi == -1 && mj == -1 &&
       forall i', j' :: Before(i', j', i, j) ==> !Admissible(d, s, tabu, iter, costoActual, costoBest, i', j'))) &&
    (best.Some? ==>
      (Before(mi, mj, i, j) && Admissible(d, s, tabu, iter, costoActual, costoBest, mi, mj) &&
      best.value == NeighbourCost(d, s, costoActual, mi, mj) &&
      (forall i', j' :: Before(i', j', i, j) && Admissible(d, s, tabu, iter, costoActual, costoBest, i', j') ==>
        best.value <= NeighbourCost(d, s, costoActual, i', j')) &&
      (forall i', j' :: Before(i', j', mi, mj) && Admissible(d, s, tabu, iter, costoActual, costoBest, i', j') ==>
        best.value < NeighbourCost(d, s, costoActual, i', j'))))
  }

  /** Looking at (i, j) moves the scan on by one: the move becomes the best
      when it is admissible and strictly cheaper than the best so far. */
  lemma ScanNext(d: (City, City) -> nat, s: seq<City>, tabu: array2<int>, iter: int,
                 costoActual: int, costoBest: int, i: int, j: int, best: Option<int>, mi: int, mj: int)
    requires 1 <= i < j < |s|
    requires ScanState(d, s, tabu, iter, costoActual, costoBest, i, j, best, mi, mj)
    ensures
      var c := NeighbourCost(d, s, costoActual, i, j);
      if Admissible(d, s, tabu, iter, costoActual, costoBest, i, j) && (best.None? || c < best.value)
      then ScanState(d, s, tabu, iter, costoActual, costoBest, i, j + 1, Some(c), i, j)
      else ScanState(d, s, tabu, iter, costoActual, costoBest, i, j + 1, best, mi, mj)
  {
    var c := NeighbourCost(d, s, costoActual, i, j);
    if Admissible(d, s, tabu, iter, costoActual, costoBest, i, j) && (best.None? || c < best.value) {
      forall i', j' | Before(i', j', i, j + 1) && Admissible(d, s, tabu, iter, costoActual, costoBest, i', j')
        ensures c <= NeighbourCost(d, s, costoActual, i', j')
      {
        if Before(i', j', i, j) {
          assert best.Some?;
        }
      }
    }
  }

  /** Finishing the row of i moves the scan to the next row. */
  lemma ScanRow(d: (City, City) -> nat, s: seq<City>, tabu: array2<int>, iter: int,
                costoActual: int, costoBest: int, i: int, best: Option<int>, mi: int, mj: int)
    requires ScanState(d, s, tabu, iter, costoActual, costoBest, i, |s|, best, mi, mj)
    ensures ScanState(d, s, tabu, iter, costoActual, costoBest, i + 1, i + 2, best, mi, mj)
  {
    forall i', j' | Before(i', j', i + 1, i + 2) && Admissible(d, s, tabu, iter, costoActual, costoBest, i', j')
      ensures Before(i', j', i, |s|)
    {
    }
  }

  /** Past the last row every move of the neighbourhood has been looked at. */
  lemma ScanDone(d: (City, City) -> nat, s: seq<City>, tabu: array2<int>, iter: int,
                 costoActual: int, costoBest: int, i: int, best: Option<int>, mi: int, mj: int)
    requires i >= |s| - 1
    requires ScanState(d, s, tabu, iter, costoActual, costoBest, i, i + 1, best, mi, mj)
    ensures ScanState(d, s, tabu, iter, costoActual, costoBest, |s|, 0, best, mi, mj)
  {
    forall i', j' | Before(i', j', |s|, 0) && Admissible(d, s, tabu, iter, costoActual, costoBest, i', j')
      ensures Before(i', j', i, i + 1)
    {
    }
  }

  /** The body of the inner scan loop: the delta of (i, j), its tabu state
      and the aspiration test, and the update of the best admissible move. */
  method ScanStep(d: (City, City) -> nat, tourActual: array<City>, tabu: array2<int>, iter: int,
                  costoActual: int, costoBest: int, i: int, j: int,
                  mejorVecinoCosto: Option<int>, moveI: int, moveJ: int)
    returns (best: Option<int>, mi: int, mj: int)
    requires 1 <= i < j < tourActual.Length
    requires IdsBelow(tourActual[..], tabu.Length0) && tabu.Length0 == tabu.Length1
    requires ScanState(d, tourActual[..], tabu, iter, costoActual, costoBest, i, j, mejorVecinoCosto, moveI, moveJ)
    ensures ScanState(d, tourActual[..], tabu, iter, costoActual, costoBest, i, j + 1, best, mi, mj)
  {
    var n := tourActual.Length;
    ghost var s := tourActual[..];
    best, mi, mj := mejorVecinoCosto, moveI, moveJ;
    var d1: int := d(tourActual[i - 1], tourActual[i]);
    var d2: int := d(tourActual[j], tourActual[(j + 1) % n]);
    var costoAristasViejas := d1 + d2;
    var d3: int := d(tourActual[i - 1], tourActual[j]);
    var d4: int := d(tourActual[i], tourActual[(j + 1) % n]);
    var costoAristasNuevas := d3 + d4;
    var delta := costoAristasNuevas - costoAristasViejas;
    LocalSearch.ScanDelta(d, s, i, j);
    var nuevoCostoPosible := costoActual + delta;
    assert nuevoCostoPosible == NeighbourCost(d, s, costoActual, i, j);
    assert s[i] in s && s[j] in s;
    var id1 := tourActual[i].id;
    var id2 := tourActual[j].id;
    var esTabu := false;
    if tabu[id1, id2] > iter {
      esTabu := true;
    }
    if esTabu && nuevoCostoPosible < costoBest {
      esTabu := false;
    }
    assert !esTabu <==> Admissible(d, s, tabu, iter, costoActual, costoBest, i, j);
    ScanNext(d, s, tabu, iter, costoActual, costoBest, i, j, mejorVecinoCosto, moveI, moveJ);
    if !esTabu {
      if mejorVecinoCosto.None? || nuevoCostoPosible < mejorVecinoCosto.value {
        best, mi, mj := Some(nuevoCostoPosible), i, j;
      }
    }
  }

  /** The inner scan loop: every move (i, j) with j in i+1..n-1. */
  method BestInRow(d: (City, City) -> nat, tourActual: array<City>, tabu: array2<int>, iter: int,
                   costoActual: int, costoBest: int, i: int,
                   mejorVecinoCosto: Option<int>, moveI: int, moveJ: int)
    returns (best: Option<int>, mi: int, mj: int)
    requires 1 <= i < tourActual.Length - 1
    requires IdsBelow(tourActual[..], tabu.Length0) && tabu.Length0 == tabu.Length1
    requires ScanState(d, tourActual[..], tabu, iter, costoActual, costoBest, i, i + 1, mejorVecinoCosto, moveI, moveJ)
    ensures ScanState(d, tourActual[..], tabu, iter, costoActual, costoBest, i + 1, i + 2, best, mi, mj)
  {
    var n := tourActual.Length;
    ghost var s := tourActual[..];
    best, mi, mj := mejorVecinoCosto, moveI, moveJ;
    var j := i + 1;
    while j < n
      invariant i + 1 <= j <= n
      invariant ScanState(d, s, tabu, iter, costoActual, costoBest, i, j, best, mi, mj)
    {
      best, mi, mj := ScanStep(d, tourActual, tabu, iter, costoActual, costoBest, i, j, best, mi, mj);
      j := j + 1;
    }
    ScanRow(d, s, tabu, iter, costoActual, costoBest, i, best, mi, mj);
  }

  /** The whole neighbourhood, row by row. The result is the first cheapest
      admissible move, or None (with both indices -1) when every move is
      tabu and none aspires; foundMove says which. Nothing is changed. */
  method BestNeighbour(d: (City, City) -> nat, tourActual: array<City>, tabu: array2<int>, iter: int,
                       costoActual: int, costoBest: int)
    returns (mejorVecinoCosto: Option<int>, moveI: int, moveJ: int, foundMove: bool)
    requires IdsBelow(tourActual[..], tabu.Length0) && tabu.Length0 == tabu.Length1
    ensures ScanState(d, tourActual[..], tabu, iter, costoActual, costoBest,
                      tourActual.Length, 0, mejorVecinoCosto, moveI, moveJ)
    ensures foundMove <==> mejorVecinoCosto.Some?
  {
    var n := tourActual.Length;
    mejorVecinoCosto, moveI, moveJ := None, -1, -1;
    var i := 1;
    while i < n - 1
      invariant 1 <= i && (n >= 2 ==> i <= n - 1)
      invariant ScanState(d, tourActual[..], tabu, iter, costoActual, costoBest, i, i + 1, mejorVecinoCosto, moveI, moveJ)
    {
      mejorVecinoCosto, moveI, moveJ :=
        BestInRow(d, tourActual, tabu, iter, costoActual, costoBest, i, mejorVecinoCosto, moveI, moveJ);
      i := i + 1;
    }
    ScanDone(d, tourActual[..], tabu, iter, costoActual, costoBest, i, mejorVecinoCosto, moveI, moveJ);
    foundMove := mejorVecinoCosto.Some?;
  }

  /** Marks the pair of cities id1, id2 tabu until `until`, in both orders;
      every other entry stays as it was. */
  method MarkTabu(tabu: array2<int>, id1: int, id2: int, until: int)
    requires 0 <= id1 < tabu.Length0 && 0 <= id2 < tabu.Length0 && tabu.Length0 == tabu.Length1
    modifies tabu
    ensures tabu[id1, id2] == until && tabu[id2, id1] == until
    ensures forall r, c :: (0 <= r < tabu.Length0 && 0 <= c < tabu.Length1 &&
      !(r == id1 && c == id2) && !(r == id2 && c == id1)) ==>
        tabu[r, c] == old(tabu[r, c])
  {
    tabu[id1, id2] := until;
    tabu[id2, id1] := until;
  }

  /** Making the chosen move: reverse tour[moveI..moveJ], and mark the two
      cities at its ends tabu until iter + tenenciaTabu. The IDs are read
      after the reversal, so the entry written first is the one of the pair
      in the other order; both orders are written. */
  method MakeMove(d: (City, City) -> nat, tourActual: array<City>, tabu: array2<int>,
                  moveI: int, moveJ: int, iter: int, tenenciaTabu: int)
    requires Symmetric(d) && 1 <= moveI < moveJ < tourActual.Length
    requires IdsBelow(tourActual[..], tabu.Length0) && tabu.Length0 == tabu.Length1
    modifies tourActual, tabu
    ensures tourActual[..] == ReverseSegment(old(tourActual[..]), moveI, moveJ)
    ensures CycleCost(d, tourActual[..]) ==
      CycleCost(d, old(tourActual[..])) + TwoOptDelta(d, old(tourActual[..]), moveI, moveJ)
    ensures multiset(tourActual[..]) == multiset(old(tourActual[..])) && tourActual[0] == old(tourActual[0])
    ensures IdsBelow(tourActual[..], tabu.Length0)
    ensures
      var a, b := old(tourActual[moveI]).id, old(tourActual[moveJ]).id;
      0 <= a < tabu.Length0 && 0 <= b < tabu.Length0 &&
      tabu[a, b] == iter + tenenciaTabu && tabu[b, a] == iter + tenenciaTabu &&
      forall r, c :: (0 <= r < tabu.Length0 && 0 <= c < tabu.Length1 &&
        !(r == a && c == b) && !(r == b && c == a)) ==> tabu[r, c] == old(tabu[r, c])
  {
    ghost var s := tourActual[..];
    assert s[moveI] in s && s[moveJ] in s;
    TwoOptDeltaCorrect(d, s, moveI, moveJ);
    ReverseSegmentMultiset(s, moveI, moveJ);
    ReverseSegmentAt(s, moveI, moveJ);
    InvertSegment(tourActual, moveI, moveJ);
    IdsOfRearrangement(s, tourActual[..], tabu.Length0);
    var id1 := tourActual[moveI].id;
    var id2 := tourActual[moveJ].id;
    MarkTabu(tabu, id1, id2, iter + tenenciaTabu);
  }

  /** One iteration: scan, make the best admissible move even when it is
      worse, and copy the tour into the best-so-far when strictly cheaper.
      foundMove, moveI and moveJ are the scan's result: the first cheapest
      admissible move, whose cost becomes the current cost. With no
      admissible move nothing changes. */
  method Iteration(d: (City, City) -> nat, tourActual: array<City>, tabu: array2<int>, iter: int,
                   tenenciaTabu: int, costoActual: int, tourBest: array<City>, costoBest: int)
    returns (newActual: int, newBestTour: array<City>, newBest: int, foundMove: bool, moveI: int, moveJ: int)
    requires Symmetric(d) && tourActual.Length >= 1 && tourActual != tourBest
    requires IdsBelow(tourActual[..], tabu.Length0) && tabu.Length0 == tabu.Length1
    requires costoActual == CycleCost(d, tourActual[..]) && costoBest == CycleCost(d, tourBest[..])
    requires costoBest <= costoActual
    modifies tourActual, tabu
    ensures old(ScanState(d, tourActual[..], tabu, iter, costoActual, costoBest, tourActual.Length, 0,
                          if foundMove then Some(newActual) else None, moveI, moveJ))
    ensures foundMove ==>
      1 <= moveI < moveJ < tourActual.Length && tourActual[..] == ReverseSegment(old(tourActual[..]), moveI, moveJ)
    ensures foundMove ==>
      var a, b := old(tourActual[moveI]).id, old(tourActual[moveJ]).id;
      0 <= a < tabu.Length0 && 0 <= b < tabu.Length0 &&
      tabu[a, b] == iter + tenenciaTabu && tabu[b, a] == iter + tenenciaTabu &&
      forall r, c :: (0 <= r < tabu.Length0 && 0 <= c < tabu.Length1 &&
        !(r == a && c == b) && !(r == b && c == a)) ==> tabu[r, c] == old(tabu[r, c])
    ensures !foundMove ==> tourActual[..] == old(tourActual[..]) && newActual == costoActual
    ensures !foundMove ==>
      forall r, c :: 0 <= r < tabu.Length0 && 0 <= c < tabu.Length1 ==> tabu[r, c] == old(tabu[r, c])
    ensures newActual == CycleCost(d, tourActual[..])
    ensures multiset(tourActual[..]) == multiset(old(tourActual[..])) && tourActual[0] == old(tourActual[0])
    ensures IdsBelow(tourActual[..], tabu.Length0)
    ensures newBestTour == tourBest || fresh(newBestTour)
    ensures newBestTour != tourBest <==> foundMove && newActual < costoBest
    ensures newBestTour != tourActual && newBest == CycleCost(d, newBestTour[..])
    ensures newBest <= newActual && newBest <= costoBest
    ensures newBestTour == tourBest ==> newBest == costoBest
    ensures newBestTour != tourBest ==> newBestTour[..] == tourActual[..] && newBest == newActual
  {
    newActual, newBestTour, newBest := costoActual, tourBest, costoBest;
    var mejorVecinoCosto;
    mejorVecinoCosto, moveI, moveJ, foundMove := BestNeighbour(d, tourActual, tabu, iter, costoActual, costoBest);
    if foundMove {
      MakeMove(d, tourActual, tabu, moveI, moveJ, iter, tenenciaTabu);
      newActual := mejorVecinoCosto.value;
      if newActual < costoBest {
        newBestTour := CopiarTour(tourActual);
        newBest := newActual;
      }
    }
  }

  /** TabuSearch: the caller's cities are left alone; the result is a
      rearrangement of them that starts with the first city of the shuffled
      start, its cost is the returned cost and never above the shuffled
      start's. IDs index the tabu matrix, so none may be negative, and the
      start's cost reads tour[n-1], so there must be a city. */
  method TabuSearch(d: (City, City) -> nat, ciudades: array<City>, maxIteraciones: int, tenenciaTabu: int,
                    src: Source, t: nat)
    returns (tourBest: array<City>, costoBest: int)
    requires Symmetric(d) && ciudades.Length >= 1
    requires forall k :: 0 <= k < ciudades.Length ==> ciudades[k].id >= 0
    ensures fresh(tourBest) && tourBest.Length == ciudades.Length
    ensures multiset(tourBest[..]) == multiset(ciudades[..])
    ensures tourBest[0] == Shuffled(ciudades[..], src, t)[0]
    ensures costoBest == CycleCost(d, tourBest[..]) && costoBest <= CycleCost(d, Shuffled(ciudades[..], src, t))
  {
    var n := ciudades.Length;
    var tourActual := CopiarTour(ciudades);
    var _ := Shuffle(tourActual, src, t);
    ghost var start := tourActual[..];
    ShuffledMultiset(ciudades[..], src, t);
    var costoActual: int := CalcularCostoTotal(d, tourActual[..]);
    tourBest := CopiarTour(tourActual);
    costoBest := costoActual;
    var maxID := MaxID(ciudades);
    assert IdsBelow(ciudades[..], maxID + 1) by {
      forall c | c in ciudades[..] ensures 0 <= c.id < maxID + 1 {
        var k :| 0 <= k < n && ciudades[..][k] == c;
        assert ciudades[k] == c;
      }
    }
    IdsOfRearrangement(ciudades[..], tourActual[..], maxID + 1);
    var tabu := new int[maxID + 1, maxID + 1]((_, _) => 0);
    var iter := 1;
    while iter <= maxIteraciones
      invariant fresh(tourActual) && fresh(tourBest) && tourActual != tourBest
      invariant tourActual.Length == n && tourBest.Length == n
      invariant tabu.Length0 == maxID + 1 && tabu.Length1 == maxID + 1
      invariant multiset(tourActual[..]) == multiset(ciudades[..]) && multiset(tourBest[..]) == multiset(ciudades[..])
      invariant tourActual[0] == start[0] && tourBest[0] == start[0]
      invariant IdsBelow(tourActual[..], maxID + 1)
      invariant costoActual == CycleCost(d, tourActual[..]) && costoBest == CycleCost(d, tourBest[..])
      invariant costoBest <= costoActual && costoBest <= CycleCost(d, start)
    {
      var foundMove, moveI, moveJ;
      costoActual, tourBest, costoBest, foundMove, moveI, moveJ :=
        Iteration(d, tourActual, tabu, iter, tenenciaTabu, costoActual, tourBest, costoBest);
      iter := iter + 1;
    }
  }
}
