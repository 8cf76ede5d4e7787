/** 2-opt local search over a tour of cities
    (Corte_2/Recocido_Simulado/localsearch/two_opt.go): first-improvement
    passes over every move 1 <= i < j <= n-1, reversing tour[i..j] whenever
    the two new edges are shorter than the two removed ones, until a pass
    makes no change. */
module LocalSearch {
  import opened Tours
  import opened Cities

  /** No move checked before (i, j) in scan order gains anything. */
  predicate NoGainBefore(d: (City, City) -> nat, s: seq<City>, i: int, j: int) {
    forall i', j' :: 1 <= i' < j' < |s| && (i' < i || (i' == i && j' < j)) ==> TwoOptDelta(d, s, i', j') >= 0
  }

  /** A 2-opt local optimum: no move the scan considers shortens the tour. */
  predicate TwoOptOptimal(d: (City, City) -> nat, s: seq<City>) {
    forall i, j :: 1 <= i < j < |s| ==> TwoOptDelta(d, s, i, j) >= 0
  }

  /** The comparison of the scan is the sign of the 2-opt delta. */
  lemma ScanDelta(d: (City, City) -> nat, s: seq<City>, i: int, j: int)
    requires 1 <= i < j < |s|
    ensures TwoOptDelta(d, s, i, j) ==
      (d(s[i - 1], s[j]) + d(s[i], s[(j + 1) % |s|])) - (d(s[i - 1], s[i]) + d(s[j], s[(j + 1) % |s|]))
  {
  }

  /** One move: reverse tour[i..j]. The tour's cost changes by the 2-opt
      delta; position 0 and the multiset of cities stay as they are. */
  method ApplyMove(d: (City, City) -> nat, a: array<City>, i: int, j: int)
    requires Symmetric(d) && 1 <= i < j < a.Length
    modifies a
    ensures a[..] == ReverseSegment(old(a[..]), i, j)
    ensures CycleCost(d, a[..]) == CycleCost(d, old(a[..])) + TwoOptDelta(d, old(a[..]), i, j)
    ensures multiset(a[..]) == multiset(old(a[..])) && a[0] == old(a[0])
  {
    ghost var s := a[..];
    TwoOptDeltaCorrect(d, s, i, j);
    ReverseSegmentMultiset(s, i, j);
    ReverseSegmentAt(s, i, j);
    InvertSegment(a, i, j);
  }

  /** A non-improving move (i, j) extends the checked prefix of the scan. */
  lemma NoGainNext(d: (City, City) -> nat, s: seq<City>, i: int, j: int)
    requires NoGainBefore(d, s, i, j) && 1 <= i < j < |s| && TwoOptDelta(d, s, i, j) >= 0
    ensures NoGainBefore(d, s, i, j + 1)
  {
  }

  /** Finishing the row of i moves the scan to the next i. */
  lemma NoGainRow(d: (City, City) -> nat, s: seq<City>, i: int)
    requires NoGainBefore(d, s, i, |s|)
    ensures NoGainBefore(d, s, i + 1, i + 2)
  {
  }

  /** The body of the inner loop: compare the two removed edges with the two
      new ones and make the move when it is shorter. */
  method ScanStep(d: (City, City) -> nat, a: array<City>, i: int, j: int, cost: int) returns (newCost: int, moved: bool)
    requires Symmetric(d) && 1 <= i < j < a.Length
    requires cost == CycleCost(d, a[..])
    modifies a
    ensures newCost == CycleCost(d, a[..]) && newCost <= cost && (moved <==> newCost < cost)
    ensures multiset(a[..]) == multiset(old(a[..])) && a[0] == old(a[0])
    ensures moved ==> a[..] == ReverseSegment(old(a[..]), i, j) && TwoOptDelta(d, old(a[..]), i, j) < 0
    ensures !moved ==> a[..] == old(a[..]) && TwoOptDelta(d, a[..], i, j) >= 0
  {
    var n := a.Length;
    newCost, moved := cost, false;
    var d1 := d(a[i - 1], a[i]);
    var d2 := d(a[j], a[(j + 1) % n]);
    var costoActual := d1 + d2;
    var d3 := d(a[i - 1], a[j]);
    var d4 := d(a[i], a[(j + 1) % n]);
    var costoNuevo := d3 + d4;
    ScanDelta(d, a[..], i, j);
    if costoNuevo < costoActual {
      ApplyMove(d, a, i, j);
      newCost := newCost - (costoActual - costoNuevo);
      moved := true;
    }
  }

  /** The inner loop for a fixed i: every j in i+1..n-1. */
  method ScanRow(d: (City, City) -> nat, a: array<City>, i: int, cost: int, improved: bool)
    returns (newCost: int, newImproved: bool)
    requires Symmetric(d) && 1 <= i < a.Length - 1
    requires cost == CycleCost(d, a[..])
    requires !improved ==> NoGainBefore(d, a[..], i, i + 1)
    modifies a
    ensures newCost == CycleCost(d, a[..]) && newCost <= cost
    ensures multiset(a[..]) == multiset(old(a[..])) && a[0] == old(a[0])
    ensures newImproved == (improved || newCost < cost)
    ensures !newImproved ==> NoGainBefore(d, a[..], i + 1, i + 2)
  {
    var n := a.Length;
    newCost, newImproved := cost, improved;
    var j := i + 1;
    while j < n
      invariant i + 1 <= j <= n
      invariant newCost == CycleCost(d, a[..]) && newCost <= cost
      invariant multiset(a[..]) == multiset(old(a[..])) && a[0] == old(a[0])
      invariant newImproved == (improved || newCost < cost)
      invariant !newImproved ==> NoGainBefore(d, a[..], i, j)
    {
      var moved;
      newCost, moved := ScanStep(d, a, i, j, newCost);
      if moved {
        newImproved := true;
      } else if !newImproved {
        NoGainNext(d, a[..], i, j);
      }
      j := j + 1;
    }
    if !newImproved {
      NoGainRow(d, a[..], i);
    }
  }

  /** TwoOpt: works on a copy of the input, which it leaves alone. The result
      is a rearrangement of the input with the same first city, its cost is
      the returned cost (the distance must be symmetric for the incremental
      update to be exact) and never above the input's, and it is a 2-opt local
      optimum. The tour must not be empty, as its cost reads tour[n-1]. */
  method TwoOpt(d: (City, City) -> nat, tour: array<City>) returns (mejorTour: array<City>, mejorCosto: nat)
    requires Symmetric(d) && tour.Length >= 1
    ensures fresh(mejorTour) && mejorTour.Length == tour.Length
    ensures multiset(mejorTour[..]) == multiset(tour[..]) && mejorTour[0] == tour[0]
    ensures mejorCosto == CycleCost(d, mejorTour[..]) && mejorCosto <= CycleCost(d, tour[..])
    ensures TwoOptOptimal(d, mejorTour[..])
  {
    mejorTour := CopiarTour(tour);
    var costo: int := CalcularCostoTotal(d, mejorTour[..]);
    var mejorado := true;
    var n := tour.Length;
    while mejorado
      invariant fresh(mejorTour) && mejorTour.Length == n
      invariant multiset(mejorTour[..]) == multiset(tour[..]) && mejorTour[0] == tour[0]
      invariant costo == CycleCost(d, mejorTour[..]) && costo <= CycleCost(d, tour[..])
      invariant !mejorado ==> TwoOptOptimal(d, mejorTour[..])
      decreases costo + (if mejorado then 1 else 0)
    {
      ghost var start := costo;
      mejorado := false;
      var i := 1;
      while i < n - 1
        invariant 1 <= i && (n >= 2 ==> i <= n - 1)
        invariant multiset(mejorTour[..]) == multiset(tour[..]) && mejorTour[0] == tour[0]
        invariant costo == CycleCost(d, mejorTour[..]) && costo <= start
        invariant mejorado == (costo < start)
        invariant !mejorado ==> NoGainBefore(d, mejorTour[..], i, i + 1)
      {
        costo, mejorado := ScanRow(d, mejorTour, i, costo, mejorado);
        i := i + 1;
      }
    }
    mejorCosto := costo;
  }
}
