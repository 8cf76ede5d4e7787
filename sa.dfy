/** Simulated annealing over a tour of cities
    (Corte_2/Recocido_Simulado/simulatedannealing/sa.go): random segment
    reversals, the incremental cost delta, and the current and best-so-far
    bookkeeping.

    The Metropolis test `rand.Float64() < exp(-delta/T)` for a non-improving
    move is a boolean stream `acceptWorse`, one entry per proposed move, and
    the number of temperature levels the cooling schedule runs through is the
    parameter `levels`. */
module SimulatedAnnealing {
  import opened Tours
  import opened Options
  import opened Random
  import opened Cities

  /** The move proposed by the draws i0 and j0 on n cities: the ordered pair,
      or None when the draws coincide or name the whole tour. */
  function Candidate(i0: nat, j0: nat, n: nat): (r: Option<(int, int)>)
    requires i0 < n && j0 < n
    ensures r.Some? ==> 0 <= r.value.0 < r.value.1 < n && !(r.value.0 == 0 && r.value.1 == n - 1)
  {
    var i, j := if i0 > j0 then j0 else i0, if i0 > j0 then i0 else j0;
    if i == j || (i == 0 && j == n - 1) then None else Some((i, j))
  }

  /** A move is skipped exactly when the draws coincide or are 0 and n-1;
      otherwise it is the ordered pair of draws. */
  lemma CandidateSpec(i0: nat, j0: nat, n: nat)
    requires i0 < n && j0 < n
    ensures Candidate(i0, j0, n).None? <==> i0 == j0 || (i0 == 0 && j0 == n - 1) || (j0 == 0 && i0 == n - 1)
    ensures Candidate(i0, j0, n).Some? ==>
      Candidate(i0, j0, n).value == (if i0 < j0 then (i0, j0) else (j0, i0))
  {
  }

  /** Delta E: the two new edges minus the two removed ones, neighbours
      taken cyclically. */
  method MoveDelta(d: (City, City) -> nat, tourActual: array<City>, i: int, j: int) returns (delta: int)
    requires 0 <= i < j < tourActual.Length
    ensures delta == TwoOptDelta(d, tourActual[..], i, j)
  {
    var n := tourActual.Length;
    var idxPrevI := (i - 1 + n) % n;
    var idxNextJ := (j + 1) % n;
    var dEliminada1: int := d(tourActual[idxPrevI], tourActual[i]);
    var dEliminada2: int := d(tourActual[j], tourActual[idxNextJ]);
    var dNueva1: int := d(tourActual[idxPrevI], tourActual[j]);
    var dNueva2: int := d(tourActual[i], tourActual[idxNextJ]);
    delta := (dNueva1 + dNueva2) - (dEliminada1 + dEliminada2);
  }

  /** An accepted move: reverse tour[i..j]; the cost changes by the delta. */
  method ApplyMove(d: (City, City) -> nat, tourActual: array<City>, i: int, j: int)
    requires Symmetric(d) && 0 <= i < j < tourActual.Length && !(i == 0 && j == tourActual.Length - 1)
    modifies tourActual
    ensures tourActual[..] == ReverseSegment(old(tourActual[..]), i, j)
    ensures CycleCost(d, tourActual[..]) == CycleCost(d, old(tourActual[..])) + TwoOptDelta(d, old(tourActual[..]), i, j)
    ensures multiset(tourActual[..]) == multiset(old(tourActual[..]))
  {
    ghost var s := tourActual[..];
    TwoOptDeltaCorrect(d, s, i, j);
    ReverseSegmentMultiset(s, i, j);
    InvertSegment(tourActual, i, j);
  }

  /** The acceptance test and the move for an ordered pair the proposal
      keeps: an improving move is always taken, a non-improving one when
      acceptWorse holds. */
  method TryMove(d: (City, City) -> nat, tourActual: array<City>, i: int, j: int, acceptWorse: bool, costoActual: int)
    returns (newCost: int, accepted: bool)
    requires Symmetric(d) && 0 <= i < j < tourActual.Length && !(i == 0 && j == tourActual.Length - 1)
    requires costoActual == CycleCost(d, tourActual[..])
    modifies tourActual
    ensures newCost == CycleCost(d, tourActual[..])
    ensures multiset(tourActual[..]) == multiset(old(tourActual[..]))
    ensures accepted <==> TwoOptDelta(d, old(tourActual[..]), i, j) < 0 || acceptWorse
    ensures accepted ==>
      (tourActual[..] == ReverseSegment(old(tourActual[..]), i, j) &&
       newCost == costoActual + TwoOptDelta(d, old(tourActual[..]), i, j))
    ensures !accepted ==> tourActual[..] == old(tourActual[..]) && newCost == costoActual
  {
    newCost, accepted := costoActual, false;
    var delta := MoveDelta(d, tourActual, i, j);
    var aceptar := false;
    if delta < 0 {
      aceptar := true;
    } else if acceptWorse {
      aceptar := true;
    }
    if aceptar {
      ApplyMove(d, tourActual, i, j);
      newCost := costoActual + delta;
      accepted := true;
    }
  }

  /** One proposed move: order the draws, skip the pairs Candidate rejects,
      and try the rest. */
  method Propose(d: (City, City) -> nat, tourActual: array<City>, i0: nat, j0: nat, acceptWorse: bool, costoActual: int)
    returns (newCost: int, accepted: bool)
    requires Symmetric(d) && i0 < tourActual.Length && j0 < tourActual.Length
    requires costoActual == CycleCost(d, tourActual[..])
    modifies tourActual
    ensures newCost == CycleCost(d, tourActual[..])
    ensures multiset(tourActual[..]) == multiset(old(tourActual[..]))
    ensures Candidate(i0, j0, tourActual.Length).None? ==> !accepted
    ensures Candidate(i0, j0, tourActual.Length).Some? ==>
      var m := Candidate(i0, j0, tourActual.Length).value;
      (accepted <==> TwoOptDelta(d, old(tourActual[..]), m.0, m.1) < 0 || acceptWorse) &&
      (accepted ==> tourActual[..] == ReverseSegment(old(tourActual[..]), m.0, m.1) &&
                    newCost == costoActual + TwoOptDelta(d, old(tourActual[..]), m.0, m.1))
    ensures !accepted ==> tourActual[..] == old(tourActual[..]) && newCost == costoActual
  {
    var n := tourActual.Length;
    newCost, accepted := costoActual, false;
    var i, j := i0, j0;
    if i > j {
      i, j := j, i;
    }
    if i == j || (i == 0 && j == n - 1) {
      return;
    }
    assert Candidate(i0, j0, n) == Some((i, j));
    newCost, accepted := TryMove(d, tourActual, i, j, acceptWorse, costoActual);
  }

  /** One iteration at a fixed temperature: draw the move, try it, and copy
      the tour into the best-so-far when it became strictly cheaper. */
  method Iteration(d: (City, City) -> nat, tourActual: array<City>, costoActual: int,
                   mejorTour: array<City>, mejorCosto: int, acceptWorse: bool, src: Source, t: nat)
    returns (newActual: int, newMejorTour: array<City>, newMejorCosto: int)
    requires Symmetric(d) && tourActual.Length >= 1 && tourActual != mejorTour
    requires costoActual == CycleCost(d, tourActual[..]) && mejorCosto == CycleCost(d, mejorTour[..])
    requires mejorCosto <= costoActual
    modifies tourActual
    ensures newActual == CycleCost(d, tourActual[..])
    ensures multiset(tourActual[..]) == multiset(old(tourActual[..]))
    ensures newMejorTour == mejorTour || fresh(newMejorTour)
    ensures newMejorTour != tourActual && newMejorCosto == CycleCost(d, newMejorTour[..])
    ensures newMejorCosto <= newActual && newMejorCosto <= mejorCosto
    ensures newMejorTour == mejorTour ==> newMejorCosto == mejorCosto
    ensures newMejorTour != mejorTour ==> newMejorTour[..] == tourActual[..]
  {
    var n := tourActual.Length;
    var i := Intn(src, t, n);
    var j := Intn(src, t + 1, n);
    var accepted;
    newActual, accepted := Propose(d, tourActual, i, j, acceptWorse, costoActual);
    newMejorTour, newMejorCosto := mejorTour, mejorCosto;
    if accepted && newActual < mejorCosto {
      newMejorCosto := newActual;
      newMejorTour := CopiarTour(tourActual);
    }
  }

  /** EjecutarSA, as far as moves and costs go: `levels` temperature levels
      of iterPerTemp iterations each; iteration number k reads draws t + 2k
      and t + 2k + 1 and acceptWorse(k). The caller's tour is left alone; the
      result is a rearrangement of it whose cost is the returned cost and
      never above the initial cost. The tour must not be empty. */
  method EjecutarSA(d: (City, City) -> nat, tourInicial: array<City>, levels: nat, iterPerTemp: int,
                    src: Source, t: nat, acceptWorse: nat -> bool)
    returns (mejorTour: array<City>, mejorCosto: int)
    requires Symmetric(d) && tourInicial.Length >= 1
    ensures fresh(mejorTour)
    ensures multiset(mejorTour[..]) == multiset(tourInicial[..])
    ensures mejorCosto == CycleCost(d, mejorTour[..]) && mejorCosto <= CycleCost(d, tourInicial[..])
  {
    var tourActual := CopiarTour(tourInicial);
    var costoActual: int := CalcularCostoTotal(d, tourActual[..]);
    mejorTour := CopiarTour(tourActual);
    mejorCosto := costoActual;
    var level := 0;
    var step: nat := 0;
    while level < levels
      invariant fresh(tourActual) && fresh(mejorTour) && tourActual != mejorTour
      invariant tourActual.Length == tourInicial.Length
      invariant multiset(tourActual[..]) == multiset(tourInicial[..])
      invariant multiset(mejorTour[..]) == multiset(tourInicial[..])
      invariant costoActual == CycleCost(d, tourActual[..]) && mejorCosto == CycleCost(d, mejorTour[..])
      invariant mejorCosto <= costoActual && mejorCosto <= CycleCost(d, tourInicial[..])
    {
      var k := 0;
      while k < iterPerTemp
        invariant fresh(tourActual) && fresh(mejorTour) && tourActual != mejorTour
        invariant tourActual.Length == tourInicial.Length
        invariant multiset(tourActual[..]) == multiset(tourInicial[..])
        invariant multiset(mejorTour[..]) == multiset(tourInicial[..])
        invariant costoActual == CycleCost(d, tourActual[..]) && mejorCosto == CycleCost(d, mejorTour[..])
        invariant mejorCosto <= costoActual && mejorCosto <= CycleCost(d, tourInicial[..])
      {
        costoActual, mejorTour, mejorCosto :=
          Iteration(d, tourActual, costoActual, mejorTour, mejorCosto, acceptWorse(step), src, t + 2 * step);
        step := step + 1;
        k := k + 1;
      }
      level := level + 1;
    }
  }
}
