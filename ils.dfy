/** Iterated local search (Corte_1/Busqueda_Local_Iterada/solver/ils.go):
    a shuffled start improved by local search, then rounds of perturbation
    and local search in which a candidate replaces the current tour only
    when it is strictly cheaper.

    The perturbation (the double bridge with that round's draws) and the
    local search (2-opt of the same package, which returns the tour and its
    cost) are the parameters `perturb` and `search`; `rand.Shuffle` is the
    Fisher-Yates shuffle of the Random module, reading the stream from t. */
module IteratedLocalSearch {
  import opened Tours
  import opened Random
  import opened Cities

  /** The loop's variables: the current tour and cost and the best ones. */
  datatype State = State(tourActual: seq<City>, costoActual: int, tourBest: seq<City>, costoBest: int)

  /** After local search the best tour is the current one. */
  function Start(search: seq<City> -> (seq<City>, int), start: seq<City>): (st: State)
    ensures Synced(st) && st.costoActual == search(start).1
  {
    var r := search(start);
    State(r.0, r.1, r.0, r.1)
  }

  /** The best-so-far agrees with the current tour, elementwise and in cost. */
  predicate Synced(st: State) {
    st.tourBest == st.tourActual && st.costoBest == st.costoActual
  }

  /** Round number iter: perturb, search, and accept the candidate when it
      is strictly cheaper than the current tour; the best follows when it is
      strictly cheaper than the best. */
  function Round(st: State, perturb: (seq<City>, nat) -> seq<City>, search: seq<City> -> (seq<City>, int),
                 iter: nat): State
  {
    var candidato := search(perturb(st.tourActual, iter));
    if candidato.1 < st.costoActual then
      var moved := st.(tourActual := candidato.0, costoActual := candidato.1);
      if moved.costoActual < st.costoBest then moved.(tourBest := moved.tourActual, costoBest := moved.costoActual)
      else moved
    else st
  }

  /** Rounds 1..k, in order. */
  function Rounds(st: State, perturb: (seq<City>, nat) -> seq<City>, search: seq<City> -> (seq<City>, int),
                  k: nat): State
  {
    if k == 0 then st else Round(Rounds(st, perturb, search, k - 1), perturb, search, k)
  }

  /** One round from a synced state: the candidate is taken exactly when it
      is strictly cheaper, the state stays synced, and the cost never grows. */
  lemma RoundFacts(st: State, perturb: (seq<City>, nat) -> seq<City>, search: seq<City> -> (seq<City>, int), iter: nat)
    requires Synced(st)
    ensures
      var candidato, r := search(perturb(st.tourActual, iter)), Round(st, perturb, search, iter);
      Synced(r) && r.costoActual <= st.costoActual &&
      (candidato.1 < st.costoActual ==> r.tourActual == candidato.0 && r.costoActual == candidato.1) &&
      (candidato.1 >= st.costoActual ==> r == st)
  {
  }

  /** Every round of a synced start keeps it synced, and the current cost
      never grows from a round to a later one. */
  lemma {:induction false} RoundsFacts(st: State, perturb: (seq<City>, nat) -> seq<City>,
                                       search: seq<City> -> (seq<City>, int), j: nat, k: nat)
    requires Synced(st) && j <= k
    ensures Synced(Rounds(st, perturb, search, k))
    ensures Rounds(st, perturb, search, k).costoActual <= Rounds(st, perturb, search, j).costoActual
  {
    if k > 0 {
      if j < k {
        RoundsFacts(st, perturb, search, j, k - 1);
      } else {
        RoundsFacts(st, perturb, search, k - 1, k - 1);
      }
      RoundFacts(Rounds(st, perturb, search, k - 1), perturb, search, k);
    }
  }

  /** The best tour is a rearrangement of the current one, and each of the
      two costs is its tour's cost. */
  ghost predicate Priced(d: (City, City) -> nat, st: State, start: seq<City>) {
    multiset(st.tourActual) == multiset(start) && multiset(st.tourBest) == multiset(start) &&
    st.costoActual == CycleCost(d, st.tourActual) && st.costoBest == CycleCost(d, st.tourBest)
  }

  /** A perturbation and a local search that only rearrange the tour, the
      local search returning the cost of its tour. */
  ghost predicate Rearranging(d: (City, City) -> nat, perturb: (seq<City>, nat) -> seq<City>,
                              search: seq<City> -> (seq<City>, int)) {
    (forall s, i :: multiset(perturb(s, i)) == multiset(s)) &&
    (forall s :: multiset(search(s).0) == multiset(s) && search(s).1 == CycleCost(d, search(s).0))
  }

  lemma RoundRearranges(d: (City, City) -> nat, st: State, start: seq<City>, perturb: (seq<City>, nat) -> seq<City>,
                        search: seq<City> -> (seq<City>, int), iter: nat)
    requires Rearranging(d, perturb, search) && Priced(d, st, start)
    ensures Priced(d, Round(st, perturb, search, iter), start)
  {
    var p := perturb(st.tourActual, iter);
    assert multiset(search(p).0) == multiset(p) == multiset(st.tourActual);
  }

  /** With such a perturbation and local search every round keeps the tours
      rearrangements of the start, priced at their costs. */
  lemma {:induction false} RoundsRearrange(d: (City, City) -> nat, st: State, start: seq<City>,
                                           perturb: (seq<City>, nat) -> seq<City>,
                                           search: seq<City> -> (seq<City>, int), k: nat)
    requires Rearranging(d, perturb, search) && Priced(d, st, start)
    ensures Priced(d, Rounds(st, perturb, search, k), start)
  {
    if k > 0 {
      RoundsRearrange(d, st, start, perturb, search, k - 1);
      RoundRearranges(d, Rounds(st, perturb, search, k - 1), start, perturb, search, k);
    }
  }

  /** ILS: the result is the best tour after exactly max(maxIteraciones, 0)
      rounds from the searched, shuffled start; its cost is never above the
      start's and equals the cost of the last current tour. */
  method ILS(ciudades: seq<City>, maxIteraciones: int, src: Source, t: nat,
             perturb: (seq<City>, nat) -> seq<City>, search: seq<City> -> (seq<City>, int))
    returns (tourBest: seq<City>, costoBest: int)
    ensures var r := Rounds(Start(search, Shuffled(ciudades, src, t)), perturb, search,
                            if maxIteraciones < 0 then 0 else maxIteraciones);
      tourBest == r.tourBest && costoBest == r.costoBest && costoBest == r.costoActual
    ensures costoBest <= search(Shuffled(ciudades, src, t)).1
  {
    var tourActual := Shuffled(ciudades, src, t);
    var costoActual;
    tourActual, costoActual := search(tourActual).0, search(tourActual).1;
    ghost var st := Start(search, Shuffled(ciudades, src, t));
    tourBest := tourActual;
    costoBest := costoActual;
    var iter := 1;
    while iter <= maxIteraciones
      invariant 1 <= iter <= (if maxIteraciones < 1 then 1 else maxIteraciones + 1)
      invariant State(tourActual, costoActual, tourBest, costoBest) == Rounds(st, perturb, search, iter - 1)
    {
      var tourCandidato := perturb(tourActual, iter);
      var costoCandidato;
      tourCandidato, costoCandidato := search(tourCandidato).0, search(tourCandidato).1;
      if costoCandidato < costoActual {
        tourActual := tourCandidato;
        costoActual := costoCandidato;
        if costoActual < costoBest {
          tourBest := tourActual;
          costoBest := costoActual;
        }
      }
      iter := iter + 1;
    }
    var k := if maxIteraciones < 0 then 0 else maxIteraciones;
    assert iter - 1 == k;
    RoundsFacts(st, perturb, search, 0, k);
  }
}
