/** Tournament selection of the genetic algorithm
    (Corte_2/Algoritmo_Genetico/geneticalgorithm/selection.go). */
module Selection {
  import opened GATypes

  /** How many individuals a tournament samples: at least the first one. */
  function SampleCount(tournSize: int): nat {
    if tournSize <= 1 then 1 else tournSize
  }

  /** The winner among the first k samples: the earliest sample of lowest
      cost, as the strict comparison keeps the current best on ties. */
  function TournamentUpTo(population: seq<Individual>, samples: seq<nat>, k: nat): Individual
    requires 1 <= k <= |samples|
    requires forall q :: 0 <= q < |samples| ==> samples[q] < |population|
  {
    if k == 1 then population[samples[0]]
    else
      var best := TournamentUpTo(population, samples, k - 1);
      var candidate := population[samples[k - 1]];
      if candidate.cost < best.cost then candidate else best
  }

  /** TournamentSelection: `samples` are the `rand.Intn(len(population))`
      draws, one per round; the population must not be empty. */
  method TournamentSelection(population: seq<Individual>, tournSize: int, samples: seq<nat>) returns (best: Individual)
    requires |population| > 0
    requires |samples| == SampleCount(tournSize)
    requires forall q :: 0 <= q < |samples| ==> samples[q] < |population|
    ensures best == TournamentUpTo(population, samples, |samples|)
  {
    best := population[samples[0]];
    var i := 1;
    while i < tournSize
      invariant 1 <= i <= |samples|
      invariant best == TournamentUpTo(population, samples, i)
    {
      var candidate := population[samples[i]];
      if candidate.cost < best.cost {
        best := candidate;
      }
      i := i + 1;
    }
  }

  /** The winner is a sampled member of the population: the first sample of
      lowest cost among all samples. */
  lemma {:induction false} TournamentSpec(population: seq<Individual>, samples: seq<nat>, k: nat)
    requires 1 <= k <= |samples|
    requires forall q :: 0 <= q < |samples| ==> samples[q] < |population|
    ensures exists w :: (0 <= w < k && TournamentUpTo(population, samples, k) == population[samples[w]] &&
      forall q :: 0 <= q < w ==> population[samples[q]].cost > population[samples[w]].cost)
    ensures forall q :: 0 <= q < k ==> TournamentUpTo(population, samples, k).cost <= population[samples[q]].cost
  {
    if k > 1 {
      TournamentSpec(population, samples, k - 1);
      var w :| 0 <= w < k - 1 && TournamentUpTo(population, samples, k - 1) == population[samples[w]] &&
        (forall q :: 0 <= q < w ==> population[samples[q]].cost > population[samples[w]].cost);
      if population[samples[k - 1]].cost < population[samples[w]].cost {
        assert TournamentUpTo(population, samples, k) == population[samples[k - 1]];
      } else {
        assert TournamentUpTo(population, samples, k) == population[samples[w]];
      }
    } else {
      assert TournamentUpTo(population, samples, k) == population[samples[0]];
    }
  }

  /** With a tournament size of at most one the first sample wins. */
  lemma TournamentOfOne(population: seq<Individual>, tournSize: int, samples: seq<nat>)
    requires tournSize <= 1 && |samples| == SampleCount(tournSize)
    requires forall q :: 0 <= q < |samples| ==> samples[q] < |population|
    ensures TournamentUpTo(population, samples, |samples|) == population[samples[0]]
  {
  }
}
