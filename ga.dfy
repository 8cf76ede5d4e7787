/** The genetic algorithm (Corte_2/Algoritmo_Genetico/geneticalgorithm/ga.go):
    cost evaluation, the initial population, one generation of tournament
    selection, cut-and-fill crossover and inversion mutation, (mu+lambda)
    survivor selection, and the best-so-far and stagnation bookkeeping. */
module GA {
  import opened Tours
  import opened Perms
  import opened Sorting
  import opened Random
  import opened Cities
  import opened GASeed
  import opened GATypes
  import opened Crossover
  import opened Mutation
  import opened Selection

  /** An individual whose tour is a permutation of the city indices and whose
      cost is that tour's closed cost. */
  predicate ValidIndividual(cities: seq<City>, d: (City, City) -> nat, ind: Individual) {
    IsPermutation(ind.tour, |cities|) && ind.cost == CycleCost(CityEdge(cities, d), ind.tour)
  }

  predicate AllValid(cities: seq<City>, d: (City, City) -> nat, pop: seq<Individual>) {
    forall k :: 0 <= k < |pop| ==> ValidIndividual(cities, d, pop[k])
  }

  /** EvaluateCost: the closed cost of a non-empty index tour. */
  method EvaluateCost(tour: seq<int>, cities: seq<City>, d: (City, City) -> nat) returns (total: nat)
    requires |tour| >= 1 && InRange(tour, |cities|)
    ensures total == CycleCost(CityEdge(cities, d), tour)
  {
    total := 0;
    var n := |tour|;
    var i := 0;
    while i < n - 1
      invariant 0 <= i <= n - 1
      invariant total == EdgeSum(CityEdge(cities, d), tour, i)
    {
      total := total + d(cities[tour[i]], cities[tour[i + 1]]);
      i := i + 1;
    }
    total := total + d(cities[tour[n - 1]], cities[tour[0]]);
  }

  /** copyTour: the same entries in a fresh buffer. */
  method CopyTour(tour: seq<int>) returns (c: array<int>)
    ensures fresh(c) && c[..] == tour
  {
    c := new int[|tour|];
    var i := 0;
    while i < |tour|
      invariant 0 <= i <= |tour|
      invariant forall k :: 0 <= k < i ==> c[k] == tour[k]
    {
      c[i] := tour[i];
      i := i + 1;
    }
  }

  /** The tour after k random exchanges; exchange number s reads draws
      t + 2s and t + 2s + 1. */
  function Perturbed(s: seq<int>, src: Source, t: nat, k: nat): (r: seq<int>)
    requires k == 0 || |s| >= 1
    ensures |r| == |s|
  {
    if k == 0 then s
    else
      var p := Perturbed(s, src, t, k - 1);
      SwapAt(p, Intn(src, t + 2 * (k - 1), |s|), Intn(src, t + 2 * (k - 1) + 1, |s|))
  }

  /** Exchanges only rearrange, so a perturbed permutation is a permutation. */
  lemma {:induction false} PerturbedMultiset(s: seq<int>, src: Source, t: nat, k: nat)
    requires k == 0 || |s| >= 1
    ensures multiset(Perturbed(s, src, t, k)) == multiset(s)
  {
    if k > 0 {
      var p := Perturbed(s, src, t, k - 1);
      var i, j := Intn(src, t + 2 * (k - 1), |s|), Intn(src, t + 2 * (k - 1) + 1, |s|);
      assert Perturbed(s, src, t, k) == SwapAt(p, i, j);
      PerturbedMultiset(s, src, t, k - 1);
      SwapAtMultiset(p, i, j);
    }
  }

  /** perturbTour: k exchanges on a copy; a negative k makes none. The tour
      must not be empty when an exchange is drawn, as `rand.Intn(0)` panics. */
  method PerturbTour(tour: seq<int>, k: int, src: Source, t: nat) returns (p: seq<int>, t': nat)
    requires k <= 0 || |tour| >= 1
    ensures p == Perturbed(tour, src, t, if k <= 0 then 0 else k)
    ensures t' == t + 2 * (if k <= 0 then 0 else k)
  {
    var a := CopyTour(tour);
    var n := a.Length;
    var s := 0;
    ghost var cur := tour;
    while s < k
      invariant 0 <= s <= (if k <= 0 then 0 else k)
      invariant a[..] == cur && cur == Perturbed(tour, src, t, s)
    {
      var i := Intn(src, t + 2 * s, n);
      var j := Intn(src, t + 2 * s + 1, n);
      cur := SwapAt(cur, i, j);
      assert cur == Perturbed(tour, src, t, s + 1);
      Exchange(a, i, j);
      s := s + 1;
    }
    p := a[..];
    t' := t + 2 * s;
  }

  /** isDuplicate: some individual has exactly this cost. */
  method IsDuplicate(pop: seq<Individual>, cost: nat) returns (dup: bool)
    ensures dup <==> exists k :: 0 <= k < |pop| && pop[k].cost == cost
  {
    var i := 0;
    while i < |pop|
      invariant 0 <= i <= |pop|
      invariant forall k :: 0 <= k < i ==> pop[k].cost != cost
    {
      if pop[i].cost == cost {
        return true;
      }
      i := i + 1;
    }
    return false;
  }

  /** randomPermutation: the identity tour, shuffled. */
  method RandomPermutation(n: nat, src: Source, t: nat) returns (perm: seq<int>, t': nat)
    ensures perm == Shuffled(Range(n), src, t)
    ensures t' == t + ShuffleDraws(n)
  {
    var a := new int[n];
    var i := 0;
    while i < n
      invariant 0 <= i <= n
      invariant forall k :: 0 <= k < i ==> a[k] == k
    {
      a[i] := i;
      i := i + 1;
    }
    assert a[..] == Range(n);
    t' := Shuffle(a, src, t);
    perm := a[..];
  }

  lemma ShuffledRangeIsPermutation(n: nat, src: Source, t: nat)
    ensures IsPermutation(Shuffled(Range(n), src, t), n)
  {
    ShuffledMultiset(Range(n), src, t);
  }

  /** Go's integer division, which truncates toward zero. */
  function GoDiv(a: int, b: int): (q: int)
    requires b > 0
    ensures a >= 0 ==> q == a / b
    ensures a < 0 ==> q <= 0
  {
    if a >= 0 then a / b else -((-a) / b)
  }

  /** A fresh individual from a tour, costed. */
  method Evaluated(tour: seq<int>, cities: seq<City>, d: (City, City) -> nat) returns (ind: Individual)
    requires IsPermutation(tour, |cities|) && |cities| >= 1
    ensures ind.tour == tour && ValidIndividual(cities, d, ind)
  {
    PermutationFacts(tour, |cities|);
    var cost := EvaluateCost(tour, cities, d);
    ind := Individual(tour, cost);
  }

  /** The first individual of the population, costed. */
  function SeedIndividual(cities: seq<City>, d: (City, City) -> nat): Individual {
    Individual(HeuristicTour(cities, d), CycleCost(CityEdge(cities, d), HeuristicTour(cities, d)))
  }

  lemma AppendValid(cities: seq<City>, d: (City, City) -> nat, pop: seq<Individual>, ind: Individual)
    requires AllValid(cities, d, pop) && ValidIndividual(cities, d, ind)
    ensures AllValid(cities, d, pop + [ind])
  {
  }

  /** Every individual from position `from` on has a cost no earlier one has. */
  predicate FreshCosts(pop: seq<Individual>, from: nat) {
    forall i, j :: 0 <= i < j < |pop| && from <= j ==> pop[i].cost != pop[j].cost
  }

  /** The perturbed phase of initPopulation: numPerturbed variants of the
      seed tour, each kept only if its cost is new. */
  method AddPerturbed(cities: seq<City>, d: (City, City) -> nat, pop0: seq<Individual>, fiTour: seq<int>,
                      numPerturbed: int, swaps: nat, src: Source, t: nat)
    returns (pop: seq<Individual>, t': nat)
    requires |cities| >= 1 && IsPermutation(fiTour, |cities|) && AllValid(cities, d, pop0)
    ensures |pop0| <= |pop| <= |pop0| + (if numPerturbed <= 0 then 0 else numPerturbed)
    ensures pop[..|pop0|] == pop0 && AllValid(cities, d, pop) && FreshCosts(pop, |pop0|)
  {
    pop, t' := pop0, t;
    var i := 0;
    while i < numPerturbed
      invariant 0 <= i <= (if numPerturbed <= 0 then 0 else numPerturbed)
      invariant |pop0| <= |pop| <= |pop0| + i && pop[..|pop0|] == pop0
      invariant AllValid(cities, d, pop) && FreshCosts(pop, |pop0|)
    {
      var pt, t1 := PerturbTour(fiTour, swaps, src, t');
      PerturbedMultiset(fiTour, src, t', swaps);
      PermutationOfPermutation(fiTour, pt, |cities|);
      t' := t1;
      var ind := Evaluated(pt, cities, d);
      var dup := IsDuplicate(pop, ind.cost);
      if !dup {
        AppendValid(cities, d, pop, ind);
        pop := pop + [ind];
      }
      i := i + 1;
    }
  }

  /** The random phase of initPopulation: at most 3 * popSize shuffled
      tours, each kept only if its cost is new, until popSize are held. */
  method AddRandom(cities: seq<City>, d: (City, City) -> nat, pop0: seq<Individual>, popSize: int, src: Source, t: nat)
    returns (pop: seq<Individual>, t': nat)
    requires |cities| >= 1 && AllValid(cities, d, pop0)
    ensures |pop0| <= |pop| <= (if |pop0| < popSize then popSize else |pop0|)
    ensures pop[..|pop0|] == pop0 && AllValid(cities, d, pop) && FreshCosts(pop, |pop0|)
  {
    pop, t' := pop0, t;
    var n := |cities|;
    var maxAttempts := popSize * 3;
    var attempts := 0;
    while |pop| < popSize && attempts < maxAttempts
      invariant |pop0| <= |pop| <= (if |pop0| < popSize then popSize else |pop0|) && pop[..|pop0|] == pop0
      invariant AllValid(cities, d, pop) && FreshCosts(pop, |pop0|)
      decreases maxAttempts - attempts
    {
      var tour, t1 := RandomPermutation(n, src, t');
      ShuffledRangeIsPermutation(n, src, t');
      t' := t1;
      var ind := Evaluated(tour, cities, d);
      var dup := IsDuplicate(pop, ind.cost);
      if !dup {
        AppendValid(cities, d, pop, ind);
        pop := pop + [ind];
      }
      attempts := attempts + 1;
    }
  }

  /** The last phase of initPopulation: shuffled tours without the cost
      check until popSize are held. */
  method FillRandom(cities: seq<City>, d: (City, City) -> nat, pop0: seq<Individual>, popSize: int, src: Source, t: nat)
    returns (pop: seq<Individual>, t': nat)
    requires |cities| >= 1 && AllValid(cities, d, pop0)
    ensures |pop| == if |pop0| < popSize then popSize else |pop0|
    ensures pop[..|pop0|] == pop0 && AllValid(cities, d, pop)
  {
    pop, t' := pop0, t;
    var n := |cities|;
    while |pop| < popSize
      invariant |pop0| <= |pop| <= (if |pop0| < popSize then popSize else |pop0|) && pop[..|pop0|] == pop0
      invariant AllValid(cities, d, pop)
      decreases popSize - |pop|
    {
      var tour, t1 := RandomPermutation(n, src, t');
      ShuffledRangeIsPermutation(n, src, t');
      t' := t1;
      var ind := Evaluated(tour, cities, d);
      AppendValid(cities, d, pop, ind);
      pop := pop + [ind];
    }
  }

  /** initPopulation, as far as its size and contents go: for popSize >= 1
      exactly popSize individuals (the seed alone for popSize = 0), the first
      being the farthest-insertion seed, every one a valid permutation with
      its cost. The cities must not be empty, as the seed's cost reads
      tour[n-1], and popSize must not be negative, as it is the capacity of
      the slice `make` allocates. */
  method InitPopulation(cities: seq<City>, d: (City, City) -> nat, popSize: int, src: Source, t: nat)
    returns (pop: seq<Individual>, t': nat)
    requires |cities| >= 1 && popSize >= 0
    ensures |pop| == if popSize >= 1 then popSize else 1
    ensures pop[0] == SeedIndividual(cities, d)
    ensures AllValid(cities, d, pop)
  {
    var n := |cities|;
    var fiTour := FarthestInsertionCities(cities, d);
    var seed := Evaluated(fiTour, cities, d);
    pop := [seed];

    var numPerturbed := GoDiv(popSize * 15, 100);
    assert popSize >= 1 ==> numPerturbed + 1 <= popSize by {
      if popSize >= 1 {
        assert 100 * numPerturbed <= popSize * 15;
      }
    }
    var swaps := n / 5;
    if swaps < 2 {
      swaps := 2;
    }
    var pop1, t1 := AddPerturbed(cities, d, pop, fiTour, numPerturbed, swaps, src, t);
    assert pop1[0] == pop1[..1][0];
    var pop2, t2 := AddRandom(cities, d, pop1, popSize, src, t1);
    assert pop2[0] == pop2[..|pop1|][0];
    pop, t' := FillRandom(cities, d, pop2, popSize, src, t2);
    assert pop[0] == pop[..|pop2|][0];
  }

  /** The cheapest of pop[0..k), the earliest on ties, as the scan for the
      initial best keeps the current one unless a later one is cheaper. */
  function CheapestUpTo(pop: seq<Individual>, k: nat): Individual
    requires 1 <= k <= |pop|
  {
    if k == 1 then pop[0]
    else
      var best := CheapestUpTo(pop, k - 1);
      if pop[k - 1].cost < best.cost then pop[k - 1] else best
  }

  lemma {:induction false} CheapestUpToSpec(pop: seq<Individual>, k: nat)
    requires 1 <= k <= |pop|
    ensures exists w :: (0 <= w < k && CheapestUpTo(pop, k) == pop[w] &&
      forall q :: 0 <= q < w ==> pop[q].cost > pop[w].cost)
    ensures forall q :: 0 <= q < k ==> CheapestUpTo(pop, k).cost <= pop[q].cost
  {
    if k > 1 {
      CheapestUpToSpec(pop, k - 1);
      var w :| 0 <= w < k - 1 && CheapestUpTo(pop, k - 1) == pop[w] &&
        forall q :: 0 <= q < w ==> pop[q].cost > pop[w].cost;
      if pop[k - 1].cost < pop[w].cost {
        assert CheapestUpTo(pop, k) == pop[k - 1];
      } else {
        assert CheapestUpTo(pop, k) == pop[w];
      }
    } else {
      assert CheapestUpTo(pop, k) == pop[0];
    }
  }

  /** A tournament winner is a member of the population. */
  lemma WinnerValid(cities: seq<City>, d: (City, City) -> nat, population: seq<Individual>, samples: seq<nat>)
    requires 1 <= |samples| && AllValid(cities, d, population)
    requires forall q :: 0 <= q < |samples| ==> samples[q] < |population|
    ensures ValidIndividual(cities, d, TournamentUpTo(population, samples, |samples|))
  {
    TournamentSpec(population, samples, |samples|);
  }

  /** Inversion mutation with probability mutationRate: draw t is compared
      with the rate, and a mutation reads the two positions from draws t+1
      and t+2. */
  method MaybeMutate(tour: seq<int>, n: nat, rate: real, src: Source, t: nat) returns (r: seq<int>, t': nat)
    requires n >= 1 && IsPermutation(tour, n)
    ensures IsPermutation(r, n)
    ensures src.reals(t) < rate ==>
      t' == t + 3 && r == Mutated(tour, Intn(src, t + 1, n), Intn(src, t + 2, n))
    ensures !(src.reals(t) < rate) ==> t' == t + 1 && r == tour
  {
    r, t' := tour, t + 1;
    if src.reals(t) < rate {
      PermutationFacts(tour, n);
      var buf := CopyTour(tour);
      var i := Intn(src, t + 1, n);
      var j := Intn(src, t + 2, n);
      InversionMutation(buf, i, j);
      MutatedFacts(tour, i, j);
      r, t' := buf[..], t + 3;
    }
  }

  /** One pass of the offspring loop: two tournaments, the crossover and the
      two mutation draws. There must be two cities for `rand.Intn(n-1)`. */
  method Breed(cities: seq<City>, d: (City, City) -> nat, config: GAConfig, population: seq<Individual>, src: Source, t: nat)
    returns (child1: Individual, child2: Individual, t': nat)
    requires |cities| >= 2 && |population| >= 1 && AllValid(cities, d, population)
    ensures ValidIndividual(cities, d, child1) && ValidIndividual(cities, d, child2)
  {
    var n := |cities|;
    var k := SampleCount(config.tournamentSize);
    var samples1 := Draws(src, t, k, |population|);
    var parent1 := TournamentSelection(population, config.tournamentSize, samples1);
    WinnerValid(cities, d, population, samples1);
    var samples2 := Draws(src, t + k, k, |population|);
    var parent2 := TournamentSelection(population, config.tournamentSize, samples2);
    WinnerValid(cities, d, population, samples2);
    PermutationFacts(parent1.tour, n);
    PermutationFacts(parent2.tour, n);
    var tour1, tour2 := CutAndFillCrossover(parent1.tour, parent2.tour, Intn(src, t + 2 * k, n - 1));
    var t1;
    tour1, t1 := MaybeMutate(tour1, n, config.mutationRate, src, t + 2 * k + 1);
    tour2, t' := MaybeMutate(tour2, n, config.mutationRate, src, t1);
    child1 := Evaluated(tour1, cities, d);
    child2 := Evaluated(tour2, cities, d);
  }

  /** The offspring loop: exactly popSize children, the second child of the
      last pair dropped when popSize is odd. popSize is the capacity of the
      offspring slice, so it must not be negative. */
  method Offspring(cities: seq<City>, d: (City, City) -> nat, config: GAConfig, population: seq<Individual>, src: Source, t: nat)
    returns (offspring: seq<Individual>, t': nat)
    requires |cities| >= 2 && |population| >= 1 && AllValid(cities, d, population) && config.popSize >= 0
    ensures |offspring| == config.popSize
    ensures AllValid(cities, d, offspring)
  {
    offspring := [];
    t' := t;
    while |offspring| < config.popSize
      invariant |offspring| <= (if config.popSize >= 1 then config.popSize else 0)
      invariant AllValid(cities, d, offspring)
      decreases config.popSize - |offspring|
    {
      var child1, child2;
      child1, child2, t' := Breed(cities, d, config, population, src, t');
      offspring := offspring + [child1];
      if |offspring| < config.popSize {
        offspring := offspring + [child2];
      }
    }
  }

  function CostKey(ind: Individual): int {
    ind.cost
  }

  /** (mu+lambda) survivor selection: the first popSize of the old population
      and the offspring together, ordered by ascending cost. */
  function Survivors(population: seq<Individual>, offspring: seq<Individual>, popSize: nat): seq<Individual>
    requires popSize <= |population| + |offspring|
  {
    SortBy(population + offspring, CostKey)[..popSize]
  }

  /** In a cost-sorted sequence, an individual outside the first p costs at
      least as much as each of them. */
  lemma SortedPrefixBelow(all: seq<Individual>, p: nat, x: Individual)
    requires p <= |all| && SortedBy(all, CostKey) && x in all && x !in all[..p]
    ensures forall k :: 0 <= k < p ==> all[k].cost <= x.cost
  {
    var j :| 0 <= j < |all| && all[j] == x;
    forall k | 0 <= k < p ensures all[k].cost <= x.cost {
      assert CostKey(all[k]) <= CostKey(all[j]);
    }
  }

  lemma SortedFirstBelow(all: seq<Individual>, x: Individual)
    requires |all| >= 1 && SortedBy(all, CostKey) && x in all
    ensures all[0].cost <= x.cost
  {
    var j :| 0 <= j < |all| && all[j] == x;
    if j > 0 {
      assert CostKey(all[0]) <= CostKey(all[j]);
    }
  }

  lemma SameMembers<T>(a: seq<T>, b: seq<T>, x: T)
    requires multiset(a) == multiset(b)
    ensures x in a <==> x in b
  {
    assert x in a <==> x in multiset(a);
    assert x in b <==> x in multiset(b);
  }

  /** The survivors are popSize members of old population and offspring,
      sorted by cost, none dearer than any individual left out; the first is
      the cheapest of all. */
  lemma SurvivorsFacts(population: seq<Individual>, offspring: seq<Individual>, popSize: nat)
    requires popSize <= |population| + |offspring|
    ensures |Survivors(population, offspring, popSize)| == popSize
    ensures SortedBy(Survivors(population, offspring, popSize), CostKey)
    ensures multiset(Survivors(population, offspring, popSize)) <= multiset(population + offspring)
    ensures forall x :: x in population + offspring && x !in Survivors(population, offspring, popSize) ==>
      forall k :: 0 <= k < popSize ==> Survivors(population, offspring, popSize)[k].cost <= x.cost
    ensures popSize >= 1 ==> forall x :: x in population + offspring ==>
      Survivors(population, offspring, popSize)[0].cost <= x.cost
  {
    var c := population + offspring;
    var all := SortBy(c, CostKey);
    var r := all[..popSize];
    assert all == r + all[popSize..];
    assert multiset(all) == multiset(r) + multiset(all[popSize..]);
    forall x | x in c && x !in r
      ensures forall k :: 0 <= k < popSize ==> r[k].cost <= x.cost
    {
      SameMembers(c, all, x);
      SortedPrefixBelow(all, popSize, x);
    }
    if popSize >= 1 {
      forall x | x in c ensures r[0].cost <= x.cost {
        SameMembers(c, all, x);
        SortedFirstBelow(all, x);
      }
    }
  }

  /** Survivors of valid individuals are valid. */
  lemma SurvivorsValid(cities: seq<City>, d: (City, City) -> nat, population: seq<Individual>, offspring: seq<Individual>, popSize: nat)
    requires popSize <= |population| + |offspring|
    requires AllValid(cities, d, population) && AllValid(cities, d, offspring)
    ensures AllValid(cities, d, Survivors(population, offspring, popSize))
  {
    SurvivorsFacts(population, offspring, popSize);
    var r := Survivors(population, offspring, popSize);
    forall k | 0 <= k < |r| ensures ValidIndividual(cities, d, r[k]) {
      assert r[k] in multiset(r);
      assert r[k] in multiset(population + offspring);
      var c := population + offspring;
      assert r[k] in c;
      var j :| 0 <= j < |c| && c[j] == r[k];
      if j >= |population| {
        assert c[j] == offspring[j - |population|];
      }
    }
  }

  /** One generation: popSize offspring bred from the population, then the
      survivors of both together. */
  method NextPopulation(cities: seq<City>, d: (City, City) -> nat, config: GAConfig, population: seq<Individual>, src: Source, t: nat)
    returns (offspring: seq<Individual>, newPop: seq<Individual>, t': nat)
    requires |cities| >= 2 && config.popSize >= 1 && |population| >= 1 && AllValid(cities, d, population)
    ensures |offspring| == config.popSize && AllValid(cities, d, offspring)
    ensures newPop == Survivors(population, offspring, config.popSize)
    ensures |newPop| == config.popSize && AllValid(cities, d, newPop)
  {
    offspring, t' := Offspring(cities, d, config, population, src, t);
    newPop := Survivors(population, offspring, config.popSize);
    SurvivorsFacts(population, offspring, config.popSize);
    SurvivorsValid(cities, d, population, offspring, config.popSize);
  }

  /** The GAResult tour: the cities of the best index tour, in order. */
  method ToCities(cities: seq<City>, tour: seq<int>) returns (r: seq<City>)
    requires InRange(tour, |cities|) && |tour| == |cities|
    ensures r == CitiesOf(cities, tour)
  {
    var a := new City[|cities|];
    var i := 0;
    while i < |tour|
      invariant 0 <= i <= |tour|
      invariant forall k :: 0 <= k < i ==> a[k] == cities[tour[k]]
    {
      a[i] := cities[tour[i]];
      i := i + 1;
    }
    r := a[..];
  }

  /** The scan for the initial best. */
  method InitialBest(population: seq<Individual>) returns (best: Individual, ghost w: nat)
    requires |population| >= 1
    ensures best == CheapestUpTo(population, |population|)
    ensures w < |population| && best == population[w]
  {
    best := population[0];
    var k := 1;
    while k < |population|
      invariant 1 <= k <= |population|
      invariant best == CheapestUpTo(population, k)
    {
      if population[k].cost < best.cost {
        best := population[k];
      }
      k := k + 1;
    }
    CheapestUpToSpec(population, |population|);
    w :| 0 <= w < |population| && best == population[w];
  }

  /** After a generation the first survivor costs no more than the best so
      far, when the best so far is a cheapest member of the old population,
      and no more than any other survivor. */
  lemma BestAfterGeneration(population: seq<Individual>, offspring: seq<Individual>, popSize: nat, bestCost: nat, w: nat)
    requires 1 <= popSize <= |population| + |offspring|
    requires w < |population| && population[w].cost == bestCost
    ensures Survivors(population, offspring, popSize)[0].cost <= bestCost
    ensures forall k :: 0 <= k < popSize ==>
      Survivors(population, offspring, popSize)[0].cost <= Survivors(population, offspring, popSize)[k].cost
  {
    SurvivorsFacts(population, offspring, popSize);
    var r := Survivors(population, offspring, popSize);
    assert population[w] == (population + offspring)[w];
    forall k | 0 <= k < popSize ensures r[0].cost <= r[k].cost {
      assert CostKey(r[0]) <= CostKey(r[k]);
    }
  }

  /** RunGA. The best tour is a permutation of the cities whose cost is
      bestCost, never dearer than the farthest-insertion seed; it stops for
      stagnation exactly when StagnationLimit > 0 and the generations since
      the last improvement reached it, and otherwise after all generations.
      One city is needed for the seed's cost; running a generation needs two
      cities (for the crossover draw) and popSize >= 1 (for population[0]
      after truncation). popSize, a slice capacity, is never negative. */
  method RunGA(cities: seq<City>, d: (City, City) -> nat, config: GAConfig, src: Source, t: nat) returns (result: GAResult)
    requires |cities| >= 1 && config.popSize >= 0
    requires config.generations >= 1 ==> |cities| >= 2 && config.popSize >= 1
    ensures 0 <= result.lastImproveGen <= result.totalGens
    ensures result.totalGens <= (if config.generations >= 0 then config.generations else 0)
    ensures result.stopReason == Estancamiento <==>
      config.stagnationLimit > 0 && result.totalGens - result.lastImproveGen >= config.stagnationLimit
    ensures result.stopReason == MaxGeneraciones ==>
      result.totalGens == (if config.generations >= 0 then config.generations else 0)
    ensures |result.bestTour| == |cities| && forall c :: c in result.bestTour <==> c in cities
    ensures result.bestCost == CycleCost(d, result.bestTour)
    ensures result.bestCost <= SeedIndividual(cities, d).cost
  {
    var population, t1 := InitPopulation(cities, d, config.popSize, src, t);
    var best;
    ghost var w: nat;
    best, w := InitialBest(population);
    CheapestUpToSpec(population, |population|);
    assert best.cost <= population[0].cost;

    var stagnationCount := 0;
    var lastImproveGen := 0;
    var totalGens := 0;
    var stopReason := MaxGeneraciones;
    var gen := 0;
    while gen < config.generations
      invariant 0 <= gen <= (if config.generations >= 0 then config.generations else 0)
      invariant totalGens == gen && 0 <= lastImproveGen <= totalGens
      invariant stagnationCount == totalGens - lastImproveGen
      invariant config.stagnationLimit > 0 ==> stagnationCount < config.stagnationLimit
      invariant |population| >= 1 && AllValid(cities, d, population)
      invariant ValidIndividual(cities, d, best) && best.cost <= SeedIndividual(cities, d).cost
      invariant w < |population| && population[w].cost == best.cost
    {
      totalGens := gen + 1;
      var offspring, newPop;
      offspring, newPop, t1 := NextPopulation(cities, d, config, population, src, t1);
      BestAfterGeneration(population, offspring, config.popSize, best.cost, w);
      population := newPop;
      w := 0;
      if population[0].cost < best.cost {
        best := population[0];
        stagnationCount := 0;
        lastImproveGen := gen + 1;
      } else {
        stagnationCount := stagnationCount + 1;
      }
      if config.stagnationLimit > 0 && stagnationCount >= config.stagnationLimit {
        stopReason := Estancamiento;
        break;
      }
      gen := gen + 1;
    }

    PermutationFacts(best.tour, |cities|);
    var bestTourCities := ToCities(cities, best.tour);
    CycleCostCities(cities, d, best.tour);
    CitiesOfPermutation(cities, best.tour);
    result := GAResult(bestTourCities, best.cost, lastImproveGen, totalGens, stopReason);
  }
}
