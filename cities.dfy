/** Cities with coordinates and the tour helpers of the Corte_2 solvers
    (Corte_2/Algoritmo_Genetico/utils/utils.go).

    `DistanciaEuclidiana` is a square root of floating-point coordinates; the
    model takes it as an abstract distance `d: (City, City) -> nat`, and every
    operation whose bookkeeping relies on it being symmetric says so. */
module Cities {
  import opened Tours
  import opened Perms

  datatype City = City(id: int, x: real, y: real)

  /** CalcularCostoTotal: the consecutive edges of the tour plus the edge
      from the last city back to the first; the tour must not be empty. */
  method CalcularCostoTotal(d: (City, City) -> nat, tour: seq<City>) returns (total: nat)
    requires |tour| >= 1
    ensures total == CycleCost(d, tour)
  {
    total := 0;
    var i := 0;
    while i < |tour| - 1
      invariant 0 <= i <= |tour| - 1
      invariant total == EdgeSum(d, tour, i)
    {
      total := total + d(tour[i], tour[i + 1]);
      i := i + 1;
    }
    total := total + d(tour[|tour| - 1], tour[0]);
  }

  /** CopiarTour: the same cities in a fresh buffer, so that later writes to
      either one leave the other alone. */
  method CopiarTour<T(0)>(tour: array<T>) returns (nueva: array<T>)
    ensures fresh(nueva) && nueva[..] == tour[..]
  {
    nueva := new T[tour.Length];
    var i := 0;
    while i < tour.Length
      invariant 0 <= i <= tour.Length
      invariant forall k :: 0 <= k < i ==> nueva[k] == tour[k]
    {
      nueva[i] := tour[i];
      i := i + 1;
    }
  }

  /** The distance between city indices, as the index-based tours of the
      genetic algorithm and the seed heuristic read it. */
  function CityEdge(cities: seq<City>, d: (City, City) -> nat): (int, int) -> nat {
    (a: int, b: int) => if 0 <= a < |cities| && 0 <= b < |cities| then d(cities[a], cities[b]) else 0
  }

  /** The cities an index tour visits, in order. */
  function CitiesOf(cities: seq<City>, tour: seq<int>): (r: seq<City>)
    requires InRange(tour, |cities|)
    ensures |r| == |tour| && forall k :: 0 <= k < |tour| ==> r[k] == cities[tour[k]]
  {
    seq(|tour|, k requires 0 <= k < |tour| => cities[tour[k]])
  }

  lemma {:induction false} EdgeSumCities(cities: seq<City>, d: (City, City) -> nat, tour: seq<int>, k: nat)
    requires InRange(tour, |cities|) && k < |tour|
    ensures EdgeSum(CityEdge(cities, d), tour, k) == EdgeSum(d, CitiesOf(cities, tour), k)
  {
    if k > 0 {
      EdgeSumCities(cities, d, tour, k - 1);
    }
  }

  /** An index tour costs what the tour of the cities it names costs. */
  lemma CycleCostCities(cities: seq<City>, d: (City, City) -> nat, tour: seq<int>)
    requires InRange(tour, |cities|)
    ensures CycleCost(CityEdge(cities, d), tour) == CycleCost(d, CitiesOf(cities, tour))
  {
    if |tour| > 0 {
      EdgeSumCities(cities, d, tour, |tour| - 1);
    }
  }

  /** The cities of a permutation tour are exactly the input cities, one
      position for each. */
  lemma CitiesOfPermutation(cities: seq<City>, tour: seq<int>)
    requires IsPermutation(tour, |cities|)
    ensures InRange(tour, |cities|) && |CitiesOf(cities, tour)| == |cities|
    ensures forall c :: c in CitiesOf(cities, tour) <==> c in cities
  {
    PermutationFacts(tour, |cities|);
    var r := CitiesOf(cities, tour);
    forall c | c in cities ensures c in r {
      var k :| 0 <= k < |cities| && cities[k] == c;
      assert k in tour;
      var p :| 0 <= p < |tour| && tour[p] == k;
      assert r[p] == c;
    }
  }
}
