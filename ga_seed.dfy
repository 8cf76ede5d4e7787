/** The farthest-insertion seed of the genetic algorithm
    (Corte_2/Algoritmo_Genetico/geneticalgorithm/heuristic.go): the identity
    tour below three cities, and otherwise the Corte_1 rounds run over a
    distance matrix computed once from the cities. */
module GASeed {
  import opened Tours
  import opened Perms
  import opened Cities
  import opened Insertion

  /** The precomputed table: 0 on the diagonal, and d(cities[i], cities[j])
      for i < j written into both halves. */
  function DistanceMatrix(cities: seq<City>, d: (City, City) -> nat): (m: Matrix)
    ensures |m| == |cities| && IsSquare(m)
  {
    var n := |cities|;
    seq(n, i requires 0 <= i < n =>
      seq(n, j requires 0 <= j < n =>
        if i == j then 0 else if i < j then d(cities[i], cities[j]) else d(cities[j], cities[i])))
  }

  /** The table is symmetric with a zero diagonal whatever d is, so the
      insertion rounds only ever see a symmetric distance. */
  lemma DistanceMatrixFacts(cities: seq<City>, d: (City, City) -> nat)
    ensures SymmetricMatrix(DistanceMatrix(cities, d))
    ensures forall i :: 0 <= i < |cities| ==> DistanceMatrix(cities, d)[i][i] == 0
    ensures forall i, j :: 0 <= i < j < |cities| ==> DistanceMatrix(cities, d)[i][j] == d(cities[i], cities[j])
  {
  }

  /** Entry (a, b) of the table once the fill loops have written every pair
      before (i, j) in loop order. */
  function Filled(cities: seq<City>, d: (City, City) -> nat, i: int, j: int, a: int, b: int): nat
    requires 0 <= a < |cities| && 0 <= b < |cities|
  {
    var lo, hi := if a < b then a else b, if a < b then b else a;
    if lo != hi && Before(lo, hi, i, j) then d(cities[lo], cities[hi]) else 0
  }

  /** The two fill loops. */
  method BuildDistanceMatrix(cities: seq<City>, d: (City, City) -> nat) returns (dist: Matrix)
    ensures dist == DistanceMatrix(cities, d)
  {
    var n := |cities|;
    dist := seq(n, _ => seq(n, _ => 0));
    var i := 0;
    while i < n
      invariant 0 <= i <= n
      invariant |dist| == n && IsSquare(dist)
      invariant forall a, b :: 0 <= a < n && 0 <= b < n ==> dist[a][b] == Filled(cities, d, i, i + 1, a, b)
    {
      var j := i + 1;
      while j < n
        invariant i + 1 <= j <= n
        invariant |dist| == n && IsSquare(dist)
        invariant forall a, b :: 0 <= a < n && 0 <= b < n ==> dist[a][b] == Filled(cities, d, i, j, a, b)
      {
        var x := d(cities[i], cities[j]);
        dist := dist[i := dist[i][j := x]];
        dist := dist[j := dist[j][i := x]];
        j := j + 1;
      }
      assert forall a, b :: 0 <= a < n && 0 <= b < n ==>
        Filled(cities, d, i, n, a, b) == Filled(cities, d, i + 1, i + 2, a, b);
      i := i + 1;
    }
    var m := DistanceMatrix(cities, d);
    forall a | 0 <= a < n ensures dist[a] == m[a] {
      assert forall b :: 0 <= b < n ==> dist[a][b] == m[a][b];
    }
  }

  /** The seed tour: the identity below three cities, and otherwise the
      farthest-insertion tour of the precomputed table. */
  function HeuristicTour(cities: seq<City>, d: (City, City) -> nat): seq<int> {
    if |cities| < 3 then Range(|cities|) else FarthestInsertionTour(DistanceMatrix(cities, d))
  }

  /** The seed is a permutation of the city indices for every input. */
  lemma HeuristicTourIsPermutation(cities: seq<City>, d: (City, City) -> nat)
    ensures IsPermutation(HeuristicTour(cities, d), |cities|)
  {
    if |cities| < 3 {
      RangeIsPermutation(|cities|);
    } else {
      FarthestInsertionIsPermutation(DistanceMatrix(cities, d));
    }
  }

  /** FarthestInsertion over cities. */
  method FarthestInsertionCities(cities: seq<City>, d: (City, City) -> nat) returns (tour: seq<int>)
    ensures tour == HeuristicTour(cities, d)
    ensures IsPermutation(tour, |cities|)
  {
    var n := |cities|;
    if n < 3 {
      var perm := new int[n];
      var i := 0;
      while i < n
        invariant 0 <= i <= n
        invariant forall k :: 0 <= k < i ==> perm[k] == k
      {
        perm[i] := i;
        i := i + 1;
      }
      tour := perm[..];
      assert tour == Range(n);
      HeuristicTourIsPermutation(cities, d);
      return;
    }
    var dist := BuildDistanceMatrix(cities, d);
    tour := InsertionRounds(dist);
    HeuristicTourIsPermutation(cities, d);
  }
}
