/** A problem instance of the Corte_1 heuristics (Corte_1/Heuristica/tsp/instance.go):
    the number of cities and the distance table, and the closed length of a tour. */
module Instances {
  import opened Tours
  import opened Perms

  /** The known optimum the source also carries is only used for reporting
      and is not part of the model. */
  datatype Instance = Instance(numCities: int, distance: Matrix)

  predicate Valid(inst: Instance) {
    inst.numCities == |inst.distance| && IsSquare(inst.distance)
  }

  /** TourLength: the sum of Distance[tour[i]][tour[(i+1) % n]] over every
      position i, so the edge back to the first city is included. */
  method TourLength(inst: Instance, tour: seq<int>) returns (total: nat)
    requires IsSquare(inst.distance) && InRange(tour, |inst.distance|)
    ensures total == CycleCost(Edge(inst.distance), tour)
  {
    var d := Edge(inst.distance);
    total := 0;
    var n := |tour|;
    var i := 0;
    while i < n
      invariant 0 <= i <= n
      invariant i < n ==> total == EdgeSum(d, tour, i)
      invariant i == n ==> total == CycleCost(d, tour)
    {
      var from := tour[i];
      var next := Next(i, n);
      assert next == (i + 1) % n;
      var to := tour[next];
      total := total + inst.distance[from][to];
      i := i + 1;
    }
  }

  /** The empty tour has length 0, and a one-city tour [c] has length d(c, c). */
  lemma ShortTours(inst: Instance, c: int)
    requires IsSquare(inst.distance) && 0 <= c < |inst.distance|
    ensures CycleCost(Edge(inst.distance), []) == 0
    ensures CycleCost(Edge(inst.distance), [c]) == inst.distance[c][c]
  {
    assert [c][0] == c;
  }
}
