/** The ant of the ant colony system (Corte_1/Heuristica/acs/ant.go): the
    tour it is building, one visited flag per city, and the position of the
    next city in the tour. */
module Colony {
  import opened Perms

  /** The first k entries of the tour are distinct cities below n and a
      city is flagged visited exactly when it is among them. */
  ghost predicate Consistent(tour: seq<int>, visited: seq<bool>, k: int) {
    |tour| == |visited| && 0 <= k <= |tour| &&
    Distinct(tour[..k]) && InRange(tour[..k], |tour|) &&
    forall c :: 0 <= c < |visited| ==> (visited[c] <==> c in tour[..k])
  }

  /** Starting over from city s: only s is visited and it is the first
      entry of the tour. */
  lemma StartConsistent(tour: seq<int>, s: int)
    requires 0 <= s < |tour|
    ensures Consistent(tour[0 := s], seq(|tour|, c => c == s), 1)
  {
    assert tour[0 := s][..1] == [s];
  }

  /** Appending a city whose flag is still clear keeps the tour and the
      flags in agreement. */
  lemma VisitConsistent(tour: seq<int>, visited: seq<bool>, k: int, c: int)
    requires Consistent(tour, visited, k) && k < |tour| && 0 <= c < |visited| && !visited[c]
    ensures Consistent(tour[k := c], visited[c := true], k + 1)
  {
    var p := tour[k := c][..k + 1];
    assert p == tour[..k] + [c];
    assert c !in tour[..k];
    forall i, j | 0 <= i < j < k + 1 ensures p[i] != p[j] {
      if j == k {
        assert p[i] in tour[..k];
      } else {
        assert p[i] == tour[..k][i] && p[j] == tour[..k][j];
      }
    }
  }

  /** With the tour and the flags in agreement, the tour is complete
      exactly when every city is visited, and a complete tour is a
      permutation of the cities. */
  lemma CompleteTour(tour: seq<int>, visited: seq<bool>, k: int)
    ensures Consistent(tour, visited, k) ==>
      (k == |tour| <==> forall c :: 0 <= c < |visited| ==> visited[c]) &&
      (k == |tour| ==> IsPermutation(tour, |tour|))
  {
    if Consistent(tour, visited, k) {
      if k == |tour| {
        assert tour[..k] == tour;
        Pigeonhole(tour, |tour|);
        PermutationFacts(tour, |tour|);
      } else {
        var v := MissingCity(tour[..k], |tour|);
        assert !visited[v];
      }
    }
  }

  /** The unvisited cities below k, in ascending order. */
  function Unvisited(visited: seq<bool>, k: nat): seq<int>
    requires k <= |visited|
  {
    if k == 0 then [] else Unvisited(visited, k - 1) + (if visited[k - 1] then [] else [k - 1])
  }

  /** The list holds exactly the unvisited cities below k, each once and in
      ascending order. */
  lemma {:induction false} UnvisitedFacts(visited: seq<bool>, k: nat)
    requires k <= |visited|
    ensures forall c :: c in Unvisited(visited, k) <==> 0 <= c < k && !visited[c]
    ensures forall i, j :: 0 <= i < j < |Unvisited(visited, k)| ==>
      Unvisited(visited, k)[i] < Unvisited(visited, k)[j]
  {
    if k > 0 {
      var u := Unvisited(visited, k - 1);
      UnvisitedFacts(visited, k - 1);
      assert forall i :: 0 <= i < |u| ==> u[i] in u;
    }
  }

  class Ant {
    var tour: array<int>
    var visited: array<bool>
    var tourIndex: int
    var n: int

    /** Both arrays have one entry per city and the next position lies
        between 0 and n. */
    predicate Valid()
      reads this
    {
      tour.Length == n && visited.Length == n && 0 <= tourIndex <= n
    }

    /** The tour built so far agrees with the visited flags. */
    ghost predicate Built()
      reads this, tour, visited
    {
      Valid() && Consistent(tour[..], visited[..], tourIndex)
    }

    /** NewAnt: arrays of n zeroes and n clear flags, nothing placed yet. */
    constructor (n: int)
      requires n >= 0
      ensures this.n == n && tour[..] == seq(n, _ => 0) && visited[..] == seq(n, _ => false)
      ensures tourIndex == 0 && fresh(tour) && fresh(visited)
      ensures Valid() && Built()
    {
      this.n := n;
      tour := new int[n](_ => 0);
      visited := new bool[n](_ => false);
      tourIndex := 0;
    }

    /** Reset: every flag cleared but the start city's, the start city first
        in the tour, the rest of the tour left as it was, one city placed. */
    method Reset(startCity: int)
      requires Valid() && 0 <= startCity < n
      modifies this, tour, visited
      ensures tour == old(tour) && visited == old(visited) && n == old(n)
      ensures visited[..] == seq(n, c => c == startCity)
      ensures tour[..] == old(tour[..])[0 := startCity] && tourIndex == 1
      ensures Valid() && Built() && CurrentCity() == startCity
    {
      for i := 0 to visited.Length
        invariant tour == old(tour) && visited == old(visited) && n == old(n) && Valid()
        invariant forall c :: 0 <= c < i ==> !visited[c]
        invariant tour[..] == old(tour[..])
      {
        visited[i] := false;
      }
      tour[0] := startCity;
      visited[startCity] := true;
      tourIndex := 1;
      assert visited[..] == seq(n, c => c == startCity);
      StartConsistent(old(tour[..]), startCity);
    }

    /** CurrentCity: the city placed last, or the first entry of the tour
        when nothing is placed; once something is placed it is a visited
        city. */
    function CurrentCity(): (r: int)
      reads this, tour, visited
      requires Valid() && n >= 1
      ensures tourIndex >= 1 ==> r == tour[tourIndex - 1]
      ensures Built() && tourIndex >= 1 ==> 0 <= r < n && visited[r]
    {
      if tourIndex == 0 then tour[0] else tour[tourIndex - 1]
    }

    /** CanVisit: the city is not yet in the tour built so far. */
    predicate CanVisit(city: int)
      reads this, tour, visited
      requires Valid() && 0 <= city < n
      ensures Built() ==> (CanVisit(city) <==> city !in tour[..tourIndex])
    {
      !visited[city]
    }

    /** Visit: the city goes at the next position, its flag is set and the
        position advances; nothing else changes. Visiting a city CanVisit
        allows keeps the tour and the flags in agreement. */
    method Visit(city: int)
      requires Valid() && 0 <= city < n && tourIndex < n
      modifies this, tour, visited
      ensures tour == old(tour) && visited == old(visited) && n == old(n)
      ensures tour[..] == old(tour[..])[old(tourIndex) := city]
      ensures visited[..] == old(visited[..])[city := true]
      ensures tourIndex == old(tourIndex) + 1
      ensures Valid() && CurrentCity() == city
      ensures old(Built()) && old(!visited[city]) ==> Built()
    {
      ghost var t, v := tour[..], visited[..];
      tour[tourIndex] := city;
      visited[city] := true;
      tourIndex := tourIndex + 1;
      if Consistent(t, v, tourIndex - 1) && !v[city] {
        VisitConsistent(t, v, tourIndex - 1, city);
      }
    }

    /** Tour: the tour array's contents; when complete, a permutation of the
        cities. */
    function Tour(): (r: seq<int>)
      reads this, tour, visited
      requires Valid()
      ensures |r| == n
      ensures Built() && tourIndex == n ==> IsPermutation(r, n)
    {
      CompleteTour(tour[..], visited[..], tourIndex);
      tour[..]
    }

    /** TourComplete: the position has reached n; with the tour and the
        flags in agreement, exactly when every city is visited. */
    predicate TourComplete()
      reads this, tour, visited
      requires Valid()
      ensures Built() ==> (TourComplete() <==> forall c :: 0 <= c < n ==> visited[c])
    {
      CompleteTour(tour[..], visited[..], tourIndex);
      tourIndex >= n
    }

    /** UnvisitedCities: the cities whose flag is clear, ascending. */
    method UnvisitedCities() returns (unvisited: seq<int>)
      requires Valid()
      ensures unvisited == Unvisited(visited[..], n)
      ensures forall c :: c in unvisited <==> 0 <= c < n && !visited[c]
      ensures forall i, j :: 0 <= i < j < |unvisited| ==> unvisited[i] < unvisited[j]
    {
      unvisited := [];
      for i := 0 to n
        invariant unvisited == Unvisited(visited[..], i)
      {
        if !visited[i] {
          unvisited := unvisited + [i];
        }
      }
      UnvisitedFacts(visited[..], n);
    }
  }
}
