/** The lower bound of the exact solver (Corte_1/Solucion_Exacta/main.go,
    CalculateLowerBound) and the proof that it never overestimates. */
module LowerBound {
  import opened Tours
  import opened Perms
  import opened Sorting

  /** The distances from city c to every other city below k, in index order. */
  function EdgesFrom(m: Matrix, c: int, k: nat): (e: seq<nat>)
    requires 0 <= c < |m| && |m[c]| == |m| && k <= |m|
    ensures |e| == if c < k then k - 1 else k
    ensures forall o :: 0 <= o < k && o != c ==> e[if o < c then o else o - 1] == m[c][o]
  {
    if k == 0 then []
    else EdgesFrom(m, c, k - 1) + (if k - 1 != c then [m[c][k - 1]] else [])
  }

  function NatKey(x: nat): int { x }

  /** The sum of the two cheapest edges from c to other cities (the first two
      entries of the sorted edge list), or 0 when c has fewer than two others. */
  function TwoCheapest(m: Matrix, c: int): nat {
    if 0 <= c < |m| && |m[c]| == |m| then
      var e := SortBy(EdgesFrom(m, c, |m|), NatKey);
      if |e| >= 2 then e[0] + e[1] else 0
    else 0
  }

  /** The cities below k that are not visited, in ascending order. */
  function UnvisitedUpTo(k: nat, visited: set<int>): seq<int> {
    if k == 0 then [] else UnvisitedUpTo(k - 1, visited) + (if k - 1 !in visited then [k - 1] else [])
  }

  /** The unvisited list holds exactly the unvisited cities below k, ascending. */
  lemma {:induction false} UnvisitedFacts(k: nat, visited: set<int>)
    ensures forall i :: 0 <= i < |UnvisitedUpTo(k, visited)| ==>
      0 <= UnvisitedUpTo(k, visited)[i] < k && UnvisitedUpTo(k, visited)[i] !in visited
    ensures forall v :: 0 <= v < k && v !in visited ==> v in UnvisitedUpTo(k, visited)
    ensures forall i, j :: 0 <= i < j < |UnvisitedUpTo(k, visited)| ==>
      UnvisitedUpTo(k, visited)[i] < UnvisitedUpTo(k, visited)[j]
  {
    if k > 0 {
      UnvisitedFacts(k - 1, visited);
    }
  }

  /** The least f-value over a non-empty list, first minimum kept (strict `<`). */
  function MinOf(s: seq<int>, f: int -> nat): (r: nat)
    requires |s| > 0
    ensures forall i :: 0 <= i < |s| ==> r <= f(s[i])
  {
    if |s| == 1 then f(s[0])
    else
      var r := MinOf(s[..|s| - 1], f);
      assert forall i :: 0 <= i < |s| - 1 ==> s[..|s| - 1][i] == s[i];
      if f(s[|s| - 1]) < r then f(s[|s| - 1]) else r
  }

  /** The minimum is the value of some entry. */
  lemma {:induction false} MinOfAttained(s: seq<int>, f: int -> nat) returns (i: int)
    requires |s| > 0
    ensures 0 <= i < |s| && MinOf(s, f) == f(s[i])
  {
    if |s| == 1 {
      i := 0;
    } else {
      i := MinOfAttained(s[..|s| - 1], f);
      if f(s[|s| - 1]) < MinOf(s[..|s| - 1], f) {
        i := |s| - 1;
      }
    }
  }

  function FromCity(m: Matrix, a: int): int -> nat {
    (v: int) => Edge(m)(a, v)
  }

  function ToCity(m: Matrix, b: int): int -> nat {
    (v: int) => Edge(m)(v, b)
  }

  function TwoCheapestOf(m: Matrix): int -> nat {
    (c: int) => TwoCheapest(m, c)
  }

  /** Twice the optimistic completion estimate: the two cheapest edges of every
      unvisited city, plus the cheapest edge from the last path city into the
      unvisited cities and the cheapest edge from them back to city 0. The two
      connecting terms vanish when nothing is unvisited. */
  function BoundSum(m: Matrix, path: seq<int>, visited: set<int>): nat {
    var us := UnvisitedUpTo(|m|, visited);
    SumOf(us, TwoCheapestOf(m))
      + (if |path| > 0 && |us| > 0
           then MinOf(us, FromCity(m, path[|path| - 1])) + MinOf(us, ToCity(m, 0))
           else 0)
  }

  /** The bound of a search node: its cost so far plus half the estimate. */
  function Bound(m: Matrix, path: seq<int>, visited: set<int>, currentCost: nat): (r: real)
    ensures r >= currentCost as real
  {
    currentCost as real + (BoundSum(m, path, visited) as real) / 2.0
  }

  /** CalculateLowerBound, loop by loop. */
  method CalculateLowerBound(distances: Matrix, path: seq<int>, visited: set<int>, currentCost: nat)
    returns (lb: real)
    requires IsSquare(distances)
    requires InRange(path, |distances|)
    ensures lb == Bound(distances, path, visited, currentCost)
    ensures lb >= currentCost as real
  {
    var n := |distances|;
    var unvisited := UnvisitedScan(n, visited);
    UnvisitedInRange(n, visited);
    var minCostSum := TwoCheapestScan(distances, unvisited);
    var connect := ConnectScan(distances, path, unvisited);
    minCostSum := minCostSum + connect;
    BoundSumParts(distances, path, visited, unvisited);
    lb := currentCost as real + (minCostSum as real / 2.0);
  }

  lemma BoundSumParts(m: Matrix, path: seq<int>, visited: set<int>, us: seq<int>)
    requires us == UnvisitedUpTo(|m|, visited)
    ensures BoundSum(m, path, visited) == SumOf(us, TwoCheapestOf(m))
      + (if |path| > 0 && |us| > 0
           then MinOf(us, FromCity(m, path[|path| - 1])) + MinOf(us, ToCity(m, 0))
           else 0)
  {
  }

  lemma UnvisitedInRange(k: nat, visited: set<int>)
    ensures InRange(UnvisitedUpTo(k, visited), k)
  {
    UnvisitedFacts(k, visited);
  }

  lemma TwoCheapestSorted(m: Matrix, c: int, sorted: seq<nat>)
    requires IsSquare(m) && 0 <= c < |m| && sorted == SortBy(EdgesFrom(m, c, |m|), NatKey)
    ensures TwoCheapestOf(m)(c) == if |sorted| >= 2 then sorted[0] + sorted[1] else 0
  {
  }

  /** The two connecting edges: from the last path city into the unvisited
      cities and from them back to city 0, each the cheapest; none when the
      path or the unvisited list is empty. */
  method ConnectScan(distances: Matrix, path: seq<int>, unvisited: seq<int>) returns (connect: nat)
    ensures connect == if |path| > 0 && |unvisited| > 0
      then MinOf(unvisited, FromCity(distances, path[|path| - 1])) + MinOf(unvisited, ToCity(distances, 0))
      else 0
  {
    connect := 0;
    if |path| > 0 && |unvisited| > 0 {
      var lastCity := path[|path| - 1];
      var minToUnvisited := MinScan(unvisited, FromCity(distances, lastCity));
      connect := connect + minToUnvisited;
      var minToStart := MinScan(unvisited, ToCity(distances, 0));
      connect := connect + minToStart;
    }
  }

  /** The loop adding up the two cheapest edges of every unvisited city. */
  method TwoCheapestScan(distances: Matrix, unvisited: seq<int>) returns (minCostSum: nat)
    requires IsSquare(distances)
    requires InRange(unvisited, |distances|)
    ensures minCostSum == SumOf(unvisited, TwoCheapestOf(distances))
  {
    minCostSum := 0;
    var k := 0;
    while k < |unvisited|
      invariant 0 <= k <= |unvisited|
      invariant minCostSum == SumOf(unvisited[..k], TwoCheapestOf(distances))
    {
      var city := unvisited[k];
      var edges := EdgeScan(distances, city);
      var sorted := SortBy(edges, NatKey);
      if |sorted| >= 2 {
        minCostSum := minCostSum + sorted[0] + sorted[1];
      }
      TwoCheapestSorted(distances, city, sorted);
      SumOfSnoc(unvisited, k, TwoCheapestOf(distances));
      k := k + 1;
    }
    assert unvisited[..k] == unvisited;
  }

  lemma SumOfSnoc<T>(s: seq<T>, k: int, f: T -> nat)
    requires 0 <= k < |s|
    ensures SumOf(s[..k + 1], f) == SumOf(s[..k], f) + f(s[k])
  {
    assert s[..k + 1][..k] == s[..k];
  }

  /** The loop collecting the unvisited cities. */
  method UnvisitedScan(n: nat, visited: set<int>) returns (unvisited: seq<int>)
    ensures unvisited == UnvisitedUpTo(n, visited)
  {
    unvisited := [];
    var i := 0;
    while i < n
      invariant 0 <= i <= n
      invariant unvisited == UnvisitedUpTo(i, visited)
    {
      if i !in visited {
        unvisited := unvisited + [i];
      }
      i := i + 1;
    }
  }

  /** The loop collecting the edges from one unvisited city to all others. */
  method EdgeScan(distances: Matrix, city: int) returns (edges: seq<nat>)
    requires 0 <= city < |distances| && |distances[city]| == |distances|
    ensures edges == EdgesFrom(distances, city, |distances|)
  {
    var n := |distances|;
    edges := [];
    var otherCity := 0;
    while otherCity < n
      invariant 0 <= otherCity <= n
      invariant edges == EdgesFrom(distances, city, otherCity)
    {
      if otherCity != city {
        edges := edges + [distances[city][otherCity]];
      }
      otherCity := otherCity + 1;
    }
  }

  /** The two `minTo...` loops: start from +infinity (here: none yet) and keep
      every strictly smaller value. */
  method MinScan(s: seq<int>, f: int -> nat) returns (r: nat)
    requires |s| > 0
    ensures r == MinOf(s, f)
  {
    var best: int := -1;
    var i := 0;
    while i < |s|
      invariant 0 <= i <= |s|
      invariant i == 0 <==> best == -1
      invariant i > 0 ==> best == MinOf(s[..i], f)
    {
      if best == -1 || f(s[i]) < best {
        best := f(s[i]);
      }
      assert s[..i + 1][..i] == s[..i];
      i := i + 1;
    }
    assert s[..i] == s;
    r := best;
  }

  // ---------------------------------------------------------------------
  // Admissibility

  /** The two smallest entries of a sorted rearrangement of e sum to at most
      any two entries of e at distinct positions. */
  lemma TwoSmallest(e: seq<nat>, r: seq<nat>, ia: int, ib: int)
    requires SortedBy(r, NatKey) && multiset(r) == multiset(e)
    requires 0 <= ia < |e| && 0 <= ib < |e| && ia != ib
    ensures |r| >= 2 && r[0] + r[1] <= e[ia] + e[ib]
  {
    assert |r| == |multiset(r)| == |e|;
    var lo, hi := if e[ia] <= e[ib] then ia else ib, if e[ia] <= e[ib] then ib else ia;
    assert e[lo] <= e[hi] && lo != hi;
    assert e[lo] in multiset(r);
    var kl :| 0 <= kl < |r| && r[kl] == e[lo];
    assert NatKey(r[0]) <= NatKey(r[kl]) || kl == 0;
    // One of e[lo], e[hi] survives in r[1..]: multiset(r) holds both occurrences.
    var a, b := e[lo], e[hi];
    assert multiset(r) == multiset{r[0]} + multiset(r[1..]) by { assert r == [r[0]] + r[1..]; }
    if a == b {
      assert multiset(e)[a] >= 2 by { RepeatCount(e, if lo < hi then lo else hi, if lo < hi then hi else lo); }
      assert a in multiset(r[1..]);
    } else {
      assert b in multiset(r);
      assert a in multiset(r);
      assert a in multiset(r[1..]) || b in multiset(r[1..]);
    }
    var w := if a in multiset(r[1..]) then a else b;
    assert w in r[1..];
    var kw :| 1 <= kw < |r| && r[kw] == w;
    assert NatKey(r[1]) <= NatKey(r[kw]) || kw == 1;
  }

  /** TwoCheapest(c) is at most the cost of any two edges from c to two
      different other cities. */
  lemma TwoCheapestAtMost(m: Matrix, c: int, a: int, b: int)
    requires IsSquare(m)
    requires 0 <= c < |m| && 0 <= a < |m| && 0 <= b < |m|
    requires a != b && a != c && b != c
    ensures TwoCheapest(m, c) <= m[c][a] + m[c][b]
  {
    var e := EdgesFrom(m, c, |m|);
    var ia, ib := if a < c then a else a - 1, if b < c then b else b - 1;
    TwoSmallest(e, SortBy(e, NatKey), ia, ib);
  }

  lemma TwoCheapestFewCities(m: Matrix, c: int)
    requires IsSquare(m) && |m| <= 2
    ensures TwoCheapest(m, c) == 0
  {
  }

  /** The cost of each inner vertex's two path edges: every inner edge is
      counted once from each endpoint. */
  function NeighbourSum(d: (int, int) -> nat, p: seq<int>): nat
    decreases |p|
  {
    if |p| <= 2 then 0
    else NeighbourSum(d, p[..|p| - 1]) + d(p[|p| - 2], p[|p| - 3]) + d(p[|p| - 2], p[|p| - 1])
  }

  lemma {:induction false} NeighbourSumDouble(d: (int, int) -> nat, p: seq<int>)
    requires Symmetric(d) && |p| >= 2
    ensures NeighbourSum(d, p) + d(p[0], p[1]) + d(p[|p| - 2], p[|p| - 1]) == 2 * PathCost(d, p)
  {
    if |p| > 2 {
      var q := p[..|p| - 1];
      NeighbourSumDouble(d, q);
      assert p == q + [p[|p| - 1]];
      PathCostSnoc(d, q, p[|p| - 1]);
      assert q[|q| - 2] == p[|p| - 3] && q[|q| - 1] == p[|p| - 2];
      assert q[0] == p[0] && q[1] == p[1];
      assert d(p[|p| - 3], p[|p| - 2]) == d(p[|p| - 2], p[|p| - 3]);
    } else {
      assert PathCost(d, p) == EdgeSum(d, p, 0) + d(p[0], p[1]);
    }
  }

  /** The inner vertex p[j] and its two path neighbours are three different cities. */
  predicate InnerDistinct(p: seq<int>, j: int)
    requires 1 <= j < |p| - 1
  {
    p[j - 1] != p[j + 1] && p[j - 1] != p[j] && p[j + 1] != p[j]
  }

  lemma {:induction false} UnvisitedNone(k: nat, visited: set<int>)
    requires forall v :: 0 <= v < k ==> v in visited
    ensures UnvisitedUpTo(k, visited) == []
  {
    if k > 0 {
      UnvisitedNone(k - 1, visited);
    }
  }

  lemma InnerSnoc(p: seq<int>)
    requires |p| > 2
    ensures p[1..|p| - 1] == p[..|p| - 1][1..|p| - 2] + [p[|p| - 2]]
  {
  }

  /** The last inner vertex of p: its TwoCheapest term joins the sum and its
      two path edges join NeighbourSum, and the first is at most the second. */
  lemma InnerStep(m: Matrix, p: seq<int>)
    requires IsSquare(m) && |p| > 2 && InRange(p, |m|)
    requires |m| >= 3 ==> InnerDistinct(p, |p| - 2)
    ensures var q, j, f := p[..|p| - 1], |p| - 2, TwoCheapestOf(m);
      SumOf(p[1..|p| - 1], f) == SumOf(q[1..|q| - 1], f) + f(p[j]) &&
      NeighbourSum(Edge(m), p) == NeighbourSum(Edge(m), q) + Edge(m)(p[j], p[j - 1]) + Edge(m)(p[j], p[j + 1]) &&
      f(p[j]) <= Edge(m)(p[j], p[j - 1]) + Edge(m)(p[j], p[j + 1])
  {
    var q, j := p[..|p| - 1], |p| - 2;
    InnerSnoc(p);
    SumOfPush(q[1..|q| - 1], p[j], TwoCheapestOf(m));
    if |m| >= 3 {
      TwoCheapestAtMost(m, p[j], p[j - 1], p[j + 1]);
    } else {
      TwoCheapestFewCities(m, p[j]);
    }
  }

  /** Comparing the inner vertices' TwoCheapest terms with their two path edges. */
  lemma {:induction false} InnerTwoCheapest(m: Matrix, p: seq<int>)
    requires IsSquare(m) && |p| >= 2 && InRange(p, |m|)
    requires |m| >= 3 ==> forall j :: 1 <= j < |p| - 1 ==> InnerDistinct(p, j)
    ensures SumOf(p[1..|p| - 1], TwoCheapestOf(m)) <= NeighbourSum(Edge(m), p)
  {
    if |p| > 2 {
      var q := p[..|p| - 1];
      forall j | 1 <= j < |q| - 1 && |m| >= 3 ensures InnerDistinct(q, j) {
        assert InnerDistinct(p, j);
      }
      InnerTwoCheapest(m, q);
      if |m| >= 3 {
        assert InnerDistinct(p, |p| - 2);
      }
      InnerStep(m, p);
    } else {
      assert p[1..|p| - 1] == [];
    }
  }

  /** Two duplicate-free lists with the same members have the same multiset. */
  lemma SameMembersSameMultiset(a: seq<int>, b: seq<int>)
    requires Distinct(a) && Distinct(b)
    requires forall v :: v in a <==> v in b
    ensures multiset(a) == multiset(b)
  {
    forall v ensures multiset(a)[v] == multiset(b)[v] {
      DistinctCount(a, v);
      DistinctCount(b, v);
    }
  }

  ghost predicate IsTour0(t: seq<int>, n: nat) {
    n >= 1 && |t| == n && t[0] == 0 && IsPermutation(t, n)
  }

  function VisitedOf(path: seq<int>): set<int> {
    set x | x in path
  }

  /** The completion of the prefix t[..k]: from its last city through the rest
      of the tour and back to city 0. */
  function Completion(t: seq<int>, k: int): seq<int>
    requires 1 <= k <= |t|
  {
    (t + [0])[k - 1..]
  }

  lemma CompletionFacts(t: seq<int>, k: int, n: nat)
    requires IsTour0(t, n) && 1 <= k < n
    ensures var p := Completion(t, k);
      |p| == n - k + 2 && p[1..|p| - 1] == t[k..] && InRange(p, n)
      && p[0] == t[k - 1] && p[1] == t[k] && p[|p| - 2] == t[n - 1] && p[|p| - 1] == 0
      && (n >= 3 ==> forall j :: 1 <= j < |p| - 1 ==> InnerDistinct(p, j))
  {
    PermutationFacts(t, n);
    var p := Completion(t, k);
    assert forall j :: 0 <= j < |p| ==> p[j] == if k - 1 + j < n then t[k - 1 + j] else 0;
    forall j | 1 <= j < |p| - 1 && n >= 3
      ensures InnerDistinct(p, j)
    {
      assert p[j - 1] == t[k - 2 + j] && p[j] == t[k - 1 + j];
      if k + j < n {
        assert p[j + 1] == t[k + j];
      } else {
        assert p[j + 1] == t[0];
      }
    }
  }

  /** The cities left unvisited by the prefix t[..k] are those of t[k..]. */
  lemma UnvisitedIsTail(t: seq<int>, k: int, n: nat)
    requires IsTour0(t, n) && 1 <= k < n
    ensures multiset(UnvisitedUpTo(n, VisitedOf(t[..k]))) == multiset(t[k..])
    ensures t[k] in UnvisitedUpTo(n, VisitedOf(t[..k])) && t[n - 1] in UnvisitedUpTo(n, VisitedOf(t[..k]))
  {
    PermutationFacts(t, n);
    var path := t[..k];
    var us := UnvisitedUpTo(n, VisitedOf(path));
    UnvisitedFacts(n, VisitedOf(path));
    var tail := t[k..];
    forall v ensures v in us <==> v in tail {
      if v in tail {
        var i :| k <= i < n && t[i] == v;
        assert forall j :: 0 <= j < k ==> path[j] != v;
      }
      if v in us {
        assert 0 <= v < n && v !in path;
        assert v in t;
        assert forall j :: 0 <= j < k ==> t[j] == path[j];
        var i :| k <= i < n && t[i] == v;
        assert t[k..][i - k] == v;
      }
    }
    assert Distinct(tail);
    SameMembersSameMultiset(us, tail);
    assert t[k] in tail && t[n - 1] in tail;
  }

  /** The estimate is at most twice the completion's cost. */
  lemma BoundSumAtMost(m: Matrix, t: seq<int>, k: int)
    requires IsSquare(m) && SymmetricMatrix(m)
    requires IsTour0(t, |m|) && 1 <= k < |m|
    ensures BoundSum(m, t[..k], VisitedOf(t[..k])) <= 2 * PathCost(Edge(m), Completion(t, k))
  {
    var n := |m|;
    var d := Edge(m);
    EdgeSymmetric(m);
    var path := t[..k];
    var us := UnvisitedUpTo(n, VisitedOf(path));
    var p := Completion(t, k);
    UnvisitedIsTail(t, k, n);
    CompletionFacts(t, k, n);
    SumOfPermutation(us, t[k..], TwoCheapestOf(m));
    InnerTwoCheapest(m, p);
    NeighbourSumDouble(d, p);
    var i1 :| 0 <= i1 < |us| && us[i1] == t[k];
    var i2 :| 0 <= i2 < |us| && us[i2] == t[n - 1];
    assert MinOf(us, FromCity(m, path[k - 1])) <= FromCity(m, path[k - 1])(us[i1]);
    assert MinOf(us, ToCity(m, 0)) <= ToCity(m, 0)(us[i2]);
  }

  lemma ClosePrefix(t: seq<int>, k: int)
    requires 0 <= k <= |t|
    ensures (t + [0])[..k] == t[..k]
  {
  }

  /** Admissibility: the bound of any prefix of a tour starting at city 0 is at
      most the closed cost of that tour (symmetric distances). */
  lemma BoundAdmissible(m: Matrix, t: seq<int>, k: int)
    requires IsSquare(m) && SymmetricMatrix(m)
    requires IsTour0(t, |m|) && 1 <= k <= |m|
    ensures Bound(m, t[..k], VisitedOf(t[..k]), PathCost(Edge(m), t[..k])) <= CycleCost(Edge(m), t) as real
  {
    var n := |m|;
    var d := Edge(m);
    var path := t[..k];
    PathCostSnoc(d, t, 0);
    assert CycleCost(d, t) == PathCost(d, t + [0]);
    if k == n {
      PermutationFacts(t, n);
      assert path == t;
      forall v | 0 <= v < n ensures v in VisitedOf(path) {
        assert v in t;
      }
      UnvisitedNone(n, VisitedOf(path));
      PathCostPrefix(d, t + [0], n);
      ClosePrefix(t, n);
    } else {
      BoundSumAtMost(m, t, k);
      PathCostSplit(d, t + [0], k);
      ClosePrefix(t, k);
    }
  }
}
