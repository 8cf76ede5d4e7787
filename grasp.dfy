/** The greedy randomized construction of GRASP
    (Corte_2/GRASP/grasp/construction.go): at each step the unvisited cities
    are ranked by distance from the last city of the tour, the restricted
    candidate list (RCL) keeps those within alpha of the nearest, and a
    linear-rank biased draw picks one of them.

    The distance is the abstract `d` of the Cities module and the sentinels
    1e18 and -1e18 for the nearest and farthest distance are None; each
    `rand.Intn` is a draw of the Random module's stream. */
module Grasp {
  import opened Options
  import opened Sorting
  import opened Random
  import opened Cities

  /** A city with its distance from the last city and its position in the
      unvisited list. */
  datatype Candidate = Candidate(city: City, dist: nat, index: int)

  function DistKey(c: Candidate): int {
    c.dist
  }

  /** The candidates before sorting, one per unvisited city, in order. */
  function Candidates(d: (City, City) -> nat, last: City, unvisited: seq<City>): (r: seq<Candidate>)
    ensures |r| == |unvisited|
    ensures forall i :: 0 <= i < |r| ==> r[i] == Candidate(unvisited[i], d(last, unvisited[i]), i)
  {
    seq(|unvisited|, i requires 0 <= i < |unvisited| => Candidate(unvisited[i], d(last, unvisited[i]), i))
  }

  /** The least distance among c[..k]. */
  function MinDist(c: seq<Candidate>, k: nat): (r: nat)
    requires 1 <= k <= |c|
    ensures forall q :: 0 <= q < k ==> r <= c[q].dist
  {
    if k == 1 then c[0].dist
    else
      var m := MinDist(c, k - 1);
      if c[k - 1].dist < m then c[k - 1].dist else m
  }

  /** The greatest distance among c[..k]. */
  function MaxDist(c: seq<Candidate>, k: nat): (r: nat)
    requires 1 <= k <= |c|
    ensures forall q :: 0 <= q < k ==> c[q].dist <= r
  {
    if k == 1 then c[0].dist
    else
      var m := MaxDist(c, k - 1);
      if c[k - 1].dist > m then c[k - 1].dist else m
  }

  /** The least and the greatest distance are distances of candidates. */
  lemma {:induction false} DistAttained(c: seq<Candidate>, k: nat)
    requires 1 <= k <= |c|
    ensures exists q :: 0 <= q < k && c[q].dist == MinDist(c, k)
    ensures exists q :: 0 <= q < k && c[q].dist == MaxDist(c, k)
  {
    if k == 1 {
      assert c[0].dist == MinDist(c, k) && c[0].dist == MaxDist(c, k);
    } else {
      DistAttained(c, k - 1);
      var q1 :| 0 <= q1 < k - 1 && c[q1].dist == MinDist(c, k - 1);
      var q2 :| 0 <= q2 < k - 1 && c[q2].dist == MaxDist(c, k - 1);
      var lo := if c[k - 1].dist < MinDist(c, k - 1) then k - 1 else q1;
      var hi := if c[k - 1].dist > MaxDist(c, k - 1) then k - 1 else q2;
      assert c[lo].dist == MinDist(c, k) && c[hi].dist == MaxDist(c, k);
    }
  }

  /** minDist + alpha * (maxDist - minDist). */
  function ThresholdOf(minDist: nat, maxDist: nat, alpha: real): real {
    minDist as real + alpha * ((maxDist - minDist) as real)
  }

  /** The threshold of the candidates' nearest and farthest distance. */
  function Threshold(c: seq<Candidate>, alpha: real): real
    requires |c| >= 1
  {
    ThresholdOf(MinDist(c, |c|), MaxDist(c, |c|), alpha)
  }

  /** rcl is the longest prefix of sorted whose distances are within the
      threshold. */
  predicate IsRCL(rcl: seq<Candidate>, sorted: seq<Candidate>, threshold: real) {
    |rcl| <= |sorted| && rcl == sorted[..|rcl|] &&
    (forall k :: 0 <= k < |rcl| ==> rcl[k].dist as real <= threshold) &&
    (|rcl| < |sorted| ==> sorted[|rcl|].dist as real > threshold)
  }

  /** The RCL of a sorted candidate list: its longest prefix within the
      threshold. */
  function RCLOf(sorted: seq<Candidate>, threshold: real): (r: seq<Candidate>)
    ensures IsRCL(r, sorted, threshold)
    decreases |sorted|
  {
    if |sorted| == 0 || sorted[0].dist as real > threshold then []
    else
      var rest := RCLOf(sorted[1..], threshold);
      assert sorted[..|rest| + 1] == [sorted[0]] + sorted[1..][..|rest|];
      [sorted[0]] + rest
  }

  /** A sorted list has one RCL for a given threshold. */
  lemma RCLUnique(a: seq<Candidate>, b: seq<Candidate>, sorted: seq<Candidate>, threshold: real)
    requires IsRCL(a, sorted, threshold) && IsRCL(b, sorted, threshold)
    ensures a == b
  {
  }

  /** A sorted rearrangement of the candidates holds unvisited cities with
      their distances from last. */
  lemma SortedCandidates(d: (City, City) -> nat, last: City, unvisited: seq<City>, sorted: seq<Candidate>)
    requires multiset(sorted) == multiset(Candidates(d, last, unvisited))
    ensures forall k :: 0 <= k < |sorted| ==> sorted[k].city in unvisited && sorted[k].dist == d(last, sorted[k].city)
  {
    var cands := Candidates(d, last, unvisited);
    forall k | 0 <= k < |sorted| ensures sorted[k].city in unvisited && sorted[k].dist == d(last, sorted[k].city) {
      assert sorted[k] in multiset(cands);
      var i :| 0 <= i < |cands| && cands[i] == sorted[k];
    }
  }

  /** The candidate loop of buildRCL: every unvisited city with its distance,
      and the nearest and farthest distance. */
  method FillCandidates(d: (City, City) -> nat, last: City, unvisited: seq<City>)
    returns (candidates: array<Candidate>, minDist: nat, maxDist: nat)
    requires |unvisited| >= 1
    ensures fresh(candidates) && candidates[..] == Candidates(d, last, unvisited)
    ensures minDist == MinDist(candidates[..], |unvisited|) && maxDist == MaxDist(candidates[..], |unvisited|)
  {
    var n := |unvisited|;
    ghost var cands := Candidates(d, last, unvisited);
    candidates := new Candidate[n];
    var lo: Option<nat>, hi: Option<nat> := None, None;
    for i := 0 to n
      invariant forall k :: 0 <= k < i ==> candidates[k] == cands[k]
      invariant i == 0 ==> lo.None? && hi.None?
      invariant i > 0 ==> lo == Some(MinDist(cands, i)) && hi == Some(MaxDist(cands, i))
    {
      var dd := d(last, unvisited[i]);
      candidates[i] := Candidate(unvisited[i], dd, i);
      assert cands[i].dist == dd;
      DistNext(cands, i);
      if lo.None? || dd < lo.value {
        lo := Some(dd);
      }
      if hi.None? || dd > hi.value {
        hi := Some(dd);
      }
    }
    assert candidates[..] == cands;
    minDist, maxDist := lo.value, hi.value;
  }

  /** How the nearest and farthest distance change when c[i] is looked at. */
  lemma DistNext(c: seq<Candidate>, i: nat)
    requires i < |c|
    ensures i == 0 ==> MinDist(c, 1) == c[0].dist && MaxDist(c, 1) == c[0].dist
    ensures i > 0 ==> MinDist(c, i + 1) == (if c[i].dist < MinDist(c, i) then c[i].dist else MinDist(c, i))
    ensures i > 0 ==> MaxDist(c, i + 1) == (if c[i].dist > MaxDist(c, i) then c[i].dist else MaxDist(c, i))
  {
  }

  /** The RCL loop of buildRCL: take sorted candidates while they are within
      the threshold. */
  method TakeWithin(sorted: seq<Candidate>, threshold: real) returns (rcl: seq<Candidate>)
    ensures rcl == RCLOf(sorted, threshold)
  {
    rcl := [];
    var k := 0;
    while k < |sorted|
      invariant 0 <= k <= |sorted| && rcl == sorted[..k]
      invariant forall q :: 0 <= q < k ==> sorted[q].dist as real <= threshold
    {
      if sorted[k].dist as real <= threshold {
        rcl := rcl + [sorted[k]];
        k := k + 1;
      } else {
        break;
      }
    }
    RCLUnique(rcl, RCLOf(sorted, threshold), sorted, threshold);
  }

  /** The RCL for the step from last: nothing for no unvisited city,
      otherwise the RCL of the candidates sorted by distance. */
  function GraspRCL(d: (City, City) -> nat, last: City, unvisited: seq<City>, alpha: real): seq<Candidate> {
    if |unvisited| == 0 then []
    else
      var cands := Candidates(d, last, unvisited);
      RCLOf(SortBy(cands, DistKey), Threshold(cands, alpha))
  }

  /** buildRCL: no unvisited city gives the empty list; otherwise the RCL of
      the candidates sorted by distance, holding exactly the candidates
      within the threshold. */
  method BuildRCL(d: (City, City) -> nat, last: City, unvisited: seq<City>, alpha: real) returns (rcl: seq<Candidate>)
    ensures |unvisited| == 0 ==> rcl == []
    ensures |unvisited| > 0 ==>
      IsRCL(rcl, SortBy(Candidates(d, last, unvisited), DistKey), Threshold(Candidates(d, last, unvisited), alpha))
    ensures |unvisited| > 0 ==> forall c :: c in rcl <==>
      c in Candidates(d, last, unvisited) && c.dist as real <= Threshold(Candidates(d, last, unvisited), alpha)
    ensures rcl == GraspRCL(d, last, unvisited, alpha)
    ensures forall k :: 0 <= k < |rcl| ==> rcl[k].city in unvisited && rcl[k].dist == d(last, rcl[k].city)
  {
    if |unvisited| == 0 {
      return [];
    }
    var candidates, minDist, maxDist := FillCandidates(d, last, unvisited);
    var sorted := SortBy(candidates[..], DistKey);
    var threshold := ThresholdOf(minDist, maxDist, alpha);
    SortedCandidates(d, last, unvisited, sorted);
    rcl := TakeWithin(sorted, threshold);
    RCLMembers(candidates[..], sorted, rcl, threshold);
  }

  /** Whatever order a sort gives equal distances, the RCL holds exactly
      the candidates within the threshold. */
  lemma RCLMembers(cands: seq<Candidate>, sorted: seq<Candidate>, rcl: seq<Candidate>, threshold: real)
    requires SortedBy(sorted, DistKey) && multiset(sorted) == multiset(cands)
    requires IsRCL(rcl, sorted, threshold)
    ensures forall c :: c in rcl <==> c in cands && c.dist as real <= threshold
  {
    BeyondRCL(rcl, sorted, threshold);
    forall c ensures c in rcl <==> c in cands && c.dist as real <= threshold {
      if c in rcl {
        var k :| 0 <= k < |rcl| && rcl[k] == c;
        assert c == sorted[k] && c in multiset(sorted);
      }
      if c in cands && c.dist as real <= threshold {
        assert c in multiset(sorted);
        var k :| 0 <= k < |sorted| && sorted[k] == c;
        assert k < |rcl|;
        assert rcl[k] == c;
      }
    }
  }

  /** Every sorted candidate lies between the nearest and the farthest
      distance, and the first one is a nearest. */
  lemma SortedBounds(cands: seq<Candidate>, sorted: seq<Candidate>)
    requires |cands| >= 1 && SortedBy(sorted, DistKey) && multiset(sorted) == multiset(cands)
    ensures |sorted| == |cands|
    ensures forall k :: 0 <= k < |sorted| ==> MinDist(cands, |cands|) <= sorted[k].dist <= MaxDist(cands, |cands|)
    ensures sorted[0].dist == MinDist(cands, |cands|)
  {
    var n := |cands|;
    var lo, hi := MinDist(cands, n), MaxDist(cands, n);
    assert |sorted| == n by {
      assert |multiset(sorted)| == |multiset(cands)|;
    }
    forall k | 0 <= k < n ensures lo <= sorted[k].dist <= hi {
      assert sorted[k] in multiset(cands);
      var i :| 0 <= i < n && cands[i] == sorted[k];
    }
    DistAttained(cands, n);
    var q :| 0 <= q < n && cands[q].dist == lo;
    assert cands[q] in multiset(sorted);
    var p :| 0 <= p < n && sorted[p] == cands[q];
    if p > 0 {
      assert DistKey(sorted[0]) <= DistKey(sorted[p]);
    }
  }

  /** For alpha >= 0 the RCL is non-empty and starts with a nearest
      candidate, whatever order a sort gives equal distances. */
  lemma RCLNearest(cands: seq<Candidate>, sorted: seq<Candidate>, rcl: seq<Candidate>, alpha: real)
    requires |cands| >= 1 && SortedBy(sorted, DistKey) && multiset(sorted) == multiset(cands)
    requires IsRCL(rcl, sorted, Threshold(cands, alpha)) && alpha >= 0.0
    ensures |rcl| >= 1 && rcl[0].dist == MinDist(cands, |cands|)
  {
    SortedBounds(cands, sorted);
    var lo, hi := MinDist(cands, |cands|), MaxDist(cands, |cands|);
    ProductNonNegative(alpha, (hi - lo) as real);
    assert sorted[0].dist as real <= ThresholdOf(lo, hi, alpha);
    BeyondRCL(rcl, sorted, Threshold(cands, alpha));
    assert rcl[0] == sorted[0];
  }

  lemma ProductNonNegative(a: real, b: real)
    requires a >= 0.0 && b >= 0.0
    ensures a * b >= 0.0
  {
  }

  /** Past the RCL every sorted candidate is beyond the threshold. */
  lemma BeyondRCL(rcl: seq<Candidate>, sorted: seq<Candidate>, threshold: real)
    requires SortedBy(sorted, DistKey) && IsRCL(rcl, sorted, threshold)
    ensures forall j :: |rcl| <= j < |sorted| ==> sorted[j].dist as real > threshold
  {
    forall j | |rcl| <= j < |sorted| ensures sorted[j].dist as real > threshold {
      if j > |rcl| {
        assert DistKey(sorted[|rcl|]) <= DistKey(sorted[j]);
      }
    }
  }

  /** For alpha = 0 the RCL holds exactly the nearest candidates. */
  lemma RCLGreedy(cands: seq<Candidate>, sorted: seq<Candidate>, rcl: seq<Candidate>)
    requires |cands| >= 1 && SortedBy(sorted, DistKey) && multiset(sorted) == multiset(cands)
    requires IsRCL(rcl, sorted, Threshold(cands, 0.0))
    ensures forall c :: c in rcl <==> c in cands && c.dist == MinDist(cands, |cands|)
  {
    SortedBounds(cands, sorted);
    var n, lo := |cands|, MinDist(cands, |cands|);
    assert Threshold(cands, 0.0) == ThresholdOf(lo, MaxDist(cands, n), 0.0) == lo as real;
    BeyondRCL(rcl, sorted, lo as real);
    forall c ensures c in rcl <==> c in cands && c.dist == lo {
      if c in rcl {
        var k :| 0 <= k < |rcl| && rcl[k] == c;
        assert c == sorted[k] && c in multiset(sorted);
      }
      if c in cands && c.dist == lo {
        assert c in multiset(sorted);
        var k :| 0 <= k < n && sorted[k] == c;
        assert k < |rcl|;
        assert rcl[k] == c;
      }
    }
  }

  /** For alpha = 1 the RCL is every candidate. */
  lemma RCLRandom(cands: seq<Candidate>, sorted: seq<Candidate>, rcl: seq<Candidate>)
    requires |cands| >= 1 && SortedBy(sorted, DistKey) && multiset(sorted) == multiset(cands)
    requires IsRCL(rcl, sorted, Threshold(cands, 1.0))
    ensures rcl == sorted
  {
    SortedBounds(cands, sorted);
    var lo, hi := MinDist(cands, |cands|), MaxDist(cands, |cands|);
    assert Threshold(cands, 1.0) == ThresholdOf(lo, hi, 1.0) == hi as real;
    BeyondRCL(rcl, sorted, hi as real);
    assert |rcl| == |sorted|;
  }

  /** The total weight of ranks 0..i of an RCL of n: n + (n-1) + ... + (n-i). */
  function Cum(n: int, i: int): int
    decreases i
  {
    if i < 0 then 0 else Cum(n, i - 1) + (n - i)
  }

  lemma {:induction false} CumClosed(n: int, i: int)
    requires i >= -1
    ensures 2 * Cum(n, i) == (i + 1) * (2 * n - i)
    decreases i
  {
    if i >= 0 {
      CumClosed(n, i - 1);
    }
  }

  /** The weights of all n ranks add up to the n(n+1)/2 that the draw is
      taken below. */
  lemma CumTotal(n: nat)
    ensures Cum(n, n - 1) == n * (n + 1) / 2
  {
    CumClosed(n, n - 1);
  }

  lemma {:induction false} CumIncreasing(n: int, i: int, j: int)
    requires -1 <= i < j < n
    ensures Cum(n, i) < Cum(n, j)
    decreases j
  {
    if i < j - 1 {
      CumIncreasing(n, i, j - 1);
    }
  }

  /** The draw r (from 1) lands on rank i: the weights before i fall short of
      r and those up to i reach it. */
  predicate LandsOn(n: int, r: int, i: int) {
    0 <= i < n && Cum(n, i - 1) < r <= Cum(n, i)
  }

  /** Every draw in 1..n(n+1)/2 lands on exactly one rank, the least whose
      cumulative weight reaches it, so chooseWithBias never falls through
      its loop. Rank i takes the n - i draws after Cum(n, i-1): a linear
      rank bias. */
  lemma LandsOnExactlyOne(n: nat, r: int)
    requires n >= 1 && 1 <= r <= n * (n + 1) / 2
    ensures exists i :: LandsOn(n, r, i)
    ensures forall i, j :: LandsOn(n, r, i) && LandsOn(n, r, j) ==> i == j
    ensures forall i :: LandsOn(n, r, i) ==> forall k :: -1 <= k < i ==> Cum(n, k) < r
    ensures forall i :: 0 <= i < n ==> Cum(n, i) - Cum(n, i - 1) == n - i
  {
    CumTotal(n);
    var i := 0;
    while Cum(n, i) < r
      invariant 0 <= i < n && Cum(n, i - 1) < r
      decreases n - i
    {
      if i == n - 1 {
        assert false;
      }
      i := i + 1;
    }
    assert LandsOn(n, r, i);
    forall i, j | LandsOn(n, r, i) && LandsOn(n, r, j) ensures i == j {
      if i < j {
        CumIncreasing(n, i, j - 1);
      } else if j < i {
        CumIncreasing(n, j, i - 1);
      }
    }
    forall i, k | LandsOn(n, r, i) && -1 <= k < i ensures Cum(n, k) < r {
      if k < i - 1 {
        CumIncreasing(n, k, i - 1);
      }
    }
  }

  /** chooseWithBias: a one-entry RCL gives its entry without a draw;
      otherwise one draw r in 1..n(n+1)/2 picks the rank it lands on. */
  method ChooseWithBias(rcl: seq<Candidate>, src: Source, t: nat) returns (selected: Candidate, t': nat)
    requires |rcl| >= 1
    ensures |rcl| == 1 ==> selected == rcl[0] && t' == t
    ensures |rcl| > 1 ==> (t' == t + 1 &&
      exists i :: LandsOn(|rcl|, Intn(src, t, |rcl| * (|rcl| + 1) / 2) + 1, i) && selected == rcl[i])
  {
    var n := |rcl|;
    if n == 1 {
      return rcl[0], t;
    }
    var sumWeights := n * (n + 1) / 2;
    CumTotal(n);
    var r := Intn(src, t, sumWeights) + 1;
    t' := t + 1;
    var currentSum := 0;
    var i := 0;
    while i < n
      invariant 0 <= i <= n && currentSum == Cum(n, i - 1) && r > currentSum
    {
      currentSum := currentSum + (n - i);
      if r <= currentSum {
        return rcl[i], t';
      }
      i := i + 1;
    }
    // the weights add up to sumWeights, so the loop has returned
    assert false;
  }

  /** rcl[i] is what chooseWithBias returns for an RCL of n reading the
      stream from t, leaving it at t'. */
  predicate Picks(n: int, src: Source, t: nat, t': nat, i: int) {
    (n == 1 && i == 0 && t' == t) ||
    (n > 1 && t' == t + 1 && LandsOn(n, Intn(src, t, n * (n + 1) / 2) + 1, i))
  }

  /** x is within the RCL threshold for the step from last over pending. */
  predicate Within(d: (City, City) -> nat, last: City, x: City, pending: seq<City>, alpha: real) {
    |pending| >= 1 && d(last, x) as real <= Threshold(Candidates(d, last, pending), alpha)
  }

  /** The nearest and farthest distance depend only on which cities are
      pending, not on their order. */
  lemma ExtremesSameCities(d: (City, City) -> nat, last: City, p1: seq<City>, p2: seq<City>)
    requires |p1| >= 1 && forall c :: c in p1 <==> c in p2
    ensures |p2| >= 1
    ensures MinDist(Candidates(d, last, p1), |p1|) == MinDist(Candidates(d, last, p2), |p2|)
    ensures MaxDist(Candidates(d, last, p1), |p1|) == MaxDist(Candidates(d, last, p2), |p2|)
  {
    assert p1[0] in p2;
    var c1, c2 := Candidates(d, last, p1), Candidates(d, last, p2);
    DistAttained(c1, |p1|);
    DistAttained(c2, |p2|);
    var lo1 :| 0 <= lo1 < |p1| && c1[lo1].dist == MinDist(c1, |p1|);
    var hi1 :| 0 <= hi1 < |p1| && c1[hi1].dist == MaxDist(c1, |p1|);
    var lo2 :| 0 <= lo2 < |p2| && c2[lo2].dist == MinDist(c2, |p2|);
    var hi2 :| 0 <= hi2 < |p2| && c2[hi2].dist == MaxDist(c2, |p2|);
    assert p1[lo1] in p2 && p1[hi1] in p2 && p2[lo2] in p1 && p2[hi2] in p1;
    var a :| 0 <= a < |p2| && p2[a] == p1[lo1];
    var b :| 0 <= b < |p2| && p2[b] == p1[hi1];
    var e :| 0 <= e < |p1| && p1[e] == p2[lo2];
    var f :| 0 <= f < |p1| && p1[f] == p2[hi2];
    assert c2[a].dist == c1[lo1].dist && c2[b].dist == c1[hi1].dist;
    assert c1[e].dist == c2[lo2].dist && c1[f].dist == c2[hi2].dist;
  }

  lemma WithinSameCities(d: (City, City) -> nat, last: City, x: City, p1: seq<City>, p2: seq<City>, alpha: real)
    requires Within(d, last, x, p1, alpha) && forall c :: c in p1 <==> c in p2
    ensures Within(d, last, x, p2, alpha)
  {
    ExtremesSameCities(d, last, p1, p2);
  }

  lemma SnocLast(tour: seq<City>, tour': seq<City>)
    requires |tour'| == |tour| + 1 && tour'[..|tour|] == tour
    ensures tour' == tour + [tour'[|tour|]]
  {
    assert tour' == tour'[..|tour|] + [tour'[|tour|]];
  }

  /** Every city after the first was, when chosen, within the threshold
      over the cities then pending: those after it in the tour and those
      still unvisited. */
  predicate ChosenWithin(d: (City, City) -> nat, tour: seq<City>, unvisited: seq<City>, alpha: real) {
    forall k :: 1 <= k < |tour| ==> Within(d, tour[k - 1], tour[k], tour[k..] + unvisited, alpha)
  }

  /** Once no city is pending, each choice was within the threshold over
      the rest of the tour. */
  lemma ChosenDone(d: (City, City) -> nat, tour: seq<City>, alpha: real)
    requires ChosenWithin(d, tour, [], alpha)
    ensures forall k :: 1 <= k < |tour| ==> Within(d, tour[k - 1], tour[k], tour[k..], alpha)
  {
    assert forall k :: 1 <= k < |tour| ==> tour[k..] + [] == tour[k..];
  }

  /** Appending x, taken from the pending cities, to the tour keeps every
      earlier choice within its threshold over the cities that were then
      pending, and adds the choice of x. */
  lemma WithinStep(d: (City, City) -> nat, tour: seq<City>, unvisited: seq<City>, x: City,
                   unvisited': seq<City>, alpha: real)
    requires |tour| >= 1 && x in unvisited
    requires forall c :: c in unvisited' <==> c in unvisited && c != x
    requires ChosenWithin(d, tour, unvisited, alpha)
    requires Within(d, tour[|tour| - 1], x, unvisited, alpha)
    ensures ChosenWithin(d, tour + [x], unvisited', alpha)
  {
    var tour' := tour + [x];
    forall k | 1 <= k < |tour'| ensures Within(d, tour'[k - 1], tour'[k], tour'[k..] + unvisited', alpha) {
      if k < |tour| {
        assert tour'[k..] == tour[k..] + [x];
        WithinSameCities(d, tour[k - 1], tour[k], tour[k..] + unvisited, tour'[k..] + unvisited', alpha);
      } else {
        assert tour'[k..] == [x] && tour'[k - 1] == tour[|tour| - 1];
        WithinSameCities(d, tour[|tour| - 1], x, unvisited, tour'[k..] + unvisited', alpha);
      }
    }
  }

  /** No two cities share an ID. */
  predicate DistinctIds(s: seq<City>) {
    forall i, j :: 0 <= i < j < |s| ==> s[i].id != s[j].id
  }

  function RemoveAt(s: seq<City>, k: int): seq<City>
    requires 0 <= k < |s|
  {
    s[..k] + s[k + 1..]
  }

  /** Removing one entry drops one copy of it and keeps IDs distinct. */
  lemma RemoveAtFacts(s: seq<City>, k: int)
    requires 0 <= k < |s|
    ensures |RemoveAt(s, k)| == |s| - 1
    ensures multiset(RemoveAt(s, k)) == multiset(s) - multiset{s[k]}
    ensures forall c :: c in RemoveAt(s, k) ==> c in s
    ensures DistinctIds(s) ==> DistinctIds(RemoveAt(s, k))
    ensures DistinctIds(s) ==> forall c :: c in RemoveAt(s, k) <==> c in s && c != s[k]
  {
    assert s == s[..k] + [s[k]] + s[k + 1..];
    RemoveAtAt(s, k);
    if DistinctIds(s) {
      RemoveAtDistinct(s, k);
      RemoveAtMembers(s, k);
    }
  }

  /** With distinct IDs, removal takes out exactly the removed city. */
  lemma RemoveAtMembers(s: seq<City>, k: int)
    requires 0 <= k < |s| && DistinctIds(s)
    ensures forall c :: c in RemoveAt(s, k) <==> c in s && c != s[k]
  {
    RemoveAtAt(s, k);
    var r := RemoveAt(s, k);
    forall c ensures c in r <==> c in s && c != s[k] {
      if c in r {
        var i :| 0 <= i < |r| && r[i] == c;
        var i' := if i < k then i else i + 1;
        assert c == s[i'] && i' != k;
      }
      if c in s && c != s[k] {
        var j :| 0 <= j < |s| && s[j] == c;
        assert j != k;
        assert r[if j < k then j else j - 1] == c;
      }
    }
  }

  lemma RemoveAtAt(s: seq<City>, k: int)
    requires 0 <= k < |s|
    ensures |RemoveAt(s, k)| == |s| - 1
    ensures forall i :: 0 <= i < |s| - 1 ==> RemoveAt(s, k)[i] == if i < k then s[i] else s[i + 1]
  {
  }

  lemma RemoveAtDistinct(s: seq<City>, k: int)
    requires 0 <= k < |s| && DistinctIds(s)
    ensures DistinctIds(RemoveAt(s, k))
  {
    var r := RemoveAt(s, k);
    RemoveAtAt(s, k);
    forall i, j | 0 <= i < j < |r| ensures r[i].id != r[j].id {
      var i', j' := if i < k then i else i + 1, if j < k then j else j + 1;
      assert r[i] == s[i'] && r[j] == s[j'] && i' < j';
    }
  }

  /** The removal loop of buildSolution: the first city with the given ID
      leaves the list; with none the list stays as it is. */
  method RemoveById(unvisited: seq<City>, id: int) returns (r: seq<City>)
    ensures (forall k :: 0 <= k < |unvisited| ==> unvisited[k].id != id) ==> r == unvisited
    ensures forall k :: (0 <= k < |unvisited| && unvisited[k].id == id &&
      forall q :: 0 <= q < k ==> unvisited[q].id != id) ==> r == RemoveAt(unvisited, k)
  {
    r := unvisited;
    var i := 0;
    while i < |unvisited|
      invariant 0 <= i <= |unvisited| && r == unvisited
      invariant forall q :: 0 <= q < i ==> unvisited[q].id != id
    {
      if unvisited[i].id == id {
        r := RemoveAt(unvisited, i);
        return;
      }
      i := i + 1;
    }
  }

  /** One construction step: append the city of the RCL entry that the
      biased draw picks, and remove it from the unvisited list by ID; the
      appended city is within the threshold. Distinct IDs make the removed
      city the appended one. */
  method Step(d: (City, City) -> nat, tour: seq<City>, unvisited: seq<City>, alpha: real, src: Source, t: nat)
    returns (tour': seq<City>, unvisited': seq<City>, t': nat)
    requires |tour| >= 1 && |unvisited| >= 1 && alpha >= 0.0
    ensures |tour'| == |tour| + 1 && tour'[..|tour|] == tour && tour'[|tour|] in unvisited
    ensures var rcl := GraspRCL(d, tour[|tour| - 1], unvisited, alpha);
      exists i :: 0 <= i < |rcl| && tour'[|tour|] == rcl[i].city && Picks(|rcl|, src, t, t', i)
    ensures Within(d, tour[|tour| - 1], tour'[|tour|], unvisited, alpha)
    ensures |unvisited'| == |unvisited| - 1 && forall c :: c in unvisited' ==> c in unvisited
    ensures DistinctIds(unvisited) ==>
      DistinctIds(unvisited') && multiset(unvisited') == multiset(unvisited) - multiset{tour'[|tour|]}
    ensures DistinctIds(unvisited) ==> forall c :: c in unvisited' <==> c in unvisited && c != tour'[|tour|]
  {
    var last := tour[|tour| - 1];
    var rcl := BuildRCL(d, last, unvisited, alpha);
    var cands := Candidates(d, last, unvisited);
    RCLNearest(cands, SortBy(cands, DistKey), rcl, alpha);
    var selected;
    selected, t' := ChooseWithBias(rcl, src, t);
    ghost var i: int := 0;
    if |rcl| > 1 {
      i :| LandsOn(|rcl|, Intn(src, t, |rcl| * (|rcl| + 1) / 2) + 1, i) && selected == rcl[i];
    }
    assert Picks(|rcl|, src, t, t', i) && selected == rcl[i];
    assert selected.city in unvisited;
    tour' := tour + [selected.city];
    assert tour'[|tour|] == rcl[i].city;
    ghost var k0 :| 0 <= k0 < |unvisited| && unvisited[k0] == selected.city;
    ghost var k := FirstById(unvisited, k0);
    unvisited' := RemoveById(unvisited, selected.city.id);
    assert unvisited' == RemoveAt(unvisited, k);
    RemoveAtFacts(unvisited, k);
  }

  /** The first position holding the ID found at position k0; with distinct
      IDs, k0 itself. */
  lemma FirstById(s: seq<City>, k0: int) returns (k: int)
    requires 0 <= k0 < |s|
    ensures 0 <= k <= k0 && s[k].id == s[k0].id
    ensures forall q :: 0 <= q < k ==> s[q].id != s[k0].id
    ensures DistinctIds(s) ==> k == k0
  {
    k := k0;
    while k > 0 && exists q :: 0 <= q < k && s[q].id == s[k0].id
      invariant 0 <= k <= k0 && s[k].id == s[k0].id
      decreases k
    {
      var q :| 0 <= q < k && s[q].id == s[k0].id;
      k := q;
    }
  }

  /** The unvisited list of buildSolution: every city but the start, in order. */
  method ExceptStart(cities: seq<City>, startIdx: int) returns (unvisited: seq<City>)
    requires 0 <= startIdx < |cities|
    ensures unvisited == RemoveAt(cities, startIdx)
  {
    unvisited := [];
    for i := 0 to |cities|
      invariant unvisited == if i <= startIdx then cities[..i] else cities[..startIdx] + cities[startIdx + 1..i]
    {
      if i != startIdx {
        unvisited := unvisited + [cities[i]];
      }
    }
  }

  /** The invariant of buildSolution's loop: every city placed or pending
      is one of the input's, the counts add up, and with distinct IDs the
      placed and the pending cities together are exactly the input. */
  ghost predicate Construction(cities: seq<City>, tour: seq<City>, unvisited: seq<City>) {
    |tour| + |unvisited| == |cities| &&
    (forall c :: c in tour ==> c in cities) &&
    (forall c :: c in unvisited ==> c in cities) &&
    (DistinctIds(cities) ==> DistinctIds(unvisited) && multiset(tour) + multiset(unvisited) == multiset(cities))
  }

  /** Moving a pending city to the tour, as Step does, keeps the invariant. */
  lemma ConstructionStep(cities: seq<City>, tour: seq<City>, unvisited: seq<City>,
                         x: City, unvisited': seq<City>)
    requires Construction(cities, tour, unvisited) && x in unvisited
    requires |unvisited'| == |unvisited| - 1 && forall c :: c in unvisited' ==> c in unvisited
    requires DistinctIds(unvisited) ==>
      DistinctIds(unvisited') && multiset(unvisited') == multiset(unvisited) - multiset{x}
    ensures Construction(cities, tour + [x], unvisited')
  {
    forall c | c in tour + [x] ensures c in cities {
      assert c in tour || c == x;
    }
    if DistinctIds(cities) {
      assert x in multiset(unvisited);
      calc {
        multiset(tour + [x]) + multiset(unvisited');
        multiset(tour) + multiset{x} + (multiset(unvisited) - multiset{x});
        multiset(tour) + multiset(unvisited);
      }
    }
  }

  /** buildSolution: the tour starts at the city of the first draw and takes
      one more city per step until none is left, so it has as many cities as
      the input, all of them from it; with distinct IDs it is a
      rearrangement of the input. An alpha below 0 can leave the RCL empty,
      where the source's draw fails. */
  method BuildSolution(d: (City, City) -> nat, cities: seq<City>, alpha: real, src: Source, t: nat)
    returns (tour: seq<City>, t': nat)
    requires |cities| >= 1 && alpha >= 0.0
    ensures |tour| == |cities| && tour[0] == cities[Intn(src, t, |cities|)]
    ensures forall c :: c in tour ==> c in cities
    ensures DistinctIds(cities) ==> multiset(tour) == multiset(cities)
    ensures DistinctIds(cities) ==>
      forall k :: 1 <= k < |tour| ==> Within(d, tour[k - 1], tour[k], tour[k..], alpha)
  {
    var n := |cities|;
    var startIdx := Intn(src, t, n);
    t' := t + 1;
    tour := [cities[startIdx]];
    var unvisited := ExceptStart(cities, startIdx);
    RemoveAtFacts(cities, startIdx);
    assert Construction(cities, tour, unvisited);
    while |unvisited| > 0
      invariant |tour| >= 1 && tour[0] == cities[startIdx]
      invariant Construction(cities, tour, unvisited)
      invariant DistinctIds(cities) ==> ChosenWithin(d, tour, unvisited, alpha)
      decreases |unvisited|
    {
      tour, unvisited, t' := ConstructionTurn(d, cities, tour, unvisited, alpha, src, t');
    }
    assert unvisited == [];
    if DistinctIds(cities) {
      ChosenDone(d, tour, alpha);
    }
  }

  /** One turn of buildSolution's loop: a Step keeps the loop invariant. */
  method ConstructionTurn(d: (City, City) -> nat, cities: seq<City>, tour: seq<City>, unvisited: seq<City>,
                          alpha: real, src: Source, t: nat)
    returns (tour': seq<City>, unvisited': seq<City>, t': nat)
    requires |tour| >= 1 && |unvisited| >= 1 && alpha >= 0.0
    requires Construction(cities, tour, unvisited)
    requires DistinctIds(cities) ==> ChosenWithin(d, tour, unvisited, alpha)
    ensures |tour'| == |tour| + 1 && tour'[..|tour|] == tour && |unvisited'| == |unvisited| - 1
    ensures Construction(cities, tour', unvisited')
    ensures DistinctIds(cities) ==> ChosenWithin(d, tour', unvisited', alpha)
  {
    tour', unvisited', t' := Step(d, tour, unvisited, alpha, src, t);
    SnocLast(tour, tour');
    ConstructionStep(cities, tour, unvisited, tour'[|tour|], unvisited');
    if DistinctIds(cities) {
      WithinStep(d, tour, unvisited, tour'[|tour|], unvisited', alpha);
    }
  }
}
