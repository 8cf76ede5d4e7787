/** Tour costs over an abstract distance, shared by every solver.

    A distance is any function `d: (T, T) -> nat` on cities; the exact solver
    and the Corte_1 heuristics use `Edge(m)` over a precomputed matrix, the
    Corte_2 heuristics an abstract Euclidean distance between `City` values. */
module Tours {

  type Matrix = seq<seq<nat>>

  predicate IsSquare(m: Matrix) {
    forall i :: 0 <= i < |m| ==> |m[i]| == |m|
  }

  predicate SymmetricMatrix(m: Matrix)
    requires IsSquare(m)
  {
    forall i, j :: 0 <= i < |m| && 0 <= j < |m| ==> m[i][j] == m[j][i]
  }

  /** The matrix as a distance function (out-of-range pairs read as 0, and
      are never used by callers that keep their tours in range). */
  function Edge(m: Matrix): (int, int) -> nat {
    (a: int, b: int) => if 0 <= a < |m| && 0 <= b < |m[a]| then m[a][b] else 0
  }

  ghost predicate Symmetric<T(!new)>(d: (T, T) -> nat) {
    forall a, b :: d(a, b) == d(b, a)
  }

  lemma EdgeSymmetric(m: Matrix)
    requires IsSquare(m) && SymmetricMatrix(m)
    ensures Symmetric(Edge(m))
  {
    forall a, b ensures Edge(m)(a, b) == Edge(m)(b, a) {
      if 0 <= a < |m| && 0 <= b < |m| {
        assert m[a][b] == m[b][a];
      }
    }
  }

  /** Sum of the first k edges of s: s[0] -> s[1], ..., s[k-1] -> s[k]. */
  function EdgeSum<T>(d: (T, T) -> nat, s: seq<T>, k: nat): nat
    requires k < |s|
  {
    if k == 0 then 0 else EdgeSum(d, s, k - 1) + d(s[k - 1], s[k])
  }

  /** Cost of the open path s[0] -> s[1] -> ... -> s[|s|-1]. */
  function PathCost<T>(d: (T, T) -> nat, s: seq<T>): nat {
    if |s| == 0 then 0 else EdgeSum(d, s, |s| - 1)
  }

  /** Cost of the closed tour: the path plus the edge from the last city back
      to the first. The empty tour costs 0 and a one-city tour [c] costs d(c, c). */
  function CycleCost<T>(d: (T, T) -> nat, s: seq<T>): nat {
    if |s| == 0 then 0 else PathCost(d, s) + d(s[|s| - 1], s[0])
  }

  /** The edge sum depends only on the cities it reads. */
  lemma {:induction false} EdgeSumAgree<T>(d: (T, T) -> nat, s: seq<T>, t: seq<T>, k: nat)
    requires k < |s| && k < |t| && s[..k + 1] == t[..k + 1]
    ensures EdgeSum(d, s, k) == EdgeSum(d, t, k)
  {
    if k > 0 {
      assert s[k - 1] == s[..k + 1][k - 1] && s[k] == s[..k + 1][k];
      assert t[k - 1] == t[..k + 1][k - 1] && t[k] == t[..k + 1][k];
      assert s[..k] == s[..k + 1][..k] && t[..k] == t[..k + 1][..k];
      EdgeSumAgree(d, s, t, k - 1);
    }
  }

  lemma PathCostSnoc<T>(d: (T, T) -> nat, s: seq<T>, x: T)
    requires |s| >= 1
    ensures PathCost(d, s + [x]) == PathCost(d, s) + d(s[|s| - 1], x)
  {
    var t := s + [x];
    assert t[..|s|] == s[..|s|];
    EdgeSumAgree(d, t, s, |s| - 1);
    assert t[|s| - 1] == s[|s| - 1] && t[|s|] == x;
  }

  /** The cost of two joined paths is the sum of their costs plus the joining edge. */
  lemma {:induction false} PathCostAppend<T>(d: (T, T) -> nat, a: seq<T>, b: seq<T>)
    requires |a| >= 1 && |b| >= 1
    ensures PathCost(d, a + b) == PathCost(d, a) + d(a[|a| - 1], b[0]) + PathCost(d, b)
    decreases |b|
  {
    if |b| == 1 {
      assert a + b == a + [b[0]];
      PathCostSnoc(d, a, b[0]);
      assert PathCost(d, b) == 0;
    } else {
      var b', z := b[..|b| - 1], b[|b| - 1];
      PathCostAppend(d, a, b');
      assert a + b == (a + b') + [z];
      assert (a + b')[|a + b'| - 1] == b'[|b'| - 1] == b[|b| - 2];
      PathCostSnoc(d, a + b', z);
      assert b == b' + [z];
      assert b'[0] == b[0];
      PathCostSnoc(d, b', z);
    }
  }

  /** Cutting a path at city k: both pieces keep city k. */
  lemma {:induction false} PathCostSplit<T>(d: (T, T) -> nat, s: seq<T>, k: int)
    requires 1 <= k <= |s|
    ensures PathCost(d, s) == PathCost(d, s[..k]) + PathCost(d, s[k - 1..])
  {
    if k < |s| {
      assert s == s[..k] + s[k..];
      PathCostAppend(d, s[..k], s[k..]);
      assert s[k - 1..] == [s[k - 1]] + s[k..];
      PathCostAppend(d, [s[k - 1]], s[k..]);
    } else {
      assert s[..k] == s;
      assert |s[k - 1..]| == 1;
    }
  }

  /** A prefix of a path never costs more than the path. */
  lemma {:induction false} PathCostPrefix<T>(d: (T, T) -> nat, s: seq<T>, k: int)
    requires 1 <= k <= |s|
    ensures PathCost(d, s[..k]) <= PathCost(d, s)
  {
    PathCostSplit(d, s, k);
  }

  function Reverse<T>(s: seq<T>): (r: seq<T>)
    ensures |r| == |s|
  {
    if |s| == 0 then [] else [s[|s| - 1]] + Reverse(s[..|s| - 1])
  }

  lemma ReverseEnds<T>(s: seq<T>)
    requires |s| >= 1
    ensures Reverse(s)[0] == s[|s| - 1] && Reverse(s)[|s| - 1] == s[0]
  {
    ReverseAt(s);
  }

  /** Position k of the reversal holds position |s| - 1 - k of the original. */
  lemma {:induction false} ReverseAt<T>(s: seq<T>)
    ensures forall k :: 0 <= k < |s| ==> Reverse(s)[k] == s[|s| - 1 - k]
  {
    if |s| > 0 {
      var init := s[..|s| - 1];
      ReverseAt(init);
      forall k | 0 <= k < |s| ensures Reverse(s)[k] == s[|s| - 1 - k] {
        if k > 0 {
          assert Reverse(s)[k] == Reverse(init)[k - 1];
        }
      }
    }
  }

  lemma {:induction false} ReverseMultiset<T>(s: seq<T>)
    ensures multiset(Reverse(s)) == multiset(s)
  {
    if |s| > 0 {
      var init, last := s[..|s| - 1], s[|s| - 1];
      ReverseMultiset(init);
      assert Reverse(s) == [last] + Reverse(init);
      assert multiset(Reverse(s)) == multiset{last} + multiset(Reverse(init));
      assert s == init + [last];
      assert multiset(s) == multiset(init) + multiset{last};
    }
  }

  /** Under a symmetric distance a path costs the same in both directions. */
  lemma {:induction false} PathCostReverse<T(!new)>(d: (T, T) -> nat, s: seq<T>)
    requires Symmetric(d)
    ensures PathCost(d, Reverse(s)) == PathCost(d, s)
  {
    if |s| >= 2 {
      var init := s[..|s| - 1];
      PathCostReverse(d, init);
      PathCostAppend(d, [s[|s| - 1]], Reverse(init));
      assert Reverse(s) == [s[|s| - 1]] + Reverse(init);
      assert s == init + [s[|s| - 1]];
      PathCostSnoc(d, init, s[|s| - 1]);
      ReverseAt(init);
      assert Reverse(init)[0] == s[|s| - 2];
    }
  }

  /** Every cyclic successor pair is summed once, so rotating a tour does not
      change its closed cost. */
  lemma {:induction false} CycleCostRotate<T>(d: (T, T) -> nat, s: seq<T>, k: int)
    requires 0 <= k <= |s|
    ensures CycleCost(d, s[k..] + s[..k]) == CycleCost(d, s)
  {
    if 0 < k < |s| {
      var a, b := s[..k], s[k..];
      assert s == a + b;
      PathCostAppend(d, a, b);
      PathCostAppend(d, b, a);
      assert (b + a)[|b + a| - 1] == a[|a| - 1];
    } else if k == 0 {
      assert s[k..] + s[..k] == s;
    } else {
      assert s[k..] + s[..k] == s;
    }
  }

  /** Positions i..j of s in reverse order; a no-op unless 0 <= i < j < |s|. */
  function ReverseSegment<T>(s: seq<T>, i: int, j: int): seq<T> {
    if 0 <= i < j < |s| then s[..i] + Reverse(s[i..j + 1]) + s[j + 1..] else s
  }

  lemma ReverseSegmentAt<T>(s: seq<T>, i: int, j: int)
    requires 0 <= i < j < |s|
    ensures |ReverseSegment(s, i, j)| == |s|
    ensures forall k :: 0 <= k < |s| ==>
      ReverseSegment(s, i, j)[k] == if i <= k <= j then s[i + j - k] else s[k]
  {
    var A, R, B := s[..i], Reverse(s[i..j + 1]), s[j + 1..];
    ReverseAt(s[i..j + 1]);
    var r := A + R + B;
    assert ReverseSegment(s, i, j) == r;
    forall k | 0 <= k < |s| ensures r[k] == if i <= k <= j then s[i + j - k] else s[k] {
      if k < i {
        assert r[k] == A[k];
      } else if k <= j {
        assert r[k] == R[k - i];
      } else {
        assert r[k] == B[k - j - 1];
      }
    }
  }

  /** The two-pointer swap loop shared by 2-opt, simulated annealing, tabu
      search and inversion mutation: reverses a[i..j] in place, and nothing
      else changes. */
  method InvertSegment<T>(a: array<T>, i: int, j: int)
    requires i < j ==> 0 <= i && j < a.Length
    modifies a
    ensures a[..] == ReverseSegment(old(a[..]), i, j)
  {
    ghost var s := a[..];
    var lo, hi := i, j;
    while lo < hi
      invariant i < j ==> i <= lo && hi <= j && lo - i == j - hi && lo <= hi + 1
      invariant i >= j ==> lo == i && hi == j
      invariant forall k {:trigger a[k]} :: 0 <= k < a.Length ==>
        a[k] == if i <= k < lo || hi < k <= j then s[i + j - k] else s[k]
    {
      a[lo], a[hi] := a[hi], a[lo];
      lo, hi := lo + 1, hi - 1;
    }
    if i < j {
      ReverseSegmentAt(s, i, j);
      assert forall k :: 0 <= k < a.Length ==> a[k] == ReverseSegment(s, i, j)[k];
    } else {
      assert forall k :: 0 <= k < a.Length ==> a[k] == s[k];
    }
  }

  lemma {:induction false} ReverseSegmentMultiset<T>(s: seq<T>, i: int, j: int)
    ensures |ReverseSegment(s, i, j)| == |s|
    ensures multiset(ReverseSegment(s, i, j)) == multiset(s)
  {
    if 0 <= i < j < |s| {
      ReverseMultiset(s[i..j + 1]);
      assert s == s[..i] + s[i..j + 1] + s[j + 1..];
    }
  }

  /** Reversing the same segment twice restores the tour. */
  lemma {:induction false} ReverseSegmentTwice<T>(s: seq<T>, i: int, j: int)
    ensures ReverseSegment(ReverseSegment(s, i, j), i, j) == s
  {
    if 0 <= i < j < |s| {
      var A, S, B := s[..i], s[i..j + 1], s[j + 1..];
      var r := A + Reverse(S) + B;
      assert r[..i] == A && r[i..j + 1] == Reverse(S) && r[j + 1..] == B;
      ReverseReverse(S);
      assert ReverseSegment(r, i, j) == A + S + B;
      assert A + S + B == s;
    }
  }

  lemma ReverseReverse<T>(s: seq<T>)
    ensures Reverse(Reverse(s)) == s
  {
    ReverseAt(s);
    ReverseAt(Reverse(s));
  }

  /** The cyclic predecessor of position i, written as `(i - 1 + n) % n`. */
  function Prev(i: int, n: int): (p: int)
    requires 0 <= i < n
    ensures p == if i == 0 then n - 1 else i - 1
  {
    ModWrap(i - 1 + n, n);
    (i - 1 + n) % n
  }

  /** The cyclic successor of position j, written as `(j + 1) % n`. */
  function Next(j: int, n: int): (q: int)
    requires 0 <= j < n
    ensures q == if j == n - 1 then 0 else j + 1
  {
    ModWrap(j + 1, n);
    (j + 1) % n
  }

  /** The change in closed cost of reversing s[i..j], from the four edges the
      move removes and adds; the predecessor of i and the successor of j wrap
      around the tour. */
  function TwoOptDelta<T>(d: (T, T) -> nat, s: seq<T>, i: int, j: int): int
    requires 0 <= i < j < |s|
  {
    var p, q := Prev(i, |s|), Next(j, |s|);
    (d(s[p], s[j]) + d(s[i], s[q])) - (d(s[p], s[i]) + d(s[j], s[q]))
  }

  lemma {:induction false} ReverseInnerDelta<T(!new)>(d: (T, T) -> nat, A: seq<T>, S: seq<T>, B: seq<T>)
    requires Symmetric(d) && |A| >= 1 && |S| >= 1 && |B| >= 1
    ensures CycleCost(d, A + Reverse(S) + B) + d(A[|A| - 1], S[0]) + d(S[|S| - 1], B[0])
         == CycleCost(d, A + S + B) + d(A[|A| - 1], S[|S| - 1]) + d(S[0], B[0])
  {
    var R := Reverse(S);
    ReverseEnds(S);
    PathCostReverse(d, S);
    JoinThree(d, A, S, B);
    JoinThree(d, A, R, B);
  }

  /** Cost facts of a tour made of three consecutive pieces. */
  lemma JoinThree<T>(d: (T, T) -> nat, A: seq<T>, S: seq<T>, B: seq<T>)
    requires |A| >= 1 && |S| >= 1 && |B| >= 1
    ensures CycleCost(d, A + S + B)
         == PathCost(d, A) + d(A[|A| - 1], S[0]) + PathCost(d, S) + d(S[|S| - 1], B[0])
            + PathCost(d, B) + d(B[|B| - 1], A[0])
  {
    var t := A + S + B;
    var e1, e2, e3 := d(A[|A| - 1], S[0]), d(S[|S| - 1], B[0]), d(B[|B| - 1], A[0]);
    PathCostAppend(d, A, S);
    assert (A + S)[|A + S| - 1] == S[|S| - 1];
    PathCostAppend(d, A + S, B);
    assert PathCost(d, t) == PathCost(d, A) + e1 + PathCost(d, S) + e2 + PathCost(d, B);
    assert t[0] == A[0] && t[|t| - 1] == B[|B| - 1];
    assert CycleCost(d, t) == PathCost(d, t) + e3;
  }

  lemma {:induction false} ReverseTailDelta<T(!new)>(d: (T, T) -> nat, A: seq<T>, S: seq<T>)
    requires Symmetric(d) && |A| >= 1 && |S| >= 1
    ensures CycleCost(d, A + Reverse(S)) + d(A[|A| - 1], S[0]) + d(S[|S| - 1], A[0])
         == CycleCost(d, A + S) + d(A[|A| - 1], S[|S| - 1]) + d(S[0], A[0])
  {
    var R := Reverse(S);
    ReverseEnds(S);
    PathCostReverse(d, S);
    PathCostAppend(d, A, S);
    PathCostAppend(d, A, R);
    assert (A + S)[0] == A[0] && (A + R)[0] == A[0];
    assert (A + S)[|A + S| - 1] == S[|S| - 1];
    assert (A + R)[|A + R| - 1] == S[0];
  }

  lemma {:induction false} ReverseHeadDelta<T(!new)>(d: (T, T) -> nat, S: seq<T>, B: seq<T>)
    requires Symmetric(d) && |S| >= 1 && |B| >= 1
    ensures CycleCost(d, Reverse(S) + B) + d(B[|B| - 1], S[0]) + d(S[|S| - 1], B[0])
         == CycleCost(d, S + B) + d(B[|B| - 1], S[|S| - 1]) + d(S[0], B[0])
  {
    var R := Reverse(S);
    ReverseEnds(S);
    PathCostReverse(d, S);
    PathCostAppend(d, S, B);
    PathCostAppend(d, R, B);
    assert (S + B)[0] == S[0] && (R + B)[0] == S[|S| - 1];
    assert (S + B)[|S + B| - 1] == B[|B| - 1];
    assert (R + B)[|R + B| - 1] == B[|B| - 1];
  }

  lemma ModWrap(x: int, n: int)
    requires 0 < n && 0 <= x < 2 * n
    ensures x % n == if x < n then x else x - n
  {
  }

  /** The incremental delta of 2-opt, simulated annealing and tabu search is the
      true change in closed cost, wrap-around cases included, whenever the
      distance is symmetric and the move is not the whole-tour reversal. */
  lemma TwoOptDeltaCorrect<T(!new)>(d: (T, T) -> nat, s: seq<T>, i: int, j: int)
    requires Symmetric(d)
    requires 0 <= i < j < |s| && !(i == 0 && j == |s| - 1)
    ensures CycleCost(d, ReverseSegment(s, i, j)) == CycleCost(d, s) + TwoOptDelta(d, s, i, j)
  {
    var n := |s|;
    var before, after := CycleCost(d, s), CycleCost(d, ReverseSegment(s, i, j));
    var p, q := Prev(i, n), Next(j, n);
    if i >= 1 && j < n - 1 {
      DeltaInner(d, s, i, j);
    } else if i >= 1 {
      DeltaTail(d, s, i);
    } else {
      DeltaHead(d, s, j);
    }
    assert after + d(s[p], s[i]) + d(s[j], s[q]) == before + d(s[p], s[j]) + d(s[i], s[q]);
  }
  lemma DeltaInner<T(!new)>(d: (T, T) -> nat, s: seq<T>, i: int, j: int)
    requires Symmetric(d) && 1 <= i < j < |s| - 1
    ensures CycleCost(d, ReverseSegment(s, i, j)) + d(s[i - 1], s[i]) + d(s[j], s[j + 1])
         == CycleCost(d, s) + d(s[i - 1], s[j]) + d(s[i], s[j + 1])
  {
    var A, S, B := s[..i], s[i..j + 1], s[j + 1..];
    assert S[0] == s[i] && S[|S| - 1] == s[j];
    assert A[|A| - 1] == s[i - 1] && B[0] == s[j + 1];
    assert s == A + S + B;
    ReverseInnerDelta(d, A, S, B);
  }

  lemma DeltaTail<T(!new)>(d: (T, T) -> nat, s: seq<T>, i: int)
    requires Symmetric(d) && 1 <= i < |s| - 1
    ensures CycleCost(d, ReverseSegment(s, i, |s| - 1)) + d(s[i - 1], s[i]) + d(s[|s| - 1], s[0])
         == CycleCost(d, s) + d(s[i - 1], s[|s| - 1]) + d(s[i], s[0])
  {
    var A, S := s[..i], s[i..];
    assert S[0] == s[i] && S[|S| - 1] == s[|s| - 1];
    assert A[|A| - 1] == s[i - 1] && A[0] == s[0];
    assert s == A + S;
    assert s[i..|s|] == S && s[|s|..] == [];
    assert ReverseSegment(s, i, |s| - 1) == A + Reverse(S);
    ReverseTailDelta(d, A, S);
  }

  lemma DeltaHead<T(!new)>(d: (T, T) -> nat, s: seq<T>, j: int)
    requires Symmetric(d) && 0 < j < |s| - 1
    ensures CycleCost(d, ReverseSegment(s, 0, j)) + d(s[|s| - 1], s[0]) + d(s[j], s[j + 1])
         == CycleCost(d, s) + d(s[|s| - 1], s[j]) + d(s[0], s[j + 1])
  {
    var S, B := s[..j + 1], s[j + 1..];
    assert S[0] == s[0] && S[|S| - 1] == s[j];
    assert B[0] == s[j + 1] && B[|B| - 1] == s[|s| - 1];
    assert s == S + B;
    assert ReverseSegment(s, 0, j) == Reverse(S) + B;
    ReverseHeadDelta(d, S, B);
  }
}
