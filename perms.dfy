/** Permutations of the city indices 0..n-1, shared by every solver. */
module Perms {

  /** The identity tour [0, 1, ..., n-1]. */
  function Range(n: nat): (r: seq<int>)
    ensures |r| == n
    ensures forall i :: 0 <= i < n ==> r[i] == i
  {
    seq(n, i => i)
  }

  predicate Distinct<T(==)>(s: seq<T>) {
    forall i, j :: 0 <= i < j < |s| ==> s[i] != s[j]
  }

  predicate InRange(s: seq<int>, n: int) {
    forall i :: 0 <= i < |s| ==> 0 <= s[i] < n
  }

  /** `s` lists every city 0..n-1 exactly once. */
  predicate IsPermutation(s: seq<int>, n: nat) {
    multiset(s) == multiset(Range(n))
  }

  lemma {:induction false} DistinctCount<T>(s: seq<T>, v: T)
    requires Distinct(s)
    ensures multiset(s)[v] == if v in s then 1 else 0
  {
    if |s| > 0 {
      var init := s[..|s| - 1];
      assert s == init + [s[|s| - 1]];
      assert Distinct(init);
      DistinctCount(init, v);
      assert s[|s| - 1] !in init;
    }
  }

  lemma {:induction false} RepeatCount<T>(s: seq<T>, i: int, j: int)
    requires 0 <= i < j < |s| && s[i] == s[j]
    ensures multiset(s)[s[i]] >= 2
  {
    assert s == s[..i] + [s[i]] + s[i + 1..j] + [s[j]] + s[j + 1..];
  }

  /** A duplicate-free sequence of cities below n has at most n entries, and
      exactly n only when it is a permutation. */
  lemma {:induction false} Pigeonhole(s: seq<int>, n: nat)
    requires Distinct(s) && InRange(s, n)
    ensures |s| <= n
    ensures |s| == n ==> IsPermutation(s, n)
  {
    var M, R := multiset(s), multiset(Range(n));
    forall v ensures M[v] <= R[v] {
      DistinctCount(s, v);
      DistinctCount(Range(n), v);
      if v in s {
        var k :| 0 <= k < |s| && s[k] == v;
        assert Range(n)[v] == v;
      }
    }
    assert M <= R;
    assert R == M + (R - M);
  }

  lemma MultisetCardMono<T>(A: multiset<T>, B: multiset<T>)
    requires A <= B
    ensures |A| <= |B|
  {
    assert B == A + (B - A);
  }

  /** While fewer than n cities are placed, some city is still missing: the
      loops that look for an unvisited city always find one. */
  lemma {:induction false} MissingCity(s: seq<int>, n: nat) returns (v: int)
    requires Distinct(s) && |s| < n
    ensures 0 <= v < n && v !in s
  {
    var M, R := multiset(s), multiset(Range(n));
    if forall w :: 0 <= w < n ==> w in s {
      forall w ensures R[w] <= M[w] {
        DistinctCount(Range(n), w);
        if w in Range(n) {
          var k :| 0 <= k < n && Range(n)[k] == w;
          assert w in s && w in M;
        }
      }
      MultisetCardMono(R, M);
      assert false;
    }
    v :| 0 <= v < n && v !in s;
  }

  lemma {:induction false} PermutationFacts(s: seq<int>, n: nat)
    requires IsPermutation(s, n)
    ensures |s| == n && InRange(s, n) && Distinct(s)
    ensures forall v :: v in s <==> 0 <= v < n
  {
    assert |s| == |multiset(s)| == |multiset(Range(n))| == n;
    forall v ensures v in s <==> 0 <= v < n {
      assert v in s <==> v in multiset(s);
      assert v in Range(n) <==> v in multiset(Range(n));
      if 0 <= v < n { assert Range(n)[v] == v; }
    }
    forall i | 0 <= i < |s| ensures 0 <= s[i] < n {
      assert s[i] in s;
    }
    forall i, j | 0 <= i < j < |s| ensures s[i] != s[j] {
      if s[i] == s[j] {
        RepeatCount(s, i, j);
        assert Distinct(Range(n));
        DistinctCount(Range(n), s[i]);
        assert false;
      }
    }
  }

  lemma {:induction false} RangeIsPermutation(n: nat)
    ensures IsPermutation(Range(n), n)
  {
  }

  /** Reordering a permutation (same multiset) gives a permutation. */
  lemma {:induction false} PermutationOfPermutation(s: seq<int>, t: seq<int>, n: nat)
    requires IsPermutation(s, n) && multiset(t) == multiset(s)
    ensures IsPermutation(t, n)
  {
  }

  /** A membership array: a[c] holds exactly for the values c of s. */
  predicate Marks(a: array<bool>, s: seq<int>)
    reads a
  {
    forall c :: 0 <= c < a.Length ==> (a[c] <==> c in s)
  }
}
