/** Cut-and-fill (order) crossover of the genetic algorithm
    (Corte_2/Algoritmo_Genetico/geneticalgorithm/crossover.go): a child keeps
    the donor's first p cities and then takes the filler's cities in the
    filler's order, skipping every city it already holds. */
module Crossover {
  import opened Perms

  /** The child after the prefix and filler[0..k) have been processed. */
  function Fill(prefix: seq<int>, filler: seq<int>, k: nat): seq<int>
    requires k <= |filler|
  {
    if k == 0 then prefix
    else
      var c := Fill(prefix, filler, k - 1);
      if filler[k - 1] in c then c else c + [filler[k - 1]]
  }

  /** The child cutAndFillBuild returns. */
  function CutAndFill(donor: seq<int>, filler: seq<int>, p: nat): seq<int>
    requires p <= |donor|
  {
    Fill(donor[..p], filler, |filler|)
  }

  /** The entries of s that are not in `excluded`, in their order in s. */
  function Without(s: seq<int>, excluded: seq<int>): (r: seq<int>)
    ensures |r| <= |s|
  {
    if |s| == 0 then []
    else Without(s[..|s| - 1], excluded) + (if s[|s| - 1] in excluded then [] else [s[|s| - 1]])
  }

  lemma {:induction false} FillGrows(prefix: seq<int>, filler: seq<int>, k: nat)
    requires k <= |filler|
    ensures |prefix| <= |Fill(prefix, filler, k)| && Fill(prefix, filler, k)[..|prefix|] == prefix
    ensures forall x :: x in Fill(prefix, filler, k) <==> x in prefix || x in filler[..k]
  {
    if k > 0 {
      FillGrows(prefix, filler, k - 1);
      var c := Fill(prefix, filler, k - 1);
      assert filler[..k] == filler[..k - 1] + [filler[k - 1]];
      if filler[k - 1] !in c {
        assert (c + [filler[k - 1]])[..|prefix|] == c[..|prefix|];
      }
    }
  }

  /** The child starts with the donor's first p cities. */
  lemma CutAndFillPrefix(donor: seq<int>, filler: seq<int>, p: nat)
    requires p <= |donor|
    ensures p <= |CutAndFill(donor, filler, p)| && CutAndFill(donor, filler, p)[..p] == donor[..p]
  {
    FillGrows(donor[..p], filler, |filler|);
  }

  /** The guard never appends a value twice: a duplicate-free prefix gives a
      duplicate-free child whatever the filler holds. */
  lemma {:induction false} FillDistinct(prefix: seq<int>, filler: seq<int>, k: nat)
    requires k <= |filler| && Distinct(prefix)
    ensures Distinct(Fill(prefix, filler, k))
  {
    if k > 0 {
      FillDistinct(prefix, filler, k - 1);
    }
  }

  /** With a duplicate-free filler, the rest of the child is the filler's
      cities missing from the prefix, in the filler's order. */
  lemma {:induction false} FillOrder(prefix: seq<int>, filler: seq<int>, k: nat)
    requires k <= |filler| && Distinct(filler)
    ensures Fill(prefix, filler, k) == prefix + Without(filler[..k], prefix)
  {
    if k > 0 {
      FillOrder(prefix, filler, k - 1);
      var x, front := filler[k - 1], filler[..k - 1];
      FillerStep(prefix, filler, k);
      var c, w := Fill(prefix, filler, k - 1), Without(front, prefix);
      assert x in c <==> x in prefix;
      if x !in prefix {
        assert prefix + (w + [x]) == (prefix + w) + [x];
      }
    }
  }

  /** The filler's k-th city is new to its first k - 1 cities, and Without
      takes it exactly when the prefix lacks it. */
  lemma FillerStep(prefix: seq<int>, filler: seq<int>, k: nat)
    requires 0 < k <= |filler| && Distinct(filler)
    ensures var x, front := filler[k - 1], filler[..k - 1];
      x !in Without(front, prefix) &&
      Without(filler[..k], prefix) == Without(front, prefix) + (if x in prefix then [] else [x])
  {
    var x, front := filler[k - 1], filler[..k - 1];
    assert filler[..k][..k - 1] == front && filler[..k][k - 1] == x;
    assert x !in front by {
      forall i | 0 <= i < k - 1 ensures front[i] != x {
        assert front[i] == filler[i];
      }
    }
    WithoutMembers(front, prefix);
  }

  lemma {:induction false} WithoutMembers(s: seq<int>, excluded: seq<int>)
    ensures forall x :: x in Without(s, excluded) <==> x in s && x !in excluded
  {
    if |s| > 0 {
      WithoutMembers(s[..|s| - 1], excluded);
      assert s == s[..|s| - 1] + [s[|s| - 1]];
    }
  }

  lemma CutAndFillOrder(donor: seq<int>, filler: seq<int>, p: nat)
    requires p <= |donor| && Distinct(filler)
    ensures CutAndFill(donor, filler, p) == donor[..p] + Without(filler, donor[..p])
  {
    FillOrder(donor[..p], filler, |filler|);
    assert filler[..|filler|] == filler;
  }

  /** Two parent permutations give a permutation child for every cut point. */
  lemma CutAndFillPermutation(donor: seq<int>, filler: seq<int>, p: nat, n: nat)
    requires IsPermutation(donor, n) && IsPermutation(filler, n) && p <= |donor|
    ensures IsPermutation(CutAndFill(donor, filler, p), n)
  {
    PermutationFacts(donor, n);
    PermutationFacts(filler, n);
    var prefix := donor[..p];
    var c := CutAndFill(donor, filler, p);
    assert Distinct(prefix);
    FillDistinct(prefix, filler, |filler|);
    FillGrows(prefix, filler, |filler|);
    assert filler[..|filler|] == filler;
    assert InRange(c, n) by {
      forall i | 0 <= i < |c| ensures 0 <= c[i] < n {
        assert c[i] in c;
      }
    }
    forall v ensures multiset(Range(n))[v] <= multiset(c)[v] {
      DistinctCount(Range(n), v);
      DistinctCount(c, v);
      if v in Range(n) {
        var k :| 0 <= k < n && Range(n)[k] == v;
        assert v in filler;
      }
    }
    assert multiset(Range(n)) <= multiset(c);
    MultisetCardMono(multiset(Range(n)), multiset(c));
    Pigeonhole(c, n);
  }

  /** cutAndFillBuild: copy the prefix, then fill from the filler under the
      inChild guard. Every prefix and filler value must be a city below n, as
      inChild has n entries. */
  method CutAndFillBuild(donor: seq<int>, filler: seq<int>, p: int, n: int) returns (child: seq<int>)
    requires 0 <= p <= |donor| && n >= 0
    requires InRange(donor[..p], n) && InRange(filler, n)
    ensures child == CutAndFill(donor, filler, p)
  {
    child := [];
    var inChild := new bool[n](_ => false);
    var i := 0;
    while i < p
      invariant 0 <= i <= p
      invariant child == donor[..i] && Marks(inChild, child)
    {
      assert donor[..p][i] == donor[i];
      child := child + [donor[i]];
      inChild[donor[i]] := true;
      assert donor[..i + 1] == donor[..i] + [donor[i]];
      i := i + 1;
    }
    var k := 0;
    while k < |filler|
      invariant 0 <= k <= |filler|
      invariant child == Fill(donor[..p], filler, k) && Marks(inChild, child)
    {
      var val := filler[k];
      if !inChild[val] {
        child := child + [val];
        inChild[val] := true;
      }
      k := k + 1;
    }
  }

  /** CutAndFillCrossover: the cut p is the draw r plus one, so 1 <= p <= n-1
      (n >= 2 is needed for `rand.Intn(n-1)`), and the second child swaps the
      parents' roles, so parent2 must hold at least p entries. */
  method CutAndFillCrossover(parent1: seq<int>, parent2: seq<int>, r: nat) returns (child1: seq<int>, child2: seq<int>)
    requires |parent1| >= 2 && r < |parent1| - 1 && r + 1 <= |parent2|
    requires InRange(parent1, |parent1|) && InRange(parent2, |parent1|)
    ensures child1 == CutAndFill(parent1, parent2, r + 1)
    ensures child2 == CutAndFill(parent2, parent1, r + 1)
    ensures IsPermutation(parent1, |parent1|) && IsPermutation(parent2, |parent1|) ==>
      IsPermutation(child1, |parent1|) && IsPermutation(child2, |parent1|)
  {
    var n := |parent1|;
    var p := r + 1;
    assert InRange(parent1[..p], n) && InRange(parent2[..p], n) by {
      assert forall i :: 0 <= i < p ==> parent1[..p][i] == parent1[i] && parent2[..p][i] == parent2[i];
    }
    child1 := CutAndFillBuild(parent1, parent2, p, n);
    child2 := CutAndFillBuild(parent2, parent1, p, n);
    if IsPermutation(parent1, n) && IsPermutation(parent2, n) {
      CutAndFillPermutation(parent1, parent2, p, n);
      CutAndFillPermutation(parent2, parent1, p, n);
    }
  }
}
