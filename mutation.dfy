/** Inversion mutation of the genetic algorithm
    (Corte_2/Algoritmo_Genetico/geneticalgorithm/mutation.go): the two drawn
    positions are ordered and the segment between them is reversed in place. */
module Mutation {
  import opened Tours
  import opened Perms

  /** The tour after inversion mutation with draws i0 and j0. */
  function Mutated(s: seq<int>, i0: int, j0: int): seq<int> {
    if i0 <= j0 then ReverseSegment(s, i0, j0) else ReverseSegment(s, j0, i0)
  }

  /** InversionMutation: `rand.Intn(n)` twice, given here as i0 and j0. */
  method InversionMutation(tour: array<int>, i0: nat, j0: nat)
    requires i0 < tour.Length && j0 < tour.Length
    modifies tour
    ensures tour[..] == Mutated(old(tour[..]), i0, j0)
  {
    var i, j := i0, j0;
    if i > j {
      i, j := j, i;
    }
    InvertSegment(tour, i, j);
  }

  /** The mutation reverses the entries between the two positions, leaves
      every other entry alone and keeps the multiset, so a permutation stays a
      permutation; equal draws leave the tour unchanged. */
  lemma MutatedFacts(s: seq<int>, i0: int, j0: int)
    requires 0 <= i0 < |s| && 0 <= j0 < |s|
    ensures var i, j := if i0 <= j0 then i0 else j0, if i0 <= j0 then j0 else i0;
      |Mutated(s, i0, j0)| == |s| &&
      forall k :: 0 <= k < |s| ==>
        Mutated(s, i0, j0)[k] == if i <= k <= j then s[i + j - k] else s[k]
    ensures multiset(Mutated(s, i0, j0)) == multiset(s)
    ensures forall n: nat :: IsPermutation(s, n) ==> IsPermutation(Mutated(s, i0, j0), n)
    ensures i0 == j0 ==> Mutated(s, i0, j0) == s
  {
    var i, j := if i0 <= j0 then i0 else j0, if i0 <= j0 then j0 else i0;
    ReverseSegmentMultiset(s, i, j);
    if i < j {
      ReverseSegmentAt(s, i, j);
    }
  }
}
