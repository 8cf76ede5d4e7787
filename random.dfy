/** Random draws as an explicit stream.

    Every `rand.Intn(k)` and `rand.Float64()` call of the metaheuristics reads
    the next entry of a `Source`, addressed by a counter the caller threads
    through; `rand.Intn(k)` is modelled as `ints(t) % k`, which can take every
    value 0..k-1, and nothing is assumed about the distribution. */
module Random {

  datatype Source = Source(ints: nat -> nat, reals: nat -> real)

  /** Draw number t, read as `rand.Intn(k)`. */
  function Intn(src: Source, t: nat, k: nat): (r: nat)
    requires k > 0
    ensures r < k
  {
    src.ints(t) % k
  }

  /** `count` consecutive draws from t on, each read as `rand.Intn(k)`. */
  function Draws(src: Source, t: nat, count: nat, k: nat): (r: seq<nat>)
    requires k > 0
    ensures |r| == count && forall q :: 0 <= q < count ==> r[q] == Intn(src, t + q, k) && r[q] < k
  {
    if count == 0 then [] else Draws(src, t, count - 1, k) + [Intn(src, t + count - 1, k)]
  }

  /** `s` with positions i and j exchanged. */
  function SwapAt<T>(s: seq<T>, i: int, j: int): (r: seq<T>)
    requires 0 <= i < |s| && 0 <= j < |s|
    ensures |r| == |s|
  {
    s[i := s[j]][j := s[i]]
  }

  lemma SwapAtMultiset<T>(s: seq<T>, i: int, j: int)
    requires 0 <= i < |s| && 0 <= j < |s|
    ensures multiset(SwapAt(s, i, j)) == multiset(s)
  {
    if i != j {
      var r := s[i := s[j]];
      assert multiset(r) == multiset(s) - multiset{s[i]} + multiset{s[j]};
      assert multiset(r[j := s[i]]) == multiset(r) - multiset{r[j]} + multiset{s[i]};
    }
  }

  /** The exchange `a[i], a[j] = a[j], a[i]`. */
  method Exchange<T>(a: array<T>, i: int, j: int)
    requires 0 <= i < a.Length && 0 <= j < a.Length
    modifies a
    ensures a[..] == SwapAt(old(a[..]), i, j)
  {
    a[i], a[j] := a[j], a[i];
  }

  /** The Fisher–Yates passes `rand.Shuffle` makes over positions i, i-1, ..., 1:
      position i is exchanged with a drawn position in 0..i, and each pass
      reads the next draw, starting with draw t. */
  function FisherYates<T>(s: seq<T>, src: Source, t: nat, i: int): (r: seq<T>)
    requires -1 <= i < |s|
    ensures |r| == |s|
    decreases i
  {
    if i <= 0 then s
    else FisherYates(SwapAt(s, i, Intn(src, t, i + 1)), src, t + 1, i - 1)
  }

  /** A shuffle only rearranges. */
  lemma {:induction false} FisherYatesMultiset<T>(s: seq<T>, src: Source, t: nat, i: int)
    requires -1 <= i < |s|
    ensures multiset(FisherYates(s, src, t, i)) == multiset(s)
    decreases i
  {
    if i > 0 {
      var j := Intn(src, t, i + 1);
      SwapAtMultiset(s, i, j);
      FisherYatesMultiset(SwapAt(s, i, j), src, t + 1, i - 1);
    }
  }

  /** A shuffle of the whole sequence, reading draws t, t+1, ... */
  function Shuffled<T>(s: seq<T>, src: Source, t: nat): (r: seq<T>)
    ensures |r| == |s|
  {
    FisherYates(s, src, t, |s| - 1)
  }

  lemma ShuffledMultiset<T>(s: seq<T>, src: Source, t: nat)
    ensures multiset(Shuffled(s, src, t)) == multiset(s)
  {
    FisherYatesMultiset(s, src, t, |s| - 1);
  }

  /** How many draws a shuffle of n elements reads. */
  function ShuffleDraws(n: nat): nat {
    if n == 0 then 0 else n - 1
  }

  /** `rand.Shuffle` with the usual exchange callback, in place. */
  method Shuffle<T>(a: array<T>, src: Source, t: nat) returns (t': nat)
    modifies a
    ensures a[..] == Shuffled(old(a[..]), src, t)
    ensures t' == t + ShuffleDraws(a.Length)
  {
    ghost var cur := a[..];
    ghost var target := Shuffled(cur, src, t);
    var n := a.Length;
    var i := n - 1;
    t' := t;
    while i > 0
      invariant -1 <= i < n && (i == -1 ==> n == 0)
      invariant t' == t + (n - 1 - i)
      invariant a[..] == cur && |cur| == n
      invariant FisherYates(cur, src, t', i) == target
    {
      var j := Intn(src, t', i + 1);
      cur := SwapAt(cur, i, j);
      Exchange(a, i, j);
      t', i := t' + 1, i - 1;
    }
    t' := t + ShuffleDraws(n);
  }
}
