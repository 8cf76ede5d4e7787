/** Sorting by a key and sums over sequences.

    The source sorts with Go's `sort.Float64s` and `sort.Slice`; the model uses
    one stable insertion sort, and every property proved about a caller uses
    only what any correct sort promises: the output is ordered by the key and
    is a rearrangement of the input. */
module Sorting {

  predicate SortedBy<T>(s: seq<T>, key: T -> int) {
    forall i, j :: 0 <= i < j < |s| ==> key(s[i]) <= key(s[j])
  }

  function Insert<T>(x: T, s: seq<T>, key: T -> int): (r: seq<T>)
    requires SortedBy(s, key)
    ensures SortedBy(r, key)
    ensures multiset(r) == multiset(s) + multiset{x}
    ensures |r| == |s| + 1
  {
    if |s| == 0 then [x]
    else if key(x) <= key(s[0]) then [x] + s
    else
      assert s == [s[0]] + s[1..];
      var r' := Insert(x, s[1..], key);
      KeyLowerBound(r', s[1..], x, key, key(s[0]));
      [s[0]] + r'
  }

  lemma KeyLowerBound<T>(r: seq<T>, s: seq<T>, x: T, key: T -> int, lo: int)
    requires multiset(r) == multiset(s) + multiset{x}
    requires forall i :: 0 <= i < |s| ==> lo <= key(s[i])
    requires lo <= key(x)
    ensures forall k :: 0 <= k < |r| ==> lo <= key(r[k])
  {
    forall k | 0 <= k < |r| ensures lo <= key(r[k]) {
      assert r[k] in multiset(r);
      if r[k] != x {
        assert r[k] in multiset(s);
        assert r[k] in s;
      }
    }
  }

  /** `s` ordered by ascending key. */
  function SortBy<T>(s: seq<T>, key: T -> int): (r: seq<T>)
    ensures SortedBy(r, key)
    ensures multiset(r) == multiset(s)
    ensures |r| == |s|
  {
    if |s| == 0 then []
    else
      assert s == [s[0]] + s[1..];
      Insert(s[0], SortBy(s[1..], key), key)
  }

  function SumOf<T>(s: seq<T>, f: T -> nat): nat {
    if |s| == 0 then 0 else SumOf(s[..|s| - 1], f) + f(s[|s| - 1])
  }

  lemma {:induction false} SumOfAppend<T>(a: seq<T>, b: seq<T>, f: T -> nat)
    ensures SumOf(a + b, f) == SumOf(a, f) + SumOf(b, f)
    decreases |b|
  {
    if |b| == 0 {
      assert a + b == a;
    } else {
      var b' := b[..|b| - 1];
      SumOfAppend(a, b', f);
      assert (a + b)[..|a + b| - 1] == a + b';
    }
  }

  lemma SumOfPush<T>(s: seq<T>, x: T, f: T -> nat)
    ensures SumOf(s + [x], f) == SumOf(s, f) + f(x)
  {
    assert (s + [x])[..|s|] == s;
  }

  lemma {:induction false} SumOfCons<T>(x: T, s: seq<T>, f: T -> nat)
    ensures SumOf([x] + s, f) == f(x) + SumOf(s, f)
  {
    SumOfAppend([x], s, f);
    assert [x][..0] == [];
  }

  /** A sum does not depend on the order of its terms. */
  lemma {:induction false} SumOfPermutation<T>(a: seq<T>, b: seq<T>, f: T -> nat)
    requires multiset(a) == multiset(b)
    ensures SumOf(a, f) == SumOf(b, f)
    decreases |a|
  {
    if |a| == 0 {
      assert |b| == |multiset(b)| == 0;
    } else {
      var x, a' := a[0], a[1..];
      assert x in multiset(b);
      var k :| 0 <= k < |b| && b[k] == x;
      var b' := b[..k] + b[k + 1..];
      RemoveMultiset(b, k);
      assert a == [x] + a';
      assert multiset(a') == multiset(b');
      SumOfPermutation(a', b', f);
      SumOfCons(x, a', f);
      SumOfRemove(b, k, f);
    }
  }

  lemma RemoveMultiset<T>(b: seq<T>, k: int)
    requires 0 <= k < |b|
    ensures multiset(b[..k] + b[k + 1..]) == multiset(b) - multiset{b[k]}
  {
    assert b == b[..k] + [b[k]] + b[k + 1..];
  }

  lemma SumOfRemove<T>(b: seq<T>, k: int, f: T -> nat)
    requires 0 <= k < |b|
    ensures SumOf(b, f) == SumOf(b[..k] + b[k + 1..], f) + f(b[k])
  {
    var l, r := b[..k], b[k + 1..];
    SplitAt(b, k);
    SumOfAppend(l + [b[k]], r, f);
    SumOfPush(l, b[k], f);
    SumOfAppend(l, r, f);
  }

  lemma SplitAt<T>(b: seq<T>, k: int)
    requires 0 <= k < |b|
    ensures b == b[..k] + [b[k]] + b[k + 1..]
  {
  }

  /** Term-wise domination carries over to the sums. */
  lemma {:induction false} SumOfMono<T>(s: seq<T>, f: T -> nat, g: T -> nat)
    requires forall i :: 0 <= i < |s| ==> f(s[i]) <= g(s[i])
    ensures SumOf(s, f) <= SumOf(s, g)
  {
    if |s| > 0 {
      SumOfMono(s[..|s| - 1], f, g);
    }
  }
}
