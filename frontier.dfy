/** The search nodes and the priority queue of the exact solver
    (Corte_1/Solucion_Exacta/main.go: Item, PriorityQueue and its use through
    container/heap). */
module Frontier {

  /** A node of the search tree: a partial tour from city 0. */
  datatype Item = Item(lowerBound: real, currentCity: int, path: seq<int>, visited: set<int>, actualCost: nat)

  /** The queue is a slice of items; Len, Less, Swap, Push and Pop are the
      methods container/heap calls. */
  class PriorityQueue {
    var items: seq<Item>

    constructor ()
      ensures items == []
    {
      items := [];
    }

    function Len(): nat
      reads this
    {
      |items|
    }

    predicate Less(i: int, j: int)
      reads this
      requires 0 <= i < |items| && 0 <= j < |items|
    {
      items[i].lowerBound < items[j].lowerBound
    }

    method Swap(i: int, j: int)
      requires 0 <= i < |items| && 0 <= j < |items|
      modifies this
      ensures items == old(items)[i := old(items)[j]][j := old(items)[i]]
    {
      items := items[i := items[j]][j := items[i]];
    }

    method Push(x: Item)
      modifies this
      ensures items == old(items) + [x]
    {
      items := items + [x];
    }

    method Pop() returns (x: Item)
      requires |items| > 0
      modifies this
      ensures x == old(items)[|old(items)| - 1]
      ensures items == old(items)[..|old(items)| - 1]
    {
      x := items[|items| - 1];
      items := items[..|items| - 1];
    }
  }

  lemma SwapMultiset(s: seq<Item>, i: int, j: int)
    requires 0 <= i < |s| && 0 <= j < |s|
    ensures multiset(s[i := s[j]][j := s[i]]) == multiset(s)
  {
    var s1 := s[i := s[j]];
    assert multiset(s1) == multiset(s) - multiset{s[i]} + multiset{s[j]};
    assert multiset(s1[j := s[i]]) == multiset(s1) - multiset{s1[j]} + multiset{s[i]};
  }

  /** heap.Push: the item joins the queue. */
  method HeapPush(pq: PriorityQueue, x: Item)
    modifies pq
    ensures pq.items == old(pq.items) + [x]
  {
    pq.Push(x);
  }

  /** heap.Pop: an item of least lowerBound leaves the queue, and every other
      item stays. */
  method HeapPop(pq: PriorityQueue) returns (x: Item)
    requires |pq.items| > 0
    modifies pq
    ensures x in old(pq.items)
    ensures forall it :: it in old(pq.items) ==> x.lowerBound <= it.lowerBound
    ensures multiset(pq.items) + multiset{x} == multiset(old(pq.items))
  {
    var n := pq.Len();
    var best := 0;
    var i := 1;
    while i < n
      invariant 1 <= i <= n && 0 <= best < n
      invariant pq.items == old(pq.items)
      invariant forall k :: 0 <= k < i ==> pq.items[best].lowerBound <= pq.items[k].lowerBound
    {
      if pq.Less(i, best) {
        best := i;
      }
      i := i + 1;
    }
    SwapMultiset(pq.items, best, n - 1);
    pq.Swap(best, n - 1);
    ghost var swapped := pq.items;
    assert swapped == swapped[..n - 1] + [swapped[n - 1]];
    x := pq.Pop();
  }
}
