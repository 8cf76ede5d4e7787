/** The double-bridge perturbation of iterated local search
    (Corte_1/Busqueda_Local_Iterada/perturbation/double_bridge.go): three
    cut points split the tour into A B C D and the result is A D C B.

    The three `rand.Intn(n/4)` draws are the parameters r1, r2, r3. */
module DoubleBridgeMove {
  /** The cut points for a tour of n >= 8 cities: each one is the previous
      one plus a draw plus one, and the last is capped at n-1. */
  function Cuts(n: nat, r1: nat, r2: nat, r3: nat): (c: (int, int, int))
    requires n >= 8 && r1 < n / 4 && r2 < n / 4 && r3 < n / 4
    ensures 1 <= c.0 < c.1 < c.2 <= n - 1
  {
    var p1 := r1 + 1;
    var p2 := p1 + r2 + 1;
    var p3 := p2 + r3 + 1;
    (p1, p2, if p3 >= n then n - 1 else p3)
  }

  /** Three draws below n/4 never reach n, so the cap on the last cut never
      applies: the cuts are the plain running sums. */
  lemma CutsNeverCapped(n: nat, r1: nat, r2: nat, r3: nat)
    requires n >= 8 && r1 < n / 4 && r2 < n / 4 && r3 < n / 4
    ensures Cuts(n, r1, r2, r3) == (r1 + 1, r1 + r2 + 2, r1 + r2 + r3 + 3)
  {
    assert 4 * (n / 4) <= n;
  }

  /** The reconnection for cuts p1 <= p2 <= p3: A ++ D ++ C ++ B for
      A = tour[..p1], B = tour[p1..p2], C = tour[p2..p3] and D = tour[p3..]. */
  function Bridge<T>(tour: seq<T>, p1: int, p2: int, p3: int): seq<T>
    requires 0 <= p1 <= p2 <= p3 <= |tour|
  {
    tour[..p1] + tour[p3..] + tour[p2..p3] + tour[p1..p2]
  }

  /** DoubleBridge: a tour of fewer than 8 cities comes back as it is;
      otherwise the reconnection at the drawn cuts. */
  function DoubleBridge<T>(tour: seq<T>, r1: nat, r2: nat, r3: nat): (r: seq<T>)
    requires |tour| >= 8 ==> r1 < |tour| / 4 && r2 < |tour| / 4 && r3 < |tour| / 4
    ensures |r| == |tour|
  {
    if |tour| < 8 then tour
    else
      var c := Cuts(|tour|, r1, r2, r3);
      Bridge(tour, c.0, c.1, c.2)
  }

  /** The reconnection position by position: the prefix up to p1 stays,
      then come the tail from p3, the piece from p2 and the piece from p1. */
  lemma BridgeAt<T>(tour: seq<T>, p1: int, p2: int, p3: int)
    requires 0 <= p1 <= p2 <= p3 <= |tour|
    ensures
      var n, r := |tour|, Bridge(tour, p1, p2, p3);
      var e1, e2 := p1 + (n - p3), p1 + (n - p3) + (p3 - p2);
      |r| == n &&
      (forall k :: 0 <= k < p1 ==> r[k] == tour[k]) &&
      (forall k :: p1 <= k < e1 ==> r[k] == tour[p3 + (k - p1)]) &&
      (forall k :: e1 <= k < e2 ==> r[k] == tour[p2 + (k - e1)]) &&
      (forall k :: e2 <= k < n ==> r[k] == tour[p1 + (k - e2)])
  {
    var A, B, C, D := tour[..p1], tour[p1..p2], tour[p2..p3], tour[p3..];
    JoinFourAt(A, D, C, B);
  }

  /** The reconnection keeps the multiset of cities. */
  lemma BridgeMultiset<T>(tour: seq<T>, p1: int, p2: int, p3: int)
    requires 0 <= p1 <= p2 <= p3 <= |tour|
    ensures multiset(Bridge(tour, p1, p2, p3)) == multiset(tour)
  {
    var A, B, C, D := tour[..p1], tour[p1..p2], tour[p2..p3], tour[p3..];
    assert tour == A + B + C + D;
  }

  /** The result of a double bridge on 8 or more cities, position by
      position: the prefix up to the first cut stays (tour[0] included), then
      come the tail D, then C, then B; the multiset of cities is kept. */
  lemma DoubleBridgeFacts<T>(tour: seq<T>, r1: nat, r2: nat, r3: nat)
    requires |tour| >= 8 && r1 < |tour| / 4 && r2 < |tour| / 4 && r3 < |tour| / 4
    ensures
      var n, c, r := |tour|, Cuts(|tour|, r1, r2, r3), DoubleBridge(tour, r1, r2, r3);
      var p1, p2, p3 := c.0, c.1, c.2;
      var e1, e2 := p1 + (n - p3), p1 + (n - p3) + (p3 - p2);
      (forall k :: 0 <= k < p1 ==> r[k] == tour[k]) &&
      (forall k :: p1 <= k < e1 ==> r[k] == tour[p3 + (k - p1)]) &&
      (forall k :: e1 <= k < e2 ==> r[k] == tour[p2 + (k - e1)]) &&
      (forall k :: e2 <= k < n ==> r[k] == tour[p1 + (k - e2)]) &&
      multiset(r) == multiset(tour)
  {
    var c := Cuts(|tour|, r1, r2, r3);
    assert DoubleBridge(tour, r1, r2, r3) == Bridge(tour, c.0, c.1, c.2);
    BridgeAt(tour, c.0, c.1, c.2);
    BridgeMultiset(tour, c.0, c.1, c.2);
  }

  /** Where each element of a four-piece concatenation comes from. */
  lemma JoinFourAt<T>(X: seq<T>, Y: seq<T>, Z: seq<T>, W: seq<T>)
    ensures var r, e1, e2, e3 := X + Y + Z + W, |X|, |X| + |Y|, |X| + |Y| + |Z|;
      |r| == e3 + |W| &&
      (forall k :: 0 <= k < e1 ==> r[k] == X[k]) &&
      (forall k :: e1 <= k < e2 ==> r[k] == Y[k - e1]) &&
      (forall k :: e2 <= k < e3 ==> r[k] == Z[k - e2]) &&
      (forall k :: e3 <= k < |r| ==> r[k] == W[k - e3])
  {
  }

  /** A short tour is returned unchanged. */
  lemma DoubleBridgeShort<T>(tour: seq<T>, r1: nat, r2: nat, r3: nat)
    requires |tour| < 8
    ensures DoubleBridge(tour, r1, r2, r3) == tour
  {
  }
}
