/** The exchange of vectors ends: while no link is new, no neighbour expires and no router is
  * heard for the first time, only finitely many vectors can be delivered.
  *
  * Distances may rise on the way. The measure therefore goes by levels: distances up to k
  * are settled by what neighbours say up to k - 1. For each level it counts the distances
  * that nobody offers any more, and the changes that are still to be delivered.
  */
module DvExchange {
  import opened Basics
  import opened DvProtocol
  import opened DvNetwork
  import opened DvConvergence
  import opened Totals

  // ---------- vectors up to a level ----------

  function Trunc(x: Uint32, k: nat): nat {
    if x <= k then x else k + 1
  }

  /** The two vectors agree up to level k on the first n destinations other than v. */
  ghost predicate SameUpTo(a: Vector, b: Vector, v: NodeId, n: nat, k: nat) {
    forall d: NodeId :: d < n && d != v ==> Trunc(Value(a, d), k) == Trunc(Value(b, d), k)
  }

  lemma {:induction false} LowerLevel(a: Vector, b: Vector, v: NodeId, n: nat, j: nat, k: nat)
    requires j <= k && SameUpTo(a, b, v, n, k)
    ensures SameUpTo(a, b, v, n, j)
  {
    forall d: NodeId | d < n && d != v ensures Trunc(Value(a, d), j) == Trunc(Value(b, d), j) {
      assert Trunc(Value(a, d), k) == Trunc(Value(b, d), k);
    }
  }

  // ---------- one recomputation ----------

  /** The states offer the same for d below k. */
  ghost predicate SameOffersBelow(s: DvState, r: DvState, d: NodeId, k: nat)
    requires Computable(s.costs, s.neighbors) && Computable(r.costs, r.neighbors)
  {
    s.costs == r.costs &&
    (k > 0 ==> forall j :: j in s.costs ==>
      Trunc(Value(s.neighbors[j].dv, d), k - 1) == Trunc(Value(r.neighbors[j].dv, d), k - 1))
  }

  lemma {:induction false} OfferIs(links: Links, u: NodeId, s: DvState, j: NodeId, d: NodeId)
    requires HonestState(links, u, s) && Computable(s.costs, s.neighbors) && Offers(s.costs, s.neighbors, j, d)
    ensures
      var x := s.neighbors[j].dv[d];
      Offer(s.costs, s.neighbors, j, d) == if x <= MAX_HOPS then x + 1 else M_INF
  {
    assert HonestNeighbor(links, u, s, j);
    assert Honest(links, j, d, s.neighbors[j].dv[d]);
  }

  /** A least offer of at most k comes from an offer of less than k. */
  lemma {:induction false} LeastBelow(links: Links, u: NodeId, s: DvState, r: DvState, d: NodeId, k: nat)
    requires HonestState(links, u, s) && HonestState(links, u, r)
    requires Computable(s.costs, s.neighbors) && Computable(r.costs, r.neighbors)
    requires SameOffersBelow(s, r, d, k) && k <= MAX_HOPS && MinCost(s.costs, s.neighbors, d) <= k
    ensures MinCost(r.costs, r.neighbors, d) <= MinCost(s.costs, s.neighbors, d)
  {
    var c := MinCost(s.costs, s.neighbors, d);
    var j :| Offers(s.costs, s.neighbors, j, d) && c == Offer(s.costs, s.neighbors, j, d);
    OfferIs(links, u, s, j, d);
    assert Trunc(Value(s.neighbors[j].dv, d), k - 1) == Trunc(Value(r.neighbors[j].dv, d), k - 1);
    OfferIs(links, u, r, j, d);
  }

  lemma {:induction false} SameLeastBelow(links: Links, u: NodeId, s: DvState, r: DvState, d: NodeId, k: nat)
    requires HonestState(links, u, s) && HonestState(links, u, r)
    requires Computable(s.costs, s.neighbors) && Computable(r.costs, r.neighbors)
    requires SameOffersBelow(s, r, d, k) && k <= MAX_HOPS
    ensures Trunc(MinCost(s.costs, s.neighbors, d), k) == Trunc(MinCost(r.costs, r.neighbors, d), k)
  {
    if MinCost(s.costs, s.neighbors, d) <= k {
      LeastBelow(links, u, s, r, d, k);
    }
    if MinCost(r.costs, r.neighbors, d) <= k {
      LeastBelow(links, u, r, s, d, k);
    }
  }

  /** A distance of at most k that nobody offers. */
  ghost predicate Stale(s: DvState, d: NodeId, k: nat)
    requires Computable(s.costs, s.neighbors)
  {
    Value(s.dv, d) <= k < MinCost(s.costs, s.neighbors, d)
  }

  lemma {:induction false} ValueAfter(r: DvState, names: set<NodeId>, s': DvState, changed: bool, d: NodeId)
    requires Computable(r.costs, r.neighbors) && Recomputed(r, names, s', changed) && d != r.me
    requires forall j :: Offers(r.costs, r.neighbors, j, d) ==> d in r.dv || d in names
    ensures Value(s'.dv, d) ==
            if MinCost(r.costs, r.neighbors, d) <= MAX_HOPS then MinCost(r.costs, r.neighbors, d) else Value(r.dv, d)
  {
  }

  /** Where the offers below k stay, a distance can change at level k only by giving up a
    * value that was stale. */
  lemma {:induction false} LevelKept(links: Links, u: NodeId, s: DvState, r: DvState, names: set<NodeId>, s': DvState,
                                     changed: bool, d: NodeId, k: nat)
    requires HonestState(links, u, s) && HonestState(links, u, r) && UpToDate(s) && Computable(r.costs, r.neighbors)
    requires Recomputed(r, names, s', changed) && r.dv == s.dv && d != u && k <= MAX_HOPS
    requires forall j :: Offers(r.costs, r.neighbors, j, d) ==> d in r.dv || d in names
    requires SameOffersBelow(s, r, d, k)
    ensures Computable(s'.costs, s'.neighbors) && (Stale(s', d, k) ==> Stale(s, d, k))
    ensures Trunc(Value(s.dv, d), k) != Trunc(Value(s'.dv, d), k) ==> Stale(s, d, k) && !Stale(s', d, k)
  {
    SameLeastBelow(links, u, s, r, d, k);
    ValueAfter(r, names, s', changed, d);
    if MinCost(s.costs, s.neighbors, d) <= MAX_HOPS {
      HeldIsLeast(s, d);
    }
  }

  lemma {:induction false} HeldIsLeast(s: DvState, d: NodeId)
    requires UpToDate(s) && d != s.me && MinCost(s.costs, s.neighbors, d) <= MAX_HOPS
    ensures Value(s.dv, d) == MinCost(s.costs, s.neighbors, d)
  {
    var j :| Offers(s.costs, s.neighbors, j, d) && MinCost(s.costs, s.neighbors, d) == Offer(s.costs, s.neighbors, j, d);
    assert d in s.dv;
  }

  // ---------- changes still to be delivered ----------

  /** How often a queue changes the vector held of its sender at level k. */
  ghost function Changes(q: seq<Message>, held: Vector, v: NodeId, n: nat, k: nat): nat {
    if q == [] then 0
    else if q[0].Hello? then Changes(q[1..], held, v, n, k)
    else (if SameUpTo(held, q[0].vector, v, n, k) then 0 else 1) + Changes(q[1..], q[0].vector, v, n, k)
  }

  /** A vector sent adds a change exactly when it differs from the last one. */
  lemma {:induction false} ChangesSnoc(q: seq<Message>, held: Vector, x: Vector, v: NodeId, n: nat, k: nat)
    ensures LastVector(q, Some(held)).Some?
    ensures Changes(q + [Table(x)], held, v, n, k) == Changes(q, held, v, n, k) +
            (if SameUpTo(LastVector(q, Some(held)).value, x, v, n, k) then 0 else 1)
  {
    if q == [] {
      assert [Table(x)][1..] == [];
      assert q + [Table(x)] == [Table(x)];
    } else {
      LastVectorPop(q, Some(held));
      assert (q + [Table(x)])[1..] == q[1..] + [Table(x)];
      ChangesSnoc(q[1..], if q[0].Hello? then held else q[0].vector, x, v, n, k);
    }
  }

  /** A hello changes nothing. */
  lemma {:induction false} ChangesHello(q: seq<Message>, held: Vector, v: NodeId, n: nat, k: nat)
    ensures Changes(q + [Hello], held, v, n, k) == Changes(q, held, v, n, k)
  {
    if q == [] {
      assert [Hello][1..] == [];
      assert q + [Hello] == [Hello];
    } else {
      assert (q + [Hello])[1..] == q[1..] + [Hello];
      ChangesHello(q[1..], if q[0].Hello? then held else q[0].vector, v, n, k);
    }
  }

  /** The number of vectors in a queue. */
  function Tables(q: seq<Message>): nat {
    if q == [] then 0 else (if q[0].Table? then 1 else 0) + Tables(q[1..])
  }

  lemma {:induction false} TablesSnoc(q: seq<Message>, m: Message)
    ensures Tables(q + [m]) == Tables(q) + if m.Table? then 1 else 0
  {
    if q == [] {
      assert [m][1..] == [];
      assert q + [m] == [m];
    } else {
      assert (q + [m])[1..] == q[1..] + [m];
      TablesSnoc(q[1..], m);
    }
  }

  /** The vector held of u, none being as good as an empty one. */
  function HeldVector(s: DvState, u: NodeId): Vector {
    if u in s.neighbors then s.neighbors[u].dv else map[]
  }

  // ---------- the counters ----------

  ghost function StaleAt(net: Net, v: NodeId, d: NodeId, k: nat): nat {
    if v < |net.nodes| && d != v && Computable(net.nodes[v].costs, net.nodes[v].neighbors) && Stale(net.nodes[v], d, k)
    then 1 else 0
  }

  ghost function ChangesAt(net: Net, a: NodeId, b: NodeId, k: nat): nat {
    if b < |net.nodes| then Changes(Queue(net, a, b), HeldVector(net.nodes[b], a), b, |net.nodes|, k) else 0
  }

  ghost function StaleTerms(net: Net, k: nat): (nat, nat) -> nat {
    (v, d) => StaleAt(net, v, d, k)
  }

  ghost function ChangeTerms(net: Net, k: nat): (nat, nat) -> nat {
    (x, y) => ChangesAt(net, x, y, k)
  }

  ghost function QueueTerms(net: Net): (nat, nat) -> nat {
    (x, y) => Tables(Queue(net, x, y))
  }

  ghost function StaleCount(net: Net, k: nat): nat {
    Total2(|net.nodes|, StaleTerms(net, k))
  }

  ghost function ChangeCount(net: Net, k: nat): nat {
    Total2(|net.nodes|, ChangeTerms(net, k))
  }

  ghost function QueuedCount(net: Net): nat {
    Total2(|net.nodes|, QueueTerms(net))
  }

  const COUNTERS: nat := 2 * MAX_HOPS + 3

  ghost function Counter(net: Net, i: nat): nat {
    if i == COUNTERS - 1 then QueuedCount(net)
    else if i % 2 == 0 then StaleCount(net, i / 2)
    else ChangeCount(net, i / 2)
  }

  ghost function Counters(net: Net): seq<nat> {
    seq(COUNTERS, i requires 0 <= i < COUNTERS => Counter(net, i))
  }

  ghost function Work(net: Net): nat {
    Weight(Counters(net), |net.nodes|)
  }

  // ---------- delivering a vector ----------

  /** Router v takes a vector of its neighbour u. */
  ghost predicate Delivery(net: Net, a: Action, e: Effect, net': Net) {
    Live(net) && a.DeliverTable? && Handles(net, a, e) && Orderly(net, a) && Moves(net, e, net')
  }

  ghost predicate Takes(net: Net, a: Action) {
    a.DeliverTable? && a.u < |net.nodes| && a.v < |net.nodes| && a.u != a.v &&
    Queue(net, a.u, a.v) != [] && Queue(net, a.u, a.v)[0].Table?
  }

  /** The vector taken says nothing new up to level k. */
  ghost predicate NothingNew(net: Net, a: Action, k: nat)
    requires Takes(net, a)
  {
    SameUpTo(HeldVector(net.nodes[a.v], a.u), Queue(net, a.u, a.v)[0].vector, a.v, |net.nodes|, k)
  }

  /** The receiver's own vector does not change up to level k. */
  ghost predicate NothingChanged(net: Net, a: Action, e: Effect, k: nat)
    requires a.DeliverTable? && a.v < |net.nodes|
  {
    SameUpTo(net.nodes[a.v].dv, e.state.dv, a.v, |net.nodes|, k)
  }

  lemma {:induction false} DeliveryStates(net: Net, a: Action, e: Effect, net': Net)
    requires Delivery(net, a, e, net')
    ensures a.u < |net.nodes| && a.v < |net.nodes| && a.u != a.v && e.u == a.v && |net'.nodes| == |net.nodes|
    ensures Queue(net, a.u, a.v) != [] && Queue(net, a.u, a.v)[0].Table? && a.u in net.nodes[a.v].costs
    ensures forall w: NodeId :: w < |net.nodes| ==> net'.nodes[w] == if w == a.v then e.state else net.nodes[w]
    ensures !e.hello && e.sends <= 1 && e.state.costs == net.nodes[a.v].costs
  {
    assert HonestQueue(net, a.u, a.v);
  }

  lemma {:induction false} DeliveryRecomputes(net: Net, a: Action, e: Effect, net': Net)
    requires Delivery(net, a, e, net') && Takes(net, a)
    ensures UpToDate(net.nodes[a.v]) && HonestState(net.links, a.v, net.nodes[a.v])
    ensures
      var s, vector := net.nodes[a.v], Queue(net, a.u, a.v)[0].vector;
      var r := Received(s, a.u, vector, a.interfaceAddr, a.now);
      HonestState(net.links, a.v, r) && Computable(r.costs, r.neighbors) &&
      Recomputed(r, vector.Keys, e.state, e.sends == 1)
  {
    var s, vector := net.nodes[a.v], Queue(net, a.u, a.v)[0].vector;
    assert HonestState(net.links, a.v, s) && HonestQueue(net, a.u, a.v) && UpToDate(s);
    ReceivedIsHonest(net.links, a.v, s, a.u, vector, a.interfaceAddr, a.now);
  }

  lemma {:induction false} MovedQueue(net: Net, e: Effect, net': Net, u: NodeId, v: NodeId, x: NodeId, y: NodeId)
    requires e.u < |net.nodes| && Moves(net, e, net') && e.from == Some(u) && e.u == v && u != v && Queue(net, u, v) != []
    ensures x == u && y == v ==> Queue(net', x, y) == Queue(net, x, y)[1..]
    ensures x == v && y != v ==>
      Queue(net', x, y) == Queue(net, x, y) + (if (x, y) in net.links then Emission(e, y) else [])
    ensures x != v && !(x == u && y == v) ==> Queue(net', x, y) == Queue(net, x, y)
  {
    assert Queue(net, u, v)[1..] + [] == Queue(net, u, v)[1..];
    assert Queue(net, x, y) + [] == Queue(net, x, y);
  }

  lemma {:induction false} DeliveryQueues(net: Net, a: Action, e: Effect, net': Net, x: NodeId, y: NodeId)
    requires Delivery(net, a, e, net')
    ensures x == a.u && y == a.v ==> Queue(net, x, y) != [] && Queue(net', x, y) == Queue(net, x, y)[1..]
    ensures x == a.v && y != a.v ==>
      Queue(net', x, y) == Queue(net, x, y) + (if (x, y) in net.links then Emission(e, y) else [])
    ensures x != a.v && !(x == a.u && y == a.v) ==> Queue(net', x, y) == Queue(net, x, y)
  {
    DeliveryStates(net, a, e, net');
    MovedQueue(net, e, net', a.u, a.v, x, y);
  }

  /** Offers below level k stay when the vector taken says nothing new below it. */
  lemma {:induction false} OffersStay(net: Net, a: Action, e: Effect, net': Net, d: NodeId, k: nat)
    requires Delivery(net, a, e, net') && Takes(net, a) && d < |net.nodes| && d != a.v && (k > 0 ==> NothingNew(net, a, k - 1))
    ensures
      var s := net.nodes[a.v];
      var r := Received(s, a.u, Queue(net, a.u, a.v)[0].vector, a.interfaceAddr, a.now);
      Computable(s.costs, s.neighbors) && Computable(r.costs, r.neighbors) && SameOffersBelow(s, r, d, k)
  {
    DeliveryStates(net, a, e, net');
    DeliveryRecomputes(net, a, e, net');
  }

  lemma {:induction false} NamesStay(s: DvState, from: NodeId, vector: Vector, i: nat, now: int, d: NodeId)
    requires UpToDate(s)
    ensures
      var r := Received(s, from, vector, i, now);
      forall j :: Offers(r.costs, r.neighbors, j, d) ==> d in r.dv || d in vector.Keys
  {
    var r := Received(s, from, vector, i, now);
    forall j | Offers(r.costs, r.neighbors, j, d) ensures d in r.dv || d in vector.Keys {
      assert j != from ==> Offers(s.costs, s.neighbors, j, d);
    }
  }

  /** What a delivery does to one stale distance of the receiver. */
  lemma {:induction false} StaleStays(net: Net, a: Action, e: Effect, net': Net, d: NodeId, k: nat)
    requires Delivery(net, a, e, net') && Takes(net, a) && d < |net.nodes| && d != a.v
    requires k <= MAX_HOPS && (k > 0 ==> NothingNew(net, a, k - 1))
    ensures StaleAt(net', a.v, d, k) <= StaleAt(net, a.v, d, k)
    ensures Trunc(Value(net.nodes[a.v].dv, d), k) != Trunc(Value(e.state.dv, d), k) ==>
      StaleAt(net', a.v, d, k) < StaleAt(net, a.v, d, k)
  {
    DeliveryStates(net, a, e, net');
    DeliveryRecomputes(net, a, e, net');
    OffersStay(net, a, e, net', d, k);
    var s, vector := net.nodes[a.v], Queue(net, a.u, a.v)[0].vector;
    var r := Received(s, a.u, vector, a.interfaceAddr, a.now);
    NamesStay(s, a.u, vector, a.interfaceAddr, a.now, d);
    LevelKept(net.links, a.v, s, r, vector.Keys, e.state, e.sends == 1, d, k);
  }

  // ---------- what a delivery does to single queues and distances ----------

  lemma {:induction false} HeldStays(net: Net, a: Action, e: Effect, net': Net, x: NodeId, y: NodeId)
    requires Delivery(net, a, e, net') && Takes(net, a) && y < |net.nodes| && !(x == a.u && y == a.v)
    ensures |net'.nodes| == |net.nodes| && HeldVector(net'.nodes[y], x) == HeldVector(net.nodes[y], x)
  {
    DeliveryStates(net, a, e, net');
  }

  /** Taking a vector delivers a change at the levels at which it says something new. */
  lemma {:induction false} ChangesTaken(net: Net, a: Action, e: Effect, net': Net, k: nat)
    requires Delivery(net, a, e, net') && Takes(net, a)
    ensures ChangesAt(net', a.u, a.v, k) + (if NothingNew(net, a, k) then 0 else 1) == ChangesAt(net, a.u, a.v, k)
  {
    DeliveryStates(net, a, e, net');
    DeliveryQueues(net, a, e, net', a.u, a.v);
  }

  lemma {:induction false} ChangesElsewhere(net: Net, a: Action, e: Effect, net': Net, x: NodeId, y: NodeId, k: nat)
    requires Delivery(net, a, e, net') && Takes(net, a) && x != a.v && !(x == a.u && y == a.v)
    ensures ChangesAt(net', x, y, k) == ChangesAt(net, x, y, k)
  {
    DeliveryStates(net, a, e, net');
    DeliveryQueues(net, a, e, net', x, y);
    if y < |net.nodes| {
      HeldStays(net, a, e, net', x, y);
    }
  }

  /** A delivery is answered by at most one vector to each neighbour. */
  lemma {:induction false} Answer(net: Net, a: Action, e: Effect, net': Net, y: NodeId)
    requires Delivery(net, a, e, net') && Takes(net, a) && y != a.v
    ensures Queue(net', a.v, y) == Queue(net, a.v, y) ||
            (y in net.nodes[a.v].costs && Queue(net', a.v, y) == Queue(net, a.v, y) + [Table(Poisoned(e.state, y))])
  {
    DeliveryStates(net, a, e, net');
    DeliveryQueues(net, a, e, net', a.v, y);
    EmissionIs(e, y);
    assert Queue(net, a.v, y) + [] == Queue(net, a.v, y);
  }

  lemma {:induction false} EmissionIs(e: Effect, y: NodeId)
    requires !e.hello && e.sends <= 1
    ensures Emission(e, y) == if e.sends == 1 && y in e.state.costs then [Table(Poisoned(e.state, y))] else []
  {
  }

  /** What the receiver sends on is at most one change, and none at the levels at which its
    * own vector stays. */
  lemma {:induction false} ChangesSent(net: Net, a: Action, e: Effect, net': Net, y: NodeId, k: nat)
    requires Delivery(net, a, e, net') && Takes(net, a) && y < |net.nodes| && y != a.v
    ensures ChangesAt(net', a.v, y, k) <= ChangesAt(net, a.v, y, k) + (if NothingChanged(net, a, e, k) then 0 else 1)
  {
    HeldStays(net, a, e, net', a.v, y);
    Answer(net, a, e, net', y);
    var q, n := Queue(net, a.v, y), |net.nodes|;
    if Queue(net', a.v, y) != q {
      ChangesSnoc(q, HeldVector(net.nodes[y], a.v), Poisoned(e.state, y), y, n, k);
      if NothingChanged(net, a, e, k) {
        MirrorAfter(net, a, e, net', y, k);
      }
    }
  }

  lemma {:induction false} MirrorAfter(net: Net, a: Action, e: Effect, net': Net, y: NodeId, k: nat)
    requires Delivery(net, a, e, net') && Takes(net, a) && y < |net.nodes| && y in net.nodes[a.v].costs
    requires NothingChanged(net, a, e, k)
    ensures
      var last := LastVector(Queue(net, a.v, y), Some(HeldVector(net.nodes[y], a.v)));
      last.Some? && SameUpTo(last.value, Poisoned(e.state, y), y, |net.nodes|, k)
  {
    DeliveryStates(net, a, e, net');
    DeliveryRecomputes(net, a, e, net');
    EffectIsHonest(net, a, e);
    LastIsMirror(net, a, e, y, k);
  }

  /** The last vector on a link mirrors the sender's, and so does the next one. */
  lemma {:induction false} LastIsMirror(net: Net, a: Action, e: Effect, y: NodeId, k: nat)
    requires Live(net) && a.DeliverTable? && a.v < |net.nodes| && y < |net.nodes| && y in net.nodes[a.v].costs
    requires NothingChanged(net, a, e, k) && HonestState(net.links, a.v, net.nodes[a.v]) && HonestState(net.links, a.v, e.state)
    ensures
      var last := LastVector(Queue(net, a.v, y), Some(HeldVector(net.nodes[y], a.v)));
      last.Some? && SameUpTo(last.value, Poisoned(e.state, y), y, |net.nodes|, k)
  {
    var q, held := Queue(net, a.v, y), HeldOf(net.nodes[y], a.v);
    assert LinkLive(net, a.v, y);
    if held.None? {
      HeldDoesNotMatter(q, Some(HeldVector(net.nodes[y], a.v)));
    }
    var last := LastVector(q, held).value;
    forall d: NodeId | d < |net.nodes| && d != y
      ensures Trunc(Value(last, d), k) == Trunc(Value(Poisoned(e.state, y), d), k)
    {
      assert Value(last, d) == Value(net.nodes[a.v].dv, d);
      assert Value(Poisoned(e.state, y), d) == Value(e.state.dv, d);
      assert d != a.v ==> Trunc(Value(net.nodes[a.v].dv, d), k) == Trunc(Value(e.state.dv, d), k);
    }
  }

  /** No router sends to itself. */
  lemma {:induction false} NoSelfQueue(net: Net, a: Action, e: Effect, net': Net)
    requires Delivery(net, a, e, net') && Takes(net, a)
    ensures Queue(net, a.v, a.v) == [] == Queue(net', a.v, a.v)
  {
    EffectIsHonest(net, a, e);
    MovesAreSafe(net, e, net');
    assert HonestQueue(net, a.v, a.v) && HonestQueue(net', a.v, a.v);
  }

  lemma {:induction false} QueuedAt(net: Net, a: Action, e: Effect, net': Net, x: NodeId, y: NodeId)
    requires Delivery(net, a, e, net') && Takes(net, a)
    ensures Tables(Queue(net', x, y)) + (if x == a.u && y == a.v then 1 else 0) <=
            Tables(Queue(net, x, y)) + (if x == a.v then e.sends else 0)
    ensures e.sends <= 1
  {
    DeliveryStates(net, a, e, net');
    if x != a.v {
      DeliveryQueues(net, a, e, net', x, y);
    } else if y == a.v {
      NoSelfQueue(net, a, e, net');
    } else {
      QueuedFromReceiver(net, a, e, net', y);
    }
  }

  lemma {:induction false} QueuedFromReceiver(net: Net, a: Action, e: Effect, net': Net, y: NodeId)
    requires Delivery(net, a, e, net') && Takes(net, a) && y != a.v
    ensures Tables(Queue(net', a.v, y)) <= Tables(Queue(net, a.v, y)) + e.sends
  {
    DeliveryStates(net, a, e, net');
    DeliveryQueues(net, a, e, net', a.v, y);
    EmissionIs(e, y);
    TablesSnoc(Queue(net, a.v, y), Table(Poisoned(e.state, y)));
    assert Queue(net, a.v, y) + [] == Queue(net, a.v, y);
  }

  lemma {:induction false} InRange(links: Links, u: NodeId, d: NodeId, k: nat, n: nat)
    requires Topology(links, n) && u < n && HopWalk(links, u, d, k)
    ensures d < n
    decreases k
  {
    if k > 0 {
      var w :| (u, w) in links && HopWalk(links, w, d, k - 1);
      InRange(links, w, d, k - 1, n);
    }
  }

  lemma {:induction false} FarNames(links: Links, u: NodeId, v: Vector, d: NodeId, n: nat)
    requires Topology(links, n) && u < n && HonestVector(links, u, v) && d >= n
    ensures Value(v, d) == M_INF
  {
    if d in v && v[d] <= MAX_HOPS {
      InRange(links, u, d, v[d], n);
    }
  }

  /** A vector that stays at all levels stays altogether, and nothing is sent. */
  lemma {:induction false} NoChangeNoAnswer(net: Net, a: Action, e: Effect, net': Net)
    requires Delivery(net, a, e, net') && Takes(net, a) && NothingChanged(net, a, e, MAX_HOPS)
    ensures e.sends == 0
  {
    DeliveryStates(net, a, e, net');
    DeliveryRecomputes(net, a, e, net');
    EffectIsHonest(net, a, e);
    var s, s', n := net.nodes[a.v], e.state, |net.nodes|;
    forall d | d in s'.dv ensures s'.dv[d] == Value(s.dv, d) {
      if d >= n {
        FarNames(net.links, a.v, s.dv, d, n);
        FarNames(net.links, a.v, s'.dv, d, n);
      } else if d != a.v {
        assert Trunc(Value(s.dv, d), MAX_HOPS) == Trunc(Value(s'.dv, d), MAX_HOPS);
        assert Honest(net.links, a.v, d, s'.dv[d]) && (d in s.dv ==> Honest(net.links, a.v, d, s.dv[d]));
      }
    }
  }

  // ---------- the same without the effect in between ----------

  ghost predicate Delivered(net: Net, a: Action, net': Net) {
    Takes(net, a) && |net'.nodes| == |net.nodes| && exists e :: Delivery(net, a, e, net')
  }

  /** The receiver's own vector is the same up to level k. */
  ghost predicate Unchanged(net: Net, a: Action, net': Net, k: nat)
    requires Takes(net, a) && |net'.nodes| == |net.nodes|
  {
    SameUpTo(net.nodes[a.v].dv, net'.nodes[a.v].dv, a.v, |net.nodes|, k)
  }

  lemma {:induction false} StalePoint(net: Net, a: Action, net': Net, w: NodeId, d: NodeId, k: nat)
    requires Delivered(net, a, net') && w < |net.nodes| && d < |net.nodes|
    ensures StaleAt(net', w, d, k) <= 1
    ensures w != a.v ==> StaleAt(net', w, d, k) == StaleAt(net, w, d, k)
    ensures w == a.v && d != a.v && k <= MAX_HOPS && (k > 0 ==> NothingNew(net, a, k - 1)) ==>
      StaleAt(net', w, d, k) <= StaleAt(net, w, d, k) &&
      (Trunc(Value(net.nodes[w].dv, d), k) != Trunc(Value(net'.nodes[w].dv, d), k) ==>
        StaleAt(net', w, d, k) < StaleAt(net, w, d, k))
  {
    var e :| Delivery(net, a, e, net');
    DeliveryStates(net, a, e, net');
    if w == a.v && d != a.v && k <= MAX_HOPS && (k > 0 ==> NothingNew(net, a, k - 1)) {
      StaleStays(net, a, e, net', d, k);
    }
  }

  lemma {:induction false} ChangesPoint(net: Net, a: Action, net': Net, x: NodeId, y: NodeId, k: nat)
    requires Delivered(net, a, net') && x < |net.nodes| && y < |net.nodes|
    ensures x != a.v ==>
      ChangesAt(net', x, y, k) + (if x == a.u && y == a.v && !NothingNew(net, a, k) then 1 else 0) <= ChangesAt(net, x, y, k)
    ensures x == a.v ==>
      ChangesAt(net', x, y, k) <= ChangesAt(net, x, y, k) + (if Unchanged(net, a, net', k) then 0 else 1)
  {
    var e :| Delivery(net, a, e, net');
    if x == a.v {
      ChangesFromReceiver(net, a, e, net', y, k);
    } else if x == a.u && y == a.v {
      ChangesTaken(net, a, e, net', k);
    } else {
      ChangesElsewhere(net, a, e, net', x, y, k);
    }
  }

  lemma {:induction false} ChangesFromReceiver(net: Net, a: Action, e: Effect, net': Net, y: NodeId, k: nat)
    requires Delivery(net, a, e, net') && Takes(net, a) && |net'.nodes| == |net.nodes| && y < |net.nodes|
    ensures ChangesAt(net', a.v, y, k) <= ChangesAt(net, a.v, y, k) + (if Unchanged(net, a, net', k) then 0 else 1)
  {
    DeliveryStates(net, a, e, net');
    if y == a.v {
      NoSelfQueue(net, a, e, net');
    } else {
      ChangesSent(net, a, e, net', y, k);
    }
  }

  lemma {:induction false} QueuedPoint(net: Net, a: Action, net': Net, x: NodeId, y: NodeId)
    requires Delivered(net, a, net')
    ensures Tables(Queue(net', x, y)) + (if x == a.u && y == a.v then 1 else 0) <=
            Tables(Queue(net, x, y)) + (if x == a.v && !Unchanged(net, a, net', MAX_HOPS) then 1 else 0)
  {
    var e :| Delivery(net, a, e, net');
    QueuedFor(net, a, e, net', x, y);
  }

  lemma {:induction false} QueuedFor(net: Net, a: Action, e: Effect, net': Net, x: NodeId, y: NodeId)
    requires Delivery(net, a, e, net') && Takes(net, a) && |net'.nodes| == |net.nodes|
    ensures Tables(Queue(net', x, y)) + (if x == a.u && y == a.v then 1 else 0) <=
            Tables(Queue(net, x, y)) + (if x == a.v && !Unchanged(net, a, net', MAX_HOPS) then 1 else 0)
  {
    QueuedAt(net, a, e, net', x, y);
    if x == a.v {
      SilentIfUnchanged(net, a, e, net');
    }
  }

  lemma {:induction false} SilentIfUnchanged(net: Net, a: Action, e: Effect, net': Net)
    requires Delivery(net, a, e, net') && Takes(net, a) && |net'.nodes| == |net.nodes|
    ensures e.sends <= if Unchanged(net, a, net', MAX_HOPS) then 0 else 1
  {
    DeliveryStates(net, a, e, net');
    if Unchanged(net, a, net', MAX_HOPS) {
      NoChangeNoAnswer(net, a, e, net');
    }
  }

  /** The same for all distances, queues and levels at once. */
  ghost predicate StalesMove(net: Net, a: Action, net': Net, k: nat) {
    Takes(net, a) && |net'.nodes| == |net.nodes| &&
    (forall w: NodeId, d: NodeId :: w < |net.nodes| && d < |net.nodes| ==>
      StaleAt(net', w, d, k) <= 1 && (w != a.v ==> StaleAt(net', w, d, k) == StaleAt(net, w, d, k))) &&
    (k <= MAX_HOPS && (k > 0 ==> NothingNew(net, a, k - 1)) ==>
      (forall d: NodeId :: d < |net.nodes| ==> StaleAt(net', a.v, d, k) <= StaleAt(net, a.v, d, k)) &&
      (!Unchanged(net, a, net', k) ==>
        exists d: NodeId :: d < |net.nodes| && StaleAt(net', a.v, d, k) < StaleAt(net, a.v, d, k)))
  }

  lemma {:induction false} StalesDoMove(net: Net, a: Action, net': Net, k: nat)
    requires Delivered(net, a, net')
    ensures StalesMove(net, a, net', k)
  {
    forall w: NodeId, d: NodeId | w < |net.nodes| && d < |net.nodes|
      ensures StaleAt(net', w, d, k) <= 1 && (w != a.v ==> StaleAt(net', w, d, k) == StaleAt(net, w, d, k))
    {
      StalePoint(net, a, net', w, d, k);
    }
    if k <= MAX_HOPS && (k > 0 ==> NothingNew(net, a, k - 1)) {
      forall d: NodeId | d < |net.nodes| ensures StaleAt(net', a.v, d, k) <= StaleAt(net, a.v, d, k) {
        StalePoint(net, a, net', a.v, d, k);
      }
      if !Unchanged(net, a, net', k) {
        var d: NodeId :| d < |net.nodes| && d != a.v &&
          Trunc(Value(net.nodes[a.v].dv, d), k) != Trunc(Value(net'.nodes[a.v].dv, d), k);
        StalePoint(net, a, net', a.v, d, k);
      }
    }
  }

  ghost predicate ChangesMove(net: Net, a: Action, net': Net, k: nat) {
    Takes(net, a) && |net'.nodes| == |net.nodes| &&
    forall x: NodeId, y: NodeId :: x < |net.nodes| && y < |net.nodes| ==>
      if x == a.v then ChangesAt(net', x, y, k) <= ChangesAt(net, x, y, k) + (if Unchanged(net, a, net', k) then 0 else 1)
      else ChangesAt(net', x, y, k) + (if x == a.u && y == a.v && !NothingNew(net, a, k) then 1 else 0) <= ChangesAt(net, x, y, k)
  }

  lemma {:induction false} ChangesDoMove(net: Net, a: Action, net': Net, k: nat)
    requires Delivered(net, a, net')
    ensures ChangesMove(net, a, net', k)
  {
    forall x: NodeId, y: NodeId | x < |net.nodes| && y < |net.nodes|
      ensures
        if x == a.v then ChangesAt(net', x, y, k) <= ChangesAt(net, x, y, k) + (if Unchanged(net, a, net', k) then 0 else 1)
        else ChangesAt(net', x, y, k) + (if x == a.u && y == a.v && !NothingNew(net, a, k) then 1 else 0) <= ChangesAt(net, x, y, k)
    {
      ChangesPoint(net, a, net', x, y, k);
    }
  }

  ghost predicate QueuesMove(net: Net, a: Action, net': Net) {
    Takes(net, a) && |net'.nodes| == |net.nodes| &&
    forall x: NodeId, y: NodeId :: x < |net.nodes| && y < |net.nodes| ==>
      Tables(Queue(net', x, y)) + (if x == a.u && y == a.v then 1 else 0) <=
      Tables(Queue(net, x, y)) + (if x == a.v && !Unchanged(net, a, net', MAX_HOPS) then 1 else 0)
  }

  lemma {:induction false} QueuesDoMove(net: Net, a: Action, net': Net)
    requires Delivered(net, a, net')
    ensures QueuesMove(net, a, net')
  {
    forall x: NodeId, y: NodeId | x < |net.nodes| && y < |net.nodes|
      ensures Tables(Queue(net', x, y)) + (if x == a.u && y == a.v then 1 else 0) <=
              Tables(Queue(net, x, y)) + (if x == a.v && !Unchanged(net, a, net', MAX_HOPS) then 1 else 0)
    {
      QueuedPoint(net, a, net', x, y);
    }
  }

  // ---------- the counters after a delivery ----------

  lemma {:induction false} StaleRow(net: Net, a: Action, net': Net, w: NodeId, k: nat)
    requires StalesMove(net, a, net', k) && w < |net.nodes| && w != a.v
    ensures Row(|net.nodes|, StaleTerms(net', k), w) <= Row(|net.nodes|, StaleTerms(net, k), w)
  {
    var n, f, g := |net.nodes|, StaleTerms(net, k), StaleTerms(net', k);
    assert forall d: nat :: d < n ==> g(w, d) <= f(w, d);
    RowAtMost(n, f, g, w);
  }

  lemma {:induction false} StaleRowOfReceiver(net: Net, a: Action, net': Net, k: nat)
    requires StalesMove(net, a, net', k) && k <= MAX_HOPS && (k > 0 ==> NothingNew(net, a, k - 1))
    ensures Row(|net.nodes|, StaleTerms(net', k), a.v) + (if Unchanged(net, a, net', k) then 0 else 1)
         <= Row(|net.nodes|, StaleTerms(net, k), a.v)
  {
    var n, f, g := |net.nodes|, StaleTerms(net, k), StaleTerms(net', k);
    assert forall d: nat :: d < n ==> g(a.v, d) <= f(a.v, d);
    RowAtMost(n, f, g, a.v);
    if !Unchanged(net, a, net', k) {
      var d: NodeId :| d < n && StaleAt(net', a.v, d, k) < StaleAt(net, a.v, d, k);
      RowFalls(n, f, g, a.v, d);
    }
  }

  lemma {:induction false} StaleRowGrows(net: Net, a: Action, net': Net, k: nat)
    requires StalesMove(net, a, net', k)
    ensures Row(|net.nodes|, StaleTerms(net', k), a.v) <= Row(|net.nodes|, StaleTerms(net, k), a.v) + |net.nodes|
  {
    var n, f, g := |net.nodes|, StaleTerms(net, k), StaleTerms(net', k);
    assert forall d: nat :: d < n ==> g(a.v, d) <= f(a.v, d) + 1;
    RowGrows(n, f, g, a.v);
  }

  /** Stale distances of level k when nothing new is said below it. */
  lemma {:induction false} StaleCountStays(net: Net, a: Action, net': Net, k: nat)
    requires StalesMove(net, a, net', k) && k <= MAX_HOPS && (k > 0 ==> NothingNew(net, a, k - 1))
    ensures StaleCount(net', k) + (if Unchanged(net, a, net', k) then 0 else 1) <= StaleCount(net, k)
  {
    var n, f, g := |net.nodes|, StaleTerms(net, k), StaleTerms(net', k);
    forall w: nat | w < n && w != a.v ensures Row(n, g, w) <= Row(n, f, w) {
      StaleRow(net, a, net', w, k);
    }
    StaleRowOfReceiver(net, a, net', k);
    RowsChange(n, f, g, a.v, if Unchanged(net, a, net', k) then 0 else -1, a.u, 0);
  }

  lemma {:induction false} StaleCountGrows(net: Net, a: Action, net': Net, k: nat)
    requires StalesMove(net, a, net', k)
    ensures StaleCount(net', k) <= StaleCount(net, k) + |net.nodes|
  {
    var n, f, g := |net.nodes|, StaleTerms(net, k), StaleTerms(net', k);
    forall w: nat | w < n && w != a.v ensures Row(n, g, w) <= Row(n, f, w) {
      StaleRow(net, a, net', w, k);
    }
    StaleRowGrows(net, a, net', k);
    RowsChange(n, f, g, a.v, n, a.u, 0);
  }

  lemma {:induction false} ChangeRow(net: Net, a: Action, net': Net, x: NodeId, k: nat)
    requires ChangesMove(net, a, net', k) && x < |net.nodes| && (x == a.v ==> Unchanged(net, a, net', k))
    ensures Row(|net.nodes|, ChangeTerms(net', k), x) <= Row(|net.nodes|, ChangeTerms(net, k), x)
  {
    var n, f, g := |net.nodes|, ChangeTerms(net, k), ChangeTerms(net', k);
    assert forall y: nat :: y < n ==> g(x, y) <= f(x, y);
    RowAtMost(n, f, g, x);
  }

  lemma {:induction false} ChangeRowOfSender(net: Net, a: Action, net': Net, k: nat)
    requires ChangesMove(net, a, net', k) && !NothingNew(net, a, k)
    ensures Row(|net.nodes|, ChangeTerms(net', k), a.u) < Row(|net.nodes|, ChangeTerms(net, k), a.u)
  {
    var n, f, g := |net.nodes|, ChangeTerms(net, k), ChangeTerms(net', k);
    assert forall y: nat :: y < n ==> g(a.u, y) + (if y == a.v then 1 else 0) <= f(a.u, y);
    RowFalls(n, f, g, a.u, a.v);
  }

  lemma {:induction false} ChangeRowGrows(net: Net, a: Action, net': Net, k: nat)
    requires ChangesMove(net, a, net', k)
    ensures Row(|net.nodes|, ChangeTerms(net', k), a.v) <= Row(|net.nodes|, ChangeTerms(net, k), a.v) + |net.nodes|
  {
    var n, f, g := |net.nodes|, ChangeTerms(net, k), ChangeTerms(net', k);
    assert forall y: nat :: y < n ==> g(a.v, y) <= f(a.v, y) + 1;
    RowGrows(n, f, g, a.v);
  }

  /** Changes to be delivered at a level at which the receiver's vector stays. */
  lemma {:induction false} ChangeCountStays(net: Net, a: Action, net': Net, k: nat)
    requires ChangesMove(net, a, net', k) && Unchanged(net, a, net', k)
    ensures ChangeCount(net', k) + (if NothingNew(net, a, k) then 0 else 1) <= ChangeCount(net, k)
  {
    var n, f, g := |net.nodes|, ChangeTerms(net, k), ChangeTerms(net', k);
    forall x: nat | x < n ensures Row(n, g, x) <= Row(n, f, x) {
      ChangeRow(net, a, net', x, k);
    }
    if !NothingNew(net, a, k) {
      ChangeRowOfSender(net, a, net', k);
    }
    RowsChange(n, f, g, a.v, 0, a.u, if NothingNew(net, a, k) then 0 else -1);
  }

  lemma {:induction false} ChangeCountGrows(net: Net, a: Action, net': Net, k: nat)
    requires ChangesMove(net, a, net', k)
    ensures ChangeCount(net', k) <= ChangeCount(net, k) + |net.nodes|
  {
    var n, f, g := |net.nodes|, ChangeTerms(net, k), ChangeTerms(net', k);
    forall x: nat | x < n && x != a.v ensures Row(n, g, x) <= Row(n, f, x) {
      ChangeRow(net, a, net', x, k);
    }
    ChangeRowGrows(net, a, net', k);
    RowsChange(n, f, g, a.v, n, a.u, 0);
  }

  lemma {:induction false} QueueRow(net: Net, a: Action, net': Net, x: NodeId)
    requires QueuesMove(net, a, net') && x < |net.nodes| && (x == a.v ==> Unchanged(net, a, net', MAX_HOPS))
    ensures Row(|net.nodes|, QueueTerms(net'), x) + (if x == a.u then 1 else 0) <= Row(|net.nodes|, QueueTerms(net), x)
  {
    var n, f, g := |net.nodes|, QueueTerms(net), QueueTerms(net');
    assert forall y: nat :: y < n ==> g(x, y) + (if x == a.u && y == a.v then 1 else 0) <= f(x, y);
    if x == a.u {
      RowFalls(n, f, g, x, a.v);
    } else {
      RowAtMost(n, f, g, x);
    }
  }

  lemma {:induction false} QueueRowGrows(net: Net, a: Action, net': Net)
    requires QueuesMove(net, a, net')
    ensures Row(|net.nodes|, QueueTerms(net'), a.v) <= Row(|net.nodes|, QueueTerms(net), a.v) + |net.nodes|
  {
    var n, f, g := |net.nodes|, QueueTerms(net), QueueTerms(net');
    assert forall y: nat :: y < n ==> g(a.v, y) <= f(a.v, y) + 1;
    RowGrows(n, f, g, a.v);
  }

  /** The number of vectors on their way falls when the receiver's vector stays. */
  lemma {:induction false} QueuedCountChanges(net: Net, a: Action, net': Net)
    requires QueuesMove(net, a, net')
    ensures QueuedCount(net') <= QueuedCount(net) + |net.nodes|
    ensures Unchanged(net, a, net', MAX_HOPS) ==> QueuedCount(net') < QueuedCount(net)
  {
    var n, f, g := |net.nodes|, QueueTerms(net), QueueTerms(net');
    forall x: nat | x < n && x != a.v ensures Row(n, g, x) + (if x == a.u then 1 else 0) <= Row(n, f, x) {
      QueueRow(net, a, net', x);
    }
    QueueRowGrows(net, a, net');
    RowsChange(n, f, g, a.v, n, a.u, -1);
    if Unchanged(net, a, net', MAX_HOPS) {
      QueueRow(net, a, net', a.v);
      RowsChange(n, f, g, a.v, 0, a.u, -1);
    }
  }

  // ---------- every delivery makes progress ----------

  /** The first level at which something happens, top if there is none below. */
  lemma {:induction false} FirstLevel(net: Net, a: Action, net': Net, top: nat) returns (k: nat)
    requires Takes(net, a) && |net'.nodes| == |net.nodes|
    ensures k <= top && (k < top ==> !NothingNew(net, a, k) || !Unchanged(net, a, net', k))
    ensures forall j: nat :: j < k ==> NothingNew(net, a, j) && Unchanged(net, a, net', j)
  {
    k := 0;
    while k < top && NothingNew(net, a, k) && Unchanged(net, a, net', k)
      invariant k <= top && forall j: nat :: j < k ==> NothingNew(net, a, j) && Unchanged(net, a, net', j)
    {
      k := k + 1;
    }
  }

  lemma {:induction false} CountersGrow(net: Net, a: Action, net': Net, i: nat)
    requires Delivered(net, a, net') && i < COUNTERS
    ensures Counter(net', i) <= Counter(net, i) + |net.nodes|
  {
    if i == COUNTERS - 1 {
      QueuesDoMove(net, a, net');
      QueuedCountChanges(net, a, net');
    } else if i % 2 == 0 {
      StalesDoMove(net, a, net', i / 2);
      StaleCountGrows(net, a, net', i / 2);
    } else {
      ChangesDoMove(net, a, net', i / 2);
      ChangeCountGrows(net, a, net', i / 2);
    }
  }

  /** Below the first level at which something happens no counter grows. */
  lemma {:induction false} CountersStay(net: Net, a: Action, net': Net, k: nat, i: nat)
    requires Delivered(net, a, net') && k <= MAX_HOPS + 1 && i < 2 * k
    requires forall j: nat :: j < k ==> NothingNew(net, a, j) && Unchanged(net, a, net', j)
    ensures NotGrown(net, net', i)
  {
    var j := i / 2;
    if i % 2 == 0 {
      StalesDoMove(net, a, net', j);
      StaleCountStays(net, a, net', j);
    } else {
      ChangesDoMove(net, a, net', j);
      ChangeCountStays(net, a, net', j);
    }
  }

  lemma {:induction false} CounterIs(net: Net, k: nat)
    requires k <= MAX_HOPS
    ensures 2 * k + 1 < COUNTERS - 1 && Counter(net, 2 * k) == StaleCount(net, k) && Counter(net, 2 * k + 1) == ChangeCount(net, k)
  {
  }

  /** The counter that falls at that level. */
  lemma {:induction false} LevelFalls(net: Net, a: Action, net': Net, k: nat) returns (i: nat)
    requires Delivered(net, a, net') && k <= MAX_HOPS && (k > 0 ==> NothingNew(net, a, k - 1))
    requires !NothingNew(net, a, k) || !Unchanged(net, a, net', k)
    ensures 2 * k <= i <= 2 * k + 1 && Counter(net', i) < Counter(net, i)
    ensures i == 2 * k + 1 ==> NotGrown(net, net', 2 * k)
  {
    CounterIs(net, k);
    CounterIs(net', k);
    StalesDoMove(net, a, net', k);
    StaleCountStays(net, a, net', k);
    if Unchanged(net, a, net', k) {
      ChangesDoMove(net, a, net', k);
      ChangeCountStays(net, a, net', k);
      i := 2 * k + 1;
    } else {
      i := 2 * k;
    }
  }

  lemma {:induction false} OneFalls(net: Net, a: Action, net': Net) returns (i: nat)
    requires Delivered(net, a, net')
    ensures i < COUNTERS && Counter(net', i) < Counter(net, i)
    ensures forall j: nat {:trigger NotGrown(net, net', j)} :: j < i ==> NotGrown(net, net', j)
  {
    var k := FirstLevel(net, a, net', MAX_HOPS + 1);
    if k == MAX_HOPS + 1 {
      i := COUNTERS - 1;
      QueuesDoMove(net, a, net');
      QueuedCountChanges(net, a, net');
    } else {
      i := LevelFalls(net, a, net', k);
    }
    forall j: nat | j < i ensures NotGrown(net, net', j) {
      if j < 2 * k {
        CountersStay(net, a, net', k, j);
      } else {
        assert j == 2 * k && i == 2 * k + 1;
      }
    }
  }

  ghost predicate NotGrown(net: Net, net': Net, j: nat) {
    Counter(net', j) <= Counter(net, j)
  }

  /** Each vector taken from a neighbour lowers the work left, whatever is sent in return. */
  lemma {:induction false} DeliverySpends(net: Net, a: Action, net': Net)
    requires Delivered(net, a, net')
    ensures Work(net') < Work(net)
  {
    var i := OneFalls(net, a, net');
    forall j: nat | j < COUNTERS ensures Counter(net', j) <= Counter(net, j) + |net.nodes| {
      CountersGrow(net, a, net', j);
    }
    WorkFalls(net, net', i);
  }

  lemma {:induction false} WorkFalls(net: Net, net': Net, i: nat)
    requires |net'.nodes| == |net.nodes| && i < COUNTERS && Counter(net', i) < Counter(net, i)
    requires forall j: nat {:trigger NotGrown(net, net', j)} :: j < i ==> NotGrown(net, net', j)
    requires forall j: nat :: j < COUNTERS ==> Counter(net', j) <= Counter(net, j) + |net.nodes|
    ensures Work(net') < Work(net)
  {
    var x, y := Counters(net), Counters(net');
    forall j | 0 <= j < i ensures y[j] <= x[j] {
      assert NotGrown(net, net', j);
    }
    WeightFalls(x, y, |net.nodes|, i);
  }

  // ---------- greetings spend nothing ----------

  /** An audit that finds nothing, or a hello from a neighbour in the tables. */
  ghost predicate Greeting(net: Net, a: Action, e: Effect, net': Net) {
    Live(net) && Handles(net, a, e) && Orderly(net, a) && Moves(net, e, net') && e.u < |net.nodes| &&
    (a.Audit? || (a.DeliverHello? && a.u in net.nodes[e.u].neighbors))
  }

  /** It adds or takes no more than a hello, and leaves distances and vectors alone. */
  lemma {:induction false} GreetingStates(net: Net, a: Action, e: Effect, net': Net)
    requires Greeting(net, a, e, net')
    ensures |net'.nodes| == |net.nodes| && e.sends == 0 && net'.nodes == net.nodes[e.u := e.state]
    ensures
      var s := net.nodes[e.u];
      e.state.me == s.me && e.state.dv == s.dv && e.state.costs == s.costs && e.state.neighbors.Keys == s.neighbors.Keys &&
      forall j :: j in s.neighbors ==> e.state.neighbors[j].dv == s.neighbors[j].dv
  {
  }

  lemma {:induction false} GreetingQueues(net: Net, a: Action, e: Effect, net': Net, x: NodeId, y: NodeId)
    requires Greeting(net, a, e, net')
    ensures
      var q, q' := Queue(net, x, y), Queue(net', x, y);
      q' == q || q' == q + [Hello] || (q != [] && q[0].Hello? && q' == q[1..])
  {
    GreetingStates(net, a, e, net');
    assert Queue(net, x, y) + [] == Queue(net, x, y);
    assert Queue(net, x, y) != [] ==> Queue(net, x, y)[1..] + [] == Queue(net, x, y)[1..];
    assert Emission(e, y) == if e.hello then [Hello] else [];
    GreetingTakes(net, a, e, net', x, y);
  }

  lemma {:induction false} GreetingTakes(net: Net, a: Action, e: Effect, net': Net, x: NodeId, y: NodeId)
    requires Greeting(net, a, e, net')
    ensures e.from == Some(x) && y == e.u ==> Queue(net, x, y) != [] && Queue(net, x, y)[0].Hello?
    ensures e.hello ==> e.from == None
  {
  }

  lemma {:induction false} GreetingPoint(net: Net, a: Action, e: Effect, net': Net, x: NodeId, y: NodeId, k: nat)
    requires Greeting(net, a, e, net') && x < |net.nodes| && y < |net.nodes|
    ensures StaleAt(net', x, y, k) == StaleAt(net, x, y, k)
    ensures ChangesAt(net', x, y, k) == ChangesAt(net, x, y, k)
    ensures Tables(Queue(net', x, y)) == Tables(Queue(net, x, y))
  {
    GreetingStates(net, a, e, net');
    GreetingQueues(net, a, e, net', x, y);
    var q := Queue(net, x, y);
    TablesSnoc(q, Hello);
    ChangesHello(q, HeldVector(net.nodes[y], x), y, |net.nodes|, k);
    if x == e.u {
      SameStale(net.nodes[x], e.state, y, k);
    }
  }

  lemma {:induction false} SameStale(s: DvState, s': DvState, d: NodeId, k: nat)
    requires s'.dv == s.dv && s'.costs == s.costs && s'.neighbors.Keys == s.neighbors.Keys
    requires forall j :: j in s.neighbors ==> s'.neighbors[j].dv == s.neighbors[j].dv
    ensures Computable(s'.costs, s'.neighbors) == Computable(s.costs, s.neighbors)
    ensures Computable(s.costs, s.neighbors) ==> (Stale(s', d, k) <==> Stale(s, d, k))
  {
    if Computable(s.costs, s.neighbors) {
      SameOffers(s.costs, s.neighbors, s'.neighbors, d);
    }
  }

  lemma {:induction false} GreetingSpendsNothing(net: Net, a: Action, e: Effect, net': Net)
    requires Greeting(net, a, e, net')
    ensures Work(net') <= Work(net)
  {
    GreetingStates(net, a, e, net');
    forall i | 0 <= i < COUNTERS ensures Counters(net')[i] <= Counters(net)[i] {
      GreetingKeepsCounter(net, a, e, net', i);
    }
    WeightAtMost(Counters(net), Counters(net'), |net.nodes|);
  }

  lemma {:induction false} GreetingKeepsCounter(net: Net, a: Action, e: Effect, net': Net, i: nat)
    requires Greeting(net, a, e, net') && i < COUNTERS
    ensures Counter(net', i) <= Counter(net, i)
  {
    GreetingStates(net, a, e, net');
    var n, k := |net.nodes|, i / 2;
    forall x: nat, y: nat | x < n && y < n
      ensures StaleAt(net', x, y, k) <= StaleAt(net, x, y, k) && ChangesAt(net', x, y, k) <= ChangesAt(net, x, y, k)
      ensures Tables(Queue(net', x, y)) <= Tables(Queue(net, x, y))
    {
      GreetingPoint(net, a, e, net', x, y, k);
    }
    Total2AtMost(n, StaleTerms(net, k), StaleTerms(net', k));
    Total2AtMost(n, ChangeTerms(net, k), ChangeTerms(net', k));
    Total2AtMost(n, QueueTerms(net), QueueTerms(net'));
  }

  // ---------- runs ----------

  /** No new link, no expiry, no router heard for the first time, hellos before vectors. */
  ghost predicate Exchanges(net: Net, a: Action) {
    !a.AddLink? && Orderly(net, a) && (a.DeliverHello? ==> a.v < |net.nodes| && a.u in net.nodes[a.v].neighbors)
  }

  lemma {:induction false} StepSpends(net: Net, a: Action, net': Net)
    requires Live(net) && Step(net, a, net') && Exchanges(net, a)
    ensures Work(net') + (if a.DeliverTable? then 1 else 0) <= Work(net)
  {
    var e :| Handles(net, a, e) && Moves(net, e, net');
    if a.DeliverTable? {
      DeliveryStates(net, a, e, net');
      assert Delivery(net, a, e, net');
      DeliverySpends(net, a, net');
    } else {
      GreetingSpendsNothing(net, a, e, net');
    }
  }

  function Deliveries(acts: seq<Action>): nat {
    if acts == [] then 0
    else Deliveries(acts[..|acts| - 1]) + if acts[|acts| - 1].DeliverTable? then 1 else 0
  }

  ghost predicate ExchangesAt(states: seq<Net>, acts: seq<Action>, i: nat) {
    StepAt(states, acts, i) && Exchanges(states[i], acts[i])
  }

  /** From any state of an orderly run on, and for as long as no link is new, no neighbour
    * expires and no router is heard for the first time, no more vectors are delivered than
    * the work left at the start, whatever else happens in between. */
  lemma {:induction false} ExchangeEnds(states: seq<Net>, acts: seq<Action>)
    requires |states| == |acts| + 1 && Live(states[0])
    requires forall i: nat {:trigger ExchangesAt(states, acts, i)} :: i < |acts| ==> ExchangesAt(states, acts, i)
    ensures Live(states[|acts|]) && Deliveries(acts) + Work(states[|acts|]) <= Work(states[0])
    decreases |acts|
  {
    if acts != [] {
      var n := |acts| - 1;
      var before, done := states[..n + 1], acts[..n];
      forall i: nat | i < n ensures ExchangesAt(before, done, i) {
        assert ExchangesAt(states, acts, i);
      }
      ExchangeEnds(before, done);
      assert ExchangesAt(states, acts, n);
      LastSpends(states[n], acts[n], states[n + 1]);
    }
  }

  lemma {:induction false} LastSpends(net: Net, a: Action, net': Net)
    requires Live(net) && Step(net, a, net') && Exchanges(net, a)
    ensures Live(net') && Work(net') + (if a.DeliverTable? then 1 else 0) <= Work(net)
  {
    StepKeepsLive(net, a, net');
    StepSpends(net, a, net');
  }
}
