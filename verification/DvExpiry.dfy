/** What an expired neighbour leaves behind. Its distance may stay wrong after it was heard
  * again: distances do not converge in every run in which neighbours may expire.
  */
module DvExpiry {
  import opened Basics
  import opened DvProtocol
  import opened DvNetwork
  import opened DvConvergence
  import opened Paths

  // ---------- when a distance is held at all ----------

  /** A kept neighbour offers v at no more than limit. */
  ghost predicate StillOffered(s: DvState, gone: set<NodeId>, v: NodeId, limit: nat)
    requires Computable(s.costs, s.neighbors)
  {
    exists j :: j !in gone && Offers(s.costs, s.neighbors, j, v) && Offer(s.costs, s.neighbors, j, v) <= limit
  }

  /** An audit drops v, and v is heard again. A finite distance to v, or a route, is then
    * held exactly when a neighbour that was kept offers one. */
  lemma {:induction false} ReturnedNeighbor(s: DvState, gone: set<NodeId>, s1: DvState, changed1: bool,
                                            v: NodeId, i: nat, now: int, s2: DvState, changed2: bool)
    requires Computable(s.costs, s.neighbors) && v in gone && v != s.me
    requires Recomputed(Forgotten(s, gone), {}, s1, changed1)
    requires Recomputed(Heard(s1, v, i, now), {}, s2, changed2)
    ensures v in s2.costs && v in s2.neighbors
    ensures Value(s2.dv, v) != M_INF <==> StillOffered(s, gone, v, MAX_HOPS)
    ensures v in s2.routes <==> StillOffered(s, gone, v, MAX_HOPS - 1)
  {
    KeptOffers(s, gone, v);
    AfterAudit(s, gone, s1, changed1, v);
    AfterHello(Forgotten(s, gone), s1, v, i, now, s2, changed2);
  }

  lemma {:induction false} AfterAudit(s: DvState, gone: set<NodeId>, s1: DvState, changed1: bool, v: NodeId)
    requires Computable(s.costs, s.neighbors) && v in gone && v != s.me
    requires Recomputed(Forgotten(s, gone), {}, s1, changed1)
    ensures
      var f := Forgotten(s, gone);
      s1.me == s.me && s1.costs == f.costs && s1.neighbors == f.neighbors && v in s1.dv && v !in s1.neighbors && v !in s1.costs &&
      s1.dv[v] == if MinCost(f.costs, f.neighbors, v) <= MAX_HOPS then MinCost(f.costs, f.neighbors, v) else M_INF
  {
    assert v in Forgotten(s, gone).dv && Forgotten(s, gone).dv[v] == M_INF;
  }

  lemma {:induction false} AfterHello(f: DvState, s1: DvState, v: NodeId, i: nat, now: int, s2: DvState, changed2: bool)
    requires Computable(f.costs, f.neighbors) && s1.costs == f.costs && s1.neighbors == f.neighbors && v != s1.me
    requires v in s1.dv && v !in s1.neighbors && v !in s1.costs
    requires s1.dv[v] == if MinCost(f.costs, f.neighbors, v) <= MAX_HOPS then MinCost(f.costs, f.neighbors, v) else M_INF
    requires Recomputed(Heard(s1, v, i, now), {}, s2, changed2)
    ensures v in s2.costs && v in s2.neighbors && Value(s2.dv, v) == s1.dv[v]
    ensures v in s2.routes <==> MinCost(f.costs, f.neighbors, v) < MAX_HOPS
  {
    var h := Heard(s1, v, i, now);
    SameMinCost(f, h, v);
    assert v in h.dv && h.dv[v] == s1.dv[v];
  }

  /** Hearing v changes nothing about what is offered for v. */
  lemma {:induction false} SameMinCost(f: DvState, h: DvState, v: NodeId)
    requires Computable(f.costs, f.neighbors) && Computable(h.costs, h.neighbors)
    requires forall j :: Offers(h.costs, h.neighbors, j, v) <==> Offers(f.costs, f.neighbors, j, v)
    requires forall j :: Offers(f.costs, f.neighbors, j, v) ==>
      Offer(h.costs, h.neighbors, j, v) == Offer(f.costs, f.neighbors, j, v)
    ensures MinCost(h.costs, h.neighbors, v) == MinCost(f.costs, f.neighbors, v)
  {
    MinCostUnique(h.costs, h.neighbors, v, MinCost(f.costs, f.neighbors, v));
  }

  lemma {:induction false} KeptOffers(s: DvState, gone: set<NodeId>, v: NodeId)
    requires Computable(s.costs, s.neighbors)
    ensures
      var f := Forgotten(s, gone);
      Computable(f.costs, f.neighbors) &&
      (MinCost(f.costs, f.neighbors, v) <= MAX_HOPS <==> StillOffered(s, gone, v, MAX_HOPS)) &&
      (MinCost(f.costs, f.neighbors, v) < MAX_HOPS <==> StillOffered(s, gone, v, MAX_HOPS - 1))
  {
    var f := Forgotten(s, gone);
    forall j ensures Offers(f.costs, f.neighbors, j, v) <==> j !in gone && Offers(s.costs, s.neighbors, j, v)
             ensures Offers(f.costs, f.neighbors, j, v) ==> Offer(f.costs, f.neighbors, j, v) == Offer(s.costs, s.neighbors, j, v)
    {
    }
    assert IsMinCost(f.costs, f.neighbors, v, MinCost(f.costs, f.neighbors, v));
  }

  // ---------- a run that fails ----------

  const LINKS: Links := {(0, 1), (1, 0)}

  /** The network of routers 0 and 1 as router u sees it: itself, the other one, what is on
    * its way to it and from it. */
  function Two(u: NodeId, s: DvState, other: DvState, inward: seq<Message>, outward: seq<Message>): Net
    requires u < 2
  {
    if u == 0 then Net(LINKS, [s, other], map[(1, 0) := inward, (0, 1) := outward])
    else Net(LINKS, [other, s], map[(0, 1) := inward, (1, 0) := outward])
  }

  /** The vector of router u with distance x to the other one. */
  function Pair(u: NodeId, x: Uint32): Vector
    requires u < 2
  {
    map[u := 0, 1 - u := x]
  }

  function Self(u: NodeId): map<NodeId, Route> {
    map[u := Route(u, u, LOOPBACK, 0)]
  }

  function Blank(u: NodeId): DvState {
    DvState(u, map[u := 0], map[], map[], map[])
  }

  /** The other router was heard at time at, and its vector is still missing. */
  function Met(u: NodeId, x: Uint32, at: int): DvState
    requires u < 2
  {
    DvState(u, Pair(u, x), map[1 - u := 1], map[1 - u := Neighbor(0, at, map[])], Self(u))
  }

  /** ... and it sent its vector. */
  function Paired(u: NodeId, vector: Vector, at: int): DvState
    requires u < 2
  {
    DvState(u, Pair(u, 1), map[1 - u := 1], map[1 - u := Neighbor(0, at, vector)], Self(u)[1 - u := Route(1 - u, 1 - u, 0, 1)])
  }

  /** The other router has expired. */
  function Lost(u: NodeId): DvState
    requires u < 2
  {
    DvState(u, Pair(u, M_INF), map[], map[], Self(u))
  }

  lemma {:induction false} NothingOffered(s: DvState, names: set<NodeId>)
    requires s.me < 2 && Computable(s.costs, s.neighbors) && s.dv.Keys == {s.me, 1 - s.me} && names <= s.dv.Keys
    requires forall j :: j in s.costs ==> 1 - s.me !in s.neighbors[j].dv
    ensures Recomputed(s, names, s.(routes := Self(s.me)), false)
  {
    MinCostUnique(s.costs, s.neighbors, 1 - s.me, M_INF);
  }

  lemma {:induction false} OneOffered(u: NodeId, vector: Vector, at: int, routes: map<NodeId, Route>)
    requires u < 2 && vector.Keys == {0, 1} && vector[1 - u] == 0
    ensures Recomputed(Paired(u, vector, at).(routes := routes), vector.Keys, Paired(u, vector, at), false)
  {
    var s, o := Paired(u, vector, at).(routes := routes), 1 - u;
    assert s.neighbors[o].dv == vector && s.costs[o] == 1;
    assert Offers(s.costs, s.neighbors, o, o) && Offer(s.costs, s.neighbors, o, o) == 1;
    MinCostUnique(s.costs, s.neighbors, o, 1);
    NothingChanges(s, vector.Keys, Paired(u, vector, at));
  }

  /** A recomputation that only fills in the routes. */
  lemma {:induction false} NothingChanges(s: DvState, names: set<NodeId>, s': DvState)
    requires Computable(s.costs, s.neighbors) && names <= s.dv.Keys && s' == s.(routes := s'.routes)
    requires forall d :: d in s.dv ==> Distance(s, d) == s.dv[d]
    requires forall d :: d in s'.routes <==> d in s.dv && (d == s.me || MinCost(s.costs, s.neighbors, d) < MAX_HOPS)
    requires forall d :: d in s'.routes ==> RouteOk(s, d, s'.routes[d])
    ensures Recomputed(s, names, s', false)
  {
  }

  lemma {:induction false} TwoIs(u: NodeId, s: DvState, other: DvState, inward: seq<Message>, outward: seq<Message>)
    requires u < 2
    ensures
      var net := Two(u, s, other, inward, outward);
      net.nodes[u] == s && Queue(net, 1 - u, u) == inward && Queue(net, u, 1 - u) == outward &&
      (forall a: NodeId, b: NodeId :: (a, b) !in LINKS ==> Queue(net, a, b) == []) &&
      net == Two(1 - u, other, s, outward, inward)
  {
    var net := Two(u, s, other, inward, outward);
    assert net.queues.Keys == LINKS;
    assert net.queues == Two(1 - u, other, s, outward, inward).queues;
  }

  lemma {:induction false} OneActs(u: NodeId, s: DvState, other: DvState, inward: seq<Message>, outward: seq<Message>,
                                   a: Action, e: Effect, inward': seq<Message>, outward': seq<Message>)
    requires u < 2 && !a.AddLink? && e.u == u && Handles(Two(u, s, other, inward, outward), a, e)
    requires if e.from.Some? then e.from.value == 1 - u && inward != [] && inward' == inward[1..] else inward' == inward
    requires outward' == outward + Emission(e, 1 - u)
    ensures Step(Two(u, s, other, inward, outward), a, Two(u, e.state, other, inward', outward'))
  {
    var net, net' := Two(u, s, other, inward, outward), Two(u, e.state, other, inward', outward');
    TwoIs(u, s, other, inward, outward);
    TwoIs(u, e.state, other, inward', outward');
    forall p: NodeId, q: NodeId ensures QueueMoves(net, e, net', p, q) {
      TwoQueues(u, net, e, net', p, q);
    }
    AllMove(net, e, net');
  }

  lemma {:induction false} TwoQueues(u: NodeId, net: Net, e: Effect, net': Net, p: NodeId, q: NodeId)
    requires u < 2 && e.u == u && net.links == LINKS
    requires if e.from.Some? then e.from.value == 1 - u && Queue(net, 1 - u, u) != [] && Queue(net', 1 - u, u) == Queue(net, 1 - u, u)[1..]
             else Queue(net', 1 - u, u) == Queue(net, 1 - u, u)
    requires Queue(net', u, 1 - u) == Queue(net, u, 1 - u) + Emission(e, 1 - u)
    requires (p, q) !in LINKS ==> Queue(net, p, q) == [] == Queue(net', p, q)
    ensures QueueMoves(net, e, net', p, q)
  {
  }

  lemma {:induction false} AllMove(net: Net, e: Effect, net': Net)
    requires e.u < |net.nodes| && net'.links == net.links && net'.nodes == net.nodes[e.u := e.state]
    requires e.from.Some? ==> Queue(net, e.from.value, e.u) != []
    requires forall p: NodeId, q: NodeId :: QueueMoves(net, e, net', p, q)
    ensures Moves(net, e, net')
  {
    forall p: NodeId, q: NodeId ensures Queue(net', p, q) ==
      (if e.from == Some(p) && q == e.u then Queue(net, p, q)[1..] else Queue(net, p, q)) +
      (if p == e.u && (p, q) in net.links then Emission(e, q) else [])
    {
      assert QueueMoves(net, e, net', p, q);
    }
  }

  ghost predicate QueueMoves(net: Net, e: Effect, net': Net, p: NodeId, q: NodeId)
    requires e.from.Some? ==> Queue(net, e.from.value, e.u) != []
  {
    Queue(net', p, q) ==
      (if e.from == Some(p) && q == e.u then Queue(net, p, q)[1..] else Queue(net, p, q)) +
      (if p == e.u && (p, q) in net.links then Emission(e, q) else [])
  }

  // ---------- the steps of the run ----------

  const TIMEOUT := 1

  function Clock(a: Action): int
    requires !a.AddLink?
  {
    match a
    case DeliverHello(_, _, _, now) => now
    case DeliverTable(_, _, _, now) => now
    case Audit(_, now, _) => now
  }

  /** The links are there from the start, the clock never goes back, and all audits use one
    * timeout. */
  ghost predicate InTime(acts: seq<Action>, timeout: int) {
    (forall i :: 0 <= i < |acts| ==> !acts[i].AddLink? && (acts[i].Audit? ==> acts[i].timeout == timeout)) &&
    (forall i, j :: 0 <= i < j < |acts| ==> Clock(acts[i]) <= Clock(acts[j]))
  }

  /** Hellos come before vectors; neighbours may expire. */
  ghost predicate HellosFirst(states: seq<Net>, acts: seq<Action>) {
    Run(states, acts) && forall i :: 0 <= i < |acts| && acts[i].DeliverTable? ==> Orderly(states[i], acts[i])
  }

  /** An audit that finds nothing but greets. */
  lemma {:induction false} GreetsStep(u: NodeId, now: int, s: DvState, other: DvState, inward: seq<Message>,
                                      outward: seq<Message>, outward': seq<Message>)
    requires u < 2 && Expired(s, now, TIMEOUT) == {} && outward' == outward + [Hello]
    ensures Step(Two(u, s, other, inward, outward), Audit(u, now, TIMEOUT), Two(u, s, other, inward, outward'))
    ensures Orderly(Two(u, s, other, inward, outward), Audit(u, now, TIMEOUT))
  {
    TwoIs(u, s, other, inward, outward);
    var e := Effect(u, s, None, 0, true);
    assert Emission(e, 1 - u) == [Hello];
    OneActs(u, s, other, inward, outward, Audit(u, now, TIMEOUT), e, inward, outward');
  }

  lemma {:induction false} MeetsHeard(u: NodeId, x: Uint32, now: int, s: DvState)
    requires u < 2 && (x == 1 || x == M_INF) && s == if x == 1 then Blank(u) else Lost(u)
    ensures
      var h := Heard(s, 1 - u, 0, now);
      Computable(h.costs, h.neighbors) && Recomputed(h, {}, Met(u, x, now), false)
  {
    var h := Heard(s, 1 - u, 0, now);
    assert h == Met(u, x, now).(routes := s.routes);
    NothingOffered(h, {});
  }

  lemma {:induction false} MetSends(u: NodeId, x: Uint32, now: int, e: Effect)
    requires u < 2 && e == Effect(u, Met(u, x, now), Some(1 - u), 1, false)
    ensures Emission(e, 1 - u) == [Table(Pair(u, x))]
  {
    assert Poisoned(Met(u, x, now), 1 - u) == Pair(u, x);
  }

  /** A hello from a router that is not in the tables. */
  lemma {:induction false} MeetsStep(u: NodeId, x: Uint32, now: int, other: DvState, inward: seq<Message>,
                                     inward': seq<Message>, outward: seq<Message>, outward': seq<Message>)
    requires u < 2 && (x == 1 || x == M_INF) && inward != [] && inward[0].Hello? && inward' == inward[1..]
    requires outward' == outward + [Table(Pair(u, x))]
    ensures Step(Two(u, if x == 1 then Blank(u) else Lost(u), other, inward, outward), DeliverHello(1 - u, u, 0, now),
                 Two(u, Met(u, x, now), other, inward', outward'))
  {
    var s := if x == 1 then Blank(u) else Lost(u);
    var e := Effect(u, Met(u, x, now), Some(1 - u), 1, false);
    TwoIs(u, s, other, inward, outward);
    MeetsHeard(u, x, now, s);
    MetSends(u, x, now, e);
    OneActs(u, s, other, inward, outward, DeliverHello(1 - u, u, 0, now), e, inward', outward');
  }

  lemma {:induction false} MeetsFirst(u: NodeId, now: int, other: DvState, inward: seq<Message>,
                                      inward': seq<Message>, outward: seq<Message>, outward': seq<Message>)
    requires u < 2 && inward != [] && inward[0].Hello? && inward' == inward[1..]
    requires outward' == outward + [Table(Pair(u, 1))]
    ensures
      var net, a := Two(u, Blank(u), other, inward, outward), DeliverHello(1 - u, u, 0, now);
      Step(net, a, Two(u, Met(u, 1, now), other, inward', outward')) && Orderly(net, a)
  {
    MeetsStep(u, 1, now, other, inward, inward', outward, outward');
  }

  lemma {:induction false} MeetsAgain(u: NodeId, now: int, other: DvState, inward: seq<Message>,
                                      inward': seq<Message>, outward: seq<Message>, outward': seq<Message>)
    requires u < 2 && inward != [] && inward[0].Hello? && inward' == inward[1..]
    requires outward' == outward + [Table(Pair(u, M_INF))]
    ensures Step(Two(u, Lost(u), other, inward, outward), DeliverHello(1 - u, u, 0, now),
                 Two(u, Met(u, M_INF, now), other, inward', outward'))
  {
    MeetsStep(u, M_INF, now, other, inward, inward', outward, outward');
  }

  /** Before or after its first vector. */
  function Known(u: NodeId, held: Option<Vector>, at: int): DvState
    requires u < 2
  {
    if held.None? then Met(u, 1, at) else Paired(u, held.value, at)
  }

  lemma {:induction false} LearnsReceived(u: NodeId, held: Option<Vector>, at: int, vector: Vector, now: int)
    requires u < 2 && vector.Keys == {0, 1} && vector[1 - u] == 0
    ensures
      var r := Received(Known(u, held, at), 1 - u, vector, 0, now);
      Computable(r.costs, r.neighbors) && Recomputed(r, vector.Keys, Paired(u, vector, at), false)
  {
    var s := Known(u, held, at);
    var r := Received(s, 1 - u, vector, 0, now);
    assert s.neighbors.Keys == {1 - u};
    assert r.neighbors == map[1 - u := Neighbor(0, at, vector)];
    assert r == Paired(u, vector, at).(routes := s.routes);
    OneOffered(u, vector, at, s.routes);
  }

  lemma {:induction false} SendsNothing(u: NodeId, vector: Vector, at: int, e: Effect)
    requires u < 2 && e == Effect(u, Paired(u, vector, at), Some(1 - u), 0, false)
    ensures Emission(e, 1 - u) == []
  {
  }

  lemma {:induction false} LearnsHandles(u: NodeId, held: Option<Vector>, at: int, vector: Vector, now: int, other: DvState,
                                         inward: seq<Message>, outward: seq<Message>)
    requires u < 2 && vector.Keys == {0, 1} && vector[1 - u] == 0 && inward != [] && inward[0] == Table(vector)
    ensures
      var net, a := Two(u, Known(u, held, at), other, inward, outward), DeliverTable(1 - u, u, 0, now);
      Handles(net, a, Effect(u, Paired(u, vector, at), Some(1 - u), 0, false)) && Orderly(net, a)
  {
    TwoIs(u, Known(u, held, at), other, inward, outward);
    LearnsReceived(u, held, at, vector, now);
    assert Known(u, held, at).costs.Keys == {1 - u};
  }

  /** A vector in which the sender is at distance 0. */
  lemma {:induction false} LearnsStep(u: NodeId, held: Option<Vector>, at: int, vector: Vector, now: int, other: DvState,
                                      inward: seq<Message>, inward': seq<Message>, outward: seq<Message>)
    requires u < 2 && vector.Keys == {0, 1} && vector[1 - u] == 0
    requires inward != [] && inward[0] == Table(vector) && inward' == inward[1..]
    ensures
      var net, a := Two(u, Known(u, held, at), other, inward, outward), DeliverTable(1 - u, u, 0, now);
      Step(net, a, Two(u, Paired(u, vector, at), other, inward', outward)) && Orderly(net, a)
  {
    var e := Effect(u, Paired(u, vector, at), Some(1 - u), 0, false);
    LearnsHandles(u, held, at, vector, now, other, inward, outward);
    SendsNothing(u, vector, at, e);
    assert outward + [] == outward;
    OneActs(u, Known(u, held, at), other, inward, outward, DeliverTable(1 - u, u, 0, now), e, inward', outward);
  }

  lemma {:induction false} LosesForgotten(u: NodeId, held: Vector, at: int)
    requires u < 2
    ensures
      var f := Forgotten(Paired(u, held, at), {1 - u});
      Computable(f.costs, f.neighbors) && Recomputed(f, {}, Lost(u), false)
  {
    var s := Paired(u, held, at);
    var f := Forgotten(s, {1 - u});
    assert f.neighbors == map[] && f.costs == map[];
    assert f.dv == Pair(u, M_INF);
    assert f == Lost(u).(routes := s.routes);
    NothingOffered(f, {});
  }

  /** An audit that comes too late for the last hello. */
  lemma {:induction false} LosesStep(u: NodeId, held: Vector, at: int, now: int, other: DvState, inward: seq<Message>,
                                     outward: seq<Message>, outward': seq<Message>)
    requires u < 2 && at + TIMEOUT <= now && outward' == outward + [Hello]
    ensures Step(Two(u, Paired(u, held, at), other, inward, outward), Audit(u, now, TIMEOUT),
                 Two(u, Lost(u), other, inward, outward'))
  {
    var s, e := Paired(u, held, at), Effect(u, Lost(u), None, 0, true);
    TwoIs(u, s, other, inward, outward);
    assert Expired(s, now, TIMEOUT) == {1 - u};
    LosesForgotten(u, held, at);
    assert Emission(e, 1 - u) == [Hello];
    OneActs(u, s, other, inward, outward, Audit(u, now, TIMEOUT), e, inward, outward');
  }

  lemma {:induction false} RefreshedIs(u: NodeId, held: Vector, at: int, now: int)
    requires u < 2
    ensures Heard(Paired(u, held, at), 1 - u, 0, now) == Paired(u, held, now)
  {
    assert Paired(u, held, at).neighbors[1 - u] == Neighbor(0, at, held);
    assert Heard(Paired(u, held, at), 1 - u, 0, now).neighbors == Paired(u, held, now).neighbors;
  }

  /** A hello from a router in the tables. */
  lemma {:induction false} RefreshesStep(u: NodeId, held: Vector, at: int, now: int, other: DvState, inward: seq<Message>,
                                         inward': seq<Message>, outward: seq<Message>)
    requires u < 2 && inward != [] && inward[0].Hello? && inward' == inward[1..]
    ensures Step(Two(u, Paired(u, held, at), other, inward, outward), DeliverHello(1 - u, u, 0, now),
                 Two(u, Paired(u, held, now), other, inward', outward))
  {
    var s, e := Paired(u, held, at), Effect(u, Paired(u, held, now), Some(1 - u), 0, false);
    TwoIs(u, s, other, inward, outward);
    RefreshedIs(u, held, at, now);
    SendsNothing(u, held, now, e);
    assert outward + [] == outward;
    OneActs(u, s, other, inward, outward, DeliverHello(1 - u, u, 0, now), e, inward', outward);
  }

  // ---------- the run itself ----------

  /** A state and the time of the action that led to it. */
  type Timed = (Net, int)

  /** Hellos come before vectors; when strict, neighbours do not expire either. */
  ghost function Careful(strict: bool): (Timed, Action, Timed) -> bool {
    (p: Timed, a: Action, q: Timed) =>
      Step(p.0, a, q.0) && (strict || a.DeliverTable? ==> Orderly(p.0, a)) &&
      !a.AddLink? && Clock(a) == q.1 && p.1 <= q.1 && (a.Audit? ==> a.timeout == TIMEOUT)
  }

  function Start(u: NodeId): Timed
    requires u < 2
  {
    (Two(u, Blank(u), Blank(1 - u), [], []), 0)
  }

  /** The state can be reached from the start by time t. */
  ghost predicate Reached(u: NodeId, net: Net, t: int, strict: bool)
    requires u < 2
  {
    Reaches(Start(u), (net, t), Careful(strict))
  }

  lemma {:induction false} GoOn(u: NodeId, net: Net, t: int, strict: bool, a: Action, next: Net)
    requires u < 2 && Reached(u, net, t, strict) && Step(net, a, next) && (strict || a.DeliverTable? ==> Orderly(net, a))
    requires !a.AddLink? && t <= Clock(a) && (a.Audit? ==> a.timeout == TIMEOUT)
    ensures Reached(u, next, Clock(a), strict)
  {
    assert Careful(strict)((net, t), a, (next, Clock(a)));
    Extend(Start(u), (net, t), a, (next, Clock(a)), Careful(strict));
  }

  lemma {:induction false} RunTo(u: NodeId, net: Net, t: int, strict: bool) returns (states: seq<Net>, acts: seq<Action>)
    requires u < 2 && Reached(u, net, t, strict)
    ensures HellosFirst(states, acts) && InTime(acts, TIMEOUT) && states[|acts|] == net
    ensures strict ==> OrderlyRun(states, acts)
  {
    var path: seq<Timed>;
    path, acts :| IsPath(path, acts, Careful(strict)) && path[0] == Start(u) && path[|acts|] == (net, t);
    states := seq(|path|, i requires 0 <= i < |path| => path[i].0);
    TwoIs(u, Blank(u), Blank(1 - u), [], []);
    assert Initial(states[0]);
    forall i: nat | i < |acts|
      ensures StepAt(states, acts, i) && (strict || acts[i].DeliverTable? ==> Orderly(states[i], acts[i]))
      ensures !acts[i].AddLink? && (acts[i].Audit? ==> acts[i].timeout == TIMEOUT) && Clock(acts[i]) == path[i + 1].1
    {
      assert Careful(strict)(path[i], acts[i], path[i + 1]);
    }
    forall i, j | 0 <= i < j < |acts| ensures Clock(acts[i]) <= Clock(acts[j]) {
      GrowsAlong(path, acts, Careful(strict), (p: Timed) => p.1, i + 1, j + 1);
    }
  }

  /** Both routers have greeted. */
  lemma {:induction false} ReachesGreeted(u: NodeId, strict: bool)
    requires u < 2
    ensures Reached(u, Two(u, Blank(u), Blank(1 - u), [Hello], [Hello]), 0, strict)
  {
    var v: NodeId, b, c := 1 - u, Blank(u), Blank(1 - u);
    var n0, n1, n2 := Two(u, b, c, [], []), Two(u, b, c, [], [Hello]), Two(u, b, c, [Hello], [Hello]);
    ReachesItself(Start(u), Careful(strict));
    GreetsStep(u, 0, b, c, [], [], [Hello]);
    GoOn(u, n0, 0, strict, Audit(u, 0, TIMEOUT), n1);
    TwoIs(u, b, c, [], [Hello]);
    TwoIs(u, b, c, [Hello], [Hello]);
    GreetsStep(v, 0, c, b, [Hello], [], [Hello]);
    GoOn(u, n1, 0, strict, Audit(v, 0, TIMEOUT), n2);
  }

  /** Router w hears the other one for the first time. */
  lemma {:induction false} FirstMeeting(u: NodeId, strict: bool, w: NodeId, other: DvState, inward: seq<Message>,
                                        inward': seq<Message>, outward: seq<Message>, outward': seq<Message>)
    requires u < 2 && w < 2 && Reached(u, Two(w, Blank(w), other, inward, outward), 0, strict)
    requires inward != [] && inward[0].Hello? && inward' == inward[1..] && outward' == outward + [Table(Pair(w, 1))]
    ensures Reached(u, Two(w, Met(w, 1, 0), other, inward', outward'), 0, strict)
  {
    MeetsFirst(w, 0, other, inward, inward', outward, outward');
    GoOn(u, Two(w, Blank(w), other, inward, outward), 0, strict, DeliverHello(1 - w, w, 0, 0),
         Two(w, Met(w, 1, 0), other, inward', outward'));
  }

  /** Router u has heard the other one. */
  lemma {:induction false} ReachesOneMet(u: NodeId, strict: bool)
    requires u < 2
    ensures Reached(u, Two(u, Met(u, 1, 0), Blank(1 - u), [], [Hello, Table(Pair(u, 1))]), 0, strict)
  {
    ReachesGreeted(u, strict);
    FirstMeeting(u, strict, u, Blank(1 - u), [Hello], [], [Hello], [Hello, Table(Pair(u, 1))]);
  }

  /** Both have heard each other. */
  lemma {:induction false} ReachesMet(u: NodeId, strict: bool)
    requires u < 2
    ensures Reached(u, Two(u, Met(u, 1, 0), Met(1 - u, 1, 0), [Table(Pair(1 - u, 1))], [Table(Pair(u, 1))]), 0, strict)
  {
    var v: NodeId, m, t, w := 1 - u, Met(u, 1, 0), Table(Pair(u, 1)), Table(Pair(1 - u, 1));
    ReachesOneMet(u, strict);
    TwoIs(u, m, Blank(v), [], [Hello, t]);
    FirstMeeting(u, strict, v, m, [Hello, t], [t], [], [w]);
    TwoIs(u, m, Met(v, 1, 0), [w], [t]);
  }

  /** Router u has the vector of the other one. */
  lemma {:induction false} ReachesOnePaired(u: NodeId, strict: bool)
    requires u < 2
    ensures Reached(u, Two(u, Paired(u, Pair(1 - u, 1), 0), Met(1 - u, 1, 0), [], [Table(Pair(u, 1))]), 0, strict)
  {
    var v: NodeId, t, w := 1 - u, Table(Pair(u, 1)), Table(Pair(1 - u, 1));
    ReachesMet(u, strict);
    LearnsStep(u, None, 0, Pair(v, 1), 0, Met(v, 1, 0), [w], [], [t]);
    GoOn(u, Two(u, Known(u, None, 0), Met(v, 1, 0), [w], [t]), 0, strict, DeliverTable(v, u, 0, 0),
         Two(u, Paired(u, Pair(v, 1), 0), Met(v, 1, 0), [], [t]));
  }

  /** Both have each other's vector, and all is well. */
  lemma {:induction false} ReachesPaired(u: NodeId, strict: bool)
    requires u < 2
    ensures Reached(u, Two(u, Paired(u, Pair(1 - u, 1), 0), Paired(1 - u, Pair(u, 1), 0), [], []), 0, strict)
  {
    var v: NodeId, t := 1 - u, Table(Pair(u, 1));
    var l, k := Paired(u, Pair(v, 1), 0), Paired(v, Pair(u, 1), 0);
    ReachesOnePaired(u, strict);
    TwoIs(u, l, Known(v, None, 0), [], [t]);
    TwoIs(u, l, k, [], []);
    LearnsStep(v, None, 0, Pair(u, 1), 0, l, [t], [], []);
    GoOn(u, Two(v, Known(v, None, 0), l, [t], []), 0, strict, DeliverTable(u, v, 0, 0), Two(v, k, l, [], []));
  }

  /** Router u has not heard the other one in time, and greets it. */
  lemma {:induction false} ReachesLost(u: NodeId)
    requires u < 2
    ensures Reached(u, Two(u, Lost(u), Paired(1 - u, Pair(u, 1), 0), [], [Hello]), 1, false)
  {
    var v: NodeId := 1 - u;
    var l, k := Paired(u, Pair(v, 1), 0), Paired(v, Pair(u, 1), 0);
    ReachesPaired(u, false);
    LosesStep(u, Pair(v, 1), 0, 1, k, [], [], [Hello]);
    GoOn(u, Two(u, l, k, [], []), 0, false, Audit(u, 1, TIMEOUT), Two(u, Lost(u), k, [], [Hello]));
  }

  /** The other one has heard it. */
  lemma {:induction false} ReachesRefreshed(u: NodeId)
    requires u < 2
    ensures Reached(u, Two(u, Lost(u), Paired(1 - u, Pair(u, 1), 1), [], []), 1, false)
  {
    var v: NodeId, k, r := 1 - u, Paired(1 - u, Pair(u, 1), 0), Paired(1 - u, Pair(u, 1), 1);
    ReachesLost(u);
    TwoIs(u, Lost(u), k, [], [Hello]);
    TwoIs(u, Lost(u), r, [], []);
    RefreshesStep(v, Pair(u, 1), 0, 1, Lost(u), [Hello], [], []);
    GoOn(u, Two(v, k, Lost(u), [Hello], []), 1, false, DeliverHello(u, v, 0, 1), Two(v, r, Lost(u), [], []));
  }

  /** The other one greets again. */
  lemma {:induction false} ReachesGreetedAgain(u: NodeId)
    requires u < 2
    ensures Reached(u, Two(u, Lost(u), Paired(1 - u, Pair(u, 1), 1), [Hello], []), 1, false)
  {
    var v: NodeId, k := 1 - u, Paired(1 - u, Pair(u, 1), 1);
    ReachesRefreshed(u);
    TwoIs(u, Lost(u), k, [], []);
    TwoIs(u, Lost(u), k, [Hello], []);
    GreetsStep(v, 1, k, Lost(u), [], [], [Hello]);
    GoOn(u, Two(u, Lost(u), k, [], []), 1, false, Audit(v, 1, TIMEOUT), Two(u, Lost(u), k, [Hello], []));
  }

  /** Router u has heard it, and has sent what it knows. */
  lemma {:induction false} ReachesMetAgain(u: NodeId)
    requires u < 2
    ensures Reached(u, Two(u, Met(u, M_INF, 1), Paired(1 - u, Pair(u, 1), 1), [], [Table(Pair(u, M_INF))]), 1, false)
  {
    var v: NodeId, k, gone := 1 - u, Paired(1 - u, Pair(u, 1), 1), Table(Pair(u, M_INF));
    ReachesGreetedAgain(u);
    MeetsAgain(u, 1, k, [Hello], [], [], [gone]);
    GoOn(u, Two(u, Lost(u), k, [Hello], []), 1, false, DeliverHello(v, u, 0, 1), Two(u, Met(u, M_INF, 1), k, [], [gone]));
  }

  /** The other one has learnt nothing new, and stays silent. */
  lemma {:induction false} ReachesSilence(u: NodeId)
    requires u < 2
    ensures Reached(u, Two(u, Met(u, M_INF, 1), Paired(1 - u, Pair(u, M_INF), 1), [], []), 1, false)
  {
    var v: NodeId, gone := 1 - u, Table(Pair(u, M_INF));
    var m, k := Met(u, M_INF, 1), Paired(v, Pair(u, M_INF), 1);
    ReachesMetAgain(u);
    var known := Known(v, Some(Pair(u, 1)), 1);
    TwoIs(u, m, known, [], [gone]);
    TwoIs(u, m, k, [], []);
    LearnsStep(v, Some(Pair(u, 1)), 1, Pair(u, M_INF), 1, m, [gone], [], []);
    GoOn(u, Two(v, known, m, [gone], []), 1, false, DeliverTable(u, v, 0, 1), Two(v, k, m, [], []));
  }

  /** A run in which the clock never goes back and hellos come before vectors. In its last
    * state all hellos were heard and no message is in flight, yet router u has neither a
    * distance nor a route to the neighbour it once lost. */
  lemma {:induction false} ExpiryBreaksConvergence(u: NodeId) returns (states: seq<Net>, acts: seq<Action>)
    requires u < 2
    ensures HellosFirst(states, acts) && InTime(acts, TIMEOUT)
    ensures
      var net := states[|acts|];
      HopDistance(net.links, u, 1 - u, 1) && (forall a, b :: Queue(net, a, b) == []) &&
      (forall a, b :: (a, b) in net.links ==> a < |net.nodes| && b in net.nodes[a].costs) &&
      u < |net.nodes| && Value(net.nodes[u].dv, 1 - u) == M_INF && 1 - u !in net.nodes[u].routes
  {
    var net := Two(u, Met(u, M_INF, 1), Paired(1 - u, Pair(u, M_INF), 1), [], []);
    ReachesSilence(u);
    states, acts := RunTo(u, net, 1, false);
    EndsBroken(u, net);
  }

  lemma {:induction false} EndsBroken(u: NodeId, net: Net)
    requires u < 2 && net == Two(u, Met(u, M_INF, 1), Paired(1 - u, Pair(u, M_INF), 1), [], [])
    ensures HopDistance(net.links, u, 1 - u, 1) && (forall a, b :: Queue(net, a, b) == [])
    ensures forall a, b :: (a, b) in net.links ==> a < |net.nodes| && b in net.nodes[a].costs
    ensures u < |net.nodes| && Value(net.nodes[u].dv, 1 - u) == M_INF && 1 - u !in net.nodes[u].routes
  {
    TwoIs(u, Met(u, M_INF, 1), Paired(1 - u, Pair(u, M_INF), 1), [], []);
    var v: NodeId := 1 - u;
    assert HopWalk(LINKS, v, v, 0) && (u, v) in LINKS;
    assert HopWalk(LINKS, u, v, 1);
  }
}
