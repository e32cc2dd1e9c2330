/** A network of distance-vector routers over links that deliver in order, and what
  * holds in each of its reachable states.
  */
module DvNetwork {
  import opened Basics
  import opened DvProtocol

  /** queues[(u, v)] is what is on its way from u to v, oldest first. */
  datatype Net = Net(links: Links, nodes: seq<DvState>, queues: map<(NodeId, NodeId), seq<Message>>)

  /** In the deliveries u is the sender and v the receiver. */
  datatype Action =
    | AddLink(u: NodeId, v: NodeId)
    | DeliverHello(u: NodeId, v: NodeId, interfaceAddr: nat, now: int)
    | DeliverTable(u: NodeId, v: NodeId, interfaceAddr: nat, now: int)
    | Audit(u: NodeId, now: int, timeout: int)

  function Queue(net: Net, u: NodeId, v: NodeId): seq<Message> {
    if (u, v) in net.queues then net.queues[(u, v)] else []
  }

  // ---------- steps ----------

  /** What an action makes router u do: go to `state`, take the oldest message from
    * a link, send its vector to all neighbours so many times, send a HELLO_REQ. */
  datatype Effect = Effect(u: NodeId, state: DvState, from: Option<NodeId>, sends: nat, hello: bool)

  ghost predicate Handles(net: Net, a: Action, e: Effect) {
    e.u < |net.nodes| &&
    var s := net.nodes[e.u];
    match a
    case AddLink(_, _) => false
    case DeliverHello(u, v, interfaceAddr, now) =>
      var h := Heard(s, u, interfaceAddr, now);
      e.u == v && e.from == Some(u) && !e.hello &&
      Queue(net, u, v) != [] && Queue(net, u, v)[0].Hello? &&
      if u in s.neighbors then e.state == h && e.sends == 0
      else 1 <= e.sends <= 2 && Computable(h.costs, h.neighbors) && Recomputed(h, {}, e.state, e.sends == 2)
    case DeliverTable(u, v, interfaceAddr, now) =>
      e.u == v && e.from == Some(u) && !e.hello &&
      Queue(net, u, v) != [] && Queue(net, u, v)[0].Table? &&
      var vector := Queue(net, u, v)[0].vector;
      var r := Received(s, u, vector, interfaceAddr, now);
      e.sends <= 1 && Computable(r.costs, r.neighbors) && Recomputed(r, vector.Keys, e.state, e.sends == 1)
    case Audit(u, now, timeout) =>
      var gone := Expired(s, now, timeout);
      e.u == u && e.from == None && e.hello && gone <= s.costs.Keys &&
      if gone == {} then e.state == s && e.sends == 0
      else
        var f := Forgotten(s, gone);
        e.sends <= 1 && Computable(f.costs, f.neighbors) && Recomputed(f, {}, e.state, e.sends == 1)
  }

  /** What u puts on its link to v. */
  function Emission(e: Effect, v: NodeId): seq<Message> {
    (if e.hello then [Hello] else []) +
    (if v in e.state.costs then seq(e.sends, _ => Table(Poisoned(e.state, v))) else [])
  }

  ghost predicate Moves(net: Net, e: Effect, net': Net)
    requires e.u < |net.nodes|
  {
    net'.links == net.links && net'.nodes == net.nodes[e.u := e.state] &&
    (e.from.Some? ==> Queue(net, e.from.value, e.u) != []) &&
    forall a, b :: Queue(net', a, b) ==
      (if e.from == Some(a) && b == e.u then Queue(net, a, b)[1..] else Queue(net, a, b)) +
      (if a == e.u && (a, b) in net.links then Emission(e, b) else [])
  }

  ghost predicate Step(net: Net, a: Action, net': Net) {
    if a.AddLink? then
      a.u < |net.nodes| && a.v < |net.nodes| && a.u != a.v &&
      net' == net.(links := net.links + {(a.u, a.v), (a.v, a.u)})
    else
      exists e :: Handles(net, a, e) && Moves(net, e, net')
  }

  /** Every router knows itself at distance 0 and nothing else. */
  ghost predicate Initial(net: Net) {
    Topology(net.links, |net.nodes|) &&
    (forall u :: 0 <= u < |net.nodes| ==> net.nodes[u] == DvState(u, map[u := 0], map[], map[], map[])) &&
    (forall u, v :: Queue(net, u, v) == [])
  }

  ghost predicate StepAt(states: seq<Net>, acts: seq<Action>, i: nat) {
    i + 1 < |states| && i < |acts| && Step(states[i], acts[i], states[i + 1])
  }

  /** states[i] leads to states[i + 1] by acts[i]. */
  ghost predicate Run(states: seq<Net>, acts: seq<Action>) {
    |states| == |acts| + 1 && Initial(states[0]) &&
    forall i: nat {:trigger StepAt(states, acts, i)} :: i < |acts| ==> StepAt(states, acts, i)
  }

  // ---------- true distances ----------

  /** There is a walk of exactly k links from u to d. */
  ghost predicate HopWalk(links: Links, u: NodeId, d: NodeId, k: nat)
    decreases k
  {
    if k == 0 then u == d
    else exists w :: (u, w) in links && HopWalk(links, w, d, k - 1)
  }

  lemma {:induction false} MoreLinks(links: Links, links': Links, u: NodeId, d: NodeId, k: nat)
    requires links <= links' && HopWalk(links, u, d, k)
    ensures HopWalk(links', u, d, k)
    decreases k
  {
    if k > 0 {
      var w :| (u, w) in links && HopWalk(links, w, d, k - 1);
      MoreLinks(links, links', w, d, k - 1);
      assert (u, w) in links';
    }
  }

  // ---------- safety ----------

  /** A distance is either unreachable or the length of a walk of at most 16 links. */
  ghost predicate Honest(links: Links, u: NodeId, d: NodeId, x: Uint32) {
    x == M_INF || (x <= MAX_HOPS && HopWalk(links, u, d, x))
  }

  ghost predicate HonestVector(links: Links, u: NodeId, v: Vector) {
    forall d :: d in v ==> Honest(links, u, d, v[d])
  }

  ghost predicate HonestState(links: Links, u: NodeId, s: DvState) {
    s.me == u && u in s.dv && s.dv[u] == 0 &&
    s.costs.Keys <= s.neighbors.Keys && (forall v :: v in s.costs ==> s.costs[v] == 1) &&
    HonestVector(links, u, s.dv) &&
    (forall v {:trigger HonestNeighbor(links, u, s, v)} :: v in s.neighbors ==> HonestNeighbor(links, u, s, v))
  }

  ghost predicate HonestNeighbor(links: Links, u: NodeId, s: DvState, v: NodeId)
    requires v in s.neighbors
  {
    (u, v) in links && v != u && HonestVector(links, v, s.neighbors[v].dv)
  }

  ghost predicate HonestQueue(net: Net, u: NodeId, v: NodeId) {
    (Queue(net, u, v) != [] ==> (u, v) in net.links) &&
    forall i :: 0 <= i < |Queue(net, u, v)| && Queue(net, u, v)[i].Table? ==>
      HonestVector(net.links, u, Queue(net, u, v)[i].vector) && NamesItself(u, Queue(net, u, v)[i].vector)
  }

  /** The sender of a vector is at distance 0 from itself. */
  predicate NamesItself(u: NodeId, vector: Vector) {
    u in vector && vector[u] == 0
  }

  ghost predicate Safe(net: Net) {
    Topology(net.links, |net.nodes|) &&
    (forall u {:trigger HonestState(net.links, u, net.nodes[u])} :: 0 <= u < |net.nodes| ==>
      HonestState(net.links, u, net.nodes[u])) &&
    (forall u, v {:trigger HonestQueue(net, u, v)} :: HonestQueue(net, u, v))
  }

  /** A least offer that fits is one hop more than an honest distance. */
  lemma {:induction false} OffersAreHonest(links: Links, u: NodeId, s: DvState, d: NodeId)
    requires HonestState(links, u, s) && Computable(s.costs, s.neighbors)
    requires MinCost(s.costs, s.neighbors, d) <= MAX_HOPS
    ensures Honest(links, u, d, MinCost(s.costs, s.neighbors, d))
  {
    var c := MinCost(s.costs, s.neighbors, d);
    var j :| Offers(s.costs, s.neighbors, j, d) && c == Offer(s.costs, s.neighbors, j, d);
    assert HonestNeighbor(links, u, s, j);
    var x := s.neighbors[j].dv[d];
    assert Honest(links, j, d, x);
    assert c == x + 1 && (u, j) in links && HopWalk(links, j, d, c - 1);
  }

  lemma {:induction false} RecomputedIsHonest(links: Links, u: NodeId, s: DvState, names: set<NodeId>, s': DvState, changed: bool)
    requires HonestState(links, u, s) && Computable(s.costs, s.neighbors)
    requires Recomputed(s, names, s', changed)
    ensures HonestState(links, u, s')
  {
    forall d | d in s'.dv ensures Honest(links, u, d, s'.dv[d]) {
      if d != u && MinCost(s.costs, s.neighbors, d) <= MAX_HOPS {
        OffersAreHonest(links, u, s, d);
      }
    }
    forall v | v in s'.neighbors ensures HonestNeighbor(links, u, s', v) {
      assert HonestNeighbor(links, u, s, v);
    }
  }

  lemma {:induction false} HeardIsHonest(links: Links, u: NodeId, s: DvState, from: NodeId, interfaceAddr: nat, now: int)
    requires HonestState(links, u, s) && (u, from) in links && from != u
    ensures HonestState(links, u, Heard(s, from, interfaceAddr, now))
  {
    var h := Heard(s, from, interfaceAddr, now);
    assert HopWalk(links, u, from, 1) by { assert HopWalk(links, from, from, 0); }
    forall v | v in h.neighbors ensures HonestNeighbor(links, u, h, v) {
      assert v in s.neighbors ==> HonestNeighbor(links, u, s, v);
    }
  }

  lemma {:induction false} ReceivedIsHonest(links: Links, u: NodeId, s: DvState, from: NodeId, vector: Vector, interfaceAddr: nat, now: int)
    requires HonestState(links, u, s) && (u, from) in links && from != u && HonestVector(links, from, vector)
    ensures HonestState(links, u, Received(s, from, vector, interfaceAddr, now))
  {
    var r := Received(s, from, vector, interfaceAddr, now);
    forall v | v in r.neighbors ensures HonestNeighbor(links, u, r, v) {
      assert v in s.neighbors ==> HonestNeighbor(links, u, s, v);
    }
  }

  lemma {:induction false} ForgottenIsHonest(links: Links, u: NodeId, s: DvState, gone: set<NodeId>)
    requires HonestState(links, u, s) && gone <= s.neighbors.Keys
    ensures HonestState(links, u, Forgotten(s, gone))
  {
    var f := Forgotten(s, gone);
    forall v | v in f.neighbors ensures HonestNeighbor(links, u, f, v) {
      assert HonestNeighbor(links, u, s, v);
    }
    if u in gone {
      assert HonestNeighbor(links, u, s, u);
    }
  }

  /** The state an action leads to is honest, and so is what it sends. */
  lemma {:induction false} EffectIsHonest(net: Net, a: Action, e: Effect)
    requires Safe(net) && Handles(net, a, e)
    ensures HonestState(net.links, e.u, e.state)
  {
    var s, links := net.nodes[e.u], net.links;
    assert HonestState(links, e.u, s);
    match a
    case DeliverHello(u, v, interfaceAddr, now) =>
      assert HonestQueue(net, u, v);
      HeardIsHonest(links, v, s, u, interfaceAddr, now);
      if u !in s.neighbors {
        RecomputedIsHonest(links, v, Heard(s, u, interfaceAddr, now), {}, e.state, e.sends == 2);
      }
    case DeliverTable(u, v, interfaceAddr, now) =>
      assert HonestQueue(net, u, v);
      var vector := Queue(net, u, v)[0].vector;
      ReceivedIsHonest(links, v, s, u, vector, interfaceAddr, now);
      RecomputedIsHonest(links, v, Received(s, u, vector, interfaceAddr, now), vector.Keys, e.state, e.sends == 1);
    case Audit(u, now, timeout) =>
      var gone := Expired(s, now, timeout);
      if gone != {} {
        ForgottenIsHonest(links, u, s, gone);
        RecomputedIsHonest(links, u, Forgotten(s, gone), {}, e.state, e.sends == 1);
      }
  }

  lemma {:induction false} QueueStaysHonest(net: Net, e: Effect, net': Net, u: NodeId, v: NodeId)
    requires HonestQueue(net, u, v) && e.u < |net.nodes| && Moves(net, e, net')
    requires HonestState(net.links, e.u, e.state) && ((u, v) in net.links ==> u != v)
    ensures HonestQueue(net', u, v)
  {
    var q, q' := Queue(net, u, v), Queue(net', u, v);
    var kept := if e.from == Some(u) && v == e.u then q[1..] else q;
    var added := if u == e.u && (u, v) in net.links then Emission(e, v) else [];
    assert q' == kept + added;
    forall i | 0 <= i < |q'| && q'[i].Table?
      ensures HonestVector(net.links, u, q'[i].vector) && NamesItself(u, q'[i].vector)
    {
      if i >= |kept| {
        var m := added[i - |kept|];
        assert m == Table(Poisoned(e.state, v));
      }
    }
  }

  lemma {:induction false} MovesAreSafe(net: Net, e: Effect, net': Net)
    requires Safe(net) && e.u < |net.nodes| && Moves(net, e, net')
    requires HonestState(net.links, e.u, e.state)
    ensures Safe(net')
  {
    forall u | 0 <= u < |net'.nodes| ensures HonestState(net'.links, u, net'.nodes[u]) {
      assert HonestState(net.links, u, net.nodes[u]);
    }
    forall u, v ensures HonestQueue(net', u, v) {
      assert HonestQueue(net, u, v);
      QueueStaysHonest(net, e, net', u, v);
    }
  }

  lemma {:induction false} AddLinkIsSafe(net: Net, a: Action, net': Net)
    requires Safe(net) && a.AddLink? && Step(net, a, net')
    ensures Safe(net')
  {
    forall u, d, k: nat | HopWalk(net.links, u, d, k) ensures HopWalk(net'.links, u, d, k) {
      MoreLinks(net.links, net'.links, u, d, k);
    }
    forall u | 0 <= u < |net'.nodes| ensures HonestState(net'.links, u, net'.nodes[u]) {
      var s := net.nodes[u];
      assert HonestState(net.links, u, s);
      forall v | v in s.neighbors ensures HonestNeighbor(net'.links, u, s, v) {
        assert HonestNeighbor(net.links, u, s, v);
      }
    }
    forall u, v ensures HonestQueue(net', u, v) {
      assert HonestQueue(net, u, v);
      assert Queue(net', u, v) == Queue(net, u, v);
    }
  }

  lemma {:induction false} StepIsSafe(net: Net, a: Action, net': Net)
    requires Safe(net) && Step(net, a, net')
    ensures Safe(net')
  {
    if a.AddLink? {
      AddLinkIsSafe(net, a, net');
    } else {
      var e :| Handles(net, a, e) && Moves(net, e, net');
      EffectIsHonest(net, a, e);
      MovesAreSafe(net, e, net');
    }
  }

  lemma {:induction false} InitialIsSafe(net: Net)
    requires Initial(net)
    ensures Safe(net)
  {
    forall u | 0 <= u < |net.nodes| ensures HonestState(net.links, u, net.nodes[u]) {
      assert HopWalk(net.links, u, u, 0);
    }
  }
}
