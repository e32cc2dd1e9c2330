/** Distance vectors converge: in a run without expiring neighbours, whenever no
  * vector is in flight and every hello was heard, distances and routes are exact.
  */
module DvConvergence {
  import opened Basics
  import opened DvProtocol
  import opened DvNetwork

  /** A neighbour's hello is heard before its vectors, and no neighbour expires. */
  predicate Orderly(net: Net, a: Action) {
    match a
    case AddLink(_, _) => true
    case DeliverHello(_, _, _, _) => true
    case DeliverTable(u, v, _, _) => v < |net.nodes| && u in net.nodes[v].costs
    case Audit(u, now, timeout) => u < |net.nodes| && Expired(net.nodes[u], now, timeout) == {}
  }

  ghost predicate OrderlyRun(states: seq<Net>, acts: seq<Action>) {
    Run(states, acts) && forall i :: 0 <= i < |acts| ==> Orderly(states[i], acts[i])
  }

  // ---------- each router is up to date with what it has received ----------

  ghost predicate UpToDate(s: DvState) {
    s.costs.Keys == s.neighbors.Keys && Computable(s.costs, s.neighbors) &&
    (forall d :: d in s.dv && d != s.me && MinCost(s.costs, s.neighbors, d) <= MAX_HOPS ==>
      s.dv[d] == MinCost(s.costs, s.neighbors, d)) &&
    (forall j, d :: Offers(s.costs, s.neighbors, j, d) ==> d in s.dv) &&
    (forall d :: d != s.me ==>
      (d in s.routes <==> d in s.dv && MinCost(s.costs, s.neighbors, d) < MAX_HOPS)) &&
    (forall d :: d in s.routes ==> RouteOk(s, d, s.routes[d]))
  }

  lemma {:induction false} RecomputedIsUpToDate(s: DvState, names: set<NodeId>, s': DvState, changed: bool)
    requires s.costs.Keys == s.neighbors.Keys && Computable(s.costs, s.neighbors)
    requires Recomputed(s, names, s', changed)
    requires forall j, d :: Offers(s.costs, s.neighbors, j, d) ==> d in s.dv || d in names
    ensures UpToDate(s')
  {
    forall d | d in s'.routes ensures RouteOk(s', d, s'.routes[d]) {
      assert RouteOk(s, d, s'.routes[d]);
    }
  }

  /** Time stamps do not matter to the offers. */
  lemma {:induction false} SameOffers(costs: Vector, nbrs: Neighbors, nbrs': Neighbors, d: NodeId)
    requires Computable(costs, nbrs) && Computable(costs, nbrs')
    requires nbrs.Keys == nbrs'.Keys && forall j :: j in nbrs ==> nbrs'[j].dv == nbrs[j].dv
    ensures MinCost(costs, nbrs', d) == MinCost(costs, nbrs, d)
  {
    var c := MinCost(costs, nbrs, d);
    assert IsMinCost(costs, nbrs, d, c);
    if c != M_INF {
      var j :| Offers(costs, nbrs, j, d) && c == Offer(costs, nbrs, j, d);
      assert Offers(costs, nbrs', j, d) && c == Offer(costs, nbrs', j, d);
    }
    assert forall j :: Offers(costs, nbrs', j, d) ==> Offers(costs, nbrs, j, d) && Offer(costs, nbrs, j, d) == Offer(costs, nbrs', j, d);
    assert IsMinCost(costs, nbrs', d, c);
    MinCostUnique(costs, nbrs', d, c);
  }

  lemma {:induction false} RefreshKeepsUpToDate(s: DvState, from: NodeId, interfaceAddr: nat, now: int)
    requires UpToDate(s) && from in s.neighbors
    ensures UpToDate(Heard(s, from, interfaceAddr, now))
  {
    var h := Heard(s, from, interfaceAddr, now);
    assert h.neighbors.Keys == s.neighbors.Keys;
    forall d ensures MinCost(h.costs, h.neighbors, d) == MinCost(s.costs, s.neighbors, d) {
      SameOffers(s.costs, s.neighbors, h.neighbors, d);
    }
    forall j, d | Offers(h.costs, h.neighbors, j, d) ensures d in h.dv {
      assert Offers(s.costs, s.neighbors, j, d);
    }
    forall d | d in h.routes ensures RouteOk(h, d, h.routes[d]) {
      assert RouteOk(s, d, s.routes[d]);
    }
  }

  // ---------- each link will deliver what its sender holds now ----------

  /** The newest vector in the queue, or else the one the receiver holds already. */
  function LastVector(q: seq<Message>, held: Option<Vector>): Option<Vector> {
    if q == [] then held
    else if q[|q| - 1].Table? then Some(q[|q| - 1].vector)
    else LastVector(q[..|q| - 1], held)
  }

  lemma {:induction false} LastVectorPop(q: seq<Message>, held: Option<Vector>)
    requires q != []
    ensures LastVector(q, held) == LastVector(q[1..], if q[0].Table? then Some(q[0].vector) else held)
  {
    if |q| > 1 && !q[|q| - 1].Table? {
      LastVectorPop(q[..|q| - 1], held);
      assert q[..|q| - 1][1..] == q[1..][..|q| - 2];
    }
  }

  lemma {:induction false} LastVectorAppend(q: seq<Message>, added: seq<Message>, held: Option<Vector>)
    ensures LastVector(q + added, held) == LastVector(added, LastVector(q, held))
  {
    if added == [] {
      assert q + added == q;
    } else {
      LastVectorAppend(q, added[..|added| - 1], held);
      assert (q + added)[..|q + added| - 1] == q + added[..|added| - 1];
    }
  }

  lemma {:induction false} HeldDoesNotMatter(q: seq<Message>, held: Option<Vector>)
    requires LastVector(q, None).Some?
    ensures LastVector(q, held) == LastVector(q, None)
  {
    if !q[|q| - 1].Table? {
      HeldDoesNotMatter(q[..|q| - 1], held);
    }
  }

  lemma {:induction false} LastEmission(e: Effect, v: NodeId, held: Option<Vector>)
    ensures LastVector(Emission(e, v), held) ==
            if v in e.state.costs && e.sends > 0 then Some(Poisoned(e.state, v)) else held
  {
    var m := Emission(e, v);
    if v in e.state.costs && e.sends > 0 {
      assert m[|m| - 1] == Table(Poisoned(e.state, v));
    } else if e.hello {
      assert m == [Hello] && m[..0] == [];
    } else {
      assert m == [];
    }
  }

  /** The vectors agree on every destination but v itself, which poisoning may hide. */
  ghost predicate Mirrors(vector: Vector, dv: Vector, v: NodeId) {
    forall d :: d != v ==> Value(vector, d) == Value(dv, d)
  }

  function HeldOf(s: DvState, u: NodeId): Option<Vector> {
    if u in s.neighbors then Some(s.neighbors[u].dv) else None
  }

  ghost predicate LinkLive(net: Net, u: NodeId, v: NodeId) {
    u < |net.nodes| && v < |net.nodes| && v in net.nodes[u].costs ==>
      var last := LastVector(Queue(net, u, v), HeldOf(net.nodes[v], u));
      last.Some? && Mirrors(last.value, net.nodes[u].dv, v)
  }

  ghost predicate Live(net: Net) {
    Safe(net) &&
    (forall u {:trigger UpToDate(net.nodes[u])} :: 0 <= u < |net.nodes| ==> UpToDate(net.nodes[u])) &&
    (forall u, v {:trigger LinkLive(net, u, v)} :: LinkLive(net, u, v))
  }

  lemma {:induction false} LiveLink(net: Net, u: NodeId, v: NodeId)
    requires Live(net)
    ensures LinkLive(net, u, v)
  {
  }

  // ---------- every orderly step keeps this ----------

  lemma {:induction false} EffectIsUpToDate(net: Net, a: Action, e: Effect)
    requires Live(net) && Handles(net, a, e) && Orderly(net, a)
    ensures UpToDate(e.state)
  {
    var s := net.nodes[e.u];
    assert UpToDate(s);
    match a
    case DeliverHello(u, v, interfaceAddr, now) =>
      var h := Heard(s, u, interfaceAddr, now);
      if u in s.neighbors {
        RefreshKeepsUpToDate(s, u, interfaceAddr, now);
      } else {
        forall j, d | Offers(h.costs, h.neighbors, j, d) ensures d in h.dv {
          assert Offers(s.costs, s.neighbors, j, d);
        }
        RecomputedIsUpToDate(h, {}, e.state, e.sends == 2);
      }
    case DeliverTable(u, v, interfaceAddr, now) =>
      var vector := Queue(net, u, v)[0].vector;
      var r := Received(s, u, vector, interfaceAddr, now);
      forall j, d | Offers(r.costs, r.neighbors, j, d) ensures d in r.dv || d in vector.Keys {
        assert j != u ==> Offers(s.costs, s.neighbors, j, d);
      }
      RecomputedIsUpToDate(r, vector.Keys, e.state, e.sends == 1);
    case Audit(u, now, timeout) =>
  }

  /** A router that sends nothing holds the same distances to the same neighbours. */
  lemma {:induction false} SilenceMeansUnchanged(net: Net, a: Action, e: Effect)
    requires Handles(net, a, e) && Orderly(net, a) && e.sends == 0
    ensures e.state.costs == net.nodes[e.u].costs
    ensures forall d :: Value(e.state.dv, d) == Value(net.nodes[e.u].dv, d)
  {
  }

  /** What the acting router holds of u changes only by taking a message from u. */
  lemma {:induction false} HeldAfter(net: Net, a: Action, e: Effect, u: NodeId)
    requires Live(net) && Handles(net, a, e) && Orderly(net, a)
    ensures e.from != Some(u) ==> HeldOf(e.state, u) == HeldOf(net.nodes[e.u], u)
    ensures e.from == Some(u) && Queue(net, u, e.u)[0].Table? ==>
      HeldOf(e.state, u) == Some(Queue(net, u, e.u)[0].vector)
    ensures e.from == Some(u) && Queue(net, u, e.u)[0].Hello? && HeldOf(net.nodes[e.u], u).Some? ==>
      HeldOf(e.state, u) == HeldOf(net.nodes[e.u], u)
  {
  }

  /** What a router has just sent is what it holds. */
  lemma {:induction false} SpeakerIsMirrored(net: Net, e: Effect, net': Net, v: NodeId)
    requires e.u < |net.nodes| && v < |net.nodes| && v != e.u && Moves(net, e, net')
    requires (e.u, v) in net.links && v in e.state.costs && e.sends > 0
    ensures LinkLive(net', e.u, v)
  {
    var q, held := Queue(net, e.u, v), HeldOf(net.nodes[v], e.u);
    LastVectorAppend(q, Emission(e, v), held);
    LastEmission(e, v, LastVector(q, held));
    assert Queue(net', e.u, v) == q + Emission(e, v);
    assert Mirrors(Poisoned(e.state, v), e.state.dv, v);
  }

  lemma {:induction false} SilentIsMirrored(net: Net, e: Effect, net': Net, v: NodeId)
    requires e.u < |net.nodes| && v < |net.nodes| && v != e.u && Moves(net, e, net')
    requires LinkLive(net, e.u, v) && e.sends == 0
    requires e.state.costs == net.nodes[e.u].costs
    requires forall d :: Value(e.state.dv, d) == Value(net.nodes[e.u].dv, d)
    ensures LinkLive(net', e.u, v)
  {
    var q, held, out := Queue(net, e.u, v), HeldOf(net.nodes[v], e.u), if (e.u, v) in net.links then Emission(e, v) else [];
    LastVectorAppend(q, out, held);
    LastEmission(e, v, LastVector(q, held));
    assert Queue(net', e.u, v) == q + out;
  }

  lemma {:induction false} CostsAreLinks(links: Links, u: NodeId, s: DvState, v: NodeId)
    requires HonestState(links, u, s) && v in s.costs
    ensures (u, v) in links && v != u
  {
    assert HonestNeighbor(links, u, s, v);
  }

  lemma {:induction false} NoCostNoLink(net: Net, e: Effect, net': Net, v: NodeId)
    requires e.u < |net.nodes| && Moves(net, e, net')
    requires v >= |net.nodes| || v !in e.state.costs
    ensures LinkLive(net', e.u, v)
  {
  }

  lemma {:induction false} SenderKeepsLink(net: Net, a: Action, e: Effect, net': Net, v: NodeId)
    requires Live(net) && Handles(net, a, e) && Orderly(net, a) && Moves(net, e, net')
    requires HonestState(net.links, e.u, e.state)
    ensures LinkLive(net', e.u, v)
  {
    if v >= |net.nodes| || v !in e.state.costs {
      NoCostNoLink(net, e, net', v);
    } else {
      CostsAreLinks(net.links, e.u, e.state, v);
      if e.sends > 0 {
        SpeakerIsMirrored(net, e, net', v);
      } else {
        SilenceMeansUnchanged(net, a, e);
        LiveLink(net, e.u, v);
        SilentIsMirrored(net, e, net', v);
      }
    }
  }

  lemma {:induction false} ReceiverKeepsLink(net: Net, a: Action, e: Effect, net': Net, u: NodeId)
    requires Live(net) && Handles(net, a, e) && Orderly(net, a) && Moves(net, e, net')
    requires u != e.u
    ensures LinkLive(net', u, e.u)
  {
    assert LinkLive(net, u, e.u);
    HeldAfter(net, a, e, u);
    if u < |net.nodes| && e.u in net.nodes[u].costs {
      if e.from == Some(u) {
        TakenIsMirrored(net, e, net', u);
      } else {
        assert Queue(net', u, e.u) == Queue(net, u, e.u);
      }
    }
  }

  /** Taking the oldest message from a link does not change its last vector. */
  lemma {:induction false} TakenIsMirrored(net: Net, e: Effect, net': Net, u: NodeId)
    requires u != e.u && e.u < |net.nodes| && Moves(net, e, net') && e.from == Some(u)
    requires LinkLive(net, u, e.u)
    requires Queue(net, u, e.u)[0].Table? ==> HeldOf(e.state, u) == Some(Queue(net, u, e.u)[0].vector)
    requires Queue(net, u, e.u)[0].Hello? && HeldOf(net.nodes[e.u], u).Some? ==>
      HeldOf(e.state, u) == HeldOf(net.nodes[e.u], u)
    ensures LinkLive(net', u, e.u)
  {
    if u < |net.nodes| && e.u in net.nodes[u].costs {
      var q, held := Queue(net, u, e.u), HeldOf(net.nodes[e.u], u);
      LastVectorPop(q, held);
      if q[0].Hello? && held.None? {
        HeldDoesNotMatter(q[1..], HeldOf(e.state, u));
      }
      assert Queue(net', u, e.u) == q[1..];
    }
  }

  lemma {:induction false} OthersKeepLink(net: Net, e: Effect, net': Net, u: NodeId, v: NodeId)
    requires Live(net) && e.u < |net.nodes| && Moves(net, e, net')
    requires u != e.u && v != e.u
    ensures LinkLive(net', u, v)
  {
    assert LinkLive(net, u, v);
    assert Queue(net, u, v) + [] == Queue(net, u, v);
  }

  lemma {:induction false} AddLinkKeepsLive(net: Net, a: Action, net': Net)
    requires Live(net) && Step(net, a, net') && a.AddLink?
    ensures Live(net')
  {
    StepIsSafe(net, a, net');
    forall u, v ensures LinkLive(net', u, v) {
      assert LinkLive(net, u, v);
      assert Queue(net', u, v) == Queue(net, u, v);
    }
    forall u | 0 <= u < |net'.nodes| ensures UpToDate(net'.nodes[u]) {
      assert UpToDate(net.nodes[u]);
    }
  }

  lemma {:induction false} LinksKept(net: Net, a: Action, e: Effect, net': Net, u: NodeId, v: NodeId)
    requires Live(net) && Handles(net, a, e) && Orderly(net, a) && Moves(net, e, net')
    ensures LinkLive(net', u, v)
  {
    EffectIsHonest(net, a, e);
    if u == e.u {
      SenderKeepsLink(net, a, e, net', v);
    } else if v == e.u {
      ReceiverKeepsLink(net, a, e, net', u);
    } else {
      OthersKeepLink(net, e, net', u, v);
    }
  }

  lemma {:induction false} StepKeepsLive(net: Net, a: Action, net': Net)
    requires Live(net) && Step(net, a, net') && Orderly(net, a)
    ensures Live(net')
  {
    if a.AddLink? {
      AddLinkKeepsLive(net, a, net');
    } else {
      StepIsSafe(net, a, net');
      var e :| Handles(net, a, e) && Moves(net, e, net');
      forall u | 0 <= u < |net'.nodes| ensures UpToDate(net'.nodes[u]) {
        NodesKept(net, a, e, net', u);
      }
      forall u, v ensures LinkLive(net', u, v) {
        LinksKept(net, a, e, net', u, v);
      }
    }
  }

  lemma {:induction false} NodesKept(net: Net, a: Action, e: Effect, net': Net, u: NodeId)
    requires Live(net) && Handles(net, a, e) && Orderly(net, a) && Moves(net, e, net') && u < |net.nodes|
    ensures u < |net'.nodes| && UpToDate(net'.nodes[u])
  {
    EffectIsUpToDate(net, a, e);
    assert UpToDate(net.nodes[u]);
  }

  lemma {:induction false} RunIsLive(states: seq<Net>, acts: seq<Action>, i: nat)
    requires OrderlyRun(states, acts) && i < |states|
    ensures Live(states[i])
  {
    if i == 0 {
      InitialIsSafe(states[0]);
    } else {
      RunIsLive(states, acts, i - 1);
      assert StepAt(states, acts, i - 1);
      StepKeepsLive(states[i - 1], acts[i - 1], states[i]);
    }
  }

  // ---------- quiet states ----------

  /** No vector is in flight and every router has heard all of its neighbours. */
  ghost predicate Settled(net: Net) {
    Live(net) &&
    (forall u, v, i :: 0 <= i < |Queue(net, u, v)| ==> Queue(net, u, v)[i].Hello?) &&
    (forall u, v :: (u, v) in net.links ==> v in net.nodes[u].costs)
  }

  /** The true distance in links. */
  ghost predicate HopDistance(links: Links, u: NodeId, d: NodeId, k: nat) {
    HopWalk(links, u, d, k) && forall j: nat :: j < k ==> !HopWalk(links, u, d, j)
  }

  lemma {:induction false} NoVectorQueued(q: seq<Message>, held: Option<Vector>)
    requires forall i :: 0 <= i < |q| ==> q[i].Hello?
    ensures LastVector(q, held) == held
  {
    if q != [] {
      NoVectorQueued(q[..|q| - 1], held);
    }
  }

  /** A settled router holds each neighbour's current distances. */
  lemma {:induction false} HeldIsCurrent(net: Net, v: NodeId, u: NodeId)
    requires Settled(net) && (v, u) in net.links
    ensures u < |net.nodes| && v < |net.nodes| && u in net.nodes[v].neighbors && u in net.nodes[v].costs
    ensures Mirrors(net.nodes[v].neighbors[u].dv, net.nodes[u].dv, v)
  {
    assert (u, v) in net.links;
    assert UpToDate(net.nodes[v]) && LinkLive(net, u, v);
    NoVectorQueued(Queue(net, u, v), HeldOf(net.nodes[v], u));
  }

  /** No offer is below the true distance. */
  lemma {:induction false} OffersAreNotShort(net: Net, v: NodeId, d: NodeId, k: nat)
    requires Settled(net) && v < |net.nodes| && d != v
    requires forall j: nat :: j < k ==> !HopWalk(net.links, v, d, j)
    ensures UpToDate(net.nodes[v])
    ensures
      var c := MinCost(net.nodes[v].costs, net.nodes[v].neighbors, d);
      c <= MAX_HOPS ==> k <= c
  {
    var s := net.nodes[v];
    assert UpToDate(s) && HonestState(net.links, v, s);
    if MinCost(s.costs, s.neighbors, d) <= MAX_HOPS {
      OffersAreHonest(net.links, v, s, d);
    }
  }

  /** A shortest walk goes on from its first hop as a shortest walk. */
  lemma {:induction false} Predecessor(links: Links, v: NodeId, d: NodeId, k: nat) returns (w: NodeId)
    requires HopDistance(links, v, d, k) && d != v
    ensures k > 0 && (v, w) in links && HopDistance(links, w, d, k - 1)
  {
    w :| (v, w) in links && HopWalk(links, w, d, k - 1);
    forall j: nat | j < k - 1 ensures !HopWalk(links, w, d, j) {
      assert !HopWalk(links, v, d, j + 1);
    }
  }

  /** A router is exact when a neighbour on a shortest walk is. */
  lemma {:induction false} NeighborMakesExact(net: Net, v: NodeId, w: NodeId, d: NodeId, k: nat)
    requires Settled(net) && (v, w) in net.links && d != v && v < |net.nodes| && w < |net.nodes|
    requires 0 < k <= MAX_HOPS && HopDistance(net.links, v, d, k) && Value(net.nodes[w].dv, d) == k - 1
    ensures UpToDate(net.nodes[v]) && Value(net.nodes[v].dv, d) == k
    ensures MinCost(net.nodes[v].costs, net.nodes[v].neighbors, d) == k
  {
    var s := net.nodes[v];
    HeldIsCurrent(net, v, w);
    OffersAreNotShort(net, v, d, k);
    assert HonestState(net.links, v, s);
    assert Offers(s.costs, s.neighbors, w, d) && Offer(s.costs, s.neighbors, w, d) == k;
    assert d in s.dv;
  }

  /** Distances up to 16 are exact, and they are the least offers. */
  lemma {:induction false} NearIsExact(net: Net, v: NodeId, d: NodeId, k: nat)
    requires Settled(net) && v < |net.nodes| && k <= MAX_HOPS && HopDistance(net.links, v, d, k)
    ensures UpToDate(net.nodes[v]) && Value(net.nodes[v].dv, d) == k
    ensures d != v ==> MinCost(net.nodes[v].costs, net.nodes[v].neighbors, d) == k
    decreases k
  {
    if d == v {
      assert UpToDate(net.nodes[v]) && HonestState(net.links, v, net.nodes[v]);
      assert HopWalk(net.links, v, v, 0);
    } else {
      var w := Predecessor(net.links, v, d, k);
      HeldIsCurrent(net, v, w);
      NearIsExact(net, w, d, k - 1);
      NeighborMakesExact(net, v, w, d, k);
    }
  }

  /** Destinations farther than 16 links are unreachable. */
  lemma {:induction false} FarIsInfinite(net: Net, v: NodeId, d: NodeId)
    requires Settled(net) && v < |net.nodes|
    requires forall j: nat :: j <= MAX_HOPS ==> !HopWalk(net.links, v, d, j)
    ensures Value(net.nodes[v].dv, d) == M_INF && d !in net.nodes[v].routes
  {
    var s := net.nodes[v];
    assert UpToDate(s) && HonestState(net.links, v, s);
    assert HopWalk(net.links, v, v, 0);
    OffersAreNotShort(net, v, d, MAX_HOPS + 1);
    if d in s.dv {
      assert Honest(net.links, v, d, s.dv[d]);
    }
  }

  lemma {:induction false} ShortestExists(links: Links, u: NodeId, d: NodeId, k: nat) returns (m: nat)
    requires HopWalk(links, u, d, k)
    ensures m <= k && HopDistance(links, u, d, m)
    decreases k
  {
    if j: nat :| j < k && HopWalk(links, u, d, j) {
      m := ShortestExists(links, u, d, j);
    } else {
      m := k;
    }
  }

  /** Convergence of distances: in a settled state the distance held is the true one
    * up to 16 links, and infinite exactly beyond. */
  lemma {:induction false} DistancesConverge(net: Net, v: NodeId, d: NodeId)
    requires Settled(net) && v < |net.nodes|
    ensures forall k: nat :: k <= MAX_HOPS ==> (Value(net.nodes[v].dv, d) == k <==> HopDistance(net.links, v, d, k))
    ensures Value(net.nodes[v].dv, d) == M_INF <==> (forall k: nat :: k <= MAX_HOPS ==> !HopWalk(net.links, v, d, k))
  {
    if k: nat :| k <= MAX_HOPS && HopWalk(net.links, v, d, k) {
      var m := ShortestExists(net.links, v, d, k);
      NearIsExact(net, v, d, m);
      assert m <= MAX_HOPS && HopWalk(net.links, v, d, m);
    } else {
      FarIsInfinite(net, v, d);
    }
  }

  /** Convergence of routes: there is a route exactly below 16 links. */
  lemma {:induction false} RoutesConverge(net: Net, v: NodeId, d: NodeId)
    requires Settled(net) && v < |net.nodes| && d != v
    ensures d in net.nodes[v].routes <==> exists k: nat :: k < MAX_HOPS && HopDistance(net.links, v, d, k)
  {
    var s := net.nodes[v];
    assert UpToDate(s) && HonestState(net.links, v, s);
    if k: nat :| k <= MAX_HOPS && HopWalk(net.links, v, d, k) {
      var m := ShortestExists(net.links, v, d, k);
      NearIsExact(net, v, d, m);
    } else {
      FarIsInfinite(net, v, d);
    }
  }

  /** ... its cost is the true distance, and its next hop is one link nearer. */
  lemma {:induction false} RoutesPointNearer(net: Net, v: NodeId, d: NodeId)
    requires Settled(net) && v < |net.nodes| && d != v && d in net.nodes[v].routes
    ensures PointsNearer(net, v, d)
  {
    RoutesConverge(net, v, d);
    var m: nat :| m < MAX_HOPS && HopDistance(net.links, v, d, m);
    NextHopIsNearer(net, v, d, m);
  }

  /** The routers a packet for d visits from v on. */
  ghost function Forward(net: Net, v: NodeId, d: NodeId): (path: seq<NodeId>)
    requires Settled(net) && v < |net.nodes| && (v == d || d in net.nodes[v].routes)
    ensures |path| > 0 && path[0] == v && path[|path| - 1] == d
    ensures forall i :: 0 <= i < |path| - 1 ==>
      path[i] < |net.nodes| && path[i] != d && d in net.nodes[path[i]].routes &&
      path[i + 1] == net.nodes[path[i]].routes[d].nextHop && (path[i], path[i + 1]) in net.links
    ensures v != d ==> |path| == net.nodes[v].routes[d].cost + 1
    ensures v == d ==> path == [d]
    decreases if v == d then 0 else net.nodes[v].routes[d].cost
  {
    if v == d then [d]
    else
      var w := net.nodes[v].routes[d].nextHop;
      NextHopHasRoute(net, v, d);
      [v] + Forward(net, w, d)
  }

  lemma {:induction false} NextHopHasRoute(net: Net, v: NodeId, d: NodeId)
    requires Settled(net) && v < |net.nodes| && d != v && d in net.nodes[v].routes
    ensures
      var r := net.nodes[v].routes[d];
      r.nextHop < |net.nodes| && r.cost > 0 && (v, r.nextHop) in net.links &&
      (if r.nextHop == d then r.cost == 1
       else d in net.nodes[r.nextHop].routes && net.nodes[r.nextHop].routes[d].cost == r.cost - 1)
  {
    var r := net.nodes[v].routes[d];
    RoutesPointNearer(net, v, d);
    var w := r.nextHop;
    if w == d {
      assert HopWalk(net.links, d, d, 0);
    } else {
      assert HopDistance(net.links, w, d, r.cost - 1);
      RoutesConverge(net, w, d);
      RoutesPointNearer(net, w, d);
    }
  }

  /** Forwarding never visits a router twice: the distance falls at each hop. */
  lemma {:induction false} ForwardingIsLoopFree(net: Net, v: NodeId, d: NodeId, i: nat, j: nat)
    requires Settled(net) && v < |net.nodes| && (v == d || d in net.nodes[v].routes)
    requires i < j < |Forward(net, v, d)|
    ensures Forward(net, v, d)[i] != Forward(net, v, d)[j]
  {
    var p := Forward(net, v, d);
    DistanceLeft(net, v, d, i);
    DistanceLeft(net, v, d, j);
  }

  /** After i hops the packet is exactly the rest of the path away from d. */
  lemma {:induction false} DistanceLeft(net: Net, v: NodeId, d: NodeId, i: nat)
    requires Settled(net) && v < |net.nodes| && (v == d || d in net.nodes[v].routes)
    requires i < |Forward(net, v, d)|
    ensures HopDistance(net.links, Forward(net, v, d)[i], d, |Forward(net, v, d)| - 1 - i)
    decreases i
  {
    var p := Forward(net, v, d);
    if v == d {
      assert HopWalk(net.links, d, d, 0);
    } else if i == 0 {
      RoutesPointNearer(net, v, d);
    } else {
      DistanceLeft(net, v, d, i - 1);
      var u, k := p[i - 1], |p| - i;
      assert p[i - 1 + 1] == net.nodes[u].routes[d].nextHop;
      RoutesPointNearer(net, u, d);
      SameDistance(net.links, u, d, net.nodes[u].routes[d].cost, k);
    }
  }

  lemma {:induction false} SameDistance(links: Links, u: NodeId, d: NodeId, j: nat, k: nat)
    requires HopDistance(links, u, d, j) && HopDistance(links, u, d, k)
    ensures j == k
  {
  }

  lemma {:induction false} NextHopIsNearer(net: Net, v: NodeId, d: NodeId, m: nat)
    requires Settled(net) && v < |net.nodes| && d != v && d in net.nodes[v].routes
    requires m <= MAX_HOPS && HopDistance(net.links, v, d, m)
    ensures
      var r := net.nodes[v].routes[d];
      r.cost == m > 0 && (v, r.nextHop) in net.links && HopDistance(net.links, r.nextHop, d, m - 1)
  {
    var s, r := net.nodes[v], net.nodes[v].routes[d];
    NearIsExact(net, v, d, m);
    assert HonestState(net.links, v, s) && RouteOk(s, d, r);
    var w := r.nextHop;
    assert HonestNeighbor(net.links, v, s, w);
    var x := s.neighbors[w].dv[d];
    assert Honest(net.links, w, d, x);
    forall j: nat | j < m - 1 ensures !HopWalk(net.links, w, d, j) {
      if HopWalk(net.links, w, d, j) {
        assert HopWalk(net.links, v, d, j + 1);
      }
    }
  }

  /** The whole statement about runs: whenever an orderly run reaches a state with no
    * vector in flight and every hello heard, distances are true, routes exist below 16 and
    * point one hop nearer, and forwarding along them arrives without a loop. */
  lemma {:induction false} OrderlyRunsConverge(states: seq<Net>, acts: seq<Action>, i: nat, v: NodeId, d: NodeId)
    requires OrderlyRun(states, acts) && i < |states| && v < |states[i].nodes|
    requires forall a, b, m :: 0 <= m < |Queue(states[i], a, b)| ==> Queue(states[i], a, b)[m].Hello?
    requires forall a, b :: (a, b) in states[i].links ==> a < |states[i].nodes| && b in states[i].nodes[a].costs
    ensures Settled(states[i])
    ensures
      var net := states[i];
      (forall k: nat :: k <= 16 ==> (Value(net.nodes[v].dv, d) == k <==> HopDistance(net.links, v, d, k))) &&
      (Value(net.nodes[v].dv, d) == 0x7fff_ffff <==> forall k: nat :: k <= 16 ==> !HopWalk(net.links, v, d, k))
    ensures
      var net := states[i];
      d != v ==> (d in net.nodes[v].routes <==> exists k: nat :: k < 16 && HopDistance(net.links, v, d, k))
    ensures
      var net := states[i];
      d != v && d in net.nodes[v].routes ==>
        PointsNearer(net, v, d) && NoRepeats(Forward(net, v, d)) && |Forward(net, v, d)| == net.nodes[v].routes[d].cost + 1
  {
    var net := states[i];
    RunIsLive(states, acts, i);
    assert Settled(net);
    DistancesConverge(net, v, d);
    if d != v {
      RoutesConverge(net, v, d);
      if d in net.nodes[v].routes {
        RoutesPointNearer(net, v, d);
        forall j, k | 0 <= j < k < |Forward(net, v, d)| ensures Forward(net, v, d)[j] != Forward(net, v, d)[k] {
          ForwardingIsLoopFree(net, v, d, j, k);
        }
      }
    }
  }

  /** The route of v to d costs the true distance and leads to a linked router one nearer. */
  ghost predicate PointsNearer(net: Net, v: NodeId, d: NodeId)
    requires v < |net.nodes| && d in net.nodes[v].routes
  {
    var r := net.nodes[v].routes[d];
    0 < r.cost < 16 && HopDistance(net.links, v, d, r.cost) &&
    (v, r.nextHop) in net.links && HopDistance(net.links, r.nextHop, d, r.cost - 1)
  }
}
