/** What a neighbour holds: in a settled state exactly the vector it was sent last, and whether
  * that vector was poisoned.
  */
module DvLastSent {
  import opened Basics
  import opened DvProtocol
  import opened DvNetwork
  import opened DvSafety
  import opened DvConvergence
  import opened DvReturn
  import opened DvExpiry

  // ---------- the last vector on a link ----------

  /** In this step u sends its vector to v. */
  ghost predicate Speaks(net: Net, a: Action, net': Net, u: NodeId, v: NodeId) {
    exists e :: Handles(net, a, e) && Moves(net, e, net') && e.u == u && e.sends > 0 && v in e.state.costs
  }

  /** The newest vector on the link from u to v is w, and u holds the distances of dv. */
  ghost predicate Said(net: Net, u: NodeId, v: NodeId, w: Vector, dv: Vector) {
    u < |net.nodes| && v < |net.nodes| &&
    LastVector(Queue(net, u, v), HeldOf(net.nodes[v], u)) == Some(w) &&
    forall d :: Value(net.nodes[u].dv, d) == Value(dv, d)
  }

  lemma {:induction false} SpeakerSays(net: Net, e: Effect, net': Net, v: NodeId)
    requires e.u < |net.nodes| && v < |net.nodes| && v != e.u && Moves(net, e, net')
    requires (e.u, v) in net.links && v in e.state.costs && e.sends > 0
    ensures Said(net', e.u, v, Poisoned(e.state, v), e.state.dv)
  {
    var q, held := Queue(net, e.u, v), HeldOf(net.nodes[v], e.u);
    LastVectorAppend(q, Emission(e, v), held);
    LastEmission(e, v, LastVector(q, held));
    assert Queue(net', e.u, v) == q + Emission(e, v);
  }

  lemma {:induction false} SilentSaid(net: Net, a: Action, e: Effect, net': Net, v: NodeId, w: Vector, dv: Vector)
    requires Handles(net, a, e) && Orderly(net, a) && Moves(net, e, net') && e.sends == 0 && v != e.u
    requires Said(net, e.u, v, w, dv)
    ensures Said(net', e.u, v, w, dv)
  {
    var q, held, out := Queue(net, e.u, v), HeldOf(net.nodes[v], e.u), if (e.u, v) in net.links then Emission(e, v) else [];
    SilenceMeansUnchanged(net, a, e);
    LastVectorAppend(q, out, held);
    LastEmission(e, v, LastVector(q, held));
    assert Queue(net', e.u, v) == q + out;
  }

  /** Taking a message from u does not change the last vector of u. */
  lemma {:induction false} ReceiverSaid(net: Net, a: Action, e: Effect, net': Net, u: NodeId, w: Vector, dv: Vector)
    requires Live(net) && Handles(net, a, e) && Orderly(net, a) && Moves(net, e, net') && u != e.u
    requires Said(net, u, e.u, w, dv)
    ensures Said(net', u, e.u, w, dv)
  {
    HeldAfter(net, a, e, u);
    var q, held := Queue(net, u, e.u), HeldOf(net.nodes[e.u], u);
    if e.from == Some(u) {
      LastVectorPop(q, held);
      if q[0].Hello? && held.None? {
        HeldDoesNotMatter(q[1..], HeldOf(e.state, u));
      }
      assert Queue(net', u, e.u) == q[1..];
    } else {
      assert Queue(net', u, e.u) == q;
    }
  }

  lemma {:induction false} OthersSaid(net: Net, e: Effect, net': Net, u: NodeId, v: NodeId, w: Vector, dv: Vector)
    requires e.u < |net.nodes| && Moves(net, e, net') && u != e.u && v != e.u && Said(net, u, v, w, dv)
    ensures Said(net', u, v, w, dv)
  {
    assert Queue(net, u, v) + [] == Queue(net, u, v);
  }

  lemma {:induction false} EffectSays(net: Net, a: Action, e: Effect, net': Net, u: NodeId, v: NodeId, w: Vector, dv: Vector)
    requires Live(net) && Handles(net, a, e) && Orderly(net, a) && Moves(net, e, net') && Said(net, u, v, w, dv) && u != v
    requires u == e.u ==> e.sends == 0
    ensures Said(net', u, v, w, dv)
  {
    if u == e.u {
      SilentSaid(net, a, e, net', v, w, dv);
    } else if v == e.u {
      ReceiverSaid(net, a, e, net', u, w, dv);
    } else {
      OthersSaid(net, e, net', u, v, w, dv);
    }
  }

  /** A step in which u does not send to v leaves what it said before. */
  lemma {:induction false} StillSaid(net: Net, a: Action, net': Net, u: NodeId, v: NodeId, w: Vector, dv: Vector)
    requires Live(net) && Step(net, a, net') && Orderly(net, a) && !Speaks(net, a, net', u, v)
    requires u != v && u < |net'.nodes| && v in net'.nodes[u].costs
    requires u < |net.nodes| && v in net.nodes[u].costs ==> Said(net, u, v, w, dv)
    ensures u < |net.nodes| && v in net.nodes[u].costs && Said(net', u, v, w, dv)
  {
    if a.AddLink? {
      assert Queue(net', u, v) == Queue(net, u, v);
    } else {
      var e :| Handles(net, a, e) && Moves(net, e, net');
      if u == e.u {
        assert e.sends == 0;
        SilenceMeansUnchanged(net, a, e);
      }
      EffectSays(net, a, e, net', u, v, w, dv);
    }
  }

  lemma {:induction false} NowSaid(net: Net, a: Action, net': Net, u: NodeId, v: NodeId)
    requires Safe(net) && Speaks(net, a, net', u, v) && v < |net.nodes|
    ensures u < |net'.nodes| && v in net'.nodes[u].costs && Said(net', u, v, Poisoned(net'.nodes[u], v), net'.nodes[u].dv)
  {
    var e :| Handles(net, a, e) && Moves(net, e, net') && e.u == u && e.sends > 0 && v in e.state.costs;
    SpeakerSpoke(net, a, e, net', v);
  }

  lemma {:induction false} SpeakerSpoke(net: Net, a: Action, e: Effect, net': Net, v: NodeId)
    requires Safe(net) && Handles(net, a, e) && Moves(net, e, net') && e.sends > 0 && v in e.state.costs && v < |net.nodes|
    ensures e.u < |net'.nodes| && net'.nodes[e.u] == e.state
    ensures Said(net', e.u, v, Poisoned(e.state, v), e.state.dv)
  {
    SpeakerLinked(net, a, e, v);
    SpeakerSays(net, e, net', v);
  }

  lemma {:induction false} SpeakerLinked(net: Net, a: Action, e: Effect, v: NodeId)
    requires Safe(net) && Handles(net, a, e) && v in e.state.costs
    ensures (e.u, v) in net.links && v != e.u
  {
    EffectIsHonest(net, a, e);
    CostsAreLinks(net.links, e.u, e.state, v);
  }

  // ---------- on runs ----------

  ghost predicate SpokeAt(states: seq<Net>, acts: seq<Action>, m: nat, u: NodeId, v: NodeId) {
    m < |acts| && |states| == |acts| + 1 && Speaks(states[m], acts[m], states[m + 1], u, v)
  }

  /** p tells the steps in which u sends its vector to v. */
  ghost predicate Tells(p: nat -> bool, states: seq<Net>, acts: seq<Action>, u: NodeId, v: NodeId) {
    forall m: nat {:trigger SpokeAt(states, acts, m, u, v)} :: p(m) <==> SpokeAt(states, acts, m, u, v)
  }

  /** Of the steps before i that p tells, j is the last. */
  ghost predicate LastBefore(p: nat -> bool, j: nat, i: nat) {
    j < i && p(j) && forall m: nat :: j < m < i ==> !p(m)
  }

  lemma {:induction false} RunStep(states: seq<Net>, acts: seq<Action>, m: nat)
    requires OrderlyRun(states, acts) && m < |acts|
    ensures Live(states[m]) && Step(states[m], acts[m], states[m + 1]) && Orderly(states[m], acts[m])
    ensures |states[m + 1].nodes| == |states[m].nodes|
  {
    RunIsLive(states, acts, m);
    assert StepAt(states, acts, m);
    StepKeepsSize(states[m], acts[m], states[m + 1]);
  }

  lemma {:induction false} SpeaksOnRun(p: nat -> bool, states: seq<Net>, acts: seq<Action>, m: nat, u: NodeId, v: NodeId)
    requires OrderlyRun(states, acts) && m < |acts| && Tells(p, states, acts, u, v) && p(m) && v < |states[m].nodes|
    ensures
      var net := states[m + 1];
      u < |net.nodes| && v in net.nodes[u].costs && Said(net, u, v, Poisoned(net.nodes[u], v), net.nodes[u].dv)
  {
    RunStep(states, acts, m);
    assert SpokeAt(states, acts, m, u, v);
    NowSaid(states[m], acts[m], states[m + 1], u, v);
  }

  lemma {:induction false} SilentOnRun(p: nat -> bool, states: seq<Net>, acts: seq<Action>, m: nat, u: NodeId, v: NodeId,
                                       w: Vector, dv: Vector)
    requires OrderlyRun(states, acts) && m < |acts| && Tells(p, states, acts, u, v) && !p(m) && u != v
    requires u < |states[m + 1].nodes| && v in states[m + 1].nodes[u].costs && Said(states[m], u, v, w, dv)
    ensures Said(states[m + 1], u, v, w, dv)
  {
    RunStep(states, acts, m);
    assert !SpokeAt(states, acts, m, u, v);
    StillSaid(states[m], acts[m], states[m + 1], u, v, w, dv);
  }

  lemma {:induction false} CostsInRun(states: seq<Net>, acts: seq<Action>, i: nat, u: NodeId, v: NodeId)
    requires OrderlyRun(states, acts) && i < |states| && u < |states[i].nodes| && v in states[i].nodes[u].costs
    ensures i > 0 && v < |states[i].nodes| == |states[i - 1].nodes| && u != v
  {
    RunIsLive(states, acts, i);
    CostsInRange(states[i], u, v);
    NoCostsAtFirst(states, acts, i, u);
    RunStep(states, acts, i - 1);
  }

  lemma {:induction false} NoCostsAtFirst(states: seq<Net>, acts: seq<Action>, i: nat, u: NodeId)
    requires Run(states, acts) && i < |states| && u < |states[i].nodes| && states[i].nodes[u].costs != map[]
    ensures i > 0
  {
  }

  lemma {:induction false} CostsBeforeOnRun(p: nat -> bool, states: seq<Net>, acts: seq<Action>, m: nat, u: NodeId, v: NodeId)
    requires OrderlyRun(states, acts) && m < |acts| && Tells(p, states, acts, u, v) && !p(m)
    requires u < |states[m + 1].nodes| && v in states[m + 1].nodes[u].costs
    ensures u < |states[m].nodes| && v in states[m].nodes[u].costs
  {
    RunStep(states, acts, m);
    assert !SpokeAt(states, acts, m, u, v);
    CostsBefore(states[m], acts[m], states[m + 1], u, v);
  }

  /** u said last to v, before state i, what it held after step j. */
  ghost predicate SaidIn(p: nat -> bool, states: seq<Net>, j: nat, i: nat, u: NodeId, v: NodeId) {
    LastBefore(p, j, i) && i < |states| && u < |states[j + 1].nodes| && v in states[j + 1].nodes[u].costs &&
    Said(states[i], u, v, Poisoned(states[j + 1].nodes[u], v), states[j + 1].nodes[u].dv)
  }

  /** In every state of an orderly run each router has sent its vector to each neighbour, and
    * the last one it sent is the newest on that link; its distances are the same since. */
  lemma {:induction false} LastVectorIsSent(p: nat -> bool, states: seq<Net>, acts: seq<Action>, i: nat, u: NodeId, v: NodeId)
    returns (j: nat)
    requires OrderlyRun(states, acts) && Tells(p, states, acts, u, v)
    requires i < |states| && u < |states[i].nodes| && v in states[i].nodes[u].costs
    ensures SaidIn(p, states, j, i, u, v)
  {
    CostsInRun(states, acts, i, u, v);
    if p(i - 1) {
      j := i - 1;
      SpeaksOnRun(p, states, acts, j, u, v);
    } else {
      CostsBeforeOnRun(p, states, acts, i - 1, u, v);
      j := LastVectorIsSent(p, states, acts, i - 1, u, v);
      SilentOnRun(p, states, acts, i - 1, u, v, Poisoned(states[j + 1].nodes[u], v), states[j + 1].nodes[u].dv);
    }
  }

  lemma {:induction false} CostsInRange(net: Net, u: NodeId, v: NodeId)
    requires Live(net) && u < |net.nodes| && v in net.nodes[u].costs
    ensures v < |net.nodes| && u != v
  {
    assert HonestState(net.links, u, net.nodes[u]);
    CostsAreLinks(net.links, u, net.nodes[u], v);
  }

  /** A cost for v comes with a vector sent to v. */
  lemma {:induction false} CostsBefore(net: Net, a: Action, net': Net, u: NodeId, v: NodeId)
    requires Step(net, a, net') && Orderly(net, a) && !Speaks(net, a, net', u, v)
    requires u < |net'.nodes| && v in net'.nodes[u].costs
    ensures u < |net.nodes| && v in net.nodes[u].costs
  {
    if !a.AddLink? {
      var e :| Handles(net, a, e) && Moves(net, e, net');
      if u == e.u {
        assert e.sends == 0;
        SilenceMeansUnchanged(net, a, e);
      }
    }
  }

  // ---------- neighbours name themselves ----------

  ghost predicate NamesKept(s: DvState) {
    forall v :: v in s.neighbors && s.neighbors[v].dv != map[] ==> NamesItself(v, s.neighbors[v].dv)
  }

  /** A vector a router holds for a neighbour has the neighbour at distance 0. */
  ghost predicate AllNamed(net: Net) {
    forall u {:trigger NamesKept(net.nodes[u])} :: 0 <= u < |net.nodes| ==> NamesKept(net.nodes[u])
  }

  lemma {:induction false} EffectKeepsNames(net: Net, a: Action, e: Effect)
    requires Safe(net) && Handles(net, a, e) && NamesKept(net.nodes[e.u])
    ensures NamesKept(e.state)
  {
    if a.DeliverTable? {
      assert HonestQueue(net, a.u, a.v);
    }
  }

  lemma {:induction false} RunKeepsNames(states: seq<Net>, acts: seq<Action>, i: nat)
    requires Run(states, acts) && i < |states|
    ensures AllNamed(states[i])
  {
    if i > 0 {
      RunKeepsNames(states, acts, i - 1);
      NamesOnRun(states, acts, i - 1);
    }
  }

  lemma {:induction false} NamesOnRun(states: seq<Net>, acts: seq<Action>, m: nat)
    requires Run(states, acts) && m < |acts| && AllNamed(states[m])
    ensures AllNamed(states[m + 1])
  {
    RunIsSafe(states, acts, m);
    assert StepAt(states, acts, m);
    StepKeepsNames(states[m], acts[m], states[m + 1]);
  }

  lemma {:induction false} StepKeepsNames(net: Net, a: Action, net': Net)
    requires Safe(net) && Step(net, a, net') && AllNamed(net)
    ensures AllNamed(net')
  {
    if a.AddLink? {
      forall u | 0 <= u < |net'.nodes| ensures NamesKept(net'.nodes[u]) {
        assert NamesKept(net.nodes[u]);
      }
    } else {
      var e :| Handles(net, a, e) && Moves(net, e, net');
      assert NamesKept(net.nodes[e.u]);
      EffectKeepsNames(net, a, e);
      forall u | 0 <= u < |net'.nodes| ensures NamesKept(net'.nodes[u]) {
        assert NamesKept(net.nodes[u]);
      }
    }
  }

  // ---------- settled states ----------

  /** No vector is in flight and every router has heard all of its neighbours. */
  ghost predicate AtRest(net: Net) {
    (forall a, b, m :: 0 <= m < |Queue(net, a, b)| ==> Queue(net, a, b)[m].Hello?) &&
    (forall a, b :: (a, b) in net.links ==> a < |net.nodes| && b in net.nodes[a].costs)
  }

  /** At rest, what v holds for its neighbour u is the very vector u sent it last. */
  lemma {:induction false} HeldIsLastSent(p: nat -> bool, states: seq<Net>, acts: seq<Action>, i: nat, j: nat, v: NodeId, u: NodeId)
    requires OrderlyRun(states, acts) && Tells(p, states, acts, u, v) && LastBefore(p, j, i)
    requires i < |states| && AtRest(states[i]) && (v, u) in states[i].links
    ensures u < |states[j + 1].nodes| && v in states[j + 1].nodes[u].costs
    ensures v < |states[i].nodes| && u in states[i].nodes[v].neighbors
    ensures states[i].nodes[v].neighbors[u].dv == Poisoned(states[j + 1].nodes[u], v)
    ensures u < |states[i].nodes| && forall d :: Value(states[i].nodes[u].dv, d) == Value(states[j + 1].nodes[u].dv, d)
  {
    LinkAtRest(states, acts, i, v, u);
    var k := LastVectorIsSent(p, states, acts, i, u, v);
    assert k == j;
    NoVectorQueued(Queue(states[i], u, v), HeldOf(states[i].nodes[v], u));
  }

  lemma {:induction false} LinkAtRest(states: seq<Net>, acts: seq<Action>, i: nat, v: NodeId, u: NodeId)
    requires OrderlyRun(states, acts) && i < |states| && AtRest(states[i]) && (v, u) in states[i].links
    ensures v < |states[i].nodes| && u < |states[i].nodes| && u != v
    ensures (u, v) in states[i].links && v in states[i].nodes[u].costs
  {
    RunIsLive(states, acts, i);
    assert (u, v) in states[i].links;
  }

  /** What a neighbour at distance 1 says of the way back. */
  lemma {:induction false} DirectIsPoisoned(links: Links, u: NodeId, s: DvState, v: NodeId)
    requires HonestState(links, u, s) && UpToDate(s) && NamesKept(s) && v in s.costs && v != u && Value(s.dv, v) == 1
    ensures v in s.neighbors && v in Poisoned(s, v)
    ensures Poisoned(s, v)[v] == if v in s.neighbors[v].dv then M_INF else 1
  {
    if v in s.neighbors[v].dv {
      assert NamesItself(v, s.neighbors[v].dv);
      assert Offers(s.costs, s.neighbors, v, v);
      ItsOwnOfferIsLeast(links, u, s, v);
      assert RouteOk(s, v, s.routes[v]);
    } else if v in s.routes {
      assert RouteOk(s, v, s.routes[v]);
    }
  }

  /** At rest, the vector that v holds for a neighbour u has v itself out of reach exactly when
    * u held a vector of v when it last sent its own; otherwise it has v at distance 1. */
  lemma {:induction false} PoisonArrives(p: nat -> bool, states: seq<Net>, acts: seq<Action>, i: nat, j: nat, v: NodeId, u: NodeId)
    requires OrderlyRun(states, acts) && Tells(p, states, acts, u, v) && LastBefore(p, j, i)
    requires i < |states| && AtRest(states[i]) && (v, u) in states[i].links
    ensures v < |states[i].nodes| && u in states[i].nodes[v].neighbors && u < |states[j + 1].nodes|
    ensures
      var held, s := states[i].nodes[v].neighbors[u].dv, states[j + 1].nodes[u];
      v in held && v in s.neighbors && held[v] == if v in s.neighbors[v].dv then 0x7fff_ffff else 1
  {
    HeldIsLastSent(p, states, acts, i, j, v, u);
    AtDistanceOne(states, acts, i, v, u);
    PoisonedOnRun(states, acts, j + 1, u, v);
  }

  /** There is such a last vector. */
  lemma {:induction false} SomethingWasSent(p: nat -> bool, states: seq<Net>, acts: seq<Action>, i: nat, v: NodeId, u: NodeId)
    returns (j: nat)
    requires OrderlyRun(states, acts) && Tells(p, states, acts, u, v)
    requires i < |states| && AtRest(states[i]) && (v, u) in states[i].links
    ensures LastBefore(p, j, i)
  {
    LinkAtRest(states, acts, i, v, u);
    j := LastVectorIsSent(p, states, acts, i, u, v);
  }

  lemma {:induction false} PoisonedOnRun(states: seq<Net>, acts: seq<Action>, m: nat, u: NodeId, v: NodeId)
    requires OrderlyRun(states, acts) && m < |states| && u < |states[m].nodes| && v in states[m].nodes[u].costs
    requires Value(states[m].nodes[u].dv, v) == 1
    ensures
      var s := states[m].nodes[u];
      v in s.neighbors && v in Poisoned(s, v) && Poisoned(s, v)[v] == if v in s.neighbors[v].dv then M_INF else 1
  {
    RunIsLive(states, acts, m);
    RunKeepsNames(states, acts, m);
    PoisonedWhenLive(states[m], u, v);
  }

  lemma {:induction false} PoisonedWhenLive(net: Net, u: NodeId, v: NodeId)
    requires Live(net) && AllNamed(net) && u < |net.nodes| && v in net.nodes[u].costs && Value(net.nodes[u].dv, v) == 1
    ensures
      var s := net.nodes[u];
      v in s.neighbors && v in Poisoned(s, v) && Poisoned(s, v)[v] == if v in s.neighbors[v].dv then M_INF else 1
  {
    var s := net.nodes[u];
    assert UpToDate(s) && HonestState(net.links, u, s) && NamesKept(s);
    CostsInRange(net, u, v);
    DirectIsPoisoned(net.links, u, s, v);
  }

  lemma {:induction false} AtDistanceOne(states: seq<Net>, acts: seq<Action>, i: nat, v: NodeId, u: NodeId)
    requires OrderlyRun(states, acts) && i < |states| && AtRest(states[i]) && (v, u) in states[i].links
    ensures u < |states[i].nodes| && Value(states[i].nodes[u].dv, v) == 1
  {
    var net := states[i];
    RunIsLive(states, acts, i);
    LinkAtRest(states, acts, i, v, u);
    assert HopWalk(net.links, v, v, 0);
    assert HopDistance(net.links, u, v, 1);
    DistancesConverge(net, u, v);
  }

  /** The way back need not be out of reach. Two routers hear each other, each sends its
    * vector, and what these vectors say changes no distance, so that nothing is sent again:
    * at rest each holds a vector of the other that has itself at distance 1. */
  lemma {:induction false} PoisonNeedNotArrive(u: NodeId) returns (states: seq<Net>, acts: seq<Action>)
    requires u < 2
    ensures OrderlyRun(states, acts) && AtRest(states[|acts|])
    ensures
      var net := states[|acts|];
      |net.nodes| == 2 && u in net.nodes[1 - u].neighbors &&
      1 - u in net.nodes[u].routes && net.nodes[u].routes[1 - u].nextHop == 1 - u &&
      net.nodes[1 - u].neighbors[u].dv == map[u := 0, 1 - u := 1]
  {
    var net := Two(u, Paired(u, Pair(1 - u, 1), 0), Paired(1 - u, Pair(u, 1), 0), [], []);
    ReachesPaired(u, true);
    states, acts := RunTo(u, net, 0, true);
    TwoIs(u, Paired(u, Pair(1 - u, 1), 0), Paired(1 - u, Pair(u, 1), 0), [], []);
    RestsPaired(u, net);
  }

  lemma {:induction false} RestsPaired(u: NodeId, net: Net)
    requires u < 2 && net == Two(u, Paired(u, Pair(1 - u, 1), 0), Paired(1 - u, Pair(u, 1), 0), [], [])
    requires forall a: NodeId, b: NodeId :: (a, b) !in LINKS ==> Queue(net, a, b) == []
    requires Queue(net, u, 1 - u) == [] == Queue(net, 1 - u, u)
    ensures AtRest(net)
  {
  }
}
