/** What becomes of the distance to a neighbour that expired and is heard again. */
module DvReturn {
  import opened Basics
  import opened DvProtocol
  import opened DvNetwork
  import opened DvSafety

  // ---------- the states in between ----------

  /** The distance of s to v is not that of a link, and v offers none itself. */
  ghost predicate Astray(s: DvState, v: NodeId) {
    v != s.me && v in s.dv && s.dv[v] != 1 && !Offers(s.costs, s.neighbors, v, v)
  }

  /** v has a cost again, and its vector has arrived. */
  ghost predicate Restored(s: DvState, v: NodeId) {
    v != s.me && Offers(s.costs, s.neighbors, v, v) && s.neighbors[v].dv[v] == 0 && v in s.dv && s.dv[v] == 1
  }

  /** Only v itself offers itself at 1. */
  lemma {:induction false} OnlyItsOwnOfferIsOne(links: Links, u: NodeId, s: DvState, v: NodeId)
    requires HonestState(links, u, s) && Computable(s.costs, s.neighbors) && v != u
    requires !Offers(s.costs, s.neighbors, v, v)
    ensures MinCost(s.costs, s.neighbors, v) != 1
  {
    forall j | Offers(s.costs, s.neighbors, j, v) ensures Offer(s.costs, s.neighbors, j, v) != 1 {
      assert HonestNeighbor(links, u, s, j);
      assert Honest(links, j, v, s.neighbors[j].dv[v]);
    }
  }

  lemma {:induction false} ItsOwnOfferIsLeast(links: Links, u: NodeId, s: DvState, v: NodeId)
    requires HonestState(links, u, s) && Computable(s.costs, s.neighbors) && v != u
    requires Offers(s.costs, s.neighbors, v, v) && s.neighbors[v].dv[v] == 0
    ensures MinCost(s.costs, s.neighbors, v) == 1
    ensures forall j :: Offers(s.costs, s.neighbors, j, v) && Offer(s.costs, s.neighbors, j, v) == 1 ==> j == v
  {
    forall j | Offers(s.costs, s.neighbors, j, v) && Offer(s.costs, s.neighbors, j, v) <= 1 ensures j == v {
      assert HonestNeighbor(links, u, s, j);
      assert Honest(links, j, v, s.neighbors[j].dv[v]);
    }
    assert Offer(s.costs, s.neighbors, v, v) == 1;
    forall j | Offers(s.costs, s.neighbors, j, v) ensures 1 <= Offer(s.costs, s.neighbors, j, v) {
      assert s.costs[j] == 1;
    }
    MinCostUnique(s.costs, s.neighbors, v, 1);
  }

  lemma {:induction false} RecomputedIsAstray(links: Links, u: NodeId, s: DvState, names: set<NodeId>, s': DvState,
                                              changed: bool, v: NodeId)
    requires HonestState(links, u, s) && Computable(s.costs, s.neighbors) && Recomputed(s, names, s', changed)
    requires Astray(s, v)
    ensures Astray(s', v)
  {
    OnlyItsOwnOfferIsOne(links, u, s, v);
  }

  lemma {:induction false} RecomputedIsRestored(links: Links, u: NodeId, s: DvState, names: set<NodeId>, s': DvState,
                                                changed: bool, v: NodeId)
    requires HonestState(links, u, s) && Computable(s.costs, s.neighbors) && Recomputed(s, names, s', changed)
    requires Offers(s.costs, s.neighbors, v, v) && s.neighbors[v].dv[v] == 0 && v != u && (v in s.dv || v in names)
    ensures Restored(s', v)
    ensures v in s'.routes && s'.routes[v].nextHop == v && s'.routes[v].cost == 1
  {
    ItsOwnOfferIsLeast(links, u, s, v);
    assert v in s'.routes && RouteOk(s, v, s'.routes[v]);
  }

  // ---------- steps ----------

  /** Router u drops v. */
  ghost predicate Drops(net: Net, a: Action, u: NodeId, v: NodeId) {
    a.Audit? && a.u == u && u < |net.nodes| && v in Expired(net.nodes[u], a.now, a.timeout)
  }

  /** Router u takes a vector of v, and has a cost for v. */
  ghost predicate Learns(net: Net, a: Action, u: NodeId, v: NodeId) {
    a.DeliverTable? && a.u == v && a.v == u && u < |net.nodes| && v in net.nodes[u].costs
  }

  lemma {:induction false} DropLeadsAstray(net: Net, a: Action, e: Effect, v: NodeId)
    requires Safe(net) && Handles(net, a, e) && Drops(net, a, e.u, v)
    ensures (e.u, v) in net.links && v != e.u && Astray(e.state, v)
  {
    var s, gone := net.nodes[e.u], Expired(net.nodes[e.u], a.now, a.timeout);
    assert HonestState(net.links, e.u, s) && HonestNeighbor(net.links, e.u, s, v);
    ForgottenIsHonest(net.links, e.u, s, gone);
    RecomputedIsAstray(net.links, e.u, Forgotten(s, gone), {}, e.state, e.sends == 1, v);
  }

  lemma {:induction false} LearningRestores(net: Net, a: Action, e: Effect, v: NodeId)
    requires Safe(net) && Handles(net, a, e) && Learns(net, a, e.u, v) && v != e.u
    ensures Restored(e.state, v)
    ensures v in e.state.routes && e.state.routes[v].nextHop == v && e.state.routes[v].cost == 1
  {
    var s, vector := net.nodes[e.u], Queue(net, v, e.u)[0].vector;
    assert HonestState(net.links, e.u, s) && HonestQueue(net, v, e.u);
    ReceivedIsHonest(net.links, e.u, s, v, vector, a.interfaceAddr, a.now);
    RecomputedIsRestored(net.links, e.u, Received(s, v, vector, a.interfaceAddr, a.now), vector.Keys, e.state, e.sends == 1, v);
  }

  lemma {:induction false} FirstHelloKeepsBoth(links: Links, u: NodeId, s: DvState, from: NodeId, interfaceAddr: nat, now: int,
                                               s': DvState, changed: bool, v: NodeId)
    requires HonestState(links, u, s) && (u, from) in links && from != u && from !in s.neighbors
    requires Recomputed(Heard(s, from, interfaceAddr, now), {}, s', changed)
    ensures Astray(s, v) ==> Astray(s', v)
    ensures Restored(s, v) ==> Restored(s', v)
  {
    var h := Heard(s, from, interfaceAddr, now);
    HeardIsHonest(links, u, s, from, interfaceAddr, now);
    if Astray(s, v) {
      RecomputedIsAstray(links, u, h, {}, s', changed, v);
    }
    if Restored(s, v) {
      RecomputedIsRestored(links, u, h, {}, s', changed, v);
    }
  }

  lemma {:induction false} HelloKeepsBoth(net: Net, a: Action, e: Effect, v: NodeId)
    requires Safe(net) && Handles(net, a, e) && a.DeliverHello?
    ensures Astray(net.nodes[e.u], v) ==> Astray(e.state, v)
    ensures Restored(net.nodes[e.u], v) ==> Restored(e.state, v)
  {
    var s, links := net.nodes[e.u], net.links;
    assert HonestState(links, e.u, s) && HonestQueue(net, a.u, e.u);
    if a.u !in s.neighbors {
      FirstHelloKeepsBoth(links, e.u, s, a.u, a.interfaceAddr, a.now, e.state, e.sends == 2, v);
    }
  }

  lemma {:induction false} VectorKeepsBoth(net: Net, a: Action, e: Effect, v: NodeId)
    requires Safe(net) && Handles(net, a, e) && a.DeliverTable? && !Learns(net, a, e.u, v)
    ensures Astray(net.nodes[e.u], v) ==> Astray(e.state, v)
    ensures Restored(net.nodes[e.u], v) ==> Restored(e.state, v)
  {
    var s, links, vector := net.nodes[e.u], net.links, Queue(net, a.u, e.u)[0].vector;
    assert HonestState(links, e.u, s) && HonestQueue(net, a.u, e.u);
    var r := Received(s, a.u, vector, a.interfaceAddr, a.now);
    ReceivedIsHonest(links, e.u, s, a.u, vector, a.interfaceAddr, a.now);
    if Astray(s, v) {
      RecomputedIsAstray(links, e.u, r, vector.Keys, e.state, e.sends == 1, v);
    }
    if Restored(s, v) {
      RecomputedIsRestored(links, e.u, r, vector.Keys, e.state, e.sends == 1, v);
    }
  }

  lemma {:induction false} AuditKeepsBoth(net: Net, a: Action, e: Effect, v: NodeId)
    requires Safe(net) && Handles(net, a, e) && a.Audit? && !Drops(net, a, e.u, v)
    ensures Astray(net.nodes[e.u], v) ==> Astray(e.state, v)
    ensures Restored(net.nodes[e.u], v) ==> Restored(e.state, v)
  {
    var s, links := net.nodes[e.u], net.links;
    var gone := Expired(s, a.now, a.timeout);
    assert HonestState(links, e.u, s);
    if gone != {} {
      var f := Forgotten(s, gone);
      ForgottenIsHonest(links, e.u, s, gone);
      if Astray(s, v) {
        RecomputedIsAstray(links, e.u, f, {}, e.state, e.sends == 1, v);
      }
      if Restored(s, v) {
        RecomputedIsRestored(links, e.u, f, {}, e.state, e.sends == 1, v);
      }
    }
  }

  /** Until v is dropped, nothing but a vector of v changes which of the two holds. */
  lemma {:induction false} StepKeepsBoth(net: Net, a: Action, net': Net, u: NodeId, v: NodeId)
    requires Safe(net) && Step(net, a, net') && u < |net.nodes| && !Drops(net, a, u, v) && !Learns(net, a, u, v)
    ensures u < |net'.nodes|
    ensures Astray(net.nodes[u], v) ==> Astray(net'.nodes[u], v)
    ensures Restored(net.nodes[u], v) ==> Restored(net'.nodes[u], v)
  {
    if !a.AddLink? {
      var e :| Handles(net, a, e) && Moves(net, e, net');
      if e.u == u {
        EffectKeepsBoth(net, a, e, v);
      }
    }
  }

  lemma {:induction false} EffectKeepsBoth(net: Net, a: Action, e: Effect, v: NodeId)
    requires Safe(net) && Handles(net, a, e) && !Drops(net, a, e.u, v) && !Learns(net, a, e.u, v)
    ensures Astray(net.nodes[e.u], v) ==> Astray(e.state, v)
    ensures Restored(net.nodes[e.u], v) ==> Restored(e.state, v)
  {
    match a
    case DeliverHello(_, _, _, _) => HelloKeepsBoth(net, a, e, v);
    case DeliverTable(_, _, _, _) => VectorKeepsBoth(net, a, e, v);
    case Audit(_, _, _) => AuditKeepsBoth(net, a, e, v);
  }

  // ---------- runs ----------

  /** Between states i and j router u has learnt from v. */
  ghost predicate LearntBetween(states: seq<Net>, acts: seq<Action>, i: nat, j: nat, u: NodeId, v: NodeId)
    requires |states| == |acts| + 1 && j < |states|
  {
    exists m :: i <= m < j && Learns(states[m], acts[m], u, v)
  }

  ghost predicate NotDroppedBetween(states: seq<Net>, acts: seq<Action>, i: nat, j: nat, u: NodeId, v: NodeId)
    requires |states| == |acts| + 1 && j < |states|
  {
    forall m :: i <= m < j ==> !Drops(states[m], acts[m], u, v)
  }

  /** After an audit of u dropped v, and until it drops v again, u holds the true distance to
    * v, which is 1, exactly when a vector of v has arrived since while v had a cost. */
  lemma {:induction false} ExactAfterItsVector(states: seq<Net>, acts: seq<Action>, i: nat, j: nat, u: NodeId, v: NodeId)
    requires Run(states, acts) && i < j < |states| && Drops(states[i], acts[i], u, v)
    requires NotDroppedBetween(states, acts, i + 1, j, u, v)
    ensures u < |states[j].nodes| && u != v && (u, v) in states[j].links
    ensures Value(states[j].nodes[u].dv, v) == 1 <==> LearntBetween(states, acts, i + 1, j, u, v)
  {
    AstrayOrRestored(states, acts, i, j - 1, u, v);
  }

  /** What of u and v holds in a state. */
  ghost predicate Is(net: Net, u: NodeId, v: NodeId, restored: bool) {
    u < |net.nodes| && u != v && (u, v) in net.links &&
    if restored then Restored(net.nodes[u], v) else Astray(net.nodes[u], v)
  }

  lemma {:induction false} AstrayOrRestored(states: seq<Net>, acts: seq<Action>, i: nat, m: nat, u: NodeId, v: NodeId)
    requires Run(states, acts) && i <= m < |acts| && Drops(states[i], acts[i], u, v)
    requires NotDroppedBetween(states, acts, i + 1, m + 1, u, v)
    ensures Is(states[m + 1], u, v, LearntBetween(states, acts, i + 1, m + 1, u, v))
    decreases m
  {
    if m == i {
      FirstInRun(states, acts, m, u, v);
    } else {
      AstrayOrRestored(states, acts, i, m - 1, u, v);
      NextInRun(states, acts, m, u, v, LearntBetween(states, acts, i + 1, m, u, v));
      SplitLast(states, acts, i + 1, m + 1, u, v);
    }
  }

  lemma {:induction false} FirstInRun(states: seq<Net>, acts: seq<Action>, m: nat, u: NodeId, v: NodeId)
    requires Run(states, acts) && m < |acts| && Drops(states[m], acts[m], u, v)
    ensures Is(states[m + 1], u, v, false)
  {
    RunIsSafe(states, acts, m);
    assert StepAt(states, acts, m);
    AstrayAtFirst(states[m], acts[m], states[m + 1], u, v);
  }

  lemma {:induction false} NextInRun(states: seq<Net>, acts: seq<Action>, m: nat, u: NodeId, v: NodeId, restored: bool)
    requires Run(states, acts) && m < |acts| && Is(states[m], u, v, restored) && !Drops(states[m], acts[m], u, v)
    ensures Is(states[m + 1], u, v, restored || Learns(states[m], acts[m], u, v))
  {
    RunIsSafe(states, acts, m);
    assert StepAt(states, acts, m);
    NextIsAlike(states[m], acts[m], states[m + 1], u, v, restored);
  }

  lemma {:induction false} AstrayAtFirst(net: Net, a: Action, next: Net, u: NodeId, v: NodeId)
    requires Safe(net) && Step(net, a, next) && Drops(net, a, u, v)
    ensures Is(next, u, v, false)
  {
    var e :| Handles(net, a, e) && Moves(net, e, next);
    DropLeadsAstray(net, a, e, v);
  }

  lemma {:induction false} SplitLast(states: seq<Net>, acts: seq<Action>, i: nat, j: nat, u: NodeId, v: NodeId)
    requires |states| == |acts| + 1 && i < j < |states|
    ensures LearntBetween(states, acts, i, j, u, v) <==>
            LearntBetween(states, acts, i, j - 1, u, v) || Learns(states[j - 1], acts[j - 1], u, v)
  {
  }

  lemma {:induction false} NextIsAlike(net: Net, a: Action, next: Net, u: NodeId, v: NodeId, restored: bool)
    requires Safe(net) && Step(net, a, next) && Is(net, u, v, restored) && !Drops(net, a, u, v)
    ensures Is(next, u, v, restored || Learns(net, a, u, v))
  {
    if Learns(net, a, u, v) {
      var e :| Handles(net, a, e) && Moves(net, e, next);
      LearningRestores(net, a, e, v);
    } else {
      StepKeepsBoth(net, a, next, u, v);
    }
  }
}
