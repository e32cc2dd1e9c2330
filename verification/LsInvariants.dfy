/** Every action keeps the invariants of the link-state network. */
module LsInvariants {
  import opened Basics
  import opened LsTable
  import opened LsProtocol
  import opened LsNetwork

  lemma {:induction false} InitialInv(net: Net, exact: bool)
    requires Initial(net)
    ensures Inv(net, exact)
  {
  }

  /** The newest own advertisement is at least as new as every other. */
  lemma {:induction false} LastIsNewest(adverts: seq<Advert>, counter: Uint32, sequenceNumber: Uint32, costs: seq<LinkCost>)
    requires Increasing(adverts, counter) && Advert(sequenceNumber, costs) in adverts
    ensures sequenceNumber <= LastSent(adverts).sequenceNumber
    ensures sequenceNumber == LastSent(adverts).sequenceNumber ==> costs == LastSent(adverts).neighborCosts
  {
    var i :| 0 <= i < |adverts| && adverts[i] == Advert(sequenceNumber, costs);
  }

  lemma {:induction false} SentStays(net: Net, e: Effect, o: NodeId, sequenceNumber: Uint32, costs: seq<LinkCost>)
    requires e.u < |net.nodes| == |net.sent|
    requires WasSent(net, o, sequenceNumber, costs)
    ensures WasSent(Apply(net, e), o, sequenceNumber, costs)
  {
    var before, after := net.sent[o], Apply(net, e).sent[o];
    var i :| 0 <= i < |before| && before[i] == Advert(sequenceNumber, costs);
    assert after[i] == before[i];
  }

  lemma {:induction false} NodesKept(net: Net, e: Effect, exact: bool, u: NodeId)
    requires Inv(net, exact) && EffectOk(net, e, exact) && u < |net.nodes|
    ensures NodeOk(Apply(net, e), u)
  {
    assert NodeOk(net, u);
    if u == e.u && e.original {
      var adverts := Apply(net, e).sent[u];
      assert LastSent(adverts) == Advert(e.out.value.sequenceNumber, e.out.value.neighborCosts);
    }
  }

  lemma {:induction false} EntriesKept(net: Net, e: Effect, exact: bool, v: NodeId, o: NodeId)
    requires Inv(net, exact) && EffectOk(net, e, exact) && v < |net.nodes|
    ensures EntryOk(Apply(net, e), v, o, exact)
  {
    var net' := Apply(net, e);
    var t, t' := net.nodes[v].table, net'.nodes[v].table;
    assert EntryOk(net, v, o, exact);
    if o in t' && o != v {
      if v == e.u {
        assert EntryChange(net, e, o, exact);
      }
      if o in t && t'[o].sequenceNumber == t[o].sequenceNumber {
        var full :| WasSent(net, o, t[o].sequenceNumber, full) &&
                    Trims(full, t[o].neighborCosts, v) && (exact ==> t[o].neighborCosts == full);
        SentStays(net, e, o, t[o].sequenceNumber, full);
        TrimsFurther(full, t[o].neighborCosts, v);
      } else {
        var m := e.consumed.value.message;
        assert FlightOk(net, e.consumed.value);
        SentStays(net, e, o, m.sequenceNumber, m.neighborCosts);
        TrimsSelf(m.neighborCosts, v);
      }
    }
  }

  lemma {:induction false} FlightsKept(net: Net, e: Effect, exact: bool, f: Flight)
    requires Inv(net, exact) && EffectOk(net, e, exact) && f in Apply(net, e).flights
    ensures FlightOk(Apply(net, e), f)
  {
    var net' := Apply(net, e);
    if f in net.flights {
      assert FlightOk(net, f);
      SentStays(net, e, f.message.originator, f.message.sequenceNumber, f.message.neighborCosts);
    } else {
      assert f in Broadcast(net.links, e.u, e.out.value);
      var m := e.out.value;
      if e.original {
        assert LastSent(net'.sent[e.u]) == Advert(m.sequenceNumber, m.neighborCosts);
      } else {
        assert FlightOk(net, e.consumed.value);
        SentStays(net, e, m.originator, m.sequenceNumber, m.neighborCosts);
      }
    }
  }

  /** What router u passes on reaches every link of u. */
  lemma {:induction false} BroadcastReaches(net: Net, e: Effect, v: NodeId)
    requires e.u < |net.nodes| == |net.sent| && e.out.Some? && (e.u, v) in net.links
    ensures Incoming(Apply(net, e), e.u, v, e.out.value.originator, e.out.value.sequenceNumber)
  {
    var f := Flight(e.u, v, e.out.value);
    assert f in Broadcast(net.links, e.u, e.out.value) by {
      assert (e.u, v) in net.links && (e.u, v).0 == e.u;
    }
    assert f in Apply(net, e).flights;
  }

  /** Copies for other routers stay on their links; the consumed copy is in the table. */
  lemma {:induction false} StillComing(net: Net, e: Effect, exact: bool, u: NodeId, v: NodeId, o: NodeId, k: int)
    requires Inv(net, exact) && EffectOk(net, e, exact) && v < |net.nodes|
    requires Holds(net, v, o, k) || Incoming(net, u, v, o, k)
    ensures Holds(Apply(net, e), v, o, k) || Incoming(Apply(net, e), u, v, o, k)
  {
    if Holds(net, v, o, k) {
      if v == e.u {
        assert EntryChange(net, e, o, exact);
      }
    } else {
      var f :| f in net.flights && f.from == u && f.to == v && f.message.originator == o && k <= f.message.sequenceNumber;
      if e.consumed != Some(f) {
        assert f in Apply(net, e).flights;
      }
    }
  }

  lemma {:induction false} LinksKept(net: Net, e: Effect, exact: bool, u: NodeId, v: NodeId, o: NodeId)
    requires Inv(net, exact) && EffectOk(net, e, exact)
    requires (u, v) in net.links && o < |net.nodes|
    ensures LinkOk(Apply(net, e), u, v, o)
  {
    var net' := Apply(net, e);
    var k, k' := Level(net, u, o), Level(net', u, o);
    assert LinkOk(net, u, v, o);
    if k' == k {
      if k != -1 {
        StillComing(net, e, exact, u, v, o, k);
      }
    } else {
      assert u == e.u;
      assert EntryChange(net, e, o, exact);
      BroadcastReaches(net, e, v);
    }
  }

  lemma {:induction false} HellosKept(net: Net, e: Effect, exact: bool)
    requires Inv(net, exact) && EffectOk(net, e, exact)
    ensures
      var net' := Apply(net, e);
      Topology(net'.links, |net'.nodes|) && |net'.sent| == |net'.nodes| &&
      forall h :: h in net'.hellos ==> (h.from, h.to) in net'.links
  {
  }

  lemma {:induction false} EffectKeepsInv(net: Net, e: Effect, exact: bool)
    requires Inv(net, exact) && EffectOk(net, e, exact)
    ensures Inv(Apply(net, e), exact)
  {
    var net' := Apply(net, e);
    HellosKept(net, e, exact);
    forall u | 0 <= u < |net'.nodes| ensures NodeOk(net', u) { NodesKept(net, e, exact, u); }
    forall v, o | 0 <= v < |net'.nodes| ensures EntryOk(net', v, o, exact) { EntriesKept(net, e, exact, v, o); }
    forall f | f in net'.flights ensures FlightOk(net', f) { FlightsKept(net, e, exact, f); }
    forall u, v, o | (u, v) in net'.links && 0 <= o < |net'.nodes| ensures LinkOk(net', u, v, o) {
      LinksKept(net, e, exact, u, v, o);
    }
  }

  lemma {:induction false} StepKeepsInv(net: Net, a: Action, exact: bool)
    requires Inv(net, exact) && Enabled(net, a)
    requires exact ==> NoExpiry(net, a)
    ensures Inv(Next(net, a), exact)
  {
    ActionIsSound(net, a, exact);
    EffectKeepsInv(net, EffectOf(net, a), exact);
  }

  /** The invariants hold in every reachable state. */
  lemma {:induction false} RunKeepsInv(net: Net, acts: seq<Action>)
    requires Inv(net, false) && Run(net, acts)
    ensures Inv(After(net, acts), false)
    decreases |acts|
  {
    if acts != [] {
      StepKeepsInv(net, acts[0], false);
      RunKeepsInv(Next(net, acts[0]), acts[1..]);
    }
  }

  /** Without expiring neighbours, entries stay exact. */
  lemma {:induction false} QuietRunKeepsInv(net: Net, acts: seq<Action>)
    requires Inv(net, true) && RunWithoutExpiry(net, acts)
    ensures Run(net, acts) && Inv(After(net, acts), true)
    decreases |acts|
  {
    if acts != [] {
      StepKeepsInv(net, acts[0], true);
      QuietRunKeepsInv(Next(net, acts[0]), acts[1..]);
    }
  }
}
