/** What flooding achieves: authenticity in every reachable state, and agreement
  * whenever no message is in flight.
  */
module LsAgreement {
  import opened Basics
  import opened LsTable
  import opened LsProtocol
  import opened LsNetwork
  import opened LsInvariants

  // ---------- every reachable state ----------

  /** In every run, audits included, an entry for another router is exactly the
    * vector that router sent under the stored number, less some links to the holder. */
  lemma {:induction false} EntriesAreAuthentic(net: Net, acts: seq<Action>, v: NodeId, o: NodeId)
    requires Inv(net, false) && Run(net, acts)
    requires v < |After(net, acts).nodes| && o != v && o in After(net, acts).nodes[v].table
    ensures
      var end := After(net, acts);
      exists full :: WasSent(end, o, end.nodes[v].table[o].sequenceNumber, full) &&
                     Trims(full, end.nodes[v].table[o].neighborCosts, v)
  {
    RunKeepsInv(net, acts);
    assert EntryOk(After(net, acts), v, o, false);
  }

  /** A stored sequence number never decreases. */
  lemma {:induction false} NumbersNeverDecrease(net: Net, acts: seq<Action>, v: NodeId, o: NodeId)
    requires Inv(net, false) && Run(net, acts)
    requires v < |net.nodes| && o in net.nodes[v].table
    ensures
      var end := After(net, acts);
      v < |end.nodes| && o in end.nodes[v].table &&
      net.nodes[v].table[o].sequenceNumber <= end.nodes[v].table[o].sequenceNumber
    decreases |acts|
  {
    if acts != [] {
      var e := EffectOf(net, acts[0]);
      ActionIsSound(net, acts[0], false);
      if v == e.u {
        assert EntryChange(net, e, o, false);
      }
      StepKeepsInv(net, acts[0], false);
      NumbersNeverDecrease(Next(net, acts[0]), acts[1..], v, o);
    }
  }

  /** Router u repeats the message it is handed by this action. */
  predicate Repeats(net: Net, a: Action)
    requires Subject(a) < |net.nodes|
  {
    a.DeliverLs? && Newer(net.nodes[a.flight.to], a.flight.message)
  }

  /** A router repeats each (originator, number) at most once, whatever its TTL:
    * after repeating one, it repeats nothing as old again, however the run goes on. */
  lemma {:induction false} RepeatsAtMostOnce(net: Net, acts: seq<Action>, f: Flight)
    requires Inv(net, false) && acts != [] && Run(net, acts)
    requires Repeats(net, acts[0])
    requires f.to == acts[0].flight.to && f.message.originator == acts[0].flight.message.originator
    requires f.message.sequenceNumber <= acts[0].flight.message.sequenceNumber
    ensures f.to < |After(net, acts).nodes| && !Newer(After(net, acts).nodes[f.to], f.message)
  {
    var net' := Next(net, acts[0]);
    StepKeepsInv(net, acts[0], false);
    NumbersNeverDecrease(net', acts[1..], f.to, f.message.originator);
  }

  // ---------- quiet states ----------

  predicate Quiet(net: Net) {
    net.flights == multiset{}
  }

  ghost predicate LinkWalk(links: Links, p: seq<NodeId>) {
    |p| > 0 && (forall i :: 0 <= i < |p| - 1 ==> (p[i], p[i + 1]) in links)
  }

  ghost predicate Linked(links: Links, u: NodeId, v: NodeId) {
    exists p :: LinkWalk(links, p) && p[0] == u && p[|p| - 1] == v
  }

  /** Along a walk away from its originator every router holds the newest number. */
  lemma {:induction false} NewestSpreads(net: Net, exact: bool, p: seq<NodeId>)
    requires Inv(net, exact) && Quiet(net)
    requires LinkWalk(net.links, p) && p[0] < |net.nodes| && net.sent[p[0]] != []
    ensures p[|p| - 1] < |net.nodes| && Level(net, p[|p| - 1], p[0]) >= LastSent(net.sent[p[0]]).sequenceNumber
    ensures |p| > 1 ==> Holds(net, p[|p| - 1], p[0], LastSent(net.sent[p[0]]).sequenceNumber)
  {
    if |p| > 1 {
      var q := p[..|p| - 1];
      assert LinkWalk(net.links, q) by {
        forall i | 0 <= i < |q| - 1 ensures (q[i], q[i + 1]) in net.links {
          assert (p[i], p[i + 1]) in net.links;
        }
      }
      NewestSpreads(net, exact, q);
      var u, v := q[|q| - 1], p[|p| - 1];
      assert (p[|p| - 2], p[|p| - 2 + 1]) in net.links;
      assert LinkOk(net, u, v, p[0]);
      assert Holds(net, v, p[0], Level(net, u, p[0]));
    }
  }

  /** Flooding agreement: when no message is in flight, every router linked to o
    * holds o's newest advertisement, less links to itself that audits removed. */
  lemma {:induction false} FloodingAgreement(net: Net, exact: bool, o: NodeId, v: NodeId)
    requires Inv(net, exact) && Quiet(net)
    requires o < |net.nodes| && o != v && Linked(net.links, o, v)
    ensures v < |net.nodes|
    ensures net.sent[o] == [] ==> o !in net.nodes[v].table
    ensures net.sent[o] != [] ==>
      var newest := LastSent(net.sent[o]);
      o in net.nodes[v].table && net.nodes[v].table[o].sequenceNumber == newest.sequenceNumber &&
      Trims(newest.neighborCosts, net.nodes[v].table[o].neighborCosts, v) &&
      (exact ==> net.nodes[v].table[o] == Entry(newest.neighborCosts, newest.sequenceNumber))
  {
    var p :| LinkWalk(net.links, p) && p[0] == o && p[|p| - 1] == v;
    assert (p[|p| - 2], p[|p| - 2 + 1]) in net.links;
    assert NodeOk(net, o) && EntryOk(net, v, o, exact);
    if net.sent[o] != [] {
      NewestSpreads(net, exact, p);
    }
    if o in net.nodes[v].table {
      var entry := net.nodes[v].table[o];
      var full :| WasSent(net, o, entry.sequenceNumber, full) &&
                  Trims(full, entry.neighborCosts, v) && (exact ==> entry.neighborCosts == full);
      LastIsNewest(net.sent[o], net.nodes[o].counter, entry.sequenceNumber, full);
    }
  }

  /** ... and a router with a link has an own entry that matches its neighbour table,
    * although its own flooded vectors may have overwritten it on the way. */
  lemma {:induction false} OwnEntryAgreement(net: Net, exact: bool, u: NodeId, w: NodeId)
    requires Inv(net, exact) && Quiet(net)
    requires (u, w) in net.links
    ensures u < |net.nodes| && OwnAgrees(net.nodes[u])
  {
    assert NodeOk(net, u);
    if net.sent[u] != [] {
      var p := [u, w, u];
      assert LinkWalk(net.links, p) by {
        assert (p[0], p[0 + 1]) in net.links && (p[1], p[1 + 1]) in net.links;
      }
      NewestSpreads(net, exact, p);
    }
  }

  // ---------- flooding ends ----------

  /** Adverts of o that router v has not seen yet. */
  ghost function PendingFrom(adverts: seq<Advert>, t: Table, o: NodeId): nat {
    if adverts == [] then 0
    else
      (if o in t && LastSent(adverts).sequenceNumber <= t[o].sequenceNumber then 0 else 1) +
      PendingFrom(adverts[..|adverts| - 1], t, o)
  }

  ghost function PendingAt(net: Net, v: NodeId, k: nat): nat
    requires v < |net.nodes| && k <= |net.sent|
  {
    if k == 0 then 0 else PendingFrom(net.sent[k - 1], net.nodes[v].table, k - 1) + PendingAt(net, v, k - 1)
  }

  ghost function Pending(net: Net, k: nat): nat
    requires k <= |net.nodes|
  {
    if k == 0 then 0 else PendingAt(net, k - 1, |net.sent|) + Pending(net, k - 1)
  }

  /** Bounds the deliveries still possible: one for each copy in flight, and one
    * broadcast for each advertisement a router has not seen. */
  ghost function Potential(net: Net): nat {
    |net.flights| + Pending(net, |net.nodes|) * |net.nodes|
  }

  lemma {:induction false} PendingShrinks(adverts: seq<Advert>, t: Table, t': Table, o: NodeId)
    requires o in t ==> o in t' && t[o].sequenceNumber <= t'[o].sequenceNumber
    ensures PendingFrom(adverts, t', o) <= PendingFrom(adverts, t, o)
    ensures (exists a :: a in adverts && o in t' && a.sequenceNumber <= t'[o].sequenceNumber &&
                         !(o in t && a.sequenceNumber <= t[o].sequenceNumber))
            ==> PendingFrom(adverts, t', o) < PendingFrom(adverts, t, o)
  {
    if adverts != [] {
      var rest := adverts[..|adverts| - 1];
      PendingShrinks(rest, t, t', o);
      assert adverts == rest + [LastSent(adverts)];
    }
  }

  lemma {:induction false} PendingAtShrinks(net: Net, net': Net, v: NodeId, k: nat, o: NodeId)
    requires v < |net.nodes| == |net'.nodes| && k <= |net.sent| && net'.sent == net.sent
    requires forall p :: p in net.nodes[v].table ==>
      p in net'.nodes[v].table && net.nodes[v].table[p].sequenceNumber <= net'.nodes[v].table[p].sequenceNumber
    ensures PendingAt(net', v, k) <= PendingAt(net, v, k)
    ensures o < k && PendingFrom(net.sent[o], net'.nodes[v].table, o) < PendingFrom(net.sent[o], net.nodes[v].table, o)
            ==> PendingAt(net', v, k) < PendingAt(net, v, k)
  {
    if k > 0 {
      PendingAtShrinks(net, net', v, k - 1, o);
      PendingShrinks(net.sent[k - 1], net.nodes[v].table, net'.nodes[v].table, k - 1);
    }
  }

  lemma {:induction false} PendingDrops(net: Net, net': Net, u: NodeId, k: nat)
    requires k <= |net.nodes| == |net'.nodes| && u < |net.nodes| && net'.sent == net.sent
    requires forall v :: 0 <= v < |net.nodes| && v != u ==> net'.nodes[v] == net.nodes[v]
    requires PendingAt(net', u, |net.sent|) < PendingAt(net, u, |net.sent|)
    ensures u < k ==> Pending(net', k) < Pending(net, k)
    ensures u >= k ==> Pending(net', k) == Pending(net, k)
  {
    if k > 0 {
      PendingDrops(net, net', u, k - 1);
      if k - 1 != u {
        PendingAtSame(net, net', k - 1, |net.sent|);
      }
    }
  }

  lemma {:induction false} PendingAtSame(net: Net, net': Net, v: NodeId, k: nat)
    requires v < |net.nodes| == |net'.nodes| && k <= |net.sent| && net'.sent == net.sent
    requires net'.nodes[v] == net.nodes[v]
    ensures PendingAt(net', v, k) == PendingAt(net, v, k)
  {
    if k > 0 {
      PendingAtSame(net, net', v, k - 1);
    }
  }

  /** A broadcast adds at most one copy for each router. */
  lemma {:induction false} BroadcastSize(net: Net, u: NodeId, m: Message)
    requires Topology(net.links, |net.nodes|)
    ensures |Broadcast(net.links, u, m)| <= |net.nodes|
  {
    var copies := set l | l in net.links && l.0 == u :: Flight(u, l.1, m);
    var targets := set f | f in copies :: f.to;
    NumbersBelow(targets, |net.nodes|);
    CopiesAreTargets(copies, u, m);
  }

  lemma {:induction false} CopiesAreTargets(copies: set<Flight>, u: NodeId, m: Message)
    requires forall f :: f in copies ==> f == Flight(u, f.to, m)
    ensures |copies| == |set f | f in copies :: f.to|
  {
    if copies != {} {
      var g :| g in copies;
      CopiesAreTargets(copies - {g}, u, m);
      var all, rest := set f | f in copies :: f.to, set f | f in copies - {g} :: f.to;
      assert all == rest + {g.to};
      assert g.to !in rest;
    }
  }

  lemma {:induction false} Budget(flights: nat, flights': nat, pending: nat, pending': nat, n: nat)
    requires flights' <= flights - 1 + n && pending' < pending
    ensures flights' + pending' * n < flights + pending * n
  {
    var d: nat := pending - pending' - 1;
    assert d * n >= 0;
    assert pending * n == (pending' + 1 + d) * n == pending' * n + n + d * n;
  }

  lemma {:induction false} DeliverySpends(net: Net, a: Action, exact: bool)
    requires Inv(net, exact) && Enabled(net, a) && a.DeliverLs?
    ensures Potential(Next(net, a)) < Potential(net)
  {
    var u, m, net' := a.flight.to, a.flight.message, Next(net, a);
    if Newer(net.nodes[u], m) {
      assert FlightOk(net, a.flight);
      var t, t', o := net.nodes[u].table, net'.nodes[u].table, m.originator;
      var sent := Advert(m.sequenceNumber, m.neighborCosts);
      assert sent in net.sent[o] && o in t' && sent.sequenceNumber <= t'[o].sequenceNumber;
      PendingShrinks(net.sent[o], t, t', o);
      PendingAtShrinks(net, net', u, |net.sent|, o);
      PendingDrops(net, net', u, |net.nodes|);
      BroadcastSize(net, u, m.(ttl := NextTtl(m.ttl)));
      Budget(|net.flights|, |net'.flights|, Pending(net, |net.nodes|), Pending(net', |net.nodes|), |net.nodes|);
    } else {
      assert net'.nodes == net.nodes;
      PendingSame(net, net', |net.nodes|);
    }
  }

  lemma {:induction false} PendingSame(net: Net, net': Net, k: nat)
    requires k <= |net.nodes| && net'.nodes == net.nodes && net'.sent == net.sent
    ensures Pending(net', k) == Pending(net, k)
  {
    if k > 0 {
      PendingAtSame(net, net', k - 1, |net.sent|);
      PendingSame(net, net', k - 1);
    }
  }

  /** Flooding ends: without new advertisements no run is longer than the potential
    * of the state it starts in, whatever the TTLs say. */
  lemma {:induction false} FloodingEnds(net: Net, acts: seq<Action>, exact: bool)
    requires Inv(net, exact) && Run(net, acts)
    requires forall a :: a in acts ==> a.DeliverLs?
    ensures |acts| <= Potential(net)
    decreases |acts|
  {
    if acts != [] {
      DeliverySpends(net, acts[0], exact);
      StepKeepsInv(net, acts[0], exact);
      FloodingEnds(Next(net, acts[0]), acts[1..], exact);
    }
  }
}
