/** What the handlers of a link-state router leave for the lookups of Dijkstra, and inputs
  * on which a lookup fails.
  */
module LsLookups {
  import opened Basics
  import opened LsTable
  import opened LsProtocol
  import opened LsDijkstra

  // ---------- entries and records after each handler ----------

  /** After an accepted advertisement every named node has an entry exactly when all
    * names, the new ones and those of the other entries, had one or are the originator. */
  lemma {:induction false} ReceivedIsClosed(s: LsState, m: Message)
    requires Newer(s, m)
    ensures Closed(Received(s, m).table) <==>
            (forall v :: Names(m.neighborCosts, v) ==> v in s.table || v == m.originator) &&
            (forall u, v :: u != m.originator && Edge(s.table, u, v) ==> v in s.table || v == m.originator)
  {
    var t := Received(s, m).table;
    forall u, v ensures Edge(t, u, v) <==>
      if u == m.originator then Names(m.neighborCosts, v) else Edge(s.table, u, v) {
    }
    if Closed(t) {
      forall v | Names(m.neighborCosts, v) ensures v in t {
        assert Edge(t, m.originator, v);
      }
      forall u, v | u != m.originator && Edge(s.table, u, v) ensures v in t {
        assert Edge(t, u, v);
      }
    }
  }

  /** Each own link has a neighbour record afterwards exactly when it had one, or, for a
    * router's own message, when each name in it has one. */
  lemma {:induction false} ReceivedIsLinked(s: LsState, m: Message)
    requires Newer(s, m)
    ensures OwnLinked(Received(s, m).table, s.neighbors, s.me) <==>
            if m.originator == s.me then forall v :: Names(m.neighborCosts, v) ==> v in s.neighbors
            else OwnLinked(s.table, s.neighbors, s.me)
  {
    var t := Received(s, m).table;
    forall v ensures Edge(t, s.me, v) <==>
      if m.originator == s.me then Names(m.neighborCosts, v) else Edge(s.table, s.me, v) {
    }
  }

  lemma {:induction false} HeardEdges(s: LsState, from: NodeId, interfaceAddr: nat, sequenceNumber: Uint32, now: int, u: NodeId, v: NodeId)
    requires from !in s.neighbors
    ensures Edge(Heard(s, from, interfaceAddr, sequenceNumber, now).table, u, v) <==>
            Edge(s.table, u, v) || (u == s.me && v == from)
  {
    if u == s.me && u in s.table {
      NamesSnoc(s.table[u].neighborCosts, LinkCost(from, 1), v);
    } else if u == s.me {
      NamesSnoc([], LinkCost(from, 1), v);
    }
  }

  /** After a new neighbour was heard. */
  lemma {:induction false} HeardIsClosed(s: LsState, from: NodeId, interfaceAddr: nat, sequenceNumber: Uint32, now: int)
    requires from !in s.neighbors
    ensures
      var h := Heard(s, from, interfaceAddr, sequenceNumber, now);
      (Closed(h.table) <==>
        (from in s.table || from == s.me) && forall u, v :: Edge(s.table, u, v) ==> v in s.table || v == s.me) &&
      (OwnLinked(h.table, h.neighbors, s.me) <==>
        forall v :: Edge(s.table, s.me, v) ==> v in s.neighbors || v == from)
  {
    var h := Heard(s, from, interfaceAddr, sequenceNumber, now);
    assert h.table.Keys == s.table.Keys + {s.me} && h.neighbors.Keys == s.neighbors.Keys + {from};
    forall u, v ensures Edge(h.table, u, v) <==> Edge(s.table, u, v) || (u == s.me && v == from) {
      HeardEdges(s, from, interfaceAddr, sequenceNumber, now, u, v);
    }
    assert Edge(h.table, s.me, from);
  }

  /** An audit takes away links between nodes with entries, and nothing else. */
  lemma {:induction false} AuditedIsClosed(s: LsState, now: int, timeout: int)
    requires Removable(s, Expired(s, now, timeout))
    ensures Closed(Audited(s, now, timeout).table) <==> Closed(s.table)
  {
    var gone, t := Expired(s, now, timeout), Audited(s, now, timeout).table;
    forall u, v
      ensures Edge(t, u, v) ==> Edge(s.table, u, v)
      ensures Edge(s.table, u, v) && v !in s.table ==> Edge(t, u, v)
    {
      if u in s.table {
        WithoutNamesAgain(s.table[u].neighborCosts, gone, v);
        WithoutNamesAgain(s.table[u].neighborCosts, {s.me}, v);
      }
    }
  }

  /** The own links that stay have a record exactly when no expired neighbour was named a
    * second time and the other names had one. */
  lemma {:induction false} AuditedIsLinked(s: LsState, now: int, timeout: int)
    ensures
      var a := Audited(s, now, timeout);
      OwnLinked(a.table, a.neighbors, s.me) <==>
        s.me in s.table &&
        forall v :: Edge(s.table, s.me, v) ==>
          if v in Expired(s, now, timeout) then !NamesTwice(s.table[s.me].neighborCosts, v) else v in s.neighbors
  {
    var a, gone := Audited(s, now, timeout), Expired(s, now, timeout);
    forall v
      ensures Edge(a.table, s.me, v) <==>
        s.me in s.table &&
        if v in gone then NamesTwice(s.table[s.me].neighborCosts, v) else Edge(s.table, s.me, v)
      ensures s.me in s.table && NamesTwice(s.table[s.me].neighborCosts, v) ==> Edge(s.table, s.me, v)
    {
      if s.me in s.table {
        WithoutNamesAgain(s.table[s.me].neighborCosts, gone, v);
      }
    }
  }

  // ---------- inputs on which a lookup fails ----------

  /** A router that is about to look at other entries must not itself name a node without
    * one, and must reach every entry. */
  lemma {:induction false} MustFail(t: Table, nbrs: Neighbors, me: NodeId)
    requires me in t && |t| != 1 && (Dangling(t, me) || !AllReachable(t, me))
    ensures Decides(false, t, nbrs, me) && !Decides(true, t, nbrs, me)
  {
    if Dangling(t, me) && PositiveCosts(t) && AllReachable(t, me) {
      var w := Other(t, me);
      SelfDistance(t, me);
      var d, p := ShortestWalk(t, me, w);
      assert !Sooner(d, w, 0, me) by { PositiveWalk(t, me, w, p); }
      assert !Farthest(t, me, me);
    }
  }

  lemma {:induction false} Other(t: Table, me: NodeId) returns (w: NodeId)
    requires me in t && |t| != 1
    ensures w in t && w != me
  {
    assert t.Keys == {me} + (t.Keys - {me});
    w :| w in t.Keys - {me};
  }

  lemma {:induction false} SelfDistance(t: Table, me: NodeId)
    ensures IsDistance(t, me, me, 0)
  {
    assert IsWalkFrom(t, me, me, [me]) && WalkCost(t, [me]) == 0;
  }

  lemma {:induction false} PositiveWalk(t: Table, u: NodeId, v: NodeId, p: seq<NodeId>)
    requires PositiveCosts(t) && IsWalkFrom(t, u, v, p) && u != v
    ensures WalkCost(t, p) > 0
  {
    var q, y := p[..|p| - 1], p[|p| - 2];
    if y != v {
      assert Weight(t, y, v) > 0;
    } else {
      PositiveWalk(t, u, v, q);
    }
  }

  // ---------- costs that do not fit ----------

  /** Whatever the costs, a run that ends well has every entry nearer than INT_MAX. */
  lemma {:induction false} NoDistantEntry(t: Table, nbrs: Neighbors, me: NodeId, rt: map<NodeId, Route>, v: NodeId, d: nat)
    requires Computed(true, t, nbrs, me, rt) && ShortestRoutes(t, nbrs, me, rt)
    requires v in t && IsDistance(t, me, v, d)
    ensures d < INT_MAX
  {
    var p :| IsWalkFrom(t, me, v, p) && WalkCost(t, p) == rt[v].cost;
  }

  /** Two nodes and one link whose cost is INT_MAX. */
  function LongLink(me: NodeId, a: NodeId): Table {
    map[me := Entry([LinkCost(a, INT_MAX)], 0), a := Entry([], 0)]
  }

  /** The bound on the costs is sharp: they add up to INT_MAX here, every lookup would
    * find its entry, and yet one fails. */
  lemma {:induction false} BoundIsSharp(ok: bool, me: NodeId, a: NodeId, i: nat, now: int, rt: map<NodeId, Route>)
    requires me != a
    ensures
      var t, nbrs := LongLink(me, a), map[a := Neighbor(i, now)];
      OutCost(t, t.Keys) == INT_MAX && PositiveCosts(t) && LookupsSucceed(t, nbrs, me) &&
      (Computed(ok, t, nbrs, me, rt) ==> !ok)
  {
    var t, nbrs := LongLink(me, a), map[a := Neighbor(i, now)];
    LongLinkCosts(me, a);
    LongLinkLookups(me, a, nbrs);
    if Computed(ok, t, nbrs, me, rt) && ok {
      LongLinkFails(me, a, nbrs, rt);
    }
  }

  lemma {:induction false} LongLinkLookups(me: NodeId, a: NodeId, nbrs: Neighbors)
    requires me != a && a in nbrs
    ensures PositiveCosts(LongLink(me, a)) && LookupsSucceed(LongLink(me, a), nbrs, me)
  {
    var t := LongLink(me, a);
    LongLinkEdges(me, a);
    assert IsWalkFrom(t, me, me, [me]);
    ExtendWalk(t, [me], a);
    assert forall u :: !Dangling(t, u);
  }

  lemma {:induction false} LongLinkFails(me: NodeId, a: NodeId, nbrs: Neighbors, rt: map<NodeId, Route>)
    requires me != a
    ensures !WrappedRoutes(LongLink(me, a), nbrs, me, rt)
  {
    var t := LongLink(me, a);
    if WrappedRoutes(t, nbrs, me, rt) {
      assert a in t;
      var w :| Leads(t, nbrs, me, a, rt[a], w);
      LongWalk(me, a, w);
      assert false;
    }
  }

  lemma {:induction false} LongLinkEdges(me: NodeId, a: NodeId)
    requires me != a
    ensures forall u, v :: Edge(LongLink(me, a), u, v) <==> u == me && v == a
    ensures Weight(LongLink(me, a), me, a) == INT_MAX
  {
    var t := LongLink(me, a);
    assert t[me].neighborCosts[0].neighbor == a;
  }

  lemma {:induction false} LongLinkCosts(me: NodeId, a: NodeId)
    requires me != a
    ensures OutCost(LongLink(me, a), LongLink(me, a).Keys) == INT_MAX
  {
    var t := LongLink(me, a);
    OutCostSplit(t, t.Keys, me);
    assert t.Keys - {me} == {a};
    OutCostSplit(t, {a}, a);
    assert {a} - {a} == {};
    assert t[me].neighborCosts[1..] == [];
  }

  lemma {:induction false} LongWalk(me: NodeId, a: NodeId, w: seq<NodeId>)
    requires me != a && IsWalkFrom(LongLink(me, a), me, a, w)
    ensures WalkCost(LongLink(me, a), w) == INT_MAX
  {
    LongLinkEdges(me, a);
    var t := LongLink(me, a);
    assert IsWalk(t, w[..|w| - 1]) && Edge(t, w[|w| - 2], a);
    if |w| > 2 {
      assert false;
    }
  }

  // ---------- runs on which a lookup fails ----------

  /** After two neighbours were heard, the first advertisement, whatever it names, leaves
    * the other neighbour without an entry. */
  lemma {:induction false} EarlyAdvertisement(me: NodeId, a: NodeId, b: NodeId, i: nat, counter: Uint32, now: int, m: Message)
    requires me != a && me != b && a != b && m.originator == a
    ensures
      var s := Heard(Heard(LsState(me, map[], map[], counter, map[]), a, i, 0, now), b, i, 0, now);
      var r := Received(s, m);
      LookupsSucceed(s.table, s.neighbors, me) && Newer(s, m) && !Decides(true, r.table, r.neighbors, me)
  {
    var one := Heard(LsState(me, map[], map[], counter, map[]), a, i, 0, now);
    var s := Heard(one, b, i, 0, now);
    forall v ensures Edge(s.table, me, v) <==> v == a || v == b {
      HeardEdges(LsState(me, map[], map[], counter, map[]), a, i, 0, now, me, v);
      HeardEdges(one, b, i, 0, now, me, v);
    }
    assert s.table.Keys == {me};
    assert |s.table| == 1;
    var t := Received(s, m).table;
    assert Edge(s.table, me, b) && t[me] == s.table[me];
    assert t.Keys == {me, a} && Edge(t, me, b);
    assert Dangling(t, me);
    MustFail(t, s.neighbors, me);
  }

  /** A router that holds its only neighbour's advertisement hears a second neighbour. */
  lemma {:induction false} SecondNeighbor(s: LsState, a: NodeId, b: NodeId, i: nat, k: Uint32, now: int)
    requires s.table.Keys == {s.me, a} && s.me != a && b !in s.table && b !in s.neighbors
    ensures
      var h := Heard(s, b, i, k, now);
      !Decides(true, h.table, h.neighbors, s.me)
  {
    var h := Heard(s, b, i, k, now);
    HeardEdges(s, b, i, k, now, s.me, b);
    assert h.table.Keys == {s.me, a};
    assert Dangling(h.table, s.me);
    MustFail(h.table, h.neighbors, s.me);
  }

  /** A router accepts an older vector of its own that still names a neighbour it has
    * dropped since. */
  lemma {:induction false} StaleOwnVector(s: LsState, m: Message, b: NodeId)
    requires m.originator == s.me && Newer(s, m) && Names(m.neighborCosts, b) && b !in s.neighbors
    ensures !Decides(true, Received(s, m).table, s.neighbors, s.me)
  {
    ReceivedIsLinked(s, m);
  }

  /** A router that drops its only neighbour keeps that neighbour's entry, and no longer
    * reaches it. */
  lemma {:induction false} OnlyNeighborLost(s: LsState, a: NodeId, now: int, timeout: int)
    requires OwnAgrees(s) && s.neighbors.Keys == {a} && a != s.me && s.me in s.table && a in s.table
    requires Expired(s, now, timeout) == {a}
    ensures
      var d := Audited(s, now, timeout);
      !Decides(true, d.table, d.neighbors, s.me)
  {
    var d := Audited(s, now, timeout);
    AuditKeepsAgreement(s, now, timeout);
    forall p | IsWalk(d.table, p) && p[0] == s.me ensures p[|p| - 1] == s.me {
      StuckAtHome(d.table, s.me, p);
    }
    assert !Reachable(d.table, s.me, a);
    assert d.table.Keys == s.table.Keys;
    SubsetSize({s.me, a}, d.table.Keys);
    MustFail(d.table, d.neighbors, s.me);
  }

  lemma {:induction false} StuckAtHome(t: Table, me: NodeId, p: seq<NodeId>)
    requires IsWalk(t, p) && p[0] == me && forall v :: !Edge(t, me, v)
    ensures p[|p| - 1] == me
  {
    if |p| > 1 {
      StuckAtHome(t, me, p[..|p| - 1]);
    }
  }
}
