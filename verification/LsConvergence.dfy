/** Flooding and shortest paths together: once the network is quiet, every router
  * forwards every packet along a path with the fewest links.
  */
module LsConvergence {
  import opened Basics
  import opened LsTable
  import opened LsProtocol
  import opened LsDijkstra
  import opened LsForwarding
  import opened LsNetwork
  import opened LsInvariants
  import opened LsAgreement

  /** Nothing is in flight and every router has heard all of its neighbours. */
  ghost predicate AllHeard(net: Net) {
    Quiet(net) &&
    forall u, v :: (u, v) in net.links ==> u < |net.nodes| && v in net.nodes[u].neighbors
  }

  ghost predicate Connected(net: Net) {
    |net.nodes| >= 2 && |net.links| < INT_MAX &&
    forall u, v :: 0 <= u < |net.nodes| && 0 <= v < |net.nodes| ==> Linked(net.links, u, v)
  }

  /** A quiet state of a connected network in which no neighbour has expired. */
  ghost predicate Settled(net: Net) {
    Inv(net, true) && AllHeard(net) && Connected(net)
  }

  lemma {:induction false} SomeLink(net: Net, u: NodeId) returns (w: NodeId)
    requires Settled(net) && u < |net.nodes|
    ensures (u, w) in net.links
  {
    var v := if u == 0 then 1 else 0;
    assert Linked(net.links, u, v);
    var p :| LinkWalk(net.links, p) && p[0] == u && p[|p| - 1] == v;
    assert (p[0], p[0 + 1]) in net.links;
    w := p[1];
  }

  lemma {:induction false} NeighborsAreLinks(net: Net, u: NodeId, v: NodeId)
    requires Settled(net) && u < |net.nodes|
    ensures v in net.nodes[u].neighbors <==> (u, v) in net.links
  {
    assert NodeOk(net, u);
  }

  /** Every table lists, for every router, its links at cost 1. */
  lemma {:induction false} TablesList(net: Net, u: NodeId, x: NodeId)
    requires Settled(net) && u < |net.nodes| && x < |net.nodes|
    ensures x in net.nodes[u].table && Advertises(net.nodes[u].table[x].neighborCosts, net.nodes[x].neighbors)
  {
    var w := SomeLink(net, x);
    NeighborsAreLinks(net, x, w);
    assert NodeOk(net, x);
    if x == u {
      OwnEntryAgreement(net, true, u, w);
    } else {
      assert Linked(net.links, x, u);
      FloodingAgreement(net, true, x, u);
    }
  }

  lemma {:induction false} UnitFirstCost(costs: seq<LinkCost>, v: NodeId)
    requires UnitCosts(costs) && Names(costs, v)
    ensures FirstCost(costs, v) == 1
  {
    var i :| 0 <= i < |costs| && costs[i].neighbor == v;
    if costs[0].neighbor != v {
      assert costs[1..][i - 1].neighbor == v;
      UnitFirstCost(costs[1..], v);
    }
  }

  /** The graph in every table is the network itself. */
  lemma {:induction false} TableIsNetwork(net: Net, u: NodeId, x: NodeId, y: NodeId)
    requires Settled(net) && u < |net.nodes|
    ensures Edge(net.nodes[u].table, x, y) <==> (x, y) in net.links
    ensures Edge(net.nodes[u].table, x, y) ==> x != y && Weight(net.nodes[u].table, x, y) == 1
  {
    var t := net.nodes[u].table;
    if x < |net.nodes| {
      TablesList(net, u, x);
      NeighborsAreLinks(net, x, y);
      if Names(t[x].neighborCosts, y) {
        UnitFirstCost(t[x].neighborCosts, y);
      }
    } else {
      assert EntryOk(net, u, x, true);
    }
  }

  // ---------- the costs in a table cannot overflow ----------

  lemma {:induction false} UnitTotal(costs: seq<LinkCost>, s: set<NodeId>)
    requires UnitCosts(costs) && NamesExactly(costs, s)
    ensures TotalCost(costs) == |s|
  {
    if costs == [] {
      assert forall v :: v in s ==> Names(costs, v);
      assert s == {};
    } else {
      var head, rest := costs[0], costs[1..];
      assert costs == [head] + rest;
      forall v ensures Names(rest, v) <==> v in s - {head.neighbor} {
        NamesCons(head, rest, v);
        if Names(rest, v) {
          var i :| 0 <= i < |rest| && rest[i].neighbor == v;
          assert costs[i + 1].neighbor == v;
        }
      }
      UnitTotal(rest, s - {head.neighbor});
      assert head.neighbor in s by { NamesCons(head, rest, head.neighbor); }
    }
  }

  ghost function LinksFrom(links: Links, s: set<NodeId>): Links {
    set l | l in links && l.0 in s
  }

  lemma {:induction false} LinksOfOne(links: Links, u: NodeId, s: set<NodeId>)
    requires forall v :: v in s <==> (u, v) in links
    ensures |LinksFrom(links, {u})| == |s|
    decreases s
  {
    if s == {} {
      assert LinksFrom(links, {u}) == {};
    } else {
      var v :| v in s;
      LinksOfOne(links - {(u, v)}, u, s - {v});
      assert LinksFrom(links, {u}) == LinksFrom(links - {(u, v)}, {u}) + {(u, v)};
    }
  }

  lemma {:induction false} TotalIsLinks(net: Net, u: NodeId, x: NodeId)
    requires Settled(net) && u < |net.nodes| && x < |net.nodes| && x in net.nodes[u].table
    ensures TotalCost(net.nodes[u].table[x].neighborCosts) == |LinksFrom(net.links, {x})|
  {
    TablesList(net, u, x);
    var nbrs := net.nodes[x].neighbors.Keys;
    UnitTotal(net.nodes[u].table[x].neighborCosts, nbrs);
    forall v: NodeId ensures v in nbrs <==> (x, v) in net.links { NeighborsAreLinks(net, x, v); }
    LinksOfOne(net.links, x, nbrs);
  }

  lemma {:induction false} LinksSplit(links: Links, s: set<NodeId>, x: NodeId)
    requires x in s
    ensures |LinksFrom(links, s)| == |LinksFrom(links, s - {x})| + |LinksFrom(links, {x})|
  {
    assert LinksFrom(links, s) == LinksFrom(links, s - {x}) + LinksFrom(links, {x});
  }

  lemma {:induction false} OutCostIsLinks(net: Net, u: NodeId, s: set<NodeId>)
    requires Settled(net) && u < |net.nodes| && s <= net.nodes[u].table.Keys
    ensures OutCost(net.nodes[u].table, s) == |LinksFrom(net.links, s)|
  {
    var t := net.nodes[u].table;
    if s == {} {
      assert LinksFrom(net.links, s) == {};
    } else {
      var x :| x in s;
      EntriesInRange(net, u, true);
      OutCostSplit(t, s, x);
      OutCostIsLinks(net, u, s - {x});
      TotalIsLinks(net, u, x);
      LinksSplit(net.links, s, x);
    }
  }

  /** In a settled network every lookup of Dijkstra finds its entry. */
  lemma {:induction false} SettledLookups(net: Net, u: NodeId)
    requires Settled(net) && u < |net.nodes|
    ensures
      var s := net.nodes[u];
      PositiveCosts(s.table) && CostsFit(s.table) &&
      Closed(s.table) && LookupsSucceed(s.table, s.neighbors, u)
  {
    var t := net.nodes[u].table;
    TablesList(net, u, u);
    forall x, y | Edge(t, x, y) ensures y in t && Weight(t, x, y) == 1 && (x == u ==> y in net.nodes[u].neighbors) {
      TableIsNetwork(net, u, x, y);
      NeighborsAreLinks(net, x, y);
      TablesList(net, u, y);
    }
    forall v | v in t ensures Reachable(t, u, v) {
      SettledReaches(net, u, v);
    }
    OutCostIsLinks(net, u, t.Keys);
    var from := LinksFrom(net.links, t.Keys);
    assert net.links == from + (net.links - from);
  }

  lemma {:induction false} SettledReaches(net: Net, u: NodeId, v: NodeId)
    requires Settled(net) && u < |net.nodes| && v in net.nodes[u].table
    ensures Reachable(net.nodes[u].table, u, v)
  {
    assert EntryOk(net, u, v, true);
    assert Linked(net.links, u, v);
    var p :| LinkWalk(net.links, p) && p[0] == u && p[|p| - 1] == v;
    WalksAreLinkWalks(net, u, p);
    assert IsWalkFrom(net.nodes[u].table, u, v, p);
  }

  // ---------- forwarding in a settled network ----------

  ghost function RoutersOf(net: Net): Routers {
    map u: NodeId | 0 <= u < |net.nodes| :: net.nodes[u]
  }

  lemma {:induction false} SettledRoutes(net: Net, u: NodeId)
    requires Settled(net) && u < |net.nodes|
    ensures ShortestRoutes(net.nodes[u].table, net.nodes[u].neighbors, u, net.nodes[u].routes)
  {
    assert NodeOk(net, u);
    SettledLookups(net, u);
  }

  lemma {:induction false} SettledAgrees(net: Net)
    requires Settled(net)
    ensures Agreed(RoutersOf(net), net.nodes[0].table)
  {
    var g, routers := net.nodes[0].table, RoutersOf(net);
    forall u, v | Edge(g, u, v) ensures v in routers && Weight(g, u, v) == 1 {
      TableIsNetwork(net, 0, u, v);
    }
    forall u | u in routers ensures RoutesOver(routers, g, u) {
      SettledRoutes(net, u);
      forall x, y
        ensures Edge(routers[u].table, x, y) <==> Edge(g, x, y)
        ensures Edge(routers[u].table, x, y) ==> Weight(routers[u].table, x, y) == Weight(g, x, y)
      {
        TableIsNetwork(net, 0, x, y);
        TableIsNetwork(net, u, x, y);
      }
    }
  }

  /** Walks in a table are link walks, and their cost counts links. */
  lemma {:induction false} WalksAreLinkWalks(net: Net, u: NodeId, p: seq<NodeId>)
    requires Settled(net) && u < |net.nodes|
    ensures IsWalk(net.nodes[u].table, p) <==> LinkWalk(net.links, p)
    ensures IsWalk(net.nodes[u].table, p) ==> WalkCost(net.nodes[u].table, p) == |p| - 1
  {
    if |p| > 1 {
      WalksAreLinkWalks(net, u, p[..|p| - 1]);
      TableIsNetwork(net, u, p[|p| - 2], p[|p| - 1]);
      LinkWalkSnoc(net.links, p);
    }
  }

  lemma {:induction false} LinkWalkSnoc(links: Links, p: seq<NodeId>)
    requires |p| > 1
    ensures LinkWalk(links, p) <==> LinkWalk(links, p[..|p| - 1]) && (p[|p| - 2], p[|p| - 1]) in links
  {
    var q := p[..|p| - 1];
    if LinkWalk(links, p) {
      forall i | 0 <= i < |q| - 1 ensures (q[i], q[i + 1]) in links {
        assert (p[i], p[i + 1]) in links;
      }
      assert (p[|p| - 2], p[|p| - 2 + 1]) in links;
    }
    if LinkWalk(links, q) && (p[|p| - 2], p[|p| - 1]) in links {
      forall i | 0 <= i < |p| - 1 ensures (p[i], p[i + 1]) in links {
        assert i < |q| - 1 ==> (q[i], q[i + 1]) in links;
      }
    }
  }

  /** Forwarding from u to d delivers, without a loop, over as many links as the route of
    * u says, and no other way has fewer. */
  ghost predicate Delivers(net: Net, u: NodeId, d: NodeId)
  {
    var routers := RoutersOf(net);
    u in routers && d in routers[u].routes && |net.nodes| > 0 && Agreed(routers, net.nodes[0].table) &&
    var p := Forward(routers, net.nodes[0].table, u, d);
    LinkWalk(net.links, p) && p[0] == u && p[|p| - 1] == d && NoRepeats(p) &&
    |p| - 1 == routers[u].routes[d].cost &&
    forall q :: LinkWalk(net.links, q) && q[0] == u && q[|q| - 1] == d ==> |p| <= |q|
  }

  /** In a settled network every router has a route to every other one, at the least
    * number of links, and forwarding delivers over that many links without a loop. */
  lemma {:induction false} SettledNetworkDelivers(net: Net, u: NodeId, d: NodeId)
    requires Settled(net) && u < |net.nodes| && d < |net.nodes|
    ensures Delivers(net, u, d)
  {
    var g, routers := net.nodes[0].table, RoutersOf(net);
    SettledAgrees(net);
    assert Linked(net.links, u, d);
    var w :| LinkWalk(net.links, w) && w[0] == u && w[|w| - 1] == d;
    WalksAreLinkWalks(net, 0, w);
    assert IsWalkFrom(g, u, d, w);
    RouteMeaning(routers, g, u, d);
    var p := Forward(routers, g, u, d);
    ForwardingArrives(routers, g, u, d);
    ForwardingIsLoopFree(routers, g, u, d);
    WalksAreLinkWalks(net, 0, p);
    forall q | LinkWalk(net.links, q) && q[0] == u && q[|q| - 1] == d ensures |p| <= |q| {
      WalksAreLinkWalks(net, 0, q);
      assert IsWalkFrom(g, u, d, q);
    }
  }

  // ---------- from the start ----------

  /** A run from the start in which no neighbour expires: whenever all hellos were heard
    * and nothing is in flight, every router holds exactly the newest vector of every
    * other, and every packet is delivered over the fewest links. */
  lemma {:induction false} QuietRunDelivers(start: Net, acts: seq<Action>, u: NodeId, d: NodeId)
    requires Initial(start) && Run(start, acts) && RunWithoutExpiry(start, acts)
    requires Connected(After(start, acts)) && AllHeard(After(start, acts))
    requires u < |After(start, acts).nodes| && d < |After(start, acts).nodes|
    ensures
      var net := After(start, acts);
      OwnAgrees(net.nodes[u]) && Delivers(net, u, d) &&
      (d != u ==>
        |net.sent| == |net.nodes| && net.sent[d] != [] && d in net.nodes[u].table &&
        var newest := LastSent(net.sent[d]);
        net.nodes[u].table[d] == Entry(newest.neighborCosts, newest.sequenceNumber))
  {
    InitialInv(start, true);
    QuietRunKeepsInv(start, acts);
    var net := After(start, acts);
    SettledNetworkDelivers(net, u, d);
    var w := SomeLink(net, u);
    OwnEntryAgreement(net, true, u, w);
    if d != u {
      assert Linked(net.links, d, u);
      FloodingAgreement(net, true, d, u);
      TablesList(net, u, d);
    }
  }
}
