/** Hop-by-hop forwarding when every router holds the same link-state graph. */
module LsForwarding {
  import opened Basics
  import opened LsTable
  import opened LsProtocol
  import opened LsDijkstra

  /** The routers of a network by name. */
  type Routers = map<NodeId, LsState>

  /** Same edges, same weights: the vectors may list their pairs in any order. */
  ghost predicate SameGraph(t: Table, g: Table) {
    (forall u, v :: Edge(t, u, v) <==> Edge(g, u, v)) &&
    (forall u, v :: Edge(t, u, v) ==> Weight(t, u, v) == Weight(g, u, v))
  }

  /** Router u holds the graph g and routes by shortest paths over it. */
  ghost predicate RoutesOver(net: Routers, g: Table, u: NodeId)
    requires u in net
  {
    SameGraph(net[u].table, g) &&
    ShortestRoutes(net[u].table, net[u].neighbors, u, net[u].routes)
  }

  /** Every router named in g routes by shortest paths over g. */
  ghost predicate Agreed(net: Routers, g: Table) {
    PositiveCosts(g) &&
    (forall u, v :: Edge(g, u, v) ==> v in net) &&
    (forall u {:trigger RoutesOver(net, g, u)} :: u in net ==> RoutesOver(net, g, u))
  }

  lemma {:induction false} SameWalk(t: Table, g: Table, p: seq<NodeId>)
    requires SameGraph(t, g)
    ensures IsWalk(t, p) <==> IsWalk(g, p)
    ensures IsWalk(t, p) ==> WalkCost(t, p) == WalkCost(g, p)
  {
    if |p| > 1 {
      SameWalk(t, g, p[..|p| - 1]);
    }
  }

  /** A shortest route is a distance in g and starts with an edge of g. */
  lemma {:induction false} RouteMeaning(net: Routers, g: Table, u: NodeId, d: NodeId)
    requires Agreed(net, g) && u in net
    ensures d in net[u].routes <==> Reachable(g, u, d)
    ensures d in net[u].routes ==> IsDistance(g, u, d, net[u].routes[d].cost)
    ensures d in net[u].routes && d != u ==>
      exists w :: IsWalkFrom(g, u, d, w) && WalkCost(g, w) == net[u].routes[d].cost &&
                  |w| >= 2 && w[1] == net[u].routes[d].nextHop != u
  {
    var v := net[u];
    assert RoutesOver(net, g, u);
    forall p ensures IsWalk(v.table, p) <==> IsWalk(g, p)
             ensures IsWalk(v.table, p) ==> WalkCost(v.table, p) == WalkCost(g, p)
    {
      SameWalk(v.table, g, p);
    }
    assert Reachable(v.table, u, d) <==> Reachable(g, u, d) by {
      if Reachable(v.table, u, d) {
        var p :| IsWalkFrom(v.table, u, d, p);
        assert IsWalkFrom(g, u, d, p);
      }
      if Reachable(g, u, d) {
        var p :| IsWalkFrom(g, u, d, p);
        assert IsWalkFrom(v.table, u, d, p);
      }
    }
    if d in v.routes {
      var c := v.routes[d].cost;
      assert IsDistance(v.table, u, d, c);
      var p :| IsWalkFrom(v.table, u, d, p) && WalkCost(v.table, p) == c;
      assert IsWalkFrom(g, u, d, p);
      forall q | IsWalkFrom(g, u, d, q) ensures c <= WalkCost(g, q) {
        assert IsWalkFrom(v.table, u, d, q);
      }
      var w :| Follows(v.table, v.neighbors, u, d, v.routes[d], w);
      assert IsWalkFrom(g, u, d, w);
    }
  }

  /** The rest of a cheapest walk is a cheapest walk. */
  lemma {:induction false} RestIsCheapest(g: Table, u: NodeId, d: NodeId, w: seq<NodeId>, rest: nat)
    requires IsWalkFrom(g, u, d, w) && |w| >= 2
    requires forall p :: IsWalkFrom(g, u, d, p) ==> WalkCost(g, w) <= WalkCost(g, p)
    requires IsDistance(g, w[1], d, rest)
    ensures Edge(g, u, w[1]) && rest + Weight(g, u, w[1]) == WalkCost(g, w)
  {
    PeelFront(g, w);
    assert IsWalkFrom(g, w[1], d, w[1..]);
    var q :| IsWalkFrom(g, w[1], d, q) && WalkCost(g, q) == rest;
    PushFront(g, u, q);
    assert IsWalkFrom(g, u, d, [u] + q);
  }

  lemma {:induction false} RestReaches(g: Table, u: NodeId, d: NodeId, w: seq<NodeId>)
    requires IsWalkFrom(g, u, d, w) && |w| >= 2
    ensures Edge(g, u, w[1]) && Reachable(g, w[1], d)
  {
    PeelFront(g, w);
    assert IsWalkFrom(g, w[1], d, w[1..]);
  }

  /** The next hop has a route as well, and the cost left is exactly the rest. */
  lemma {:induction false} NextHopIsNearer(net: Routers, g: Table, u: NodeId, d: NodeId)
    requires Agreed(net, g) && u in net && d in net[u].routes && d != u
    ensures
      var h := net[u].routes[d].nextHop;
      Edge(g, u, h) && h in net && d in net[h].routes &&
      net[h].routes[d].cost + Weight(g, u, h) == net[u].routes[d].cost &&
      net[h].routes[d].cost < net[u].routes[d].cost
  {
    var c, h := net[u].routes[d].cost, net[u].routes[d].nextHop;
    RouteMeaning(net, g, u, d);
    var w :| IsWalkFrom(g, u, d, w) && WalkCost(g, w) == c && |w| >= 2 && w[1] == h != u;
    RestReaches(g, u, d, w);
    assert h in net;
    RouteMeaning(net, g, h, d);
    RestIsCheapest(g, u, d, w, net[h].routes[d].cost);
  }

  /** The routers a packet for d visits from u on. */
  ghost function Forward(net: Routers, g: Table, u: NodeId, d: NodeId): (path: seq<NodeId>)
    requires Agreed(net, g) && u in net && d in net[u].routes
    ensures |path| > 0 && path[0] == u
    decreases net[u].routes[d].cost
  {
    if u == d then [u]
    else
      NextHopIsNearer(net, g, u, d);
      [u] + Forward(net, g, net[u].routes[d].nextHop, d)
  }

  /** The cost router u still sees to d. */
  ghost function CostLeft(net: Routers, u: NodeId, d: NodeId): nat {
    if u in net && d in net[u].routes then net[u].routes[d].cost else 0
  }

  /** From p[i] to p[i+1] a packet follows the table of p[i] and comes strictly nearer. */
  ghost predicate HopByTable(net: Routers, d: NodeId, p: seq<NodeId>, i: nat)
    requires i + 1 < |p|
  {
    p[i] in net && p[i] != d && d in net[p[i]].routes && p[i + 1] == net[p[i]].routes[d].nextHop &&
    CostLeft(net, p[i + 1], d) < CostLeft(net, p[i], d)
  }

  /** Forwarding arrives after travelling exactly the cost the source promised. */
  lemma {:induction false} ForwardingArrives(net: Routers, g: Table, u: NodeId, d: NodeId)
    requires Agreed(net, g) && u in net && d in net[u].routes
    ensures IsWalkFrom(g, u, d, Forward(net, g, u, d))
    ensures WalkCost(g, Forward(net, g, u, d)) == net[u].routes[d].cost
    decreases net[u].routes[d].cost
  {
    if u == d {
      RouteMeaning(net, g, u, d);
      assert IsWalkFrom(g, u, u, [u]) && WalkCost(g, [u]) == 0;
    } else {
      NextHopIsNearer(net, g, u, d);
      var h := net[u].routes[d].nextHop;
      ForwardingArrives(net, g, h, d);
      PushFront(g, u, Forward(net, g, h, d));
    }
  }

  /** Each hop is the one the table of its router names. */
  lemma {:induction false} ForwardingFollowsTables(net: Routers, g: Table, u: NodeId, d: NodeId)
    requires Agreed(net, g) && u in net && d in net[u].routes
    ensures forall i :: 0 <= i < |Forward(net, g, u, d)| - 1 ==> HopByTable(net, d, Forward(net, g, u, d), i)
    decreases net[u].routes[d].cost
  {
    var p := Forward(net, g, u, d);
    if u != d {
      NextHopIsNearer(net, g, u, d);
      var h := net[u].routes[d].nextHop;
      var q := Forward(net, g, h, d);
      ForwardingFollowsTables(net, g, h, d);
      assert p == [u] + q;
      forall i | 0 <= i < |p| - 1 ensures HopByTable(net, d, p, i) {
        assert i > 0 ==> HopByTable(net, d, q, i - 1);
      }
    }
  }

  /** A packet never visits a router twice: there are no forwarding loops. */
  lemma {:induction false} ForwardingIsLoopFree(net: Routers, g: Table, u: NodeId, d: NodeId)
    requires Agreed(net, g) && u in net && d in net[u].routes
    ensures NoRepeats(Forward(net, g, u, d))
  {
    ForwardingFollowsTables(net, g, u, d);
    var p := Forward(net, g, u, d);
    forall i, j | 0 <= i < j < |p| ensures p[i] != p[j] {
      CostFalls(net, d, p, i, j);
    }
  }

  lemma {:induction false} CostFalls(net: Routers, d: NodeId, p: seq<NodeId>, i: nat, j: nat)
    requires i < j < |p|
    requires forall k :: 0 <= k < |p| - 1 ==> HopByTable(net, d, p, k)
    ensures CostLeft(net, p[j], d) < CostLeft(net, p[i], d)
    decreases j - i
  {
    assert HopByTable(net, d, p, i);
    if i + 1 < j {
      CostFalls(net, d, p, i + 1, j);
    }
  }
}
