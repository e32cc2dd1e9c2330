/** Shortest routes exist for every table whose costs fit and whose own links have records. */
module LsRoutes {
  import opened Basics
  import opened LsTable
  import opened LsProtocol
  import opened LsDijkstra

  // ---------- a cheap walk ----------

  ghost predicate LeavesOnly(p: seq<NodeId>, s: set<NodeId>) {
    forall i :: 0 <= i < |p| - 1 ==> p[i] in s
  }

  lemma {:induction false} Suffix(t: Table, p: seq<NodeId>, i: nat)
    requires IsWalk(t, p) && i < |p|
    ensures IsWalk(t, p[i..])
    decreases i
  {
    if i > 0 {
      PeelFront(t, p);
      Suffix(t, p[1..], i - 1);
      assert p[1..][i - 1..] == p[i..];
    }
  }

  lemma {:induction false} LastVisit(p: seq<NodeId>, u: NodeId, i: nat) returns (last: nat)
    requires i < |p| && p[i] == u
    ensures i <= last < |p| && p[last] == u && forall j :: last < j < |p| ==> p[j] != u
    decreases |p| - i
  {
    if j :| i < j < |p| && p[j] == u {
      last := LastVisit(p, u, j);
    } else {
      last := i;
    }
  }

  /** A walk can be replaced by one that leaves each node once, and so costs no more than
    * all links out of these nodes. */
  lemma {:induction false} CheapWalk(t: Table, s: set<NodeId>, p: seq<NodeId>) returns (q: seq<NodeId>)
    requires s <= t.Keys && IsWalk(t, p) && LeavesOnly(p, s)
    ensures IsWalkFrom(t, p[0], p[|p| - 1], q) && WalkCost(t, q) <= OutCost(t, s)
    decreases s
  {
    var u := p[0];
    if u == p[|p| - 1] {
      q := [u];
    } else {
      var i := LastVisit(p, u, 0);
      var r := p[i + 1..];
      Suffix(t, p, i);
      PeelFront(t, p[i..]);
      assert p[i..][1..] == r && p[i..][1] == r[0];
      assert p[0] in s;
      q := CheapWalk(t, s - {u}, r);
      PushFront(t, u, q);
      WeightBounded(t, u, r[0]);
      OutCostSplit(t, s, u);
      q := [u] + q;
    }
  }

  lemma {:induction false} LeavesEntries(t: Table, p: seq<NodeId>)
    requires IsWalk(t, p)
    ensures LeavesOnly(p, t.Keys)
  {
    if |p| > 1 {
      LeavesEntries(t, p[..|p| - 1]);
      forall i | 0 <= i < |p| - 1 ensures p[i] in t.Keys {
        assert i < |p| - 2 ==> p[..|p| - 1][i] in t.Keys;
      }
    }
  }

  /** When the costs fit, so does every distance. */
  lemma {:induction false} DistanceFits(t: Table, u: NodeId, v: NodeId, d: nat)
    requires CostsFit(t) && IsDistance(t, u, v, d)
    ensures d < INT_MAX
  {
    var p :| IsWalkFrom(t, u, v, p);
    LeavesEntries(t, p);
    var q := CheapWalk(t, t.Keys, p);
  }

  // ---------- a route along it ----------

  /** r goes along a cheapest walk. */
  ghost predicate ShortestRoute(t: Table, nbrs: Neighbors, me: NodeId, v: NodeId, r: Route) {
    IsDistance(t, me, v, r.cost) && exists w :: Follows(t, nbrs, me, v, r, w)
  }

  /** A cheapest walk away from me does not need to come back in its first step. */
  lemma {:induction false} StraightAway(t: Table, me: NodeId, v: NodeId, p: seq<NodeId>) returns (q: seq<NodeId>)
    requires IsWalkFrom(t, me, v, p) && v != me
    ensures IsWalkFrom(t, me, v, q) && WalkCost(t, q) == WalkCost(t, p) && |q| > 1 && q[1] != me && Edge(t, me, q[1])
  {
    PeelFront(t, p);
    if p[1] == me {
      q := StraightAway(t, me, v, p[1..]);
    } else {
      q := p;
    }
  }

  lemma {:induction false} RouteExists(t: Table, nbrs: Neighbors, me: NodeId, v: NodeId) returns (r: Route)
    requires CostsFit(t) && OwnLinked(t, nbrs, me) && Reachable(t, me, v)
    ensures ShortestRoute(t, nbrs, me, v, r)
  {
    if v == me {
      r := Route(me, me, me, 0);
      assert WalkCost(t, [me]) == 0 && IsWalkFrom(t, me, me, [me]);
      assert Follows(t, nbrs, me, v, r, [me]);
    } else {
      var d, p := ShortestWalk(t, me, v);
      DistanceFits(t, me, v, d);
      var q := StraightAway(t, me, v, p);
      r := Route(v, q[1], nbrs[q[1]].interfaceAddr, d);
      assert Follows(t, nbrs, me, v, r, q);
    }
  }

  ghost function RouteTo(t: Table, nbrs: Neighbors, me: NodeId, v: NodeId): (r: Route)
    requires CostsFit(t) && OwnLinked(t, nbrs, me) && Reachable(t, me, v)
    ensures ShortestRoute(t, nbrs, me, v, r)
  {
    assert exists r :: ShortestRoute(t, nbrs, me, v, r) by {
      var r := RouteExists(t, nbrs, me, v);
      assert ShortestRoute(t, nbrs, me, v, r);
    }
    var r :| ShortestRoute(t, nbrs, me, v, r);
    r
  }

  function NamesIn(costs: seq<LinkCost>): set<NodeId> {
    set i | 0 <= i < |costs| :: costs[i].neighbor
  }

  /** All names that occur in the table, and me. */
  function Known(t: Table, me: NodeId): set<NodeId> {
    {me} + set u, v | u in t && v in NamesIn(t[u].neighborCosts) :: v
  }

  lemma {:induction false} ReachableIsKnown(t: Table, me: NodeId, v: NodeId)
    requires Reachable(t, me, v)
    ensures v in Known(t, me)
  {
    var p :| IsWalkFrom(t, me, v, p);
    if |p| > 1 {
      var u := p[|p| - 2];
      assert Edge(t, u, v);
      var i :| 0 <= i < |t[u].neighborCosts| && t[u].neighborCosts[i].neighbor == v;
      assert v in NamesIn(t[u].neighborCosts);
    }
  }

  lemma {:induction false} ShortestRoutesExist(t: Table, nbrs: Neighbors, me: NodeId) returns (rt: map<NodeId, Route>)
    requires CostsFit(t) && OwnLinked(t, nbrs, me)
    ensures ShortestRoutes(t, nbrs, me, rt)
  {
    rt := map v | v in Known(t, me) && Reachable(t, me, v) :: RouteTo(t, nbrs, me, v);
    forall v ensures v in rt <==> Reachable(t, me, v) {
      if Reachable(t, me, v) {
        ReachableIsKnown(t, me, v);
      }
    }
  }

  /** Every state of a router has routes that are right for its tables. */
  lemma {:induction false} GoodRoutesExist(s: LsState) returns (rt: map<NodeId, Route>)
    ensures RoutesOk(s.(routes := rt))
  {
    rt := map[];
    if CostsFit(s.table) && OwnLinked(s.table, s.neighbors, s.me) {
      rt := ShortestRoutesExist(s.table, s.neighbors, s.me);
    }
  }
}
