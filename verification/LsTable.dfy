/** The link-state table and the weighted graph it describes.
  *
  * Node names and main addresses stand in bijection, so both are one `NodeId`.
  */
module LsTable {
  import opened Basics

  const INT_MAX := 0x7fff_ffff

  /** One pair of a neighbour-cost vector. */
  datatype LinkCost = LinkCost(neighbor: NodeId, cost: Uint32)

  datatype Entry = Entry(neighborCosts: seq<LinkCost>, sequenceNumber: Uint32)

  type Table = map<NodeId, Entry>

  // ---------- vectors ----------

  predicate Names(costs: seq<LinkCost>, v: NodeId) {
    exists i :: 0 <= i < |costs| && costs[i].neighbor == v
  }

  /** The cost in the first pair that names v, INT_MAX if none does. */
  function FirstCost(costs: seq<LinkCost>, v: NodeId): Uint32 {
    if costs == [] then INT_MAX
    else if costs[0].neighbor == v then costs[0].cost
    else FirstCost(costs[1..], v)
  }

  function TotalCost(costs: seq<LinkCost>): nat {
    if costs == [] then 0 else costs[0].cost + TotalCost(costs[1..])
  }

  lemma {:induction false} FirstCostBounded(costs: seq<LinkCost>, v: NodeId)
    requires Names(costs, v)
    ensures FirstCost(costs, v) <= TotalCost(costs)
  {
    var i :| 0 <= i < |costs| && costs[i].neighbor == v;
    if costs[0].neighbor != v {
      assert costs[1..][i - 1].neighbor == v;
      FirstCostBounded(costs[1..], v);
    }
  }

  /** Skipping pairs that name other nodes does not change the first cost. */
  lemma {:induction false} FirstCostAt(costs: seq<LinkCost>, v: NodeId, i: nat)
    requires i <= |costs|
    requires forall k :: 0 <= k < i ==> costs[k].neighbor != v
    ensures FirstCost(costs, v) == FirstCost(costs[i..], v)
  {
    if i > 0 {
      FirstCostAt(costs[1..], v, i - 1);
      assert costs[1..][i - 1..] == costs[i..];
    }
  }

  // ---------- the graph ----------

  predicate Edge(t: Table, u: NodeId, v: NodeId) {
    u in t && Names(t[u].neighborCosts, v)
  }

  /** What DistanceToNeighbor reports. */
  function Weight(t: Table, u: NodeId, v: NodeId): Uint32 {
    if u == v then 0 else if u in t then FirstCost(t[u].neighborCosts, v) else INT_MAX
  }

  lemma {:induction false} WeightBounded(t: Table, u: NodeId, v: NodeId)
    requires Edge(t, u, v)
    ensures Weight(t, u, v) <= TotalCost(t[u].neighborCosts)
  {
    FirstCostBounded(t[u].neighborCosts, v);
  }

  /** Every named neighbour has an entry of its own. */
  ghost predicate Closed(t: Table) {
    forall u, v :: Edge(t, u, v) ==> v in t
  }

  /** Sum of all costs advertised by the nodes in s. */
  ghost function OutCost(t: Table, s: set<NodeId>): nat
    requires s <= t.Keys
  {
    if s == {} then 0 else
      var u :| u in s;
      TotalCost(t[u].neighborCosts) + OutCost(t, s - {u})
  }

  lemma {:induction false} OutCostSplit(t: Table, s: set<NodeId>, u: NodeId)
    requires s <= t.Keys && u in s
    ensures OutCost(t, s) == TotalCost(t[u].neighborCosts) + OutCost(t, s - {u})
  {
    var w :| w in s && OutCost(t, s) == TotalCost(t[w].neighborCosts) + OutCost(t, s - {w});
    if w != u {
      OutCostSplit(t, s - {w}, u);
      OutCostSplit(t, s - {u}, w);
      assert s - {w} - {u} == s - {u} - {w};
    }
  }

  lemma {:induction false} OutCostMonotone(t: Table, s: set<NodeId>, r: set<NodeId>)
    requires s <= r <= t.Keys
    ensures OutCost(t, s) <= OutCost(t, r)
    decreases r
  {
    if r - s == {} {
      assert r <= s by {
        forall u | u in r ensures u in s {
          assert u !in r - s;
        }
      }
      assert s == r;
    } else {
      var u :| u in r - s;
      OutCostSplit(t, r, u);
      OutCostMonotone(t, s, r - {u});
    }
  }

  // ---------- walks ----------

  ghost predicate IsWalk(t: Table, p: seq<NodeId>) {
    |p| > 0 &&
    (|p| > 1 ==> Edge(t, p[|p| - 2], p[|p| - 1]) && IsWalk(t, p[..|p| - 1]))
  }

  ghost predicate IsWalkFrom(t: Table, u: NodeId, v: NodeId, p: seq<NodeId>) {
    IsWalk(t, p) && p[0] == u && p[|p| - 1] == v
  }

  ghost function WalkCost(t: Table, p: seq<NodeId>): nat {
    if |p| <= 1 then 0
    else WalkCost(t, p[..|p| - 1]) + Weight(t, p[|p| - 2], p[|p| - 1])
  }

  ghost predicate Reachable(t: Table, u: NodeId, v: NodeId) {
    exists p :: IsWalkFrom(t, u, v, p)
  }

  /** c is the cost of a cheapest walk from u to v. */
  ghost predicate IsDistance(t: Table, u: NodeId, v: NodeId, c: nat) {
    (exists p :: IsWalkFrom(t, u, v, p) && WalkCost(t, p) == c) &&
    (forall p :: IsWalkFrom(t, u, v, p) ==> c <= WalkCost(t, p))
  }

  lemma {:induction false} ExtendWalk(t: Table, p: seq<NodeId>, v: NodeId)
    requires IsWalk(t, p) && Edge(t, p[|p| - 1], v)
    ensures IsWalkFrom(t, p[0], v, p + [v])
    ensures WalkCost(t, p + [v]) == WalkCost(t, p) + Weight(t, p[|p| - 1], v)
  {
    assert (p + [v])[..|p|] == p;
  }

  /** A walk may also be peeled at its front. */
  lemma {:induction false} PeelFront(t: Table, p: seq<NodeId>)
    requires IsWalk(t, p) && |p| > 1
    ensures Edge(t, p[0], p[1]) && IsWalk(t, p[1..])
    ensures WalkCost(t, p) == Weight(t, p[0], p[1]) + WalkCost(t, p[1..])
  {
    var q := p[..|p| - 1];
    if |p| > 2 {
      PeelFront(t, q);
      assert q[1..] == p[1..][..|p| - 2];
    } else {
      assert WalkCost(t, q) == 0 && WalkCost(t, p[1..]) == 0;
    }
  }

  /** ... and extended there. */
  lemma {:induction false} PushFront(t: Table, u: NodeId, p: seq<NodeId>)
    requires IsWalk(t, p) && Edge(t, u, p[0])
    ensures IsWalk(t, [u] + p)
    ensures WalkCost(t, [u] + p) == Weight(t, u, p[0]) + WalkCost(t, p)
  {
    var q := [u] + p;
    if |p| > 1 {
      PushFront(t, u, p[..|p| - 1]);
      assert q[..|q| - 1] == [u] + p[..|p| - 1];
    } else {
      assert q[..1] == [u];
      assert WalkCost(t, [u]) == 0;
    }
  }
}
