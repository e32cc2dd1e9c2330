/** What the shortest-path computation of a link-state router has to deliver,
  * and the invariants of its loops.
  */
module LsDijkstra {
  import opened Basics
  import opened LsTable
  import opened LsProtocol

  // ---------- what the routing table has to be ----------

  /** Route r to v goes along walk w out of me and leaves through a live neighbour. Its
    * cost is that of the walk, wrapped around at 32 bits. */
  ghost predicate Leads(t: Table, nbrs: Neighbors, me: NodeId, v: NodeId, r: Route, w: seq<NodeId>) {
    IsWalkFrom(t, me, v, w) && WalkCost(t, w) % TWO_TO_32 == r.cost && r.dest == v &&
    if v == me then r.nextHop == me && r.interfaceAddr == me
    else
      |w| >= 2 && r.nextHop == w[1] != me &&
      r.nextHop in nbrs && r.interfaceAddr == nbrs[r.nextHop].interfaceAddr
  }

  /** The same with the cost of the walk itself. */
  ghost predicate Follows(t: Table, nbrs: Neighbors, me: NodeId, v: NodeId, r: Route, w: seq<NodeId>) {
    Leads(t, nbrs, me, v, r, w) && WalkCost(t, w) == r.cost
  }

  /** The table holds exactly the reachable nodes, each at its distance, and each
    * next hop is the first step of a cheapest walk. */
  ghost predicate ShortestRoutes(t: Table, nbrs: Neighbors, me: NodeId, rt: map<NodeId, Route>) {
    (forall v :: v in rt <==> Reachable(t, me, v)) &&
    (forall v :: v in rt ==> IsDistance(t, me, v, rt[v].cost)) &&
    (forall v :: v in rt ==> exists w :: Follows(t, nbrs, me, v, rt[v], w))
  }

  ghost predicate PositiveCosts(g: Table) {
    forall u, v :: Edge(g, u, v) && u != v ==> Weight(g, u, v) > 0
  }

  // ---------- when every lookup finds its entry ----------

  /** There is an own entry, and a neighbour record for each own link. */
  ghost predicate OwnLinked(t: Table, nbrs: Neighbors, me: NodeId) {
    me in t && forall v :: Edge(t, me, v) ==> v in nbrs
  }

  ghost predicate AllReachable(t: Table, me: NodeId) {
    forall v :: v in t ==> Reachable(t, me, v)
  }

  /** u names a node that has no entry. */
  ghost predicate Dangling(t: Table, u: NodeId) {
    exists v :: Edge(t, u, v) && v !in t
  }

  /** The order in which nodes are settled: by cost, then by name. */
  predicate Sooner(c: int, u: NodeId, d: int, v: NodeId) {
    c < d || (c == d && u < v)
  }

  /** Every other node is nearer to me than u, or as near with a smaller name. */
  ghost predicate Farthest(t: Table, me: NodeId, u: NodeId) {
    forall w, c: nat, d: nat :: w in t && w != u && IsDistance(t, me, w, c) && IsDistance(t, me, u, d) ==> Sooner(c, w, d, u)
  }

  /** With an own entry only, no other node is looked up. Otherwise every node of the
    * table has to be reached, and only the one settled last, after which nothing is
    * looked up any more, may name nodes without an entry. */
  ghost predicate LookupsSucceed(t: Table, nbrs: Neighbors, me: NodeId) {
    OwnLinked(t, nbrs, me) &&
    (|t| == 1 || (AllReachable(t, me) && forall u {:trigger Dangling(t, u)} :: Dangling(t, u) ==> Farthest(t, me, u)))
  }

  /** What decides whether a run of Dijkstra finds all it looks up: exactly
    * LookupsSucceed when costs are positive. Costs of 0 leave the order in which nodes
    * are settled, and so the one that may dangle, to the search. */
  ghost predicate Decides(ok: bool, t: Table, nbrs: Neighbors, me: NodeId) {
    (ok ==> OwnLinked(t, nbrs, me)) &&
    (ok && |t| != 1 ==> AllReachable(t, me) && !Dangling(t, me)) &&
    (ok && |t| != 1 ==> forall u, v :: Dangling(t, u) && Dangling(t, v) ==> u == v) &&
    (OwnLinked(t, nbrs, me) && (|t| == 1 || (AllReachable(t, me) && Closed(t))) ==> ok) &&
    (PositiveCosts(t) ==> (ok <==> LookupsSucceed(t, nbrs, me)))
  }

  /** All advertised costs together stay below the integer maximum. */
  ghost predicate CostsFit(t: Table) {
    OutCost(t, t.Keys) < INT_MAX
  }

  /** What holds of the table whatever the costs: it has a route below the integer maximum
    * to every node with an entry, and each route goes along some walk. */
  ghost predicate WrappedRoutes(t: Table, nbrs: Neighbors, me: NodeId, rt: map<NodeId, Route>) {
    (forall v :: v in t ==> v in rt && rt[v].cost < INT_MAX) &&
    (forall v :: v in rt ==> exists w :: Leads(t, nbrs, me, v, rt[v], w))
  }

  /** What a run of Dijkstra delivers. When the costs fit, success is decided by the table
    * and the routes are shortest; otherwise sums wrap around, and success still means
    * that the routes go along walks and that nothing looked up was missing. */
  ghost predicate Computed(ok: bool, t: Table, nbrs: Neighbors, me: NodeId, rt: map<NodeId, Route>) {
    (ok ==> OwnLinked(t, nbrs, me) && WrappedRoutes(t, nbrs, me, rt)) &&
    (ok && |t| != 1 ==> AllReachable(t, me) && !Dangling(t, me)) &&
    (OwnLinked(t, nbrs, me) && |t| == 1 ==> ok) &&
    (CostsFit(t) ==> Decides(ok, t, nbrs, me) && (ok ==> ShortestRoutes(t, nbrs, me, rt)))
  }

  /** What is known of the routes of a router after its last run of Dijkstra: nothing if
    * a lookup failed. */
  ghost predicate RoutesOk(s: LsState) {
    PositiveCosts(s.table) && CostsFit(s.table) && LookupsSucceed(s.table, s.neighbors, s.me)
    ==> ShortestRoutes(s.table, s.neighbors, s.me, s.routes)
  }

  lemma {:induction false} ComputedRoutesAreOk(ok: bool, s: LsState)
    requires Computed(ok, s.table, s.neighbors, s.me, s.routes)
    ensures RoutesOk(s)
  {
  }

  // ---------- invariants of the computation ----------

  ghost predicate Traced(t: Table, nbrs: Neighbors, me: NodeId,
                         rt: map<NodeId, Route>, walks: map<NodeId, seq<NodeId>>)
  {
    walks.Keys == rt.Keys &&
    (forall v {:trigger walks[v]} :: v in rt ==> Leads(t, nbrs, me, v, rt[v], walks[v]))
  }

  ghost predicate Backed(t: Table, nbrs: Neighbors, me: NodeId,
                         rt: map<NodeId, Route>, walks: map<NodeId, seq<NodeId>>)
  {
    walks.Keys == rt.Keys &&
    (forall v {:trigger walks[v]} :: v in rt ==> Follows(t, nbrs, me, v, rt[v], walks[v]))
  }

  /** Every edge out of u has been relaxed. */
  ghost predicate Relaxed(t: Table, rt: map<NodeId, Route>, u: NodeId) {
    u in rt &&
    (forall v :: Edge(t, u, v) ==> v in rt && rt[v].cost <= rt[u].cost + Weight(t, u, v))
  }

  ghost predicate SettledFirst(rt: map<NodeId, Route>, settled: set<NodeId>) {
    settled <= rt.Keys &&
    (forall u, v :: u in settled && v in rt && v !in settled ==> rt[u].cost <= rt[v].cost)
  }

  ghost predicate CostsAtMost(rt: map<NodeId, Route>, bound: nat) {
    forall v :: v in rt ==> rt[v].cost <= bound
  }

  /** A direct link is a one-step walk. */
  lemma {:induction false} DirectFollows(t: Table, nbrs: Neighbors, me: NodeId, v: NodeId, cost: Uint32)
    requires Edge(t, me, v) && v != me && v in nbrs && cost == Weight(t, me, v)
    ensures Follows(t, nbrs, me, v, Route(v, v, nbrs[v].interfaceAddr, cost), [me, v])
  {
    ExtendWalk(t, [me], v);
    assert [me] + [v] == [me, v];
  }

  /** A route extended by one edge keeps its next hop. */
  lemma {:induction false} ExtendFollows(t: Table, nbrs: Neighbors, me: NodeId, u: NodeId, r: Route, w: seq<NodeId>,
                      v: NodeId, cost: Uint32)
    requires Follows(t, nbrs, me, u, r, w)
    requires Edge(t, u, v) && u != me && v != me && cost == r.cost + Weight(t, u, v)
    ensures Follows(t, nbrs, me, v, Route(v, r.nextHop, nbrs[r.nextHop].interfaceAddr, cost), w + [v])
  {
    ExtendWalk(t, w, v);
  }

  lemma {:induction false} ExtendLeads(t: Table, nbrs: Neighbors, me: NodeId, u: NodeId, r: Route, w: seq<NodeId>,
                                       v: NodeId)
    requires Leads(t, nbrs, me, u, r, w)
    requires Edge(t, u, v) && u != me && v != me
    ensures Leads(t, nbrs, me, v, Route(v, r.nextHop, nbrs[r.nextHop].interfaceAddr, AddUint32(r.cost, Weight(t, u, v))),
                  w + [v])
  {
    ExtendWalk(t, w, v);
    SumWraps(WalkCost(t, w), Weight(t, u, v));
  }

  lemma {:induction false} SumWraps(a: nat, b: Uint32)
    ensures AddUint32(a % TWO_TO_32, b) == (a + b) % TWO_TO_32
  {
    var q, r := a / TWO_TO_32, a % TWO_TO_32;
    if r + b < TWO_TO_32 {
      DivideBack(q, r + b);
    } else {
      DivideBack(q + 1, r + b - TWO_TO_32);
    }
  }

  lemma {:induction false} DivideBack(q: nat, r: Uint32)
    ensures (q * TWO_TO_32 + r) % TWO_TO_32 == r
  {
  }

  /** Once every routed node that has edges is relaxed, no walk beats the table. */
  lemma {:induction false} NoBetterWalk(t: Table, me: NodeId, rt: map<NodeId, Route>, p: seq<NodeId>)
    requires me in rt && rt[me].cost == 0
    requires forall u :: u in rt && u in t ==> Relaxed(t, rt, u)
    requires IsWalk(t, p) && p[0] == me
    ensures p[|p| - 1] in rt && rt[p[|p| - 1]].cost <= WalkCost(t, p)
  {
    if |p| > 1 {
      NoBetterWalk(t, me, rt, p[..|p| - 1]);
      assert Relaxed(t, rt, p[|p| - 2]);
    }
  }

  lemma {:induction false} TableIsShortest(t: Table, nbrs: Neighbors, me: NodeId,
                        rt: map<NodeId, Route>, walks: map<NodeId, seq<NodeId>>)
    requires Backed(t, nbrs, me, rt, walks)
    requires me in rt && rt[me].cost == 0
    requires forall u :: u in rt && u in t ==> Relaxed(t, rt, u)
    ensures ShortestRoutes(t, nbrs, me, rt)
  {
    forall v, p | IsWalkFrom(t, me, v, p)
      ensures v in rt && rt[v].cost <= WalkCost(t, p)
    {
      NoBetterWalk(t, me, rt, p);
    }
    forall v | v in rt
      ensures Reachable(t, me, v) && IsDistance(t, me, v, rt[v].cost)
      ensures exists w :: Follows(t, nbrs, me, v, rt[v], w)
    {
      assert Follows(t, nbrs, me, v, rt[v], walks[v]);
    }
  }

  /** Replacing or adding one backed route. */
  lemma {:induction false} BackedUpdate(t: Table, nbrs: Neighbors, me: NodeId,
                     rt: map<NodeId, Route>, walks: map<NodeId, seq<NodeId>>,
                     v: NodeId, r: Route, w: seq<NodeId>)
    requires Backed(t, nbrs, me, rt, walks) && Follows(t, nbrs, me, v, r, w)
    ensures Backed(t, nbrs, me, rt[v := r], walks[v := w])
  {
  }

  lemma {:induction false} TracedUpdate(t: Table, nbrs: Neighbors, me: NodeId,
                     rt: map<NodeId, Route>, walks: map<NodeId, seq<NodeId>>,
                     v: NodeId, r: Route, w: seq<NodeId>)
    requires Traced(t, nbrs, me, rt, walks) && Leads(t, nbrs, me, v, r, w)
    ensures Traced(t, nbrs, me, rt[v := r], walks[v := w])
  {
  }

  /** Routes are only added, or made cheaper. */
  ghost predicate OnlyCheaper(rt: map<NodeId, Route>, rt': map<NodeId, Route>) {
    forall v :: v in rt ==> v in rt' && rt'[v].cost <= rt[v].cost
  }

  /** What holds between two rounds of the main loop whatever the costs. */
  ghost predicate Tracing(t: Table, nbrs: Neighbors, me: NodeId, rt: map<NodeId, Route>,
                          walks: map<NodeId, seq<NodeId>>, settled: set<NodeId>)
  {
    Traced(t, nbrs, me, rt, walks) && me in settled && settled <= t.Keys && settled <= rt.Keys &&
    rt[me].cost == 0 && (forall v :: Edge(t, me, v) ==> v in rt) &&
    (forall v :: v in settled ==> rt[v].cost < INT_MAX) &&
    (|settled| > 1 ==> !Dangling(t, me))
  }

  lemma {:induction false} TracesOn(t: Table, nbrs: Neighbors, me: NodeId, rt: map<NodeId, Route>,
                                    walks: map<NodeId, seq<NodeId>>, settled: set<NodeId>, c: NodeId,
                                    rt': map<NodeId, Route>, walks': map<NodeId, seq<NodeId>>)
    requires Tracing(t, nbrs, me, rt, walks, settled) && Traced(t, nbrs, me, rt', walks')
    requires rt.Keys <= t.Keys && c in rt && rt[c].cost < INT_MAX && OnlyCheaper(rt, rt')
    ensures Tracing(t, nbrs, me, rt', walks', settled + {c})
  {
    forall v | v in settled + {c} ensures v in rt' && rt'[v].cost < INT_MAX {
      assert v in rt && rt[v].cost < INT_MAX;
    }
    assert !Dangling(t, me);
  }

  lemma {:induction false} TracedToTheEnd(t: Table, nbrs: Neighbors, me: NodeId, rt: map<NodeId, Route>,
                                          walks: map<NodeId, seq<NodeId>>, settled: set<NodeId>)
    requires Tracing(t, nbrs, me, rt, walks, settled) && |settled| == |t|
    ensures WrappedRoutes(t, nbrs, me, rt) && AllReachable(t, me)
    ensures |t| != 1 ==> !Dangling(t, me)
  {
    SubsetOfSameSize(settled, t.Keys);
    forall v | v in rt ensures Reachable(t, me, v) && exists w :: Leads(t, nbrs, me, v, rt[v], w) {
      assert Leads(t, nbrs, me, v, rt[v], walks[v]);
    }
    SubsetSize({me}, settled);
  }

  /** The table after the first k own links have been entered. */
  ghost predicate Started(t: Table, nbrs: Neighbors, me: NodeId, names: seq<NodeId>, k: nat, rt: map<NodeId, Route>)
    requires k <= |names|
  {
    me in rt && rt[me] == Route(me, me, me, 0) &&
    (forall i :: 0 <= i < k ==> names[i] in rt) && (me in names[..k] ==> me in nbrs) &&
    (forall v :: v in rt && v != me ==>
      Edge(t, me, v) && v in nbrs && rt[v] == Route(v, v, nbrs[v].interfaceAddr, Weight(t, me, v)))
  }

  lemma {:induction false} StartOne(t: Table, nbrs: Neighbors, me: NodeId, names: seq<NodeId>, k: nat, rt: map<NodeId, Route>,
                                    rt': map<NodeId, Route>)
    requires k < |names| && Started(t, nbrs, me, names, k, rt) && names[k] in nbrs
    requires if names[k] in rt then rt' == rt
             else Edge(t, me, names[k]) &&
                  rt' == rt[names[k] := Route(names[k], names[k], nbrs[names[k]].interfaceAddr, Weight(t, me, names[k]))]
    ensures Started(t, nbrs, me, names, k + 1, rt')
  {
    assert names[..k + 1] == names[..k] + [names[k]];
  }

  /** Each route entered is a one-step walk. */
  lemma {:induction false} StartedIsBacked(t: Table, nbrs: Neighbors, me: NodeId, names: seq<NodeId>, rt: map<NodeId, Route>)
    returns (walks: map<NodeId, seq<NodeId>>)
    requires Started(t, nbrs, me, names, |names|, rt)
    ensures Backed(t, nbrs, me, rt, walks)
  {
    walks := map v | v in rt :: if v == me then [me] else [me, v];
    forall v | v in rt ensures Follows(t, nbrs, me, v, rt[v], walks[v]) {
      if v != me {
        DirectFollows(t, nbrs, me, v, rt[v].cost);
      }
    }
  }

  /** All own links have records when none was missing on the way. */
  lemma {:induction false} StartedIsLinked(t: Table, nbrs: Neighbors, me: NodeId, names: seq<NodeId>, rt: map<NodeId, Route>)
    requires Started(t, nbrs, me, names, |names|, rt)
    ensures forall v :: v in names ==> v in nbrs
  {
    assert names[..|names|] == names;
    forall v | v in names ensures v in nbrs {
      var i :| 0 <= i < |names| && names[i] == v;
      assert names[i] in rt;
    }
  }

  /** u links to each of the names. */
  ghost predicate AllEdges(t: Table, u: NodeId, names: seq<NodeId>) {
    forall k {:trigger Edge(t, u, names[k])} :: 0 <= k < |names| ==> Edge(t, u, names[k])
  }

  lemma {:induction false} LinksAreNamed(t: Table, me: NodeId, names: seq<NodeId>)
    requires if me in t then |names| == |t[me].neighborCosts| && forall i :: 0 <= i < |names| ==> names[i] == t[me].neighborCosts[i].neighbor
             else names == []
    ensures AllEdges(t, me, names) && forall v :: Edge(t, me, v) <==> v in names
  {
    forall v | Edge(t, me, v) ensures v in names {
      var i :| 0 <= i < |names| && t[me].neighborCosts[i].neighbor == v;
      assert names[i] == v;
    }
    forall i | 0 <= i < |names| ensures Edge(t, me, names[i]) {
      assert t[me].neighborCosts[i].neighbor == names[i];
    }
  }

  lemma {:induction false} StartedIsRelaxed(t: Table, nbrs: Neighbors, me: NodeId, names: seq<NodeId>, rt: map<NodeId, Route>)
    requires me in t && |names| == |t[me].neighborCosts|
    requires forall i :: 0 <= i < |names| ==> names[i] == t[me].neighborCosts[i].neighbor
    requires Started(t, nbrs, me, names, |names|, rt)
    ensures Relaxed(t, rt, me)
    ensures CostsAtMost(rt, OutCost(t, {me}))
  {
    OutCostSplit(t, {me}, me);
    forall v | v in rt && v != me ensures rt[v].cost <= TotalCost(t[me].neighborCosts) {
      FirstCostBounded(t[me].neighborCosts, v);
    }
    forall v | Edge(t, me, v) ensures v in rt && rt[v].cost <= Weight(t, me, v) {
      var i :| 0 <= i < |names| && t[me].neighborCosts[i].neighbor == v;
      assert names[i] in rt;
    }
  }

  /** The table after the first k edges out of current have been relaxed. */
  ghost predicate PartlyRelaxed(t: Table, before: map<NodeId, Route>, settled: set<NodeId>, current: NodeId,
                                names: seq<NodeId>, k: nat, bound: nat, rt: map<NodeId, Route>)
    requires k <= |names|
  {
    SettledFirst(rt, settled) && current in settled && settled <= before.Keys &&
    (forall u :: u in settled ==> rt[u] == before[u] && rt[u].cost <= rt[current].cost) &&
    (forall v :: v in before ==> v in rt && rt[v].cost <= before[v].cost) &&
    (forall i :: 0 <= i < k ==> names[i] in rt && rt[names[i]].cost <= rt[current].cost + Weight(t, current, names[i])) &&
    (forall v {:trigger KeptOrRelaxed(t, before, current, rt, v)} :: v in rt ==> KeptOrRelaxed(t, before, current, rt, v)) &&
    CostsAtMost(rt, bound)
  }

  ghost predicate KeptOrRelaxed(t: Table, before: map<NodeId, Route>, current: NodeId, rt: map<NodeId, Route>, v: NodeId)
    requires v in rt && current in rt
  {
    (v in before && rt[v].cost == before[v].cost) ||
    (Edge(t, current, v) && rt[v].cost == rt[current].cost + Weight(t, current, v))
  }

  lemma {:induction false} StartRelaxing(t: Table, rt: map<NodeId, Route>, settled: set<NodeId>, current: NodeId,
                                         names: seq<NodeId>, bound: nat)
    requires SettledFirst(rt, settled) && current in settled && CostsAtMost(rt, bound)
    requires forall u :: u in settled ==> rt[u].cost <= rt[current].cost
    ensures PartlyRelaxed(t, rt, settled, current, names, 0, bound, rt)
  {
  }

  lemma {:induction false} RelaxOne(t: Table, before: map<NodeId, Route>, settled: set<NodeId>, current: NodeId,
                                    names: seq<NodeId>, k: nat, bound: nat, rt: map<NodeId, Route>, r: Route)
    requires k < |names| && PartlyRelaxed(t, before, settled, current, names, k, bound, rt)
    requires Edge(t, current, names[k])
    requires r.cost == rt[current].cost + Weight(t, current, names[k]) <= bound
    requires names[k] in rt ==> r.cost < rt[names[k]].cost
    ensures names[k] !in settled
    ensures PartlyRelaxed(t, before, settled, current, names, k + 1, bound, rt[names[k] := r])
  {
    var rt' := rt[names[k] := r];
    forall v | v in rt' ensures KeptOrRelaxed(t, before, current, rt', v) {
      assert v != names[k] ==> KeptOrRelaxed(t, before, current, rt, v);
    }
  }

  lemma {:induction false} RelaxNone(t: Table, before: map<NodeId, Route>, settled: set<NodeId>, current: NodeId,
                                     names: seq<NodeId>, k: nat, bound: nat, rt: map<NodeId, Route>)
    requires k < |names| && PartlyRelaxed(t, before, settled, current, names, k, bound, rt)
    requires names[k] in rt && rt[names[k]].cost <= rt[current].cost + Weight(t, current, names[k])
    ensures PartlyRelaxed(t, before, settled, current, names, k + 1, bound, rt)
  {
  }

  lemma {:induction false} RelaxedAll(t: Table, before: map<NodeId, Route>, settled: set<NodeId>, current: NodeId,
                                      names: seq<NodeId>, bound: nat, rt: map<NodeId, Route>)
    requires current in t && |names| == |t[current].neighborCosts|
    requires forall i :: 0 <= i < |names| ==> names[i] == t[current].neighborCosts[i].neighbor
    requires PartlyRelaxed(t, before, settled, current, names, |names|, bound, rt)
    ensures Relaxed(t, rt, current)
    ensures PartlyRelaxed(t, before, settled, current, [], 0, bound, rt)
  {
    forall v | Edge(t, current, v) ensures v in rt && rt[v].cost <= rt[current].cost + Weight(t, current, v) {
      var i :| 0 <= i < |names| && t[current].neighborCosts[i].neighbor == v;
      assert names[i] in rt;
    }
  }

  /** The state between two rounds of the main loop. */
  ghost predicate Settling(t: Table, me: NodeId, rt: map<NodeId, Route>, settled: set<NodeId>) {
    me in settled && settled <= t.Keys &&
    SettledFirst(rt, settled) && rt[me].cost == 0 &&
    (forall u :: u in settled ==> Relaxed(t, rt, u)) &&
    CostsAtMost(rt, OutCost(t, settled))
  }

  /** Settling a cheapest unsettled node preserves the loop state. */
  lemma {:induction false} SettleOne(t: Table, me: NodeId, rt: map<NodeId, Route>, settled: set<NodeId>,
                                     c: NodeId, settled': set<NodeId>, bound: nat, rt': map<NodeId, Route>)
    requires Settling(t, me, rt, settled)
    requires c in rt && c in t && c !in settled && settled' == settled + {c} && bound == OutCost(t, settled')
    requires PartlyRelaxed(t, rt, settled', c, [], 0, bound, rt') && Relaxed(t, rt', c)
    ensures Settling(t, me, rt', settled')
  {
    forall u | u in settled ensures Relaxed(t, rt', u) {
      assert Relaxed(t, rt, u);
    }
  }

  /** A cheapest unsettled node can be settled: it is relaxed within bounds. */
  lemma {:induction false} ReadyToSettle(t: Table, me: NodeId, rt: map<NodeId, Route>, settled: set<NodeId>, c: NodeId)
    requires Settling(t, me, rt, settled) && CostsFit(t)
    requires IsNext(rt, settled, c) && c in t
    ensures SettledFirst(rt, settled + {c})
    ensures forall u :: u in settled + {c} ==> rt[u].cost <= rt[c].cost
    ensures rt[c].cost + TotalCost(t[c].neighborCosts) <= OutCost(t, settled + {c}) < INT_MAX
    ensures CostsAtMost(rt, OutCost(t, settled + {c}))
    ensures |settled + {c}| == |settled| + 1
  {
    var s := settled + {c};
    assert forall v :: v in rt && v !in settled && v != c ==> Precedes(rt, c, v);
    OutCostSplit(t, s, c);
    assert s - {c} == settled;
    OutCostMonotone(t, s, t.Keys);
  }

  // ---------- the order of settling ----------

  ghost predicate HasSource(t: Table, settled: set<NodeId>, v: NodeId) {
    exists u :: u in settled && Edge(t, u, v)
  }

  /** Every routed node is named by a settled one. */
  ghost predicate Sourced(t: Table, me: NodeId, rt: map<NodeId, Route>, settled: set<NodeId>) {
    forall v {:trigger HasSource(t, settled, v)} :: v in rt && v != me ==> HasSource(t, settled, v)
  }

  ghost predicate Precedes(rt: map<NodeId, Route>, u: NodeId, v: NodeId)
    requires u in rt && v in rt
  {
    Sooner(rt[u].cost, u, rt[v].cost, v)
  }

  /** Nodes are settled in order. */
  ghost predicate Ordered(rt: map<NodeId, Route>, settled: set<NodeId>) {
    settled <= rt.Keys &&
    forall u, v {:trigger Precedes(rt, u, v)} :: u in settled && v in rt && v !in settled ==> Precedes(rt, u, v)
  }

  ghost predicate SettledLast(rt: map<NodeId, Route>, settled: set<NodeId>, last: NodeId) {
    settled <= rt.Keys && last in settled &&
    forall u {:trigger Precedes(rt, u, last)} :: u in settled && u != last ==> Precedes(rt, u, last)
  }

  ghost predicate OnlyLastDangles(t: Table, settled: set<NodeId>, last: NodeId) {
    forall u {:trigger Dangling(t, u)} :: u in settled && u != last ==> !Dangling(t, u)
  }

  /** What the loop knows beside Settling, for the sake of its lookups. */
  ghost predicate InOrder(t: Table, me: NodeId, rt: map<NodeId, Route>, settled: set<NodeId>, last: NodeId) {
    last in settled && (last == me ==> settled == {me}) &&
    Sourced(t, me, rt, settled) && OnlyLastDangles(t, settled, last) &&
    (PositiveCosts(t) ==> Ordered(rt, settled) && SettledLast(rt, settled, last))
  }

  lemma {:induction false} StartsInOrder(t: Table, me: NodeId, rt: map<NodeId, Route>)
    requires me in rt && rt[me].cost == 0
    requires forall v :: v in rt && v != me ==> Edge(t, me, v) && rt[v].cost == Weight(t, me, v)
    ensures InOrder(t, me, rt, {me}, me)
  {
    forall v | v in rt && v != me ensures HasSource(t, {me}, v) {
      assert me in {me} && Edge(t, me, v);
    }
  }

  /** c is the unsettled node to be settled next. */
  ghost predicate IsNext(rt: map<NodeId, Route>, settled: set<NodeId>, c: NodeId) {
    c in rt && c !in settled &&
    forall v {:trigger Precedes(rt, c, v)} :: v in rt && v !in settled && v != c ==> Precedes(rt, c, v)
  }

  lemma {:induction false} StaysSourced(t: Table, me: NodeId, rt: map<NodeId, Route>, settled: set<NodeId>,
                                        c: NodeId, settled': set<NodeId>, bound: nat, rt': map<NodeId, Route>)
    requires Sourced(t, me, rt, settled) && settled' == settled + {c}
    requires PartlyRelaxed(t, rt, settled', c, [], 0, bound, rt')
    ensures Sourced(t, me, rt', settled')
  {
    forall v | v in rt' && v != me ensures HasSource(t, settled', v) {
      assert KeptOrRelaxed(t, rt, c, rt', v);
      if v in rt {
        assert HasSource(t, settled, v);
        var u :| u in settled && Edge(t, u, v);
        assert u in settled';
      } else {
        assert c in settled' && Edge(t, c, v);
      }
    }
  }

  lemma {:induction false} StaysOrdered(t: Table, rt: map<NodeId, Route>, settled: set<NodeId>,
                                        c: NodeId, settled': set<NodeId>, bound: nat, rt': map<NodeId, Route>)
    requires PositiveCosts(t) && Ordered(rt, settled) && IsNext(rt, settled, c) && settled' == settled + {c}
    requires PartlyRelaxed(t, rt, settled', c, [], 0, bound, rt')
    ensures Ordered(rt', settled') && SettledLast(rt', settled', c)
  {
    forall u, v | u in settled' && v in rt' && v !in settled' ensures Precedes(rt', u, v) {
      assert rt'[u] == rt[u] && rt'[u].cost <= rt'[c].cost;
      assert KeptOrRelaxed(t, rt, c, rt', v);
      if v in rt {
        assert u != c ==> Precedes(rt, u, v);
        assert Precedes(rt, c, v);
      }
    }
    forall u | u in settled' && u != c ensures Precedes(rt', u, c) {
      assert Precedes(rt, u, c);
    }
  }

  lemma {:induction false} StaysTidy(t: Table, rt: map<NodeId, Route>, settled: set<NodeId>, c: NodeId)
    requires rt.Keys <= t.Keys && forall u :: u in settled ==> Relaxed(t, rt, u)
    ensures OnlyLastDangles(t, settled + {c}, c)
  {
    forall u | u in settled ensures !Dangling(t, u) {
      assert Relaxed(t, rt, u);
    }
  }

  lemma {:induction false} StaysInOrder(t: Table, me: NodeId, rt: map<NodeId, Route>, settled: set<NodeId>, last: NodeId,
                                        c: NodeId, settled': set<NodeId>, bound: nat, rt': map<NodeId, Route>)
    requires Settling(t, me, rt, settled) && InOrder(t, me, rt, settled, last)
    requires rt.Keys <= t.Keys && IsNext(rt, settled, c) && settled' == settled + {c}
    requires PartlyRelaxed(t, rt, settled', c, [], 0, bound, rt')
    ensures InOrder(t, me, rt', settled', c)
  {
    StaysSourced(t, me, rt, settled, c, settled', bound, rt');
    StaysTidy(t, rt, settled, c);
    if PositiveCosts(t) {
      StaysOrdered(t, rt, settled, c, settled', bound, rt');
    }
  }

  /** While the search is under way, a walk to a settled node costs at least what the
    * table says, and a walk to any other node comes later than all settled ones. */
  ghost predicate Bounded(t: Table, rt: map<NodeId, Route>, settled: set<NodeId>, p: seq<NodeId>)
    requires p != [] && settled <= rt.Keys
  {
    var x := p[|p| - 1];
    if x in settled then rt[x].cost <= WalkCost(t, p)
    else forall u :: u in settled ==> Sooner(rt[u].cost, u, WalkCost(t, p), x)
  }

  lemma {:induction false} WalkBound(t: Table, me: NodeId, rt: map<NodeId, Route>, settled: set<NodeId>, p: seq<NodeId>)
    requires PositiveCosts(t) && Settling(t, me, rt, settled) && Ordered(rt, settled)
    requires IsWalk(t, p) && p[0] == me
    ensures Bounded(t, rt, settled, p)
  {
    if |p| > 1 {
      var q, y, x := p[..|p| - 1], p[|p| - 2], p[|p| - 1];
      WalkBound(t, me, rt, settled, q);
      assert q[|q| - 1] == y && WalkCost(t, p) == WalkCost(t, q) + Weight(t, y, x) && Edge(t, y, x);
      if y in settled {
        assert Relaxed(t, rt, y);
        assert x in rt && rt[x].cost <= WalkCost(t, p);
        assert x !in settled ==> forall u :: u in settled ==> Precedes(rt, u, x);
      } else if x == y {
        assert Weight(t, y, x) == 0;
      } else {
        assert forall u :: u in settled ==> rt[u].cost < WalkCost(t, p);
      }
    }
  }

  lemma {:induction false} DistanceIs(t: Table, nbrs: Neighbors, me: NodeId, rt: map<NodeId, Route>,
                                      walks: map<NodeId, seq<NodeId>>, settled: set<NodeId>, u: NodeId)
    requires PositiveCosts(t) && Settling(t, me, rt, settled) && Ordered(rt, settled) && u in settled
    requires Backed(t, nbrs, me, rt, walks)
    ensures IsDistance(t, me, u, rt[u].cost)
  {
    assert Follows(t, nbrs, me, u, rt[u], walks[u]);
    forall p | IsWalkFrom(t, me, u, p) ensures rt[u].cost <= WalkCost(t, p) {
      WalkBound(t, me, rt, settled, p);
      assert Bounded(t, rt, settled, p);
    }
  }

  /** With positive costs a settled node that dangles is not the farthest one. */
  lemma {:induction false} NotFarthest(t: Table, nbrs: Neighbors, me: NodeId, rt: map<NodeId, Route>,
                                       walks: map<NodeId, seq<NodeId>>, settled: set<NodeId>, u: NodeId, w: NodeId)
    requires PositiveCosts(t) && Settling(t, me, rt, settled) && Ordered(rt, settled) && Backed(t, nbrs, me, rt, walks)
    requires u in settled && w in t && w !in settled && Reachable(t, me, w)
    ensures !Farthest(t, me, u)
  {
    var d, p := ShortestWalk(t, me, w);
    WalkBound(t, me, rt, settled, p);
    assert Bounded(t, rt, settled, p);
    DistanceIs(t, nbrs, me, rt, walks, settled, u);
    assert !Sooner(d, w, rt[u].cost, u);
  }

  /** A routed node without an entry, while some node is still to be settled. */
  lemma {:induction false} StuckOnName(t: Table, nbrs: Neighbors, me: NodeId, rt: map<NodeId, Route>,
                                       walks: map<NodeId, seq<NodeId>>, settled: set<NodeId>, last: NodeId, v: NodeId)
    requires Settling(t, me, rt, settled) && InOrder(t, me, rt, settled, last) && Backed(t, nbrs, me, rt, walks)
    requires v in rt && v !in t && |settled| < |t|
    ensures Decides(false, t, nbrs, me)
  {
    assert HasSource(t, settled, v);
    var u :| u in settled && Edge(t, u, v);
    assert Dangling(t, u);
    SubsetSize({me}, settled);
    if PositiveCosts(t) && AllReachable(t, me) {
      var w := Unsettled(t, settled);
      NotFarthest(t, nbrs, me, rt, walks, settled, u, w);
    }
  }

  lemma {:induction false} Unsettled(t: Table, settled: set<NodeId>) returns (w: NodeId)
    requires settled <= t.Keys && |settled| < |t|
    ensures w in t && w !in settled
  {
    assert t.Keys == settled + (t.Keys - settled);
    w :| w in t.Keys - settled;
  }

  lemma {:induction false} ShortestWalk(t: Table, u: NodeId, v: NodeId) returns (d: nat, p: seq<NodeId>)
    requires Reachable(t, u, v)
    ensures IsDistance(t, u, v, d) && IsWalkFrom(t, u, v, p) && WalkCost(t, p) == d
  {
    p :| IsWalkFrom(t, u, v, p);
    d, p := CheaperWalk(t, u, v, p);
  }

  lemma {:induction false} CheaperWalk(t: Table, u: NodeId, v: NodeId, q: seq<NodeId>) returns (d: nat, p: seq<NodeId>)
    requires IsWalkFrom(t, u, v, q)
    ensures IsDistance(t, u, v, d) && IsWalkFrom(t, u, v, p) && WalkCost(t, p) == d
    decreases WalkCost(t, q)
  {
    d, p := WalkCost(t, q), q;
    if r :| IsWalkFrom(t, u, v, r) && WalkCost(t, r) < d {
      d, p := CheaperWalk(t, u, v, r);
    }
  }

  /** No open node, while some node is still to be settled. */
  lemma {:induction false} StuckOnNothing(t: Table, nbrs: Neighbors, me: NodeId, rt: map<NodeId, Route>, settled: set<NodeId>)
    requires Settling(t, me, rt, settled) && CostsFit(t)
    requires |settled| < |t| && forall v :: v in rt && v !in settled ==> rt[v].cost >= INT_MAX
    ensures !AllReachable(t, me) && Decides(false, t, nbrs, me)
  {
    OutCostMonotone(t, settled, t.Keys);
    var w := Unsettled(t, settled);
    assert |t| != 1 by { SubsetSize({me}, settled); }
    if Reachable(t, me, w) {
      var p :| IsWalkFrom(t, me, w, p);
      NoBetterWalk(t, me, rt, p);
      assert false;
    }
  }

  /** Every node was settled: all lookups have succeeded. */
  lemma {:induction false} NotStuck(t: Table, nbrs: Neighbors, me: NodeId, rt: map<NodeId, Route>,
                                    walks: map<NodeId, seq<NodeId>>, settled: set<NodeId>, last: NodeId)
    requires Settling(t, me, rt, settled) && InOrder(t, me, rt, settled, last) && Backed(t, nbrs, me, rt, walks)
    requires |settled| == |t| && OwnLinked(t, nbrs, me)
    ensures Decides(true, t, nbrs, me)
  {
    SubsetOfSameSize(settled, t.Keys);
    SettledAreReachable(t, nbrs, me, rt, walks, settled);
    if PositiveCosts(t) {
      LastIsFarthest(t, nbrs, me, rt, walks, settled, last);
    }
    OneMayDangle(t, nbrs, me, settled, last);
  }

  lemma {:induction false} SettledAreReachable(t: Table, nbrs: Neighbors, me: NodeId, rt: map<NodeId, Route>,
                                               walks: map<NodeId, seq<NodeId>>, settled: set<NodeId>)
    requires Backed(t, nbrs, me, rt, walks) && settled == t.Keys && settled <= rt.Keys
    ensures AllReachable(t, me)
  {
    forall v | v in t ensures Reachable(t, me, v) {
      assert Follows(t, nbrs, me, v, rt[v], walks[v]);
    }
  }

  lemma {:induction false} OneMayDangle(t: Table, nbrs: Neighbors, me: NodeId, settled: set<NodeId>, last: NodeId)
    requires OwnLinked(t, nbrs, me) && AllReachable(t, me) && settled == t.Keys && OnlyLastDangles(t, settled, last)
    requires last == me ==> settled == {me}
    requires PositiveCosts(t) ==> Farthest(t, me, last)
    ensures Decides(true, t, nbrs, me)
  {
    forall u | Dangling(t, u) ensures u == last {
    }
    if last == me {
      assert |{me}| == 1;
    }
  }

  lemma {:induction false} LastIsFarthest(t: Table, nbrs: Neighbors, me: NodeId, rt: map<NodeId, Route>,
                                          walks: map<NodeId, seq<NodeId>>, settled: set<NodeId>, last: NodeId)
    requires PositiveCosts(t) && Settling(t, me, rt, settled) && Ordered(rt, settled) && Backed(t, nbrs, me, rt, walks)
    requires settled == t.Keys && SettledLast(rt, settled, last)
    ensures Farthest(t, me, last)
  {
    DistanceIs(t, nbrs, me, rt, walks, settled, last);
    forall w, c: nat, d: nat | w in t && w != last && IsDistance(t, me, w, c) && IsDistance(t, me, last, d)
      ensures Sooner(c, w, d, last)
    {
      DistanceIs(t, nbrs, me, rt, walks, settled, w);
      assert Precedes(rt, w, last);
      assert c == rt[w].cost && d == rt[last].cost;
    }
  }

  /** When all nodes of the table are settled, every routed node that has edges is relaxed. */
  lemma {:induction false} AllSettled(t: Table, me: NodeId, rt: map<NodeId, Route>, settled: set<NodeId>)
    requires Settling(t, me, rt, settled) && |settled| == |t|
    ensures forall u :: u in rt && u in t ==> Relaxed(t, rt, u)
  {
    SubsetOfSameSize(settled, t.Keys);
  }

  /** The two ways out of the loop. */
  lemma {:induction false} Finished(t: Table, nbrs: Neighbors, me: NodeId, rt: map<NodeId, Route>,
                                    walks: map<NodeId, seq<NodeId>>, settled: set<NodeId>, last: NodeId)
    requires Tracing(t, nbrs, me, rt, walks, settled) && |settled| == |t| && OwnLinked(t, nbrs, me)
    requires CostsFit(t) ==> Settling(t, me, rt, settled) && InOrder(t, me, rt, settled, last)
    requires CostsFit(t) ==> Backed(t, nbrs, me, rt, walks)
    ensures Computed(true, t, nbrs, me, rt)
  {
    TracedToTheEnd(t, nbrs, me, rt, walks, settled);
    if CostsFit(t) {
      NotStuck(t, nbrs, me, rt, walks, settled, last);
      AllSettled(t, me, rt, settled);
      TableIsShortest(t, nbrs, me, rt, walks);
    }
  }

  lemma {:induction false} Failed(t: Table, nbrs: Neighbors, me: NodeId, rt: map<NodeId, Route>)
    requires OwnLinked(t, nbrs, me) ==> |t| != 1 && (CostsFit(t) ==> Decides(false, t, nbrs, me))
    ensures Computed(false, t, nbrs, me, rt)
  {
  }

  /** The flag map says which nodes are settled. */
  ghost predicate Flags(t: Table, found: map<NodeId, bool>, settled: set<NodeId>) {
    found.Keys == t.Keys && (forall v :: v in found ==> found[v] == (v in settled))
  }

  lemma {:induction false} FlagOne(t: Table, found: map<NodeId, bool>, settled: set<NodeId>, c: NodeId)
    requires Flags(t, found, settled) && c in t
    ensures Flags(t, found[c := true], settled + {c})
  {
  }

  /** Addition of uint32_t values, which wraps around. */
  function AddUint32(a: Uint32, b: Uint32): Uint32 {
    if a + b < TWO_TO_32 then a + b else a + b - TWO_TO_32
  }
}
