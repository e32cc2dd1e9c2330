/** What each distance-vector message handler does to the tables of one router. */
module DvProtocol {
  import opened Basics

  const M_INF := 0x7fff_ffff
  const MAX_HOPS := 16
  const LOOPBACK := 0x7f00_0001

  /** Costs by destination. */
  type Vector = map<NodeId, Uint32>

  datatype Neighbor = Neighbor(interfaceAddr: nat, lastUpdated: int, dv: Vector)

  type Neighbors = map<NodeId, Neighbor>

  datatype Route = Route(dest: NodeId, nextHop: NodeId, interfaceAddr: nat, cost: Uint32)

  datatype DvState = DvState(me: NodeId, dv: Vector, costs: Vector, neighbors: Neighbors, routes: map<NodeId, Route>)

  /** A HELLO_REQ or a DV_TABLE_MSG. */
  datatype Message = Hello | Table(vector: Vector)

  /** A destination that is missing from a vector is as good as unreachable. */
  function Value(v: Vector, d: NodeId): Uint32 {
    if d in v then v[d] else M_INF
  }

  // ---------- the recomputation ----------

  /** The original's guarded addition. */
  function SatAdd(c: Uint32, d: Uint32): Uint32
    requires c <= M_INF
  {
    if d < M_INF - c then c + d else d
  }

  /** What every recomputation needs: a record for each neighbour that has a cost. */
  predicate Computable(costs: Vector, nbrs: Neighbors) {
    costs.Keys <= nbrs.Keys && forall j :: j in costs ==> costs[j] <= M_INF
  }

  predicate Offers(costs: Vector, nbrs: Neighbors, j: NodeId, d: NodeId) {
    j in costs && j in nbrs && d in nbrs[j].dv
  }

  /** The cost of reaching d through neighbour j. */
  function Offer(costs: Vector, nbrs: Neighbors, j: NodeId, d: NodeId): Uint32
    requires Computable(costs, nbrs) && Offers(costs, nbrs, j, d)
  {
    SatAdd(costs[j], nbrs[j].dv[d])
  }

  /** c is the least offer, or M_INF when there is none below it. */
  ghost predicate IsMinCost(costs: Vector, nbrs: Neighbors, d: NodeId, c: Uint32)
    requires Computable(costs, nbrs)
  {
    c <= M_INF &&
    (forall j :: Offers(costs, nbrs, j, d) ==> c <= Offer(costs, nbrs, j, d)) &&
    (c == M_INF || exists j :: Offers(costs, nbrs, j, d) && c == Offer(costs, nbrs, j, d))
  }

  lemma {:induction false} MinCostExists(costs: Vector, nbrs: Neighbors, d: NodeId, js: set<NodeId>) returns (c: Uint32)
    requires Computable(costs, nbrs)
    ensures c <= M_INF
    ensures forall j :: j in js && Offers(costs, nbrs, j, d) ==> c <= Offer(costs, nbrs, j, d)
    ensures c == M_INF || exists j :: Offers(costs, nbrs, j, d) && c == Offer(costs, nbrs, j, d)
  {
    if js == {} {
      c := M_INF;
    } else {
      var j :| j in js;
      c := MinCostExists(costs, nbrs, d, js - {j});
      if Offers(costs, nbrs, j, d) && Offer(costs, nbrs, j, d) < c {
        c := Offer(costs, nbrs, j, d);
      }
    }
  }

  ghost function MinCost(costs: Vector, nbrs: Neighbors, d: NodeId): (c: Uint32)
    requires Computable(costs, nbrs)
    ensures IsMinCost(costs, nbrs, d, c)
  {
    assert exists c :: IsMinCost(costs, nbrs, d, c) by {
      var c := MinCostExists(costs, nbrs, d, costs.Keys);
      assert IsMinCost(costs, nbrs, d, c);
    }
    var c :| IsMinCost(costs, nbrs, d, c);
    c
  }

  lemma {:induction false} MinCostUnique(costs: Vector, nbrs: Neighbors, d: NodeId, c: Uint32)
    requires Computable(costs, nbrs) && IsMinCost(costs, nbrs, d, c)
    ensures c == MinCost(costs, nbrs, d)
  {
  }

  /** The route to d: least cost, through any neighbour that attains it. */
  ghost predicate RouteOk(s: DvState, d: NodeId, r: Route)
    requires Computable(s.costs, s.neighbors)
  {
    r.dest == d &&
    if d == s.me then r == Route(d, d, LOOPBACK, 0)
    else
      Offers(s.costs, s.neighbors, r.nextHop, d) &&
      r.cost == MinCost(s.costs, s.neighbors, d) == Offer(s.costs, s.neighbors, r.nextHop, d) &&
      r.interfaceAddr == s.neighbors[r.nextHop].interfaceAddr
  }

  /** A minimum above 16 does not overwrite the distance held so far. */
  ghost function Distance(s: DvState, d: NodeId): Uint32
    requires Computable(s.costs, s.neighbors)
  {
    if d != s.me && MinCost(s.costs, s.neighbors, d) <= MAX_HOPS then MinCost(s.costs, s.neighbors, d)
    else Value(s.dv, d)
  }

  /** BellmanFord takes s to s', having learnt of the destinations in names; it
    * reports whether a distance changed. Ties between neighbours go either way. */
  ghost predicate Recomputed(s: DvState, names: set<NodeId>, s': DvState, changed: bool)
    requires Computable(s.costs, s.neighbors)
  {
    s' == s.(dv := s'.dv, routes := s'.routes) &&
    s'.dv.Keys == s.dv.Keys + names &&
    (forall d :: d in s'.dv ==> s'.dv[d] == Distance(s, d)) &&
    (forall d :: d in s'.routes <==>
      d in s'.dv && (d == s.me || MinCost(s.costs, s.neighbors, d) < MAX_HOPS)) &&
    (forall d :: d in s'.routes ==> RouteOk(s, d, s'.routes[d])) &&
    (changed <==> exists d :: d in s'.dv && s'.dv[d] != Value(s.dv, d))
  }

  /** The least offer in numbers: it is at most every sum that stays below 2^31 - 1, and at most
    * the neighbour's own distance where the sum does not. */
  lemma {:induction false} MinCostInNumbers(costs: Vector, nbrs: Neighbors, d: NodeId, j: NodeId)
    requires Computable(costs, nbrs) && j in costs && d in nbrs[j].dv
    ensures
      var c, far := MinCost(costs, nbrs, d), nbrs[j].dv[d];
      c <= 0x7fff_ffff && c <= if far < 0x7fff_ffff - costs[j] then costs[j] + far else far
  {
    assert Offers(costs, nbrs, j, d);
  }

  /** The recomputation in numbers: a least offer of at most 16 hops is taken, a larger one
    * leaves the distance held before, and routes exist below 16 hops. */
  lemma {:induction false} RecomputedInNumbers(s: DvState, names: set<NodeId>, s': DvState, changed: bool, d: NodeId)
    requires Computable(s.costs, s.neighbors) && Recomputed(s, names, s', changed) && d in s'.dv
    ensures
      var c := MinCost(s.costs, s.neighbors, d);
      s'.dv[d] == (if d != s.me && c <= 16 then c else if d in s.dv then s.dv[d] else 0x7fff_ffff) &&
      (d in s'.routes <==> d == s.me || c < 16) &&
      (d == s.me ==> s'.routes[d] == Route(d, d, 0x7f00_0001, 0)) &&
      (d in s'.routes && d != s.me ==>
        var hop := s'.routes[d].nextHop;
        s'.routes[d].cost == c && hop in s.neighbors && s'.routes[d].interfaceAddr == s.neighbors[hop].interfaceAddr)
  {
    if d in s'.routes {
      assert RouteOk(s, d, s'.routes[d]);
    }
  }

  /** The vector sent to neighbour n, with poisoned reverse. */
  function Poisoned(s: DvState, n: NodeId): Vector {
    map d | d in s.dv ::
      if d == n && d in s.routes && s.routes[d].nextHop == n then M_INF else s.dv[d]
  }

  // ---------- the tables between receiving a message and recomputing ----------

  function Insert(v: Vector, d: NodeId, x: Uint32): Vector {
    if d in v then v else v[d := x]
  }

  function Heard(s: DvState, from: NodeId, interfaceAddr: nat, now: int): DvState {
    if from in s.neighbors then
      s.(neighbors := s.neighbors[from := s.neighbors[from].(lastUpdated := now)])
    else
      s.(neighbors := s.neighbors[from := Neighbor(interfaceAddr, now, map[])],
         dv := Insert(s.dv, from, 1), costs := Insert(s.costs, from, 1))
  }

  function Received(s: DvState, from: NodeId, vector: Vector, interfaceAddr: nat, now: int): DvState {
    s.(neighbors := s.neighbors[from :=
      if from in s.neighbors then s.neighbors[from].(dv := vector) else Neighbor(interfaceAddr, now, vector)])
  }

  function Expired(s: DvState, now: int, timeout: int): set<NodeId> {
    set v | v in s.neighbors && s.neighbors[v].lastUpdated + timeout <= now
  }

  function Forgotten(s: DvState, gone: set<NodeId>): DvState {
    s.(neighbors := s.neighbors - gone, costs := s.costs - gone,
       dv := map d | d in s.dv.Keys + gone :: if d in gone then M_INF else s.dv[d])
  }
}
