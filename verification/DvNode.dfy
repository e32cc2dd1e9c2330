/** One distance-vector router: its tables, the handlers that update them in place
  * and the Bellman-Ford recomputation.
  */
module DvNode {
  import opened Basics
  import opened DvProtocol

  /** One call of SendDVTableMessage: the vector each neighbour is sent. */
  type Sending = map<NodeId, Vector>

  ghost function Vectors(s: DvState): Sending {
    map n | n in s.costs :: Poisoned(s, n)
  }

  // ---------- the loop over the known destinations ----------

  /** Destinations in done have been recomputed, the others are as before. */
  ghost predicate PartlyRecomputed(s: DvState, names: set<NodeId>, done: set<NodeId>,
                                   dv: Vector, routes: map<NodeId, Route>, changed: bool)
    requires Computable(s.costs, s.neighbors)
  {
    dv.Keys == s.dv.Keys + names && done <= dv.Keys &&
    (forall d :: d in dv ==> dv[d] == if d in done then Distance(s, d) else Value(s.dv, d)) &&
    (forall d :: d in routes <==>
      d in done && (d == s.me || MinCost(s.costs, s.neighbors, d) < MAX_HOPS)) &&
    (forall d :: d in routes ==> RouteOk(s, d, routes[d])) &&
    (changed <==> exists d :: d in done && Distance(s, d) != Value(s.dv, d))
  }

  lemma {:induction false} RecomputeOne(s: DvState, names: set<NodeId>, done: set<NodeId>,
                                        dv: Vector, routes: map<NodeId, Route>, changed: bool,
                                        d: NodeId, routes': map<NodeId, Route>)
    requires Computable(s.costs, s.neighbors)
    requires PartlyRecomputed(s, names, done, dv, routes, changed)
    requires d in dv && d !in done
    requires
      if d == s.me || MinCost(s.costs, s.neighbors, d) < MAX_HOPS
      then d in routes' && RouteOk(s, d, routes'[d]) && routes' == routes[d := routes'[d]]
      else routes' == routes
    ensures PartlyRecomputed(s, names, done + {d}, dv[d := Distance(s, d)], routes',
                             changed || Distance(s, d) != Value(s.dv, d))
  {
    if changed {
      var x :| x in done && Distance(s, x) != Value(s.dv, x);
      assert x in done + {d};
    } else if Distance(s, d) != Value(s.dv, d) {
      assert d in done + {d};
    }
  }

  lemma {:induction false} RecomputedAll(s: DvState, names: set<NodeId>, dv: Vector, routes: map<NodeId, Route>, changed: bool)
    requires Computable(s.costs, s.neighbors)
    requires PartlyRecomputed(s, names, dv.Keys, dv, routes, changed)
    ensures Recomputed(s, names, s.(dv := dv, routes := routes), changed)
  {
  }

  class DvRouter {
    const me: NodeId
    var dv: Vector
    var costs: Vector
    var neighborTable: Neighbors
    var routingTable: map<NodeId, Route>

    ghost function State(): DvState
      reads this
    {
      DvState(me, dv, costs, neighborTable, routingTable)
    }

    constructor (me: NodeId)
      ensures State() == DvState(me, map[me := 0], map[], map[], map[])
    {
      this.me := me;
      dv := map[me := 0];
      costs := map[];
      neighborTable := map[];
      routingTable := map[];
    }

    /** The vector for neighbour n, destination by destination: the one held, with n itself
      * out of reach when the route to n leads to n. */
    method VectorFor(n: NodeId) returns (vector: Vector)
      ensures vector.Keys == dv.Keys && forall d :: d in dv && d != n ==> vector[d] == dv[d]
      ensures n in dv ==>
        vector[n] == if n in routingTable && routingTable[n].nextHop == n then 0x7fff_ffff else dv[n]
      ensures vector == Poisoned(State(), n)
    {
      vector := map[];
      var rest := dv.Keys;
      while rest != {}
        invariant rest <= dv.Keys && vector.Keys == dv.Keys - rest
        invariant forall d :: d in vector ==> vector[d] == Poisoned(State(), n)[d]
        decreases rest
      {
        var dest :| dest in rest;
        rest := rest - {dest};
        if dest == n && dest in routingTable && routingTable[dest].nextHop == dest {
          vector := vector[dest := M_INF];
        } else {
          vector := vector[dest := dv[dest]];
        }
      }
    }

    /** Each neighbour with a cost is sent its own vector. */
    method SendDVTableMessage() returns (sending: Sending)
      ensures sending.Keys == costs.Keys
      ensures forall n :: n in costs ==>
        sending[n].Keys == dv.Keys && forall d :: d in dv && d != n ==> sending[n][d] == dv[d]
      ensures forall n :: n in costs && n in dv ==>
        (sending[n][n] == 0x7fff_ffff <==>
          dv[n] == 0x7fff_ffff || (n in routingTable && routingTable[n].nextHop == n)) &&
        (sending[n][n] != 0x7fff_ffff ==> sending[n][n] == dv[n])
      ensures sending == Vectors(State())
    {
      sending := map[];
      var rest := costs.Keys;
      while rest != {}
        invariant rest <= costs.Keys && sending.Keys == costs.Keys - rest
        invariant forall n :: n in sending ==> sending[n] == Poisoned(State(), n)
        decreases rest
      {
        var n :| n in rest;
        rest := rest - {n};
        var vector := VectorFor(n);
        sending := sending[n := vector];
      }
    }

    /** The inner loop: the least offer any neighbour makes for dest. */
    method BestOffer(dest: NodeId) returns (minCost: Uint32, nextHop: NodeId, updated: bool)
      requires Computable(costs, neighborTable)
      ensures minCost == MinCost(costs, neighborTable, dest)
      ensures updated <==> exists j :: Offers(costs, neighborTable, j, dest)
      ensures minCost < M_INF ==>
        Offers(costs, neighborTable, nextHop, dest) && Offer(costs, neighborTable, nextHop, dest) == minCost
    {
      minCost, nextHop, updated := M_INF, 0, false;
      var rest := costs.Keys;
      while rest != {}
        invariant rest <= costs.Keys && minCost <= M_INF
        invariant forall j :: j !in rest && Offers(costs, neighborTable, j, dest) ==>
          minCost <= Offer(costs, neighborTable, j, dest)
        invariant minCost < M_INF ==>
          Offers(costs, neighborTable, nextHop, dest) && Offer(costs, neighborTable, nextHop, dest) == minCost
        invariant updated <==> exists j :: j !in rest && Offers(costs, neighborTable, j, dest)
        decreases rest
      {
        var j :| j in rest;
        ghost var before := rest;
        rest := rest - {j};
        var entry := neighborTable[j];
        if dest in entry.dv {
          var neighborToDest := entry.dv[dest];
          var current: Uint32;
          if neighborToDest < M_INF - costs[j] {
            current := costs[j] + neighborToDest;
          } else {
            current := neighborToDest;
          }
          assert j !in rest && Offers(costs, neighborTable, j, dest);
          updated := true;
          if current < minCost {
            minCost := current;
            nextHop := j;
          }
        } else {
          assert forall k :: k !in rest && Offers(costs, neighborTable, k, dest) ==> k !in before;
        }
      }
      MinCostUnique(costs, neighborTable, dest, minCost);
    }

    /** Destinations heard of for the first time start out unreachable. */
    method LearnNames(ndv: Vector)
      modifies this`dv
      ensures dv.Keys == old(dv).Keys + ndv.Keys
      ensures forall d :: d in dv ==> dv[d] == Value(old(dv), d)
    {
      var names := ndv.Keys;
      while names != {}
        invariant names <= ndv.Keys && dv.Keys == old(dv).Keys + (ndv.Keys - names)
        invariant forall d :: d in dv ==> dv[d] == Value(old(dv), d)
        decreases names
      {
        var name :| name in names;
        names := names - {name};
        if name !in dv {
          dv := dv[name := M_INF];
        }
      }
    }

    /** The body of the outer loop, for a destination not visited before. */
    method RecomputeDest(dest: NodeId, sendDV: bool, ghost s: DvState) returns (sendDV': bool)
      requires Computable(costs, neighborTable)
      requires s.me == me && s.costs == costs && s.neighbors == neighborTable
      requires dest in dv && dv[dest] == Value(s.dv, dest)
      modifies this`dv, this`routingTable
      ensures dv == old(dv)[dest := Distance(s, dest)]
      ensures sendDV' == (sendDV || Distance(s, dest) != Value(s.dv, dest))
      ensures
        if dest == me || MinCost(costs, neighborTable, dest) < MAX_HOPS
        then dest in routingTable && RouteOk(s, dest, routingTable[dest]) &&
             routingTable == old(routingTable)[dest := routingTable[dest]]
        else routingTable == old(routingTable)
    {
      sendDV' := sendDV;
      if dest == me {
        routingTable := routingTable[dest := Route(dest, dest, LOOPBACK, 0)];
        return;
      }
      var minCost, nextHop, updated := BestOffer(dest);
      if updated && minCost != dv[dest] && minCost <= MAX_HOPS {
        dv := dv[dest := minCost];
        sendDV' := true;
      }
      if minCost < M_INF && minCost < MAX_HOPS {
        routingTable := routingTable[dest := Route(dest, nextHop, neighborTable[nextHop].interfaceAddr, minCost)];
      }
    }

    /** The outer loop: visits every known destination, in any order. */
    method RecomputeAll(ghost s: DvState, ghost names: set<NodeId>) returns (sendDV: bool)
      requires Computable(costs, neighborTable)
      requires s.me == me && s.costs == costs && s.neighbors == neighborTable
      requires PartlyRecomputed(s, names, {}, dv, routingTable, false)
      modifies this`dv, this`routingTable
      ensures PartlyRecomputed(s, names, dv.Keys, dv, routingTable, sendDV)
    {
      sendDV := false;
      var rest := dv.Keys;
      ghost var done: set<NodeId> := {};
      while rest != {}
        invariant rest <= dv.Keys && done == dv.Keys - rest
        invariant PartlyRecomputed(s, names, done, dv, routingTable, sendDV)
        decreases rest
      {
        var dest :| dest in rest;
        rest := rest - {dest};
        ghost var dv0, routes0, sendDV0 := dv, routingTable, sendDV;
        sendDV := RecomputeDest(dest, sendDV, s);
        RecomputeOne(s, names, done, dv0, routes0, sendDV0, dest, routingTable);
        done := done + {dest};
      }
      assert done == dv.Keys;
    }

    method BellmanFord(ndv: Vector) returns (sending: seq<Sending>)
      requires Computable(costs, neighborTable)
      modifies this`dv, this`routingTable
      ensures Recomputed(old(State()), ndv.Keys, State(), sending != [])
      ensures sending != [] ==> sending == [Vectors(State())]
    {
      ghost var s := State();
      routingTable := map[];
      LearnNames(ndv);
      var sendDV := RecomputeAll(s, ndv.Keys);
      RecomputedAll(s, ndv.Keys, dv, routingTable, sendDV);
      assert State() == s.(dv := dv, routes := routingTable);
      sending := [];
      if sendDV {
        var vectors := SendDVTableMessage();
        sending := [vectors];
      }
    }

    method ProcessHelloReq(from: NodeId, interfaceAddr: nat, now: int) returns (sending: seq<Sending>)
      requires Computable(costs, neighborTable)
      modifies this
      ensures from in neighborTable && neighborTable == old(neighborTable)[from := neighborTable[from]]
      ensures neighborTable[from] ==
        if from in old(neighborTable) then
          Neighbor(old(neighborTable)[from].interfaceAddr, now, old(neighborTable)[from].dv)
        else Neighbor(interfaceAddr, now, map[])
      ensures costs ==
        if from in old(neighborTable) || from in old(costs) then old(costs) else old(costs)[from := 1]
      ensures from in old(neighborTable) ==>
        State() == Heard(old(State()), from, interfaceAddr, now) && sending == []
      ensures from !in old(neighborTable) ==>
        var s := Heard(old(State()), from, interfaceAddr, now);
        Computable(s.costs, s.neighbors) && Recomputed(s, {}, State(), |sending| == 2) &&
        (sending == [Vectors(State())] || sending == [Vectors(State()), Vectors(State())])
    {
      if from in neighborTable {
        neighborTable := neighborTable[from := neighborTable[from].(lastUpdated := now)];
        return [];
      }
      EnterNeighbor(from, interfaceAddr, now);
      sending := Introduce();
    }

    /** Recomputes with nothing new to learn of, and sends the vector in any case. */
    method Introduce() returns (sending: seq<Sending>)
      requires Computable(costs, neighborTable)
      modifies this`dv, this`routingTable
      ensures Recomputed(old(State()), {}, State(), |sending| == 2)
      ensures sending == [Vectors(State())] || sending == [Vectors(State()), Vectors(State())]
    {
      var ndv: Vector := map[];
      sending := BellmanFord(ndv);
      assert sending == [] || sending == [Vectors(State())];
      var vectors := SendDVTableMessage();
      assert vectors == Vectors(State());
      sending := sending + [vectors];
    }

    /** A neighbour heard of for the first time has cost 1 and an empty vector. */
    method EnterNeighbor(from: NodeId, interfaceAddr: nat, now: int)
      requires Computable(costs, neighborTable) && from !in neighborTable
      modifies this`dv, this`costs, this`neighborTable
      ensures State() == Heard(old(State()), from, interfaceAddr, now)
      ensures dv == if from in old(dv) then old(dv) else old(dv)[from := 1]
      ensures Computable(costs, neighborTable)
    {
      neighborTable := neighborTable[from := Neighbor(interfaceAddr, now, map[])];
      if from !in dv {
        dv := dv[from := 1];
      }
      if from !in costs {
        costs := costs[from := 1];
      }
    }

    method ProcessDVTableMessage(from: NodeId, vector: Vector, interfaceAddr: nat, now: int) returns (sending: seq<Sending>)
      requires Computable(costs, neighborTable)
      modifies this
      ensures costs == old(costs) && neighborTable == old(neighborTable)[from :=
        if from in old(neighborTable) then
          Neighbor(old(neighborTable)[from].interfaceAddr, old(neighborTable)[from].lastUpdated, vector)
        else Neighbor(interfaceAddr, now, vector)]
      ensures
        var s := Received(old(State()), from, vector, interfaceAddr, now);
        Computable(s.costs, s.neighbors) &&
        Recomputed(s, vector.Keys, State(), sending != []) &&
        (sending != [] ==> sending == [Vectors(State())])
    {
      if from !in neighborTable {
        neighborTable := neighborTable[from := Neighbor(interfaceAddr, now, vector)];
      } else {
        neighborTable := neighborTable[from := neighborTable[from].(dv := vector)];
      }
      sending := BellmanFord(vector);
    }

    method SendHello() returns (hello: Message)
      ensures hello == Hello
    {
      hello := Hello;
    }

    /** The audit greets, and fails when an expired neighbour has no cost: its entry is erased
      * past the end of the map. */
    method AuditHellos(now: int, timeout: int) returns (ok: bool, hello: Message, sending: seq<Sending>)
      requires Computable(costs, neighborTable)
      modifies this
      ensures hello == Hello
      ensures ok ==> forall v :: v in neighborTable <==>
        v in old(neighborTable) && now < old(neighborTable)[v].lastUpdated + timeout
      ensures ok ==> forall v :: v in neighborTable ==> neighborTable[v] == old(neighborTable)[v]
      ensures ok ==> costs == old(costs) - (old(neighborTable).Keys - neighborTable.Keys)
      ensures ok <==> Expired(old(State()), now, timeout) <= old(costs).Keys
      ensures Expired(old(State()), now, timeout) == {} ==> State() == old(State()) && sending == []
      ensures ok && Expired(old(State()), now, timeout) != {} ==>
        var s := Forgotten(old(State()), Expired(old(State()), now, timeout));
        Computable(s.costs, s.neighbors) &&
        Recomputed(s, {}, State(), sending != []) &&
        (sending != [] ==> sending == [Vectors(State())])
    {
      var sendMsg;
      hello := SendHello();
      ok, sendMsg := DropExpired(now, timeout);
      sending := [];
      if ok && sendMsg {
        sending := BellmanFord(dv);
      }
    }

    method DropExpired(now: int, timeout: int) returns (ok: bool, sendMsg: bool)
      modifies this`dv, this`costs, this`neighborTable
      ensures ok <==> Expired(old(State()), now, timeout) <= old(costs).Keys
      ensures ok ==> (sendMsg <==> Expired(old(State()), now, timeout) != {})
      ensures ok ==> State() == Forgotten(old(State()), Expired(old(State()), now, timeout))
      ensures ok ==> forall v :: v in neighborTable <==>
        v in old(neighborTable) && now < old(neighborTable)[v].lastUpdated + timeout
      ensures ok ==> forall v :: v in neighborTable ==> neighborTable[v] == old(neighborTable)[v]
      ensures ok ==> costs == old(costs) - (old(neighborTable).Keys - neighborTable.Keys)
      ensures ok ==> forall v :: v in dv <==> v in old(dv) || v in old(neighborTable).Keys - neighborTable.Keys
      ensures ok ==> forall v :: v in dv ==>
        dv[v] == if v in old(neighborTable).Keys - neighborTable.Keys then 0x7fff_ffff else old(dv)[v]
    {
      ok, sendMsg := true, false;
      ghost var s, gone := State(), {};
      var rest := neighborTable.Keys;
      while rest != {}
        invariant rest <= s.neighbors.Keys && gone == Expired(s, now, timeout) - rest && gone <= s.costs.Keys
        invariant State() == Forgotten(s, gone)
        invariant sendMsg == (gone != {})
        decreases rest
      {
        var v :| v in rest;
        rest := rest - {v};
        assert v in s.neighbors && neighborTable[v] == s.neighbors[v];
        if neighborTable[v].lastUpdated + timeout <= now {
          var removed := Forget(v, s, gone);
          if !removed {
            return false, sendMsg;
          }
          assert Expired(s, now, timeout) - rest == gone + {v};
          gone := gone + {v};
          sendMsg := true;
        }
      }
      assert gone == Expired(s, now, timeout) == s.neighbors.Keys - neighborTable.Keys;
    }

    /** Forgets one silent neighbour. */
    method Forget(v: NodeId, ghost s: DvState, ghost gone: set<NodeId>) returns (ok: bool)
      requires State() == Forgotten(s, gone) && v !in gone
      modifies this`dv, this`costs, this`neighborTable
      ensures ok <==> v in s.costs
      ensures ok ==> State() == Forgotten(s, gone + {v})
    {
      ForgetOneMore(s, gone, v);
      dv := dv[v := M_INF];
      if v !in costs {
        return false;
      }
      costs := costs - {v};
      neighborTable := neighborTable - {v};
      ok := true;
    }
  }

  lemma {:induction false} ForgetOneMore(s: DvState, gone: set<NodeId>, v: NodeId)
    ensures
      var f := Forgotten(s, gone);
      Forgotten(s, gone + {v}) == f.(dv := f.dv[v := M_INF], costs := f.costs - {v}, neighbors := f.neighbors - {v})
  {
    assert s.dv.Keys + (gone + {v}) == s.dv.Keys + gone + {v};
  }
}
