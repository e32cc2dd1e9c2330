/** One link-state router: its tables, the handlers that update them in place and
  * the shortest-path computation that rebuilds its routing table.
  */
module LsNode {
  import opened Basics
  import opened LsTable
  import opened LsProtocol
  import opened LsDijkstra

  class LsRouter {
    const me: NodeId
    var lsTable: Table
    var neighborTable: Neighbors
    var routingTable: map<NodeId, Route>
    var counter: Uint32

    ghost function State(): LsState
      reads this
    {
      LsState(me, lsTable, neighborTable, counter, routingTable)
    }

    constructor (me: NodeId, counter: Uint32)
      ensures State() == LsState(me, map[], map[], counter, map[])
    {
      this.me := me;
      this.counter := counter;
      lsTable := map[];
      neighborTable := map[];
      routingTable := map[];
    }

    method GetNextSequenceNumber() returns (n: Uint32)
      modifies this`counter
      ensures n == old(counter) && counter == NextCounter(n) == (n + 1) % 0x1_0000_0000
    {
      n := counter;
      counter := NextCounter(counter);
    }

    /** Broadcasts a HELLO_REQ under a fresh sequence number. */
    method SendHello() returns (sequenceNumber: Uint32)
      modifies this`counter
      ensures sequenceNumber == old(counter) && counter == NextCounter(sequenceNumber)
    {
      sequenceNumber := GetNextSequenceNumber();
    }

    /** Advertises the neighbour table under a fresh sequence number. */
    method SendLSTableMessage() returns (m: Message)
      modifies this`counter
      ensures m.originator == me && m.sequenceNumber == old(counter) && m.ttl == MAX_TTL == 16
      ensures Advertises(m.neighborCosts, neighborTable)
      ensures counter == NextCounter(old(counter))
    {
      var sequenceNumber := GetNextSequenceNumber();
      var costs: seq<LinkCost> := [];
      var rest := neighborTable.Keys;
      while rest != {}
        invariant rest <= neighborTable.Keys
        invariant NamesExactly(costs, neighborTable.Keys - rest)
        invariant UnitCosts(costs)
        decreases rest
      {
        var v :| v in rest;
        rest := rest - {v};
        forall x ensures Names(costs + [LinkCost(v, 1)], x) <==> x in neighborTable.Keys - rest {
          NamesSnoc(costs, LinkCost(v, 1), x);
        }
        assert !Names(costs, v);
        costs := costs + [LinkCost(v, 1)];
      }
      m := Message(me, sequenceNumber, MAX_TTL, costs);
    }

    /** A HELLO_REQ: afterwards the sender is a neighbour heard of now. The result says
      * whether every lookup found its entry; if one did not, nothing more is known of the
      * routes, and nothing is sent. */
    method ProcessHelloReq(from: NodeId, interfaceAddr: nat, sequenceNumber: Uint32, now: int)
      returns (ok: bool, out: Option<Message>)
      modifies this
      ensures from in neighborTable && neighborTable[from].lastUpdated == now
      ensures neighborTable[from].interfaceAddr ==
        if from in old(neighborTable) then old(neighborTable)[from].interfaceAddr else interfaceAddr
      ensures neighborTable == old(neighborTable)[from := neighborTable[from]]
      ensures
        if from in old(neighborTable) then lsTable == old(lsTable)
        else
          me in lsTable && lsTable == old(lsTable)[me := lsTable[me]] &&
          if me in old(lsTable) then
            lsTable[me].neighborCosts == old(lsTable)[me].neighborCosts + [LinkCost(from, 1)] &&
            lsTable[me].sequenceNumber == old(lsTable)[me].sequenceNumber
          else lsTable[me].neighborCosts == [LinkCost(from, 1)] && lsTable[me].sequenceNumber == sequenceNumber
      ensures
        var s := Heard(old(State()), from, interfaceAddr, sequenceNumber, now);
        if from in old(neighborTable) then ok && out.None? && State() == s
        else
          Computed(ok, s.table, s.neighbors, me, routingTable) && (ok <==> out.Some?) &&
          State() == s.(routes := routingTable, counter := if ok then NextCounter(s.counter) else s.counter)
      ensures out.Some? ==>
        out.value.originator == me && out.value.sequenceNumber == old(counter) && out.value.ttl == MAX_TTL &&
        Advertises(out.value.neighborCosts, neighborTable)
    {
      if from in neighborTable {
        neighborTable := neighborTable[from := neighborTable[from].(lastUpdated := now)];
        return true, None;
      }
      EnterNeighbor(from, interfaceAddr, sequenceNumber, now);
      ok := Dijkstra();
      if !ok {
        return false, None;
      }
      var m := SendLSTableMessage();
      out := Some(m);
    }

    /** A new neighbour enters the neighbour table and the own entry. */
    method EnterNeighbor(from: NodeId, interfaceAddr: nat, sequenceNumber: Uint32, now: int)
      requires from !in neighborTable
      modifies this`neighborTable, this`lsTable
      ensures State() == Heard(old(State()), from, interfaceAddr, sequenceNumber, now)
    {
      neighborTable := neighborTable[from := Neighbor(interfaceAddr, now)];
      if me in lsTable {
        var own := lsTable[me];
        lsTable := lsTable[me := own.(neighborCosts := own.neighborCosts + [LinkCost(from, 1)])];
      } else {
        lsTable := lsTable[me := Entry([LinkCost(from, 1)], sequenceNumber)];
      }
    }

    /** An LS_TABLE_MSG; ok as above. */
    method ProcessLSTableMessage(m: Message) returns (ok: bool, out: Option<Message>)
      modifies this`lsTable, this`routingTable
      ensures State() == Received(old(State()), m).(routes := routingTable)
      ensures
        if Newer(old(State()), m) then
          Computed(ok, lsTable, neighborTable, me, routingTable)
        else ok && routingTable == old(routingTable)
      ensures lsTable ==
        if m.originator in old(lsTable) && m.sequenceNumber <= old(lsTable)[m.originator].sequenceNumber then old(lsTable)
        else old(lsTable)[m.originator := Entry(m.neighborCosts, m.sequenceNumber)]
      ensures out == if Newer(old(State()), m) && ok then Some(m.(ttl := NextTtl(m.ttl))) else None
      ensures out.Some? ==> out.value.ttl == (m.ttl + 255) % 256
    {
      if m.originator in lsTable && m.sequenceNumber <= lsTable[m.originator].sequenceNumber {
        return true, None;
      }
      var costs := [];
      for i := 0 to |m.neighborCosts|
        invariant costs == m.neighborCosts[..i]
      {
        costs := costs + [m.neighborCosts[i]];
      }
      assert costs == m.neighborCosts;
      lsTable := lsTable[m.originator := Entry(costs, m.sequenceNumber)];
      ok := Dijkstra();
      out := if ok then Some(m.(ttl := NextTtl(m.ttl))) else None;
    }

    /** Drops the first pair that names node. */
    static method RemoveLSTableLink(node: NodeId, costs: seq<LinkCost>) returns (costs': seq<LinkCost>)
      ensures costs' == Without(costs, {node})
    {
      for i := 0 to |costs|
        invariant forall k :: 0 <= k < i ==> costs[k].neighbor != node
      {
        if costs[i].neighbor == node {
          WithoutAt(costs, node, i);
          return costs[..i] + costs[i + 1..];
        }
      }
      WithoutAt(costs, node, |costs|);
      costs' := costs;
    }

    /** Removes one silent neighbour and the links between it and this router. */
    method DropNeighbor(v: NodeId, ghost t: Table, ghost gone: set<NodeId>) returns (ok: bool)
      requires v != me && v in neighborTable && v !in gone
      requires lsTable == Unlinked(t, me, gone)
      modifies this`lsTable, this`neighborTable
      ensures ok <==> me in t && v in t
      ensures ok ==> lsTable == Unlinked(t, me, gone + {v}) && neighborTable == old(neighborTable) - {v}
    {
      if me !in lsTable || v !in lsTable {
        return false;
      }
      var own := RemoveLSTableLink(v, lsTable[me].neighborCosts);
      var other := RemoveLSTableLink(me, lsTable[v].neighborCosts);
      UnlinkedOneMore(t, me, gone, v);
      lsTable := lsTable[me := lsTable[me].(neighborCosts := own)];
      lsTable := lsTable[v := lsTable[v].(neighborCosts := other)];
      neighborTable := neighborTable - {v};
      ok := true;
    }

    /** Visits the neighbour table and removes every expired neighbour. */
    method DropExpired(now: int, timeout: int) returns (ok: bool, sendMsg: bool)
      requires me !in neighborTable
      modifies this`lsTable, this`neighborTable
      ensures ok <==> Removable(old(State()), Expired(old(State()), now, timeout))
      ensures ok ==> (sendMsg <==> Expired(old(State()), now, timeout) != {})
      ensures ok ==> State() == Audited(old(State()), now, timeout)
    {
      ok, sendMsg := true, false;
      ghost var s, gone := State(), {};
      UnlinkedNone(lsTable, me);
      var rest := neighborTable.Keys;
      while rest != {}
        invariant rest <= s.neighbors.Keys && gone == Expired(s, now, timeout) - rest
        invariant neighborTable == s.neighbors - gone
        invariant lsTable == Unlinked(s.table, me, gone)
        invariant sendMsg == (gone != {}) && Removable(s, gone)
        decreases rest
      {
        var v :| v in rest;
        rest := rest - {v};
        if neighborTable[v].lastUpdated + timeout <= now {
          var found := DropNeighbor(v, s.table, gone);
          if !found {
            return false, sendMsg;
          }
          gone := gone + {v};
          sendMsg := true;
        }
      }
      assert gone == Expired(s, now, timeout);
    }

    /** Forgets the neighbours not heard of within the timeout, and the links to them;
      * ok as above. */
    method AuditHellos(now: int, timeout: int) returns (ok: bool, hello: Uint32, out: Option<Message>)
      requires me !in neighborTable
      modifies this
      ensures
        var s, c, gone := Audited(old(State()), now, timeout), NextCounter(old(counter)), Expired(old(State()), now, timeout);
        if gone == {} then ok && out.None? && State() == s.(counter := c)
        else if !Removable(old(State()), gone) then !ok && out.None?
        else
          Computed(ok, s.table, s.neighbors, me, routingTable) && (ok <==> out.Some?) &&
          State() == s.(routes := routingTable, counter := if ok then NextCounter(c) else c)
      ensures hello == old(counter)
      ensures ok ==> forall v :: v in neighborTable <==>
        v in old(neighborTable) && now < old(neighborTable)[v].lastUpdated + timeout
      ensures ok ==> forall v :: v in neighborTable ==> neighborTable[v] == old(neighborTable)[v]
      ensures ok ==> LinksCut(old(lsTable), me, old(neighborTable).Keys - neighborTable.Keys, lsTable)
      ensures out.Some? ==>
        out.value.originator == me && out.value.sequenceNumber == NextCounter(old(counter)) && out.value.ttl == MAX_TTL &&
        Advertises(out.value.neighborCosts, neighborTable)
    {
      hello := SendHello();
      var sendMsg;
      CutByAudit(State(), now, timeout);
      ok, sendMsg := DropExpired(now, timeout);
      out := None;
      if ok && sendMsg {
        ok := Dijkstra();
        if ok {
          var m := SendLSTableMessage();
          out := Some(m);
        }
      }
    }

    /** A route is found for exactly the nodes that can be reached, and it starts a
      * cheapest walk, provided Dijkstra has run on the present tables. */
    method SearchTable(dest: NodeId) returns (entry: Option<Route>)
      ensures entry.Some? <==> dest in routingTable
      ensures entry.Some? ==> entry.value == routingTable[dest]
      ensures ShortestRoutes(lsTable, neighborTable, me, routingTable) ==>
        (entry.Some? <==> Reachable(lsTable, me, dest)) &&
        (entry.Some? ==>
          IsDistance(lsTable, me, dest, entry.value.cost) &&
          exists w :: Follows(lsTable, neighborTable, me, dest, entry.value, w))
    {
      entry := if dest in routingTable then Some(routingTable[dest]) else None;
    }

    /** Where RouteInput forwards a packet for another router: on a cheapest walk, to a live
      * neighbour over the interface that neighbour was heard on. */
    method RouteInput(dest: NodeId) returns (gateway: Option<(NodeId, nat)>)
      requires dest != me
      ensures gateway.Some? <==> dest in routingTable
      ensures ShortestRoutes(lsTable, neighborTable, me, routingTable) ==>
        (gateway.Some? <==> Reachable(lsTable, me, dest)) &&
        (gateway.Some? ==>
          gateway.value.0 in neighborTable && gateway.value.1 == neighborTable[gateway.value.0].interfaceAddr &&
          exists w :: IsWalkFrom(lsTable, me, dest, w) && |w| >= 2 && w[1] == gateway.value.0 &&
                      IsDistance(lsTable, me, dest, WalkCost(lsTable, w)))
    {
      var entry := SearchTable(dest);
      if entry.None? {
        return None;
      }
      gateway := Some((entry.value.nextHop, entry.value.interfaceAddr));
      if ShortestRoutes(lsTable, neighborTable, me, routingTable) {
        ghost var w :| Follows(lsTable, neighborTable, me, dest, entry.value, w);
        assert IsWalkFrom(lsTable, me, dest, w);
      }
    }

    method GetNeighbors(node: NodeId) returns (neighbors: seq<NodeId>)
      ensures node !in lsTable ==> neighbors == []
      ensures node in lsTable ==>
        |neighbors| == |lsTable[node].neighborCosts| &&
        forall i :: 0 <= i < |neighbors| ==> neighbors[i] == lsTable[node].neighborCosts[i].neighbor
    {
      neighbors := [];
      if node !in lsTable {
        return;
      }
      var pairs := lsTable[node].neighborCosts;
      for i := 0 to |pairs|
        invariant |neighbors| == i
        invariant forall k :: 0 <= k < i ==> neighbors[k] == pairs[k].neighbor
      {
        neighbors := neighbors + [pairs[i].neighbor];
      }
    }

    method DistanceToNeighbor(node1: NodeId, node2: NodeId) returns (d: Uint32)
      requires node1 == node2 || node1 in lsTable
      ensures d == Weight(lsTable, node1, node2)
      ensures node1 == node2 ==> d == 0
      ensures node1 != node2 ==>
        var pairs := lsTable[node1].neighborCosts;
        if exists i :: 0 <= i < |pairs| && pairs[i].neighbor == node2 then
          exists i :: 0 <= i < |pairs| && pairs[i] == LinkCost(node2, d) && forall k :: 0 <= k < i ==> pairs[k].neighbor != node2
        else d == 0x7fff_ffff
    {
      if node1 == node2 {
        return 0;
      }
      var pairs := lsTable[node1].neighborCosts;
      for i := 0 to |pairs|
        invariant forall k :: 0 <= k < i ==> pairs[k].neighbor != node2
      {
        if pairs[i].neighbor == node2 {
          FirstCostAt(pairs, node2, i);
          return pairs[i].cost;
        }
      }
      FirstCostAt(pairs, node2, |pairs|);
      return INT_MAX;
    }

    /** The unsettled routed node of least cost, the first by name among equals, if one is
      * nearer than INT_MAX. Fails when a routed node has no flag. */
    method GetMinCostNode(leastCostFound: map<NodeId, bool>) returns (looked: bool, closest: Option<NodeId>)
      ensures looked <==> routingTable.Keys <= leastCostFound.Keys
      ensures looked && closest.None? ==>
        forall v :: v in routingTable && !leastCostFound[v] ==> routingTable[v].cost >= INT_MAX
      ensures looked && closest.Some? ==>
        closest.value in routingTable && !leastCostFound[closest.value] &&
        routingTable[closest.value].cost < INT_MAX &&
        forall v :: v in routingTable && !leastCostFound[v] && v != closest.value ==>
          Sooner(routingTable[closest.value].cost, closest.value, routingTable[v].cost, v)
      ensures looked && closest.Some? ==>
        forall v :: v in routingTable && !leastCostFound[v] && v != closest.value ==>
          routingTable[closest.value].cost < routingTable[v].cost ||
          (routingTable[closest.value].cost == routingTable[v].cost && closest.value < v)
    {
      var min: Uint32 := INT_MAX;
      closest := None;
      var rest := routingTable.Keys;
      while rest != {}
        invariant rest <= routingTable.Keys && routingTable.Keys - rest <= leastCostFound.Keys
        invariant forall v, w :: v in routingTable && v !in rest && w in rest ==> v < w
        invariant closest.None? ==> min == INT_MAX
        invariant closest.Some? ==>
          closest.value in routingTable && closest.value !in rest && !leastCostFound[closest.value] &&
          routingTable[closest.value].cost == min < INT_MAX
        invariant forall v :: v in routingTable && v !in rest && !leastCostFound[v] && closest != Some(v) ==>
          if closest.None? then routingTable[v].cost >= INT_MAX
          else Sooner(min, closest.value, routingTable[v].cost, v)
        decreases rest
      {
        var node := First(rest);
        if node !in leastCostFound {
          return false, None;
        }
        rest := rest - {node};
        if !leastCostFound[node] {
          var cost := routingTable[node].cost;
          if cost < min {
            min := cost;
            closest := Some(node);
          }
        }
      }
      looked := true;
    }

    /** The first name in order. */
    static method First(s: set<NodeId>) returns (first: NodeId)
      requires s != {}
      ensures first in s && forall x :: x in s ==> first <= x
    {
      first :| first in s;
      var rest := s - {first};
      while rest != {}
        invariant first in s && rest <= s && forall x :: x in s && x !in rest ==> first <= x
        decreases rest
      {
        var x :| x in rest;
        rest := rest - {x};
        if x < first {
          first := x;
        }
      }
    }

    /** The initial table: the node itself and its direct links. Fails when a link has no
      * neighbour record. */
    method StartFromNeighbors() returns (ok: bool, ghost walks: map<NodeId, seq<NodeId>>)
      modifies this`routingTable
      ensures ok <==> forall v :: Edge(lsTable, me, v) ==> v in neighborTable
      ensures ok && me in lsTable ==>
        Tracing(lsTable, neighborTable, me, routingTable, walks, {me}) &&
        Backed(lsTable, neighborTable, me, routingTable, walks) && Relaxed(lsTable, routingTable, me) &&
        CostsAtMost(routingTable, OutCost(lsTable, {me}))
      ensures ok ==> forall v :: v in routingTable && v != me ==>
        Edge(lsTable, me, v) && routingTable[v].cost == Weight(lsTable, me, v)
    {
      var neighbors := GetNeighbors(me);
      LinksAreNamed(lsTable, me, neighbors);
      ok := EnterLinks(neighbors);
      if ok {
        StartedIsLinked(lsTable, neighborTable, me, neighbors, routingTable);
        walks := StartedIsBacked(lsTable, neighborTable, me, neighbors, routingTable);
        if me in lsTable {
          StartedIsRelaxed(lsTable, neighborTable, me, neighbors, routingTable);
        }
      } else {
        walks := map[];
      }
    }

    method EnterLinks(names: seq<NodeId>) returns (ok: bool)
      requires AllEdges(lsTable, me, names)
      modifies this`routingTable
      ensures ok ==> Started(lsTable, neighborTable, me, names, |names|, routingTable)
      ensures !ok ==> exists v :: v in names && v !in neighborTable
    {
      routingTable := map[me := Route(me, me, me, 0)];
      for i := 0 to |names|
        invariant Started(lsTable, neighborTable, me, names, i, routingTable)
      {
        var nbr := names[i];
        if nbr !in neighborTable {
          return false;
        }
        assert Edge(lsTable, me, names[i]);
        var cost := DistanceToNeighbor(me, nbr);
        ghost var before := routingTable;
        if nbr !in routingTable {
          routingTable := routingTable[nbr := Route(nbr, nbr, neighborTable[nbr].interfaceAddr, cost)];
        }
        StartOne(lsTable, neighborTable, me, names, i, before, routingTable);
      }
      ok := true;
    }

    /** Relaxes one edge: the route to name is replaced only by one whose sum, wrapped around
      * at 32 bits, is strictly cheaper. The sum is the true one when it is exact. */
    method RelaxEdge(current: NodeId, name: NodeId, ghost walks: map<NodeId, seq<NodeId>>, ghost exact: bool)
      returns (ghost walks': map<NodeId, seq<NodeId>>)
      requires Traced(lsTable, neighborTable, me, routingTable, walks)
      requires me in routingTable && routingTable[me].cost == 0
      requires current in routingTable && current != me && Edge(lsTable, current, name)
      requires exact ==> Backed(lsTable, neighborTable, me, routingTable, walks)
      requires exact ==> routingTable[current].cost + Weight(lsTable, current, name) < INT_MAX
      modifies this`routingTable
      ensures Traced(lsTable, neighborTable, me, routingTable, walks')
      ensures exact ==> Backed(lsTable, neighborTable, me, routingTable, walks')
      ensures
        var before := old(routingTable);
        var newCost := AddUint32(before[current].cost, Weight(lsTable, current, name));
        if newCost >= (if name in before then before[name].cost else INT_MAX) then routingTable == before
        else name in routingTable && routingTable == before[name := routingTable[name]] &&
             routingTable[name].cost == newCost && routingTable[name].nextHop == before[current].nextHop
    {
      walks' := walks;
      var oldCost: Uint32 := if name in routingTable then routingTable[name].cost else INT_MAX;
      var distance := DistanceToNeighbor(current, name);
      var newCost := AddUint32(routingTable[current].cost, distance);
      if newCost < oldCost {
        var nextHop := routingTable[current].nextHop;
        ghost var w := walks[current];
        ExtendLeads(lsTable, neighborTable, me, current, routingTable[current], w, name);
        var r := Route(name, nextHop, neighborTable[nextHop].interfaceAddr, newCost);
        TracedUpdate(lsTable, neighborTable, me, routingTable, walks, name, r, w + [name]);
        if exact {
          ExtendFollows(lsTable, neighborTable, me, current, routingTable[current], w, name, newCost);
          BackedUpdate(lsTable, neighborTable, me, routingTable, walks, name, r, w + [name]);
        }
        walks' := walks[name := w + [name]];
        routingTable := routingTable[name := r];
      }
    }

    /** Relaxes the edges out of current. No settled route changes when sums are exact,
      * although the loop does not skip settled nodes. */
    method RelaxFrom(current: NodeId, ghost settled: set<NodeId>, ghost bound: nat,
                     ghost walks: map<NodeId, seq<NodeId>>, ghost exact: bool)
      returns (ghost walks': map<NodeId, seq<NodeId>>)
      requires Traced(lsTable, neighborTable, me, routingTable, walks)
      requires me in routingTable && routingTable[me].cost == 0
      requires current in routingTable && current in lsTable && current != me
      requires exact ==>
        Backed(lsTable, neighborTable, me, routingTable, walks) &&
        SettledFirst(routingTable, settled) && me in settled && current in settled &&
        (forall u :: u in settled ==> routingTable[u].cost <= routingTable[current].cost) &&
        CostsAtMost(routingTable, bound) &&
        routingTable[current].cost + TotalCost(lsTable[current].neighborCosts) <= bound < INT_MAX
      modifies this`routingTable
      ensures Traced(lsTable, neighborTable, me, routingTable, walks')
      ensures OnlyCheaper(old(routingTable), routingTable)
      ensures exact ==>
        Backed(lsTable, neighborTable, me, routingTable, walks') && Relaxed(lsTable, routingTable, current) &&
        PartlyRelaxed(lsTable, old(routingTable), settled, current, [], 0, bound, routingTable) &&
        forall u :: u in settled ==> routingTable[u] == old(routingTable)[u]
    {
      ghost var before := routingTable;
      var neighbors := GetNeighbors(current);
      LinksAreNamed(lsTable, current, neighbors);
      if exact {
        StartRelaxing(lsTable, before, settled, current, neighbors, bound);
      }
      walks' := RelaxNames(current, neighbors, settled, before, bound, walks, exact);
      if exact {
        RelaxedAll(lsTable, before, settled, current, neighbors, bound, routingTable);
      }
    }

    method RelaxNames(current: NodeId, names: seq<NodeId>, ghost settled: set<NodeId>, ghost before: map<NodeId, Route>,
                      ghost bound: nat, ghost walks: map<NodeId, seq<NodeId>>, ghost exact: bool)
      returns (ghost walks': map<NodeId, seq<NodeId>>)
      requires current != me && AllEdges(lsTable, current, names)
      requires current in lsTable && me in before && before[me].cost == 0 && current in before
      requires Traced(lsTable, neighborTable, me, routingTable, walks) && OnlyCheaper(before, routingTable)
      requires exact ==>
        me in settled && before[current].cost + TotalCost(lsTable[current].neighborCosts) <= bound < INT_MAX &&
        Backed(lsTable, neighborTable, me, routingTable, walks) &&
        PartlyRelaxed(lsTable, before, settled, current, names, 0, bound, routingTable)
      modifies this`routingTable
      ensures Traced(lsTable, neighborTable, me, routingTable, walks') && OnlyCheaper(before, routingTable)
      ensures exact ==>
        Backed(lsTable, neighborTable, me, routingTable, walks') &&
        PartlyRelaxed(lsTable, before, settled, current, names, |names|, bound, routingTable)
    {
      walks' := walks;
      ghost var t := lsTable;
      for j := 0 to |names|
        invariant Traced(t, neighborTable, me, routingTable, walks') && OnlyCheaper(before, routingTable)
        invariant exact ==>
          Backed(t, neighborTable, me, routingTable, walks') &&
          PartlyRelaxed(t, before, settled, current, names, j, bound, routingTable)
      {
        assert Edge(t, current, names[j]);
        assert me in routingTable && current in routingTable && routingTable[me].cost == 0;
        assert exact ==> routingTable[current] == before[current];
        walks' := RelaxNext(current, names, j, settled, before, bound, walks', exact);
      }
    }

    /** Relaxes the edge to the next name. */
    method RelaxNext(current: NodeId, names: seq<NodeId>, j: nat, ghost settled: set<NodeId>, ghost before: map<NodeId, Route>,
                     ghost bound: nat, ghost walks: map<NodeId, seq<NodeId>>, ghost exact: bool)
      returns (ghost walks': map<NodeId, seq<NodeId>>)
      requires j < |names| && current != me && Edge(lsTable, current, names[j])
      requires me in routingTable && routingTable[me].cost == 0 && current in routingTable
      requires Traced(lsTable, neighborTable, me, routingTable, walks) && OnlyCheaper(before, routingTable)
      requires exact ==>
        Backed(lsTable, neighborTable, me, routingTable, walks) &&
        PartlyRelaxed(lsTable, before, settled, current, names, j, bound, routingTable) &&
        routingTable[current].cost + TotalCost(lsTable[current].neighborCosts) <= bound < INT_MAX
      modifies this`routingTable
      ensures Traced(lsTable, neighborTable, me, routingTable, walks') && OnlyCheaper(before, routingTable)
      ensures exact ==>
        Backed(lsTable, neighborTable, me, routingTable, walks') &&
        PartlyRelaxed(lsTable, before, settled, current, names, j + 1, bound, routingTable)
    {
      ghost var t, rt := lsTable, routingTable;
      WeightBounded(t, current, names[j]);
      walks' := RelaxEdge(current, names[j], walks, exact);
      if exact {
        if routingTable == rt {
          RelaxNone(t, before, settled, current, names, j, bound, rt);
        } else {
          RelaxOne(t, before, settled, current, names, j, bound, rt, routingTable[names[j]]);
        }
      }
    }

    /** Settles current: its edges are relaxed. */
    method Settle(current: NodeId, ghost settled: set<NodeId>, ghost settled': set<NodeId>,
                  ghost walks: map<NodeId, seq<NodeId>>, ghost exact: bool)
      returns (ghost walks': map<NodeId, seq<NodeId>>)
      requires Tracing(lsTable, neighborTable, me, routingTable, walks, settled)
      requires IsNext(routingTable, settled, current) && current in lsTable && settled' == settled + {current}
      requires exact ==>
        Backed(lsTable, neighborTable, me, routingTable, walks) &&
        Settling(lsTable, me, routingTable, settled) && CostsFit(lsTable)
      modifies this`routingTable
      ensures Traced(lsTable, neighborTable, me, routingTable, walks') && OnlyCheaper(old(routingTable), routingTable)
      ensures exact ==>
        Backed(lsTable, neighborTable, me, routingTable, walks') &&
        Settling(lsTable, me, routingTable, settled') &&
        PartlyRelaxed(lsTable, old(routingTable), settled', current, [], 0, OutCost(lsTable, settled'), routingTable)
    {
      ghost var t, rt := lsTable, routingTable;
      ghost var bound := OutCost(t, settled');
      if exact {
        ReadyToSettle(t, me, rt, settled, current);
      }
      walks' := RelaxFrom(current, settled', bound, walks, exact);
      if exact {
        SettleOne(t, me, rt, settled, current, settled', bound, routingTable);
      }
    }

    /** The node to settle next. There is none when a routed node has no entry or no node is
      * left; both go past the end of a map. */
    method Choose(found: map<NodeId, bool>, ghost settled: set<NodeId>, ghost last: NodeId,
                  ghost walks: map<NodeId, seq<NodeId>>, ghost exact: bool)
      returns (next: Option<NodeId>)
      requires Flags(lsTable, found, settled) && |settled| < |lsTable|
      requires exact ==>
        CostsFit(lsTable) && Backed(lsTable, neighborTable, me, routingTable, walks) &&
        Settling(lsTable, me, routingTable, settled) && InOrder(lsTable, me, routingTable, settled, last)
      ensures next.None? && exact ==> Decides(false, lsTable, neighborTable, me)
      ensures next.Some? ==>
        routingTable.Keys <= lsTable.Keys && IsNext(routingTable, settled, next.value) &&
        routingTable[next.value].cost < INT_MAX
    {
      var looked;
      looked, next := GetMinCostNode(found);
      if !looked || next.None? {
        if exact {
          Stuck(looked, settled, last, walks);
        }
        next := None;
      }
    }

    /** One round of the main loop. */
    method Round(current: NodeId, ghost settled: set<NodeId>, ghost last: NodeId,
                 ghost walks: map<NodeId, seq<NodeId>>, ghost exact: bool)
      returns (ghost settled': set<NodeId>, ghost walks': map<NodeId, seq<NodeId>>)
      requires Tracing(lsTable, neighborTable, me, routingTable, walks, settled)
      requires routingTable.Keys <= lsTable.Keys && IsNext(routingTable, settled, current)
      requires routingTable[current].cost < INT_MAX
      requires exact ==>
        CostsFit(lsTable) && Backed(lsTable, neighborTable, me, routingTable, walks) &&
        Settling(lsTable, me, routingTable, settled) && InOrder(lsTable, me, routingTable, settled, last)
      modifies this`routingTable
      ensures settled' == settled + {current} && |settled'| == |settled| + 1
      ensures Tracing(lsTable, neighborTable, me, routingTable, walks', settled')
      ensures exact ==>
        Backed(lsTable, neighborTable, me, routingTable, walks') &&
        Settling(lsTable, me, routingTable, settled') && InOrder(lsTable, me, routingTable, settled', current)
    {
      ghost var t, rt := lsTable, routingTable;
      settled' := settled + {current};
      walks' := Settle(current, settled, settled', walks, exact);
      TracesOn(t, neighborTable, me, rt, walks, settled, current, routingTable, walks');
      if exact {
        StaysInOrder(t, me, rt, settled, last, current, settled', OutCost(t, settled'), routingTable);
      }
    }

    /** Settles one cheapest node after the other. */
    method SettleAll(found: map<NodeId, bool>, ghost walks: map<NodeId, seq<NodeId>>, ghost exact: bool)
      returns (ok: bool, ghost walks': map<NodeId, seq<NodeId>>, ghost settled: set<NodeId>, ghost last: NodeId)
      requires me in lsTable && Flags(lsTable, found, {me})
      requires Tracing(lsTable, neighborTable, me, routingTable, walks, {me})
      requires exact ==>
        CostsFit(lsTable) && Backed(lsTable, neighborTable, me, routingTable, walks) &&
        Settling(lsTable, me, routingTable, {me}) && InOrder(lsTable, me, routingTable, {me}, me)
      modifies this`routingTable
      ensures |lsTable| == 1 ==> ok
      ensures ok ==> |settled| == |lsTable| && Tracing(lsTable, neighborTable, me, routingTable, walks', settled)
      ensures exact && !ok ==> Decides(false, lsTable, neighborTable, me)
      ensures exact && ok ==>
        Backed(lsTable, neighborTable, me, routingTable, walks') &&
        Settling(lsTable, me, routingTable, settled) && InOrder(lsTable, me, routingTable, settled, last)
    {
      var leastCostFound := found;
      walks', settled, last := walks, {me}, me;
      var i := 0;
      while i < |lsTable| - 1
        invariant 0 <= i <= |lsTable| - 1 && |settled| == i + 1
        invariant Flags(lsTable, leastCostFound, settled)
        invariant Tracing(lsTable, neighborTable, me, routingTable, walks', settled)
        invariant exact ==> Backed(lsTable, neighborTable, me, routingTable, walks')
        invariant exact ==> Settling(lsTable, me, routingTable, settled)
        invariant exact ==> InOrder(lsTable, me, routingTable, settled, last)
      {
        var next := Choose(leastCostFound, settled, last, walks', exact);
        if next.None? {
          return false, walks', settled, last;
        }
        var current := next.value;
        FlagOne(lsTable, leastCostFound, settled, current);
        leastCostFound := leastCostFound[current := true];
        settled, walks' := Round(current, settled, last, walks', exact);
        last := current;
        i := i + 1;
      }
      ok := true;
    }

    /** A lookup that failed had to fail. */
    lemma {:induction false} Stuck(looked: bool, settled: set<NodeId>, last: NodeId, walks: map<NodeId, seq<NodeId>>)
      requires CostsFit(lsTable) && |settled| < |lsTable|
      requires Backed(lsTable, neighborTable, me, routingTable, walks)
      requires Settling(lsTable, me, routingTable, settled) && InOrder(lsTable, me, routingTable, settled, last)
      requires if looked then forall v :: v in routingTable && v !in settled ==> routingTable[v].cost >= INT_MAX
               else !(routingTable.Keys <= lsTable.Keys)
      ensures Decides(false, lsTable, neighborTable, me)
    {
      if looked {
        StuckOnNothing(lsTable, neighborTable, me, routingTable, settled);
      } else {
        var v :| v in routingTable && v !in lsTable;
        StuckOnName(lsTable, neighborTable, me, routingTable, walks, settled, last, v);
      }
    }

    /** Rebuilds the routing table in place. Computed says when this fails because a lookup
      * ends past the end of a map, and what the routes are if it does not. */
    method Dijkstra() returns (ok: bool)
      modifies this`routingTable
      ensures Computed(ok, lsTable, neighborTable, me, routingTable)
    {
      var leastCostFound: map<NodeId, bool> := map node | node in lsTable :: false;
      ghost var walks;
      ok, walks := StartFromNeighbors();
      if !ok || me !in leastCostFound {
        Failed(lsTable, neighborTable, me, routingTable);
        return false;
      }
      leastCostFound := leastCostFound[me := true];
      StartsInOrder(lsTable, me, routingTable);
      ghost var settled, last, exact := {}, me, CostsFit(lsTable);
      ok, walks, settled, last := SettleAll(leastCostFound, walks, exact);
      if ok {
        Finished(lsTable, neighborTable, me, routingTable, walks, settled, last);
      } else {
        Failed(lsTable, neighborTable, me, routingTable);
      }
    }
  }
}
