/** Every network has an orderly run that comes to rest: what is proved of settled states is
  * proved of some run of each network.
  */
module DvDiscovery {
  import opened Basics
  import opened Paths
  import opened DvProtocol
  import opened DvNetwork
  import opened DvSafety
  import opened DvConvergence
  import opened DvExchange
  import opened DvLastSent

  // ---------- steps can be taken ----------

  ghost function RouteFor(s: DvState, d: NodeId): (r: Route)
    requires Computable(s.costs, s.neighbors) && (d == s.me || MinCost(s.costs, s.neighbors, d) < MAX_HOPS)
    ensures RouteOk(s, d, r)
  {
    if d == s.me then Route(d, d, LOOPBACK, 0)
    else
      var c := MinCost(s.costs, s.neighbors, d);
      var j :| Offers(s.costs, s.neighbors, j, d) && c == Offer(s.costs, s.neighbors, j, d);
      Route(d, j, s.neighbors[j].interfaceAddr, c)
  }

  /** BellmanFord always has a result. */
  lemma {:induction false} CanRecompute(s: DvState, names: set<NodeId>) returns (s': DvState, changed: bool)
    requires Computable(s.costs, s.neighbors)
    ensures Recomputed(s, names, s', changed)
  {
    var dv: Vector := map d | d in s.dv.Keys + names :: Distance(s, d);
    var routes := map d | d in dv && (d == s.me || MinCost(s.costs, s.neighbors, d) < MAX_HOPS) :: RouteFor(s, d);
    s' := s.(dv := dv, routes := routes);
    changed := exists d :: d in dv && dv[d] != Value(s.dv, d);
  }

  function QueueAfter(net: Net, e: Effect, a: NodeId, b: NodeId): seq<Message>
    requires e.from.Some? ==> Queue(net, e.from.value, e.u) != []
  {
    (if e.from == Some(a) && b == e.u then Queue(net, a, b)[1..] else Queue(net, a, b)) +
    (if a == e.u && (a, b) in net.links then Emission(e, b) else [])
  }

  /** An effect can be carried out. */
  lemma {:induction false} CanMove(net: Net, e: Effect) returns (net': Net)
    requires e.u < |net.nodes| && (e.from.Some? ==> Queue(net, e.from.value, e.u) != [])
    ensures Moves(net, e, net')
  {
    net' := net.(nodes := net.nodes[e.u := e.state],
                 queues := map p | p in net.queues.Keys + net.links :: QueueAfter(net, e, p.0, p.1));
    forall a: NodeId, b: NodeId ensures Queue(net', a, b) == QueueAfter(net, e, a, b) {
      if (a, b) !in net.queues.Keys + net.links {
        assert Queue(net, a, b) == [];
      }
    }
  }

  // ---------- everybody greets ----------

  /** The first k routers have greeted, and nobody has heard anything. */
  ghost predicate Greeted(start: Net, net: Net, k: nat) {
    net.links == start.links && net.nodes == start.nodes &&
    forall u: NodeId, v: NodeId :: Queue(net, u, v) == if (u, v) in net.links && u < k then [Hello] else []
  }

  ghost predicate OrderlyStep(net: Net, a: Action, net': Net) {
    Step(net, a, net') && Orderly(net, a)
  }

  lemma {:induction false} GreetNext(start: Net, net: Net, k: nat) returns (a: Action, net': Net)
    requires Initial(start) && Greeted(start, net, k) && k < |start.nodes|
    ensures OrderlyStep(net, a, net') && Greeted(start, net', k + 1)
  {
    a := Audit(k, 0, 1);
    var e := Effect(k, net.nodes[k], None, 0, true);
    assert net.nodes[k] == DvState(k, map[k := 0], map[], map[], map[]);
    assert Expired(net.nodes[k], 0, 1) == {};
    net' := CanMove(net, e);
    assert Handles(net, a, e);
    forall u: NodeId, v: NodeId ensures Queue(net', u, v) == if (u, v) in net.links && u < k + 1 then [Hello] else [] {
      assert Emission(e, v) == [Hello];
    }
  }

  ghost function Orderlies(): (Net, Action, Net) -> bool {
    (net: Net, a: Action, net': Net) => OrderlyStep(net, a, net')
  }

  lemma {:induction false} AllGreet(start: Net, k: nat) returns (net: Net)
    requires Initial(start) && k <= |start.nodes|
    ensures Greeted(start, net, k) && Reaches(start, net, Orderlies())
  {
    if k == 0 {
      net := start;
      ReachesItself(start, Orderlies());
    } else {
      var before := AllGreet(start, k - 1);
      var a;
      a, net := GreetNext(start, before, k - 1);
      Extend(start, before, a, net, Orderlies());
    }
  }

  // ---------- everybody hears ----------

  ghost predicate OnlyTables(q: seq<Message>) {
    forall i :: 0 <= i < |q| ==> q[i].Table?
  }

  /** Until v has heard u, the hello of u is the first message to v, and the only hello. */
  ghost predicate HelloFirst(net: Net, u: NodeId, v: NodeId) {
    v < |net.nodes| &&
    var q := Queue(net, u, v);
    if u in net.nodes[v].costs then OnlyTables(q) else q != [] && q[0].Hello? && OnlyTables(q[1..])
  }

  ghost predicate Hearing(net: Net) {
    Live(net) && forall u, v {:trigger HelloFirst(net, u, v)} :: (u, v) in net.links ==> HelloFirst(net, u, v)
  }

  ghost function Unheard(net: Net): Links {
    set l | l in net.links && l.1 < |net.nodes| && l.0 !in net.nodes[l.1].costs
  }

  lemma {:induction false} GreetedIsHearing(start: Net, net: Net)
    requires Initial(start) && Greeted(start, net, |start.nodes|) && Live(net)
    ensures Hearing(net)
  {
    forall u, v | (u, v) in net.links ensures HelloFirst(net, u, v) {
      assert u < |start.nodes| && v < |start.nodes|;
    }
  }

  lemma {:induction false} CanHear(net: Net, u: NodeId, v: NodeId) returns (a: Action, e: Effect)
    requires v < |net.nodes| && Queue(net, u, v) != [] && Queue(net, u, v)[0].Hello?
    requires u !in net.nodes[v].neighbors && Computable(net.nodes[v].costs, net.nodes[v].neighbors)
    ensures a == DeliverHello(u, v, 0, 0) && Handles(net, a, e) && Orderly(net, a)
    ensures e.u == v && e.from == Some(u) && !e.hello && e.state.costs.Keys == net.nodes[v].costs.Keys + {u}
  {
    a := DeliverHello(u, v, 0, 0);
    var h := Heard(net.nodes[v], u, 0, 0);
    var s', changed := CanRecompute(h, {});
    e := Effect(v, s', Some(u), if changed then 2 else 1, false);
  }

  lemma {:induction false} TablesAfter(q: seq<Message>, e: Effect, v: NodeId)
    requires !e.hello
    ensures OnlyTables(q) ==> OnlyTables(q + Emission(e, v))
    ensures q != [] && q[0].Hello? && OnlyTables(q[1..]) ==>
      (q + Emission(e, v))[0].Hello? && OnlyTables((q + Emission(e, v))[1..])
  {
    assert OnlyTables(Emission(e, v));
    assert q != [] ==> (q + Emission(e, v))[1..] == q[1..] + Emission(e, v);
  }

  /** What happens to one link when v hears u. */
  lemma {:induction false} HelloFirstAfter(net: Net, e: Effect, net': Net, u: NodeId, x: NodeId, y: NodeId)
    requires e.u < |net.nodes| && Moves(net, e, net') && !e.hello && e.from == Some(u)
    requires Queue(net, u, e.u) != [] && (Queue(net, u, e.u)[0].Hello? || u in net.nodes[e.u].costs)
    requires e.state.costs.Keys == net.nodes[e.u].costs.Keys + {u}
    requires HelloFirst(net, x, y)
    ensures HelloFirst(net', x, y)
  {
    var q := Queue(net, x, y);
    var kept := if x == u && y == e.u then q[1..] else q;
    var out := if x == e.u && (x, y) in net.links then Emission(e, y) else [];
    assert Queue(net', x, y) == kept + out;
    TablesAfter(kept, e, y);
    assert kept + [] == kept;
    if y == e.u {
      assert x in net'.nodes[y].costs <==> x in net.nodes[y].costs || x == u;
    }
  }

  /** A message taken and tables sent keep the order of messages. */
  lemma {:induction false} KeepsHearing(net: Net, a: Action, e: Effect, net': Net, u: NodeId)
    requires Hearing(net) && Handles(net, a, e) && Moves(net, e, net') && Orderly(net, a) && !a.AddLink?
    requires !e.hello && e.from == Some(u) && e.state.costs.Keys == net.nodes[e.u].costs.Keys + {u}
    requires Queue(net, u, e.u) != [] && (Queue(net, u, e.u)[0].Hello? || u in net.nodes[e.u].costs)
    ensures OrderlyStep(net, a, net') && Hearing(net') && net'.links == net.links && |net'.nodes| == |net.nodes|
  {
    assert Step(net, a, net');
    StepKeepsLive(net, a, net');
    forall x, y | (x, y) in net'.links ensures HelloFirst(net', x, y) {
      assert HelloFirst(net, x, y);
      HelloFirstAfter(net, e, net', u, x, y);
    }
  }

  lemma {:induction false} FewerUnheard(net: Net, e: Effect, net': Net, u: NodeId)
    requires e.u < |net.nodes| && net'.links == net.links && net'.nodes == net.nodes[e.u := e.state]
    requires e.state.costs.Keys == net.nodes[e.u].costs.Keys + {u}
    ensures Unheard(net') == Unheard(net) - {(u, e.u)}
    ensures (u, e.u) in Unheard(net) ==> |Unheard(net')| < |Unheard(net)|
  {
    forall l ensures l in Unheard(net') <==> l in Unheard(net) - {(u, e.u)} {
      if l.1 == e.u {
        assert l.0 in net'.nodes[l.1].costs <==> l.0 in net.nodes[l.1].costs || l.0 == u;
      }
    }
  }

  lemma {:induction false} HelloWaits(net: Net, u: NodeId, v: NodeId)
    requires Hearing(net) && (u, v) in Unheard(net)
    ensures v < |net.nodes| && Queue(net, u, v) != [] && Queue(net, u, v)[0].Hello?
    ensures u !in net.nodes[v].neighbors && Computable(net.nodes[v].costs, net.nodes[v].neighbors)
  {
    assert HelloFirst(net, u, v) && UpToDate(net.nodes[v]);
  }

  lemma {:induction false} HearOne(net: Net) returns (a: Action, net': Net)
    requires Hearing(net) && Unheard(net) != {}
    ensures OrderlyStep(net, a, net') && Hearing(net') && net'.links == net.links
    ensures |net'.nodes| == |net.nodes| && |Unheard(net')| < |Unheard(net)|
  {
    var l :| l in Unheard(net);
    var e;
    HelloWaits(net, l.0, l.1);
    a, e := CanHear(net, l.0, l.1);
    net' := CanMove(net, e);
    KeepsHearing(net, a, e, net', l.0);
    FewerUnheard(net, e, net', l.0);
  }

  lemma {:induction false} AllHear(start: Net, net: Net) returns (end: Net)
    requires Hearing(net) && Reaches(start, net, Orderlies())
    ensures Hearing(end) && Unheard(end) == {} && Reaches(start, end, Orderlies()) && end.links == net.links
    decreases |Unheard(net)|
  {
    if Unheard(net) == {} {
      end := net;
    } else {
      var a, next := HearOne(net);
      Extend(start, net, a, next, Orderlies());
      end := AllHear(start, next);
    }
  }

  // ---------- everything is delivered ----------

  lemma {:induction false} CanTake(net: Net, u: NodeId, v: NodeId) returns (a: Action, e: Effect)
    requires v < |net.nodes| && Queue(net, u, v) != [] && Queue(net, u, v)[0].Table? && u in net.nodes[v].costs
    requires Computable(net.nodes[v].costs, net.nodes[v].neighbors)
    ensures a == DeliverTable(u, v, 0, 0) && Handles(net, a, e) && Orderly(net, a)
    ensures e.u == v && e.from == Some(u) && !e.hello && e.state.costs.Keys == net.nodes[v].costs.Keys
  {
    a := DeliverTable(u, v, 0, 0);
    var vector := Queue(net, u, v)[0].vector;
    var r := Received(net.nodes[v], u, vector, 0, 0);
    var s', changed := CanRecompute(r, vector.Keys);
    e := Effect(v, s', Some(u), if changed then 1 else 0, false);
  }

  lemma {:induction false} TableWaits(net: Net, u: NodeId, v: NodeId)
    requires Hearing(net) && Unheard(net) == {} && Queue(net, u, v) != []
    ensures v < |net.nodes| && u < |net.nodes| && u != v && Queue(net, u, v)[0].Table? && u in net.nodes[v].costs
    ensures Computable(net.nodes[v].costs, net.nodes[v].neighbors)
  {
    assert HonestQueue(net, u, v);
    assert (u, v) in net.links && (u, v) !in Unheard(net);
    assert HelloFirst(net, u, v) && UpToDate(net.nodes[v]);
  }

  lemma {:induction false} TakingSpends(net: Net, a: Action, e: Effect, net': Net)
    requires Live(net) && Takes(net, a) && Handles(net, a, e) && Orderly(net, a) && Moves(net, e, net')
    ensures Work(net') < Work(net)
  {
    assert Delivery(net, a, e, net');
    DeliverySpends(net, a, net');
  }

  lemma {:induction false} TakeOne(net: Net, u: NodeId, v: NodeId) returns (a: Action, net': Net)
    requires Hearing(net) && Unheard(net) == {} && Queue(net, u, v) != []
    ensures OrderlyStep(net, a, net') && Hearing(net') && net'.links == net.links
    ensures Unheard(net') == {} && Work(net') < Work(net)
  {
    var e;
    TableWaits(net, u, v);
    a, e := CanTake(net, u, v);
    net' := CanMove(net, e);
    KeepsHearing(net, a, e, net', u);
    FewerUnheard(net, e, net', u);
    TakingSpends(net, a, e, net');
  }

  lemma {:induction false} AllTake(start: Net, net: Net) returns (end: Net)
    requires Hearing(net) && Unheard(net) == {} && Reaches(start, net, Orderlies())
    ensures Hearing(end) && Unheard(end) == {} && Reaches(start, end, Orderlies()) && end.links == net.links
    ensures forall u, v :: Queue(end, u, v) == []
    decreases Work(net)
  {
    if u, v :| Queue(net, u, v) != [] {
      var a, next := TakeOne(net, u, v);
      Extend(start, net, a, next, Orderlies());
      end := AllTake(start, next);
    } else {
      end := net;
    }
  }

  // ---------- the run ----------

  lemma {:induction false} RunOf(start: Net, net: Net) returns (states: seq<Net>, acts: seq<Action>)
    requires Initial(start) && Reaches(start, net, Orderlies())
    ensures OrderlyRun(states, acts) && states[0] == start && states[|acts|] == net
  {
    states, acts :| IsPath(states, acts, Orderlies()) && states[0] == start && states[|acts|] == net;
    forall i: nat | i < |acts| ensures StepAt(states, acts, i) && Orderly(states[i], acts[i]) {
      assert Orderlies()(states[i], acts[i], states[i + 1]);
    }
  }

  /** Every network has an orderly run that ends with every hello heard and nothing in flight,
    * and there all distances up to 16 are the true ones. */
  lemma {:induction false} EveryNetworkConverges(start: Net) returns (states: seq<Net>, acts: seq<Action>)
    requires Initial(start)
    ensures OrderlyRun(states, acts) && states[0] == start && AtRest(states[|acts|])
    ensures states[|acts|].links == start.links && |states[|acts|].nodes| == |start.nodes|
    ensures forall u, v :: Queue(states[|acts|], u, v) == []
    ensures forall v, d, k: nat :: 0 <= v < |start.nodes| && k <= 16 ==>
      (Value(states[|acts|].nodes[v].dv, d) == k <==> HopDistance(start.links, v, d, k))
  {
    var greeted := AllGreet(start, |start.nodes|);
    states, acts := RunOf(start, greeted);
    RunIsLive(states, acts, |acts|);
    GreetedIsHearing(start, greeted);
    var heard := AllHear(start, greeted);
    var end := AllTake(start, heard);
    states, acts := RunOf(start, end);
    RunKeepsSize(states, acts, |acts|);
    EndIsAtRest(end);
    forall v, d, k: nat | 0 <= v < |start.nodes| && k <= 16
      ensures Value(end.nodes[v].dv, d) == k <==> HopDistance(start.links, v, d, k)
    {
      OrderlyRunsConverge(states, acts, |acts|, v, d);
    }
  }

  lemma {:induction false} EndIsAtRest(net: Net)
    requires Hearing(net) && Unheard(net) == {} && forall u, v :: Queue(net, u, v) == []
    ensures AtRest(net)
  {
    forall a, b | (a, b) in net.links ensures a < |net.nodes| && b in net.nodes[a].costs {
      assert (b, a) in net.links && (b, a) !in Unheard(net);
    }
  }
}
