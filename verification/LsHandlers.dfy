/** The steps of the link-state network are what the handlers of a router do: each handler,
  * called on a router of the network, goes to the state and sends the messages that the
  * action says.
  */
module LsHandlers {
  import opened Basics
  import opened LsTable
  import opened LsProtocol
  import opened LsDijkstra
  import opened LsNode
  import opened LsNetwork

  /** The object holds the tables of one router of the network. */
  ghost predicate Plays(router: LsRouter, net: Net)
    reads router
  {
    router.me < |net.nodes| == |net.sent| && router.State() == net.nodes[router.me]
  }

  /** The action is possible, and makes the router what the object is now, having sent this. */
  ghost predicate Played(router: LsRouter, net: Net, a: Action, hello: Option<Uint32>, out: Option<Message>)
    reads router
  {
    Enabled(net, a) && Subject(a) == router.me &&
    var e := EffectOf(net, a);
    e.u == router.me && e.state == router.State() && e.hello == hello && e.out == out
  }

  function CostsOf(out: Option<Message>): seq<LinkCost> {
    if out.Some? then out.value.neighborCosts else []
  }

  method SayHello(router: LsRouter, ghost net: Net) returns (hello: Uint32)
    requires Plays(router, net) && Room(router.State(), 1)
    modifies router
    ensures Played(router, net, SendHello(router.me), Some(hello), None)
    ensures hello == net.nodes[router.me].counter
  {
    hello := router.SendHello();
  }

  method SayTable(router: LsRouter, ghost net: Net) returns (m: Message)
    requires Plays(router, net) && Room(router.State(), 1)
    modifies router
    ensures Played(router, net, Advertise(router.me, m.neighborCosts), None, Some(m))
  {
    m := router.SendLSTableMessage();
  }

  method HearHello(router: LsRouter, ghost net: Net, h: Hello, interfaceAddr: nat, now: int) returns (ok: bool, out: Option<Message>)
    requires Plays(router, net) && h in net.hellos && h.to == router.me
    requires h.from !in router.neighborTable ==> Room(router.State(), 1)
    modifies router
    ensures ok ==> Played(router, net, DeliverHello(h, interfaceAddr, now, CostsOf(out), router.routingTable), None, out)
  {
    ok, out := router.ProcessHelloReq(h.from, interfaceAddr, h.sequenceNumber, now);
    if ok && out.Some? {
      ComputedRoutesAreOk(ok, router.State());
    }
  }

  method TakeTable(router: LsRouter, ghost net: Net, f: Flight) returns (ok: bool, out: Option<Message>)
    requires Plays(router, net) && f in net.flights && f.to == router.me
    modifies router
    ensures ok ==> Played(router, net, DeliverLs(f, router.routingTable), None, out)
  {
    ok, out := router.ProcessLSTableMessage(f.message);
    if ok && Newer(net.nodes[router.me], f.message) {
      ComputedRoutesAreOk(ok, router.State());
    }
  }

  /** What an audit that finds every entry leaves is what the action says. */
  lemma {:induction false} AuditIsPlayed(net: Net, u: NodeId, now: int, timeout: int, s': LsState, out: Option<Message>)
    requires u < |net.nodes| == |net.sent| && net.nodes[u].me == u && Room(net.nodes[u], 2)
    requires Removable(net.nodes[u], Expired(net.nodes[u], now, timeout))
    requires
      var s := net.nodes[u];
      var c := NextCounter(s.counter);
      if Expired(s, now, timeout) == {} then out.None? && s' == Audited(s, now, timeout).(counter := c)
      else
        s' == Audited(s, now, timeout).(counter := NextCounter(c), routes := s'.routes) && RoutesOk(s') &&
        out.Some? && out.value == Message(u, c, MAX_TTL, out.value.neighborCosts) &&
        Advertises(out.value.neighborCosts, s'.neighbors)
    ensures
      var a := Audit(u, now, timeout, CostsOf(out), s'.routes);
      Enabled(net, a) &&
      var e := EffectOf(net, a);
      e.u == u && e.state == s' && e.hello == Some(net.nodes[u].counter) && e.out == out
  {
    var s := net.nodes[u];
    if Expired(s, now, timeout) == {} {
      UnlinkedNone(s.table, s.me);
      assert s.neighbors - {} == s.neighbors;
    }
  }

  method AuditNeighbors(router: LsRouter, ghost net: Net, now: int, timeout: int)
    returns (ok: bool, hello: Uint32, out: Option<Message>)
    requires Plays(router, net) && Room(router.State(), 2) && router.me !in router.neighborTable
    modifies router
    ensures ok ==> Played(router, net, Audit(router.me, now, timeout, CostsOf(out), router.routingTable), Some(hello), out)
  {
    ok, hello, out := router.AuditHellos(now, timeout);
    if ok {
      if Expired(net.nodes[router.me], now, timeout) != {} {
        ComputedRoutesAreOk(ok, router.State());
      }
      AuditIsPlayed(net, router.me, now, timeout, router.State(), out);
    }
  }
}
