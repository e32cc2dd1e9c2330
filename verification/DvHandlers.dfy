/** The steps of the distance-vector network are what the handlers of a router do: each
  * handler, called on a router of the network, goes to the state of the step, and what its
  * calls send on each link is what the step puts there.
  */
module DvHandlers {
  import opened Basics
  import opened DvProtocol
  import opened DvNode
  import opened DvNetwork

  /** The object holds the tables of one router of the network. */
  ghost predicate Plays(router: DvRouter, net: Net)
    reads router
  {
    router.me < |net.nodes| && router.State() == net.nodes[router.me] && Computable(router.costs, router.neighborTable)
  }

  /** What calls of SendDVTableMessage put on the link to v, oldest first. */
  function Posted(calls: seq<Sending>, v: NodeId): seq<Message> {
    if calls == [] then []
    else Posted(calls[..|calls| - 1], v) +
         (if v in calls[|calls| - 1] then [Table(calls[|calls| - 1][v])] else [])
  }

  /** The action makes the router what it is now, and puts on every link what the handler
    * sent. */
  ghost predicate Performs(net: Net, a: Action, e: Effect, greetings: seq<Message>, calls: seq<Sending>) {
    Handles(net, a, e) && forall v :: Emission(e, v) == greetings + Posted(calls, v)
  }

  ghost predicate Played(router: DvRouter, net: Net, a: Action, from: Option<NodeId>, greetings: seq<Message>, calls: seq<Sending>)
    reads router
  {
    Performs(net, a, Effect(router.me, router.State(), from, |calls|, greetings != []), greetings, calls)
  }

  lemma {:induction false} CallsArePosted(s: DvState, calls: seq<Sending>, v: NodeId)
    requires forall i :: 0 <= i < |calls| ==>
      calls[i].Keys == s.costs.Keys && (v in s.costs ==> calls[i][v] == Poisoned(s, v))
    ensures Posted(calls, v) == if v in s.costs then seq(|calls|, _ => Table(Poisoned(s, v))) else []
  {
    if calls != [] {
      var before := calls[..|calls| - 1];
      CallsArePosted(s, before, v);
      assert v in s.costs ==>
        seq(|calls|, _ => Table(Poisoned(s, v))) == seq(|before|, _ => Table(Poisoned(s, v))) + [Table(Poisoned(s, v))];
    }
  }

  lemma {:induction false} EmissionIsPosted(e: Effect, calls: seq<Sending>, v: NodeId)
    requires e.sends == |calls| && forall i :: 0 <= i < |calls| ==> calls[i] == Vectors(e.state)
    ensures Emission(e, v) == (if e.hello then [Hello] else []) + Posted(calls, v)
  {
    CallsArePosted(e.state, calls, v);
  }

  lemma {:induction false} AllPosted(net: Net, a: Action, e: Effect, calls: seq<Sending>)
    requires Handles(net, a, e) && e.sends == |calls| && forall i :: 0 <= i < |calls| ==> calls[i] == Vectors(e.state)
    ensures Performs(net, a, e, if e.hello then [Hello] else [], calls)
  {
    forall v ensures Emission(e, v) == (if e.hello then [Hello] else []) + Posted(calls, v) {
      EmissionIsPosted(e, calls, v);
    }
  }

  /** What a hello leaves and sends is what the action says. */
  lemma {:induction false} HelloIsPlayed(net: Net, u: NodeId, v: NodeId, interfaceAddr: nat, now: int, s': DvState, calls: seq<Sending>)
    requires v < |net.nodes| && Queue(net, u, v) != [] && Queue(net, u, v)[0].Hello?
    requires
      var h := Heard(net.nodes[v], u, interfaceAddr, now);
      if u in net.nodes[v].neighbors then s' == h && calls == []
      else
        Computable(h.costs, h.neighbors) && Recomputed(h, {}, s', |calls| == 2) &&
        (calls == [Vectors(s')] || calls == [Vectors(s'), Vectors(s')])
    ensures Performs(net, DeliverHello(u, v, interfaceAddr, now), Effect(v, s', Some(u), |calls|, false), [], calls)
  {
    AllPosted(net, DeliverHello(u, v, interfaceAddr, now), Effect(v, s', Some(u), |calls|, false), calls);
  }

  method HearHello(router: DvRouter, ghost net: Net, u: NodeId, interfaceAddr: nat, now: int) returns (calls: seq<Sending>)
    requires Plays(router, net) && Queue(net, u, router.me) != [] && Queue(net, u, router.me)[0].Hello?
    modifies router
    ensures Played(router, net, DeliverHello(u, router.me, interfaceAddr, now), Some(u), [], calls)
  {
    calls := router.ProcessHelloReq(u, interfaceAddr, now);
    HelloIsPlayed(net, u, router.me, interfaceAddr, now, router.State(), calls);
  }

  method TakeTable(router: DvRouter, ghost net: Net, u: NodeId, vector: Vector, interfaceAddr: nat, now: int)
    returns (calls: seq<Sending>)
    requires Plays(router, net) && Queue(net, u, router.me) != [] && Queue(net, u, router.me)[0] == Table(vector)
    modifies router
    ensures Played(router, net, DeliverTable(u, router.me, interfaceAddr, now), Some(u), [], calls)
  {
    calls := router.ProcessDVTableMessage(u, vector, interfaceAddr, now);
    AllPosted(net, DeliverTable(u, router.me, interfaceAddr, now), Effect(router.me, router.State(), Some(u), |calls|, false), calls);
  }

  method AuditNeighbors(router: DvRouter, ghost net: Net, now: int, timeout: int)
    returns (ok: bool, hello: Message, calls: seq<Sending>)
    requires Plays(router, net)
    modifies router
    ensures ok <==> Expired(net.nodes[router.me], now, timeout) <= net.nodes[router.me].costs.Keys
    ensures ok ==> Played(router, net, Audit(router.me, now, timeout), None, [hello], calls)
  {
    ok, hello, calls := router.AuditHellos(now, timeout);
    if ok {
      AllPosted(net, Audit(router.me, now, timeout), Effect(router.me, router.State(), None, |calls|, true), calls);
    }
  }
}
