/** A network of link-state routers as a state machine: every router runs the
  * handlers of LsProtocol, and copies of messages travel over fixed lossless links
  * in any order.
  */
module LsNetwork {
  import opened Basics
  import opened LsTable
  import opened LsProtocol
  import opened LsDijkstra

  datatype Hello = Hello(from: NodeId, to: NodeId, sequenceNumber: Uint32)

  /** One copy of an LS_TABLE_MSG on its way over one link. */
  datatype Flight = Flight(from: NodeId, to: NodeId, message: Message)

  /** An original advertisement, remembered for stating properties only. */
  datatype Advert = Advert(sequenceNumber: Uint32, neighborCosts: seq<LinkCost>)

  /** sent[u] lists what u itself advertised, oldest first. */
  datatype Net = Net(links: Links, nodes: seq<LsState>, hellos: multiset<Hello>,
                     flights: multiset<Flight>, sent: seq<seq<Advert>>)

  /** Where a router runs Dijkstra, `routes` is what it comes to. */
  datatype Action =
    | SendHello(u: NodeId)
    | Ping(u: NodeId)
    | Advertise(u: NodeId, costs: seq<LinkCost>)
    | DeliverHello(hello: Hello, interfaceAddr: nat, now: int, costs: seq<LinkCost>, routes: map<NodeId, Route>)
    | DeliverLs(flight: Flight, routes: map<NodeId, Route>)
    | Audit(u: NodeId, now: int, timeout: int, costs: seq<LinkCost>, routes: map<NodeId, Route>)

  // ---------- steps ----------

  /** What one action does: router u goes to `state`, takes the given messages off
    * the links and sends at most one LS_TABLE_MSG, its own or a repeated one. */
  datatype Effect = Effect(u: NodeId, state: LsState, consumed: Option<Flight>, heard: Option<Hello>,
                           out: Option<Message>, original: bool, hello: Option<Uint32>)

  function Broadcast(links: Links, u: NodeId, m: Message): multiset<Flight> {
    multiset(set l | l in links && l.0 == u :: Flight(u, l.1, m))
  }

  function BroadcastHello(links: Links, u: NodeId, sequenceNumber: Uint32): multiset<Hello> {
    multiset(set l | l in links && l.0 == u :: Hello(u, l.1, sequenceNumber))
  }

  function Apply(net: Net, e: Effect): Net
    requires e.u < |net.nodes| == |net.sent|
  {
    net.(nodes := net.nodes[e.u := e.state],
         sent := if e.original && e.out.Some?
                 then net.sent[e.u := net.sent[e.u] + [Advert(e.out.value.sequenceNumber, e.out.value.neighborCosts)]]
                 else net.sent,
         flights := (if e.consumed.Some? then net.flights - multiset{e.consumed.value} else net.flights)
                    + (if e.out.Some? then Broadcast(net.links, e.u, e.out.value) else multiset{}),
         hellos := (if e.heard.Some? then net.hellos - multiset{e.heard.value} else net.hellos)
                   + (if e.hello.Some? then BroadcastHello(net.links, e.u, e.hello.value) else multiset{}))
  }

  function Own(s: LsState, sequenceNumber: Uint32, costs: seq<LinkCost>): Option<Message> {
    Some(Message(s.me, sequenceNumber, MAX_TTL, costs))
  }

  function Subject(a: Action): NodeId {
    match a
    case SendHello(u) => u
    case Ping(u) => u
    case Advertise(u, _) => u
    case DeliverHello(h, _, _, _, _) => h.to
    case DeliverLs(f, _) => f.to
    case Audit(u, _, _, _, _) => u
  }

  /** The router acts as its handlers say. */
  function EffectOf(net: Net, a: Action): Effect
    requires Subject(a) < |net.nodes|
  {
    var u := Subject(a);
    var s := net.nodes[u];
    var tick := s.(counter := NextCounter(s.counter));
    match a
    case SendHello(_) => Effect(u, tick, None, None, None, false, Some(s.counter))
    case Ping(_) => Effect(u, tick, None, None, None, false, None)
    case Advertise(_, costs) => Effect(u, tick, None, None, Own(s, s.counter, costs), true, None)
    case DeliverHello(h, interfaceAddr, now, costs, routes) =>
      var s' := Heard(s, h.from, interfaceAddr, h.sequenceNumber, now);
      if h.from in s.neighbors then Effect(u, s', None, Some(h), None, false, None)
      else
        Effect(u, s'.(counter := NextCounter(s.counter), routes := routes), None, Some(h),
               Own(s, s.counter, costs), true, None)
    case DeliverLs(f, routes) =>
      var m := f.message;
      if Newer(s, m) then
        Effect(u, Received(s, m).(routes := routes), Some(f), None, Some(m.(ttl := NextTtl(m.ttl))), false, None)
      else Effect(u, s, Some(f), None, None, false, None)
    case Audit(_, now, timeout, costs, routes) =>
      if Expired(s, now, timeout) == {} then Effect(u, tick, None, None, None, false, Some(s.counter))
      else
        Effect(u, Audited(s, now, timeout).(counter := NextCounter(NextCounter(s.counter)), routes := routes), None, None,
               Own(s, NextCounter(s.counter), costs), true, Some(s.counter))
  }

  /** The sequence counter can be advanced k times without wrapping around. */
  predicate Room(s: LsState, k: nat) {
    s.counter + k < TWO_TO_32
  }

  ghost predicate Enabled(net: Net, a: Action) {
    Subject(a) < |net.nodes| == |net.sent| &&
    var s := net.nodes[Subject(a)];
    match a
    case SendHello(_) => Room(s, 1)
    case Ping(_) => Room(s, 1)
    case Advertise(_, costs) => Room(s, 1) && Advertises(costs, s.neighbors)
    case DeliverHello(h, interfaceAddr, now, costs, _) =>
      h in net.hellos &&
      (h.from !in s.neighbors ==>
        Room(s, 1) && Advertises(costs, Heard(s, h.from, interfaceAddr, h.sequenceNumber, now).neighbors) &&
        RoutesOk(EffectOf(net, a).state))
    case DeliverLs(f, _) => f in net.flights && (Newer(s, f.message) ==> RoutesOk(EffectOf(net, a).state))
    case Audit(_, now, timeout, costs, _) =>
      Room(s, 2) && Removable(s, Expired(s, now, timeout)) &&
      (Expired(s, now, timeout) != {} ==>
        Advertises(costs, Audited(s, now, timeout).neighbors) && RoutesOk(EffectOf(net, a).state))
  }

  function Next(net: Net, a: Action): Net
    requires Subject(a) < |net.nodes| == |net.sent|
  {
    Apply(net, EffectOf(net, a))
  }

  /** Nobody has heard or sent anything; sequence counters start anywhere. */
  ghost predicate Initial(net: Net) {
    Topology(net.links, |net.nodes|) && |net.sent| == |net.nodes| &&
    (forall u :: 0 <= u < |net.nodes| ==>
      net.nodes[u].me == u && net.nodes[u].table == map[] && net.nodes[u].neighbors == map[] && net.sent[u] == []) &&
    net.hellos == multiset{} && net.flights == multiset{}
  }

  /** A run: each action is enabled in the state the earlier ones lead to. */
  ghost predicate Run(net: Net, acts: seq<Action>)
    decreases |acts|
  {
    acts != [] ==> Enabled(net, acts[0]) && Run(Next(net, acts[0]), acts[1..])
  }

  ghost function After(net: Net, acts: seq<Action>): Net
    requires Run(net, acts)
    decreases |acts|
  {
    if acts == [] then net else After(Next(net, acts[0]), acts[1..])
  }

  /** No audit finds an expired neighbour. */
  predicate NoExpiry(net: Net, a: Action)
    requires Subject(a) < |net.nodes|
  {
    a.Audit? ==> Expired(net.nodes[a.u], a.now, a.timeout) == {}
  }

  ghost predicate RunWithoutExpiry(net: Net, acts: seq<Action>)
    decreases |acts|
  {
    acts != [] ==> Enabled(net, acts[0]) && NoExpiry(net, acts[0]) && RunWithoutExpiry(Next(net, acts[0]), acts[1..])
  }

  // ---------- invariants ----------

  /** got is full without some of its pairs that name v. */
  ghost predicate Trims(full: seq<LinkCost>, got: seq<LinkCost>, v: NodeId) {
    if full == [] then got == []
    else
      (got != [] && got[0] == full[0] && Trims(full[1..], got[1..], v)) ||
      (full[0].neighbor == v && Trims(full[1..], got, v))
  }

  lemma {:induction false} TrimsSelf(full: seq<LinkCost>, v: NodeId)
    ensures Trims(full, full, v)
  {
    if full != [] {
      TrimsSelf(full[1..], v);
    }
  }

  lemma {:induction false} TrimsFurther(full: seq<LinkCost>, got: seq<LinkCost>, v: NodeId)
    requires Trims(full, got, v)
    ensures Trims(full, Without(got, {v}), v)
  {
    if full != [] {
      if got != [] && got[0] == full[0] && Trims(full[1..], got[1..], v) {
        var rest := got[1..];
        if got[0].neighbor == v {
          assert {v} - {v} == {};
          WithoutNone(rest);
        } else {
          TrimsFurther(full[1..], rest, v);
          var w := Without(rest, {v});
          assert ([got[0]] + w)[1..] == w;
        }
      } else {
        TrimsFurther(full[1..], got, v);
      }
    }
  }

  function LastSent(adverts: seq<Advert>): Advert
    requires adverts != []
  {
    adverts[|adverts| - 1]
  }

  ghost predicate WasSent(net: Net, o: NodeId, sequenceNumber: Uint32, costs: seq<LinkCost>) {
    o < |net.sent| && Advert(sequenceNumber, costs) in net.sent[o]
  }

  ghost predicate Increasing(adverts: seq<Advert>, counter: Uint32) {
    (forall i, j :: 0 <= i < j < |adverts| ==> adverts[i].sequenceNumber < adverts[j].sequenceNumber) &&
    (forall i :: 0 <= i < |adverts| ==> adverts[i].sequenceNumber < counter)
  }

  /** The own entry matches the neighbour table, or a newer own advertisement is
    * still going to overwrite it. */
  ghost predicate OwnEntryOk(s: LsState, adverts: seq<Advert>) {
    OwnAgrees(s) ||
    (s.me in s.table && adverts != [] && s.table[s.me].sequenceNumber < LastSent(adverts).sequenceNumber)
  }

  ghost predicate OwnCostsUnit(s: LsState) {
    s.me in s.table ==> UnitCosts(s.table[s.me].neighborCosts)
  }

  ghost predicate NodeOk(net: Net, u: NodeId)
    requires u < |net.nodes| == |net.sent|
  {
    var s := net.nodes[u];
    s.me == u &&
    (forall v :: v in s.neighbors ==> (v, u) in net.links) &&
    Increasing(net.sent[u], s.counter) &&
    (if net.sent[u] == [] then s.neighbors == map[] else Advertises(LastSent(net.sent[u]).neighborCosts, s.neighbors)) &&
    OwnEntryOk(s, net.sent[u]) &&
    (forall a :: a in net.sent[u] ==> UnitCosts(a.neighborCosts)) &&
    OwnCostsUnit(s) && RoutesOk(s)
  }

  /** Entry o of router v is an advertisement of o; `exact` excludes removed links. */
  ghost predicate EntryOk(net: Net, v: NodeId, o: NodeId, exact: bool)
    requires v < |net.nodes|
  {
    var t := net.nodes[v].table;
    o in t ==>
      o < |net.nodes| &&
      (o != v ==>
        exists full ::
          WasSent(net, o, t[o].sequenceNumber, full) &&
          Trims(full, t[o].neighborCosts, v) && (exact ==> t[o].neighborCosts == full))
  }

  ghost predicate FlightOk(net: Net, f: Flight) {
    (f.from, f.to) in net.links &&
    WasSent(net, f.message.originator, f.message.sequenceNumber, f.message.neighborCosts)
  }

  /** Router v holds an entry of o at least as new as number k. */
  predicate Holds(net: Net, v: NodeId, o: NodeId, k: int)
    requires v < |net.nodes|
  {
    o in net.nodes[v].table && k <= net.nodes[v].table[o].sequenceNumber
  }

  /** ... or a copy that new is on its way to v from u. */
  ghost predicate Incoming(net: Net, u: NodeId, v: NodeId, o: NodeId, k: int) {
    exists f :: f in net.flights && f.from == u && f.to == v && f.message.originator == o &&
                k <= f.message.sequenceNumber
  }

  /** The newest number of o that router u has passed on to its links. */
  function Level(net: Net, u: NodeId, o: NodeId): int
    requires u < |net.nodes| == |net.sent|
  {
    if u == o then (if net.sent[u] == [] then -1 else LastSent(net.sent[u]).sequenceNumber)
    else if o in net.nodes[u].table then net.nodes[u].table[o].sequenceNumber
    else -1
  }

  /** The far end of a link is as new as the near end, or will be. */
  ghost predicate LinkOk(net: Net, u: NodeId, v: NodeId, o: NodeId)
    requires u < |net.nodes| == |net.sent| && v < |net.nodes|
  {
    var k := Level(net, u, o);
    k == -1 || Holds(net, v, o, k) || Incoming(net, u, v, o, k)
  }

  ghost predicate Inv(net: Net, exact: bool) {
    Topology(net.links, |net.nodes|) && |net.sent| == |net.nodes| &&
    (forall u {:trigger NodeOk(net, u)} :: 0 <= u < |net.nodes| ==> NodeOk(net, u)) &&
    (forall v, o {:trigger EntryOk(net, v, o, exact)} :: 0 <= v < |net.nodes| ==> EntryOk(net, v, o, exact)) &&
    (forall f {:trigger FlightOk(net, f)} :: f in net.flights ==> FlightOk(net, f)) &&
    (forall h :: h in net.hellos ==> (h.from, h.to) in net.links) &&
    (forall u, v, o {:trigger LinkOk(net, u, v, o)} :: (u, v) in net.links && 0 <= o < |net.nodes| ==> LinkOk(net, u, v, o))
  }

  // ---------- every action's effect is sound ----------

  /** Entry o of the acting router is kept, shortened by an audit, or replaced by
    * the message it consumed. */
  ghost predicate EntryChange(net: Net, e: Effect, o: NodeId, exact: bool)
    requires e.u < |net.nodes|
  {
    var t, t' := net.nodes[e.u].table, e.state.table;
    (o in t ==> o in t' && t[o].sequenceNumber <= t'[o].sequenceNumber) &&
    (o in t' && o != e.u ==>
      if o in t && t'[o].sequenceNumber == t[o].sequenceNumber then
        t'[o] == t[o] || (!exact && t'[o].neighborCosts == Without(t[o].neighborCosts, {e.u}))
      else
        e.consumed.Some? && e.out.Some? && !e.original && o == e.out.value.originator &&
        t'[o] == Entry(e.out.value.neighborCosts, e.out.value.sequenceNumber))
  }

  ghost predicate SentNow(net: Net, e: Effect)
    requires e.u < |net.nodes| == |net.sent|
  {
    if e.original then
      e.out.Some? && e.out.value.originator == e.u &&
      net.nodes[e.u].counter <= e.out.value.sequenceNumber < e.state.counter &&
      Advertises(e.out.value.neighborCosts, e.state.neighbors)
    else
      e.state.neighbors.Keys == net.nodes[e.u].neighbors.Keys &&
      (e.out.Some? ==>
        e.consumed.Some? && e.out.value == e.consumed.value.message.(ttl := e.out.value.ttl))
  }

  ghost predicate Consumes(net: Net, e: Effect) {
    e.consumed.Some? ==>
      var m := e.consumed.value.message;
      e.consumed.value in net.flights && e.consumed.value.to == e.u &&
      m.originator in e.state.table && m.sequenceNumber <= e.state.table[m.originator].sequenceNumber
  }

  ghost predicate EffectOk(net: Net, e: Effect, exact: bool) {
    e.u < |net.nodes| == |net.sent| && e.state.me == e.u &&
    net.nodes[e.u].counter <= e.state.counter &&
    (forall v :: v in e.state.neighbors ==> (v, e.u) in net.links) &&
    (forall o {:trigger EntryChange(net, e, o, exact)} :: EntryChange(net, e, o, exact)) &&
    (forall o :: o in e.state.table ==> o < |net.nodes|) &&
    SentNow(net, e) && Consumes(net, e) &&
    OwnEntryOk(e.state, Apply(net, e).sent[e.u]) && OwnCostsUnit(e.state) && RoutesOk(e.state)
  }

  /** A refreshed neighbour record or an advanced counter does not matter to the routes. */
  lemma {:induction false} RoutesStayOk(s: LsState, s': LsState)
    requires RoutesOk(s) && s'.me == s.me && s'.table == s.table && s'.routes == s.routes
    requires s'.neighbors.Keys == s.neighbors.Keys
    requires forall v :: v in s.neighbors ==> s'.neighbors[v].interfaceAddr == s.neighbors[v].interfaceAddr
    ensures RoutesOk(s')
  {
    if ShortestRoutes(s.table, s.neighbors, s.me, s.routes) {
      forall v | v in s.routes ensures exists w :: Follows(s.table, s'.neighbors, s.me, v, s.routes[v], w) {
        var w :| Follows(s.table, s.neighbors, s.me, v, s.routes[v], w);
        assert Follows(s.table, s'.neighbors, s.me, v, s.routes[v], w);
      }
    }
  }

  /** A tick of the counter, with or without a HELLO_REQ. */
  lemma {:induction false} TickIsSound(net: Net, a: Action, exact: bool)
    requires Inv(net, exact) && Enabled(net, a) && (a.SendHello? || a.Ping?)
    ensures EffectOk(net, EffectOf(net, a), exact)
  {
    assert NodeOk(net, a.u);
    EntriesInRange(net, a.u, exact);
    RoutesStayOk(net.nodes[a.u], EffectOf(net, a).state);
  }

  lemma {:induction false} EntriesInRange(net: Net, u: NodeId, exact: bool)
    requires Inv(net, exact) && u < |net.nodes|
    ensures forall o :: o in net.nodes[u].table ==> o < |net.nodes|
  {
    forall o | o in net.nodes[u].table ensures o < |net.nodes| {
      assert EntryOk(net, u, o, exact);
    }
  }

  lemma {:induction false} AdvertiseIsSound(net: Net, a: Action, exact: bool)
    requires Inv(net, exact) && Enabled(net, a) && a.Advertise?
    ensures EffectOk(net, EffectOf(net, a), exact)
  {
    var e := EffectOf(net, a);
    assert NodeOk(net, a.u);
    EntriesInRange(net, a.u, exact);
    assert LastSent(Apply(net, e).sent[a.u]) == Advert(net.nodes[a.u].counter, a.costs);
    RoutesStayOk(net.nodes[a.u], e.state);
  }

  lemma {:induction false} HelloIsSound(net: Net, a: Action, exact: bool)
    requires Inv(net, exact) && Enabled(net, a) && a.DeliverHello?
    ensures EffectOk(net, EffectOf(net, a), exact)
  {
    var e, u, h := EffectOf(net, a), a.hello.to, a.hello;
    var s := net.nodes[u];
    assert NodeOk(net, u);
    EntriesInRange(net, u, exact);
    if OwnAgrees(s) {
      HeardKeepsAgreement(s, h.from, a.interfaceAddr, h.sequenceNumber, a.now);
      assert OwnAgrees(Heard(s, h.from, a.interfaceAddr, h.sequenceNumber, a.now)) ==> OwnAgrees(e.state);
    }
    if h.from in s.neighbors {
      RoutesStayOk(s, e.state);
    }
  }

  lemma {:induction false} DeliveryIsSound(net: Net, a: Action, exact: bool)
    requires Inv(net, exact) && Enabled(net, a) && a.DeliverLs?
    ensures EffectOk(net, EffectOf(net, a), exact)
  {
    var e, u, m := EffectOf(net, a), a.flight.to, a.flight.message;
    var s, adverts := net.nodes[u], net.sent[u];
    assert NodeOk(net, u) && FlightOk(net, a.flight);
    EntriesInRange(net, u, exact);
    if m.originator == u && Newer(s, m) {
      var i :| 0 <= i < |adverts| && adverts[i] == Advert(m.sequenceNumber, m.neighborCosts);
      assert i < |adverts| - 1 ==> adverts[i].sequenceNumber < LastSent(adverts).sequenceNumber;
    }
  }

  lemma {:induction false} QuietAuditIsSound(net: Net, a: Action, exact: bool)
    requires Inv(net, exact) && Enabled(net, a) && a.Audit?
    requires Expired(net.nodes[a.u], a.now, a.timeout) == {}
    ensures EffectOk(net, EffectOf(net, a), exact)
  {
    assert NodeOk(net, a.u);
    EntriesInRange(net, a.u, exact);
    RoutesStayOk(net.nodes[a.u], EffectOf(net, a).state);
  }

  lemma {:induction false} AuditChangesEntries(net: Net, a: Action, o: NodeId)
    requires a.Audit? && a.u < |net.nodes| && Expired(net.nodes[a.u], a.now, a.timeout) != {} && net.nodes[a.u].me == a.u
    ensures EntryChange(net, EffectOf(net, a), o, false)
  {
  }

  lemma {:induction false} AuditKeepsUnit(net: Net, a: Action)
    requires a.Audit? && a.u < |net.nodes| && Expired(net.nodes[a.u], a.now, a.timeout) != {} && net.nodes[a.u].me == a.u
    requires OwnCostsUnit(net.nodes[a.u]) && a.u in net.nodes[a.u].table
    ensures OwnCostsUnit(EffectOf(net, a).state)
  {
    var s := net.nodes[a.u];
    WithoutKeepsUnit(s.table[a.u].neighborCosts, Expired(s, a.now, a.timeout));
  }

  lemma {:induction false} AuditKeepsOwnEntry(net: Net, a: Action)
    requires a.Audit? && a.u < |net.nodes| == |net.sent| && net.nodes[a.u].me == a.u && a.u in net.nodes[a.u].table
    requires Expired(net.nodes[a.u], a.now, a.timeout) != {} && OwnEntryOk(net.nodes[a.u], net.sent[a.u])
    requires Increasing(net.sent[a.u], net.nodes[a.u].counter) && net.nodes[a.u].counter + 2 < TWO_TO_32
    ensures OwnEntryOk(EffectOf(net, a).state, Apply(net, EffectOf(net, a)).sent[a.u])
  {
    var e, s := EffectOf(net, a), net.nodes[a.u];
    assert LastSent(Apply(net, e).sent[a.u]) == Advert(NextCounter(s.counter), a.costs);
    if OwnAgrees(s) {
      AuditKeepsAgreement(s, a.now, a.timeout);
      assert OwnAgrees(Audited(s, a.now, a.timeout)) ==> OwnAgrees(e.state);
    }
  }

  lemma {:induction false} AuditIsSound(net: Net, a: Action, exact: bool)
    requires Inv(net, exact) && Enabled(net, a) && a.Audit?
    requires Expired(net.nodes[a.u], a.now, a.timeout) != {} && !exact
    ensures EffectOk(net, EffectOf(net, a), exact)
  {
    var e := EffectOf(net, a);
    assert NodeOk(net, a.u);
    EntriesInRange(net, a.u, exact);
    AuditKeepsUnit(net, a);
    AuditKeepsOwnEntry(net, a);
    forall o ensures EntryChange(net, e, o, exact) {
      AuditChangesEntries(net, a, o);
    }
  }

  lemma {:induction false} ActionIsSound(net: Net, a: Action, exact: bool)
    requires Inv(net, exact) && Enabled(net, a)
    requires exact ==> NoExpiry(net, a)
    ensures EffectOk(net, EffectOf(net, a), exact)
  {
    match a
    case SendHello(_) => TickIsSound(net, a, exact);
    case Ping(_) => TickIsSound(net, a, exact);
    case Advertise(_, _) => AdvertiseIsSound(net, a, exact);
    case DeliverHello(_, _, _, _, _) => HelloIsSound(net, a, exact);
    case DeliverLs(_, _) => DeliveryIsSound(net, a, exact);
    case Audit(u, now, timeout, _, _) =>
      if Expired(net.nodes[u], now, timeout) == {} {
        QuietAuditIsSound(net, a, exact);
      } else {
        AuditIsSound(net, a, exact);
      }
  }
}
