/** Hellos reach every link, and every network has a run that ends quietly with all hellos
  * heard: what is proved of such states is proved of some run of each network.
  */
module LsDiscovery {
  import opened Basics
  import opened LsTable
  import opened LsProtocol
  import opened LsDijkstra
  import opened LsNetwork
  import opened LsInvariants
  import opened LsAgreement
  import opened LsConvergence
  import opened LsRoutes
  import opened LsHeard

  // ---------- hellos ----------

  /** What happens to the copies of one hello: one is taken when it is delivered, one is sent
    * on each link when its number is spent on it, and nothing else changes. */
  lemma {:induction false} HellosAreConserved(net: Net, a: Action, h: Hello)
    requires Enabled(net, a)
    ensures
      var sent := (a.SendHello? || a.Audit?) && h.from == a.u && (a.u, h.to) in net.links &&
                  h.sequenceNumber == net.nodes[a.u].counter;
      var taken := a.DeliverHello? && a.hello == h;
      Next(net, a).hellos[h] + (if taken then 1 else 0) == net.hellos[h] + (if sent then 1 else 0)
  {
    var u, k := Subject(a), net.nodes[Subject(a)].counter;
    BroadcastHelloCounts(net.links, u, k, h);
  }

  lemma {:induction false} BroadcastHelloCounts(links: Links, u: NodeId, k: Uint32, h: Hello)
    ensures BroadcastHello(links, u, k)[h] ==
            if h.from == u && (u, h.to) in links && h.sequenceNumber == k then 1 else 0
  {
    if h.from == u && (u, h.to) in links && h.sequenceNumber == k {
      assert (u, h.to).0 == u && h == Hello(u, (u, h.to).1, k);
    }
  }

  /** The same for the copies of one advertisement on one link: what a router sends or repeats
    * goes out on each of its links. */
  lemma {:induction false} FlightsAreConserved(net: Net, a: Action, f: Flight)
    requires Enabled(net, a)
    ensures
      var out := EffectOf(net, a).out;
      var sent := out == Some(f.message) && f.from == Subject(a) && (f.from, f.to) in net.links;
      var taken := a.DeliverLs? && a.flight == f;
      Next(net, a).flights[f] + (if taken then 1 else 0) == net.flights[f] + (if sent then 1 else 0)
  {
    var out := EffectOf(net, a).out;
    if out.Some? {
      BroadcastCounts(net.links, Subject(a), out.value, f);
    }
  }

  lemma {:induction false} BroadcastCounts(links: Links, u: NodeId, m: Message, f: Flight)
    ensures Broadcast(links, u, m)[f] == if f.from == u && (u, f.to) in links && f.message == m then 1 else 0
  {
    if f.from == u && (u, f.to) in links && f.message == m {
      assert (u, f.to).0 == u && f == Flight(u, (u, f.to).1, m);
    }
  }

  /** A hello, and each audit, puts a HELLO_REQ under the number spent on every link. */
  lemma {:induction false} HelloReaches(net: Net, a: Action, v: NodeId)
    requires Enabled(net, a) && (a.SendHello? || a.Audit?) && (a.u, v) in net.links
    ensures Hello(a.u, v, net.nodes[a.u].counter) in Next(net, a).hellos
  {
    HellosAreConserved(net, a, Hello(a.u, v, net.nodes[a.u].counter));
  }

  // ---------- what can be done next ----------

  /** A vector naming exactly the nodes in s exists. */
  lemma {:induction false} VectorOf(s: set<NodeId>) returns (costs: seq<LinkCost>)
    ensures NamesExactly(costs, s) && UnitCosts(costs)
  {
    costs := [];
    if s != {} {
      var v :| v in s;
      var rest := VectorOf(s - {v});
      forall x ensures Names(rest + [LinkCost(v, 1)], x) <==> x in s {
        NamesSnoc(rest, LinkCost(v, 1), x);
      }
      assert !Names(rest, v);
      costs := rest + [LinkCost(v, 1)];
    }
  }

  lemma {:induction false} CanHear(net: Net, h: Hello) returns (a: Action)
    requires h in net.hellos && h.to < |net.nodes| == |net.sent| && Room(net.nodes[h.to], 1)
    ensures a.DeliverHello? && a.hello == h && Enabled(net, a)
  {
    var s := net.nodes[h.to];
    var s' := Heard(s, h.from, 0, h.sequenceNumber, 0);
    var costs := VectorOf(s'.neighbors.Keys);
    var e := EffectOf(net, DeliverHello(h, 0, 0, costs, map[])).state;
    var routes := GoodRoutesExist(e);
    a := DeliverHello(h, 0, 0, costs, routes);
    assert h.from !in s.neighbors ==> EffectOf(net, a).state == e.(routes := routes);
  }

  lemma {:induction false} CanTake(net: Net, f: Flight) returns (a: Action)
    requires f in net.flights && f.to < |net.nodes| == |net.sent|
    ensures a.DeliverLs? && a.flight == f && Enabled(net, a)
  {
    var e := EffectOf(net, DeliverLs(f, map[])).state;
    var routes := GoodRoutesExist(e);
    a := DeliverLs(f, routes);
    assert Newer(net.nodes[f.to], f.message) ==> EffectOf(net, a).state == e.(routes := routes);
  }

  // ---------- what is left to do ----------

  /** The links (u, v) on which u has not heard v. */
  ghost function Unheard(net: Net): Links {
    set l | l in net.links && l.0 < |net.nodes| && l.1 !in net.nodes[l.0].neighbors
  }

  /** Each link still to be heard leaves room for two more numbers everywhere. */
  ghost predicate Roomy(net: Net) {
    forall u :: 0 <= u < |net.nodes| ==> Room(net.nodes[u], 2 * |Unheard(net)|)
  }

  lemma {:induction false} Prepend(net: Net, a: Action, acts: seq<Action>)
    requires Enabled(net, a) && NoExpiry(net, a) && RunWithoutExpiry(Next(net, a), acts) && Run(Next(net, a), acts)
    ensures RunWithoutExpiry(net, [a] + acts) && Run(net, [a] + acts)
    ensures After(net, [a] + acts) == After(Next(net, a), acts)
  {
    assert ([a] + acts)[1..] == acts;
  }

  /** Taking a vector changes neither neighbours nor counters. */
  lemma {:induction false} TakingKeeps(net: Net, a: Action)
    requires Enabled(net, a) && a.DeliverLs?
    ensures Next(net, a).links == net.links && |Next(net, a).nodes| == |net.nodes|
    ensures forall u :: 0 <= u < |net.nodes| ==>
      Next(net, a).nodes[u].neighbors == net.nodes[u].neighbors && Next(net, a).nodes[u].counter == net.nodes[u].counter
  {
  }

  lemma {:induction false} SayingKeeps(net: Net, v: NodeId)
    requires Enabled(net, SendHello(v))
    ensures
      var net' := Next(net, SendHello(v));
      net'.links == net.links && |net'.nodes| == |net.nodes| && |net'.sent| == |net.sent| &&
      forall u :: 0 <= u < |net.nodes| ==>
        net'.nodes[u].neighbors == net.nodes[u].neighbors &&
        net'.nodes[u].counter == net.nodes[u].counter + (if u == v then 1 else 0)
  {
  }

  lemma {:induction false} HearingAdds(net: Net, a: Action)
    requires Enabled(net, a) && a.DeliverHello? && a.hello.from !in net.nodes[a.hello.to].neighbors
    ensures
      var net' := Next(net, a);
      net'.links == net.links && |net'.nodes| == |net.nodes| &&
      forall u :: 0 <= u < |net.nodes| ==>
        net'.nodes[u].neighbors.Keys == net.nodes[u].neighbors.Keys + (if u == a.hello.to then {a.hello.from} else {}) &&
        net'.nodes[u].counter == net.nodes[u].counter + (if u == a.hello.to then 1 else 0)
  {
  }

  /** When a link has been heard, and at most two numbers spent, room is left for the others. */
  lemma {:induction false} LessUnheard(net: Net, end: Net, u: NodeId, v: NodeId)
    requires end.links == net.links && |end.nodes| == |net.nodes| && Roomy(net)
    requires (u, v) in Unheard(net) && v in end.nodes[u].neighbors
    requires forall w :: 0 <= w < |net.nodes| ==>
      net.nodes[w].neighbors.Keys <= end.nodes[w].neighbors.Keys && end.nodes[w].counter <= net.nodes[w].counter + 2
    ensures Roomy(end) && |Unheard(end)| < |Unheard(net)|
  {
    assert Unheard(end) <= Unheard(net) - {(u, v)};
    SubsetSize(Unheard(end), Unheard(net) - {(u, v)});
  }

  ghost predicate Leads(net: Net, a: Action, net': Net) {
    Enabled(net, a) && NoExpiry(net, a) && net' == Next(net, a)
  }

  lemma {:induction false} LeadsOn(net: Net, a: Action, net': Net)
    requires Leads(net, a, net') && Inv(net, true)
    ensures Inv(net', true)
  {
    StepKeepsInv(net, a, true);
  }

  /** end is mid after u heard v. */
  ghost predicate Hearing(mid: Net, end: Net, u: NodeId, v: NodeId) {
    end.links == mid.links && |end.nodes| == |mid.nodes| && u < |mid.nodes| && v in end.nodes[u].neighbors &&
    forall w :: 0 <= w < |mid.nodes| ==>
      mid.nodes[w].neighbors.Keys <= end.nodes[w].neighbors.Keys && end.nodes[w].counter <= mid.nodes[w].counter + 1
  }

  /** The far end of a link says hello ... */
  lemma {:induction false} SayOne(net: Net, u: NodeId, v: NodeId) returns (mid: Net)
    requires |net.nodes| == |net.sent| && v < |net.nodes| && Room(net.nodes[v], 1) && (v, u) in net.links
    ensures Leads(net, SendHello(v), mid) && Hello(v, u, net.nodes[v].counter) in mid.hellos
    ensures mid.links == net.links && |mid.nodes| == |net.nodes| && |mid.sent| == |net.sent|
    ensures forall w :: 0 <= w < |net.nodes| ==>
      mid.nodes[w].neighbors == net.nodes[w].neighbors &&
      mid.nodes[w].counter == net.nodes[w].counter + (if w == v then 1 else 0)
  {
    mid := Next(net, SendHello(v));
    HelloReaches(net, SendHello(v), u);
    SayingKeeps(net, v);
  }

  /** ... and the hello is delivered. */
  lemma {:induction false} HearIt(mid: Net, h: Hello) returns (b: Action, end: Net)
    requires |mid.nodes| == |mid.sent| && h in mid.hellos && h.to < |mid.nodes|
    requires Room(mid.nodes[h.to], 1) && h.from !in mid.nodes[h.to].neighbors
    ensures Leads(mid, b, end) && Hearing(mid, end, h.to, h.from)
  {
    b := CanHear(mid, h);
    end := Next(mid, b);
    HearingAdds(mid, b);
  }

  /** One more link is heard. */
  lemma {:induction false} HearOne(net: Net) returns (a: Action, mid: Net, b: Action, end: Net)
    requires Inv(net, true) && Roomy(net) && Unheard(net) != {}
    ensures Leads(net, a, mid) && Leads(mid, b, end)
    ensures Roomy(end) && |Unheard(end)| < |Unheard(net)| && end.links == net.links
  {
    var l :| l in Unheard(net);
    var u, v := l.0, l.1;
    assert (v, u) in net.links && |Unheard(net)| > 0;
    a := SendHello(v);
    mid := SayOne(net, u, v);
    b, end := HearIt(mid, Hello(v, u, net.nodes[v].counter));
    LessUnheard(net, end, u, v);
  }

  // ---------- the run ----------

  /** From here on everything can be heard and delivered. */
  lemma {:induction false} GoesOn(net: Net) returns (acts: seq<Action>)
    requires Inv(net, true) && Roomy(net)
    ensures RunWithoutExpiry(net, acts) && Run(net, acts)
    ensures AllHeard(After(net, acts)) && After(net, acts).links == net.links
    decreases |Unheard(net)|, Potential(net)
  {
    if Unheard(net) != {} {
      var a, mid, b, end := HearOne(net);
      LeadsOn(net, a, mid);
      LeadsOn(mid, b, end);
      var rest := GoesOn(end);
      Prepend(mid, b, rest);
      Prepend(net, a, [b] + rest);
      acts := [a] + ([b] + rest);
    } else if net.flights != multiset{} {
      acts := TakeOne(net);
    } else {
      acts := [];
      forall u, v | (u, v) in net.links ensures u < |net.nodes| && v in net.nodes[u].neighbors {
        assert (u, v) !in Unheard(net);
      }
    }
  }

  lemma {:induction false} TakeOne(net: Net) returns (acts: seq<Action>)
    requires Inv(net, true) && Roomy(net) && Unheard(net) == {} && net.flights != multiset{}
    ensures RunWithoutExpiry(net, acts) && Run(net, acts)
    ensures AllHeard(After(net, acts)) && After(net, acts).links == net.links
    decreases |Unheard(net)|, Potential(net), 0
  {
    var f :| f in net.flights;
    assert FlightOk(net, f);
    var a := CanTake(net, f);
    StepKeepsInv(net, a, true);
    DeliverySpends(net, a, true);
    TakingKeeps(net, a);
    assert Unheard(Next(net, a)) == {};
    var rest := GoesOn(Next(net, a));
    Prepend(net, a, rest);
    acts := [a] + rest;
  }

  /** Every connected network whose counters leave room has a run without expiry that ends
    * with all hellos heard and nothing in flight, and there every router delivers to every
    * other. */
  lemma {:induction false} EveryNetworkDelivers(start: Net) returns (acts: seq<Action>)
    requires Initial(start) && Connected(start)
    requires forall u :: 0 <= u < |start.nodes| ==> Room(start.nodes[u], 2 * |start.links|)
    ensures Run(start, acts) && RunWithoutExpiry(start, acts)
    ensures Connected(After(start, acts)) && AllHeard(After(start, acts))
    ensures forall u, d :: 0 <= u < |start.nodes| && 0 <= d < |start.nodes| ==> Delivers(After(start, acts), u, d)
  {
    InitialInv(start, true);
    assert Unheard(start) <= start.links;
    SubsetSize(Unheard(start), start.links);
    acts := GoesOn(start);
    SameSize(start, acts);
    forall u, d | 0 <= u < |start.nodes| && 0 <= d < |start.nodes| ensures Delivers(After(start, acts), u, d) {
      QuietRunDelivers(start, acts, u, d);
    }
  }
}
