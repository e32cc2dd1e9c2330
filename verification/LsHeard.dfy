/** Who is in the neighbour table of a link-state router: on every run exactly the routers
  * whose last hello was in time for every audit since.
  */
module LsHeard {
  import opened Basics
  import opened LsProtocol
  import opened LsNetwork

  /** u hears a hello of v. */
  predicate Hears(a: Action, u: NodeId, v: NodeId) {
    a.DeliverHello? && a.hello.to == u && a.hello.from == v
  }

  /** No audit of u finds a neighbour expired that was last heard at this time. */
  predicate InTime(a: Action, u: NodeId, heard: int) {
    a.Audit? && a.u == u ==> a.now < heard + a.timeout
  }

  /** Nothing in acts concerns the record that u has of v since it heard v at this time. */
  ghost predicate Undisturbed(acts: seq<Action>, u: NodeId, v: NodeId, heard: int) {
    forall j :: 0 <= j < |acts| ==> !Hears(acts[j], u, v) && InTime(acts[j], u, heard)
  }

  /** acts[i] is the last hello of v that u hears, and it is in time for all later audits. */
  ghost predicate KeptSince(acts: seq<Action>, i: nat, u: NodeId, v: NodeId) {
    i < |acts| && Hears(acts[i], u, v) && Undisturbed(acts[i + 1..], u, v, acts[i].now)
  }

  ghost predicate HasRecord(net: Net, u: NodeId, v: NodeId, heard: int) {
    u < |net.nodes| && v in net.nodes[u].neighbors && net.nodes[u].neighbors[v].lastUpdated == heard
  }

  /** What one action does to the record. */
  lemma {:induction false} RecordAfter(net: Net, a: Action, u: NodeId, v: NodeId, heard: int)
    requires Enabled(net, a) && u < |net.nodes|
    ensures
      HasRecord(Next(net, a), u, v, heard) <==>
      if Hears(a, u, v) then heard == a.now else HasRecord(net, u, v, heard) && InTime(a, u, heard)
  {
    var e := EffectOf(net, a);
    assert Next(net, a).nodes == net.nodes[e.u := e.state];
    match a
    case SendHello(_) =>
    case Ping(_) =>
    case Advertise(_, _) =>
    case DeliverHello(_, _, _, _, _) =>
    case DeliverLs(_, _) =>
    case Audit(w, now, timeout, _, _) =>
      if w == u && v in net.nodes[u].neighbors {
        assert v in Expired(net.nodes[u], now, timeout) <==> net.nodes[u].neighbors[v].lastUpdated + timeout <= now;
      }
  }

  lemma {:induction false} RecordOnRun(net: Net, acts: seq<Action>, u: NodeId, v: NodeId, heard: int)
    requires Run(net, acts) && u < |net.nodes|
    ensures
      HasRecord(After(net, acts), u, v, heard) <==>
      (HasRecord(net, u, v, heard) && Undisturbed(acts, u, v, heard)) ||
      (exists i: nat {:trigger KeptSince(acts, i, u, v)} :: KeptSince(acts, i, u, v) && acts[i].now == heard)
    decreases |acts|
  {
    if acts != [] {
      RecordAfter(net, acts[0], u, v, heard);
      RecordOnRun(Next(net, acts[0]), acts[1..], u, v, heard);
      UndisturbedFront(acts, u, v, heard);
      KeptSinceFront(acts, u, v, heard);
    }
  }

  lemma {:induction false} UndisturbedFront(acts: seq<Action>, u: NodeId, v: NodeId, heard: int)
    requires acts != []
    ensures Undisturbed(acts, u, v, heard) <==>
            !Hears(acts[0], u, v) && InTime(acts[0], u, heard) && Undisturbed(acts[1..], u, v, heard)
  {
    if !Hears(acts[0], u, v) && InTime(acts[0], u, heard) && Undisturbed(acts[1..], u, v, heard) {
      forall j | 0 <= j < |acts| ensures !Hears(acts[j], u, v) && InTime(acts[j], u, heard) {
        assert j > 0 ==> acts[j] == acts[1..][j - 1];
      }
    }
  }

  lemma {:induction false} KeptSinceFront(acts: seq<Action>, u: NodeId, v: NodeId, heard: int)
    requires acts != []
    ensures
      (exists i: nat {:trigger KeptSince(acts, i, u, v)} :: KeptSince(acts, i, u, v) && acts[i].now == heard) <==>
      (Hears(acts[0], u, v) && acts[0].now == heard && Undisturbed(acts[1..], u, v, heard)) ||
      (exists i: nat {:trigger KeptSince(acts[1..], i, u, v)} :: KeptSince(acts[1..], i, u, v) && acts[1..][i].now == heard)
  {
    forall i: nat ensures i > 0 ==> (KeptSince(acts, i, u, v) <==> KeptSince(acts[1..], i - 1, u, v)) {
      if 0 < i < |acts| {
        assert acts[1..][i - 1 + 1..] == acts[i + 1..];
      }
    }
    if i: nat :| KeptSince(acts[1..], i, u, v) && acts[1..][i].now == heard {
      assert KeptSince(acts, i + 1, u, v);
    }
    if Hears(acts[0], u, v) && acts[0].now == heard && Undisturbed(acts[1..], u, v, heard) {
      assert KeptSince(acts, 0, u, v);
    }
  }

  /** On every run a router is in the neighbour table of u exactly when its last hello was in
    * time for all audits of u since, and the record carries the time of that hello. */
  lemma {:induction false} TableIsHeard(start: Net, acts: seq<Action>, u: NodeId, v: NodeId)
    requires Initial(start) && Run(start, acts) && u < |start.nodes|
    ensures u < |After(start, acts).nodes|
    ensures v in After(start, acts).nodes[u].neighbors <==>
            exists i: nat {:trigger KeptSince(acts, i, u, v)} :: KeptSince(acts, i, u, v)
    ensures forall i: nat {:trigger KeptSince(acts, i, u, v)} :: KeptSince(acts, i, u, v) ==>
      v in After(start, acts).nodes[u].neighbors &&
      After(start, acts).nodes[u].neighbors[v].lastUpdated == acts[i].now
  {
    SameSize(start, acts);
    var end := After(start, acts);
    if v in end.nodes[u].neighbors {
      RecordOnRun(start, acts, u, v, end.nodes[u].neighbors[v].lastUpdated);
    }
    forall i: nat | KeptSince(acts, i, u, v) ensures HasRecord(end, u, v, acts[i].now) {
      RecordOnRun(start, acts, u, v, acts[i].now);
    }
  }

  lemma {:induction false} SameSize(net: Net, acts: seq<Action>)
    requires Run(net, acts)
    ensures |After(net, acts).nodes| == |net.nodes|
    decreases |acts|
  {
    if acts != [] {
      NextSize(net, acts[0]);
      SameSize(Next(net, acts[0]), acts[1..]);
    }
  }

  lemma {:induction false} NextSize(net: Net, a: Action)
    requires Enabled(net, a)
    ensures |Next(net, a).nodes| == |net.nodes|
  {
  }

  // ---------- with a clock ----------

  predicate Timed(a: Action) {
    a.DeliverHello? || a.Audit?
  }

  /** The clock never goes back. */
  ghost predicate Clocked(acts: seq<Action>) {
    forall i, j :: 0 <= i < j < |acts| && Timed(acts[i]) && Timed(acts[j]) ==> acts[i].now <= acts[j].now
  }

  /** All audits use one timeout. */
  ghost predicate OneTimeout(acts: seq<Action>, timeout: int) {
    forall i :: 0 <= i < |acts| && acts[i].Audit? ==> acts[i].timeout == timeout
  }

  /** A neighbour whose hello was heard at time h is still in the table after every audit at
    * a time before h + timeout, and was heard at h or later. */
  lemma {:induction false} HeardNeighborStays(start: Net, acts: seq<Action>, timeout: int, i: nat, u: NodeId, v: NodeId)
    requires Initial(start) && Run(start, acts) && u < |start.nodes| && Clocked(acts) && OneTimeout(acts, timeout)
    requires i < |acts| - 1 && Hears(acts[i], u, v)
    requires acts[|acts| - 1].Audit? && acts[|acts| - 1].u == u && acts[|acts| - 1].now < acts[i].now + timeout
    ensures
      var end := After(start, acts);
      u < |end.nodes| && v in end.nodes[u].neighbors && end.nodes[u].neighbors[v].lastUpdated >= acts[i].now
  {
    var last := ClockKeeps(acts, timeout, i, u, v);
    TableIsHeard(start, acts, u, v);
  }

  lemma {:induction false} ClockKeeps(acts: seq<Action>, timeout: int, i: nat, u: NodeId, v: NodeId) returns (last: nat)
    requires Clocked(acts) && OneTimeout(acts, timeout) && i < |acts| - 1 && Hears(acts[i], u, v)
    requires acts[|acts| - 1].Audit? && acts[|acts| - 1].now < acts[i].now + timeout
    ensures KeptSince(acts, last, u, v) && acts[i].now <= acts[last].now
  {
    last := LastHearing(acts, u, v, i);
    var rest, audit := acts[last + 1..], acts[|acts| - 1];
    forall j | 0 <= j < |rest| ensures !Hears(rest[j], u, v) && InTime(rest[j], u, acts[last].now) {
      assert rest[j] == acts[last + 1 + j];
      if rest[j].Audit? && last + 1 + j < |acts| - 1 {
        assert rest[j].now <= audit.now;
      }
    }
  }

  lemma {:induction false} LastHearing(acts: seq<Action>, u: NodeId, v: NodeId, i: nat) returns (last: nat)
    requires i < |acts| && Hears(acts[i], u, v)
    ensures i <= last < |acts| && Hears(acts[last], u, v)
    ensures forall j :: last < j < |acts| ==> !Hears(acts[j], u, v)
    decreases |acts| - i
  {
    if j :| i < j < |acts| && Hears(acts[j], u, v) {
      last := LastHearing(acts, u, v, j);
    } else {
      last := i;
    }
  }
}
