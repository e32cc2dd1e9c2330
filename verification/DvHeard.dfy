/** Who is in the neighbour table of a distance-vector router: on every run exactly the routers
  * whose last hello, or first vector, was in time for every audit since.
  */
module DvHeard {
  import opened Basics
  import opened DvProtocol
  import opened DvNetwork
  import opened DvSafety

  function TimeOf(a: Action): int {
    match a
    case AddLink(_, _) => 0
    case DeliverHello(_, _, _, now) => now
    case DeliverTable(_, _, _, now) => now
    case Audit(_, now, _) => now
  }

  /** u hears a hello of v, or the vector of a router it has no record of. */
  ghost predicate Refreshes(net: Net, a: Action, u: NodeId, v: NodeId) {
    u < |net.nodes| &&
    ((a.DeliverHello? && a.u == v && a.v == u) ||
     (a.DeliverTable? && a.u == v && a.v == u && v !in net.nodes[u].neighbors))
  }

  /** No audit of u finds a neighbour expired that was last heard at this time. */
  predicate InTime(a: Action, u: NodeId, heard: int) {
    a.Audit? && a.u == u ==> a.now < heard + a.timeout
  }

  ghost predicate HasRecord(net: Net, u: NodeId, v: NodeId, heard: int) {
    u < |net.nodes| && v in net.nodes[u].neighbors && net.nodes[u].neighbors[v].lastUpdated == heard
  }

  lemma {:induction false} RecordAfterEffect(net: Net, a: Action, e: Effect, v: NodeId, heard: int)
    requires Handles(net, a, e)
    ensures
      (v in e.state.neighbors && e.state.neighbors[v].lastUpdated == heard) <==>
      if Refreshes(net, a, e.u, v) then heard == TimeOf(a) else HasRecord(net, e.u, v, heard) && InTime(a, e.u, heard)
  {
    match a
    case DeliverHello(_, _, _, _) =>
    case DeliverTable(_, _, _, _) =>
    case Audit(_, now, timeout) =>
      var s := net.nodes[e.u];
      if v in s.neighbors {
        assert v in Expired(s, now, timeout) <==> s.neighbors[v].lastUpdated + timeout <= now;
      }
  }

  /** What one step does to the record. */
  lemma {:induction false} RecordAfter(net: Net, a: Action, net': Net, u: NodeId, v: NodeId, heard: int)
    requires Step(net, a, net') && u < |net.nodes|
    ensures
      HasRecord(net', u, v, heard) <==>
      if Refreshes(net, a, u, v) then heard == TimeOf(a) else HasRecord(net, u, v, heard) && InTime(a, u, heard)
  {
    if !a.AddLink? {
      var e :| Handles(net, a, e) && Moves(net, e, net');
      if e.u == u {
        RecordAfterEffect(net, a, e, v, heard);
      }
    }
  }

  // ---------- on runs ----------

  /** p tells the steps that refresh the record u has of v. */
  ghost predicate Tells(p: nat -> bool, states: seq<Net>, acts: seq<Action>, u: NodeId, v: NodeId) {
    |states| == |acts| + 1 &&
    forall m: nat {:trigger Refreshes(states[m], acts[m], u, v)} :: m < |acts| ==> (p(m) <==> Refreshes(states[m], acts[m], u, v))
  }

  /** Step i refreshed the record last before state j, in time for all audits in between. */
  ghost predicate KeptSince(p: nat -> bool, acts: seq<Action>, i: nat, j: nat, u: NodeId) {
    i < j <= |acts| && p(i) && forall m: nat :: i < m < j ==> !p(m) && InTime(acts[m], u, TimeOf(acts[i]))
  }

  lemma {:induction false} KeptOneMore(p: nat -> bool, acts: seq<Action>, j: nat, u: NodeId, heard: int)
    requires j < |acts|
    ensures
      (exists i: nat {:trigger KeptSince(p, acts, i, j + 1, u)} :: KeptSince(p, acts, i, j + 1, u) && TimeOf(acts[i]) == heard) <==>
      if p(j) then heard == TimeOf(acts[j])
      else
        InTime(acts[j], u, heard) &&
        exists i: nat {:trigger KeptSince(p, acts, i, j, u)} :: KeptSince(p, acts, i, j, u) && TimeOf(acts[i]) == heard
  {
    if p(j) {
      assert KeptSince(p, acts, j, j + 1, u);
    }
    forall i: nat ensures i < j && !p(j) ==>
      (KeptSince(p, acts, i, j + 1, u) <==> KeptSince(p, acts, i, j, u) && InTime(acts[j], u, TimeOf(acts[i])))
    {
    }
    if i: nat :| KeptSince(p, acts, i, j, u) && TimeOf(acts[i]) == heard && !p(j) && InTime(acts[j], u, heard) {
      assert KeptSince(p, acts, i, j + 1, u);
    }
  }

  lemma {:induction false} RecordNext(p: nat -> bool, states: seq<Net>, acts: seq<Action>, m: nat, u: NodeId, v: NodeId, heard: int)
    requires Run(states, acts) && Tells(p, states, acts, u, v) && m < |acts| && u < |states[m].nodes|
    ensures u < |states[m + 1].nodes|
    ensures
      HasRecord(states[m + 1], u, v, heard) <==>
      if p(m) then heard == TimeOf(acts[m]) else HasRecord(states[m], u, v, heard) && InTime(acts[m], u, heard)
  {
    assert StepAt(states, acts, m);
    RecordAfter(states[m], acts[m], states[m + 1], u, v, heard);
  }

  lemma {:induction false} RecordOnRun(p: nat -> bool, states: seq<Net>, acts: seq<Action>, j: nat, u: NodeId, v: NodeId, heard: int)
    requires Run(states, acts) && Tells(p, states, acts, u, v) && j < |states| && u < |states[0].nodes|
    ensures u < |states[j].nodes|
    ensures
      HasRecord(states[j], u, v, heard) <==>
      exists i: nat {:trigger KeptSince(p, acts, i, j, u)} :: KeptSince(p, acts, i, j, u) && TimeOf(acts[i]) == heard
  {
    if j > 0 {
      RecordOnRun(p, states, acts, j - 1, u, v, heard);
      RecordNext(p, states, acts, j - 1, u, v, heard);
      KeptOneMore(p, acts, j - 1, u, heard);
    }
  }

  /** On every run a router is in the neighbour table of u exactly when its record was last
    * refreshed in time for all audits of u since; the record carries the time of that. */
  lemma {:induction false} TableIsHeard(p: nat -> bool, states: seq<Net>, acts: seq<Action>, j: nat, u: NodeId, v: NodeId)
    requires Run(states, acts) && Tells(p, states, acts, u, v) && j < |states| && u < |states[0].nodes|
    ensures u < |states[j].nodes|
    ensures v in states[j].nodes[u].neighbors <==>
            exists i: nat {:trigger KeptSince(p, acts, i, j, u)} :: KeptSince(p, acts, i, j, u)
    ensures forall i: nat {:trigger KeptSince(p, acts, i, j, u)} :: KeptSince(p, acts, i, j, u) ==>
      v in states[j].nodes[u].neighbors && states[j].nodes[u].neighbors[v].lastUpdated == TimeOf(acts[i])
  {
    RunKeepsSize(states, acts, j);
    if v in states[j].nodes[u].neighbors {
      RecordOnRun(p, states, acts, j, u, v, states[j].nodes[u].neighbors[v].lastUpdated);
    }
    forall i: nat | KeptSince(p, acts, i, j, u) ensures HasRecord(states[j], u, v, TimeOf(acts[i])) {
      RecordOnRun(p, states, acts, j, u, v, TimeOf(acts[i]));
    }
  }
}
