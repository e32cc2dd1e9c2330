/** What each link-state message handler does to the tables of one router,
  * stated as functions on the router's state.
  */
module LsProtocol {
  import opened Basics
  import opened LsTable

  const MAX_TTL: Uint8 := 16

  datatype Neighbor = Neighbor(interfaceAddr: nat, lastUpdated: int)

  type Neighbors = map<NodeId, Neighbor>

  datatype Route = Route(dest: NodeId, nextHop: NodeId, interfaceAddr: nat, cost: Uint32)

  datatype LsState = LsState(me: NodeId, table: Table, neighbors: Neighbors, counter: Uint32,
                             routes: map<NodeId, Route>)

  /** An LS_TABLE_MSG. */
  datatype Message = Message(originator: NodeId, sequenceNumber: Uint32, ttl: Uint8, neighborCosts: seq<LinkCost>)

  /** The post-incremented uint32_t counter, which wraps around. */
  function NextCounter(c: Uint32): Uint32 {
    if c + 1 < TWO_TO_32 then c + 1 else 0
  }

  /** The uint8_t hop count is decremented but never tested. */
  function NextTtl(ttl: Uint8): (next: Uint8)
    ensures next == (ttl + 255) % 256
  {
    if ttl == 0 then 0xff else ttl - 1
  }

  // ---------- vectors ----------

  ghost predicate NoDuplicates(costs: seq<LinkCost>) {
    forall i, j :: 0 <= i < j < |costs| ==> costs[i].neighbor != costs[j].neighbor
  }

  ghost predicate NamesTwice(costs: seq<LinkCost>, v: NodeId) {
    exists i, j :: 0 <= i < j < |costs| && costs[i].neighbor == v && costs[j].neighbor == v
  }

  /** The vector names exactly the nodes in s, each once. */
  ghost predicate NamesExactly(costs: seq<LinkCost>, s: set<NodeId>) {
    (forall v :: Names(costs, v) <==> v in s) && NoDuplicates(costs)
  }

  ghost predicate UnitCosts(costs: seq<LinkCost>) {
    forall i :: 0 <= i < |costs| ==> costs[i].cost == 1
  }

  /** What SendLSTableMessage advertises, in whatever order the table is visited. */
  ghost predicate Advertises(costs: seq<LinkCost>, neighbors: Neighbors) {
    NamesExactly(costs, neighbors.Keys) && UnitCosts(costs)
  }

  /** costs without the first pair naming each node in gone. */
  function Without(costs: seq<LinkCost>, gone: set<NodeId>): seq<LinkCost> {
    if costs == [] then []
    else if costs[0].neighbor in gone then Without(costs[1..], gone - {costs[0].neighbor})
    else [costs[0]] + Without(costs[1..], gone)
  }

  lemma {:induction false} WithoutNone(costs: seq<LinkCost>)
    ensures Without(costs, {}) == costs
  {
    if costs != [] {
      WithoutNone(costs[1..]);
    }
  }

  /** Removing one more name after some others removes them together. */
  lemma {:induction false} WithoutOneMore(costs: seq<LinkCost>, gone: set<NodeId>, v: NodeId)
    requires v !in gone
    ensures Without(Without(costs, gone), {v}) == Without(costs, gone + {v})
  {
    if costs != [] {
      var head, rest := costs[0], costs[1..];
      if head.neighbor in gone {
        WithoutOneMore(rest, gone - {head.neighbor}, v);
        assert gone + {v} - {head.neighbor} == gone - {head.neighbor} + {v};
      } else {
        var w := Without(rest, gone);
        assert ([head] + w)[0] == head && ([head] + w)[1..] == w;
        if head.neighbor == v {
          assert {v} - {v} == {} && gone + {v} - {v} == gone;
          WithoutNone(w);
        } else {
          WithoutOneMore(rest, gone, v);
        }
      }
    }
  }

  lemma {:induction false} WithoutAt(costs: seq<LinkCost>, v: NodeId, i: nat)
    requires i <= |costs| && forall k :: 0 <= k < i ==> costs[k].neighbor != v
    ensures i == |costs| ==> Without(costs, {v}) == costs
    ensures i < |costs| && costs[i].neighbor == v ==> Without(costs, {v}) == costs[..i] + costs[i + 1..]
  {
    if i > 0 {
      WithoutAt(costs[1..], v, i - 1);
      assert i < |costs| ==> [costs[0]] + (costs[1..][..i - 1] + costs[1..][i..]) == costs[..i] + costs[i + 1..];
    } else if costs != [] {
      WithoutNone(costs[1..]);
      assert {v} - {v} == {};
    }
  }

  lemma {:induction false} WithoutNames(costs: seq<LinkCost>, gone: set<NodeId>, v: NodeId)
    requires NoDuplicates(costs)
    ensures NoDuplicates(Without(costs, gone))
    ensures Names(Without(costs, gone), v) <==> Names(costs, v) && v !in gone
  {
    if costs != [] {
      var head, rest := costs[0], costs[1..];
      assert forall x :: Names(costs, x) <==> x == head.neighbor || Names(rest, x) by {
        forall x ensures Names(costs, x) <==> x == head.neighbor || Names(rest, x) { NamesCons(head, rest, x); }
      }
      assert !Names(rest, head.neighbor);
      if head.neighbor in gone {
        WithoutNames(rest, gone - {head.neighbor}, v);
      } else {
        var w := Without(rest, gone);
        WithoutNames(rest, gone, v);
        WithoutNames(rest, gone, head.neighbor);
        NamesCons(head, w, v);
        assert [head] + w == Without(costs, gone);
        forall i, j | 0 <= i < j < |w| + 1
          ensures ([head] + w)[i].neighbor != ([head] + w)[j].neighbor
        {
          assert ([head] + w)[j] == w[j - 1];
          if i == 0 {
            assert w[j - 1].neighbor != head.neighbor;
          }
        }
      }
    }
  }

  lemma {:induction false} NamesTwiceCons(head: LinkCost, rest: seq<LinkCost>, v: NodeId)
    ensures NamesTwice([head] + rest, v) <==> NamesTwice(rest, v) || (head.neighbor == v && Names(rest, v))
  {
    var costs := [head] + rest;
    if i, j :| 0 <= i < j < |rest| && rest[i].neighbor == v && rest[j].neighbor == v {
      assert costs[i + 1].neighbor == v && costs[j + 1].neighbor == v;
    }
    if head.neighbor == v && Names(rest, v) {
      var j :| 0 <= j < |rest| && rest[j].neighbor == v;
      assert costs[0].neighbor == v && costs[j + 1].neighbor == v;
    }
    if NamesTwice(costs, v) {
      var i, j :| 0 <= i < j < |costs| && costs[i].neighbor == v && costs[j].neighbor == v;
      assert rest[j - 1].neighbor == v && (i > 0 ==> rest[i - 1].neighbor == v);
    }
  }

  /** In any vector a removed name stays exactly when a second pair named it. */
  lemma {:induction false} WithoutNamesAgain(costs: seq<LinkCost>, gone: set<NodeId>, v: NodeId)
    ensures Names(Without(costs, gone), v) <==> if v in gone then NamesTwice(costs, v) else Names(costs, v)
  {
    if costs != [] {
      var head, rest := costs[0], costs[1..];
      assert costs == [head] + rest;
      NamesCons(head, rest, v);
      NamesTwiceCons(head, rest, v);
      if head.neighbor in gone {
        WithoutNamesAgain(rest, gone - {head.neighbor}, v);
      } else {
        WithoutNamesAgain(rest, gone, v);
        NamesCons(head, Without(rest, gone), v);
      }
    }
  }

  lemma {:induction false} WithoutKeepsUnit(costs: seq<LinkCost>, gone: set<NodeId>)
    requires UnitCosts(costs)
    ensures UnitCosts(Without(costs, gone))
  {
    if costs != [] {
      WithoutKeepsUnit(costs[1..], if costs[0].neighbor in gone then gone - {costs[0].neighbor} else gone);
    }
  }

  lemma {:induction false} NamesCons(head: LinkCost, rest: seq<LinkCost>, v: NodeId)
    ensures Names([head] + rest, v) <==> v == head.neighbor || Names(rest, v)
  {
    var all := [head] + rest;
    if Names(all, v) {
      var i :| 0 <= i < |all| && all[i].neighbor == v;
      if i > 0 { assert rest[i - 1].neighbor == v; }
    }
    if Names(rest, v) {
      var i :| 0 <= i < |rest| && rest[i].neighbor == v;
      assert all[i + 1].neighbor == v;
    }
    assert all[0] == head;
  }

  lemma {:induction false} NamesSnoc(costs: seq<LinkCost>, last: LinkCost, v: NodeId)
    ensures Names(costs + [last], v) <==> v == last.neighbor || Names(costs, v)
  {
    var all := costs + [last];
    if Names(all, v) {
      var i :| 0 <= i < |all| && all[i].neighbor == v;
      if i < |costs| { assert costs[i].neighbor == v; }
    }
    if Names(costs, v) {
      var i :| 0 <= i < |costs| && costs[i].neighbor == v;
      assert all[i].neighbor == v;
    }
    assert all[|costs|] == last;
  }

  // ---------- handlers ----------

  /** The tables after a HELLO_REQ from a neighbour. */
  function Heard(s: LsState, from: NodeId, interfaceAddr: nat, sequenceNumber: Uint32, now: int): LsState {
    if from in s.neighbors then
      s.(neighbors := s.neighbors[from := s.neighbors[from].(lastUpdated := now)])
    else
      var own :=
        if s.me in s.table then
          s.table[s.me].(neighborCosts := s.table[s.me].neighborCosts + [LinkCost(from, 1)])
        else
          Entry([LinkCost(from, 1)], sequenceNumber);
      s.(neighbors := s.neighbors[from := Neighbor(interfaceAddr, now)], table := s.table[s.me := own])
  }

  predicate Newer(s: LsState, m: Message) {
    m.originator in s.table ==> m.sequenceNumber > s.table[m.originator].sequenceNumber
  }

  /** The tables after an LS_TABLE_MSG. */
  function Received(s: LsState, m: Message): LsState {
    if Newer(s, m) then s.(table := s.table[m.originator := Entry(m.neighborCosts, m.sequenceNumber)]) else s
  }

  function Expired(s: LsState, now: int, timeout: int): set<NodeId> {
    set v | v in s.neighbors && s.neighbors[v].lastUpdated + timeout <= now
  }

  /** An audit looks up the own entry and the entry of each neighbour it removes. */
  predicate Removable(s: LsState, gone: set<NodeId>) {
    gone != {} ==> s.me in s.table && gone <= s.table.Keys
  }

  /** The table after the links to the nodes in gone were removed: from the own
    * entry, and from the entry of each of them. */
  function Unlinked(t: Table, me: NodeId, gone: set<NodeId>): Table {
    map v | v in t ::
      if v == me then t[v].(neighborCosts := Without(t[v].neighborCosts, gone))
      else if v in gone then t[v].(neighborCosts := Without(t[v].neighborCosts, {me}))
      else t[v]
  }

  lemma {:induction false} UnlinkedNone(t: Table, me: NodeId)
    ensures Unlinked(t, me, {}) == t
  {
    if me in t {
      WithoutNone(t[me].neighborCosts);
    }
  }

  lemma {:induction false} UnlinkedOneMore(t: Table, me: NodeId, gone: set<NodeId>, v: NodeId)
    requires me in t && v in t && v != me && v !in gone
    ensures
      var u := Unlinked(t, me, gone);
      var own := u[me].(neighborCosts := Without(u[me].neighborCosts, {v}));
      var other := u[v].(neighborCosts := Without(u[v].neighborCosts, {me}));
      Unlinked(t, me, gone + {v}) == u[me := own][v := other]
  {
    WithoutOneMore(t[me].neighborCosts, gone, v);
  }

  /** The tables after an audit. */
  function Audited(s: LsState, now: int, timeout: int): LsState {
    var gone := Expired(s, now, timeout);
    s.(neighbors := s.neighbors - gone, table := Unlinked(s.table, s.me, gone))
  }

  /** The pair of links between me and one of the nodes in gone. */
  predicate BetweenUs(me: NodeId, gone: set<NodeId>, x: NodeId, y: NodeId) {
    (x == me && y in gone) || (x in gone && y == me)
  }

  /** t' has the entries of t under their numbers, with the links between me and the nodes
    * in gone removed once, and every other link at its cost. */
  ghost predicate LinksCut(t: Table, me: NodeId, gone: set<NodeId>, t': Table) {
    t'.Keys == t.Keys && (forall x :: x in t ==> t'[x].sequenceNumber == t[x].sequenceNumber) &&
    (forall x, y :: Edge(t', x, y) <==>
      if BetweenUs(me, gone, x, y) then x in t && NamesTwice(t[x].neighborCosts, y) else Edge(t, x, y)) &&
    (forall x, y :: !BetweenUs(me, gone, x, y) ==> Weight(t', x, y) == Weight(t, x, y))
  }

  lemma {:induction false} WithoutCosts(costs: seq<LinkCost>, gone: set<NodeId>, v: NodeId)
    requires v !in gone
    ensures FirstCost(Without(costs, gone), v) == FirstCost(costs, v)
  {
    if costs != [] {
      WithoutCosts(costs[1..], gone - {costs[0].neighbor}, v);
      WithoutCosts(costs[1..], gone, v);
    }
  }

  lemma {:induction false} UnlinkedIsCut(t: Table, me: NodeId, gone: set<NodeId>)
    requires me !in gone
    ensures LinksCut(t, me, gone, Unlinked(t, me, gone))
  {
    var t' := Unlinked(t, me, gone);
    forall x, y
      ensures Edge(t', x, y) <==>
        if BetweenUs(me, gone, x, y) then x in t && NamesTwice(t[x].neighborCosts, y) else Edge(t, x, y)
      ensures !BetweenUs(me, gone, x, y) ==> Weight(t', x, y) == Weight(t, x, y)
    {
      if x in t {
        var dropped := if x == me then gone else if x in gone then {me} else {};
        WithoutNone(t[x].neighborCosts);
        WithoutNamesAgain(t[x].neighborCosts, dropped, y);
        if y !in dropped {
          WithoutCosts(t[x].neighborCosts, dropped, y);
        }
      }
    }
  }

  lemma {:induction false} CutByAudit(s: LsState, now: int, timeout: int)
    requires s.me !in s.neighbors
    ensures
      var a := Audited(s, now, timeout);
      LinksCut(s.table, s.me, s.neighbors.Keys - a.neighbors.Keys, a.table)
  {
    var gone := Expired(s, now, timeout);
    assert s.neighbors.Keys - (s.neighbors - gone).Keys == gone;
    UnlinkedIsCut(s.table, s.me, gone);
  }

  // ---------- the own entry and the neighbour table ----------

  /** The own entry names exactly the nodes of the neighbour table, without duplicates. */
  ghost predicate OwnAgrees(s: LsState) {
    if s.me in s.table then NamesExactly(s.table[s.me].neighborCosts, s.neighbors.Keys)
    else s.neighbors == map[]
  }

  lemma {:induction false} HeardKeepsAgreement(s: LsState, from: NodeId, interfaceAddr: nat, sequenceNumber: Uint32, now: int)
    requires OwnAgrees(s)
    ensures OwnAgrees(Heard(s, from, interfaceAddr, sequenceNumber, now))
  {
    var s' := Heard(s, from, interfaceAddr, sequenceNumber, now);
    if from in s.neighbors {
      assert s'.neighbors.Keys == s.neighbors.Keys;
    } else {
      var costs := if s.me in s.table then s.table[s.me].neighborCosts else [];
      assert s'.table[s.me].neighborCosts == costs + [LinkCost(from, 1)];
      assert NamesExactly(costs, s.neighbors.Keys);
      assert !Names(costs, from);
      forall v ensures Names(costs + [LinkCost(from, 1)], v) <==> v in s'.neighbors.Keys {
        NamesSnoc(costs, LinkCost(from, 1), v);
      }
    }
  }

  lemma {:induction false} AuditKeepsAgreement(s: LsState, now: int, timeout: int)
    requires OwnAgrees(s)
    ensures OwnAgrees(Audited(s, now, timeout))
  {
    if s.me in s.table {
      var costs, gone := s.table[s.me].neighborCosts, Expired(s, now, timeout);
      assert NoDuplicates(costs);
      forall v
        ensures Names(Without(costs, gone), v) <==> v in s.neighbors.Keys - gone
        ensures NoDuplicates(Without(costs, gone))
      {
        WithoutNames(costs, gone, v);
      }
      assert (s.neighbors - gone).Keys == s.neighbors.Keys - gone;
    }
  }
}
