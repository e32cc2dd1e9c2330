/** Poisoned reverse hides only what the receiver never looks at. */
module DvPoison {
  import opened Basics
  import opened DvProtocol

  /** The poisoned vector differs from the held one at most at the neighbour itself. */
  lemma {:induction false} PoisonTouchesOneEntry(s: DvState, n: NodeId, d: NodeId)
    ensures Poisoned(s, n).Keys == s.dv.Keys
    ensures Value(Poisoned(s, n), d) != Value(s.dv, d) ==>
      d == n && n in s.routes && s.routes[n].nextHop == n && Poisoned(s, n)[n] == M_INF
    ensures n in s.dv ==>
      (Poisoned(s, n)[n] == M_INF <==> s.dv[n] == M_INF || (n in s.routes && s.routes[n].nextHop == n))
  {
  }

  lemma {:induction false} SameOffersElsewhere(costs: Vector, p: Neighbors, q: Neighbors, me: NodeId, d: NodeId)
    requires Computable(costs, p) && Computable(costs, q) && d != me
    requires p.Keys == q.Keys
    requires forall j, x :: j in p && x != me ==> (x in p[j].dv <==> x in q[j].dv) && Value(p[j].dv, x) == Value(q[j].dv, x)
    ensures MinCost(costs, p, d) == MinCost(costs, q, d)
    ensures forall j :: Offers(costs, p, j, d) <==> Offers(costs, q, j, d)
    ensures forall j :: Offers(costs, p, j, d) ==> Offer(costs, p, j, d) == Offer(costs, q, j, d)
  {
    forall j
      ensures Offers(costs, p, j, d) <==> Offers(costs, q, j, d)
      ensures Offers(costs, p, j, d) ==> Offer(costs, p, j, d) == Offer(costs, q, j, d)
    {
      if j in p {
        assert (d in p[j].dv <==> d in q[j].dv) && Value(p[j].dv, d) == Value(q[j].dv, d);
      }
    }
    var c := MinCost(costs, q, d);
    assert IsMinCost(costs, p, d, c);
    MinCostUnique(costs, p, d, c);
  }

  /** At d both states recompute alike. */
  ghost predicate AlikeAt(p: DvState, q: DvState, d: NodeId)
    requires Computable(p.costs, p.neighbors) && Computable(q.costs, q.neighbors)
  {
    Distance(p, d) == Distance(q, d) &&
    (d != p.me ==> MinCost(p.costs, p.neighbors, d) == MinCost(q.costs, q.neighbors, d)) &&
    forall r: Route :: RouteOk(p, d, r) <==> RouteOk(q, d, r)
  }

  lemma {:induction false} PoisonedIsAlike(sender: DvState, receiver: DvState, from: NodeId, interfaceAddr: nat, now: int, d: NodeId)
    requires Computable(receiver.costs, receiver.neighbors)
    ensures
      var p := Received(receiver, from, Poisoned(sender, receiver.me), interfaceAddr, now);
      var q := Received(receiver, from, sender.dv, interfaceAddr, now);
      Computable(p.costs, p.neighbors) && Computable(q.costs, q.neighbors) &&
      AlikeAt(p, q, d) && AlikeAt(q, p, d)
  {
    var p := Received(receiver, from, Poisoned(sender, receiver.me), interfaceAddr, now);
    var q := Received(receiver, from, sender.dv, interfaceAddr, now);
    if d != receiver.me {
      SameOffersElsewhere(p.costs, p.neighbors, q.neighbors, receiver.me, d);
    }
  }

  /** The receiver recomputes the same distances and routes from the poisoned vector
    * as from the unpoisoned one, and reports the same changes: the two outcomes
    * differ only in the stored vector. */
  lemma {:induction false} PoisonIsInvisible(sender: DvState, receiver: DvState, from: NodeId, interfaceAddr: nat, now: int,
                                             dv: Vector, routes: map<NodeId, Route>, changed: bool)
    requires Computable(receiver.costs, receiver.neighbors)
    ensures
      var poisoned := Poisoned(sender, receiver.me);
      var p := Received(receiver, from, poisoned, interfaceAddr, now);
      var q := Received(receiver, from, sender.dv, interfaceAddr, now);
      Computable(p.costs, p.neighbors) && Computable(q.costs, q.neighbors) &&
      (Recomputed(p, poisoned.Keys, p.(dv := dv, routes := routes), changed) <==>
       Recomputed(q, sender.dv.Keys, q.(dv := dv, routes := routes), changed))
  {
    var poisoned := Poisoned(sender, receiver.me);
    var p := Received(receiver, from, poisoned, interfaceAddr, now);
    var q := Received(receiver, from, sender.dv, interfaceAddr, now);
    forall d ensures AlikeAt(p, q, d) && AlikeAt(q, p, d) {
      PoisonedIsAlike(sender, receiver, from, interfaceAddr, now, d);
    }
    RecomputedAlike(p, poisoned.Keys, q, dv, routes, changed);
    RecomputedAlike(q, poisoned.Keys, p, dv, routes, changed);
    assert poisoned.Keys == sender.dv.Keys;
  }

  /** Recomputed depends on the tables only through distances, minima and routes. */
  lemma {:induction false} RecomputedAlike(p: DvState, names: set<NodeId>, q: DvState, dv: Vector, routes: map<NodeId, Route>, changed: bool)
    requires Computable(p.costs, p.neighbors) && Computable(q.costs, q.neighbors)
    requires p.me == q.me && p.dv == q.dv
    requires forall d {:trigger AlikeAt(p, q, d)} :: AlikeAt(p, q, d)
    ensures Recomputed(p, names, p.(dv := dv, routes := routes), changed) ==>
            Recomputed(q, names, q.(dv := dv, routes := routes), changed)
  {
    forall d
      ensures Distance(p, d) == Distance(q, d)
      ensures d != p.me ==> MinCost(p.costs, p.neighbors, d) == MinCost(q.costs, q.neighbors, d)
      ensures forall r: Route :: RouteOk(p, d, r) <==> RouteOk(q, d, r)
    {
      assert AlikeAt(p, q, d);
    }
  }
}
