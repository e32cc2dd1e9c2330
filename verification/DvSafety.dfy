/** What holds in every state of every run of a distance-vector network. */
module DvSafety {
  import opened Basics
  import opened DvProtocol
  import opened DvNetwork

  lemma {:induction false} RunIsSafe(states: seq<Net>, acts: seq<Action>, i: nat)
    requires Run(states, acts) && i < |states|
    ensures Safe(states[i])
  {
    if i == 0 {
      InitialIsSafe(states[0]);
    } else {
      RunIsSafe(states, acts, i - 1);
      assert StepAt(states, acts, i - 1);
      assert Safe(states[i - 1]);
      assert Step(states[i - 1], acts[i - 1], states[i]);
      StepIsSafe(states[i - 1], acts[i - 1], states[i]);
    }
  }

  lemma {:induction false} StepKeepsSize(net: Net, a: Action, net': Net)
    requires Step(net, a, net')
    ensures |net'.nodes| == |net.nodes|
  {
  }

  lemma {:induction false} RunKeepsSize(states: seq<Net>, acts: seq<Action>, i: nat)
    requires Run(states, acts) && i < |states|
    ensures |states[i].nodes| == |states[0].nodes|
  {
    if i > 0 {
      RunKeepsSize(states, acts, i - 1);
      assert StepAt(states, acts, i - 1);
      StepKeepsSize(states[i - 1], acts[i - 1], states[i]);
    }
  }

  /** A finite distance a router holds, has stored for a neighbour, or has on its way to
    * one is at most 16 and the length of a real walk of links. */
  lemma {:induction false} DistancesAreUpperBounds(states: seq<Net>, acts: seq<Action>, i: nat, v: NodeId, d: NodeId)
    requires Run(states, acts) && i < |states| && v < |states[i].nodes|
    ensures
      var net := states[i];
      Honest(net.links, v, d, Value(net.nodes[v].dv, d)) &&
      (forall u :: u in net.nodes[v].neighbors ==> Honest(net.links, u, d, Value(net.nodes[v].neighbors[u].dv, d))) &&
      (forall u, k :: 0 <= k < |Queue(net, v, u)| && Queue(net, v, u)[k].Table? ==>
        Honest(net.links, v, d, Value(Queue(net, v, u)[k].vector, d)))
  {
    RunIsSafe(states, acts, i);
    var net := states[i];
    assert HonestState(net.links, v, net.nodes[v]);
    forall u | u in net.nodes[v].neighbors
      ensures Honest(net.links, u, d, Value(net.nodes[v].neighbors[u].dv, d))
    {
      assert HonestNeighbor(net.links, v, net.nodes[v], u);
    }
    forall u, k | 0 <= k < |Queue(net, v, u)| && Queue(net, v, u)[k].Table?
      ensures Honest(net.links, v, d, Value(Queue(net, v, u)[k].vector, d))
    {
      assert HonestQueue(net, v, u);
    }
  }
}
