/** What several components share: machine words, node names, links between routers,
  * and facts about finite sets.
  */
module Basics {

  const TWO_TO_16 := 0x1_0000
  const TWO_TO_32 := 0x1_0000_0000

  type Uint8 = x: int | 0 <= x < 0x100
  type Uint32 = x: int | 0 <= x < TWO_TO_32

  /** A node's name and its main address, which stand in bijection. */
  type NodeId = nat

  datatype Option<+T> = None | Some(value: T)

  /** Both directions of every link between two routers. */
  type Links = set<(NodeId, NodeId)>

  ghost predicate Topology(links: Links, n: nat) {
    forall u, v :: (u, v) in links ==> u < n && v < n && u != v && (v, u) in links
  }

  ghost predicate NoRepeats<T>(s: seq<T>) {
    forall i, j :: 0 <= i < j < |s| ==> s[i] != s[j]
  }

  lemma {:induction false} SubsetSize<T>(a: set<T>, b: set<T>)
    requires a <= b
    ensures |a| <= |b|
  {
    assert b == a + (b - a);
  }

  lemma {:induction false} SubsetOfSameSize<T>(a: set<T>, b: set<T>)
    requires a <= b && |a| == |b|
    ensures a == b
  {
    assert |b - a| == 0;
  }

  lemma {:induction false} NumbersBelow(s: set<nat>, n: nat)
    requires forall v :: v in s ==> v < n
    ensures |s| <= n
  {
    if n == 0 {
      assert s == {};
    } else {
      NumbersBelow(s - {n - 1}, n - 1);
    }
  }
}
