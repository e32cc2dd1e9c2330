/** The Inet topology generator: attaches nodes to free degree slots in three phases. */
module Topology {
  import opened Basics
  import opened TopologyGraph

  function Ones(degree: seq<nat>): nat {
    if degree == [] then 0
    else Ones(degree[..|degree| - 1]) + (if degree[|degree| - 1] == 1 then 1 else 0)
  }

  /** The slots are free as long as only nodes from i on, one slot each, are open. */
  lemma {:induction false} FewFree(free: seq<nat>, i: nat)
    requires i <= |free|
    requires forall j :: 0 <= j < i ==> free[j] == 0
    requires forall j :: i <= j < |free| ==> free[j] <= 1
    ensures Sum(free) <= |free| - i
  {
    if i < |free| {
      FewFree(free[..|free| - 1], i);
    } else if free != [] {
      FewFree(free[..|free| - 1], i - 1);
    }
  }

  lemma {:induction false} TakeTwice(free: seq<nat>, i: nat, j: nat)
    requires i < |free| && j < |free| && i != j && free[i] > 0 && free[j] > 0
    ensures Sum(Take(Take(free, i), j)) == Sum(free) - 2
  {
    SumUpdate(free, i, free[i] - 1);
    SumUpdate(Take(free, i), j, free[j] - 1);
  }

  lemma {:induction false} CopiesCount(x: nat, w: nat)
    ensures multiset(seq(w, _ => x)) == multiset{}[x := w]
  {
    if w > 0 {
      CopiesCount(x, w - 1);
      assert seq(w, _ => x) == seq(w - 1, _ => x) + [x];
    }
  }

  class Builder {
    const n: nat
    const weight: (nat, nat) -> nat
    const degree: array<nat>
    const free: array<nat>
    const nnp: array<seq<nat>>

    /** The arrays describe a simple graph that uses exactly the slots taken. */
    ghost predicate Valid()
      reads degree, free, nnp
    {
      degree.Length == n && free.Length == n && nnp.Length == n && degree != free &&
      (forall a, b :: weight(a, b) >= 1) &&
      Slots(degree[..], free[..], nnp[..]) && Simple(nnp[..])
    }

    constructor (degrees: seq<nat>, weight: (nat, nat) -> nat)
      requires forall a, b :: weight(a, b) >= 1
      ensures Valid() && degree[..] == degrees == free[..]
      ensures forall i :: 0 <= i < n ==> nnp[i] == []
      ensures fresh(degree) && fresh(free) && fresh(nnp)
    {
      n := |degrees|;
      this.weight := weight;
      degree := new nat[|degrees|](i requires 0 <= i < |degrees| => degrees[i]);
      free := new nat[|degrees|](i requires 0 <= i < |degrees| => degrees[i]);
      nnp := new seq<nat>[|degrees|](_ => []);
      new;
      assert degree[..] == degrees == free[..];
    }

    method IsGraphConnectable() returns (r: bool)
      requires Valid()
      ensures r <==> Sum(degree[..]) >= 2 * (n - 1)
    {
      var hubDegrees: int, degreeOne: int := 0, 0;
      for i := 0 to n
        invariant degreeOne == Ones(degree[..i]) && hubDegrees + degreeOne == Sum(degree[..i])
      {
        assert degree[..i + 1][..i] == degree[..i];
        if degree[i] == 1 {
          degreeOne := degreeOne + 1;
        } else {
          hubDegrees := hubDegrees + degree[i];
        }
      }
      assert degree[..n] == degree[..];
      var spare := hubDegrees - 2 * (n - degreeOne - 1);
      r := !(spare < degreeOne);
    }

    /** Uses one free slot of each node for a link between them. */
    method Connect(i: nat, j: nat)
      requires Valid() && i < n && j < n && i != j
      requires free[i] > 0 && free[j] > 0 && j !in nnp[i]
      modifies free, nnp
      ensures Valid()
      ensures nnp[..] == Join(old(nnp[..]), i, j)
      ensures free[..] == Take(Take(old(free[..]), i), j)
    {
      JoinIsSimple(nnp[..], i, j);
      nnp[i] := nnp[i] + [j];
      nnp[j] := nnp[j] + [i];
      free[i] := free[i] - 1;
      free[j] := free[j] - 1;
      assert nnp[..] == Join(old(nnp[..]), i, j);
      assert free[..] == Take(Take(old(free[..]), i), j);
    }

    /** Enters each candidate as often as its weight says, and nothing else. */
    method Entries(candidates: seq<nat>, added: nat) returns (pArray: seq<nat>)
      requires Valid() && NoRepeats(candidates) && added < n && forall x :: x in candidates ==> x < n
      ensures forall x :: x in pArray <==> x in candidates
      ensures forall x :: x in candidates ==> multiset(pArray)[x] == weight(degree[added], degree[x])
    {
      pArray := [];
      for i := 0 to |candidates|
        invariant forall x :: x in pArray <==> x in candidates[..i]
        invariant forall x :: x in candidates[..i] ==> x < n && multiset(pArray)[x] == weight(degree[added], degree[x])
      {
        assert candidates[i] in candidates && candidates[i] !in candidates[..i];
        assert candidates[..i + 1] == candidates[..i] + [candidates[i]];
        var w := weight(degree[added], degree[candidates[i]]);
        ghost var before := pArray;
        for k := 0 to w
          invariant pArray == before + seq(k, _ => candidates[i])
        {
          pArray := pArray + [candidates[i]];
        }
        CopiesCount(candidates[i], w);
        assert seq(w, _ => candidates[i])[0] == candidates[i];
      }
      assert candidates[..|candidates|] == candidates;
    }

    /** Draws any entry. */
    method Pick(candidates: seq<nat>, added: nat) returns (c: nat)
      requires Valid() && candidates != [] && NoRepeats(candidates) && added < n && forall x :: x in candidates ==> x < n
      ensures c in candidates
    {
      var pArray := Entries(candidates, added);
      assert candidates[0] in pArray;
      var g :| 0 <= g < |pArray|;
      c := pArray[g];
    }

    /** Degrees at least 1, in descending order, at least two of 2 or more and one of 1. */
    ghost predicate Spreadable()
      requires Valid()
      reads degree, free, nnp
    {
      n >= 3 && degree[1] >= 2 && degree[n - 1] == 1 &&
      forall i :: 0 < i < n ==> degree[i - 1] >= degree[i] >= 1
    }

    /** The number of nodes of degree 2 or more: the position of the first node of degree 1. */
    method DegreeG2() returns (k: nat)
      requires Valid() && Spreadable()
      ensures 2 <= k < n
      ensures forall i :: 0 <= i < k ==> degree[i] >= 2
      ensures forall i :: k <= i < n ==> degree[i] == 1
    {
      k := 0;
      for i := 0 to n
        invariant i >= 2 ==> degree[i - 1] >= 2 || (2 <= k < i && degree[i - 1] == 1)
        invariant degree[0] >= 2
        invariant i < 2 || degree[i - 1] >= 2 ==> k == 0
        invariant forall m :: 0 <= m < i && (k == 0 || m < k) ==> degree[m] >= 2
        invariant k != 0 ==> forall m :: k <= m < i ==> degree[m] == 1
      {
        if i > 0 && degree[i] == 1 && degree[i - 1] != 1 {
          k := i;
        }
      }
    }

    /** Every attached node up to g has a first neighbour below k. */
    ghost predicate FirstBelow(g: nat, k: nat)
      requires Valid() && g <= n
      reads degree, free, nnp
    {
      forall i :: 0 <= i < g ==> nnp[i] != [] && nnp[i][0] < k
    }

    /** Nodes from g on are not linked yet. */
    ghost predicate Untouched(g: nat)
      requires Valid() && g <= n
      reads degree, free, nnp
    {
      forall i :: g <= i < n ==> nnp[i] == []
    }

    /** The first g of k nodes have been linked to one another. */
    ghost predicate Spanned(g: nat, k: nat)
      requires Valid() && 0 < g <= k <= n
      reads degree, free, nnp
    {
      Untouched(g) && free[g - 1] > 0 &&
      (if g == 1 then nnp[0] == [] else FirstBelow(g, k)) &&
      ReachesBelow(nnp[..], g) &&
      Sum(free[..]) == Sum(degree[..]) - 2 * (g - 1)
    }

    /** Phase 1: the nodes of degree 2 or more, one by one, each linked to any earlier
      * node with a free slot. */
    method SpanHubs(k: nat)
      requires Valid() && 2 <= k < n && Untouched(0)
      requires forall i :: 0 <= i < k ==> degree[i] >= 2
      modifies free, nnp
      ensures Valid() && Untouched(k) && FirstBelow(k, k)
      ensures ReachesBelow(nnp[..], k)
      ensures Sum(free[..]) == Sum(degree[..]) - 2 * (k - 1)
    {
      StartsConnected();
      var G, L := InitialLists(k);
      SpanAll(G, L, k);
      assert Spanned(k, k);
    }

    /** The loop of phase 1. */
    method SpanAll(G: array<nat>, L: array<nat>, k: nat)
      requires Valid() && 2 <= k < n && Spanned(1, k)
      requires forall i :: 0 <= i < k ==> degree[i] >= 2
      requires G != L && Lists(G, 1, L, k - 1) && {G, L} !! {free, degree}
      modifies free, nnp, G, L
      ensures Valid() && Spanned(k, k) && degree[..] == old(degree[..])
    {
      var gNum, lNum := 1, k - 1;
      while lNum > 0
        invariant 1 <= gNum && gNum + lNum == k
        invariant Lists(G, gNum, L, lNum)
        invariant Valid() && Spanned(gNum, k) && degree[..] == old(degree[..])
      {
        SpanOne(G, gNum, L, lNum, k);
        gNum := gNum + 1;
        lNum := lNum - 1;
      }
    }

    static method InitialLists(k: nat) returns (G: array<nat>, L: array<nat>)
      requires k > 0
      ensures fresh(G) && fresh(L) && G != L && Lists(G, 1, L, k - 1)
    {
      G, L := new nat[k], new nat[k];
      for i := 0 to k
        invariant forall m :: 0 <= m < i ==> L[m] == m
      {
        L[i] := i;
      }
      G[0] := L[0];
    }

    /** One round of phase 1. */
    method SpanOne(G: array<nat>, gNum: nat, L: array<nat>, lNum: nat, k: nat)
      requires Valid() && 2 <= k < n && 0 < gNum && 0 < lNum && gNum + lNum == k && Spanned(gNum, k)
      requires forall i :: 0 <= i < k ==> degree[i] >= 2
      requires G != L && Lists(G, gNum, L, lNum)
      requires {G, L} !! {free, degree}
      modifies free, nnp, G, L
      ensures Valid() && Spanned(gNum + 1, k) && Lists(G, gNum + 1, L, lNum - 1)
      ensures degree[..] == old(degree[..])
    {
      var added := L[1];
      var candidates := FreeAmong(G, gNum);
      var i := Pick(candidates, added);
      AttachHub(i, added, k);
      MoveToG(G, gNum, L, lNum);
    }

    /** G lists the nodes that are linked, L from position 1 on those still to be. */
    static predicate Lists(G: array<nat>, gNum: nat, L: array<nat>, lNum: nat)
      reads G, L
    {
      0 < gNum && gNum + lNum == G.Length == L.Length &&
      (forall m :: 0 <= m < gNum ==> G[m] == m) &&
      (forall m :: 1 <= m <= lNum ==> L[m] == gNum - 1 + m)
    }

    /** Moves the first node still to be linked from L to G. */
    static method MoveToG(G: array<nat>, gNum: nat, L: array<nat>, lNum: nat)
      requires G != L && 0 < lNum && Lists(G, gNum, L, lNum)
      modifies G, L
      ensures Lists(G, gNum + 1, L, lNum - 1)
    {
      G[gNum] := L[1];
      for l := 1 to lNum
        modifies L
        invariant forall m :: 1 <= m < l ==> L[m] == gNum + m
        invariant forall m :: l <= m <= lNum ==> L[m] == gNum - 1 + m
      {
        L[l] := L[l + 1];
      }
    }

    method AttachHub(i: nat, g: nat, k: nat)
      requires Valid() && 2 <= k < n && i < g < k && Spanned(g, k) && free[i] > 0
      requires degree[g] >= 2
      modifies free, nnp
      ensures Valid() && Spanned(g + 1, k)
    {
      AttachNext(i, g, k);
    }

    /** Before any link, all slots are free and node 0 reaches itself. */
    lemma StartsConnected()
      requires Valid() && n > 0 && Untouched(0)
      ensures ReachesBelow(nnp[..], 1)
      ensures Sum(free[..]) == Sum(degree[..]) && free[0] == degree[0]
    {
      ReachSelf(nnp[..], 0);
      assert free[..] == degree[..] by {
        forall i | 0 <= i < n ensures free[i] == degree[i] {
          assert |nnp[..][i]| + free[..][i] == degree[..][i];
        }
      }
    }

    method FreeAmong(G: array<nat>, gNum: nat) returns (candidates: seq<nat>)
      requires Valid() && 0 < gNum <= G.Length && gNum <= n
      requires forall m :: 0 <= m < gNum ==> G[m] == m
      requires free[gNum - 1] > 0
      ensures candidates != [] && NoRepeats(candidates)
      ensures forall x: nat :: x in candidates <==> x < gNum && free[x] > 0
    {
      candidates := [];
      for m := 0 to gNum
        invariant forall x: nat :: x in candidates <==> x < m && free[x] > 0
        invariant NoRepeats(candidates)
      {
        if free[G[m]] > 0 {
          candidates := candidates + [G[m]];
        }
      }
    }

    /** Links the next node to an earlier one. */
    method AttachNext(i: nat, g: nat, k: nat)
      requires Valid() && i < g < n && Untouched(g) && i < k && free[i] > 0
      requires degree[g] >= 1 && ReachesBelow(nnp[..], g)
      requires g > 1 ==> FirstBelow(if g < k then g else k, k)
      requires g == 1 ==> k > 1 && nnp[0] == []
      requires g >= k ==> k > 1
      modifies free, nnp
      ensures Valid() && Untouched(g + 1) && ReachesBelow(nnp[..], g + 1)
      ensures FirstBelow(if g < k then g + 1 else k, k)
      ensures free[..] == Take(Take(old(free[..]), i), g)
      ensures free[g] == degree[g] - 1
      ensures Sum(free[..]) == Sum(old(free[..])) - 2
    {
      assert |nnp[..][g]| + free[..][g] == degree[..][g];
      assert g !in nnp[i] by {
        assert RowOk(nnp[..], i) && RowOk(nnp[..], g);
      }
      JoinReachesNext(nnp[..], i, g);
      TakeTwice(free[..], i, g);
      Connect(i, g);
      assert free[g] == Take(Take(old(free[..]), i), g)[g];
      forall m | 0 <= m < n ensures nnp[m] == Join(old(nnp[..]), i, g)[m] {
        assert nnp[m] == nnp[..][m];
      }
    }

    /** Nodes below i are linked; those from k on are leaves. */
    ghost predicate Leafed(i: nat, k: nat)
      requires Valid() && 2 <= k <= i <= n
      reads degree, free, nnp
    {
      Untouched(i) && FirstBelow(k, k) && ReachesBelow(nnp[..], i) &&
      (forall j :: k <= j < i ==> free[j] == 0) &&
      (forall j :: i <= j < n ==> free[j] == 1) &&
      Sum(free[..]) == Sum(degree[..]) - 2 * (i - 1)
    }

    /** When no node of degree 2 or more has a free slot for the next leaf, the degrees were
      * too small from the start. */
    lemma NoSlotLeft(i: nat, k: nat)
      requires Valid() && 2 <= k <= i < n && Leafed(i, k) && forall h :: 0 <= h < k ==> free[h] == 0
      ensures Sum(degree[..]) < 2 * (n - 1)
    {
      FewFree(free[..], i);
    }

    method FreeBetween(lo: nat, hi: nat) returns (candidates: seq<nat>)
      requires Valid() && lo <= hi <= n
      ensures NoRepeats(candidates) && forall x :: x in candidates <==> lo <= x < hi && free[x] > 0
    {
      candidates := [];
      for j := lo to hi
        invariant NoRepeats(candidates) && forall x :: x in candidates <==> lo <= x < j && free[x] > 0
      {
        if free[j] > 0 {
          candidates := candidates + [j];
        }
      }
    }

    /** Phase 2: every node of degree 1 is linked to any node of degree 2 or more with
      * a free slot. Fails when there is none, which is when the degrees are too small. */
    method AttachLeaves(k: nat) returns (ok: bool)
      requires Valid() && 2 <= k < n && Untouched(k) && FirstBelow(k, k)
      requires forall i :: k <= i < n ==> degree[i] == 1
      requires ReachesBelow(nnp[..], k)
      requires Sum(free[..]) == Sum(degree[..]) - 2 * (k - 1)
      modifies free, nnp
      ensures Valid() && (ok ==> Leafed(n, k))
      ensures ok <==> Sum(degree[..]) >= 2 * (n - 1)
    {
      assert forall j :: k <= j < n ==> |nnp[..][j]| + free[..][j] == degree[..][j];
      ok := true;
      for i := k to n
        invariant Valid() && Leafed(i, k)
      {
        ok := AttachLeaf(i, k);
        if !ok {
          return;
        }
      }
      assert Sum(free[..]) >= 0;
      ok := true;
    }

    /** Links one leaf, if any node has a slot for it. */
    method AttachLeaf(i: nat, k: nat) returns (ok: bool)
      requires Valid() && 2 <= k <= i < n && Leafed(i, k) && degree[i] == 1
      modifies free, nnp
      ensures Valid() && (ok ==> Leafed(i + 1, k))
      ensures !ok ==> Sum(degree[..]) < 2 * (n - 1)
    {
      var candidates := FreeBetween(0, k);
      if candidates == [] {
        assert forall h :: 0 <= h < k && free[h] > 0 ==> h in candidates;
        NoSlotLeft(i, k);
        return false;
      }
      var j := Pick(candidates, i);
      LinkLeaf(j, i, k);
      ok := true;
    }

    method LinkLeaf(j: nat, i: nat, k: nat)
      requires Valid() && 2 <= k <= i < n && Leafed(i, k) && degree[i] == 1 && j < k && free[j] > 0
      modifies free, nnp
      ensures Valid() && Leafed(i + 1, k)
    {
      ghost var before := free[..];
      AttachNext(j, i, k);
      assert forall m :: 0 <= m < n && m != i && m != j ==> free[..][m] == before[m];
    }

    /** No two nodes below k could still be linked, as far as nodes below i go. */
    ghost predicate Saturated(i: nat, k: nat)
      requires Valid() && i <= k <= n
      reads degree, free, nnp
    {
      forall a, b :: 0 <= a < i && a < b < k ==> free[a] == 0 || free[b] == 0 || b in nnp[a]
    }

    /** The state between the rounds of phase 3. */
    ghost predicate Filling(i: nat, k: nat)
      requires Valid() && i <= k <= n
      reads degree, free, nnp
    {
      FirstBelow(k, k) && Connected(nnp[..]) && Saturated(i, k) &&
      (forall j :: k <= j < n ==> free[j] == 0)
    }

    /** flag marks the nodes above i that are not linked to i. */
    ghost predicate Flags(flag: array<nat>, i: nat, k: nat)
      requires Valid() && i < k <= n
      reads degree, free, nnp, flag
    {
      flag.Length == k &&
      forall j :: i < j < k ==> (flag[j] != 0 <==> j !in nnp[i])
    }

    /** Marks every later node and then unmarks the node itself and its neighbours. */
    method SetFlags(flag: array<nat>, i: nat, k: nat)
      requires Valid() && i < k <= n && FirstBelow(k, k) && flag.Length == k
      requires flag != free && flag != degree
      modifies flag
      ensures Flags(flag, i, k)
    {
      for j := i + 1 to k
        invariant forall m :: i < m < j ==> flag[m] == 1
      {
        flag[j] := 1;
      }
      flag[i] := 0;
      var taken := degree[i] - free[i];
      assert |nnp[..][i]| + free[..][i] == degree[..][i];
      for j := 0 to taken
        invariant forall m :: i < m < k ==> (flag[m] != 0 <==> m !in nnp[i][..j])
      {
        assert nnp[i][..j + 1] == nnp[i][..j] + [nnp[i][j]];
        if nnp[i][j] < k {
          flag[nnp[i][j]] := 0;
        }
      }
      assert nnp[i][..taken] == nnp[i];
      flag[nnp[i][0]] := 0;
    }

    /** One link of phase 3. */
    method FillOne(flag: array<nat>, i: nat, j: nat, k: nat)
      requires Valid() && i < j < k <= n && Filling(i, k) && Flags(flag, i, k)
      requires free[i] > 0 && free[j] > 0 && flag[j] != 0
      requires flag != free && flag != degree
      modifies free, nnp, flag
      ensures Valid() && Filling(i, k) && Flags(flag, i, k)
      ensures free[i] < old(free[i])
    {
      ghost var adj, slots := nnp[..], free[..];
      JoinKeepsReach(nnp[..], i, j, n);
      Connect(i, j);
      assert forall m :: 0 <= m < n ==> nnp[m] == nnp[..][m] == Join(adj, i, j)[m] && free[m] == free[..][m] <= slots[m];
      flag[j] := 0;
    }

    method Unlinked(flag: array<nat>, i: nat, k: nat) returns (candidates: seq<nat>)
      requires Valid() && i < k <= n && Flags(flag, i, k)
      ensures NoRepeats(candidates) && forall x :: x in candidates <==> i < x < k && free[x] > 0 && flag[x] != 0
    {
      candidates := [];
      for j := i + 1 to k
        invariant NoRepeats(candidates) && forall x :: x in candidates <==> i < x < j && free[x] > 0 && flag[x] != 0
      {
        if free[j] > 0 && flag[j] != 0 {
          candidates := candidates + [j];
        }
      }
    }

    /** One round of phase 3: links node i to later nodes until its slots or the
      * candidates run out. */
    method FillHub(flag: array<nat>, i: nat, k: nat)
      requires Valid() && i < k <= n && Filling(i, k) && flag.Length == k
      requires flag != free && flag != degree
      modifies free, nnp, flag
      ensures Valid() && Filling(i + 1, k)
    {
      SetFlags(flag, i, k);
      while free[i] > 0
        invariant Valid() && Filling(i, k) && Flags(flag, i, k)
        decreases free[i]
      {
        var candidates := Unlinked(flag, i, k);
        if candidates == [] {
          assert forall b :: i < b < k ==> b !in candidates;
          break;
        }
        var j := Pick(candidates, i);
        FillOne(flag, i, j, k);
      }
    }

    /** connect_nodes, for degrees that can be spread. It warns exactly when it then fails,
      * because phase 2 has nothing to draw from. Otherwise, whatever is picked, the result
      * is connected and simple, no node exceeds its degree, and no further link between
      * unlinked nodes is possible. */
    method ConnectNodes() returns (warned: bool, ok: bool)
      requires Valid() && Spreadable() && Untouched(0)
      modifies free, nnp
      ensures Valid() && (ok <==> Sum(degree[..]) >= 2 * (n - 1)) && warned == !ok
      ensures ok ==> Connected(nnp[..])
      ensures ok ==> forall a, b :: 0 <= a < b < n ==> free[a] == 0 || free[b] == 0 || b in nnp[a]
    {
      var connectable := IsGraphConnectable();
      warned := !connectable;
      var k := DegreeG2();
      SpanHubs(k);
      ok := AttachLeaves(k);
      if ok {
        FillHubs(k);
      }
    }

    /** Phase 3. */
    method FillHubs(k: nat)
      requires Valid() && 2 <= k <= n && Filling(0, k)
      modifies free, nnp
      ensures Valid() && Filling(k, k)
    {
      var flag := new nat[k];
      for i := 0 to k
        invariant Valid() && Filling(i, k)
      {
        FillHub(flag, i, k);
      }
    }

    /** The arrays describe a graph, simple or not, that uses exactly the slots taken. */
    ghost predicate Sized()
      reads degree, free, nnp
    {
      degree.Length == n && free.Length == n && nnp.Length == n && degree != free &&
      Slots(degree[..], free[..], nnp[..])
    }

    /** generate_output: the number of links and the links themselves, or an error when
      * the degrees add up to an odd number. */
    method GenerateOutput() returns (out: Option<(nat, seq<(nat, nat)>)>)
      requires Sized()
      modifies degree
      ensures degree[..] == Degrees(nnp[..])
      ensures out.None? <==> Sum(Degrees(nnp[..])) % 2 != 0
      ensures out.Some? ==> 2 * out.value.0 == Sum(Degrees(nnp[..])) && out.value.1 == Listing(nnp[..], n)
    {
      var linkNum := CountLinks();
      if linkNum % 2 != 0 {
        return None;
      }
      var list: seq<(nat, nat)> := [];
      for i := 0 to n
        invariant degree[..] == Degrees(nnp[..])
        invariant list == Listing(nnp[..], i)
      {
        assert degree[i] == degree[..][i] == |nnp[..][i]|;
        list := ListRow(i, list);
      }
      out := Some((linkNum / 2, list));
    }

    /** Lists the links of one node to larger ones. */
    method ListRow(i: nat, before: seq<(nat, nat)>) returns (list: seq<(nat, nat)>)
      requires degree.Length == n && nnp.Length == n && i < n && degree[i] == |nnp[i]|
      ensures list == before + UpRow(i, nnp[i])
    {
      list := before;
      for j := 0 to degree[i]
        invariant list == before + UpRow(i, nnp[i][..j])
      {
        assert nnp[i][..j + 1][..j] == nnp[i][..j];
        if nnp[i][j] > i {
          list := list + [(i, nnp[i][j])];
        }
      }
      assert nnp[i][..degree[i]] == nnp[i];
    }

    /** The generator from degrees to output. For degrees that allow a connected graph it
      * lists every link of a connected simple graph exactly once; the total is never odd. */
    method GenerateTopology() returns (ok: bool, out: Option<(nat, seq<(nat, nat)>)>)
      requires Valid() && Spreadable() && Untouched(0)
      modifies degree, free, nnp
      ensures ok <==> Sum(old(degree[..])) >= 2 * (n - 1)
      ensures ok ==> out.Some? && Simple(nnp[..]) && Connected(nnp[..])
      ensures ok ==> forall i :: 0 <= i < n ==> |nnp[i]| <= old(degree[i])
      ensures ok ==> out.value.0 == |out.value.1| && NoRepeats(out.value.1)
      ensures ok ==> forall i: nat, j: nat :: (i, j) in out.value.1 <==> i < n && i < j && j in nnp[i]
    {
      var warned;
      warned, ok := ConnectNodes();
      if !ok {
        return false, None;
      }
      out := PrintTopology();
    }

    method PrintTopology() returns (out: Option<(nat, seq<(nat, nat)>)>)
      requires Valid()
      modifies degree
      ensures out.Some? && Simple(nnp[..]) && (forall i :: 0 <= i < n ==> |nnp[i]| <= old(degree[i]))
      ensures out.value.0 == |out.value.1| && NoRepeats(out.value.1)
      ensures forall i: nat, j: nat :: (i, j) in out.value.1 <==> i < n && i < j && j in nnp[i]
    {
      assert forall i :: 0 <= i < n ==> |nnp[..][i]| + free[..][i] == degree[..][i];
      ghost var adj := nnp[..];
      out := GenerateOutput();
      assert nnp[..] == adj;
      ListingIsComplete(adj);
    }

    /** Adds up the slots in use and drops the free ones from the degrees. */
    method CountLinks() returns (linkNum: nat)
      requires Sized()
      modifies degree
      ensures degree[..] == Degrees(nnp[..]) && linkNum == Sum(degree[..])
    {
      linkNum := 0;
      ghost var was := degree[..];
      for i := 0 to n
        invariant forall m :: 0 <= m < i ==> degree[m] == |nnp[m]|
        invariant forall m :: i <= m < n ==> degree[m] == was[m]
        invariant linkNum == Sum(degree[..i])
      {
        assert |nnp[..][i]| + free[..][i] == was[i];
        linkNum := linkNum + (degree[i] - free[i]);
        ghost var sofar := degree[..i];
        degree[i] := degree[i] - free[i];
        assert degree[..i] == sofar && degree[..i + 1][..i] == sofar;
      }
      assert degree[..n] == degree[..];
    }
  }
}
