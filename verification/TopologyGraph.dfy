/** Simple undirected graphs with a degree for each node, as the topology generator
  * builds them: adj[i] lists the nodes linked to i, free[i] counts its open slots.
  */
module TopologyGraph {
  import opened Basics

  type Adjacency = seq<seq<nat>>

  ghost predicate RowOk(adj: Adjacency, i: nat)
    requires i < |adj|
  {
    NoRepeats(adj[i]) && i !in adj[i] &&
    forall j :: j in adj[i] ==> j < |adj| && i in adj[j]
  }

  /** Symmetric, without self-loops or parallel links. */
  ghost predicate Simple(adj: Adjacency) {
    forall i {:trigger RowOk(adj, i)} :: 0 <= i < |adj| ==> RowOk(adj, i)
  }

  /** Every node has used exactly the slots that are not free. */
  ghost predicate Slots(degree: seq<nat>, free: seq<nat>, adj: Adjacency) {
    |degree| == |free| == |adj| &&
    forall i :: 0 <= i < |adj| ==> |adj[i]| + free[i] == degree[i]
  }

  // ---------- adding a link ----------

  function Join(adj: Adjacency, i: nat, j: nat): Adjacency
    requires i < |adj| && j < |adj| && i != j
  {
    adj[i := adj[i] + [j]][j := adj[j] + [i]]
  }

  function Take(free: seq<nat>, i: nat): seq<nat>
    requires i < |free| && free[i] > 0
  {
    free[i := free[i] - 1]
  }

  lemma {:induction false} JoinIsSimple(adj: Adjacency, i: nat, j: nat)
    requires Simple(adj) && i < |adj| && j < |adj| && i != j && j !in adj[i]
    ensures Simple(Join(adj, i, j))
  {
    var adj' := Join(adj, i, j);
    assert RowOk(adj, i) && RowOk(adj, j);
    assert i !in adj[j];
    forall k | 0 <= k < |adj'| ensures RowOk(adj', k) {
      assert RowOk(adj, k);
    }
  }

  // ---------- connection ----------

  ghost predicate Hop(adj: Adjacency, p: seq<nat>, k: int) {
    0 <= k && k + 1 < |p| && p[k] < |adj| && p[k + 1] in adj[p[k]]
  }

  ghost predicate IsPath(adj: Adjacency, p: seq<nat>) {
    |p| > 0 && forall k :: 0 <= k < |p| - 1 ==> Hop(adj, p, k)
  }

  ghost predicate Reach(adj: Adjacency, u: nat, v: nat) {
    exists p :: IsPath(adj, p) && p[0] == u && p[|p| - 1] == v
  }

  ghost predicate ReachesBelow(adj: Adjacency, k: nat) {
    forall v {:trigger Reach(adj, 0, v)} :: 0 <= v < k ==> Reach(adj, 0, v)
  }

  /** Every node can be reached from node 0. */
  ghost predicate Connected(adj: Adjacency) {
    ReachesBelow(adj, |adj|)
  }

  lemma {:induction false} ReachSelf(adj: Adjacency, u: nat)
    ensures Reach(adj, u, u)
  {
    assert IsPath(adj, [u]);
  }

  lemma {:induction false} ReachFurther(adj: Adjacency, u: nat, v: nat, w: nat)
    requires Reach(adj, u, v) && v < |adj| && w in adj[v]
    ensures Reach(adj, u, w)
  {
    var p :| IsPath(adj, p) && p[0] == u && p[|p| - 1] == v;
    var q := p + [w];
    forall k | 0 <= k < |q| - 1 ensures Hop(adj, q, k) {
      assert k < |p| - 1 ==> Hop(adj, p, k);
    }
    assert IsPath(adj, q) && q[|q| - 1] == w;
  }

  /** New links keep old connections. */
  lemma {:induction false} JoinKeepsReach(adj: Adjacency, i: nat, j: nat, k: nat)
    requires i < |adj| && j < |adj| && i != j && ReachesBelow(adj, k)
    ensures ReachesBelow(Join(adj, i, j), k)
  {
    var adj' := Join(adj, i, j);
    forall v | 0 <= v < k ensures Reach(adj', 0, v) {
      assert Reach(adj, 0, v);
      var p :| IsPath(adj, p) && p[0] == 0 && p[|p| - 1] == v;
      forall m | 0 <= m < |p| - 1 ensures Hop(adj', p, m) {
        assert Hop(adj, p, m);
      }
      assert IsPath(adj', p);
    }
  }

  /** Linking the next node to a connected one connects it. */
  lemma {:induction false} JoinReachesNext(adj: Adjacency, i: nat, k: nat)
    requires i < k < |adj| && ReachesBelow(adj, k)
    ensures ReachesBelow(Join(adj, i, k), k + 1)
  {
    var adj' := Join(adj, i, k);
    JoinKeepsReach(adj, i, k, k);
    assert Reach(adj', 0, i);
    assert adj'[i][|adj'[i]| - 1] == k;
    ReachFurther(adj', 0, i, k);
  }

  // ---------- counting ----------

  function Sum(s: seq<nat>): nat {
    if s == [] then 0 else Sum(s[..|s| - 1]) + s[|s| - 1]
  }

  lemma {:induction false} SumUpdate(s: seq<nat>, i: nat, x: nat)
    requires i < |s|
    ensures Sum(s[i := x]) + s[i] == Sum(s) + x
  {
    var init, t := s[..|s| - 1], s[i := x];
    if i < |s| - 1 {
      SumUpdate(init, i, x);
      assert t[..|t| - 1] == init[i := x];
    } else {
      assert t[..|t| - 1] == init;
    }
  }

  /** The links, once in each direction. */
  ghost function Arcs(adj: Adjacency): set<(nat, nat)> {
    set i, k | 0 <= i < |adj| && 0 <= k < |adj[i]| :: (i, adj[i][k])
  }

  ghost function Degrees(adj: Adjacency): seq<nat> {
    seq(|adj|, i requires 0 <= i < |adj| => |adj[i]|)
  }

  ghost function Row(i: nat, row: seq<nat>): set<(nat, nat)> {
    set k | 0 <= k < |row| :: (i, row[k])
  }

  lemma {:induction false} RowSize(i: nat, row: seq<nat>)
    ensures |Row(i, row)| <= |row|
    ensures NoRepeats(row) ==> |Row(i, row)| == |row|
  {
    if row == [] {
      assert Row(i, row) == {};
    } else {
      var init, last := row[..|row| - 1], row[|row| - 1];
      RowSize(i, init);
      assert Row(i, row) == Row(i, init) + {(i, last)} by {
        forall a | a in Row(i, row) ensures a in Row(i, init) + {(i, last)} {
          var k :| 0 <= k < |row| && a == (i, row[k]);
          assert k < |init| ==> init[k] == row[k];
        }
        forall a | a in Row(i, init) ensures a in Row(i, row) {
          var k :| 0 <= k < |init| && a == (i, init[k]);
          assert init[k] == row[k];
        }
        assert (i, row[|row| - 1]) in Row(i, row);
      }
    }
  }

  /** The number of arcs is the sum of the degrees. */
  lemma {:induction false} ArcCount(adj: Adjacency)
    ensures |Arcs(adj)| <= Sum(Degrees(adj))
    ensures (forall i :: 0 <= i < |adj| ==> NoRepeats(adj[i])) ==> |Arcs(adj)| == Sum(Degrees(adj))
  {
    if adj == [] {
      assert Arcs(adj) == {};
    } else {
      var n := |adj| - 1;
      var init, row := adj[..n], adj[n];
      ArcCount(init);
      RowSize(n, row);
      assert Degrees(adj)[..n] == Degrees(init);
      ArcsSplit(adj);
    }
  }

  lemma {:induction false} ArcsSplit(adj: Adjacency)
    requires adj != []
    ensures
      var n := |adj| - 1;
      Arcs(adj) == Arcs(adj[..n]) + Row(n, adj[n]) && Arcs(adj[..n]) !! Row(n, adj[n])
  {
    var n := |adj| - 1;
    var init, row := adj[..n], adj[n];
    forall a | a in Arcs(adj) ensures a in Arcs(init) + Row(n, row) {
      var i, k :| 0 <= i < |adj| && 0 <= k < |adj[i]| && a == (i, adj[i][k]);
      if i < n {
        assert a == (i, init[i][k]);
      } else {
        assert a == (n, row[k]);
      }
    }
    forall a | a in Arcs(init) ensures a in Arcs(adj) && a.0 < n {
      var i, k :| 0 <= i < |init| && 0 <= k < |init[i]| && a == (i, init[i][k]);
      assert a == (i, adj[i][k]);
    }
    forall a | a in Row(n, row) ensures a in Arcs(adj) && a.0 == n {
      var k :| 0 <= k < |row| && a == (n, row[k]);
      assert a == (n, adj[n][k]);
    }
  }

  lemma {:induction false} ArcIs(adj: Adjacency, i: nat, j: nat)
    ensures (i, j) in Arcs(adj) <==> i < |adj| && j in adj[i]
  {
    if i < |adj| && j in adj[i] {
      var k :| 0 <= k < |adj[i]| && adj[i][k] == j;
      assert (i, adj[i][k]) in Arcs(adj);
    }
    if (i, j) in Arcs(adj) {
      var x, k :| 0 <= x < |adj| && 0 <= k < |adj[x]| && (i, j) == (x, adj[x][k]);
    }
  }

  /** Arcs that point to a higher number: one for each link. */
  ghost function Upward(arcs: set<(nat, nat)>): set<(nat, nat)> {
    set a | a in arcs && a.0 < a.1
  }

  ghost function Flip(arcs: set<(nat, nat)>): set<(nat, nat)> {
    set a | a in arcs :: (a.1, a.0)
  }

  lemma {:induction false} FlipSize(arcs: set<(nat, nat)>)
    ensures |Flip(arcs)| == |arcs|
  {
    if arcs == {} {
      assert Flip(arcs) == {};
    } else {
      var a :| a in arcs;
      FlipSize(arcs - {a});
      assert Flip(arcs) == Flip(arcs - {a}) + {(a.1, a.0)};
    }
  }

  /** Handshake: in a simple graph the degrees sum to twice the number of links. */
  lemma {:induction false} Handshake(adj: Adjacency)
    requires Simple(adj)
    ensures Sum(Degrees(adj)) == 2 * |Upward(Arcs(adj))|
  {
    var arcs := Arcs(adj);
    var up := Upward(arcs);
    forall i | 0 <= i < |adj| ensures NoRepeats(adj[i]) { assert RowOk(adj, i); }
    ArcCount(adj);
    forall a: (nat, nat) ensures a in arcs ==> a.0 != a.1 && (a.1, a.0) in arcs {
      ArcIs(adj, a.0, a.1);
      if a in arcs {
        assert RowOk(adj, a.0);
        ArcIs(adj, a.1, a.0);
      }
    }
    assert arcs == up + Flip(up) by {
      forall a | a in arcs ensures a in up + Flip(up) {
        if a.0 > a.1 {
          assert (a.1, a.0) in up;
          assert ((a.1, a.0).1, (a.1, a.0).0) in Flip(up);
        }
      }
    }
    FlipSize(up);
  }

  // ---------- a connected graph needs enough links ----------

  ghost function ArcsWithin(adj: Adjacency, s: set<nat>): set<(nat, nat)> {
    set a | a in Arcs(adj) && a.0 in s && a.1 in s
  }

  /** A path out of s crosses its border. */
  lemma {:induction false} Crossing(adj: Adjacency, s: set<nat>, p: seq<nat>) returns (u: nat, v: nat)
    requires IsPath(adj, p) && p[0] in s && p[|p| - 1] !in s
    ensures u in s && v !in s && u < |adj| && v in adj[u]
  {
    if p[|p| - 2] in s {
      assert Hop(adj, p, |p| - 2);
      u, v := p[|p| - 2], p[|p| - 1];
    } else {
      var q := p[..|p| - 1];
      assert IsPath(adj, q) by {
        forall k | 0 <= k < |q| - 1 ensures Hop(adj, q, k) { assert Hop(adj, p, k); }
      }
      u, v := Crossing(adj, s, q);
    }
  }

  /** Growing a connected part by one node adds two arcs at least. */
  lemma {:induction false} GrowPart(adj: Adjacency, s: set<nat>)
    requires Simple(adj) && Connected(adj) && 0 in s && forall v :: v in s ==> v < |adj|
    requires |ArcsWithin(adj, s)| >= 2 * (|s| - 1)
    ensures |Arcs(adj)| >= 2 * (|adj| - 1)
    decreases |adj| - |s|
  {
    NumbersBelow(s, |adj|);
    if |s| == |adj| {
      SubsetSize(ArcsWithin(adj, s), Arcs(adj));
    } else {
      var x := Missing(s, |adj|);
      assert Reach(adj, 0, x);
      var p :| IsPath(adj, p) && p[0] == 0 && p[|p| - 1] == x;
      var u, v := Crossing(adj, s, p);
      assert RowOk(adj, u);
      ArcIs(adj, u, v);
      ArcIs(adj, v, u);
      SubsetSize(ArcsWithin(adj, s) + {(u, v), (v, u)}, ArcsWithin(adj, s + {v}));
      NumbersBelow(s + {v}, |adj|);
      GrowPart(adj, s + {v});
    }
  }

  lemma {:induction false} Missing(s: set<nat>, n: nat) returns (x: nat)
    requires |s| < n && forall v :: v in s ==> v < n
    ensures x < n && x !in s
  {
    if n - 1 !in s {
      x := n - 1;
    } else {
      x := Missing(s - {n - 1}, n - 1);
    }
  }

  /** No connected graph fits into degrees that sum to less than 2(n - 1). */
  lemma {:induction false} ConnectedNeedsDegrees(degree: seq<nat>, adj: Adjacency)
    requires Simple(adj) && Connected(adj) && |adj| == |degree| > 0
    requires forall i :: 0 <= i < |adj| ==> |adj[i]| <= degree[i]
    ensures Sum(degree) >= 2 * (|degree| - 1)
  {
    GrowPart(adj, {0});
    ArcCount(adj);
    SumMonotone(Degrees(adj), degree);
  }

  lemma {:induction false} SumMonotone(a: seq<nat>, b: seq<nat>)
    requires |a| == |b| && forall i :: 0 <= i < |a| ==> a[i] <= b[i]
    ensures Sum(a) <= Sum(b)
  {
    if a != [] {
      SumMonotone(a[..|a| - 1], b[..|b| - 1]);
    }
  }

  // ---------- listing the links ----------

  /** The neighbours in row that have a higher number than i. */
  function UpRow(i: nat, row: seq<nat>): seq<(nat, nat)> {
    if row == [] then []
    else
      var last := row[|row| - 1];
      UpRow(i, row[..|row| - 1]) + (if last > i then [(i, last)] else [])
  }

  /** The rows of the first k nodes one after the other. */
  function Listing(adj: Adjacency, k: nat): seq<(nat, nat)>
    requires k <= |adj|
  {
    if k == 0 then [] else Listing(adj, k - 1) + UpRow(k - 1, adj[k - 1])
  }

  lemma {:induction false} UpRowIs(i: nat, row: seq<nat>, a: (nat, nat))
    ensures a in UpRow(i, row) <==> a.0 == i && a.1 > i && a.1 in row
    ensures NoRepeats(row) ==> NoRepeats(UpRow(i, row))
  {
    if row != [] {
      var init, last := row[..|row| - 1], row[|row| - 1];
      assert row == init + [last];
      UpRowIs(i, init, a);
      UpRowIs(i, init, (i, last));
    }
  }

  lemma {:induction false} ListingIs(adj: Adjacency, k: nat, a: (nat, nat))
    requires k <= |adj|
    ensures a in Listing(adj, k) <==> a.0 < k && a.0 < a.1 && a.1 in adj[a.0]
  {
    if k > 0 {
      ListingIs(adj, k - 1, a);
      UpRowIs(k - 1, adj[k - 1], a);
    }
  }

  lemma {:induction false} ListingOnce(adj: Adjacency, k: nat)
    requires k <= |adj| && forall i :: 0 <= i < |adj| ==> NoRepeats(adj[i])
    ensures NoRepeats(Listing(adj, k))
  {
    if k > 0 {
      ListingOnce(adj, k - 1);
      var before, row := Listing(adj, k - 1), UpRow(k - 1, adj[k - 1]);
      UpRowIs(k - 1, adj[k - 1], (0, 0));
      forall m | 0 <= m < |before| ensures before[m] !in row {
        ListingIs(adj, k - 1, before[m]);
        UpRowIs(k - 1, adj[k - 1], before[m]);
      }
      var all := before + row;
      forall x, y | 0 <= x < y < |all| ensures all[x] != all[y] {
        if x < |before| <= y {
          assert all[y] == row[y - |before|] && all[y] in row;
        }
      }
    }
  }

  lemma {:induction false} SizeOfDistinct<T>(s: seq<T>)
    requires NoRepeats(s)
    ensures |set x | x in s| == |s|
  {
    if s != [] {
      var init, last := s[..|s| - 1], s[|s| - 1];
      SizeOfDistinct(init);
      assert (set x | x in s) == (set x | x in init) + {last};
    }
  }

  /** The listing of a simple graph holds every link once, from its lower end, and is
    * half as long as the degrees add up to. */
  lemma {:induction false} ListingIsComplete(adj: Adjacency)
    requires Simple(adj)
    ensures forall i: nat, j: nat :: (i, j) in Listing(adj, |adj|) <==> i < |adj| && i < j && j in adj[i]
    ensures NoRepeats(Listing(adj, |adj|))
    ensures Sum(Degrees(adj)) == 2 * |Listing(adj, |adj|)|
  {
    var list := Listing(adj, |adj|);
    forall i | 0 <= i < |adj| ensures NoRepeats(adj[i]) { assert RowOk(adj, i); }
    ListingOnce(adj, |adj|);
    forall i: nat, j: nat
      ensures (i, j) in list <==> i < |adj| && i < j && j in adj[i]
      ensures (i, j) in list <==> (i, j) in Upward(Arcs(adj))
    {
      ListingIs(adj, |adj|, (i, j));
      ArcIs(adj, i, j);
    }
    assert (set a | a in list) == Upward(Arcs(adj)) by {
      forall a: (nat, nat) ensures a in list <==> a in Upward(Arcs(adj)) {
        assert (a.0, a.1) == a;
      }
    }
    SizeOfDistinct(list);
    Handshake(adj);
  }
}
