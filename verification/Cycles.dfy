/** Enumeration of the simple cycles of a finite graph, one of each class of rotations. */
module Cycles {
  import opened Basics
  import opened Topsort

  /** parent -> collection of children; a node without an entry has no children. */
  type Graph<T> = map<T, seq<T>>

  predicate Arc<T(==)>(g: Graph<T>, p: T, c: T) {
    p in g && c in g[p]
  }

  // ---------- rotations ----------

  function Rotate<T>(a: seq<T>, k: nat): seq<T>
    requires k <= |a|
  {
    a[k..] + a[..k]
  }

  ghost predicate Rotated<T(!new)>(a: seq<T>, b: seq<T>) {
    exists k: nat :: k <= |a| && b == Rotate(a, k)
  }

  lemma {:induction false} RotatedTwice<T(!new)>(a: seq<T>, k: nat, m: nat)
    requires k <= |a| && m <= |a|
    ensures Rotated(a, Rotate(Rotate(a, k), m))
  {
    var b := Rotate(a, k);
    if m <= |a| - k {
      assert Rotate(b, m) == Rotate(a, k + m);
    } else {
      assert Rotate(b, m) == Rotate(a, k + m - |a|);
    }
  }

  lemma {:induction false} RotatedTransitive<T(!new)>(a: seq<T>, b: seq<T>, c: seq<T>)
    requires Rotated(a, b) && Rotated(b, c)
    ensures Rotated(a, c)
  {
    var k: nat :| k <= |a| && b == Rotate(a, k);
    var m: nat :| m <= |b| && c == Rotate(b, m);
    RotatedTwice(a, k, m);
  }

  lemma {:induction false} RotatedSymmetric<T(!new)>(a: seq<T>, b: seq<T>)
    requires Rotated(a, b)
    ensures Rotated(b, a)
  {
    var k: nat :| k <= |a| && b == Rotate(a, k);
    assert a == Rotate(b, |a| - k);
  }

  lemma {:induction false} WrappedAround<T>(a: seq<T>, i: nat)
    requires i <= |a|
    ensures (a + a)[i..i + |a|] == Rotate(a, i)
  {
    var w, r := (a + a)[i..i + |a|], Rotate(a, i);
    forall k | 0 <= k < |a| ensures w[k] == r[k] {
      assert w[k] == (a + a)[i + k];
      if i + k < |a| {
        assert r[k] == a[i..][k];
      } else {
        assert r[k] == a[..i][k - (|a| - i)];
      }
    }
  }

  /** is_rotated: looks for an occurrence of the second head from which the first
    * sequence, wrapped around, spells the second. Two empty sequences have no head, which
    * is an IndexError. */
  method IsRotated<T(==,!new)>(seq1: seq<T>, seq2: seq<T>) returns (r: Option<bool>)
    ensures r.None? <==> seq1 == [] && seq2 == []
    ensures r.Some? ==> (r.value <==> Rotated(seq1, seq2))
  {
    if |seq1| != |seq2| {
      return Some(false);
    }
    if seq2 == [] {
      return None;
    }
    var startIndexes: seq<nat> := [];
    var head := seq2[0];
    for i := 0 to |seq1|
      invariant forall j :: j in startIndexes <==> 0 <= j < i && seq1[j] == head
    {
      if seq1[i] == head {
        startIndexes := startIndexes + [i];
      }
    }
    var double := seq1 + seq1;
    assert forall q :: 0 <= q < |startIndexes| ==> startIndexes[q] in startIndexes;
    for m := 0 to |startIndexes|
      invariant forall q :: 0 <= q < |startIndexes| ==> startIndexes[q] < |seq1|
      invariant forall q :: 0 <= q < m ==> Rotate(seq1, startIndexes[q]) != seq2
    {
      var i := startIndexes[m];
      assert i in startIndexes;
      WrappedAround(seq1, i);
      if double[i..i + |seq1|] == seq2 {
        return Some(true);
      }
    }
    forall k: nat | k <= |seq1| ensures seq2 != Rotate(seq1, k) {
      var j := if k == |seq1| then 0 else k;
      assert Rotate(seq1, k) == Rotate(seq1, j) && Rotate(seq1, j)[0] == seq1[j];
      assert seq1[j] == head ==> j in startIndexes;
    }
    r := Some(false);
  }

  // ---------- walks and cycles ----------

  ghost predicate ArcAt<T(!new)>(g: Graph<T>, p: seq<T>, i: int) {
    0 <= i && i + 1 < |p| && Arc(g, p[i], p[i + 1])
  }

  ghost predicate Walk<T(!new)>(g: Graph<T>, p: seq<T>) {
    |p| > 0 && forall i :: 0 <= i < |p| - 1 ==> ArcAt(g, p, i)
  }

  ghost predicate SimplePath<T(!new)>(g: Graph<T>, root: T, p: seq<T>) {
    Walk(g, p) && p[0] == root && NoRepeats(p)
  }

  /** Distinct nodes, each a parent of the next, and the last a parent of the first. */
  ghost predicate SimpleCycle<T(!new)>(g: Graph<T>, c: seq<T>) {
    Walk(g, c) && NoRepeats(c) && Arc(g, c[|c| - 1], c[0])
  }

  ghost predicate Reaches<T(!new)>(g: Graph<T>, u: T, v: T) {
    exists p :: Walk(g, p) && p[0] == u && p[|p| - 1] == v
  }

  lemma {:induction false} WalkJoin<T(!new)>(g: Graph<T>, p: seq<T>, q: seq<T>)
    requires Walk(g, p) && Walk(g, q) && Arc(g, p[|p| - 1], q[0])
    ensures Walk(g, p + q)
  {
    var w := p + q;
    forall i | 0 <= i < |w| - 1 ensures ArcAt(g, w, i) {
      if i < |p| - 1 {
        assert ArcAt(g, p, i);
      } else if i >= |p| {
        assert ArcAt(g, q, i - |p|);
      }
    }
  }

  lemma {:induction false} WalkPart<T(!new)>(g: Graph<T>, p: seq<T>, i: nat, j: nat)
    requires Walk(g, p) && i < j <= |p|
    ensures Walk(g, p[i..j])
  {
    var w := p[i..j];
    forall k | 0 <= k < |w| - 1 ensures ArcAt(g, w, k) {
      assert ArcAt(g, p, i + k);
    }
  }

  lemma {:induction false} RotatedCycle<T(!new)>(g: Graph<T>, c: seq<T>, k: nat)
    requires SimpleCycle(g, c) && k < |c|
    ensures SimpleCycle(g, Rotate(c, k))
  {
    if k > 0 {
      WalkPart(g, c, k, |c|);
      WalkPart(g, c, 0, k);
      assert c[k..|c|] == c[k..] && c[0..k] == c[..k];
      WalkJoin(g, c[k..], c[..k]);
      assert ArcAt(g, c, k - 1);
    } else {
      assert Rotate(c, 0) == c;
    }
  }

  // ---------- from a root to every cycle it reaches ----------

  /** A walk to a node of c can be cut to a simple path that meets c only at its end. */
  lemma {:induction false} CutToCycle<T(!new)>(g: Graph<T>, c: seq<T>, w: seq<T>) returns (q: seq<T>)
    requires Walk(g, w) && w[|w| - 1] in c
    ensures SimplePath(g, w[0], q) && q[|q| - 1] in c
    ensures forall i :: 0 <= i < |q| - 1 ==> q[i] !in c
    decreases |w|
  {
    if i :| 0 <= i < |w| - 1 && w[i] in c {
      WalkPart(g, w, 0, i + 1);
      assert w[0..i + 1] == w[..i + 1];
      q := CutToCycle(g, c, w[..i + 1]);
    } else if i, j :| 0 <= i < j < |w| && w[i] == w[j] {
      q := CutToCycle(g, c, Shortcut(g, w, i, j));
    } else {
      q := w;
    }
  }

  ghost function Shortcut<T(!new)>(g: Graph<T>, w: seq<T>, i: nat, j: nat): (s: seq<T>)
    requires Walk(g, w) && i < j < |w| && w[i] == w[j]
    ensures Walk(g, s) && |s| < |w| && s[0] == w[0] && s[|s| - 1] == w[|w| - 1]
  {
    var s := w[..i] + w[j..];
    assert Walk(g, s) by {
      forall k | 0 <= k < |s| - 1 ensures ArcAt(g, s, k) {
        if k < i {
          assert ArcAt(g, w, k);
        } else {
          assert ArcAt(g, w, j + (k - i));
        }
      }
    }
    s
  }

  lemma {:induction false} RotateItems<T(!new)>(c: seq<T>, k: nat, x: T)
    requires k <= |c| && x in Rotate(c, k)
    ensures x in c
  {
    assert c == c[..k] + c[k..];
  }

  lemma {:induction false} JoinNoRepeats<T(!new)>(q: seq<T>, d: seq<T>)
    requires NoRepeats(q) && NoRepeats(d) && forall i :: 0 <= i < |q| ==> q[i] !in d
    ensures NoRepeats(q + d)
  {
    var p := q + d;
    forall i, j | 0 <= i < j < |p| ensures p[i] != p[j] {
      if j >= |q| {
        assert p[j] == d[j - |q|] && p[j] in d;
      }
    }
  }

  /** Walking on around the cycle gives a simple path whose end closes a rotation of it. */
  lemma {:induction false} PathAroundCycle<T(!new)>(g: Graph<T>, root: T, c: seq<T>) returns (p: seq<T>, j: nat)
    requires SimpleCycle(g, c) && Reaches(g, root, c[0])
    ensures SimplePath(g, root, p) && j < |p| && Arc(g, p[|p| - 1], p[j])
    ensures Rotated(c, p[j..])
  {
    var w :| Walk(g, w) && w[0] == root && w[|w| - 1] == c[0];
    var q := CutToCycle(g, c, w);
    var k :| 0 <= k < |c| && c[k] == q[|q| - 1];
    var d := Rotate(c, k);
    RotatedCycle(g, c, k);
    j := |q| - 1;
    p := q[..j] + d;
    assert p[j..] == d;
    forall i | 0 <= i < j ensures q[i] !in d {
      if q[i] in d {
        RotateItems(c, k, q[i]);
      }
    }
    JoinNoRepeats(q[..j], d);
    PrefixMeets(g, q, d);
  }

  lemma {:induction false} PrefixMeets<T(!new)>(g: Graph<T>, q: seq<T>, d: seq<T>)
    requires Walk(g, q) && Walk(g, d) && q[|q| - 1] == d[0]
    ensures Walk(g, q[..|q| - 1] + d) && (q[..|q| - 1] + d)[0] == q[0]
  {
    var j := |q| - 1;
    if j > 0 {
      WalkPart(g, q, 0, j);
      assert q[0..j] == q[..j];
      assert ArcAt(g, q, j - 1);
      WalkJoin(g, q[..j], d);
    } else {
      assert q[..j] + d == d;
    }
  }

  // ---------- what has been found ----------

  ghost predicate Found<T(!new)>(cycles: seq<seq<T>>, c: seq<T>) {
    exists i :: 0 <= i < |cycles| && Rotated(cycles[i], c)
  }

  /** Only simple cycles, and no two of them rotations of each other. */
  ghost predicate Sound<T(!new)>(g: Graph<T>, cycles: seq<seq<T>>) {
    (forall i {:trigger cycles[i]} :: 0 <= i < |cycles| ==> SimpleCycle(g, cycles[i])) &&
    (forall i, j :: 0 <= i < |cycles| && 0 <= j < |cycles| && i != j ==> !Rotated(cycles[i], cycles[j]))
  }

  /** Every cycle that v reaches has been found, up to rotation. */
  ghost predicate Covered<T(!new)>(g: Graph<T>, cycles: seq<seq<T>>, v: T) {
    forall c :: SimpleCycle(g, c) && Reaches(g, v, c[0]) ==> Found(cycles, c)
  }

  /** The cycles closed by the last node of p have been found. */
  ghost predicate Closed<T(!new)>(g: Graph<T>, cycles: seq<seq<T>>, p: seq<T>)
    requires p != []
  {
    forall j :: 0 <= j < |p| && Arc(g, p[|p| - 1], p[j]) ==> Found(cycles, p[j..])
  }

  lemma {:induction false} FoundStays<T(!new)>(cycles: seq<seq<T>>, more: seq<seq<T>>, c: seq<T>)
    requires cycles <= more && Found(cycles, c)
    ensures Found(more, c)
  {
    var i :| 0 <= i < |cycles| && Rotated(cycles[i], c);
    assert more[i] == cycles[i];
  }

  /** If every simple path from the root has had its cycles found, the root is covered. */
  lemma {:induction false} RootIsCovered<T(!new)>(g: Graph<T>, cycles: seq<seq<T>>, root: T)
    requires forall p :: SimplePath(g, root, p) ==> Closed(g, cycles, p)
    ensures Covered(g, cycles, root)
  {
    forall c | SimpleCycle(g, c) && Reaches(g, root, c[0]) ensures Found(cycles, c) {
      var p, j := PathAroundCycle(g, root, c);
      assert Closed(g, cycles, p);
      var i :| 0 <= i < |cycles| && Rotated(cycles[i], p[j..]);
      RotatedSymmetric(c, p[j..]);
      RotatedTransitive(cycles[i], p[j..], c);
    }
  }

  lemma {:induction false} ReachesTransitive<T(!new)>(g: Graph<T>, u: T, v: T, w: T)
    requires Reaches(g, u, v) && Reaches(g, v, w)
    ensures Reaches(g, u, w)
  {
    var p :| Walk(g, p) && p[0] == u && p[|p| - 1] == v;
    var q :| Walk(g, q) && q[0] == v && q[|q| - 1] == w;
    PrefixMeets(g, p, q);
    assert (p[..|p| - 1] + q)[|p| - 1 + |q| - 1] == w;
  }

  /** What a covered node reaches is covered. */
  lemma {:induction false} CoverSpreads<T(!new)>(g: Graph<T>, cycles: seq<seq<T>>, u: T, v: T)
    requires Covered(g, cycles, u) && Reaches(g, u, v)
    ensures Covered(g, cycles, v)
  {
    forall c | SimpleCycle(g, c) && Reaches(g, v, c[0]) ensures Found(cycles, c) {
      ReachesTransitive(g, u, v, c[0]);
    }
  }

  // ---------- the search tree ----------

  ghost function Nodes<T>(g: Graph<T>): set<T> {
    g.Keys + (set p, c | p in g && c in g[p] :: c)
  }

  /** The number of simple paths that extend p, p included. */
  ghost function Tree<T(!new)>(g: Graph<T>, p: seq<T>): nat
    requires p != [] && NoRepeats(p) && forall x :: x in p ==> x in Nodes(g)
    decreases |Nodes(g)| - |p|, 1, 0
  {
    NoRepeatsFits(p, Nodes(g));
    var last := p[|p| - 1];
    1 + if last in g then Forest(g, p, g[last]) else 0
  }

  ghost function Forest<T(!new)>(g: Graph<T>, p: seq<T>, kids: seq<T>): nat
    requires p != [] && NoRepeats(p) && (forall x :: x in p ==> x in Nodes(g)) && (forall x :: x in kids ==> x in Nodes(g))
    decreases |Nodes(g)| - |p|, 0, |kids|
  {
    if kids == [] then 0
    else
      var init, child := kids[..|kids| - 1], kids[|kids| - 1];
      Forest(g, p, init) +
      if child in p then 0
      else
        NoRepeatsFits(p + [child], Nodes(g));
        Tree(g, p + [child])
  }

  ghost predicate Stacked<T(!new)>(g: Graph<T>, root: T, paths: seq<seq<T>>) {
    forall i {:trigger paths[i]} :: 0 <= i < |paths| ==> SimplePath(g, root, paths[i])
  }

  lemma {:induction false} PathNodes<T(!new)>(g: Graph<T>, root: T, p: seq<T>)
    requires SimplePath(g, root, p) && root in g
    ensures forall x :: x in p ==> x in Nodes(g)
  {
    forall i | 0 <= i < |p| ensures p[i] in Nodes(g) {
      if i > 0 {
        assert ArcAt(g, p, i - 1);
      }
    }
  }

  /** The work left: one step for each path below the stack. */
  ghost function Work<T(!new)>(g: Graph<T>, root: T, paths: seq<seq<T>>): nat
    requires root in g && Stacked(g, root, paths)
  {
    if paths == [] then 0
    else
      PathNodes(g, root, paths[|paths| - 1]);
      Work(g, root, paths[..|paths| - 1]) + Tree(g, paths[|paths| - 1])
  }

  // ---------- visiting one path ----------

  /** The paths pushed for the children of the last node of q. */
  ghost function Extensions<T(!new)>(q: seq<T>, kids: seq<T>): seq<seq<T>> {
    if kids == [] then []
    else
      var init, child := kids[..|kids| - 1], kids[|kids| - 1];
      Extensions(q, init) + (if child in q then [] else [q + [child]])
  }

  lemma {:induction false} ExtensionsAre<T(!new)>(q: seq<T>, kids: seq<T>, x: T)
    requires x in kids && x !in q
    ensures q + [x] in Extensions(q, kids)
  {
    var init, child := kids[..|kids| - 1], kids[|kids| - 1];
    assert kids == init + [child];
    if child != x {
      ExtensionsAre(q, init, x);
    }
  }

  lemma {:induction false} WorkAppend<T(!new)>(g: Graph<T>, root: T, paths: seq<seq<T>>, p: seq<T>)
    requires root in g && Stacked(g, root, paths) && SimplePath(g, root, p)
    ensures Stacked(g, root, paths + [p]) && forall x :: x in p ==> x in Nodes(g)
    ensures Work(g, root, paths + [p]) == Work(g, root, paths) + Tree(g, p)
  {
    var all := paths + [p];
    forall i | 0 <= i < |all| ensures SimplePath(g, root, all[i]) {
      assert i < |paths| ==> all[i] == paths[i];
    }
    PathNodes(g, root, p);
    assert all[..|all| - 1] == paths;
  }

  /** Pushing the extensions of q costs the forest below it. */
  lemma {:induction false} WorkOfExtensions<T(!new)>(g: Graph<T>, root: T, base: seq<seq<T>>, q: seq<T>, kids: seq<T>)
    requires root in g && Stacked(g, root, base) && SimplePath(g, root, q)
    requires q[|q| - 1] in g && forall x :: x in kids ==> x in g[q[|q| - 1]]
    ensures (forall x :: x in q ==> x in Nodes(g)) && (forall x :: x in kids ==> x in Nodes(g))
    ensures Stacked(g, root, base + Extensions(q, kids))
    ensures Work(g, root, base + Extensions(q, kids)) == Work(g, root, base) + Forest(g, q, kids)
  {
    PathNodes(g, root, q);
    if kids == [] {
      assert base + Extensions(q, kids) == base;
    } else {
      var init, child := kids[..|kids| - 1], kids[|kids| - 1];
      assert child in kids && forall x :: x in init ==> x in kids;
      WorkOfExtensions(g, root, base, q, init);
      if child in q {
        assert Extensions(q, kids) == Extensions(q, init);
      } else {
        assert Walk(g, [child]);
        WalkJoin(g, q, [child]);
        WorkAppend(g, root, base + Extensions(q, init), q + [child]);
        assert base + Extensions(q, kids) == base + Extensions(q, init) + [q + [child]];
      }
    }
  }

  /** A child on the path closes a simple cycle. */
  lemma {:induction false} ClosingCycle<T(!new)>(g: Graph<T>, root: T, q: seq<T>, j: nat)
    requires SimplePath(g, root, q) && j < |q| && Arc(g, q[|q| - 1], q[j])
    ensures SimpleCycle(g, q[j..])
  {
    WalkPart(g, q, j, |q|);
    assert q[j..|q|] == q[j..];
  }

  lemma {:induction false} SoundAppend<T(!new)>(g: Graph<T>, cycles: seq<seq<T>>, c: seq<T>)
    requires Sound(g, cycles) && SimpleCycle(g, c) && !Found(cycles, c)
    ensures Sound(g, cycles + [c]) && Found(cycles + [c], c)
  {
    var all := cycles + [c];
    forall i | 0 <= i < |cycles| ensures !Rotated(cycles[i], c) && !Rotated(c, cycles[i]) {
      if Rotated(c, cycles[i]) {
        RotatedSymmetric(c, cycles[i]);
      }
    }
    assert all[|cycles|] == c && Rotate(c, 0) == c;
    assert Rotated(all[|cycles|], c);
  }

  method IsDuplicate<T(==,!new)>(ghost g: Graph<T>, cycles: seq<seq<T>>, cycle: seq<T>) returns (dup: bool)
    requires Sound(g, cycles) && cycle != []
    ensures dup <==> Found(cycles, cycle)
  {
    for i := 0 to |cycles|
      invariant forall j :: 0 <= j < i ==> !Rotated(cycles[j], cycle)
    {
      assert SimpleCycle(g, cycles[i]);
      var rotated := IsRotated(cycles[i], cycle);
      if rotated.value {
        return true;
      }
    }
    dup := false;
  }

  method Index<T(==)>(path: seq<T>, x: T) returns (j: nat)
    requires x in path
    ensures j < |path| && path[j] == x
  {
    j := 0;
    while path[j] != x
      invariant j < |path| && x in path[j..]
      decreases |path| - j
    {
      assert path[j..] == [path[j]] + path[j + 1..];
      j := j + 1;
    }
  }

  /** Records the cycle that child closes on path, unless a rotation of it is known. */
  method Record<T(==,!new)>(ghost g: Graph<T>, ghost root: T, path: seq<T>, child: T, cycles: seq<seq<T>>)
    returns (cycles': seq<seq<T>>)
    requires SimplePath(g, root, path) && Arc(g, path[|path| - 1], child) && child in path
    requires Sound(g, cycles)
    ensures Sound(g, cycles') && cycles <= cycles'
    ensures forall j :: 0 <= j < |path| && path[j] == child ==> Found(cycles', path[j..])
  {
    var j := Index(path, child);
    var cycle := path[j..];
    ClosingCycle(g, root, path, j);
    var isDup := IsDuplicate(g, cycles, cycle);
    cycles' := cycles;
    if !isDup {
      SoundAppend(g, cycles, cycle);
      cycles' := cycles + [cycle];
    }
  }

  /** Visits the children of the last node of a popped path. */
  method Expand<T(==,!new)>(g: Graph<T>, ghost root: T, path: seq<T>, paths: seq<seq<T>>, cycles: seq<seq<T>>, visited: set<T>)
    returns (paths': seq<seq<T>>, cycles': seq<seq<T>>, visited': set<T>)
    requires SimplePath(g, root, path) && path[|path| - 1] in g && Sound(g, cycles)
    ensures paths' == paths + Extensions(path, g[path[|path| - 1]])
    ensures Sound(g, cycles') && cycles <= cycles' && Closed(g, cycles', path)
    ensures forall v :: v in visited' <==> v in visited || (v in g[path[|path| - 1]] && v !in path)
  {
    var kids := g[path[|path| - 1]];
    paths', cycles', visited' := paths, cycles, visited;
    for k := 0 to |kids|
      invariant paths' == paths + Extensions(path, kids[..k])
      invariant Sound(g, cycles') && cycles <= cycles'
      invariant forall m, j :: 0 <= m < k && 0 <= j < |path| && path[j] == kids[m] ==> Found(cycles', path[j..])
      invariant forall v :: v in visited' <==> v in visited || (v in kids[..k] && v !in path)
    {
      var child := kids[k];
      assert kids[..k + 1] == kids[..k] + [child];
      assert kids[..k + 1][..k] == kids[..k];
      ghost var before := cycles';
      if child in path {
        cycles' := Record(g, root, path, child, cycles');
      } else {
        paths' := paths' + [path + [child]];
        visited' := visited' + {child};
      }
      forall m, j | 0 <= m < k + 1 && 0 <= j < |path| && path[j] == kids[m] ensures Found(cycles', path[j..]) {
        if m < k {
          FoundStays(before, cycles', path[j..]);
        }
      }
    }
    assert kids[..|kids|] == kids;
    forall j | 0 <= j < |path| && Arc(g, path[|path| - 1], path[j]) ensures Found(cycles', path[j..]) {
      var m :| 0 <= m < |kids| && kids[m] == path[j];
    }
  }

  lemma {:induction false} OneFurther<T(!new)>(g: Graph<T>, root: T, path: seq<T>, child: T)
    requires SimplePath(g, root, path) && Arc(g, path[|path| - 1], child) && child !in path
    ensures child != root && Reaches(g, root, child)
  {
    assert Walk(g, [child]);
    WalkJoin(g, path, [child]);
    assert (path + [child])[|path|] == child;
  }

  // ---------- one root ----------

  /** p has had its cycles found, or a path below it is still on the stack. */
  ghost predicate Pending<T(!new)>(g: Graph<T>, cycles: seq<seq<T>>, paths: seq<seq<T>>, p: seq<T>)
    requires p != []
  {
    Closed(g, cycles, p) || exists i :: 0 <= i < |paths| && paths[i] <= p
  }

  /** Popping and expanding a path loses no simple path. */
  lemma {:induction false} ExpandKeepsPending<T(!new)>(g: Graph<T>, root: T, base: seq<seq<T>>, q: seq<T>,
                                                       cycles: seq<seq<T>>, cycles': seq<seq<T>>, p: seq<T>)
    requires SimplePath(g, root, q) && SimplePath(g, root, p)
    requires Pending(g, cycles, base + [q], p) && cycles <= cycles' && Closed(g, cycles', q)
    ensures Pending(g, cycles', base + (if q[|q| - 1] in g then Extensions(q, g[q[|q| - 1]]) else []), p)
  {
    var pushed := if q[|q| - 1] in g then Extensions(q, g[q[|q| - 1]]) else [];
    if Closed(g, cycles, p) {
      forall j | 0 <= j < |p| && Arc(g, p[|p| - 1], p[j]) ensures Found(cycles', p[j..]) {
        FoundStays(cycles, cycles', p[j..]);
      }
    } else {
      var i :| 0 <= i < |base + [q]| && (base + [q])[i] <= p;
      if i < |base| {
        assert (base + pushed)[i] == base[i];
      } else if |p| == |q| {
        assert p == q;
      } else {
        var child := p[|q|];
        assert ArcAt(g, p, |q| - 1);
        assert child !in q;
        ExtensionsAre(q, g[q[|q| - 1]], child);
        var m :| 0 <= m < |pushed| && pushed[m] == q + [child];
        assert (base + pushed)[|base| + m] == q + [child] <= p;
      }
    }
  }

  ghost predicate AllPending<T(!new)>(g: Graph<T>, root: T, cycles: seq<seq<T>>, paths: seq<seq<T>>) {
    forall p {:trigger SimplePath(g, root, p)} :: SimplePath(g, root, p) ==> Pending(g, cycles, paths, p)
  }

  /** The end of p is marked as visited, or p goes on from a path still on the stack. */
  ghost predicate Marked<T(!new)>(visited: set<T>, paths: seq<seq<T>>, p: seq<T>) {
    |p| > 1 ==> p[|p| - 1] in visited || exists i :: 0 <= i < |paths| && paths[i] <= p && |paths[i]| < |p|
  }

  ghost predicate AllMarked<T(!new)>(g: Graph<T>, root: T, visited: set<T>, paths: seq<seq<T>>) {
    forall p {:trigger SimplePath(g, root, p)} :: SimplePath(g, root, p) ==> Marked(visited, paths, p)
  }

  lemma {:induction false} ExpandKeepsMarked<T(!new)>(g: Graph<T>, root: T, base: seq<seq<T>>, q: seq<T>,
                                                      visited: set<T>, visited': set<T>, p: seq<T>)
    requires SimplePath(g, root, q) && SimplePath(g, root, p) && Marked(visited, base + [q], p) && visited <= visited'
    requires q[|q| - 1] in g ==> forall v :: v in g[q[|q| - 1]] && v !in q ==> v in visited'
    ensures Marked(visited', base + (if q[|q| - 1] in g then Extensions(q, g[q[|q| - 1]]) else []), p)
  {
    var pushed := if q[|q| - 1] in g then Extensions(q, g[q[|q| - 1]]) else [];
    if |p| > 1 && p[|p| - 1] !in visited {
      var i :| 0 <= i < |base + [q]| && (base + [q])[i] <= p && |(base + [q])[i]| < |p|;
      if i < |base| {
        assert (base + pushed)[i] == base[i];
      } else {
        var child := p[|q|];
        assert ArcAt(g, p, |q| - 1);
        assert child !in q;
        ExtensionsAre(q, g[q[|q| - 1]], child);
        var m :| 0 <= m < |pushed| && pushed[m] == q + [child];
        assert (base + pushed)[|base| + m] == q + [child] <= p;
        assert |p| == |q| + 1 ==> p[|p| - 1] in visited';
      }
    }
  }

  /** With no path left, everything reached from the root is marked. */
  lemma {:induction false} ReachedIsMarked<T(!new)>(g: Graph<T>, root: T, visited: set<T>, v: T)
    requires AllMarked(g, root, visited, []) && Reaches(g, root, v) && v != root
    ensures v in visited
  {
    var w :| Walk(g, w) && w[0] == root && w[|w| - 1] == v;
    var q := CutToCycle(g, [v], w);
    assert Marked(visited, [], q);
    assert q[|q| - 1] == v;
  }

  /** Pops one path and visits the children of its last node, if it has an entry. */
  method Visit<T(==,!new)>(g: Graph<T>, ghost root: T, paths: seq<seq<T>>, cycles: seq<seq<T>>, visited: set<T>)
    returns (paths': seq<seq<T>>, cycles': seq<seq<T>>, visited': set<T>)
    requires root in g && paths != [] && Stacked(g, root, paths) && Sound(g, cycles)
    requires AllPending(g, root, cycles, paths) && AllMarked(g, root, visited, paths)
    ensures Stacked(g, root, paths') && Work(g, root, paths') < Work(g, root, paths)
    ensures Sound(g, cycles') && cycles <= cycles' && AllPending(g, root, cycles', paths')
    ensures AllMarked(g, root, visited', paths') && visited <= visited'
    ensures forall v :: v in visited' ==> v in visited || (v != root && Reaches(g, root, v))
  {
    var path := paths[|paths| - 1];
    paths' := paths[..|paths| - 1];
    ghost var base := paths';
    assert paths == base + [path];
    assert SimplePath(g, root, path) && Stacked(g, root, base);
    cycles', visited' := cycles, visited;
    WorkAppend(g, root, base, path);
    if path[|path| - 1] in g {
      paths', cycles', visited' := Expand(g, root, path, paths', cycles, visited);
      WorkOfExtensions(g, root, base, path, g[path[|path| - 1]]);
      forall v | v in visited' && v !in visited ensures v != root && Reaches(g, root, v) {
        OneFurther(g, root, path, v);
      }
    } else {
      assert base + [] == base;
    }
    forall p | SimplePath(g, root, p) ensures Pending(g, cycles', paths', p) {
      ExpandKeepsPending(g, root, base, path, cycles, cycles', p);
    }
    forall p | SimplePath(g, root, p) ensures Marked(visited', paths', p) {
      ExpandKeepsMarked(g, root, base, path, visited, visited', p);
    }
  }

  /** Searches every simple path from the root, depth first. */
  method Explore<T(==,!new)>(g: Graph<T>, root: T, cycles: seq<seq<T>>, visited: set<T>)
    returns (cycles': seq<seq<T>>, visited': set<T>)
    requires root in g && Sound(g, cycles)
    ensures Sound(g, cycles') && cycles <= cycles' && Covered(g, cycles', root)
    ensures forall v :: v in visited' <==> v in visited || (v != root && Reaches(g, root, v))
  {
    var paths := [[root]];
    cycles', visited' := cycles, visited;
    assert Walk(g, [root]);
    forall p | SimplePath(g, root, p) ensures Pending(g, cycles, paths, p) && Marked(visited, paths, p) {
      assert paths[0] <= p;
    }
    while paths != []
      invariant Stacked(g, root, paths)
      invariant Sound(g, cycles') && cycles <= cycles' && AllPending(g, root, cycles', paths)
      invariant AllMarked(g, root, visited', paths) && visited <= visited'
      invariant forall v :: v in visited' ==> v in visited || (v != root && Reaches(g, root, v))
      decreases Work(g, root, paths)
    {
      paths, cycles', visited' := Visit(g, root, paths, cycles', visited');
    }
    RootIsCovered(g, cycles', root);
    forall v | v != root && Reaches(g, root, v) ensures v in visited' {
      ReachedIsMarked(g, root, visited', v);
    }
  }

  lemma {:induction false} CoverStays<T(!new)>(g: Graph<T>, cycles: seq<seq<T>>, more: seq<seq<T>>, v: T)
    requires Covered(g, cycles, v) && cycles <= more
    ensures Covered(g, more, v)
  {
    forall c | SimpleCycle(g, c) && Reaches(g, v, c[0]) ensures Found(more, c) {
      FoundStays(cycles, more, c);
    }
  }

  ghost predicate AllCovered<T(!new)>(g: Graph<T>, cycles: seq<seq<T>>, s: set<T>) {
    forall v {:trigger Covered(g, cycles, v)} :: v in s ==> Covered(g, cycles, v)
  }

  /** find_cycles: skipping the start nodes already visited loses nothing. */
  method FindCycles<T(==,!new)>(g: Graph<T>) returns (cycles: seq<seq<T>>)
    ensures Sound(g, cycles)
    ensures forall c :: SimpleCycle(g, c) ==> Found(cycles, c)
  {
    cycles := [];
    var visited: set<T> := {};
    var rest := g.Keys;
    while rest != {}
      invariant rest <= g.Keys && Sound(g, cycles)
      invariant AllCovered(g, cycles, visited + (g.Keys - rest))
      decreases rest
    {
      var root :| root in rest;
      rest := rest - {root};
      if root !in visited {
        ghost var before, seen := cycles, visited + (g.Keys - rest) - {root};
        cycles, visited := Explore(g, root, cycles, visited);
        NowCovered(g, before, cycles, seen, root, visited + (g.Keys - rest));
      }
    }
    forall c | SimpleCycle(g, c) ensures Found(cycles, c) {
      CycleStartsAtKey(g, c);
      assert Covered(g, cycles, c[0]);
    }
  }

  lemma {:induction false} NowCovered<T(!new)>(g: Graph<T>, cycles: seq<seq<T>>, more: seq<seq<T>>, seen: set<T>, root: T, s: set<T>)
    requires AllCovered(g, cycles, seen) && cycles <= more && Covered(g, more, root)
    requires forall v :: v in s ==> v in seen || v == root || Reaches(g, root, v)
    ensures AllCovered(g, more, s)
  {
    forall v | v in s ensures Covered(g, more, v) {
      if v in seen {
        assert Covered(g, cycles, v);
        CoverStays(g, cycles, more, v);
      } else if v != root {
        CoverSpreads(g, more, root, v);
      }
    }
  }

  lemma {:induction false} CycleStartsAtKey<T(!new)>(g: Graph<T>, c: seq<T>)
    requires SimpleCycle(g, c)
    ensures c[0] in g && Reaches(g, c[0], c[0])
  {
    if |c| > 1 {
      assert ArcAt(g, c, 0);
    }
    assert Walk(g, [c[0]]);
  }
}
