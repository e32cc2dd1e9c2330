/** Dependency sorting into levels: an item's level is the length of its longest
  * chain of ancestors.
  */
module TopsortLevels {
  import opened Basics
  import opened Topsort

  // ---------- longest chains ----------

  ghost predicate EndsIn<T>(pairs: Pairs<T>, c: seq<T>, x: T) {
    IsChain(pairs, c) && c[|c| - 1] == x
  }

  /** The longest chain that ends in x makes k steps. */
  ghost predicate LongestChain<T(!new)>(pairs: Pairs<T>, x: T, k: nat) {
    (exists c :: EndsIn(pairs, c, x) && |c| == k + 1) &&
    (forall c :: EndsIn(pairs, c, x) ==> |c| <= k + 1)
  }

  lemma {:induction false} ChainSnoc<T(!new)>(pairs: Pairs<T>, c: seq<T>, x: T)
    requires IsChain(pairs, c) && (c[|c| - 1], x) in pairs
    ensures EndsIn(pairs, c + [x], x)
  {
    var longer := c + [x];
    forall i | 0 <= i < |longer| - 1 ensures Step(pairs, longer, i) {
      assert i < |c| - 1 ==> Step(pairs, c, i);
    }
  }

  lemma {:induction false} ChainInit<T(!new)>(pairs: Pairs<T>, c: seq<T>)
    requires IsChain(pairs, c) && |c| > 1
    ensures EndsIn(pairs, c[..|c| - 1], c[|c| - 2]) && (c[|c| - 2], c[|c| - 1]) in pairs
  {
    assert Step(pairs, c, |c| - 2);
    var init := c[..|c| - 1];
    forall i | 0 <= i < |init| - 1 ensures Step(pairs, init, i) {
      assert Step(pairs, c, i);
    }
  }

  /** Every parent of x is graded below x. */
  ghost predicate BelowParents<T>(pairs: Pairs<T>, depth: map<T, nat>, x: T)
    requires x in depth
  {
    forall p :: p in pairs && p.1 == x ==> p.0 in depth && depth[p.0] < depth[x]
  }

  /** ... and some parent directly below, unless x is at the bottom. */
  ghost predicate DirectParent<T>(pairs: Pairs<T>, depth: map<T, nat>, x: T)
    requires x in depth
  {
    depth[x] > 0 ==> exists p :: p in pairs && p.1 == x && p.0 in depth && depth[p.0] == depth[x] - 1
  }

  ghost predicate Graded<T>(pairs: Pairs<T>, depth: map<T, nat>) {
    forall x {:trigger BelowParents(pairs, depth, x)} :: x in depth ==>
      BelowParents(pairs, depth, x) && DirectParent(pairs, depth, x)
  }

  lemma {:induction false} ChainsAreShort<T(!new)>(pairs: Pairs<T>, depth: map<T, nat>, c: seq<T>)
    requires Graded(pairs, depth) && IsChain(pairs, c) && c[|c| - 1] in depth
    ensures |c| <= depth[c[|c| - 1]] + 1
  {
    if |c| > 1 {
      ChainInit(pairs, c);
      var p := (c[|c| - 2], c[|c| - 1]);
      assert BelowParents(pairs, depth, p.1);
      ChainsAreShort(pairs, depth, c[..|c| - 1]);
    }
  }

  lemma {:induction false} DeepestChain<T(!new)>(pairs: Pairs<T>, depth: map<T, nat>, x: T) returns (c: seq<T>)
    requires Graded(pairs, depth) && x in depth
    ensures EndsIn(pairs, c, x) && |c| == depth[x] + 1
    decreases depth[x]
  {
    if depth[x] == 0 {
      c := [x];
    } else {
      assert BelowParents(pairs, depth, x);
      var p :| p in pairs && p.1 == x && p.0 in depth && depth[p.0] == depth[x] - 1;
      c := DeepestChain(pairs, depth, p.0);
      ChainSnoc(pairs, c, x);
      c := c + [x];
    }
  }

  /** A grade is the length of the longest chain. */
  lemma {:induction false} GradeIsLongest<T(!new)>(pairs: Pairs<T>, depth: map<T, nat>, x: T)
    requires Graded(pairs, depth) && x in depth
    ensures LongestChain(pairs, x, depth[x])
  {
    var c := DeepestChain(pairs, depth, x);
    forall d | EndsIn(pairs, d, x) ensures |d| <= depth[x] + 1 {
      ChainsAreShort(pairs, depth, d);
    }
  }

  /** Items that keep a parent among themselves have chains of every length. */
  lemma {:induction false} EndlessChain<T(!new)>(pairs: Pairs<T>, rest: set<T>, x: T, k: nat) returns (c: seq<T>)
    requires Orphanless(pairs, rest) && x in rest
    ensures EndsIn(pairs, c, x) && |c| == k + 1
    decreases k
  {
    if k == 0 {
      c := [x];
    } else {
      assert HasParentIn(pairs, rest, x);
      var p :| p in rest && (p, x) in pairs;
      c := EndlessChain(pairs, rest, p, k - 1);
      ChainSnoc(pairs, c, x);
      c := c + [x];
    }
  }

  // ---------- one level ----------

  ghost predicate LevelCounts<T(!new)>(pairs: Pairs<T>, items: set<T>, done: set<T>, numParents: map<T, int>) {
    numParents.Keys == items - done &&
    forall x :: x in numParents ==> numParents[x] == Count(pairs, done, x)
  }

  /** The child lists may be in any order. */
  ghost predicate LevelChildren<T(!new)>(pairs: Pairs<T>, done: set<T>, children: map<T, seq<T>>) {
    forall p :: p !in done ==> multiset(if p in children then children[p] else []) == multiset(Children(pairs, p))
  }

  /** While parent is removed, its children list[k..] are still to be counted down. */
  ghost predicate Counting<T(!new)>(pairs: Pairs<T>, items: set<T>, done: set<T>, list: seq<T>, k: nat, numParents: map<T, int>)
    requires k <= |list|
  {
    numParents.Keys == items - done &&
    forall x :: x in numParents ==> numParents[x] == Count(pairs, done, x) + multiset(list[k..])[x]
  }

  lemma {:induction false} StartCounting<T(!new)>(pairs: Pairs<T>, items: set<T>, done: set<T>, parent: T, list: seq<T>, numParents: map<T, int>)
    requires LevelCounts(pairs, items, done, numParents) && parent !in done
    requires multiset(list) == multiset(Children(pairs, parent))
    ensures Counting(pairs, items, done + {parent}, list, 0, numParents - {parent})
  {
    assert list[0..] == list;
    forall x | x in numParents
      ensures numParents[x] == Count(pairs, done + {parent}, x) + multiset(list)[x]
    {
      CountSplits(pairs, done, parent, x);
    }
  }

  lemma {:induction false} CountOneChild<T(!new)>(pairs: Pairs<T>, items: set<T>, done: set<T>, list: seq<T>, k: nat, n0: map<T, int>)
    requires k < |list| && Counting(pairs, items, done, list, k, n0) && list[k] in n0
    ensures Counting(pairs, items, done, list, k + 1, n0[list[k] := n0[list[k]] - 1])
  {
    assert list[k..] == [list[k]] + list[k + 1..];
  }

  lemma {:induction false} ChildrenAreLeft<T(!new)>(pairs: Pairs<T>, items: set<T>, done: set<T>, parent: T, list: seq<T>)
    requires Mentioned(pairs) <= items && multiset(list) == multiset(Children(pairs, parent))
    requires forall x :: (parent, x) in pairs ==> x !in done
    ensures forall x :: x in list ==> x in items - done
  {
    forall x | x in list ensures x in items - done {
      assert x in multiset(list) && x in Children(pairs, parent);
      ChildrenAre(pairs, parent, x);
      assert (parent, x).1 in Mentioned(pairs);
    }
  }

  /** Takes one item of the level out of the dictionaries. */
  method TakeOne<T(==,!new)>(ghost pairs: Pairs<T>, ghost items: set<T>, ghost done: set<T>, parent: T,
                             numParents: map<T, int>, children: map<T, seq<T>>)
    returns (numParents': map<T, int>, children': map<T, seq<T>>)
    requires Mentioned(pairs) <= items && parent in items && parent !in done
    requires LevelCounts(pairs, items, done, numParents) && LevelChildren(pairs, done, children)
    requires forall x :: (parent, x) in pairs ==> x !in done + {parent}
    ensures LevelCounts(pairs, items, done + {parent}, numParents')
    ensures LevelChildren(pairs, done + {parent}, children') && children' == children - {parent}
  {
    var list := if parent in children then children[parent] else [];
    StartCounting(pairs, items, done, parent, list, numParents);
    ChildrenAreLeft(pairs, items, done + {parent}, parent, list);
    numParents' := CountDownAll(pairs, items, done + {parent}, list, numParents - {parent});
    children' := children - {parent};
  }

  method CountDownAll<T(==,!new)>(ghost pairs: Pairs<T>, ghost items: set<T>, ghost done: set<T>, list: seq<T>,
                                  numParents: map<T, int>) returns (numParents': map<T, int>)
    requires Counting(pairs, items, done, list, 0, numParents)
    requires forall x :: x in list ==> x in items - done
    ensures LevelCounts(pairs, items, done, numParents')
  {
    numParents' := numParents;
    for k := 0 to |list|
      invariant Counting(pairs, items, done, list, k, numParents')
    {
      assert list[k] in list;
      CountOneChild(pairs, items, done, list, k, numParents');
      numParents' := numParents'[list[k] := numParents'[list[k]] - 1];
    }
    assert list[|list|..] == [];
  }

  /** Takes the next item of a level out: none of its items is a child of another one. */
  method TakeNext<T(==,!new)>(ghost pairs: Pairs<T>, ghost items: set<T>, ghost done: set<T>, level: seq<T>, i: nat,
                              numParents: map<T, int>, children: map<T, seq<T>>)
    returns (numParents': map<T, int>, children': map<T, seq<T>>)
    requires i < |level| && Mentioned(pairs) <= items && NoRepeats(level)
    requires forall x :: x in level ==> x in items && x !in done
    requires forall p :: p in pairs && p.1 in done + Items(level) ==> p.0 in done
    requires LevelCounts(pairs, items, done + Items(level[..i]), numParents)
    requires LevelChildren(pairs, done + Items(level[..i]), children)
    ensures LevelCounts(pairs, items, done + Items(level[..i + 1]), numParents')
    ensures LevelChildren(pairs, done + Items(level[..i + 1]), children')
    ensures children' == children - {level[i]}
  {
    ghost var taken := done + Items(level[..i]);
    ItemsSnoc(level, i);
    assert taken + {level[i]} == done + Items(level[..i + 1]);
    forall x | (level[i], x) in pairs ensures x !in taken + {level[i]} {
      assert (level[i], x).0 !in done;
    }
    numParents', children' := TakeOne(pairs, items, taken, level[i], numParents, children);
  }

  /** Takes a whole level out. */
  method TakeLevel<T(==,!new)>(ghost pairs: Pairs<T>, ghost items: set<T>, ghost done: set<T>, level: seq<T>,
                               numParents: map<T, int>, children: map<T, seq<T>>)
    returns (numParents': map<T, int>, children': map<T, seq<T>>)
    requires Mentioned(pairs) <= items && NoRepeats(level)
    requires forall x :: x in level ==> x in items && x !in done
    requires LevelCounts(pairs, items, done, numParents) && LevelChildren(pairs, done, children)
    requires forall p :: p in pairs && p.1 in done + Items(level) ==> p.0 in done
    ensures LevelCounts(pairs, items, done + Items(level), numParents')
    ensures LevelChildren(pairs, done + Items(level), children') && children' == children - Items(level)
  {
    numParents', children' := numParents, children;
    assert done + Items(level[..0]) == done;
    for i := 0 to |level|
      invariant LevelCounts(pairs, items, done + Items(level[..i]), numParents')
      invariant LevelChildren(pairs, done + Items(level[..i]), children')
      invariant children' == children - Items(level[..i])
    {
      ItemsSnoc(level, i);
      WithoutMore(children, Items(level[..i]), {level[i]});
      numParents', children' := TakeNext(pairs, items, done, level, i, numParents', children');
    }
    assert level[..|level|] == level;
  }

  // ---------- all levels ----------

  /** The grades of the items listed so far. */
  ghost predicate Levelled<T(!new)>(pairs: Pairs<T>, items: set<T>, levels: seq<seq<T>>, depth: map<T, nat>) {
    Graded(pairs, depth) && depth.Keys <= items &&
    (forall k :: 0 <= k < |levels| ==> levels[k] != [] && NoRepeats(levels[k])) &&
    (forall k, x :: 0 <= k < |levels| ==> (x in levels[k] <==> x in depth && depth[x] == k)) &&
    (forall x :: x in depth ==> depth[x] < |levels|) &&
    (forall x {:trigger LateParent(pairs, levels, depth, x)} :: x in items && x !in depth ==> LateParent(pairs, levels, depth, x))
  }

  /** x waited for a parent that is in the last level or not listed yet. */
  ghost predicate LateParent<T>(pairs: Pairs<T>, levels: seq<seq<T>>, depth: map<T, nat>, x: T) {
    |levels| > 0 ==> exists p :: p in pairs && p.1 == x && (p.0 in depth ==> depth[p.0] == |levels| - 1)
  }

  /** The items of the new level get the next grade. */
  ghost function Regrade<T>(depth: map<T, nat>, level: seq<T>, n: nat): map<T, nat> {
    map x | x in depth.Keys + Items(level) :: if x in depth then depth[x] else n
  }

  /** level is what the dictionary says has no parent left. */
  ghost predicate IsNext<T(!new)>(pairs: Pairs<T>, items: set<T>, depth: map<T, nat>, level: seq<T>) {
    NoRepeats(level) && level != [] &&
    (forall x :: x in level ==> x in items && x !in depth) &&
    (forall p :: p in pairs && p.1 in level ==> p.0 in depth) &&
    (forall x {:trigger HasOpenParent(pairs, depth, x)} :: x in items && x !in depth && x !in level ==> HasOpenParent(pairs, depth, x))
  }

  ghost predicate HasOpenParent<T>(pairs: Pairs<T>, depth: map<T, nat>, x: T) {
    exists p :: p in pairs && p.1 == x && p.0 !in depth
  }

  lemma {:induction false} CountsShowNext<T(!new)>(pairs: Pairs<T>, items: set<T>, depth: map<T, nat>,
                                                   numParents: map<T, int>, level: seq<T>)
    requires LevelCounts(pairs, items, depth.Keys, numParents)
    requires NoRepeats(level) && level != []
    requires forall x :: x in level <==> x in numParents && numParents[x] == 0
    ensures IsNext(pairs, items, depth, level)
  {
    forall p | p in pairs && p.1 in level ensures p.0 in depth {
      CountIsZero(pairs, depth.Keys, p.1);
      assert (p.0, p.1) in pairs;
    }
    forall x | x in items && x !in depth && x !in level ensures HasOpenParent(pairs, depth, x) {
      CountIsZero(pairs, depth.Keys, x);
      var q :| (q, x) in pairs && q !in depth.Keys;
      assert (q, x).1 == x && (q, x).0 !in depth;
    }
  }

  lemma {:induction false} NextIsGraded<T(!new)>(pairs: Pairs<T>, items: set<T>, levels: seq<seq<T>>, depth: map<T, nat>, level: seq<T>)
    requires Levelled(pairs, items, levels, depth) && IsNext(pairs, items, depth, level)
    ensures Graded(pairs, Regrade(depth, level, |levels|))
  {
    var n := |levels|;
    var depth' := Regrade(depth, level, n);
    forall x | x in depth' ensures BelowParents(pairs, depth', x) && DirectParent(pairs, depth', x) {
      if x in depth {
        assert BelowParents(pairs, depth, x) && DirectParent(pairs, depth, x);
        GradeKept(pairs, depth, depth', x);
      } else {
        assert LateParent(pairs, levels, depth, x);
        if n > 0 {
          var p :| p in pairs && p.1 == x && (p.0 in depth ==> depth[p.0] == n - 1);
          assert p.0 in depth' && depth'[p.0] == depth'[x] - 1;
        }
      }
    }
  }

  lemma {:induction false} NextIsLate<T(!new)>(pairs: Pairs<T>, items: set<T>, levels: seq<seq<T>>, depth: map<T, nat>, level: seq<T>, x: T)
    requires IsNext(pairs, items, depth, level) && x in items && x !in Regrade(depth, level, |levels|)
    ensures LateParent(pairs, levels + [level], Regrade(depth, level, |levels|), x)
  {
    assert HasOpenParent(pairs, depth, x);
    var p :| p in pairs && p.1 == x && p.0 !in depth;
    assert p.0 in Regrade(depth, level, |levels|) ==> Regrade(depth, level, |levels|)[p.0] == |levels|;
  }

  lemma {:induction false} NextLevel<T(!new)>(pairs: Pairs<T>, items: set<T>, levels: seq<seq<T>>, depth: map<T, nat>, level: seq<T>)
    requires Levelled(pairs, items, levels, depth) && IsNext(pairs, items, depth, level)
    ensures Levelled(pairs, items, levels + [level], Regrade(depth, level, |levels|))
    ensures forall p :: p in pairs && p.1 in depth.Keys + Items(level) ==> p.0 in depth
  {
    var depth' := Regrade(depth, level, |levels|);
    NextIsGraded(pairs, items, levels, depth, level);
    forall x | x in items && x !in depth' ensures LateParent(pairs, levels + [level], depth', x) {
      NextIsLate(pairs, items, levels, depth, level, x);
    }
    forall p | p in pairs && p.1 in depth.Keys + Items(level) ensures p.0 in depth {
      assert p.1 in depth ==> BelowParents(pairs, depth, p.1);
    }
  }

  lemma {:induction false} GradeKept<T(!new)>(pairs: Pairs<T>, depth: map<T, nat>, depth': map<T, nat>, x: T)
    requires x in depth && BelowParents(pairs, depth, x) && DirectParent(pairs, depth, x)
    requires forall y :: y in depth ==> y in depth' && depth'[y] == depth[y]
    ensures BelowParents(pairs, depth', x) && DirectParent(pairs, depth', x)
  {
    if depth[x] > 0 {
      var p :| p in pairs && p.1 == x && p.0 in depth && depth[p.0] == depth[x] - 1;
      assert depth'[p.0] == depth'[x] - 1;
    }
  }

  /** Level k holds exactly the items whose longest chain makes k steps. */
  ghost predicate ByLongestChain<T(!new)>(pairs: Pairs<T>, items: set<T>, levels: seq<seq<T>>) {
    (forall k :: 0 <= k < |levels| ==> levels[k] != [] && NoRepeats(levels[k])) &&
    (forall k, x :: 0 <= k < |levels| && x in levels[k] ==> x in items) &&
    (forall x, k: nat :: x in items ==> (LongestChain(pairs, x, k) <==> k < |levels| && x in levels[k]))
  }

  lemma {:induction false} LeftoversKeepParents<T(!new)>(pairs: Pairs<T>, items: set<T>, done: set<T>, numParents: map<T, int>)
    requires Mentioned(pairs) <= items && LevelCounts(pairs, items, done, numParents)
    requires forall x :: x in numParents ==> numParents[x] != 0
    ensures Orphanless(pairs, numParents.Keys)
  {
    var rest := numParents.Keys;
    forall x | x in rest ensures HasParentIn(pairs, rest, x) {
      CountIsZero(pairs, done, x);
      var p :| (p, x) in pairs && p !in done;
      assert (p, x).0 in Mentioned(pairs);
    }
  }

  lemma {:induction false} LevelsByLongestChain<T(!new)>(pairs: Pairs<T>, items: set<T>, levels: seq<seq<T>>, depth: map<T, nat>)
    requires Levelled(pairs, items, levels, depth) && Orphanless(pairs, items - depth.Keys)
    ensures ByLongestChain(pairs, items, levels)
  {
    forall x, k: nat | x in items ensures LongestChain(pairs, x, k) <==> k < |levels| && x in levels[k] {
      if x in depth {
        GradeIsLongest(pairs, depth, x);
        LongestIsUnique(pairs, x, depth[x], k);
      } else {
        var c := EndlessChain(pairs, items - depth.Keys, x, k + 1);
      }
    }
  }

  lemma {:induction false} GradedIsAcyclic<T(!new)>(pairs: Pairs<T>, depth: map<T, nat>)
    requires Graded(pairs, depth) && Mentioned(pairs) <= depth.Keys
    ensures !HasCycle(pairs)
  {
    forall p | p in pairs ensures p.0 in depth && p.1 in depth && depth[p.0] < depth[p.1] {
      assert p.1 in Mentioned(pairs);
      assert BelowParents(pairs, depth, p.1);
    }
    RankExcludesCycles(pairs, depth);
  }

  lemma {:induction false} LevelsDone<T(!new)>(pairs: Pairs<T>, items: set<T>, levels: seq<seq<T>>, depth: map<T, nat>, numParents: map<T, int>)
    requires Mentioned(pairs) <= items && Levelled(pairs, items, levels, depth)
    requires LevelCounts(pairs, items, depth.Keys, numParents)
    requires forall x :: x in numParents ==> numParents[x] != 0
    ensures ByLongestChain(pairs, items, levels)
    ensures numParents == map[] <==> !HasCycle(pairs)
  {
    var rest := numParents.Keys;
    LeftoversKeepParents(pairs, items, depth.Keys, numParents);
    LevelsByLongestChain(pairs, items, levels, depth);
    if rest == {} {
      forall x | x in items ensures x in depth.Keys {
        assert x !in rest;
      }
      GradedIsAcyclic(pairs, depth);
    } else {
      var x :| x in rest;
      WalkBack(pairs, rest, [x]);
    }
  }

  lemma {:induction false} LongestIsUnique<T(!new)>(pairs: Pairs<T>, x: T, j: nat, k: nat)
    requires LongestChain(pairs, x, j)
    ensures LongestChain(pairs, x, k) <==> j == k
  {
    var c :| EndsIn(pairs, c, x) && |c| == j + 1;
    if LongestChain(pairs, x, k) {
      var d :| EndsIn(pairs, d, x) && |d| == k + 1;
    }
  }

  /** What the next level is, and that it leaves fewer items. */
  lemma {:induction false} LevelFollows<T(!new)>(pairs: Pairs<T>, items: set<T>, levels: seq<seq<T>>, depth: map<T, nat>, done: set<T>,
                                                 numParents: map<T, int>, level: seq<T>)
    requires Levelled(pairs, items, levels, depth) && done == depth.Keys
    requires LevelCounts(pairs, items, done, numParents)
    requires NoRepeats(level) && level != []
    requires forall x :: x in level <==> x in numParents && numParents[x] == 0
    ensures Levelled(pairs, items, levels + [level], Regrade(depth, level, |levels|))
    ensures Regrade(depth, level, |levels|).Keys == done + Items(level)
    ensures forall p :: p in pairs && p.1 in done + Items(level) ==> p.0 in done
    ensures forall x :: x in level ==> x in items && x !in done
    ensures items - (done + Items(level)) < items - done
  {
    CountsShowNext(pairs, items, depth, numParents, level);
    NextLevel(pairs, items, levels, depth, level);
    assert level[0] in items - done && level[0] in Items(level);
  }

  lemma {:induction false} NoLevelsYet<T(!new)>(pairs: Pairs<T>, items: set<T>)
    ensures Levelled(pairs, items, [], map[])
  {
  }

  lemma {:induction false} WithoutMore<T, V>(m: map<T, V>, done: set<T>, more: set<T>)
    ensures m - done - more == m - (done + more)
  {
  }

  method AllLevels<T(==,!new)>(ghost pairs: Pairs<T>, numParents: map<T, int>, children: map<T, seq<T>>)
    returns (levels: seq<seq<T>>, counts: map<T, int>, lists: map<T, seq<T>>, ghost depth: map<T, nat>)
    requires Mentioned(pairs) <= numParents.Keys
    requires LevelCounts(pairs, numParents.Keys, {}, numParents) && LevelChildren(pairs, {}, children)
    ensures Levelled(pairs, numParents.Keys, levels, depth)
    ensures LevelCounts(pairs, numParents.Keys, depth.Keys, counts)
    ensures forall x :: x in counts ==> counts[x] != 0
    ensures LevelChildren(pairs, depth.Keys, lists) && lists == children - depth.Keys
  {
    counts, lists, levels, depth := numParents, children, [], map[];
    ghost var items, done: set<T> := numParents.Keys, {};
    NoLevelsYet(pairs, items);
    while true
      invariant Levelled(pairs, items, levels, depth) && done == depth.Keys
      invariant LevelCounts(pairs, items, done, counts) && LevelChildren(pairs, done, lists)
      invariant lists == children - done
      decreases items - done
    {
      var level := Parentless(counts);
      if level == [] {
        break;
      }
      LevelFollows(pairs, items, levels, depth, done, counts, level);
      WithoutMore(children, done, Items(level));
      counts, lists := TakeLevel(pairs, items, done, level, counts, lists);
      done := done + Items(level);
      depth := Regrade(depth, level, |levels|);
      levels := levels + [level];
    }
  }

  /** What a CycleError carries: the dictionaries as they are then. */
  datatype Stuck<T> = Stuck(numParents: map<T, int>, children: map<T, seq<T>>)

  /** The items in no level, with the pairs between them counted, and the child lists given
    * for them. */
  ghost predicate LeftBehind<T(!new)>(pairs: Pairs<T>, items: set<T>, levels: seq<seq<T>>, given: map<T, seq<T>>, e: Stuck<T>) {
    (forall x :: x in e.numParents <==> x in items && forall k :: 0 <= k < |levels| ==> x !in levels[k]) &&
    (forall x :: x in e.numParents ==> e.numParents[x] == |PairsBetween(pairs, e.numParents.Keys, x)|) &&
    (forall p :: p in e.children <==> p in given && forall k :: 0 <= k < |levels| ==> p !in levels[k]) &&
    (forall p :: p in e.children ==> e.children[p] == given[p])
  }

  lemma {:induction false} LeftIsBehind<T(!new)>(pairs: Pairs<T>, items: set<T>, levels: seq<seq<T>>, depth: map<T, nat>,
                                                 given: map<T, seq<T>>, e: Stuck<T>)
    requires Mentioned(pairs) <= items && Levelled(pairs, items, levels, depth)
    requires LevelCounts(pairs, items, depth.Keys, e.numParents) && e.children == given - depth.Keys
    ensures LeftBehind(pairs, items, levels, given, e)
  {
    forall x ensures x in depth <==> exists k :: 0 <= k < |levels| && x in levels[k] {
      if x in depth {
        assert x in levels[depth[x]];
      }
    }
    forall x | x in e.numParents ensures e.numParents[x] == |PairsBetween(pairs, e.numParents.Keys, x)| {
      forall p | p in pairs ensures p.0 in e.numParents.Keys <==> p.0 !in depth.Keys {
        assert p.0 in Mentioned(pairs);
      }
      CountIsPairs(pairs, depth.Keys, e.numParents.Keys, x);
    }
  }

  /** topsort_levels_core: yields the levels in order, then fails exactly on a cycle. */
  method TopsortLevelsCore<T(==,!new)>(ghost pairs: Pairs<T>, numParents: map<T, int>, children: map<T, seq<T>>)
    returns (levels: seq<seq<T>>, cycleError: Option<Stuck<T>>)
    requires Mentioned(pairs) <= numParents.Keys
    requires LevelCounts(pairs, numParents.Keys, {}, numParents) && LevelChildren(pairs, {}, children)
    ensures ByLongestChain(pairs, numParents.Keys, levels)
    ensures cycleError.Some? <==> HasCycle(pairs)
    ensures cycleError.Some? ==> LeftBehind(pairs, numParents.Keys, levels, children, cycleError.value)
  {
    var counts, lists;
    ghost var depth;
    levels, counts, lists, depth := AllLevels(pairs, numParents, children);
    LevelsDone(pairs, numParents.Keys, levels, depth, counts);
    LeftIsBehind(pairs, numParents.Keys, levels, depth, children, Stuck(counts, lists));
    cycleError := if counts != map[] then Some(Stuck(counts, lists)) else None;
  }

  /** topsort_levels on a list of pairs. */
  method TopsortLevels<T(==,!new)>(pairlist: Pairs<T>) returns (levels: seq<seq<T>>, cycleError: Option<Stuck<T>>)
    ensures ByLongestChain(pairlist, Mentioned(pairlist), levels)
    ensures cycleError.Some? <==> HasCycle(pairlist)
    ensures cycleError.Some? ==>
      var counts, lists := cycleError.value.numParents, cycleError.value.children;
      (forall x :: x in counts <==> x in Mentioned(pairlist) && forall k :: 0 <= k < |levels| ==> x !in levels[k]) &&
      (forall x :: x in counts ==> counts[x] == |PairsBetween(pairlist, counts.Keys, x)|) &&
      (forall p :: p in lists <==> p in counts && HasChild(pairlist, p)) &&
      (forall p, x :: p in lists ==> multiset(lists[p])[x] == |PairsBetween(pairlist, {p}, x)|) &&
      (forall p :: p in lists ==> InPairOrder(pairlist, p, lists[p]))
  {
    var numParents, children := Build(pairlist);
    assert numParents.Keys == Mentioned(pairlist);
    levels, cycleError := TopsortLevelsCore(pairlist, numParents, children);
    if cycleError.Some? {
      ListsLeftBehind(pairlist, levels, children, cycleError.value);
    }
  }

  lemma {:induction false} ListsLeftBehind<T(!new)>(pairs: Pairs<T>, levels: seq<seq<T>>, given: map<T, seq<T>>, e: Stuck<T>)
    requires ListsChildren(pairs, {}, given) && LeftBehind(pairs, Mentioned(pairs), levels, given, e)
    ensures forall p :: p in e.children <==> p in e.numParents && HasChild(pairs, p)
    ensures forall p, x :: p in e.children ==> multiset(e.children[p])[x] == |PairsBetween(pairs, {p}, x)|
    ensures forall p :: p in e.children ==> InPairOrder(pairs, p, e.children[p])
  {
    forall p ensures p in given <==> p in Mentioned(pairs) && HasChild(pairs, p) {
      if p in given {
        ChildrenAre(pairs, p, given[p][0]);
        assert (p, given[p][0]).0 in Mentioned(pairs);
      }
      if c :| (p, c) in pairs {
        ChildrenAre(pairs, p, c);
      }
    }
    forall p, x | p in e.children ensures multiset(e.children[p])[x] == |PairsBetween(pairs, {p}, x)| {
      ChildrenArePairs(pairs, p, x);
    }
    forall p | p in e.children ensures InPairOrder(pairs, p, e.children[p]) {
      var at := ChildrenInOrder(pairs, p);
    }
  }
}
