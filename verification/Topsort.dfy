/** Dependency sorting of (parent, child) pairs by counting unprocessed parents. */
module Topsort {
  import opened Basics

  type Pairs<T> = seq<(T, T)>

  // ---------- the relation ----------

  function Mentioned<T>(pairs: Pairs<T>): set<T> {
    (set p | p in pairs :: p.0) + (set p | p in pairs :: p.1)
  }

  /** Item i is a parent of item i + 1. */
  ghost predicate Step<T>(pairs: Pairs<T>, c: seq<T>, i: int) {
    0 <= i && i + 1 < |c| && (c[i], c[i + 1]) in pairs
  }

  /** Each item is a parent of the next. */
  ghost predicate IsChain<T>(pairs: Pairs<T>, c: seq<T>) {
    |c| > 0 && forall i :: 0 <= i < |c| - 1 ==> Step(pairs, c, i)
  }

  /** ... and the last item is a parent of the first. */
  ghost predicate IsCycle<T>(pairs: Pairs<T>, c: seq<T>) {
    IsChain(pairs, c) && (c[|c| - 1], c[0]) in pairs
  }

  ghost predicate HasCycle<T(!new)>(pairs: Pairs<T>) {
    exists c :: IsCycle(pairs, c)
  }

  /** Every mentioned item once, and every parent before each of its children. */
  ghost predicate IsSorted<T(!new)>(pairs: Pairs<T>, order: seq<T>) {
    NoRepeats(order) &&
    (forall x :: x in order <==> x in Mentioned(pairs)) &&
    (forall i, j :: 0 <= i < |order| && 0 <= j < |order| && (order[i], order[j]) in pairs ==> i < j)
  }

  // ---------- cycles and ranks ----------

  /** A rank that grows from parent to child excludes cycles. */
  lemma {:induction false} RankExcludesCycles<T(!new)>(pairs: Pairs<T>, rank: map<T, int>)
    requires forall p :: p in pairs ==> p.0 in rank && p.1 in rank && rank[p.0] < rank[p.1]
    ensures !HasCycle(pairs)
  {
    if c :| IsCycle(pairs, c) {
      assert (c[|c| - 1], c[0]) in pairs;
      RankGrows(pairs, rank, c, |c| - 1);
    }
  }

  lemma {:induction false} RankGrows<T>(pairs: Pairs<T>, rank: map<T, int>, c: seq<T>, k: nat)
    requires forall p :: p in pairs ==> p.0 in rank && p.1 in rank && rank[p.0] < rank[p.1]
    requires IsCycle(pairs, c) && k < |c|
    ensures c[0] in rank && c[k] in rank && rank[c[0]] <= rank[c[k]]
  {
    if k > 0 {
      RankGrows(pairs, rank, c, k - 1);
      assert Step(pairs, c, k - 1);
    } else {
      assert (c[|c| - 1], c[0]) in pairs;
    }
  }

  lemma {:induction false} NoRepeatsFits<T>(s: seq<T>, all: set<T>)
    requires NoRepeats(s) && forall x :: x in s ==> x in all
    ensures |s| <= |all|
  {
    if s != [] {
      var last, init := s[|s| - 1], s[..|s| - 1];
      assert forall x :: x in init ==> x in all - {last};
      NoRepeatsFits(init, all - {last});
    }
  }

  ghost predicate HasParentIn<T>(pairs: Pairs<T>, rest: set<T>, x: T) {
    exists p :: p in rest && (p, x) in pairs
  }

  /** Every item of rest has a parent in rest. */
  ghost predicate Orphanless<T>(pairs: Pairs<T>, rest: set<T>) {
    forall x {:trigger HasParentIn(pairs, rest, x)} :: x in rest ==> HasParentIn(pairs, rest, x)
  }

  /** The largest set of items in which each has a parent; it contains their children. */
  ghost predicate Leftover<T(!new)>(pairs: Pairs<T>, rest: set<T>) {
    rest <= Mentioned(pairs) && Orphanless(pairs, rest) &&
    (forall p :: p in pairs && p.0 in rest ==> p.1 in rest) &&
    (forall other: set<T> :: Orphanless(pairs, other) && other <= Mentioned(pairs) ==> other <= rest)
  }

  ghost predicate HasChild<T(!new)>(pairs: Pairs<T>, x: T) {
    exists c :: (x, c) in pairs
  }

  /** A chain from x runs into itself. */
  ghost predicate LeadsToCycle<T(!new)>(pairs: Pairs<T>, x: T) {
    exists c, i :: IsChain(pairs, c) && c[0] == x && 0 <= i < |c| && (c[|c| - 1], c[i]) in pairs
  }

  /** What is left over need not have children: it all has exactly when each leftover item
    * is on a cycle or leads to one. */
  lemma {:induction false} LeftoverHasChildren<T(!new)>(pairs: Pairs<T>, rest: set<T>)
    requires Leftover(pairs, rest)
    ensures (forall x {:trigger HasChild(pairs, x)} :: x in rest ==> HasChild(pairs, x)) <==>
            (forall x {:trigger LeadsToCycle(pairs, x)} :: x in rest ==> LeadsToCycle(pairs, x))
  {
    if forall x {:trigger HasChild(pairs, x)} :: x in rest ==> HasChild(pairs, x) {
      forall x | x in rest ensures LeadsToCycle(pairs, x) {
        WalkOn(pairs, rest, [x]);
      }
    }
    forall x | LeadsToCycle(pairs, x) ensures HasChild(pairs, x) {
      var c, i :| IsChain(pairs, c) && c[0] == x && 0 <= i < |c| && (c[|c| - 1], c[i]) in pairs;
      if |c| > 1 {
        assert Step(pairs, c, 0);
      }
    }
  }

  lemma {:induction false} WalkOn<T(!new)>(pairs: Pairs<T>, rest: set<T>, path: seq<T>)
    requires forall p :: p in pairs && p.0 in rest ==> p.1 in rest
    requires forall x {:trigger HasChild(pairs, x)} :: x in rest ==> HasChild(pairs, x)
    requires IsChain(pairs, path) && NoRepeats(path) && forall x :: x in path ==> x in rest
    ensures LeadsToCycle(pairs, path[0])
    decreases |rest| - |path|
  {
    var last := path[|path| - 1];
    assert HasChild(pairs, last);
    var c :| (last, c) in pairs;
    if c in path {
      var i :| 0 <= i < |path| && path[i] == c;
    } else {
      var longer := path + [c];
      forall i | 0 <= i < |longer| - 1 ensures Step(pairs, longer, i) {
        assert i < |path| - 1 ==> Step(pairs, path, i);
      }
      assert (last, c).1 in rest;
      NoRepeatsFits(longer, rest);
      WalkOn(pairs, rest, longer);
    }
  }

  /** A cycle and a child of it: all are left over, and the child has no child. */
  lemma {:induction false} ChildlessLeftover<T(!new)>(a: T, b: T, c: T, rest: set<T>)
    requires a != b && a != c && b != c && Leftover([(a, b), (b, a), (b, c)], rest)
    ensures c in rest && !HasChild([(a, b), (b, a), (b, c)], c)
  {
    var pairs, all := [(a, b), (b, a), (b, c)], {a, b, c};
    assert pairs[0] in pairs && pairs[1] in pairs && pairs[2] in pairs;
    assert HasParentIn(pairs, all, a) && HasParentIn(pairs, all, b) && HasParentIn(pairs, all, c);
    assert all <= Mentioned(pairs) by {
      assert pairs[0].0 == a && pairs[0].1 == b && pairs[2].1 == c;
    }
    assert Orphanless(pairs, all);
  }

  /** Walking from child to parent within a finite set must close a cycle. */
  lemma {:induction false} WalkBack<T(!new)>(pairs: Pairs<T>, rest: set<T>, path: seq<T>)
    requires Orphanless(pairs, rest)
    requires IsChain(pairs, path) && NoRepeats(path) && forall x :: x in path ==> x in rest
    ensures HasCycle(pairs)
    decreases |rest| - |path|
  {
    assert HasParentIn(pairs, rest, path[0]);
    var p :| p in rest && (p, path[0]) in pairs;
    if p in path {
      var j :| 0 <= j < |path| && path[j] == p;
      ChainClosed(pairs, path, j);
    } else {
      ChainLonger(pairs, p, path);
      NoRepeatsFits([p] + path, rest);
      WalkBack(pairs, rest, [p] + path);
    }
  }

  lemma {:induction false} ChainClosed<T(!new)>(pairs: Pairs<T>, path: seq<T>, j: nat)
    requires IsChain(pairs, path) && j < |path| && (path[j], path[0]) in pairs
    ensures HasCycle(pairs)
  {
    var c := path[..j + 1];
    forall i | 0 <= i < |c| - 1 ensures Step(pairs, c, i) {
      assert Step(pairs, path, i);
    }
    assert IsCycle(pairs, c);
  }

  lemma {:induction false} ChainLonger<T(!new)>(pairs: Pairs<T>, p: T, path: seq<T>)
    requires IsChain(pairs, path) && (p, path[0]) in pairs
    ensures IsChain(pairs, [p] + path)
  {
    var longer := [p] + path;
    forall i | 0 <= i < |longer| - 1 ensures Step(pairs, longer, i) {
      assert i > 0 ==> Step(pairs, path, i - 1);
    }
  }

  // ---------- counting ----------

  /** Pairs that make x a child of an item outside done. */
  function Count<T(==)>(pairs: Pairs<T>, done: set<T>, x: T): nat {
    if pairs == [] then 0
    else
      var last := pairs[|pairs| - 1];
      Count(pairs[..|pairs| - 1], done, x) + (if last.1 == x && last.0 !in done then 1 else 0)
  }

  function Children<T(==)>(pairs: Pairs<T>, p: T): seq<T> {
    if pairs == [] then []
    else
      var last := pairs[|pairs| - 1];
      Children(pairs[..|pairs| - 1], p) + (if last.0 == p then [last.1] else [])
  }

  lemma {:induction false} CountIsZero<T(!new)>(pairs: Pairs<T>, done: set<T>, x: T)
    ensures Count(pairs, done, x) == 0 <==> forall p :: (p, x) in pairs ==> p in done
  {
    if pairs != [] {
      var last, init := pairs[|pairs| - 1], pairs[..|pairs| - 1];
      CountIsZero(init, done, x);
      assert pairs == init + [last];
      if last.1 == x && last.0 !in done {
        assert (last.0, x) in pairs;
      }
    }
  }

  lemma {:induction false} ChildrenAre<T>(pairs: Pairs<T>, p: T, x: T)
    ensures x in Children(pairs, p) <==> (p, x) in pairs
  {
    if pairs != [] {
      var last, init := pairs[|pairs| - 1], pairs[..|pairs| - 1];
      ChildrenAre(init, p, x);
      assert pairs == init + [last];
      if last.0 == p && last.1 == x {
        assert (p, x) == last;
      }
    }
  }

  /** Processing p accounts for each pair (p, x) once. */
  lemma {:induction false} CountSplits<T>(pairs: Pairs<T>, done: set<T>, p: T, x: T)
    requires p !in done
    ensures Count(pairs, done, x) == Count(pairs, done + {p}, x) + multiset(Children(pairs, p))[x]
  {
    if pairs != [] {
      CountSplits(pairs[..|pairs| - 1], done, p, x);
    }
  }

  /** Where the list pairs one of the parents with x. */
  ghost function PairsBetween<T>(pairs: Pairs<T>, parents: set<T>, x: T): set<nat> {
    set i: nat | i < |pairs| && pairs[i].0 in parents && pairs[i].1 == x
  }

  lemma {:induction false} PairsBetweenSnoc<T>(pairs: Pairs<T>, parents: set<T>, x: T)
    requires pairs != []
    ensures
      var last, n := pairs[|pairs| - 1], |pairs| - 1;
      |PairsBetween(pairs, parents, x)| ==
        |PairsBetween(pairs[..n], parents, x)| + (if last.0 in parents && last.1 == x then 1 else 0)
  {
    var n := |pairs| - 1;
    var before := PairsBetween(pairs[..n], parents, x);
    if pairs[n].0 in parents && pairs[n].1 == x {
      assert PairsBetween(pairs, parents, x) == before + {n};
    } else {
      assert PairsBetween(pairs, parents, x) == before;
    }
  }

  /** Count counts the pairs into x from parents that are not done. */
  lemma {:induction false} CountIsPairs<T(!new)>(pairs: Pairs<T>, done: set<T>, parents: set<T>, x: T)
    requires forall p :: p in pairs ==> (p.0 in parents <==> p.0 !in done)
    ensures Count(pairs, done, x) == |PairsBetween(pairs, parents, x)|
  {
    if pairs == [] {
      assert PairsBetween(pairs, parents, x) == {};
    } else {
      var init := pairs[..|pairs| - 1];
      assert forall p :: p in init ==> p in pairs;
      CountIsPairs(init, done, parents, x);
      PairsBetweenSnoc(pairs, parents, x);
      assert pairs[|pairs| - 1] in pairs;
    }
  }

  /** A child is listed once for each pair. */
  lemma {:induction false} ChildrenArePairs<T>(pairs: Pairs<T>, p: T, x: T)
    ensures multiset(Children(pairs, p))[x] == |PairsBetween(pairs, {p}, x)|
  {
    if pairs == [] {
      assert PairsBetween(pairs, {p}, x) == {};
    } else {
      ChildrenArePairs(pairs[..|pairs| - 1], p, x);
      PairsBetweenSnoc(pairs, {p}, x);
    }
  }

  /** list names children of p in the order of their pairs. */
  ghost predicate InPairOrder<T(!new)>(pairs: Pairs<T>, p: T, list: seq<T>) {
    exists at: seq<nat> :: At(pairs, p, list, at)
  }

  /** The pair of list[k] is at at[k]. */
  ghost predicate At<T>(pairs: Pairs<T>, p: T, list: seq<T>, at: seq<nat>) {
    |at| == |list| && (forall j, k :: 0 <= j < k < |at| ==> at[j] < at[k]) &&
    forall k :: 0 <= k < |at| ==> at[k] < |pairs| && pairs[at[k]] == (p, list[k])
  }

  lemma {:induction false} ChildrenInOrder<T(!new)>(pairs: Pairs<T>, p: T) returns (at: seq<nat>)
    ensures At(pairs, p, Children(pairs, p), at)
    ensures InPairOrder(pairs, p, Children(pairs, p))
  {
    at := [];
    if pairs != [] {
      var n := |pairs| - 1;
      at := ChildrenInOrder(pairs[..n], p);
      if pairs[n].0 == p {
        at := at + [n];
      }
    }
    assert At(pairs, p, Children(pairs, p), at);
  }

  // ---------- building the two dictionaries ----------

  ghost predicate Counts<T(!new)>(pairs: Pairs<T>, done: set<T>, numParents: map<T, int>) {
    numParents.Keys == Mentioned(pairs) - done &&
    forall x :: x in numParents ==> numParents[x] == Count(pairs, done, x)
  }

  ghost predicate ListsChildren<T(!new)>(pairs: Pairs<T>, done: set<T>, children: map<T, seq<T>>) {
    (forall p :: p !in done ==> (if p in children then children[p] else []) == Children(pairs, p)) &&
    (forall p :: p in children ==> p !in done && children[p] != [])
  }

  /** One pair's update of the parent counts. */
  function CountPair<T(==)>(n0: map<T, int>, parent: T, child: T): map<T, int> {
    var n1 := if parent in n0 then n0 else n0[parent := 0];
    var n2 := if child in n1 then n1 else n1[child := 0];
    n2[child := n2[child] + 1]
  }

  /** One pair's update of the child lists. */
  function ListPair<T(==)>(children: map<T, seq<T>>, parent: T, child: T): map<T, seq<T>> {
    children[parent := (if parent in children then children[parent] else []) + [child]]
  }

  method Build<T(==,!new)>(pairlist: Pairs<T>) returns (numParents: map<T, int>, children: map<T, seq<T>>)
    ensures Counts(pairlist, {}, numParents)
    ensures ListsChildren(pairlist, {}, children)
  {
    numParents, children := map[], map[];
    for i := 0 to |pairlist|
      invariant Counts(pairlist[..i], {}, numParents)
      invariant ListsChildren(pairlist[..i], {}, children)
    {
      CountOne(pairlist, i, numParents);
      ListOne(pairlist, i, children);
      numParents := CountPair(numParents, pairlist[i].0, pairlist[i].1);
      children := ListPair(children, pairlist[i].0, pairlist[i].1);
    }
    assert pairlist[..|pairlist|] == pairlist;
  }

  lemma {:induction false} CountOne<T(!new)>(pairs: Pairs<T>, i: nat, n0: map<T, int>)
    requires i < |pairs| && Counts(pairs[..i], {}, n0)
    ensures Counts(pairs[..i + 1], {}, CountPair(n0, pairs[i].0, pairs[i].1))
  {
    assert pairs[..i + 1] == pairs[..i] + [pairs[i]];
    CountLast(pairs[..i], pairs[i], n0);
  }

  lemma {:induction false} CountLast<T(!new)>(before: Pairs<T>, last: (T, T), n0: map<T, int>)
    requires Counts(before, {}, n0)
    ensures Counts(before + [last], {}, CountPair(n0, last.0, last.1))
  {
    var after, n1 := before + [last], CountPair(n0, last.0, last.1);
    assert n1.Keys == n0.Keys + {last.0, last.1};
    assert Mentioned(after) == Mentioned(before) + {last.0, last.1};
    forall x | x in n1 ensures n1[x] == Count(after, {}, x) {
      assert after[..|before|] == before;
      assert Count(after, {}, x) == Count(before, {}, x) + (if last.1 == x then 1 else 0);
      if x !in n0 {
        NeverCounted(before, x);
      }
    }
  }

  lemma {:induction false} NeverCounted<T(!new)>(pairs: Pairs<T>, x: T)
    requires x !in Mentioned(pairs)
    ensures Count(pairs, {}, x) == 0
  {
    CountIsZero(pairs, {}, x);
    assert forall p :: (p, x) in pairs ==> (p, x).1 in Mentioned(pairs);
  }

  lemma {:induction false} ListOne<T(!new)>(pairs: Pairs<T>, i: nat, children: map<T, seq<T>>)
    requires i < |pairs| && ListsChildren(pairs[..i], {}, children)
    ensures ListsChildren(pairs[..i + 1], {}, ListPair(children, pairs[i].0, pairs[i].1))
  {
    assert pairs[..i + 1][..i] == pairs[..i];
  }

  // ---------- topsort ----------

  datatype Outcome<T> =
    | Sorted(answer: seq<T>)
    | CycleError(answer: seq<T>, numParents: map<T, int>, children: map<T, seq<T>>)

  ghost function Items<T>(s: seq<T>): set<T> {
    set x | x in s
  }

  ghost predicate ParentsFirst<T(!new)>(pairs: Pairs<T>, answer: seq<T>) {
    forall j, p :: 0 <= j < |answer| && (p, answer[j]) in pairs ==> p in answer[..j]
  }

  /** answer[..i] has been processed, answer[i..] has no unprocessed parent. */
  ghost predicate Progress<T(!new)>(pairs: Pairs<T>, answer: seq<T>, i: nat, numParents: map<T, int>)
    requires i <= |answer|
  {
    Counts(pairs, Items(answer[..i]), numParents) &&
    NoRepeats(answer) &&
    (forall x :: x in numParents ==> (numParents[x] == 0 <==> x in answer[i..])) &&
    (forall x :: x in answer ==> x in Mentioned(pairs)) &&
    ParentsFirst(pairs, answer)
  }

  /** While parent = answer[i] is processed, k of its children have been visited. */
  ghost predicate Visiting<T(!new)>(pairs: Pairs<T>, answer: seq<T>, i: nat, kids: seq<T>, k: nat, numParents: map<T, int>)
    requires i < |answer| && k <= |kids|
  {
    var done := Items(answer[..i + 1]);
    numParents.Keys == Mentioned(pairs) - done &&
    (forall x :: x in numParents ==>
      numParents[x] == Count(pairs, done, x) + multiset(kids[k..])[x]) &&
    NoRepeats(answer) &&
    (forall x :: x in numParents ==> (numParents[x] == 0 <==> x in answer[i + 1..])) &&
    (forall x :: x in answer ==> x in Mentioned(pairs)) &&
    ParentsFirst(pairs, answer)
  }

  lemma {:induction false} ItemsSnoc<T>(s: seq<T>, i: nat)
    requires i < |s|
    ensures Items(s[..i + 1]) == Items(s[..i]) + {s[i]}
    ensures NoRepeats(s) ==> s[i] !in Items(s[..i])
  {
    assert s[..i + 1] == s[..i] + [s[i]];
  }

  /** Removing parent from the dictionary starts the visit of its children. */
  lemma {:induction false} StartVisit<T(!new)>(pairs: Pairs<T>, answer: seq<T>, i: nat, numParents: map<T, int>)
    requires i < |answer| && Progress(pairs, answer, i, numParents)
    ensures answer[i] in numParents
    ensures Visiting(pairs, answer, i, Children(pairs, answer[i]), 0, numParents - {answer[i]})
  {
    var parent := answer[i];
    var done := Items(answer[..i]);
    ItemsSnoc(answer, i);
    forall x | x in numParents
      ensures numParents[x] == Count(pairs, done + {parent}, x) + multiset(Children(pairs, parent)[0..])[x]
      ensures x != parent ==> (x in answer[i..] <==> x in answer[i + 1..])
    {
      CountSplits(pairs, done, parent, x);
      assert Children(pairs, parent)[0..] == Children(pairs, parent);
      assert answer[i..] == [parent] + answer[i + 1..];
    }
  }

  /** A child that is being visited has not been processed. */
  lemma {:induction false} ChildIsCounted<T(!new)>(pairs: Pairs<T>, answer: seq<T>, i: nat, k: nat, n0: map<T, int>)
    requires i < |answer| && k < |Children(pairs, answer[i])|
    requires Visiting(pairs, answer, i, Children(pairs, answer[i]), k, n0)
    ensures
      var kids := Children(pairs, answer[i]);
      kids[k] in n0 && n0[kids[k]] >= 1 && kids[k] !in answer && kids[k..] == [kids[k]] + kids[k + 1..]
  {
    var kids := Children(pairs, answer[i]);
    var child := kids[k];
    assert kids[k..] == [child] + kids[k + 1..];
    ChildrenAre(pairs, answer[i], child);
    assert (answer[i], child) in pairs && (answer[i], child).1 in Mentioned(pairs);
    forall j | 0 <= j < i + 1 ensures answer[j] != child {
      assert answer[i] !in answer[..j];
    }
    assert child in n0;
    assert answer == answer[..i + 1] + answer[i + 1..];
  }

  /** A child that is counted down to zero has all of its parents in answer. */
  lemma {:induction false} AppendChild<T(!new)>(pairs: Pairs<T>, answer: seq<T>, i: nat, child: T)
    requires i < |answer| && Count(pairs, Items(answer[..i + 1]), child) == 0
    requires ParentsFirst(pairs, answer)
    ensures ParentsFirst(pairs, answer + [child])
  {
    CountIsZero(pairs, Items(answer[..i + 1]), child);
    var longer := answer + [child];
    forall j, p | 0 <= j < |longer| && (p, longer[j]) in pairs ensures p in longer[..j] {
      if j < |answer| {
        assert p in answer[..j] && answer[..j] == longer[..j];
      } else {
        assert p in answer[..i + 1];
      }
    }
  }

  /** A visited child that keeps another parent is only counted down. */
  lemma {:induction false} CountDown<T(!new)>(pairs: Pairs<T>, answer: seq<T>, i: nat, k: nat, n0: map<T, int>)
    requires i < |answer| && k < |Children(pairs, answer[i])|
    requires Visiting(pairs, answer, i, Children(pairs, answer[i]), k, n0)
    ensures
      var kids := Children(pairs, answer[i]);
      kids[k] in n0 && (n0[kids[k]] != 1 ==>
        Visiting(pairs, answer, i, kids, k + 1, n0[kids[k] := n0[kids[k]] - 1]))
  {
    ChildIsCounted(pairs, answer, i, k, n0);
    assert Children(pairs, answer[i])[k] !in answer[i + 1..];
  }

  lemma {:induction false} MultisetFront<T>(s: seq<T>, k: nat)
    requires k < |s|
    ensures multiset(s[k..]) == multiset{s[k]} + multiset(s[k + 1..])
  {
    assert s[k..] == [s[k]] + s[k + 1..];
  }

  lemma {:induction false} LongerAnswer<T>(answer: seq<T>, i: nat, child: T)
    requires i < |answer| && NoRepeats(answer) && child !in answer
    ensures
      var longer := answer + [child];
      longer[..i + 1] == answer[..i + 1] && longer[i + 1..] == answer[i + 1..] + [child] && NoRepeats(longer)
  {
  }

  /** A visited child without another parent is listed. */
  lemma {:induction false} CountOut<T(!new)>(pairs: Pairs<T>, answer: seq<T>, i: nat, k: nat, n0: map<T, int>)
    requires i < |answer| && k < |Children(pairs, answer[i])|
    requires Visiting(pairs, answer, i, Children(pairs, answer[i]), k, n0)
    ensures
      var kids := Children(pairs, answer[i]);
      kids[k] in n0 && (n0[kids[k]] == 1 ==>
        Visiting(pairs, answer + [kids[k]], i, kids, k + 1, n0[kids[k] := 0]))
  {
    var kids := Children(pairs, answer[i]);
    ChildIsCounted(pairs, answer, i, k, n0);
    if n0[kids[k]] == 1 {
      MultisetFront(kids, k);
      AppendChild(pairs, answer, i, kids[k]);
      CountOutOf(pairs, answer, i, kids, k, n0);
    }
  }

  lemma {:induction false} CountOutOf<T(!new)>(pairs: Pairs<T>, answer: seq<T>, i: nat, kids: seq<T>, k: nat, n0: map<T, int>)
    requires i < |answer| && k < |kids| && Visiting(pairs, answer, i, kids, k, n0)
    requires kids[k] in n0 && n0[kids[k]] == 1 && kids[k] !in answer && ParentsFirst(pairs, answer + [kids[k]])
    ensures Visiting(pairs, answer + [kids[k]], i, kids, k + 1, n0[kids[k] := 0])
  {
    MultisetFront(kids, k);
    LongerAnswer(answer, i, kids[k]);
  }

  lemma {:induction false} EndVisit<T(!new)>(pairs: Pairs<T>, answer: seq<T>, i: nat, kids: seq<T>, numParents: map<T, int>)
    requires i < |answer| && Visiting(pairs, answer, i, kids, |kids|, numParents)
    ensures Progress(pairs, answer, i + 1, numParents)
  {
    assert kids[|kids|..] == [];
  }

  lemma {:induction false} StartSorting<T(!new)>(pairs: Pairs<T>, answer: seq<T>, numParents: map<T, int>)
    requires Counts(pairs, {}, numParents) && NoRepeats(answer)
    requires forall x :: x in answer <==> x in numParents && numParents[x] == 0
    ensures Progress(pairs, answer, 0, numParents)
  {
    assert Items(answer[..0]) == {} && answer[0..] == answer;
    forall j | 0 <= j < |answer| ensures forall p :: (p, answer[j]) !in pairs {
      CountIsZero(pairs, {}, answer[j]);
    }
  }

  /** When every listed item is processed, either all items are, or the others form a cycle. */
  lemma {:induction false} DoneSorting<T(!new)>(pairs: Pairs<T>, answer: seq<T>, numParents: map<T, int>)
    requires Progress(pairs, answer, |answer|, numParents)
    ensures numParents == map[] ==> IsSorted(pairs, answer) && !HasCycle(pairs)
    ensures numParents != map[] ==> HasCycle(pairs) && Leftover(pairs, numParents.Keys)
  {
    assert answer[..|answer|] == answer && answer[|answer|..] == [];
    if numParents == map[] {
      forall x | x in Mentioned(pairs) ensures x in answer {
        assert x !in numParents.Keys;
      }
      SortedIsAcyclic(pairs, answer);
    } else {
      forall x | x in numParents.Keys ensures HasParentIn(pairs, numParents.Keys, x) {
        CountIsZero(pairs, Items(answer), x);
        var p :| (p, x) in pairs && p !in Items(answer);
        assert (p, x).0 in Mentioned(pairs);
        assert p in numParents.Keys;
      }
      var x :| x in numParents.Keys;
      WalkBack(pairs, numParents.Keys, [x]);
      forall p | p in pairs && p.0 in numParents ensures p.1 in numParents {
        ListedHasListedParents(pairs, answer, p);
      }
      forall other: set<T> | Orphanless(pairs, other) && other <= Mentioned(pairs) ensures other <= numParents.Keys {
        ListedIsNoLeftover(pairs, answer, other, |answer|);
      }
    }
  }

  lemma {:induction false} ListedHasListedParents<T(!new)>(pairs: Pairs<T>, answer: seq<T>, p: (T, T))
    requires ParentsFirst(pairs, answer) && p in pairs
    ensures p.1 in answer ==> p.0 in answer
  {
    if p.1 in answer {
      var j := IndexOf(answer, p.1);
      assert p == (p.0, answer[j]);
      assert p.0 in answer[..j];
    }
  }

  /** No listed item belongs to a set in which each has a parent. */
  lemma {:induction false} ListedIsNoLeftover<T(!new)>(pairs: Pairs<T>, answer: seq<T>, other: set<T>, k: nat)
    requires k <= |answer| && ParentsFirst(pairs, answer) && Orphanless(pairs, other)
    ensures forall i :: 0 <= i < k ==> answer[i] !in other
  {
    if k > 0 {
      if answer[k - 1] in other {
        assert HasParentIn(pairs, other, answer[k - 1]);
        var p :| p in other && (p, answer[k - 1]) in pairs;
        assert p in answer[..k - 1];
      }
      ListedIsNoLeftover(pairs, answer, other, k - 1);
    }
  }

  ghost function IndexOf<T>(s: seq<T>, x: T): (i: nat)
    requires x in s
    ensures i < |s| && s[i] == x
  {
    var i :| 0 <= i < |s| && s[i] == x;
    i
  }

  lemma {:induction false} SortedIsAcyclic<T(!new)>(pairs: Pairs<T>, order: seq<T>)
    requires NoRepeats(order) && ParentsFirst(pairs, order)
    requires forall x :: x in order <==> x in Mentioned(pairs)
    ensures IsSorted(pairs, order) && !HasCycle(pairs)
  {
    forall i, j | 0 <= i < |order| && 0 <= j < |order| && (order[i], order[j]) in pairs ensures i < j {
      assert order[i] in order[..j];
    }
    var rank: map<T, int> := map x | x in order :: IndexOf(order, x);
    forall p | p in pairs ensures p.0 in rank && p.1 in rank && rank[p.0] < rank[p.1] {
      assert p.0 in Mentioned(pairs) && p.1 in Mentioned(pairs);
      assert (order[IndexOf(order, p.0)], order[IndexOf(order, p.1)]) == p;
    }
    RankExcludesCycles(pairs, rank);
  }

  /** The parentless items, in whatever order the dictionary is visited. */
  method Parentless<T(==)>(numParents: map<T, int>) returns (items: seq<T>)
    ensures NoRepeats(items)
    ensures forall x :: x in items <==> x in numParents && numParents[x] == 0
  {
    items := [];
    var rest := numParents.Keys;
    while rest != {}
      invariant rest <= numParents.Keys && NoRepeats(items)
      invariant forall x :: x in items <==> x in numParents.Keys - rest && numParents[x] == 0
      decreases rest
    {
      var x :| x in rest;
      rest := rest - {x};
      if numParents[x] == 0 {
        items := items + [x];
      }
    }
  }

  /** topsort: fails exactly on a cyclic relation, otherwise sorts it. Duplicate pairs
    * are counted as often as they occur. */
  method Topsort<T(==,!new)>(pairlist: Pairs<T>) returns (r: Outcome<T>)
    ensures r.CycleError? <==> HasCycle(pairlist)
    ensures r.Sorted? ==> IsSorted(pairlist, r.answer)
    ensures r.CycleError? ==> r.numParents != map[] && Leftover(pairlist, r.numParents.Keys)
    ensures r.CycleError? ==>
      NoRepeats(r.answer) &&
      (forall x :: x in r.answer <==> x in Mentioned(pairlist) && x !in r.numParents) &&
      (forall j, p :: 0 <= j < |r.answer| && (p, r.answer[j]) in pairlist ==> p in r.answer[..j])
    ensures r.CycleError? ==>
      (forall x :: x in r.numParents ==> r.numParents[x] == |PairsBetween(pairlist, r.numParents.Keys, x)|)
    ensures r.CycleError? ==>
      (forall p :: p in r.children <==> p in r.numParents && HasChild(pairlist, p)) &&
      (forall p, x :: p in r.children ==> multiset(r.children[p])[x] == |PairsBetween(pairlist, {p}, x)|) &&
      (forall p :: p in r.children ==> InPairOrder(pairlist, p, r.children[p]))
  {
    var numParents, children := Build(pairlist);
    var answer := Parentless(numParents);
    StartSorting(pairlist, answer, numParents);
    var i := 0;
    while i < |answer|
      invariant 0 <= i <= |answer|
      invariant Progress(pairlist, answer, i, numParents)
      invariant ListsChildren(pairlist, Items(answer[..i]), children)
      decreases |Mentioned(pairlist)| - i
    {
      answer, numParents, children := Process(pairlist, answer, i, numParents, children);
      i := i + 1;
    }
    DoneSorting(pairlist, answer, numParents);
    if numParents != map[] {
      StoppedWith(pairlist, answer, numParents, children);
      r := CycleError(answer, numParents, children);
    } else {
      r := Sorted(answer);
    }
  }

  /** What has been found out when the answer is used up too early. */
  lemma {:induction false} StoppedWith<T(!new)>(pairs: Pairs<T>, answer: seq<T>, numParents: map<T, int>, children: map<T, seq<T>>)
    requires Progress(pairs, answer, |answer|, numParents) && ListsChildren(pairs, Items(answer[..|answer|]), children)
    ensures forall x :: x in answer <==> x in Mentioned(pairs) && x !in numParents
    ensures forall x :: x in numParents ==> numParents[x] == |PairsBetween(pairs, numParents.Keys, x)|
    ensures forall p :: p in children <==> p in numParents && HasChild(pairs, p)
    ensures forall p, x :: p in children ==> multiset(children[p])[x] == |PairsBetween(pairs, {p}, x)|
    ensures forall p :: p in children ==> InPairOrder(pairs, p, children[p])
  {
    assert answer[..|answer|] == answer;
    forall p | p in pairs ensures p.0 in Mentioned(pairs) && (p.0 in numParents.Keys <==> p.0 !in Items(answer)) {
      assert p.0 in Mentioned(pairs);
    }
    forall x | x in numParents ensures numParents[x] == |PairsBetween(pairs, numParents.Keys, x)| {
      CountIsPairs(pairs, Items(answer), numParents.Keys, x);
    }
    forall p ensures p in children <==> p in numParents && HasChild(pairs, p) {
      StoppedKey(pairs, answer, numParents, children, p);
    }
    forall p, x | p in children ensures multiset(children[p])[x] == |PairsBetween(pairs, {p}, x)| {
      ChildrenArePairs(pairs, p, x);
    }
    forall p | p in children ensures InPairOrder(pairs, p, children[p]) {
      var at := ChildrenInOrder(pairs, p);
    }
  }

  lemma {:induction false} StoppedKey<T(!new)>(pairs: Pairs<T>, answer: seq<T>, numParents: map<T, int>, children: map<T, seq<T>>, p: T)
    requires numParents.Keys == Mentioned(pairs) - Items(answer) && ListsChildren(pairs, Items(answer), children)
    ensures p in children <==> p in numParents && HasChild(pairs, p)
  {
    if p in children {
      var c := children[p][0];
      assert c in Children(pairs, p);
      ChildrenAre(pairs, p, c);
      assert (p, c).0 in Mentioned(pairs);
    }
    if p in numParents && HasChild(pairs, p) {
      var c :| (p, c) in pairs;
      ChildrenAre(pairs, p, c);
    }
  }

  lemma {:induction false} ForgetChildren<T(!new)>(pairs: Pairs<T>, answer: seq<T>, i: nat, children: map<T, seq<T>>)
    requires i < |answer| && NoRepeats(answer) && ListsChildren(pairs, Items(answer[..i]), children)
    ensures (if answer[i] in children then children[answer[i]] else []) == Children(pairs, answer[i])
    ensures ListsChildren(pairs, Items(answer[..i + 1]), children - {answer[i]})
  {
    ItemsSnoc(answer, i);
  }

  /** One round: answer[i] leaves the dictionaries and its children are counted down. */
  method Process<T(==,!new)>(ghost pairs: Pairs<T>, answer: seq<T>, i: nat, numParents: map<T, int>, children: map<T, seq<T>>)
    returns (answer': seq<T>, numParents': map<T, int>, children': map<T, seq<T>>)
    requires i < |answer| && Progress(pairs, answer, i, numParents)
    requires ListsChildren(pairs, Items(answer[..i]), children)
    ensures i < |Mentioned(pairs)|
    ensures i < |answer'| && answer <= answer' && Progress(pairs, answer', i + 1, numParents')
    ensures ListsChildren(pairs, Items(answer'[..i + 1]), children')
  {
    NoRepeatsFits(answer, Mentioned(pairs));
    StartVisit(pairs, answer, i, numParents);
    ForgetChildren(pairs, answer, i, children);
    var parent := answer[i];
    var list := if parent in children then children[parent] else [];
    children' := children - {parent};
    answer', numParents' := VisitChildren(pairs, answer, i, list, numParents - {parent});
    assert answer'[..i + 1] == answer[..i + 1];
  }

  method VisitChildren<T(==,!new)>(ghost pairs: Pairs<T>, answer: seq<T>, i: nat, list: seq<T>, numParents: map<T, int>)
    returns (answer': seq<T>, numParents': map<T, int>)
    requires i < |answer| && list == Children(pairs, answer[i])
    requires Visiting(pairs, answer, i, list, 0, numParents)
    ensures i < |answer'| && answer <= answer' && Progress(pairs, answer', i + 1, numParents')
  {
    answer', numParents' := answer, numParents;
    for k := 0 to |list|
      invariant answer <= answer' && i < |answer'|
      invariant Visiting(pairs, answer', i, list, k, numParents')
    {
      var child := list[k];
      assert answer'[i] == answer[i];
      CountDown(pairs, answer', i, k, numParents');
      CountOut(pairs, answer', i, k, numParents');
      numParents' := numParents'[child := numParents'[child] - 1];
      if numParents'[child] == 0 {
        answer' := answer' + [child];
      }
    }
    EndVisit(pairs, answer', i, list, numParents');
  }
}
