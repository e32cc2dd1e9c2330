/** Finite paths of any transition relation. */
module Paths {

  ghost predicate IsPath<S(!new), A(!new)>(states: seq<S>, acts: seq<A>, step: (S, A, S) -> bool) {
    |states| == |acts| + 1 && forall i :: 0 <= i < |acts| ==> step(states[i], acts[i], states[i + 1])
  }

  ghost predicate Reaches<S(!new), A(!new)>(from: S, to: S, step: (S, A, S) -> bool) {
    exists states, acts :: IsPath(states, acts, step) && states[0] == from && states[|acts|] == to
  }

  lemma {:induction false} ReachesItself<S(!new), A(!new)>(s: S, step: (S, A, S) -> bool)
    ensures Reaches(s, s, step)
  {
    var states, acts: seq<A> := [s], [];
    assert IsPath(states, acts, step) && states[|acts|] == s;
  }

  lemma {:induction false} Extend<S(!new), A(!new)>(from: S, to: S, a: A, next: S, step: (S, A, S) -> bool)
    requires Reaches(from, to, step) && step(to, a, next)
    ensures Reaches(from, next, step)
  {
    var states, acts :| IsPath(states, acts, step) && states[0] == from && states[|acts|] == to;
    var states', acts' := states + [next], acts + [a];
    assert IsPath(states', acts', step) && states'[0] == from && states'[|acts'|] == next;
  }

  /** What no step lowers grows along a path. */
  lemma {:induction false} GrowsAlong<S(!new), A(!new)>(states: seq<S>, acts: seq<A>, step: (S, A, S) -> bool, f: S -> int, i: nat, j: nat)
    requires IsPath(states, acts, step) && i <= j < |states|
    requires forall s, a, t :: step(s, a, t) ==> f(s) <= f(t)
    ensures f(states[i]) <= f(states[j])
    decreases j
  {
    if i < j {
      var k := j - 1;
      GrowsAlong(states, acts, step, f, i, k);
      assert step(states[k], acts[k], states[k + 1]);
    }
  }
}
