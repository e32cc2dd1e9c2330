/** Sums over the first n numbers, and a weighted sum that falls when a list of counters
  * falls lexicographically while the later ones grow by a bounded amount.
  */
module Totals {

  ghost function Total(n: nat, f: nat -> nat): nat {
    if n == 0 then 0 else Total(n - 1, f) + f(n - 1)
  }

  /** Only two terms grow, by at most dp and dq (or fall by that much). */
  lemma {:induction false} TotalChanges(n: nat, f: nat -> nat, g: nat -> nat, p: nat, dp: int, q: nat, dq: int)
    requires p != q && forall i: nat :: i < n && i != p && i != q ==> g(i) <= f(i)
    requires p < n ==> g(p) <= f(p) + dp
    requires q < n ==> g(q) <= f(q) + dq
    ensures Total(n, g) <= Total(n, f) + (if p < n then dp else 0) + (if q < n then dq else 0)
  {
    if n > 0 {
      TotalChanges(n - 1, f, g, p, dp, q, dq);
    }
  }

  /** Each term grows by at most one. */
  lemma {:induction false} TotalGrows(n: nat, f: nat -> nat, g: nat -> nat)
    requires forall i: nat :: i < n ==> g(i) <= f(i) + 1
    ensures Total(n, g) <= Total(n, f) + n
  {
    if n > 0 {
      TotalGrows(n - 1, f, g);
    }
  }

  lemma {:induction false} TotalAtMost(n: nat, f: nat -> nat, g: nat -> nat)
    requires forall i: nat :: i < n ==> g(i) <= f(i)
    ensures Total(n, g) <= Total(n, f)
  {
    if n > 0 {
      TotalAtMost(n - 1, f, g);
    }
  }

  // ---------- sums over pairs ----------

  ghost function Row(n: nat, f: (nat, nat) -> nat, x: nat): nat {
    Total(n, y => f(x, y))
  }

  ghost function Total2(n: nat, f: (nat, nat) -> nat): nat {
    Total(n, x => Row(n, f, x))
  }

  lemma {:induction false} RowGrows(n: nat, f: (nat, nat) -> nat, g: (nat, nat) -> nat, x: nat)
    requires forall y: nat :: y < n ==> g(x, y) <= f(x, y) + 1
    ensures Row(n, g, x) <= Row(n, f, x) + n
  {
    TotalGrows(n, y => f(x, y), y => g(x, y));
  }

  lemma {:induction false} RowAtMost(n: nat, f: (nat, nat) -> nat, g: (nat, nat) -> nat, x: nat)
    requires forall y: nat :: y < n ==> g(x, y) <= f(x, y)
    ensures Row(n, g, x) <= Row(n, f, x)
  {
    TotalAtMost(n, y => f(x, y), y => g(x, y));
  }

  lemma {:induction false} RowFalls(n: nat, f: (nat, nat) -> nat, g: (nat, nat) -> nat, x: nat, q: nat)
    requires q < n && forall y: nat :: y < n ==> g(x, y) + (if y == q then 1 else 0) <= f(x, y)
    ensures Row(n, g, x) < Row(n, f, x)
  {
    TotalChanges(n, y => f(x, y), y => g(x, y), q, -1, n, 0);
  }

  /** Row v grows by at most r, row p by at most dp, and no other. */
  lemma {:induction false} RowsChange(n: nat, f: (nat, nat) -> nat, g: (nat, nat) -> nat, v: nat, r: int, p: nat, dp: int)
    requires v < n && p < n && p != v
    requires forall x: nat :: x < n && x != v && x != p ==> Row(n, g, x) <= Row(n, f, x)
    requires Row(n, g, v) <= Row(n, f, v) + r && Row(n, g, p) <= Row(n, f, p) + dp
    ensures Total2(n, g) <= Total2(n, f) + r + dp
  {
    TotalChanges(n, x => Row(n, f, x), x => Row(n, g, x), v, r, p, dp);
  }

  lemma {:induction false} Total2AtMost(n: nat, f: (nat, nat) -> nat, g: (nat, nat) -> nat)
    requires forall x: nat, y: nat :: x < n && y < n ==> g(x, y) <= f(x, y)
    ensures Total2(n, g) <= Total2(n, f)
  {
    forall x: nat | x < n ensures Row(n, g, x) <= Row(n, f, x) {
      RowAtMost(n, f, g, x);
    }
    TotalAtMost(n, x => Row(n, f, x), x => Row(n, g, x));
  }

  // ---------- weights ----------

  function Power(b: nat, e: nat): (p: nat)
    ensures b > 0 ==> p > 0
  {
    if e == 0 then 1 else b * Power(b, e - 1)
  }

  /** The first counter weighs most; a unit of it outweighs b of each later one. */
  function Weight(x: seq<nat>, b: nat): nat {
    if x == [] then 0 else x[0] * Power(b + 1, |x| - 1) + Weight(x[1..], b)
  }

  lemma {:induction false} WeightGrows(x: seq<nat>, y: seq<nat>, b: nat)
    requires |x| == |y| && forall i :: 0 <= i < |x| ==> y[i] <= x[i] + b
    ensures Weight(y, b) < Weight(x, b) + Power(b + 1, |x|)
  {
    if x != [] {
      var p := Power(b + 1, |x| - 1);
      assert forall i :: 0 <= i < |x[1..]| ==> y[1..][i] <= x[1..][i] + b;
      WeightGrows(x[1..], y[1..], b);
      TimesLess(y[0], x[0] + b, p);
      TimesSum(x[0], b, p);
      TimesSum(b, 1, p);
    }
  }

  lemma {:induction false} TimesSum(m: nat, n: nat, p: nat)
    ensures (m + n) * p == m * p + n * p
  {
  }

  lemma {:induction false} TimesLess(m: nat, n: nat, p: nat)
    requires m <= n
    ensures m * p <= n * p
  {
    assert (n - m) * p >= 0;
  }

  lemma {:induction false} WeightAtMost(x: seq<nat>, y: seq<nat>, b: nat)
    requires |x| == |y| && forall i :: 0 <= i < |x| ==> y[i] <= x[i]
    ensures Weight(y, b) <= Weight(x, b)
  {
    if x != [] {
      assert forall i :: 0 <= i < |x[1..]| ==> y[1..][i] <= x[1..][i];
      WeightAtMost(x[1..], y[1..], b);
      TimesLess(y[0], x[0], Power(b + 1, |x| - 1));
    }
  }

  /** Counters before i do not grow, counter i falls, later ones grow by at most b. */
  lemma {:induction false} WeightFalls(x: seq<nat>, y: seq<nat>, b: nat, i: nat)
    requires i < |x| == |y| && y[i] < x[i]
    requires forall j :: 0 <= j < i ==> y[j] <= x[j]
    requires forall j :: i < j < |x| ==> y[j] <= x[j] + b
    ensures Weight(y, b) < Weight(x, b)
  {
    if i == 0 {
      assert forall j :: 0 <= j < |x[1..]| ==> y[1..][j] <= x[1..][j] + b;
      FirstFalls(x, y, b);
    } else {
      WeightFalls(x[1..], y[1..], b, i - 1);
      TimesLess(y[0], x[0], Power(b + 1, |x| - 1));
    }
  }

  lemma {:induction false} FirstFalls(x: seq<nat>, y: seq<nat>, b: nat)
    requires |x| == |y| > 0 && y[0] < x[0]
    requires forall j :: 0 <= j < |x[1..]| ==> y[1..][j] <= x[1..][j] + b
    ensures Weight(y, b) < Weight(x, b)
  {
    var p := Power(b + 1, |x| - 1);
    WeightGrows(x[1..], y[1..], b);
    TimesLess(y[0] + 1, x[0], p);
    TimesSum(y[0], 1, p);
  }
}
