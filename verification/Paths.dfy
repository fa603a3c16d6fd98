/** Chains of steps, and when they can go on for ever. A search that may take only so many steps is compared with the
    steps themselves. */
module Paths {

  /** Each element leads to the next one. */
  ghost predicate Path<T(!new)>(step: (T, T) -> bool, p: seq<T>) {
    forall i :: 0 <= i < |p| - 1 ==> step(p[i], p[i + 1])
  }

  ghost predicate Repeats<T(!new)>(p: seq<T>) {
    exists i, j :: 0 <= i < j < |p| && p[i] == p[j]
  }

  /** Some chain from `x` comes back to where it has been. */
  ghost predicate Circles<T(!new)>(step: (T, T) -> bool, x: T) {
    exists p :: |p| > 0 && p[0] == x && Path(step, p) && Repeats(p)
  }

  lemma SubPath<T(!new)>(step: (T, T) -> bool, p: seq<T>, i: nat, j: nat)
    requires Path(step, p) && i <= j <= |p|
    ensures Path(step, p[i..j])
  {
    var q := p[i..j];
    forall k | 0 <= k < |q| - 1 ensures step(q[k], q[k + 1]) {
      assert step(p[i + k], p[i + k + 1]);
    }
  }

  lemma PathCons<T(!new)>(step: (T, T) -> bool, x: T, q: seq<T>)
    requires Path(step, q) && (|q| > 0 ==> step(x, q[0]))
    ensures Path(step, [x] + q)
  {
    var p := [x] + q;
    forall i | 0 <= i < |p| - 1 ensures step(p[i], p[i + 1]) {
      if i > 0 { assert step(q[i - 1], q[i - 1 + 1]); }
    }
  }

  lemma RepeatsLater<T(!new)>(x: T, q: seq<T>)
    requires Repeats(q)
    ensures Repeats([x] + q)
  {
    var i, j :| 0 <= i < j < |q| && q[i] == q[j];
    assert ([x] + q)[i + 1] == ([x] + q)[j + 1];
  }

  lemma CirclesLater<T(!new)>(step: (T, T) -> bool, x: T, y: T)
    requires step(x, y) && Circles(step, y)
    ensures Circles(step, x)
  {
    var q :| |q| > 0 && q[0] == y && Path(step, q) && Repeats(q);
    PathCons(step, x, q);
    RepeatsLater(x, q);
    assert ([x] + q)[0] == x;
  }

  // ---------- A search with a budget ----------

  /** Each step from a place that is finished within a budget leads to one that is finished within a smaller budget. */
  ghost predicate Spends<T(!new)>(step: (T, T) -> bool, done: (T, nat) -> bool) {
    forall x, y, b: nat :: done(x, b) && step(x, y) ==> b > 0 && done(y, b - 1)
  }

  /** A place that is not finished within a budget has a step to one that is not finished within the rest of it. */
  ghost predicate Wants<T(!new)>(step: (T, T) -> bool, done: (T, nat) -> bool, good: T -> bool) {
    forall x, b: nat :: good(x) && !done(x, b) ==>
      exists y :: step(x, y) && good(y) && (b > 0 ==> !done(y, b - 1))
  }

  /** Chains from `x` that do not repeat are no longer than `n`. */
  ghost predicate Within<T(!new)>(step: (T, T) -> bool, x: T, n: nat) {
    forall p :: |p| > 0 && p[0] == x && Path(step, p) && !Repeats(p) ==> |p| <= n
  }

  lemma {:induction false} PathSpends<T(!new)>(step: (T, T) -> bool, done: (T, nat) -> bool, p: seq<T>, b: nat, i: nat)
    requires Spends(step, done) && Path(step, p) && i < |p| && done(p[0], b)
    ensures i <= b && done(p[i], b - i)
    decreases i
  {
    if i > 0 {
      PathSpends(step, done, p, b, i - 1);
      assert step(p[i - 1], p[i - 1 + 1]);
    }
  }

  /** No chain from a finished place comes back to it: each turn would be finished within a smaller budget. */
  lemma {:induction false} NoTurn<T(!new)>(step: (T, T) -> bool, done: (T, nat) -> bool, q: seq<T>, b: nat)
    requires Spends(step, done) && Path(step, q) && |q| > 1 && done(q[0], b)
    ensures q[0] != q[|q| - 1]
    decreases b
  {
    PathSpends(step, done, q, b, |q| - 1);
    if q[0] == q[|q| - 1] { NoTurn(step, done, q, b - (|q| - 1)); }
  }

  lemma DoneNoCircle<T(!new)>(step: (T, T) -> bool, done: (T, nat) -> bool, x: T, b: nat)
    requires Spends(step, done) && done(x, b)
    ensures !Circles(step, x)
  {
    if p :| |p| > 0 && p[0] == x && Path(step, p) && Repeats(p) {
      var i, j :| 0 <= i < j < |p| && p[i] == p[j];
      PathSpends(step, done, p, b, i);
      SubPath(step, p, i, j + 1);
      NoTurn(step, done, p[i..j + 1], b - i);
    }
  }

  /** What is not finished leads on for as long as the budget would have allowed, and one step more. */
  lemma {:induction false} UnfinishedPath<T(!new)>(step: (T, T) -> bool, done: (T, nat) -> bool, good: T -> bool, x: T,
                                                   b: nat) returns (p: seq<T>)
    requires Wants(step, done, good) && good(x) && !done(x, b)
    ensures |p| == b + 2 && p[0] == x && Path(step, p)
    decreases b
  {
    var y :| step(x, y) && good(y) && (b > 0 ==> !done(y, b - 1));
    if b == 0 {
      p := [x, y];
    } else {
      var q := UnfinishedPath(step, done, good, y, b - 1);
      PathCons(step, x, q);
      p := [x] + q;
    }
  }

  /** With a budget that covers all chains without a repetition, a place is finished if and only if no chain from it
      comes round in a circle. */
  lemma DoneExact<T(!new)>(step: (T, T) -> bool, done: (T, nat) -> bool, good: T -> bool, x: T, b: nat)
    requires Spends(step, done) && Wants(step, done, good) && good(x) && Within(step, x, b + 1)
    ensures done(x, b) <==> !Circles(step, x)
  {
    if done(x, b) {
      DoneNoCircle(step, done, x, b);
    } else {
      var p := UnfinishedPath(step, done, good, x, b);
      assert Repeats(p);
    }
  }

  // ---------- Numbers ----------

  /** There are only `n` numbers below `n`. */
  lemma {:induction false} DistinctBound(p: seq<nat>, n: nat)
    requires forall i :: 0 <= i < |p| ==> p[i] < n
    requires !Repeats(p)
    ensures |p| <= n
    decreases n
  {
    if i :| 0 <= i < |p| && p[i] == n - 1 {
      var q := p[..i] + p[i + 1..];
      forall a, b | 0 <= a < b < |q|
        ensures q[a] != q[b]
      {
        assert p[if a < i then a else a + 1] != p[if b < i then b else b + 1];
      }
      DistinctBound(q, n - 1);
    } else if |p| > 0 {
      assert p[0] < n;
      DistinctBound(p, n - 1);
    }
  }

  lemma NumbersWithin(step: (nat, nat) -> bool, x: nat, n: nat, more: nat)
    requires x < n <= more && forall a: nat, b: nat :: step(a, b) ==> b < n
    ensures Within(step, x, more)
  {
    forall p: seq<nat> | |p| > 0 && p[0] == x && Path(step, p) && !Repeats(p)
      ensures |p| <= more
    {
      forall i | 0 <= i < |p| ensures p[i] < n {
        if i > 0 { assert step(p[i - 1], p[i - 1 + 1]); }
      }
      DistinctBound(p, n);
    }
  }
}
