/** Grammar verification (lptree.c): what left recursion is, what `verifygrammar` takes for it, and when that is the
    same. */
module Grammars {
  import opened Patterns
  import opened Analysis
  import opened Paths

  /** No grammar inside the tree. */
  predicate Flat(t: Tree) {
    match t
    case TGrammar(_) => false
    case TRep(p) => Flat(p)
    case TSeq(p1, p2) => Flat(p1) && Flat(p2)
    case TChoice(p1, p2) => Flat(p1) && Flat(p2)
    case TNot(p) => Flat(p)
    case TAnd(p) => Flat(p)
    case TBehind(_, p) => Flat(p)
    case TCapture(_, _, p) => Flat(p)
    case _ => true
  }

  predicate FlatRules(rs: seq<Tree>) {
    WellFormedRules(rs) && forall k :: 0 <= k < |rs| ==> Flat(rs[k])
  }

  /** How deep grammars are inside of each other. */
  function Nesting(t: Tree): nat
    decreases t, 0
  {
    match t
    case TRep(p) => Nesting(p)
    case TSeq(p1, p2) => Max(Nesting(p1), Nesting(p2))
    case TChoice(p1, p2) => Max(Nesting(p1), Nesting(p2))
    case TNot(p) => Nesting(p)
    case TAnd(p) => Nesting(p)
    case TBehind(_, p) => Nesting(p)
    case TCapture(_, _, p) => Nesting(p)
    case TGrammar(rules) => 1 + NestingFrom(rules, 0)
    case _ => 0
  }

  function NestingFrom(rs: seq<Tree>, k: nat): nat
    requires k <= |rs|
    decreases rs, |rs| - k
  {
    if k == |rs| then 0 else Max(Nesting(rs[k]), NestingFrom(rs, k + 1))
  }

  function Max(a: nat, b: nat): nat {
    if a < b then b else a
  }

  lemma {:induction false} NestingRule(rs: seq<Tree>, k: nat, j: nat)
    requires k <= j < |rs|
    ensures Nesting(rs[j]) <= NestingFrom(rs, k)
    decreases j - k
  {
    if k < j { NestingRule(rs, k + 1, j); }
  }

  /** More than any accepted grammar needs on its own. */
  const DEEP: nat := MAXRULES + 1

  /** The error of `verifyerror`, or whether the pattern may be passed without consuming anything. */
  datatype Verified = LeftRecursive | Passes(nullable: bool)

  /** lptree.c's `verifyrule`. `budget` is MAXRULES - npassed: how many more rules may be entered. At a sub-grammar
      the flag is dropped (line 981). The depth there is enough for sub-grammars in which `nullable` comes back
      (`GrammarNulls` in Totality). */
  function VerifyRule(rs: seq<Tree>, t: Tree, budget: nat, nullable: bool): Verified
    decreases budget, t
  {
    match t
    case TChar(_) => Passes(nullable)
    case TSet(_) => Passes(nullable)
    case TAny => Passes(nullable)
    case TFalse => Passes(nullable)
    case TTrue => Passes(true)
    case TBehind(_, _) => Passes(true)
    case TNot(p) => VerifyRule(rs, p, budget, true)
    case TAnd(p) => VerifyRule(rs, p, budget, true)
    case TRep(p) => VerifyRule(rs, p, budget, true)
    case TCapture(_, _, p) => VerifyRule(rs, p, budget, nullable)
    case TCall(n) =>
      if budget == 0 || n >= |rs| then LeftRecursive else VerifyRule(rs, rs[n], budget - 1, nullable)
    case TSeq(p1, p2) =>
      (match VerifyRule(rs, p1, budget, false)
       case LeftRecursive => LeftRecursive
       case Passes(b) => if b then VerifyRule(rs, p2, budget, nullable) else Passes(nullable))
    case TChoice(p1, p2) =>
      (match VerifyRule(rs, p1, budget, nullable)
       case LeftRecursive => LeftRecursive
       case Passes(b) => VerifyRule(rs, p2, budget, b))
    case TGrammar(_) => Passes(Nullable(rs, t, DEEP * Nesting(t)))
  }

  /** lptree.c's `checkloops`: a repetition whose body may match the empty string. */
  predicate CheckLoops(rs: seq<Tree>, t: Tree, depth: nat) {
    match t
    case TRep(p) => Nullable(rs, p, depth) || CheckLoops(rs, p, depth)
    case TSeq(p1, p2) => CheckLoops(rs, p1, depth) || CheckLoops(rs, p2, depth)
    case TChoice(p1, p2) => CheckLoops(rs, p1, depth) || CheckLoops(rs, p2, depth)
    case TNot(p) => CheckLoops(rs, p, depth)
    case TAnd(p) => CheckLoops(rs, p, depth)
    case TBehind(_, p) => CheckLoops(rs, p, depth)
    case TCapture(_, _, p) => CheckLoops(rs, p, depth)
    case _ => false
  }

  /** The tree calls rule `n`. */
  predicate Calls(t: Tree, n: nat) {
    match t
    case TCall(k) => k == n
    case TRep(p) => Calls(p, n)
    case TSeq(p1, p2) => Calls(p1, n) || Calls(p2, n)
    case TChoice(p1, p2) => Calls(p1, n) || Calls(p2, n)
    case TNot(p) => Calls(p, n)
    case TAnd(p) => Calls(p, n)
    case TBehind(_, p) => Calls(p, n)
    case TCapture(_, _, p) => Calls(p, n)
    case _ => false
  }

  /** A rule has a key, and so is verified, when it is the initial rule or some rule calls it. */
  predicate Used(rs: seq<Tree>, n: nat) {
    n < |rs| && (n == 0 || exists k :: 0 <= k < |rs| && Calls(rs[k], n))
  }

  predicate NoLeftRecursion(rs: seq<Tree>) {
    forall n :: 0 <= n < |rs| && Used(rs, n) ==> VerifyRule(rs, rs[n], MAXRULES, false).Passes?
  }

  predicate NoEmptyLoops(rs: seq<Tree>, depth: nat) {
    forall n :: 0 <= n < |rs| && Used(rs, n) ==> !CheckLoops(rs, rs[n], depth)
  }

  /** lptree.c's `verifygrammar`. */
  predicate VerifyGrammar(rs: seq<Tree>, depth: nat) {
    |rs| > 0 && NoLeftRecursion(rs) && NoEmptyLoops(rs, depth)
  }

  // ---------- Left calls ----------

  /** `t` can match the empty string when calls are followed `depth` deep. */
  predicate NullAt(rs: seq<Tree>, t: Tree, depth: nat)
    decreases depth, t
  {
    match t
    case TRep(_) => true
    case TTrue => true
    case TNot(_) => true
    case TAnd(_) => true
    case TBehind(_, _) => true
    case TSeq(p1, p2) => NullAt(rs, p1, depth) && NullAt(rs, p2, depth)
    case TChoice(p1, p2) => NullAt(rs, p1, depth) || NullAt(rs, p2, depth)
    case TCapture(_, _, p) => NullAt(rs, p, depth)
    case TGrammar(rules) => |rules| > 0 && NullAt(rules, rules[0], depth)
    case TCall(n) => n < |rs| && depth > 0 && NullAt(rs, rs[n], depth - 1)
    case _ => false
  }

  ghost predicate Nulls(rs: seq<Tree>, t: Tree) {
    exists depth: nat :: NullAt(rs, t, depth)
  }

  /** `t` may call rule `n` before consuming anything. */
  ghost predicate LeftCall(rs: seq<Tree>, t: Tree, n: nat) {
    match t
    case TCall(k) => k == n
    case TRep(p) => LeftCall(rs, p, n)
    case TNot(p) => LeftCall(rs, p, n)
    case TAnd(p) => LeftCall(rs, p, n)
    case TCapture(_, _, p) => LeftCall(rs, p, n)
    case TSeq(p1, p2) => LeftCall(rs, p1, n) || (Nulls(rs, p1) && LeftCall(rs, p2, n))
    case TChoice(p1, p2) => LeftCall(rs, p1, n) || LeftCall(rs, p2, n)
    case _ => false
  }

  /** From rule to rule. */
  ghost function Left(rs: seq<Tree>): (nat, nat) -> bool {
    (a: nat, b: nat) => a < |rs| && b < |rs| && LeftCall(rs, rs[a], b)
  }

  /** Left calls from `t` on go no more than `budget` deep. */
  ghost predicate LeftEnds(rs: seq<Tree>, t: Tree, budget: nat)
    decreases budget, t
  {
    match t
    case TCall(n) => n < |rs| && budget > 0 && LeftEnds(rs, rs[n], budget - 1)
    case TRep(p) => LeftEnds(rs, p, budget)
    case TNot(p) => LeftEnds(rs, p, budget)
    case TAnd(p) => LeftEnds(rs, p, budget)
    case TCapture(_, _, p) => LeftEnds(rs, p, budget)
    case TSeq(p1, p2) => LeftEnds(rs, p1, budget) && (Nulls(rs, p1) ==> LeftEnds(rs, p2, budget))
    case TChoice(p1, p2) => LeftEnds(rs, p1, budget) && LeftEnds(rs, p2, budget)
    case _ => true
  }

  ghost function LeftDone(rs: seq<Tree>): (nat, nat) -> bool {
    (n: nat, b: nat) => n < |rs| && LeftEnds(rs, rs[n], b)
  }

  /** No used rule is left recursive. */
  ghost predicate Acyclic(rs: seq<Tree>) {
    forall n :: 0 <= n < |rs| && Used(rs, n) ==> LeftEnds(rs, rs[n], MAXRULES)
  }

  lemma {:induction false} NullMore(rs: seq<Tree>, t: Tree, d: nat, d': nat)
    requires NullAt(rs, t, d) && d <= d'
    ensures NullAt(rs, t, d')
    decreases d, t
  {
    match t
    case TSeq(p1, p2) => NullMore(rs, p1, d, d'); NullMore(rs, p2, d, d');
    case TChoice(p1, p2) => if NullAt(rs, p1, d) { NullMore(rs, p1, d, d'); } else { NullMore(rs, p2, d, d'); }
    case TCapture(_, _, p) => NullMore(rs, p, d, d');
    case TGrammar(rules) => NullMore(rules, rules[0], d, d');
    case TCall(n) => NullMore(rs, rs[n], d - 1, d' - 1);
    case _ =>
  }

  lemma NullsSeq(rs: seq<Tree>, p1: Tree, p2: Tree)
    ensures Nulls(rs, TSeq(p1, p2)) <==> Nulls(rs, p1) && Nulls(rs, p2)
  {
    if Nulls(rs, p1) && Nulls(rs, p2) {
      var a: nat :| NullAt(rs, p1, a);
      var b: nat :| NullAt(rs, p2, b);
      NullMore(rs, p1, a, a + b);
      NullMore(rs, p2, b, a + b);
      assert NullAt(rs, TSeq(p1, p2), a + b);
    }
    if d: nat :| NullAt(rs, TSeq(p1, p2), d) {
      assert NullAt(rs, p1, d) && NullAt(rs, p2, d);
    }
  }

  lemma NullsChoice(rs: seq<Tree>, p1: Tree, p2: Tree)
    ensures Nulls(rs, TChoice(p1, p2)) <==> Nulls(rs, p1) || Nulls(rs, p2)
  {
    if a: nat :| NullAt(rs, p1, a) { assert NullAt(rs, TChoice(p1, p2), a); }
    if a: nat :| NullAt(rs, p2, a) { assert NullAt(rs, TChoice(p1, p2), a); }
    if a: nat :| NullAt(rs, TChoice(p1, p2), a) { assert NullAt(rs, p1, a) || NullAt(rs, p2, a); }
  }

  lemma NullsCall(rs: seq<Tree>, n: nat)
    requires n < |rs|
    ensures Nulls(rs, TCall(n)) <==> Nulls(rs, rs[n])
  {
    if a: nat :| NullAt(rs, rs[n], a) { assert NullAt(rs, TCall(n), a + 1); }
    if a: nat :| NullAt(rs, TCall(n), a) { assert NullAt(rs, rs[n], a - 1); }
  }

  lemma NullsGrammar(rs: seq<Tree>, rules: seq<Tree>)
    requires |rules| > 0
    ensures Nulls(rs, TGrammar(rules)) <==> Nulls(rules, rules[0])
  {
    if a: nat :| NullAt(rules, rules[0], a) { assert NullAt(rs, TGrammar(rules), a); }
    if a: nat :| NullAt(rs, TGrammar(rules), a) { assert NullAt(rules, rules[0], a); }
  }

  lemma NullsLeaf(rs: seq<Tree>, t: Tree)
    ensures t.TRep? || t.TTrue? || t.TNot? || t.TAnd? || t.TBehind? ==> Nulls(rs, t)
    ensures t.TChar? || t.TSet? || t.TAny? || t.TFalse? ==> !Nulls(rs, t)
    ensures t.TCapture? ==> (Nulls(rs, t) <==> Nulls(rs, t.p))
  {
    if t.TRep? || t.TTrue? || t.TNot? || t.TAnd? || t.TBehind? { assert NullAt(rs, t, 0); }
    if t.TCapture? {
      if a: nat :| NullAt(rs, t.p, a) { assert NullAt(rs, t, a); }
      if a: nat :| NullAt(rs, t, a) { assert NullAt(rs, t.p, a); }
    }
  }

  lemma {:induction false} LeftSpends(rs: seq<Tree>, t: Tree, budget: nat, n: nat)
    requires LeftEnds(rs, t, budget) && LeftCall(rs, t, n)
    ensures n < |rs| && budget > 0 && LeftEnds(rs, rs[n], budget - 1)
    decreases t
  {
    match t
    case TNot(p) => LeftSpends(rs, p, budget, n);
    case TAnd(p) => LeftSpends(rs, p, budget, n);
    case TRep(p) => LeftSpends(rs, p, budget, n);
    case TCapture(_, _, p) => LeftSpends(rs, p, budget, n);
    case TSeq(p1, p2) =>
      if LeftCall(rs, p1, n) { LeftSpends(rs, p1, budget, n); } else { LeftSpends(rs, p2, budget, n); }
    case TChoice(p1, p2) =>
      if LeftCall(rs, p1, n) { LeftSpends(rs, p1, budget, n); } else { LeftSpends(rs, p2, budget, n); }
    case _ =>
  }

  lemma {:induction false} LeftWants(rs: seq<Tree>, t: Tree, budget: nat) returns (n: nat)
    requires WellFormed(t, |rs|) && !LeftEnds(rs, t, budget)
    ensures n < |rs| && LeftCall(rs, t, n) && (budget > 0 ==> !LeftEnds(rs, rs[n], budget - 1))
    decreases t
  {
    match t
    case TCall(k) => n := k;
    case TNot(p) => n := LeftWants(rs, p, budget);
    case TAnd(p) => n := LeftWants(rs, p, budget);
    case TRep(p) => n := LeftWants(rs, p, budget);
    case TCapture(_, _, p) => n := LeftWants(rs, p, budget);
    case TSeq(p1, p2) =>
      if !LeftEnds(rs, p1, budget) { n := LeftWants(rs, p1, budget); } else { n := LeftWants(rs, p2, budget); }
    case TChoice(p1, p2) =>
      if !LeftEnds(rs, p1, budget) { n := LeftWants(rs, p1, budget); } else { n := LeftWants(rs, p2, budget); }
  }

  ghost function Rules(rs: seq<Tree>): nat -> bool {
    (n: nat) => n < |rs|
  }

  lemma LeftSearch(rs: seq<Tree>)
    requires WellFormedRules(rs)
    ensures Spends(Left(rs), LeftDone(rs)) && Wants(Left(rs), LeftDone(rs), Rules(rs))
  {
    var step, done, good := Left(rs), LeftDone(rs), Rules(rs);
    forall x: nat, y: nat, b: nat | done(x, b) && step(x, y) ensures b > 0 && done(y, b - 1) {
      LeftSpends(rs, rs[x], b, y);
    }
    forall x: nat, b: nat | good(x) && !done(x, b)
      ensures exists y :: step(x, y) && good(y) && (b > 0 ==> !done(y, b - 1))
    {
      var y := LeftWants(rs, rs[x], b);
      assert step(x, y) && good(y) && (b > 0 ==> !done(y, b - 1));
    }
  }

  /** No used rule is left recursive if and only if no chain of left calls from a used rule runs into a circle. */
  lemma AcyclicExact(rs: seq<Tree>)
    requires WellFormedRules(rs) && |rs| <= MAXRULES
    ensures Acyclic(rs) <==> forall n: nat :: n < |rs| && Used(rs, n) ==> !Circles(Left(rs), n)
  {
    hide LeftEnds, LeftCall, Used, Circles, Spends, Wants, Within;
    LeftSearch(rs);
    forall n: nat | n < |rs|
      ensures LeftEnds(rs, rs[n], MAXRULES) <==> !Circles(Left(rs), n)
    {
      NumbersWithin(Left(rs), n, |rs|, MAXRULES + 1);
      DoneExact(Left(rs), LeftDone(rs), Rules(rs), n, MAXRULES);
    }
  }

  // ---------- Left calls as verifyrule sees them ----------

  /** `verifyrule`, at its start, finds that the pattern may be passed. */
  ghost predicate Passed(rs: seq<Tree>, t: Tree) {
    exists budget: nat :: VerifyRule(rs, t, budget, false) == Passes(true)
  }

  /** The calls that `verifyrule` comes to. */
  ghost predicate OwnCall(rs: seq<Tree>, t: Tree, n: nat) {
    match t
    case TCall(k) => k == n
    case TRep(p) => OwnCall(rs, p, n)
    case TNot(p) => OwnCall(rs, p, n)
    case TAnd(p) => OwnCall(rs, p, n)
    case TCapture(_, _, p) => OwnCall(rs, p, n)
    case TSeq(p1, p2) => OwnCall(rs, p1, n) || (Passed(rs, p1) && OwnCall(rs, p2, n))
    case TChoice(p1, p2) => OwnCall(rs, p1, n) || OwnCall(rs, p2, n)
    case _ => false
  }

  ghost function Own(rs: seq<Tree>): (nat, nat) -> bool {
    (a: nat, b: nat) => a < |rs| && b < |rs| && OwnCall(rs, rs[a], b)
  }

  ghost function OwnDone(rs: seq<Tree>): (nat, nat) -> bool {
    (n: nat, b: nat) => n < |rs| && VerifyRule(rs, rs[n], b, false).Passes?
  }

  /** Acceptance does not depend on the accumulated flag. */
  lemma {:induction false} VerifyFlag(rs: seq<Tree>, t: Tree, budget: nat, a: bool, b: bool)
    requires VerifyRule(rs, t, budget, a).Passes?
    ensures VerifyRule(rs, t, budget, b).Passes?
    decreases budget, t
  {
    match t
    case TCapture(_, _, p) => VerifyFlag(rs, p, budget, a, b);
    case TCall(n) => VerifyFlag(rs, rs[n], budget - 1, a, b);
    case TSeq(p1, p2) =>
      if VerifyRule(rs, p1, budget, false).nullable { VerifyFlag(rs, p2, budget, a, b); }
    case TChoice(p1, p2) =>
      VerifyFlag(rs, p1, budget, a, b);
      VerifyFlag(rs, p2, budget, VerifyRule(rs, p1, budget, a).nullable, VerifyRule(rs, p1, budget, b).nullable);
    case _ =>
  }

  /** A larger budget accepts no less. */
  lemma {:induction false} VerifyMore(rs: seq<Tree>, t: Tree, budget: nat, more: nat, nullable: bool)
    requires budget <= more && VerifyRule(rs, t, budget, nullable).Passes?
    ensures VerifyRule(rs, t, more, nullable) == VerifyRule(rs, t, budget, nullable)
    decreases budget, t
  {
    match t
    case TNot(p) => VerifyMore(rs, p, budget, more, true);
    case TAnd(p) => VerifyMore(rs, p, budget, more, true);
    case TRep(p) => VerifyMore(rs, p, budget, more, true);
    case TCapture(_, _, p) => VerifyMore(rs, p, budget, more, nullable);
    case TCall(n) => VerifyMore(rs, rs[n], budget - 1, more - 1, nullable);
    case TSeq(p1, p2) =>
      VerifyMore(rs, p1, budget, more, false);
      if VerifyRule(rs, p1, budget, false).nullable { VerifyMore(rs, p2, budget, more, nullable); }
    case TChoice(p1, p2) =>
      VerifyMore(rs, p1, budget, more, nullable);
      VerifyMore(rs, p2, budget, more, VerifyRule(rs, p1, budget, nullable).nullable);
    case _ =>
  }

  lemma PassedIs(rs: seq<Tree>, t: Tree, budget: nat)
    requires VerifyRule(rs, t, budget, false).Passes?
    ensures Passed(rs, t) <==> VerifyRule(rs, t, budget, false).nullable
  {
    if b: nat :| VerifyRule(rs, t, b, false) == Passes(true) {
      if b <= budget { VerifyMore(rs, t, b, budget, false); } else { VerifyMore(rs, t, budget, b, false); }
    }
  }

  lemma {:induction false} OwnSpends(rs: seq<Tree>, t: Tree, budget: nat, nullable: bool, n: nat)
    requires VerifyRule(rs, t, budget, nullable).Passes? && OwnCall(rs, t, n)
    ensures n < |rs| && budget > 0 && VerifyRule(rs, rs[n], budget - 1, false).Passes?
    decreases t
  {
    match t
    case TCall(k) => VerifyFlag(rs, rs[k], budget - 1, nullable, false);
    case TNot(p) => OwnSpends(rs, p, budget, true, n);
    case TAnd(p) => OwnSpends(rs, p, budget, true, n);
    case TRep(p) => OwnSpends(rs, p, budget, true, n);
    case TCapture(_, _, p) => OwnSpends(rs, p, budget, nullable, n);
    case TSeq(p1, p2) =>
      PassedIs(rs, p1, budget);
      if OwnCall(rs, p1, n) { OwnSpends(rs, p1, budget, false, n); } else { OwnSpends(rs, p2, budget, nullable, n); }
    case TChoice(p1, p2) =>
      if OwnCall(rs, p1, n) { OwnSpends(rs, p1, budget, nullable, n); }
      else { OwnSpends(rs, p2, budget, VerifyRule(rs, p1, budget, nullable).nullable, n); }
    case _ =>
  }

  lemma {:induction false} OwnWants(rs: seq<Tree>, t: Tree, budget: nat, nullable: bool) returns (n: nat)
    requires WellFormed(t, |rs|) && VerifyRule(rs, t, budget, nullable).LeftRecursive?
    ensures n < |rs| && OwnCall(rs, t, n) && (budget > 0 ==> VerifyRule(rs, rs[n], budget - 1, false).LeftRecursive?)
    decreases t
  {
    match t
    case TCall(k) =>
      n := k;
      if budget > 0 && VerifyRule(rs, rs[n], budget - 1, false).Passes? {
        VerifyFlag(rs, rs[n], budget - 1, false, nullable);
      }
    case TNot(p) => n := OwnWants(rs, p, budget, true);
    case TAnd(p) => n := OwnWants(rs, p, budget, true);
    case TRep(p) => n := OwnWants(rs, p, budget, true);
    case TCapture(_, _, p) => n := OwnWants(rs, p, budget, nullable);
    case TSeq(p1, p2) =>
      if VerifyRule(rs, p1, budget, false).LeftRecursive? { n := OwnWants(rs, p1, budget, false); }
      else {
        PassedIs(rs, p1, budget);
        n := OwnWants(rs, p2, budget, nullable);
      }
    case TChoice(p1, p2) =>
      var v := VerifyRule(rs, p1, budget, nullable);
      if v.LeftRecursive? { n := OwnWants(rs, p1, budget, nullable); }
        else { n := OwnWants(rs, p2, budget, v.nullable); }
  }

  lemma OwnSearch(rs: seq<Tree>)
    requires WellFormedRules(rs)
    ensures Spends(Own(rs), OwnDone(rs)) && Wants(Own(rs), OwnDone(rs), Rules(rs))
  {
    var step, done, good := Own(rs), OwnDone(rs), Rules(rs);
    forall x: nat, y: nat, b: nat | done(x, b) && step(x, y) ensures b > 0 && done(y, b - 1) {
      OwnSpends(rs, rs[x], b, false, y);
    }
    forall x: nat, b: nat | good(x) && !done(x, b)
      ensures exists y :: step(x, y) && good(y) && (b > 0 ==> !done(y, b - 1))
    {
      var y := OwnWants(rs, rs[x], b, false);
      assert step(x, y) && good(y) && (b > 0 ==> !done(y, b - 1));
    }
  }

  /** `verifygrammar` finds no left recursion if and only if no chain of calls that `verifyrule` comes to, from a used
      rule, runs into a circle. */
  lemma OwnRecursionExact(rs: seq<Tree>)
    requires WellFormedRules(rs) && |rs| <= MAXRULES
    ensures NoLeftRecursion(rs) <==> forall n: nat :: n < |rs| && Used(rs, n) ==> !Circles(Own(rs), n)
  {
    hide VerifyRule, OwnCall, Used, Circles, Spends, Wants, Within;
    OwnSearch(rs);
    forall n: nat | n < |rs|
      ensures VerifyRule(rs, rs[n], MAXRULES, false).Passes? <==> !Circles(Own(rs), n)
    {
      NumbersWithin(Own(rs), n, |rs|, MAXRULES + 1);
      DoneExact(Own(rs), OwnDone(rs), Rules(rs), n, MAXRULES);
    }
  }
}
