/** Grammars inside of grammars. At a sub-grammar `verifyrule` forgets whether what came before may be empty (lptree.c
    line 981), so left calls behind it can stay hidden. This module says when they do. */
module SubGrammars {
  import opened Patterns
  import opened Analysis
  import opened Descents
  import opened Paths
  import opened Grammars

  /** All grammars in the tree are accepted by `verifygrammar`, and no used rule of theirs is left recursive. Where no
      call is hidden the second follows from the first (`KeptAcyclic`). */
  ghost predicate Grown(t: Tree, depth: nat)
    decreases t
  {
    match t
    case TRep(p) => Grown(p, depth)
    case TSeq(p1, p2) => Grown(p1, depth) && Grown(p2, depth)
    case TChoice(p1, p2) => Grown(p1, depth) && Grown(p2, depth)
    case TNot(p) => Grown(p, depth)
    case TAnd(p) => Grown(p, depth)
    case TBehind(_, p) => Grown(p, depth)
    case TCapture(_, _, p) => Grown(p, depth)
    case TGrammar(rules) =>
      && WellFormedRules(rules) && VerifyGrammar(rules, depth) && Acyclic(rules)
      && forall k :: 0 <= k < |rules| ==> Grown(rules[k], depth)
    case _ => true
  }

  ghost predicate GrownRules(rs: seq<Tree>, depth: nat) {
    forall k :: 0 <= k < |rs| ==> Grown(rs[k], depth)
  }

  lemma {:induction false} FlatGrown(t: Tree, depth: nat)
    requires Flat(t)
    ensures Grown(t, depth) && Nesting(t) == 0
  {
    match t
    case TRep(p) => FlatGrown(p, depth);
    case TSeq(p1, p2) => FlatGrown(p1, depth); FlatGrown(p2, depth);
    case TChoice(p1, p2) => FlatGrown(p1, depth); FlatGrown(p2, depth);
    case TNot(p) => FlatGrown(p, depth);
    case TAnd(p) => FlatGrown(p, depth);
    case TBehind(_, p) => FlatGrown(p, depth);
    case TCapture(_, _, p) => FlatGrown(p, depth);
    case _ =>
  }

  // ---------- Nullable sub-grammars ----------

  /** Where `nullable` comes back, its answer is the true one. */
  lemma {:induction false} CheckNulls(rs: seq<Tree>, t: Tree, d: nat)
    requires CheckEnds(rs, t, PEnullable, d)
    ensures Nullable(rs, t, d) <==> Nulls(rs, t)
    decreases d, t
  {
    NullsLeaf(rs, t);
    match t
    case TSeq(p1, p2) =>
      NullsSeq(rs, p1, p2);
      CheckNulls(rs, p1, d);
      if Nullable(rs, p1, d) { CheckNulls(rs, p2, d); }
    case TChoice(p1, p2) =>
      NullsChoice(rs, p1, p2);
      CheckNulls(rs, p2, d);
      if !Nullable(rs, p2, d) { CheckNulls(rs, p1, d); }
    case TCapture(_, _, p) => CheckNulls(rs, p, d);
    case TGrammar(rules) =>
      NullsGrammar(rs, rules);
      CheckNulls(rules, rules[0], d - 1);
      CheckMore(rules, rules[0], PEnullable, d - 1, d);
    case TCall(n) =>
      NullsCall(rs, n);
      CheckNulls(rs, rs[n], d - 1);
    case _ =>
  }

  /** Without left recursion `nullable` and `nofail` come back. `level` is how deep grammars are inside of each other.
      */
  lemma {:induction false} AcceptedCheck(level: nat, rs: seq<Tree>, t: Tree, depth: nat, budget: nat, pred: Pred,
                                         d: nat)
    requires GrownRules(rs, depth) && Grown(t, depth) && LeftEnds(rs, t, budget)
    requires Nesting(t) <= level && NestingFrom(rs, 0) <= level && d >= budget + DEEP * level
    ensures CheckEnds(rs, t, pred, d)
    decreases level, budget, t, pred.PEnofail?
  {
    match t
    case TAnd(p) => AcceptedCheck(level, rs, p, depth, budget, pred, d);
    case TSeq(p1, p2) =>
      AcceptedCheck(level, rs, p1, depth, budget, pred, d);
      if CheckAux(rs, p1, pred, d) {
        AcceptedCheck(level, rs, p1, depth, budget, PEnullable, d);
        CheckNulls(rs, p1, d);
        if pred.PEnofail? { NoFailNullable(rs, p1, d); }
        AcceptedCheck(level, rs, p2, depth, budget, pred, d);
      }
    case TChoice(p1, p2) =>
      AcceptedCheck(level, rs, p1, depth, budget, pred, d);
      AcceptedCheck(level, rs, p2, depth, budget, pred, d);
    case TCapture(_, _, p) => AcceptedCheck(level, rs, p, depth, budget, pred, d);
    case TGrammar(rules) =>
      InnerLevel(rules, depth, level);
      AcceptedCheck(level - 1, rules, rules[0], depth, MAXRULES, pred, d - 1);
    case TCall(n) =>
      NestingRule(rs, 0, n);
      AcceptedCheck(level, rs, rs[n], depth, budget - 1, pred, d - 1);
    case _ =>
  }

  /** What a grammar gives to its rules. */
  lemma InnerLevel(rules: seq<Tree>, depth: nat, level: nat)
    requires Grown(TGrammar(rules), depth) && Nesting(TGrammar(rules)) <= level
    ensures |rules| > 0 && level > 0 && GrownRules(rules, depth) && Grown(rules[0], depth) && Acyclic(rules)
    ensures LeftEnds(rules, rules[0], MAXRULES) && Used(rules, 0)
    ensures NestingFrom(rules, 0) <= level - 1 && Nesting(rules[0]) <= level - 1
    ensures DEEP * level == DEEP * (level - 1) + DEEP
  {
    NestingRule(rules, 0, 0);
    assert Used(rules, 0);
  }

  /** At a sub-grammar `verifyrule` has the right answer of `nullable`. */
  lemma GrammarNulls(rs: seq<Tree>, t: Tree, depth: nat)
    requires t.TGrammar? && Grown(t, depth)
    ensures Nullable(rs, t, DEEP * Nesting(t)) <==> Nulls(rs, t)
  {
    hide LeftEnds, CheckEnds, CheckAux, Nulls;
    InnerLevel(t.rules, depth, Nesting(t));
    var d := DEEP * Nesting(t);
    AcceptedCheck(Nesting(t) - 1, t.rules, t.rules[0], depth, MAXRULES, PEnullable, d - 1);
    GrammarChecks(rs, t.rules, d);
    CheckNulls(rs, t, d);
  }

  lemma GrammarChecks(rs: seq<Tree>, rules: seq<Tree>, d: nat)
    requires |rules| > 0 && d > 0 && CheckEnds(rules, rules[0], PEnullable, d - 1)
    ensures CheckEnds(rs, TGrammar(rules), PEnullable, d)
  {
  }

  // ---------- The dropped flag ----------

  /** `verifyrule` leaves `t` with the flag unset, although `t`, or what came before it, may be empty: the last that
      it looked at is a sub-grammar that is not nullable. */
  ghost predicate Drops(rs: seq<Tree>, t: Tree, budget: nat, flag: bool)
    decreases budget, t
  {
    match t
    case TGrammar(_) => flag && !Nulls(rs, t)
    case TNot(p) => Drops(rs, p, budget, true)
    case TAnd(p) => Drops(rs, p, budget, true)
    case TRep(p) => Drops(rs, p, budget, true)
    case TCapture(_, _, p) => Drops(rs, p, budget, flag)
    case TCall(n) => n < |rs| && budget > 0 && Drops(rs, rs[n], budget - 1, flag)
    case TSeq(p1, p2) =>
      if VerifyRule(rs, p1, budget, false) == Passes(true) then Drops(rs, p2, budget, flag)
      else !flag && Drops(rs, p1, budget, false) && Nulls(rs, p2)
    case TChoice(p1, p2) =>
      if Drops(rs, p1, budget, flag) then VerifyRule(rs, p2, budget, false) != Passes(true)
      else Drops(rs, p2, budget, VerifyRule(rs, p1, budget, flag) == Passes(true))
    case _ => false
  }

  /** On acceptance `verifyrule` has computed whether the pattern is nullable, if and only if the flag was not
      dropped. */
  lemma {:induction false} DropsExact(rs: seq<Tree>, t: Tree, depth: nat, budget: nat, flag: bool)
    requires Grown(t, depth) && GrownRules(rs, depth) && VerifyRule(rs, t, budget, flag).Passes?
    ensures VerifyRule(rs, t, budget, flag).nullable <==> (flag || Nulls(rs, t)) && !Drops(rs, t, budget, flag)
    ensures Drops(rs, t, budget, flag) ==> flag || Nulls(rs, t)
    decreases budget, t
  {
    hide Nulls;
    NullsLeaf(rs, t);
    match t
    case TNot(p) => DropsExact(rs, p, depth, budget, true);
    case TAnd(p) => DropsExact(rs, p, depth, budget, true);
    case TRep(p) => DropsExact(rs, p, depth, budget, true);
    case TCapture(_, _, p) => DropsExact(rs, p, depth, budget, flag);
    case TCall(n) => DropsExact(rs, rs[n], depth, budget - 1, flag); NullsCall(rs, n);
    case TGrammar(_) => GrammarNulls(rs, t, depth);
    case TSeq(p1, p2) =>
      NullsSeq(rs, p1, p2);
      DropsExact(rs, p1, depth, budget, false);
      if VerifyRule(rs, p1, budget, false).nullable { DropsExact(rs, p2, depth, budget, flag); }
    case TChoice(p1, p2) =>
      NullsChoice(rs, p1, p2);
      DropsExact(rs, p1, depth, budget, flag);
      DropsExact(rs, p2, depth, budget, VerifyRule(rs, p1, budget, flag).nullable);
    case _ =>
  }

  // ---------- Hidden calls ----------

  /** A left call behind something that may be empty and that `verifyrule` does not take to be so. */
  ghost predicate HiddenCall(rs: seq<Tree>, t: Tree, n: nat) {
    match t
    case TRep(p) => HiddenCall(rs, p, n)
    case TNot(p) => HiddenCall(rs, p, n)
    case TAnd(p) => HiddenCall(rs, p, n)
    case TCapture(_, _, p) => HiddenCall(rs, p, n)
    case TSeq(p1, p2) =>
      || HiddenCall(rs, p1, n)
      || (Passed(rs, p1) && HiddenCall(rs, p2, n))
      || (Nulls(rs, p1) && !Passed(rs, p1) && LeftCall(rs, p2, n))
    case TChoice(p1, p2) => HiddenCall(rs, p1, n) || HiddenCall(rs, p2, n)
    case _ => false
  }

  lemma PassedNulls(rs: seq<Tree>, t: Tree, depth: nat)
    requires Grown(t, depth) && GrownRules(rs, depth) && Passed(rs, t)
    ensures Nulls(rs, t)
  {
    var budget: nat :| VerifyRule(rs, t, budget, false) == Passes(true);
    DropsExact(rs, t, depth, budget, false);
  }

  /** What `verifyrule` passes by is hidden if and only if the flag was dropped there. */
  lemma HiddenBehindDrop(rs: seq<Tree>, t: Tree, depth: nat, budget: nat)
    requires Grown(t, depth) && GrownRules(rs, depth) && VerifyRule(rs, t, budget, false).Passes?
    ensures Nulls(rs, t) && !Passed(rs, t) <==> Drops(rs, t, budget, false)
  {
    PassedIs(rs, t, budget);
    DropsExact(rs, t, depth, budget, false);
  }

  /** The left calls are those that `verifyrule` comes to and the hidden ones. */
  lemma {:induction false} LeftIs(rs: seq<Tree>, t: Tree, depth: nat, n: nat)
    requires Grown(t, depth) && GrownRules(rs, depth)
    ensures LeftCall(rs, t, n) <==> OwnCall(rs, t, n) || HiddenCall(rs, t, n)
    decreases t
  {
    match t
    case TRep(p) => LeftIs(rs, p, depth, n);
    case TNot(p) => LeftIs(rs, p, depth, n);
    case TAnd(p) => LeftIs(rs, p, depth, n);
    case TCapture(_, _, p) => LeftIs(rs, p, depth, n);
    case TSeq(p1, p2) =>
      LeftIs(rs, p1, depth, n);
      LeftIs(rs, p2, depth, n);
      if Passed(rs, p1) { PassedNulls(rs, p1, depth); }
    case TChoice(p1, p2) => LeftIs(rs, p1, depth, n); LeftIs(rs, p2, depth, n);
    case _ =>
  }

  /** No call in a rule is hidden, unless `verifyrule` comes to that rule in another way too. */
  ghost predicate Kept(rs: seq<Tree>) {
    forall k, n: nat :: 0 <= k < |rs| && HiddenCall(rs, rs[k], n) ==> OwnCall(rs, rs[k], n)
  }

  /** `verifyrule` follows the left calls, all of them and no others, if and only if none is hidden. */
  lemma KeptExact(rs: seq<Tree>, depth: nat)
    requires WellFormedRules(rs) && GrownRules(rs, depth)
    ensures Kept(rs) <==> forall a: nat, b: nat :: Left(rs)(a, b) <==> Own(rs)(a, b)
  {
    hide HiddenCall, OwnCall, LeftCall;
    forall k, n: nat | 0 <= k < |rs|
      ensures LeftCall(rs, rs[k], n) <==> OwnCall(rs, rs[k], n) || HiddenCall(rs, rs[k], n)
      ensures LeftCall(rs, rs[k], n) ==> n < |rs|
    {
      LeftIs(rs, rs[k], depth, n);
      if LeftCall(rs, rs[k], n) { LeftInRange(rs, rs[k], n); }
    }
    if forall a: nat, b: nat :: Left(rs)(a, b) <==> Own(rs)(a, b) {
      forall k, n: nat | 0 <= k < |rs| && HiddenCall(rs, rs[k], n) ensures OwnCall(rs, rs[k], n) {
        assert Left(rs)(k, n);
        assert Own(rs)(k, n);
      }
    }
  }

  lemma {:induction false} LeftInRange(rs: seq<Tree>, t: Tree, n: nat)
    requires WellFormed(t, |rs|) && LeftCall(rs, t, n)
    ensures n < |rs|
    decreases t
  {
    match t
    case TRep(p) => LeftInRange(rs, p, n);
    case TNot(p) => LeftInRange(rs, p, n);
    case TAnd(p) => LeftInRange(rs, p, n);
    case TCapture(_, _, p) => LeftInRange(rs, p, n);
    case TSeq(p1, p2) => if LeftCall(rs, p1, n) { LeftInRange(rs, p1, n); } else { LeftInRange(rs, p2, n); }
    case TChoice(p1, p2) => if LeftCall(rs, p1, n) { LeftInRange(rs, p1, n); } else { LeftInRange(rs, p2, n); }
    case _ =>
  }

  /** An accepted grammar with a circle of left calls has one through a call that is hidden. */
  ghost predicate HiddenCircle(rs: seq<Tree>, n: nat) {
    exists p: seq<nat> :: |p| > 0 && p[0] == n && Path(Left(rs), p) && Repeats(p) && Conceals(rs, p)
  }

  ghost predicate Conceals(rs: seq<Tree>, p: seq<nat>) {
    exists i :: 0 <= i < |p| - 1 && p[i] < |rs| && HiddenCall(rs, rs[p[i]], p[i + 1])
      && !OwnCall(rs, rs[p[i]], p[i + 1])
  }

  lemma PlainPath(rs: seq<Tree>, depth: nat, p: seq<nat>)
    requires GrownRules(rs, depth) && Path(Left(rs), p) && !Conceals(rs, p)
    ensures Path(Own(rs), p)
  {
    hide HiddenCall, OwnCall, LeftCall;
    forall i | 0 <= i < |p| - 1 ensures Own(rs)(p[i], p[i + 1]) {
      assert Left(rs)(p[i], p[i + 1]);
      LeftIs(rs, rs[p[i]], depth, p[i + 1]);
    }
  }

  /** What `verifyrule` comes to is a left call. */
  lemma OwnIsLeft(rs: seq<Tree>, depth: nat, p: seq<nat>)
    requires GrownRules(rs, depth) && Path(Own(rs), p)
    ensures Path(Left(rs), p)
  {
    hide HiddenCall, OwnCall, LeftCall;
    forall i | 0 <= i < |p| - 1 ensures Left(rs)(p[i], p[i + 1]) {
      assert Own(rs)(p[i], p[i + 1]);
      LeftIs(rs, rs[p[i]], depth, p[i + 1]);
    }
  }

  /** A rule from which no chain of left calls is longer than `verifyrule` allows is accepted. */
  lemma AcyclicAccepted(rs: seq<Tree>, depth: nat, n: nat)
    requires WellFormedRules(rs) && GrownRules(rs, depth) && n < |rs| && LeftEnds(rs, rs[n], MAXRULES)
    ensures VerifyRule(rs, rs[n], MAXRULES, false).Passes?
  {
    hide LeftEnds, VerifyRule, OwnCall, LeftCall, Spends, Wants;
    LeftSearch(rs);
    OwnSearch(rs);
    if !OwnDone(rs)(n, MAXRULES) {
      var p := UnfinishedPath(Own(rs), OwnDone(rs), Rules(rs), n, MAXRULES);
      OwnIsLeft(rs, depth, p);
      PathSpends(Left(rs), LeftDone(rs), p, MAXRULES, MAXRULES + 1);
    }
  }

  /** And an accepted rule from which no call is hidden is not left recursive. */
  lemma KeptAccepted(rs: seq<Tree>, depth: nat, n: nat)
    requires WellFormedRules(rs) && GrownRules(rs, depth) && Kept(rs) && n < |rs|
    requires VerifyRule(rs, rs[n], MAXRULES, false).Passes?
    ensures LeftEnds(rs, rs[n], MAXRULES)
  {
    hide LeftEnds, VerifyRule, OwnCall, LeftCall, HiddenCall, Spends, Wants;
    LeftSearch(rs);
    OwnSearch(rs);
    if !LeftDone(rs)(n, MAXRULES) {
      var p := UnfinishedPath(Left(rs), LeftDone(rs), Rules(rs), n, MAXRULES);
      PlainPath(rs, depth, p);
      assert OwnDone(rs)(n, MAXRULES);
      PathSpends(Own(rs), OwnDone(rs), p, MAXRULES, MAXRULES + 1);
    }
  }

  lemma KeptAcyclic(rs: seq<Tree>, depth: nat)
    requires WellFormedRules(rs) && GrownRules(rs, depth) && Kept(rs)
    ensures NoLeftRecursion(rs) <==> Acyclic(rs)
  {
    hide LeftEnds, VerifyRule, HiddenCall, Used, Kept;
    forall n | 0 <= n < |rs| && Used(rs, n)
      ensures VerifyRule(rs, rs[n], MAXRULES, false).Passes? <==> LeftEnds(rs, rs[n], MAXRULES)
    {
      if LeftEnds(rs, rs[n], MAXRULES) { AcyclicAccepted(rs, depth, n); }
      if VerifyRule(rs, rs[n], MAXRULES, false).Passes? { KeptAccepted(rs, depth, n); }
    }
  }

  // ---------- Without sub-grammars ----------

  lemma {:induction false} FlatKeeps(rs: seq<Tree>, t: Tree, budget: nat, flag: bool)
    requires Flat(t) && forall k :: 0 <= k < |rs| ==> Flat(rs[k])
    ensures !Drops(rs, t, budget, flag)
    decreases budget, t
  {
    hide Nulls;
    match t
    case TNot(p) => FlatKeeps(rs, p, budget, true);
    case TAnd(p) => FlatKeeps(rs, p, budget, true);
    case TRep(p) => FlatKeeps(rs, p, budget, true);
    case TCapture(_, _, p) => FlatKeeps(rs, p, budget, flag);
    case TCall(n) => if n < |rs| && budget > 0 { FlatKeeps(rs, rs[n], budget - 1, flag); }
    case TSeq(p1, p2) => FlatKeeps(rs, p1, budget, false); FlatKeeps(rs, p2, budget, flag);
    case TChoice(p1, p2) =>
      FlatKeeps(rs, p1, budget, flag);
      FlatKeeps(rs, p2, budget, VerifyRule(rs, p1, budget, flag) == Passes(true));
    case _ =>
  }

  lemma {:induction false} FlatAccepted(rs: seq<Tree>, t: Tree, budget: nat, flag: bool)
    requires Flat(t) && (forall k :: 0 <= k < |rs| ==> Flat(rs[k])) && VerifyRule(rs, t, budget, flag).Passes?
    ensures LeftEnds(rs, t, budget)
    decreases budget, t
  {
    hide Nulls;
    match t
    case TNot(p) => FlatAccepted(rs, p, budget, true);
    case TAnd(p) => FlatAccepted(rs, p, budget, true);
    case TRep(p) => FlatAccepted(rs, p, budget, true);
    case TCapture(_, _, p) => FlatAccepted(rs, p, budget, flag);
    case TCall(n) => FlatAccepted(rs, rs[n], budget - 1, flag);
    case TSeq(p1, p2) =>
      FlatAccepted(rs, p1, budget, false);
      FlatGrownRules(rs, 0);
      FlatGrown(p1, 0);
      DropsExact(rs, p1, 0, budget, false);
      FlatKeeps(rs, p1, budget, false);
      if VerifyRule(rs, p1, budget, false).nullable { FlatAccepted(rs, p2, budget, flag); }
    case TChoice(p1, p2) =>
      FlatAccepted(rs, p1, budget, flag);
      FlatAccepted(rs, p2, budget, VerifyRule(rs, p1, budget, flag).nullable);
    case _ =>
  }

  lemma FlatGrownRules(rs: seq<Tree>, depth: nat)
    requires forall k :: 0 <= k < |rs| ==> Flat(rs[k])
    ensures GrownRules(rs, depth)
  {
    forall k | 0 <= k < |rs| ensures Grown(rs[k], depth) { FlatGrown(rs[k], depth); }
  }

  lemma FlatAcyclic(rs: seq<Tree>)
    requires FlatRules(rs)
    ensures NoLeftRecursion(rs) <==> Acyclic(rs)
  {
    hide LeftEnds, VerifyRule, Used;
    FlatGrownRules(rs, 0);
    forall n | 0 <= n < |rs| && Used(rs, n)
      ensures VerifyRule(rs, rs[n], MAXRULES, false).Passes? <==> LeftEnds(rs, rs[n], MAXRULES)
    {
      if LeftEnds(rs, rs[n], MAXRULES) { AcyclicAccepted(rs, 0, n); }
      if VerifyRule(rs, rs[n], MAXRULES, false).Passes? { FlatAccepted(rs, rs[n], MAXRULES, false); }
    }
  }

  /** So accepted grammars without sub-grammars are grown. */
  lemma FlatBuilt(rules: seq<Tree>, depth: nat)
    requires FlatRules(rules) && VerifyGrammar(rules, depth)
    ensures Grown(TGrammar(rules), depth)
  {
    FlatAcyclic(rules);
    FlatGrownRules(rules, depth);
  }

  // ---------- What verifygrammar decides ----------

  /** `verifygrammar` reports left recursion exactly when some chain of left calls from a used rule runs into a
      circle, if there are no sub-grammars, or none hides a call. Otherwise it accepts a left recursive rule exactly
      when all its circles go through hidden calls. */
  lemma LeftRecursionExact(rs: seq<Tree>, depth: nat)
    requires WellFormedRules(rs) && GrownRules(rs, depth) && |rs| <= MAXRULES
    ensures FlatRules(rs) || Kept(rs) ==>
      (NoLeftRecursion(rs) <==> forall n: nat :: n < |rs| && Used(rs, n) ==> !Circles(Left(rs), n))
    ensures NoLeftRecursion(rs) ==>
      forall n: nat :: n < |rs| && Used(rs, n) ==> (Circles(Left(rs), n) <==> HiddenCircle(rs, n))
  {
    hide Circles, Used, Kept, HiddenCircle, FlatRules;
    AcyclicExact(rs);
    if FlatRules(rs) { FlatAcyclic(rs); } else if Kept(rs) { KeptAcyclic(rs, depth); }
    if NoLeftRecursion(rs) {
      forall n: nat | n < |rs| && Used(rs, n) ensures Circles(Left(rs), n) <==> HiddenCircle(rs, n) {
        AcceptedCircles(rs, depth, n);
      }
    }
  }

  lemma AcceptedCircles(rs: seq<Tree>, depth: nat, n: nat)
    requires WellFormedRules(rs) && GrownRules(rs, depth) && |rs| <= MAXRULES
    requires n < |rs| && Used(rs, n) && NoLeftRecursion(rs)
    ensures Circles(Left(rs), n) <==> HiddenCircle(rs, n)
  {
    hide Used, OwnCall, HiddenCall, LeftCall, VerifyRule, Conceals;
    OwnRecursionExact(rs);
    assert !Circles(Own(rs), n);
    if p: seq<nat> :| |p| > 0 && p[0] == n && Path(Left(rs), p) && Repeats(p) {
      if !Conceals(rs, p) { PlainPath(rs, depth, p); }
      assert Conceals(rs, p);
    }
  }

  // ---------- A grammar with a hidden call ----------

  /** {A <- 'a'} */
  const Inner: Tree := TGrammar([TChar(97)])

  /** !'b' / {A <- 'a'}: it may be empty. */
  const Front: Tree := TChoice(TNot(TChar(98)), Inner)

  /** S <- (!'b' / {A <- 'a'}) S / 'c' */
  const Covert: seq<Tree> := [TChoice(TSeq(Front, TCall(0)), TChar(99))]

  lemma InnerChecks(rs: seq<Tree>, budget: nat, flag: bool, d: nat)
    ensures !Nullable(rs, Inner, d) && VerifyRule(rs, Inner, budget, flag) == Passes(false)
  {
    var rules := [TChar(97)];
    forall e: nat ensures !Nullable(rs, Inner, e) {
      assert !CheckAux(rules, rules[0], PEnullable, e);
    }
  }

  /** The library accepts it, since it takes the front not to be nullable. */
  lemma CovertAccepted(depth: nat)
    ensures WellFormedRules(Covert) && VerifyGrammar(Covert, depth)
    ensures HiddenCall(Covert, Covert[0], 0)
  {
    assert WellFormed(Inner, 1) && WellFormed(Front, 1);
    CovertPassed();
    CovertHidden();
    CovertLoops(depth);
    hide VerifyRule, CheckLoops, HiddenCall;
  }

  lemma FrontVerified(budget: nat, flag: bool)
    ensures VerifyRule(Covert, Front, budget, flag) == Passes(false)
  {
    InnerChecks(Covert, budget, flag, 0);
    assert VerifyRule(Covert, TNot(TChar(98)), budget, flag) == Passes(true);
  }

  lemma CovertPassed()
    ensures VerifyRule(Covert, Covert[0], MAXRULES, false).Passes?
  {
    FrontVerified(MAXRULES, false);
    assert VerifyRule(Covert, TSeq(Front, TCall(0)), MAXRULES, false) == Passes(false);
  }

  lemma CovertLoops(depth: nat)
    ensures !CheckLoops(Covert, Covert[0], depth)
  {
    hide CheckAux;
    assert !CheckLoops(Covert, TNot(TChar(98)), depth) && !CheckLoops(Covert, Front, depth);
    assert !CheckLoops(Covert, TSeq(Front, TCall(0)), depth);
  }

  lemma CovertHidden()
    ensures HiddenCall(Covert, Covert[0], 0)
  {
    forall budget: nat ensures VerifyRule(Covert, Front, budget, false) == Passes(false) {
      FrontVerified(budget, false);
    }
    hide VerifyRule;
    assert NullAt(Covert, TNot(TChar(98)), 0) && NullAt(Covert, Front, 0);
    assert HiddenCall(Covert, TSeq(Front, TCall(0)), 0);
  }

  /** Matching "c" needs the answer of the same match. */
  lemma {:induction false} CovertTurn(fuel: nat)
    ensures Match(Covert, Covert[0], [99], 0, fuel) == Out
    decreases fuel
  {
    var rs, s: Subject := Covert, [99];
    if fuel > 0 { CovertTurn(fuel - 1); }
    assert Match(rs, TCall(0), s, 0, fuel) == Out;
    assert Match(rs, TNot(TChar(98)), s, 0, fuel) == Ok(0, []);
    assert Match(rs, Front, s, 0, fuel) == Ok(0, []);
    assert Match(rs, TSeq(Front, TCall(0)), s, 0, fuel) == Out;
  }

  /** So matching with it never ends. */
  lemma CovertNoAnswer(fuel: nat)
    ensures Match([], TGrammar(Covert), [99], 0, fuel) == Out
  {
    CovertTurn(fuel);
  }
}
