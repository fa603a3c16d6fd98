/** Matching with accepted grammars always has an answer. */
module Totality {
  import opened Patterns
  import opened Analysis
  import opened Grammars
  import opened SubGrammars

  // ---------- Answers ----------

  /** There is an answer. */
  ghost predicate Answers(rs: seq<Tree>, t: Tree, s: Subject, i: nat)
    requires i <= |s|
  {
    exists fuel: nat :: !Match(rs, t, s, i, fuel).Out?
  }

  lemma {:induction false} AnswersTogether(rs: seq<Tree>, t: Tree, rs2: seq<Tree>, t2: Tree, s: Subject, i: nat,
                                           j: nat) returns (fuel: nat)
    requires i <= |s| && j <= |s| && Answers(rs, t, s, i) && Answers(rs2, t2, s, j)
    ensures !Match(rs, t, s, i, fuel).Out? && !Match(rs2, t2, s, j, fuel).Out?
  {
    var a: nat :| !Match(rs, t, s, i, a).Out?;
    var b: nat :| !Match(rs2, t2, s, j, b).Out?;
    fuel := a + b;
    MoreFuel(rs, t, s, i, a, fuel);
    MoreFuel(rs2, t2, s, j, b, fuel);
  }

  /** The one answer. */
  ghost function Answer(rs: seq<Tree>, t: Tree, s: Subject, i: nat): (r: Result)
    requires i <= |s| && Answers(rs, t, s, i)
    ensures !r.Out? && exists fuel: nat :: Match(rs, t, s, i, fuel) == r
  {
    var fuel: nat :| !Match(rs, t, s, i, fuel).Out?;
    Match(rs, t, s, i, fuel)
  }

  lemma AnswerIs(rs: seq<Tree>, t: Tree, s: Subject, i: nat, fuel: nat)
    requires i <= |s| && !Match(rs, t, s, i, fuel).Out?
    ensures Answers(rs, t, s, i) && Answer(rs, t, s, i) == Match(rs, t, s, i, fuel)
  {
    assert Answers(rs, t, s, i);
    var r := Answer(rs, t, s, i);
    var f: nat :| Match(rs, t, s, i, f) == r;
    if f <= fuel { MoreFuel(rs, t, s, i, f, fuel); } else { MoreFuel(rs, t, s, i, fuel, f); }
  }

  lemma SeqAnswers(rs: seq<Tree>, p1: Tree, p2: Tree, s: Subject, i: nat)
    requires i <= |s| && Answers(rs, p1, s, i)
    requires var r := Answer(rs, p1, s, i); r.Ok? ==> Answers(rs, p2, s, r.pos)
    ensures Answers(rs, TSeq(p1, p2), s, i)
  {
    var r := Answer(rs, p1, s, i);
    if r.Ok? {
      var fuel := AnswersTogether(rs, p1, rs, p2, s, i, r.pos);
      AnswerIs(rs, p1, s, i, fuel);
      assert !Match(rs, TSeq(p1, p2), s, i, fuel).Out?;
    } else {
      var fuel: nat :| Match(rs, p1, s, i, fuel) == r;
      assert !Match(rs, TSeq(p1, p2), s, i, fuel).Out?;
    }
  }

  lemma ChoiceAnswers(rs: seq<Tree>, p1: Tree, p2: Tree, s: Subject, i: nat)
    requires i <= |s| && Answers(rs, p1, s, i) && Answers(rs, p2, s, i)
    ensures Answers(rs, TChoice(p1, p2), s, i)
  {
    var fuel := AnswersTogether(rs, p1, rs, p2, s, i, i);
    assert !Match(rs, TChoice(p1, p2), s, i, fuel).Out?;
  }

  lemma RepAnswers(rs: seq<Tree>, p: Tree, s: Subject, i: nat)
    requires i <= |s| && Answers(rs, p, s, i)
    requires var r := Answer(rs, p, s, i); r.Ok? ==> Answers(rs, TRep(p), s, r.pos)
    ensures Answers(rs, TRep(p), s, i)
  {
    var r := Answer(rs, p, s, i);
    if r.Ok? {
      var fuel := AnswersTogether(rs, p, rs, TRep(p), s, i, r.pos);
      AnswerIs(rs, p, s, i, fuel);
      MoreFuel(rs, p, s, i, fuel, fuel + 1);
      assert !Match(rs, TRep(p), s, i, fuel + 1).Out?;
    } else {
      var fuel: nat :| Match(rs, p, s, i, fuel) == r;
      assert !Match(rs, TRep(p), s, i, fuel).Out?;
    }
  }

  lemma LeafAnswers(rs: seq<Tree>, t: Tree, s: Subject, i: nat)
    requires i <= |s| && (IsCharset(t) || t.TTrue? || t.TFalse?)
    ensures Answers(rs, t, s, i)
  {
    assert !Match(rs, t, s, i, 0).Out?;
  }

  lemma OneAnswers(rs: seq<Tree>, t: Tree, s: Subject, i: nat)
    requires i <= |s| && (t.TNot? || t.TAnd? || t.TCapture?) && Answers(rs, t.p, s, i)
    ensures Answers(rs, t, s, i)
  {
    var fuel: nat :| !Match(rs, t.p, s, i, fuel).Out?;
    assert !Match(rs, t, s, i, fuel).Out?;
  }

  lemma CallAnswers(rs: seq<Tree>, n: nat, s: Subject, i: nat)
    requires i <= |s| && n < |rs| && Answers(rs, rs[n], s, i)
    ensures Answers(rs, TCall(n), s, i)
  {
    var fuel: nat :| !Match(rs, rs[n], s, i, fuel).Out?;
    assert !Match(rs, TCall(n), s, i, fuel + 1).Out?;
  }

  lemma BehindAnswers(rs: seq<Tree>, t: Tree, s: Subject, i: nat)
    requires i <= |s| && t.TBehind? && (t.n <= i ==> Answers(rs, t.p, s, i - t.n))
    ensures Answers(rs, t, s, i)
  {
    if t.n <= i {
      var fuel: nat :| !Match(rs, t.p, s, i - t.n, fuel).Out?;
      assert !Match(rs, t, s, i, fuel).Out?;
    } else {
      assert !Match(rs, t, s, i, 0).Out?;
    }
  }

  // ---------- Used rules ----------

  /** All calls in the tree go to used rules. */
  ghost predicate CallsUsed(rs: seq<Tree>, t: Tree) {
    forall n: nat :: Calls(t, n) ==> Used(rs, n)
  }

  lemma CallsUsedSub(rs: seq<Tree>, t: Tree)
    requires CallsUsed(rs, t)
    ensures t.TNot? || t.TAnd? || t.TRep? || t.TCapture? || t.TBehind? ==> CallsUsed(rs, t.p)
    ensures t.TSeq? || t.TChoice? ==> CallsUsed(rs, t.p1) && CallsUsed(rs, t.p2)
  {
    if t.TNot? || t.TAnd? || t.TRep? || t.TCapture? || t.TBehind? {
      assert forall n: nat :: Calls(t.p, n) ==> Calls(t, n);
    }
    if t.TSeq? || t.TChoice? { assert forall n: nat :: Calls(t.p1, n) || Calls(t.p2, n) ==> Calls(t, n); }
  }

  /** Rules call used rules only. */
  lemma RuleCallsUsed(rs: seq<Tree>, k: nat)
    requires WellFormedRules(rs) && k < |rs|
    ensures CallsUsed(rs, rs[k])
  {
    forall n: nat | Calls(rs[k], n)
      ensures Used(rs, n)
    {
      CallInRange(rs[k], |rs|, n);
    }
  }

  lemma {:induction false} CallInRange(t: Tree, nrules: nat, n: nat)
    requires WellFormed(t, nrules) && Calls(t, n)
    ensures n < nrules
    decreases t
  {
    match t
    case TRep(p) => CallInRange(p, nrules, n);
    case TSeq(p1, p2) => if Calls(p1, n) { CallInRange(p1, nrules, n); } else { CallInRange(p2, nrules, n); }
    case TChoice(p1, p2) => if Calls(p1, n) { CallInRange(p1, nrules, n); } else { CallInRange(p2, nrules, n); }
    case TNot(p) => CallInRange(p, nrules, n);
    case TAnd(p) => CallInRange(p, nrules, n);
    case TCapture(_, _, p) => CallInRange(p, nrules, n);
    case TBehind(_, p) => CallInRange(p, nrules, n);
    case _ =>
  }

  /** Rules that are not left recursive, with grammars in them not deeper than `level`. */
  ghost predicate Proper(rs: seq<Tree>, depth: nat, level: nat) {
    WellFormedRules(rs) && GrownRules(rs, depth) && Acyclic(rs) && NestingFrom(rs, 0) <= level
  }

  /** A tree over such rules. */
  ghost predicate Over(rs: seq<Tree>, t: Tree, depth: nat, level: nat) {
    WellFormed(t, |rs|) && Grown(t, depth) && CallsUsed(rs, t) && Nesting(t) <= level
  }

  lemma OverSub(rs: seq<Tree>, t: Tree, depth: nat, level: nat)
    requires Over(rs, t, depth, level)
    ensures t.TNot? || t.TAnd? || t.TRep? || t.TCapture? || t.TBehind? ==> Over(rs, t.p, depth, level)
    ensures t.TSeq? || t.TChoice? ==> Over(rs, t.p1, depth, level) && Over(rs, t.p2, depth, level)
  {
    CallsUsedSub(rs, t);
    hide CallsUsed;
  }

  lemma OverRule(rs: seq<Tree>, n: nat, depth: nat, level: nat)
    requires Proper(rs, depth, level) && n < |rs|
    ensures Over(rs, rs[n], depth, level)
  {
    RuleCallsUsed(rs, n);
    NestingRule(rs, 0, n);
  }

  lemma OverGrammar(rs: seq<Tree>, rules: seq<Tree>, depth: nat, level: nat)
    requires Over(rs, TGrammar(rules), depth, level)
    ensures level > 0 && |rules| > 0 && Proper(rules, depth, level - 1) && Over(rules, rules[0], depth, level - 1)
    ensures LeftEnds(rules, rules[0], MAXRULES) && VerifyGrammar(rules, depth) && Used(rules, 0)
  {
    hide CallsUsed, Acyclic, VerifyGrammar;
    InnerLevel(rules, depth, level);
    OverRule(rules, 0, depth, level - 1);
  }

  /** Any tree that calls only rules that are not left recursive goes one call deeper than they do. */
  lemma {:induction false} AnyEnds(rs: seq<Tree>, t: Tree)
    requires Acyclic(rs) && CallsUsed(rs, t)
    ensures LeftEnds(rs, t, DEEP)
    decreases t
  {
    CallsUsedSub(rs, t);
    match t
    case TCall(n) => assert Calls(t, n);
    case TNot(p) => AnyEnds(rs, p);
    case TAnd(p) => AnyEnds(rs, p);
    case TRep(p) => AnyEnds(rs, p);
    case TCapture(_, _, p) => AnyEnds(rs, p);
    case TSeq(p1, p2) => AnyEnds(rs, p1); AnyEnds(rs, p2);
    case TChoice(p1, p2) => AnyEnds(rs, p1); AnyEnds(rs, p2);
    case _ =>
  }

  /** No look-behind in the tree looks for a rule. The builders do not see to this: `lp_behind` takes a pattern with
      calls inside of predicates, and `verifyrule` does not go into it. */
  predicate BehindsClosed(t: Tree) {
    match t
    case TBehind(_, p) => WellFormed(p, 0) && BehindsClosed(p)
    case TRep(p) => BehindsClosed(p)
    case TSeq(p1, p2) => BehindsClosed(p1) && BehindsClosed(p2)
    case TChoice(p1, p2) => BehindsClosed(p1) && BehindsClosed(p2)
    case TNot(p) => BehindsClosed(p)
    case TAnd(p) => BehindsClosed(p)
    case TCapture(_, _, p) => BehindsClosed(p)
    case TGrammar(rules) => RulesBehindClosed(rules)
    case _ => true
  }

  predicate RulesBehindClosed(rs: seq<Tree>) {
    forall k :: 0 <= k < |rs| ==> BehindsClosed(rs[k])
  }

  lemma BehindsSub(t: Tree)
    requires BehindsClosed(t)
    ensures t.TNot? || t.TAnd? || t.TRep? || t.TCapture? || t.TBehind? ==> BehindsClosed(t.p)
    ensures t.TSeq? || t.TChoice? ==> BehindsClosed(t.p1) && BehindsClosed(t.p2)
  {
  }

  // ---------- Matching is total ----------

  /** A body that is not nullable moves on. */
  lemma RepProgress(rs: seq<Tree>, p: Tree, depth: nat, s: Subject, i: nat)
    requires i <= |s| && Answers(rs, p, s, i) && !Nullable(rs, p, depth)
    ensures var r := Answer(rs, p, s, i); r.Ok? ==> r.pos > i
  {
    var fuel: nat :| Match(rs, p, s, i, fuel) == Answer(rs, p, s, i);
    NullableSound(rs, p, s, i, fuel, depth);
  }

  lemma {:induction false} MatchNulls(rs: seq<Tree>, t: Tree, s: Subject, i: nat, fuel: nat)
    requires i <= |s|
    requires var r := Match(rs, t, s, i, fuel); r.Ok? && r.pos == i
    ensures NullAt(rs, t, fuel)
    decreases fuel, t
  {
    match t
    case TSeq(p1, p2) => MatchNulls(rs, p1, s, i, fuel); MatchNulls(rs, p2, s, i, fuel);
    case TChoice(p1, p2) =>
      if Match(rs, p1, s, i, fuel).Ok? { MatchNulls(rs, p1, s, i, fuel); } else { MatchNulls(rs, p2, s, i, fuel); }
    case TCapture(_, _, p) => MatchNulls(rs, p, s, i, fuel);
    case TGrammar(rules) => MatchNulls(rules, rules[0], s, i, fuel);
    case TCall(n) => MatchNulls(rs, rs[n], s, i, fuel - 1);
    case _ =>
  }

  lemma EmptyNulls(rs: seq<Tree>, t: Tree, s: Subject, i: nat)
    requires i <= |s| && Answers(rs, t, s, i)
    requires var r := Answer(rs, t, s, i); r.Ok? && r.pos == i
    ensures Nulls(rs, t)
  {
    var fuel: nat :| Match(rs, t, s, i, fuel) == Answer(rs, t, s, i);
    MatchNulls(rs, t, s, i, fuel);
  }

  /** With accepted grammars every match has an answer. The measure is the level of grammars inside of each other,
      then the rest of the subject, then how deep left calls may go, then the pattern. */
  lemma {:induction false} AcceptedTotal(level: nat, rs: seq<Tree>, t: Tree, depth: nat, budget: nat, s: Subject,
                                         i: nat)
    requires Proper(rs, depth, level) && NoEmptyLoops(rs, depth) && RulesBehindClosed(rs)
    requires Over(rs, t, depth, level) && !CheckLoops(rs, t, depth) && BehindsClosed(t)
    requires LeftEnds(rs, t, budget) && i <= |s|
    ensures Answers(rs, t, s, i)
    decreases level, 1, |s| - i, budget, t
  {
    OverSub(rs, t, depth, level);
    BehindsSub(t);
    hide Over, CallsUsed, Grown, WellFormed, BehindsClosed, Match, Nulls, Answers, Answer;
    match t
    case TSeq(p1, p2) =>
      AcceptedTotal(level, rs, p1, depth, budget, s, i);
      var r := Answer(rs, p1, s, i);
      if r.Ok? {
        if r.pos > i {
          OverEnds(rs, p2, depth, level);
          AcceptedTotal(level, rs, p2, depth, DEEP, s, r.pos);
        } else {
          EmptyNulls(rs, p1, s, i);
          AcceptedTotal(level, rs, p2, depth, budget, s, i);
        }
      }
      SeqAnswers(rs, p1, p2, s, i);
    case TChoice(p1, p2) =>
      AcceptedTotal(level, rs, p1, depth, budget, s, i);
      AcceptedTotal(level, rs, p2, depth, budget, s, i);
      ChoiceAnswers(rs, p1, p2, s, i);
    case TRep(p) =>
      AcceptedTotal(level, rs, p, depth, budget, s, i);
      var r := Answer(rs, p, s, i);
      if r.Ok? {
        RepProgress(rs, p, depth, s, i);
        AcceptedTotal(level, rs, t, depth, budget, s, r.pos);
      }
      RepAnswers(rs, p, s, i);
    case TNot(p) => AcceptedTotal(level, rs, p, depth, budget, s, i); OneAnswers(rs, t, s, i);
    case TAnd(p) => AcceptedTotal(level, rs, p, depth, budget, s, i); OneAnswers(rs, t, s, i);
    case TCapture(_, _, p) => AcceptedTotal(level, rs, p, depth, budget, s, i); OneAnswers(rs, t, s, i);
    case TCall(n) =>
      OverCall(rs, n, depth, level);
      AcceptedTotal(level, rs, rs[n], depth, budget - 1, s, i);
      CallAnswers(rs, n, s, i);
    case TBehind(n, p) =>
      BehindBody(t);
      if n <= i { ClosedTotal(level, rs, p, depth, s, i - n); }
      BehindAnswers(rs, t, s, i);
    case TGrammar(rules) => InnerTotal(level, rs, t, depth, s, i);
    case TChar(_) => LeafAnswers(rs, t, s, i);
    case TSet(_) => LeafAnswers(rs, t, s, i);
    case TAny => LeafAnswers(rs, t, s, i);
    case TTrue => LeafAnswers(rs, t, s, i);
    case TFalse => LeafAnswers(rs, t, s, i);
  }

  lemma OverEnds(rs: seq<Tree>, t: Tree, depth: nat, level: nat)
    requires Proper(rs, depth, level) && Over(rs, t, depth, level)
    ensures LeftEnds(rs, t, DEEP)
  {
    hide CallsUsed, Acyclic, LeftEnds;
    AnyEnds(rs, t);
  }

  /** A called rule, as a pattern of its own. */
  lemma OverCall(rs: seq<Tree>, n: nat, depth: nat, level: nat)
    requires Proper(rs, depth, level) && Over(rs, TCall(n), depth, level)
    requires NoEmptyLoops(rs, depth) && RulesBehindClosed(rs)
    ensures n < |rs| && Over(rs, rs[n], depth, level) && !CheckLoops(rs, rs[n], depth) && BehindsClosed(rs[n])
  {
    assert Calls(TCall(n), n) && Used(rs, n);
    OverRule(rs, n, depth, level);
  }

  lemma BehindBody(t: Tree)
    requires t.TBehind? && BehindsClosed(t)
    ensures WellFormed(t.p, 0)
  {
  }

  lemma {:induction false} InnerTotal(level: nat, rs: seq<Tree>, t: Tree, depth: nat, s: Subject, i: nat)
    requires t.TGrammar? && Over(rs, t, depth, level) && BehindsClosed(t) && i <= |s|
    ensures Answers(rs, t, s, i)
    decreases level, 0, 0
  {
    hide Over, Proper, WellFormed, Grown, LeftEnds, CheckLoops, Used, NoLeftRecursion;
    var rules := t.rules;
    OverGrammar(rs, rules, depth, level);
    AcceptedTotal(level - 1, rules, rules[0], depth, MAXRULES, s, i);
    var fuel: nat :| !Match(rules, rules[0], s, i, fuel).Out?;
    assert !Match(rs, t, s, i, fuel).Out?;
  }

  /** Trees without calls, wherever they stand. */
  lemma {:induction false} ClosedTotal(level: nat, rs: seq<Tree>, t: Tree, depth: nat, s: Subject, i: nat)
    requires Over(rs, t, depth, level) && WellFormed(t, 0) && !CheckLoops(rs, t, depth) && BehindsClosed(t) && i <= |s|
    ensures Answers(rs, t, s, i)
    decreases level, 0, 1, t, |s| - i
  {
    OverSub(rs, t, depth, level);
    BehindsSub(t);
    hide Over, CallsUsed, Grown, BehindsClosed, Match, Nulls, Answers, Answer;
    match t
    case TSeq(p1, p2) =>
      ClosedTotal(level, rs, p1, depth, s, i);
      var r := Answer(rs, p1, s, i);
      if r.Ok? { ClosedTotal(level, rs, p2, depth, s, r.pos); }
      SeqAnswers(rs, p1, p2, s, i);
    case TChoice(p1, p2) =>
      ClosedTotal(level, rs, p1, depth, s, i);
      ClosedTotal(level, rs, p2, depth, s, i);
      ChoiceAnswers(rs, p1, p2, s, i);
    case TRep(p) =>
      ClosedTotal(level, rs, p, depth, s, i);
      var r := Answer(rs, p, s, i);
      if r.Ok? {
        RepProgress(rs, p, depth, s, i);
        ClosedTotal(level, rs, t, depth, s, r.pos);
      }
      RepAnswers(rs, p, s, i);
    case TNot(p) => ClosedTotal(level, rs, p, depth, s, i); OneAnswers(rs, t, s, i);
    case TAnd(p) => ClosedTotal(level, rs, p, depth, s, i); OneAnswers(rs, t, s, i);
    case TCapture(_, _, p) => ClosedTotal(level, rs, p, depth, s, i); OneAnswers(rs, t, s, i);
    case TBehind(n, p) =>
      if n <= i { ClosedTotal(level, rs, p, depth, s, i - n); }
      BehindAnswers(rs, t, s, i);
    case TGrammar(_) => InnerTotal(level, rs, t, depth, s, i);
    case TChar(_) => LeafAnswers(rs, t, s, i);
    case TSet(_) => LeafAnswers(rs, t, s, i);
    case TAny => LeafAnswers(rs, t, s, i);
    case TTrue => LeafAnswers(rs, t, s, i);
    case TFalse => LeafAnswers(rs, t, s, i);
  }

  lemma {:induction false} ClosedNoCalls(t: Tree, n: nat)
    requires WellFormed(t, 0)
    ensures !Calls(t, n)
  {
    match t
    case TRep(p) => ClosedNoCalls(p, n);
    case TSeq(p1, p2) => ClosedNoCalls(p1, n); ClosedNoCalls(p2, n);
    case TChoice(p1, p2) => ClosedNoCalls(p1, n); ClosedNoCalls(p2, n);
    case TNot(p) => ClosedNoCalls(p, n);
    case TAnd(p) => ClosedNoCalls(p, n);
    case TCapture(_, _, p) => ClosedNoCalls(p, n);
    case TBehind(_, p) => ClosedNoCalls(p, n);
    case _ =>
  }

  lemma ClosedUsed(rs: seq<Tree>, t: Tree)
    requires WellFormed(t, 0)
    ensures CallsUsed(rs, t)
  {
    forall n: nat ensures !Calls(t, n) { ClosedNoCalls(t, n); }
  }

  /** Matching with an accepted grammar is total, with its sub-grammars. */
  lemma GrammarTotal(rs: seq<Tree>, depth: nat, s: Subject, i: nat)
    requires WellFormed(TGrammar(rs), 0) && Grown(TGrammar(rs), depth) && RulesBehindClosed(rs) && i <= |s|
    ensures Answers([], TGrammar(rs), s, i)
  {
    hide Grown, WellFormed;
    ClosedUsed([], TGrammar(rs));
    InnerTotal(Nesting(TGrammar(rs)), [], TGrammar(rs), depth, s, i);
  }
}
