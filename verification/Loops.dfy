/** What `checkloops` finds, and with it what `verifygrammar` accepts, without reference to how deep calls are
    followed. */
module Loops {
  import opened Patterns
  import opened Analysis
  import opened Descents
  import opened Paths
  import opened Grammars
  import opened SubGrammars
  import opened Totality

  /** `u` is `t` or a part of it. What is inside of a sub-grammar is no part. */
  predicate Part(t: Tree, u: Tree) {
    t == u ||
    match t
    case TRep(p) => Part(p, u)
    case TSeq(p1, p2) => Part(p1, u) || Part(p2, u)
    case TChoice(p1, p2) => Part(p1, u) || Part(p2, u)
    case TNot(p) => Part(p, u)
    case TAnd(p) => Part(p, u)
    case TBehind(_, p) => Part(p, u)
    case TCapture(_, _, p) => Part(p, u)
    case _ => false
  }

  /** Some repetition in the tree has a body that may match the empty string. */
  ghost predicate NullLoop(rs: seq<Tree>, t: Tree) {
    exists p :: Part(t, TRep(p)) && Nulls(rs, p)
  }

  ghost predicate NoNullLoops(rs: seq<Tree>) {
    forall n: nat :: n < |rs| && Used(rs, n) ==> !NullLoop(rs, rs[n])
  }

  /** One construct at a time. */
  lemma NullLoopParts(rs: seq<Tree>, t: Tree)
    ensures t.TRep? ==> (NullLoop(rs, t) <==> Nulls(rs, t.p) || NullLoop(rs, t.p))
    ensures t.TNot? || t.TAnd? || t.TBehind? || t.TCapture? ==> (NullLoop(rs, t) <==> NullLoop(rs, t.p))
    ensures t.TSeq? || t.TChoice? ==> (NullLoop(rs, t) <==> NullLoop(rs, t.p1) || NullLoop(rs, t.p2))
    ensures IsCharset(t) || t.TTrue? || t.TFalse? || t.TCall? || t.TGrammar? ==> !NullLoop(rs, t)
  {
    hide Nulls;
    if t.TRep? && Nulls(rs, t.p) { assert Part(t, TRep(t.p)); }
    if t.TRep? || t.TNot? || t.TAnd? || t.TBehind? || t.TCapture? {
      if p :| Part(t.p, TRep(p)) && Nulls(rs, p) { assert Part(t, TRep(p)); }
    }
    if t.TSeq? || t.TChoice? {
      if p :| Part(t.p1, TRep(p)) && Nulls(rs, p) { assert Part(t, TRep(p)); }
      if p :| Part(t.p2, TRep(p)) && Nulls(rs, p) { assert Part(t, TRep(p)); }
    }
  }

  /** Over rules that are not left recursive, `checkloops` finds something if and only if a repetition in the pattern
      has a body that may match the empty string. */
  lemma {:induction false} LoopsExact(level: nat, rs: seq<Tree>, t: Tree, depth: nat)
    requires Proper(rs, depth, level) && Over(rs, t, depth, level) && depth >= DEEP + DEEP * level
    ensures CheckLoops(rs, t, depth) <==> NullLoop(rs, t)
    decreases t
  {
    hide Proper, CheckAux, Nulls, NullLoop;
    OverSub(rs, t, depth, level);
    NullLoopParts(rs, t);
    match t
    case TRep(p) =>
      NullableIs(level, rs, p, depth);
      LoopsExact(level, rs, p, depth);
    case TSeq(p1, p2) => LoopsExact(level, rs, p1, depth); LoopsExact(level, rs, p2, depth);
    case TChoice(p1, p2) => LoopsExact(level, rs, p1, depth); LoopsExact(level, rs, p2, depth);
    case TNot(p) => LoopsExact(level, rs, p, depth);
    case TAnd(p) => LoopsExact(level, rs, p, depth);
    case TBehind(_, p) => LoopsExact(level, rs, p, depth);
    case TCapture(_, _, p) => LoopsExact(level, rs, p, depth);
    case _ =>
  }

  /** There `nullable` tells whether the pattern may match the empty string. */
  lemma NullableIs(level: nat, rs: seq<Tree>, t: Tree, depth: nat)
    requires Proper(rs, depth, level) && Over(rs, t, depth, level) && depth >= DEEP + DEEP * level
    ensures Nullable(rs, t, depth) <==> Nulls(rs, t)
  {
    hide CallsUsed, WellFormed, LeftEnds, CheckEnds, CheckAux, Nulls, Acyclic;
    OverEnds(rs, t, depth, level);
    AcceptedCheck(level, rs, t, depth, DEEP, PEnullable, depth);
    CheckNulls(rs, t, depth);
  }

  /** `verifygrammar` accepts rules that are not left recursive if and only if there are any, and no used one has such a
      loop. */
  lemma AcyclicVerified(level: nat, rs: seq<Tree>, depth: nat)
    requires Proper(rs, depth, level) && depth >= DEEP + DEEP * level
    ensures VerifyGrammar(rs, depth) <==> |rs| > 0 && NoNullLoops(rs)
  {
    hide Used, CheckLoops, NullLoop, VerifyRule, Over, LeftEnds;
    forall n: nat | n < |rs| && Used(rs, n)
      ensures CheckLoops(rs, rs[n], depth) <==> NullLoop(rs, rs[n])
      ensures VerifyRule(rs, rs[n], MAXRULES, false).Passes?
    {
      OverRule(rs, n, depth, level);
      LoopsExact(level, rs, rs[n], depth);
      AcyclicAccepted(rs, depth, n);
    }
  }

  /** For rules without sub-grammars, or with none that hides a call: `verifygrammar` accepts them if and only if
      there are any, no chain of left calls from a used one runs into a circle, and no used one has a repetition whose
      body may match the empty string. */
  lemma VerifiedExact(level: nat, rs: seq<Tree>, depth: nat)
    requires WellFormedRules(rs) && GrownRules(rs, depth) && |rs| <= MAXRULES && (FlatRules(rs) || Kept(rs))
    requires NestingFrom(rs, 0) <= level && depth >= DEEP + DEEP * level
    ensures VerifyGrammar(rs, depth)
      <==> |rs| > 0 && NoNullLoops(rs) && forall n: nat :: n < |rs| && Used(rs, n) ==> !Circles(Left(rs), n)
  {
    hide Used, Circles, Kept, FlatRules, NoNullLoops, NoLeftRecursion, NoEmptyLoops, Acyclic, GrownRules;
    LeftRecursionExact(rs, depth);
    AcyclicExact(rs);
    if Acyclic(rs) { AcyclicVerified(level, rs, depth); }
  }

  // ---------- All grammars of a pattern ----------

  /** No grammar in the tree is empty, left recursive from a used rule, or has a used rule with such a loop. */
  ghost predicate Sound(t: Tree) {
    match t
    case TRep(p) => Sound(p)
    case TSeq(p1, p2) => Sound(p1) && Sound(p2)
    case TChoice(p1, p2) => Sound(p1) && Sound(p2)
    case TNot(p) => Sound(p)
    case TAnd(p) => Sound(p)
    case TBehind(_, p) => Sound(p)
    case TCapture(_, _, p) => Sound(p)
    case TGrammar(rules) =>
      && WellFormedRules(rules) && |rules| > 0 && Acyclic(rules) && NoNullLoops(rules)
      && forall k :: 0 <= k < |rules| ==> Sound(rules[k])
    case _ => true
  }

  /** The depth that calls are followed to does not matter, if it is enough for the nesting. */
  lemma {:induction false} GrownExact(t: Tree, depth: nat)
    requires depth >= DEEP * Nesting(t)
    ensures Grown(t, depth) <==> Sound(t)
    decreases t
  {
    hide VerifyGrammar, Acyclic, NoNullLoops;
    match t
    case TRep(p) => GrownExact(p, depth);
    case TSeq(p1, p2) => GrownExact(p1, depth); GrownExact(p2, depth);
    case TChoice(p1, p2) => GrownExact(p1, depth); GrownExact(p2, depth);
    case TNot(p) => GrownExact(p, depth);
    case TAnd(p) => GrownExact(p, depth);
    case TBehind(_, p) => GrownExact(p, depth);
    case TCapture(_, _, p) => GrownExact(p, depth);
    case TGrammar(rules) =>
      var level := NestingFrom(rules, 0);
      forall k | 0 <= k < |rules| ensures Grown(rules[k], depth) <==> Sound(rules[k]) {
        NestingRule(rules, 0, k);
        GrownExact(rules[k], depth);
      }
      if WellFormedRules(rules) && Acyclic(rules) && GrownRules(rules, depth) {
        assert DEEP * (1 + level) == DEEP + DEEP * level;
        AcyclicVerified(level, rules, depth);
        if VerifyGrammar(rules, depth) { VerifiedSome(rules, depth); }
      }
    case _ =>
  }

  lemma VerifiedSome(rs: seq<Tree>, depth: nat)
    requires VerifyGrammar(rs, depth)
    ensures |rs| > 0
  {
  }
}
