/** How deep the analyses of lpcode.c go. In C they recurse without a bound of their own. Here it is said when they
    come back from at most `depth` nested calls, where going into a grammar counts as a call. Their answer is then the
    one that Analysis gives, at that depth and at every larger one. */
module Descents {
  import opened Patterns
  import opened Analysis

  /** `checkaux` comes back. */
  predicate CheckEnds(rs: seq<Tree>, t: Tree, pred: Pred, depth: nat)
    decreases depth, t
  {
    match t
    case TAnd(p) => pred.PEnullable? || CheckEnds(rs, p, pred, depth)
    case TSeq(p1, p2) =>
      CheckEnds(rs, p1, pred, depth) && (CheckAux(rs, p1, pred, depth) ==> CheckEnds(rs, p2, pred, depth))
    case TChoice(p1, p2) =>
      CheckEnds(rs, p2, pred, depth) && (!CheckAux(rs, p2, pred, depth) ==> CheckEnds(rs, p1, pred, depth))
    case TCapture(_, _, p) => CheckEnds(rs, p, pred, depth)
    case TGrammar(rules) => |rules| > 0 && depth > 0 && CheckEnds(rules, rules[0], pred, depth - 1)
    case TCall(n) => n < |rs| && depth > 0 && CheckEnds(rs, rs[n], pred, depth - 1)
    case _ => true
  }

  /** `getfirst` comes back. It goes into the bodies of predicates and look-behinds too, to look for match-time
      captures; what it finds out there about first sets is not used. */
  predicate FirstEnds(rs: seq<Tree>, t: Tree, depth: nat)
    decreases depth, t
  {
    match t
    case TSeq(p1, p2) =>
      && CheckEnds(rs, p1, PEnullable, depth)
      && FirstEnds(rs, p1, depth)
      && (Nullable(rs, p1, depth) ==> FirstEnds(rs, p2, depth))
    case TChoice(p1, p2) => FirstEnds(rs, p1, depth) && FirstEnds(rs, p2, depth)
    case TRep(p) => FirstEnds(rs, p, depth)
    case TAnd(p) => FirstEnds(rs, p, depth)
    case TNot(p) => IsCharset(p) || FirstEnds(rs, p, depth)
    case TBehind(_, p) => FirstEnds(rs, p, depth)
    case TCapture(_, _, p) => FirstEnds(rs, p, depth)
    case TGrammar(rules) => |rules| > 0 && depth > 0 && FirstEnds(rules, rules[0], depth - 1)
    case TCall(n) => n < |rs| && depth > 0 && FirstEnds(rs, rs[n], depth - 1)
    case _ => true
  }

  /** `headfail` comes back. */
  predicate HeadEnds(rs: seq<Tree>, t: Tree, depth: nat)
    decreases depth, t
  {
    match t
    case TSeq(p1, p2) => CheckEnds(rs, p2, PEnofail, depth) && (NoFail(rs, p2, depth) ==> HeadEnds(rs, p1, depth))
    case TChoice(p1, p2) => HeadEnds(rs, p1, depth) && (HeadFail(rs, p1, depth) ==> HeadEnds(rs, p2, depth))
    case TAnd(p) => HeadEnds(rs, p, depth)
    case TCapture(_, _, p) => HeadEnds(rs, p, depth)
    case TGrammar(rules) => |rules| > 0 && depth > 0 && HeadEnds(rules, rules[0], depth - 1)
    case TCall(n) => n < |rs| && depth > 0 && HeadEnds(rs, rs[n], depth - 1)
    case _ => true
  }

  // ---------- Their answers then ----------

  lemma {:induction false} CheckMore(rs: seq<Tree>, t: Tree, pred: Pred, d: nat, more: nat)
    requires d <= more && CheckEnds(rs, t, pred, d)
    ensures CheckEnds(rs, t, pred, more) && (CheckAux(rs, t, pred, more) <==> CheckAux(rs, t, pred, d))
    decreases d, t
  {
    match t
    case TAnd(p) => if pred.PEnofail? { CheckMore(rs, p, pred, d, more); }
    case TSeq(p1, p2) =>
      CheckMore(rs, p1, pred, d, more);
      if CheckAux(rs, p1, pred, d) { CheckMore(rs, p2, pred, d, more); }
    case TChoice(p1, p2) =>
      CheckMore(rs, p2, pred, d, more);
      if !CheckAux(rs, p2, pred, d) { CheckMore(rs, p1, pred, d, more); }
    case TCapture(_, _, p) => CheckMore(rs, p, pred, d, more);
    case TGrammar(rules) =>
      CheckMore(rules, rules[0], pred, d - 1, more - 1);
      CheckMore(rules, rules[0], pred, d - 1, more);
      CheckMore(rules, rules[0], pred, d - 1, d);
    case TCall(n) => CheckMore(rs, rs[n], pred, d - 1, more - 1);
    case _ =>
  }

  lemma {:induction false} FirstMore(rs: seq<Tree>, t: Tree, follow: Charset, d: nat, more: nat)
    requires d <= more && FirstEnds(rs, t, d)
    ensures FirstEnds(rs, t, more) && GetFirst(rs, t, follow, more) == GetFirst(rs, t, follow, d)
    decreases d, t
  {
    match t
    case TSeq(p1, p2) =>
      CheckMore(rs, p1, PEnullable, d, more);
      FirstMore(rs, p1, FULL, d, more);
      if Nullable(rs, p1, d) {
        FirstMore(rs, p2, follow, d, more);
        FirstMore(rs, p1, GetFirst(rs, p2, follow, d).cs, d, more);
      }
    case TChoice(p1, p2) => FirstMore(rs, p1, follow, d, more); FirstMore(rs, p2, follow, d, more);
    case TRep(p) => FirstMore(rs, p, follow, d, more);
    case TAnd(p) => FirstMore(rs, p, follow, d, more);
    case TNot(p) => if !IsCharset(p) { FirstMore(rs, p, follow, d, more); }
    case TBehind(_, p) => FirstMore(rs, p, follow, d, more);
    case TCapture(_, _, p) => FirstMore(rs, p, follow, d, more);
    case TGrammar(rules) =>
      FirstMore(rules, rules[0], follow, d - 1, more - 1);
      FirstMore(rules, rules[0], follow, d - 1, more);
      FirstMore(rules, rules[0], follow, d - 1, d);
    case TCall(n) => FirstMore(rs, rs[n], follow, d - 1, more - 1);
    case _ =>
  }

  lemma {:induction false} HeadMore(rs: seq<Tree>, t: Tree, d: nat, more: nat)
    requires d <= more && HeadEnds(rs, t, d)
    ensures HeadEnds(rs, t, more) && (HeadFail(rs, t, more) <==> HeadFail(rs, t, d))
    decreases d, t
  {
    match t
    case TSeq(p1, p2) =>
      CheckMore(rs, p2, PEnofail, d, more);
      if NoFail(rs, p2, d) { HeadMore(rs, p1, d, more); }
    case TChoice(p1, p2) =>
      HeadMore(rs, p1, d, more);
      if HeadFail(rs, p1, d) { HeadMore(rs, p2, d, more); }
    case TAnd(p) => HeadMore(rs, p, d, more);
    case TCapture(_, _, p) => HeadMore(rs, p, d, more);
    case TGrammar(rules) =>
      HeadMore(rules, rules[0], d - 1, more - 1);
      HeadMore(rules, rules[0], d - 1, more);
      HeadMore(rules, rules[0], d - 1, d);
    case TCall(n) => HeadMore(rs, rs[n], d - 1, more - 1);
    case _ =>
  }

  /** `getfirst` asks whether its pattern is nullable only where it goes itself. */
  lemma {:induction false} FirstChecks(rs: seq<Tree>, t: Tree, d: nat)
    requires FirstEnds(rs, t, d)
    ensures CheckEnds(rs, t, PEnullable, d)
    decreases d, t
  {
    match t
    case TSeq(p1, p2) => if Nullable(rs, p1, d) { FirstChecks(rs, p2, d); }
    case TChoice(p1, p2) => FirstChecks(rs, p1, d); FirstChecks(rs, p2, d);
    case TCapture(_, _, p) => FirstChecks(rs, p, d);
    case TGrammar(rules) => FirstChecks(rules, rules[0], d - 1);
    case TCall(n) => FirstChecks(rs, rs[n], d - 1);
    case _ =>
  }
}
