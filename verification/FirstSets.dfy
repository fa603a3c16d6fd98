/** What lpcode.c's `getfirst` and `headfail` compute, in the textbook terms of what a pattern may begin with and
    whether it may be empty. */
module FirstSets {
  import opened Common
  import opened Patterns
  import opened Analysis
  import opened Descents
  import opened Grammars
  import opened SubGrammars
  import opened Totality
  import opened Firsts
  import opened Shapes

  /** No predicate whose own first set counts: an and-predicate, or a not-predicate of a set. All other predicates are
      passed as if they were empty. */
  predicate Quiet(t: Tree) {
    match t
    case TAnd(_) => false
    case TNot(p) => !IsCharset(p)
    case TRep(p) => Quiet(p)
    case TSeq(p1, p2) => Quiet(p1) && Quiet(p2)
    case TChoice(p1, p2) => Quiet(p1) && Quiet(p2)
    case TCapture(_, _, p) => Quiet(p)
    case TGrammar(rules) => QuietRules(rules)
    case _ => true
  }

  predicate QuietRules(rs: seq<Tree>) {
    forall k :: 0 <= k < |rs| ==> Quiet(rs[k])
  }

  /** `c` may be the first character that `t` consumes, found with calls followed `depth` deep. */
  ghost predicate BeginsAt(rs: seq<Tree>, t: Tree, c: Byte, depth: nat)
    decreases depth, t
  {
    match t
    case TChar(b) => c == b
    case TSet(cs) => c in cs
    case TAny => true
    case TRep(p) => BeginsAt(rs, p, c, depth)
    case TSeq(p1, p2) => BeginsAt(rs, p1, c, depth) || (Nulls(rs, p1) && BeginsAt(rs, p2, c, depth))
    case TChoice(p1, p2) => BeginsAt(rs, p1, c, depth) || BeginsAt(rs, p2, c, depth)
    case TCapture(_, _, p) => BeginsAt(rs, p, c, depth)
    case TGrammar(rules) => |rules| > 0 && BeginsAt(rules, rules[0], c, depth)
    case TCall(n) => n < |rs| && depth > 0 && BeginsAt(rs, rs[n], c, depth - 1)
    case _ => false
  }

  ghost predicate Begins(rs: seq<Tree>, t: Tree, c: Byte) {
    exists depth: nat :: BeginsAt(rs, t, c, depth)
  }

  lemma {:induction false} BeginsMore(rs: seq<Tree>, t: Tree, c: Byte, d: nat, more: nat)
    requires BeginsAt(rs, t, c, d) && d <= more
    ensures BeginsAt(rs, t, c, more)
    decreases d, t
  {
    match t
    case TRep(p) => BeginsMore(rs, p, c, d, more);
    case TSeq(p1, p2) =>
      if BeginsAt(rs, p1, c, d) { BeginsMore(rs, p1, c, d, more); } else { BeginsMore(rs, p2, c, d, more); }
    case TChoice(p1, p2) =>
      if BeginsAt(rs, p1, c, d) { BeginsMore(rs, p1, c, d, more); } else { BeginsMore(rs, p2, c, d, more); }
    case TCapture(_, _, p) => BeginsMore(rs, p, c, d, more);
    case TGrammar(rules) => BeginsMore(rules, rules[0], c, d, more);
    case TCall(n) => BeginsMore(rs, rs[n], c, d - 1, more - 1);
    case _ =>
  }

  /** At each depth that is enough for `nullable`. */
  lemma {:induction false} FirstAt(level: nat, rs: seq<Tree>, t: Tree, depth: nat, budget: nat, follow: Charset, d: nat,
                                   c: Byte)
    requires Proper(rs, depth, level) && Over(rs, t, depth, level) && LeftEnds(rs, t, budget)
    requires d >= budget + DEEP * level && Quiet(t) && QuietRules(rs)
    ensures var f := GetFirst(rs, t, follow, d);
      && (c in f.cs <==> BeginsAt(rs, t, c, d) || (Nulls(rs, t) && c in follow))
      && (f.empty <==> Nulls(rs, t))
    decreases level, budget, t
  {
    OverSub(rs, t, depth, level);
    NullsLeaf(rs, t);
    hide Over, WellFormed, CheckEnds, CheckAux, Nulls;
    match t
    case TRep(p) => FirstAt(level, rs, p, depth, budget, follow, d, c);
    case TCapture(_, _, p) => FirstAt(level, rs, p, depth, budget, follow, d, c);
    case TSeq(p1, p2) =>
      NullsSeq(rs, p1, p2);
      OverCheck(level, rs, p1, depth, budget, PEnullable, d);
      CheckNulls(rs, p1, d);
      if Nulls(rs, p1) {
        FirstAt(level, rs, p2, depth, budget, follow, d, c);
        FirstAt(level, rs, p1, depth, budget, GetFirst(rs, p2, follow, d).cs, d, c);
      } else {
        FirstAt(level, rs, p1, depth, budget, FULL, d, c);
      }
    case TChoice(p1, p2) =>
      NullsChoice(rs, p1, p2);
      FirstAt(level, rs, p1, depth, budget, follow, d, c);
      FirstAt(level, rs, p2, depth, budget, follow, d, c);
    case TGrammar(rules) =>
      OverGrammar(rs, rules, depth, level);
      OneLevel(level);
      NullsGrammar(rs, rules);
      FirstAt(level - 1, rules, rules[0], depth, MAXRULES, follow, d, c);
    case TCall(n) =>
      OverRule(rs, n, depth, level);
      NullsCall(rs, n);
      FirstAt(level, rs, rs[n], depth, budget - 1, follow, d - 1, c);
    case _ =>
  }

  /** Over rules that are not left recursive: the first set holds just the characters that the pattern may begin with,
      and those that may follow if it may be empty; and the flag says whether it may. */
  lemma FirstTextbook(level: nat, rs: seq<Tree>, t: Tree, depth: nat, follow: Charset, d: nat, c: Byte)
    requires Proper(rs, depth, level) && Over(rs, t, depth, level) && Quiet(t) && QuietRules(rs)
    requires d >= DEEP + DEEP * level
    ensures var f := GetFirst(rs, t, follow, d);
      && (c in f.cs <==> Begins(rs, t, c) || (Nulls(rs, t) && c in follow))
      && (f.empty <==> Nulls(rs, t))
  {
    hide Over, Proper, Nulls, LeftEnds, GetFirst, BeginsAt, Quiet, QuietRules;
    OverEnds(rs, t, depth, level);
    FirstAt(level, rs, t, depth, DEEP, follow, d, c);
    if e: nat :| BeginsAt(rs, t, c, e) {
      var more := d + e;
      BeginsMore(rs, t, c, e, more);
      FirstAt(level, rs, t, depth, DEEP, follow, more, c);
      FirstStable(level, rs, t, depth, DEEP, follow, d, more);
    }
  }

  // ---------- headfail ----------

  /** Something that stands behind the first part of the pattern may fail. */
  predicate FailsBehind(rs: seq<Tree>, t: Tree, depth: nat)
    decreases depth, t
  {
    match t
    case TSeq(p1, p2) => FailsBehind(rs, p1, depth) || !NoFail(rs, p2, depth)
    case TChoice(p1, p2) => FailsBehind(rs, p1, depth) || FailsBehind(rs, p2, depth)
    case TCapture(_, _, p) => FailsBehind(rs, p, depth)
    case TGrammar(rules) => |rules| > 0 && FailsBehind(rules, rules[0], depth)
    case TCall(n) => n < |rs| && depth > 0 && FailsBehind(rs, rs[n], depth - 1)
    case _ => false
  }

  lemma {:induction false} HeadAt(level: nat, rs: seq<Tree>, t: Tree, depth: nat, budget: nat, d: nat)
    requires Proper(rs, depth, level) && Over(rs, t, depth, level) && LeftEnds(rs, t, budget)
    requires d >= budget + DEEP + DEEP * level && Quiet(t) && QuietRules(rs)
    ensures HeadFail(rs, t, d) <==> !Nulls(rs, t) && !FailsBehind(rs, t, d)
    decreases level, budget, t
  {
    OverSub(rs, t, depth, level);
    NullsLeaf(rs, t);
    hide Over, WellFormed, CheckEnds, CheckAux, Nulls;
    match t
    case TCapture(_, _, p) => HeadAt(level, rs, p, depth, budget, d);
    case TSeq(p1, p2) =>
      NullsSeq(rs, p1, p2);
      HeadAt(level, rs, p1, depth, budget, d);
      OverEnds(rs, p2, depth, level);
      if NoFail(rs, p2, d) { NoFailNulls(level, rs, p2, depth, DEEP, d); }
    case TChoice(p1, p2) =>
      NullsChoice(rs, p1, p2);
      HeadAt(level, rs, p1, depth, budget, d);
      HeadAt(level, rs, p2, depth, budget, d);
    case TGrammar(rules) =>
      OverGrammar(rs, rules, depth, level);
      OneLevel(level);
      NullsGrammar(rs, rules);
      HeadAt(level - 1, rules, rules[0], depth, MAXRULES, d);
    case TCall(n) =>
      OverRule(rs, n, depth, level);
      NullsCall(rs, n);
      HeadAt(level, rs, rs[n], depth, budget - 1, d - 1);
    case _ =>
  }

  /** For the same patterns: `headfail` holds if and only if the pattern cannot be empty and nothing behind its first
      part can fail. */
  lemma HeadFailTextbook(level: nat, rs: seq<Tree>, t: Tree, depth: nat, d: nat)
    requires Proper(rs, depth, level) && Over(rs, t, depth, level) && Quiet(t) && QuietRules(rs)
    requires d >= DEEP + DEEP + DEEP * level
    ensures HeadFail(rs, t, d) <==> !Nulls(rs, t) && !FailsBehind(rs, t, d)
  {
    hide Over, Proper, Nulls, LeftEnds, HeadFail, FailsBehind, Quiet, QuietRules;
    OverEnds(rs, t, depth, level);
    HeadAt(level, rs, t, depth, DEEP, d);
  }
}
