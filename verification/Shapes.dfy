/** How good the answers of two analyses of lpcode.c are. `nofail` and `fixedlen` look at the shape of a pattern only:
    not at which characters a set holds, nor at what predicates that they do not go into ask for. Of what can be told
    from the shape they tell everything. */
module Shapes {
  import opened Patterns
  import opened Analysis
  import opened Descents
  import opened Paths
  import opened Grammars
  import opened SubGrammars
  import opened Totality
  import opened Loops

  // ---------- nofail ----------

  /** The same shape, for `nofail`: any sets, and anything behind a not-predicate or in a look-behind. */
  predicate Alike(t: Tree, u: Tree)
    decreases t, 0
  {
    match t
    case TTrue => u.TTrue?
    case TFalse => u.TFalse?
    case TRep(p) => u.TRep? && Alike(p, u.p)
    case TSeq(p1, p2) => u.TSeq? && Alike(p1, u.p1) && Alike(p2, u.p2)
    case TChoice(p1, p2) => u.TChoice? && Alike(p1, u.p1) && Alike(p2, u.p2)
    case TNot(_) => u.TNot?
    case TBehind(_, _) => u.TBehind?
    case TAnd(p) => u.TAnd? && Alike(p, u.p)
    case TCall(n) => u == t
    case TGrammar(rules) => u.TGrammar? && AlikeRules(rules, u.rules)
    case TCapture(_, _, p) => u.TCapture? && Alike(p, u.p)
    case _ => IsCharset(u)
  }

  predicate AlikeRules(rs: seq<Tree>, us: seq<Tree>)
    decreases rs, 1
  {
    |rs| == |us| && forall k :: 0 <= k < |rs| ==> Alike(rs[k], us[k])
  }

  /** `nofail` depends on the shape only. */
  lemma {:induction false} ShapeDecides(rs: seq<Tree>, us: seq<Tree>, t: Tree, u: Tree, d: nat)
    requires AlikeRules(rs, us) && Alike(t, u)
    ensures NoFail(rs, t, d) <==> NoFail(us, u, d)
    decreases d, t
  {
    match t
    case TSeq(p1, p2) => ShapeDecides(rs, us, p1, u.p1, d); ShapeDecides(rs, us, p2, u.p2, d);
    case TChoice(p1, p2) => ShapeDecides(rs, us, p1, u.p1, d); ShapeDecides(rs, us, p2, u.p2, d);
    case TAnd(p) => ShapeDecides(rs, us, p, u.p, d);
    case TCapture(_, _, p) => ShapeDecides(rs, us, p, u.p, d);
    case TGrammar(rules) => if |rules| > 0 { ShapeDecides(rules, u.rules, rules[0], u.rules[0], d); }
    case TCall(n) => if n < |rs| && d > 0 { ShapeDecides(rs, us, rs[n], us[n], d - 1); }
    case _ =>
  }

  /** The pattern of that shape that fails wherever one of its shape can: with empty sets, and predicates that fail. */
  function Failing(t: Tree): Tree {
    match t
    case TTrue => TTrue
    case TFalse => TFalse
    case TRep(p) => TRep(Failing(p))
    case TSeq(p1, p2) => TSeq(Failing(p1), Failing(p2))
    case TChoice(p1, p2) => TChoice(Failing(p1), Failing(p2))
    case TNot(_) => TNot(TTrue)
    case TBehind(_, _) => TBehind(1, TSet({}))
    case TAnd(p) => TAnd(Failing(p))
    case TCall(n) => TCall(n)
    case TGrammar(rules) => TGrammar(seq(|rules|, k requires 0 <= k < |rules| => Failing(rules[k])))
    case TCapture(kind, key, p) => TCapture(kind, key, Failing(p))
    case _ => TSet({})
  }

  function FailingRules(rs: seq<Tree>): seq<Tree> {
    seq(|rs|, k requires 0 <= k < |rs| => Failing(rs[k]))
  }

  lemma {:induction false} FailingAlike(t: Tree)
    ensures Alike(t, Failing(t))
    decreases t
  {
    match t
    case TRep(p) => FailingAlike(p);
    case TSeq(p1, p2) => FailingAlike(p1); FailingAlike(p2);
    case TChoice(p1, p2) => FailingAlike(p1); FailingAlike(p2);
    case TAnd(p) => FailingAlike(p);
    case TCapture(_, _, p) => FailingAlike(p);
    case TGrammar(rules) => forall k | 0 <= k < |rules| ensures Alike(rules[k],
                                                                      Failing(rules[k])) { FailingAlike(rules[k]); }
    case _ =>
  }

  lemma FailingRulesAlike(rs: seq<Tree>)
    ensures AlikeRules(rs, FailingRules(rs))
  {
    forall k | 0 <= k < |rs| ensures Alike(rs[k], FailingRules(rs)[k]) { FailingAlike(rs[k]); }
  }

  /** It consumes nothing, and fails if and only if the pattern is not `nofail`. */
  lemma {:induction false} FailingFails(level: nat, rs: seq<Tree>, t: Tree, depth: nat, budget: nat, s: Subject, i: nat,
                                        d: nat)
    requires Proper(rs, depth, level) && NoNullLoops(rs) && Over(rs, t, depth, level) && !NullLoop(rs, t)
    requires LeftEnds(rs, t, budget) && i <= |s|
    requires d >= budget + DEEP * level && depth >= DEEP + DEEP * level
    ensures var r := Match(FailingRules(rs), Failing(t), s, i, d);
      if NoFail(rs, t, d) then r.Ok? && r.pos == i else r.Fail?
    decreases level, budget, t
  {
    OverSub(rs, t, depth, level);
    NullLoopParts(rs, t);
    hide Over, CallsUsed, Grown, WellFormed, Proper, NullLoop, NoNullLoops, CheckEnds, Nulls, Acyclic, Nesting, Used;
    match t
    case TSeq(p1, p2) =>
      FailingFails(level, rs, p1, depth, budget, s, i, d);
      if NoFail(rs, p1, d) {
        NoFailNulls(level, rs, p1, depth, budget, d);
        FailingFails(level, rs, p2, depth, budget, s, i, d);
      }
    case TChoice(p1, p2) =>
      FailingFails(level, rs, p1, depth, budget, s, i, d);
      FailingFails(level, rs, p2, depth, budget, s, i, d);
    case TRep(p) =>
      FailingFails(level, rs, p, depth, budget, s, i, d);
      if NoFail(rs, p, d) { NoFailNulls(level, rs, p, depth, budget, d); }
    case TAnd(p) => FailingFails(level, rs, p, depth, budget, s, i, d);
    case TCapture(_, _, p) => FailingFails(level, rs, p, depth, budget, s, i, d);
    case TCall(n) =>
      CalledRule(rs, n, depth, level);
      FailingFails(level, rs, rs[n], depth, budget - 1, s, i, d - 1);
    case TGrammar(rules) =>
      InnerRules(level, rs, rules, depth);
      FailingFails(level - 1, rules, rules[0], depth, MAXRULES, s, i, d);
    case _ =>
  }

  lemma NoFailNulls(level: nat, rs: seq<Tree>, t: Tree, depth: nat, budget: nat, d: nat)
    requires Proper(rs, depth, level) && Over(rs, t, depth, level) && LeftEnds(rs, t, budget)
    requires d >= budget + DEEP * level && NoFail(rs, t, d)
    ensures Nulls(rs, t)
  {
    hide CallsUsed, WellFormed, Acyclic, LeftEnds, CheckEnds, Nulls, CheckAux;
    AcceptedCheck(level, rs, t, depth, budget, PEnullable, d);
    NoFailNullable(rs, t, d);
    CheckNulls(rs, t, d);
  }

  lemma CalledRule(rs: seq<Tree>, n: nat, depth: nat, level: nat)
    requires Proper(rs, depth, level) && Over(rs, TCall(n), depth, level) && NoNullLoops(rs)
    ensures n < |rs| && Over(rs, rs[n], depth, level) && !NullLoop(rs, rs[n])
  {
    hide NullLoop;
    assert Calls(TCall(n), n) && Used(rs, n);
    OverRule(rs, n, depth, level);
  }

  lemma InnerRules(level: nat, rs: seq<Tree>, rules: seq<Tree>, depth: nat)
    requires Over(rs, TGrammar(rules), depth, level) && depth >= DEEP + DEEP * level
    ensures level > 0 && |rules| > 0 && Proper(rules, depth, level - 1) && Over(rules, rules[0], depth, level - 1)
    ensures LeftEnds(rules, rules[0], MAXRULES) && NoNullLoops(rules) && !NullLoop(rules, rules[0])
    ensures DEEP * level == DEEP * (level - 1) + DEEP
  {
    hide Over, Proper, NullLoop, LeftEnds, VerifyGrammar, Used;
    OverGrammar(rs, rules, depth, level);
    assert DEEP * level == DEEP * (level - 1) + DEEP;
    AcyclicVerified(level - 1, rules, depth);
  }

  /** Over accepted rules, `nofail` says yes if and only if no pattern of that shape can fail. */
  lemma NoFailExact(level: nat, rs: seq<Tree>, t: Tree, depth: nat, d: nat)
    requires Proper(rs, depth, level) && NoNullLoops(rs) && Over(rs, t, depth, level) && !NullLoop(rs, t)
    requires d >= DEEP + DEEP * level && depth >= DEEP + DEEP * level
    ensures NoFail(rs, t, d) <==>
      forall us, u, s: Subject, i: nat, fuel: nat :: AlikeRules(rs, us) && Alike(t, u) && i <= |s| ==>
        !Match(us, u, s, i, fuel).Fail?
  {
    hide Over, Proper, NullLoop, NoNullLoops, LeftEnds, Match, CheckAux;
    if NoFail(rs, t, d) {
      forall us, u, s: Subject, i: nat, fuel: nat | AlikeRules(rs, us) && Alike(t, u) && i <= |s|
        ensures !Match(us, u, s, i, fuel).Fail?
      {
        ShapeDecides(rs, us, t, u, d);
        NoFailSound(us, u, s, i, fuel, d);
      }
    } else {
      OverEnds(rs, t, depth, level);
      FailingFails(level, rs, t, depth, DEEP, [], 0, d);
      FailingAlike(t);
      FailingRulesAlike(rs);
    }
  }

  // ---------- fixedlen ----------

  /** Some way through the pattern is `n` characters long. Nothing is said about repetitions, and about calls that are
      more than MAXRULES deep, so that any number will do there. */
  predicate Length(rs: seq<Tree>, t: Tree, count: nat, n: nat)
    decreases if count < MAXRULES then MAXRULES - count else 0, t
  {
    match t
    case TChar(_) => n == 1
    case TSet(_) => n == 1
    case TAny => n == 1
    case TRep(_) => true
    case TCapture(_, _, p) => Length(rs, p, count, n)
    case TGrammar(rules) => |rules| == 0 || Length(rules, rules[0], count, n)
    case TCall(k) => count >= MAXRULES || k >= |rs| || Length(rs, rs[k], count + 1, n)
    case TSeq(p1, p2) => exists a: nat :: a <= n && Length(rs, p1, count, a) && Length(rs, p2, count, n - a)
    case TChoice(p1, p2) => Length(rs, p1, count, n) || Length(rs, p2, count, n)
    case _ => n == 0
  }

  ghost predicate OnlyLength(rs: seq<Tree>, t: Tree, count: nat, n: nat) {
    forall m: nat :: Length(rs, t, count, m) <==> m == n
  }

  lemma {:induction false} LenAdds(rs: seq<Tree>, t: Tree, count: nat, len: nat)
    ensures FixedLenX(rs, t, count, len)
      == if FixedLenX(rs, t, count, 0) < 0 then -1 else len + FixedLenX(rs, t, count, 0)
    ensures FixedLenX(rs, t, count, len) >= -1
    decreases if count < MAXRULES then MAXRULES - count else 0, t
  {
    match t
    case TCapture(_, _, p) => LenAdds(rs, p, count, len);
    case TGrammar(rules) => if |rules| > 0 { LenAdds(rules, rules[0], count, len); }
    case TCall(n) => if count < MAXRULES && n < |rs| { LenAdds(rs, rs[n], count + 1, len); }
    case TSeq(p1, p2) =>
      LenAdds(rs, p1, count, len);
      var l := FixedLenX(rs, p1, count, 0);
      if l >= 0 {
        LenAdds(rs, p2, count, len + l);
        LenAdds(rs, p2, count, l);
      }
    case TChoice(p1, p2) => LenAdds(rs, p1, count, len); LenAdds(rs, p2, count, len);
    case _ =>
  }

  /** There is a way through, and if the length is not fixed, another one of a different length. */
  lemma {:induction false} Lengths(rs: seq<Tree>, t: Tree, count: nat) returns (a: nat, b: nat)
    ensures Length(rs, t, count, a) && Length(rs, t, count, b)
    ensures var l := FixedLenX(rs, t, count, 0); if l < 0 then a != b else a == l && OnlyLength(rs, t, count, l)
    decreases if count < MAXRULES then MAXRULES - count else 0, t
  {
    a, b := 0, 0;
    match t
    case TChar(_) => a, b := 1, 1;
    case TSet(_) => a, b := 1, 1;
    case TAny => a, b := 1, 1;
    case TRep(_) => a, b := 0, 1;
    case TCapture(_, _, p) => a, b := Lengths(rs, p, count);
    case TGrammar(rules) => if |rules| > 0 { a, b := Lengths(rules, rules[0], count); } else { a, b := 0, 1; }
    case TCall(n) =>
      if count < MAXRULES && n < |rs| { a, b := Lengths(rs, rs[n], count + 1); } else { a, b := 0, 1; }
    case TSeq(p1, p2) => a, b := SeqLengths(rs, t, count);
    case TChoice(p1, p2) =>
      var a1, b1 := Lengths(rs, p1, count);
      var a2, b2 := Lengths(rs, p2, count);
      LenAdds(rs, p1, count, 0);
      LenAdds(rs, p2, count, 0);
      if a1 != b1 { a, b := a1, b1; } else if a2 != b2 { a, b := a2, b2; } else { a, b := a1, a2; }
    case _ =>
  }

  lemma WayThrough(rs: seq<Tree>, t: Tree, count: nat, a: nat, b: nat)
    requires t.TSeq? && Length(rs, t.p1, count, a) && Length(rs, t.p2, count, b)
    ensures Length(rs, t, count, a + b)
  {
    assert a + b - a == b;
  }

  lemma {:induction false} SeqLengths(rs: seq<Tree>, t: Tree, count: nat) returns (a: nat, b: nat)
    requires t.TSeq?
    ensures Length(rs, t, count, a) && Length(rs, t, count, b)
    ensures var l := FixedLenX(rs, t, count, 0); if l < 0 then a != b else a == l && OnlyLength(rs, t, count, l)
    decreases if count < MAXRULES then MAXRULES - count else 0, t, 0
  {
    var a1, b1 := Lengths(rs, t.p1, count);
    var a2, b2 := Lengths(rs, t.p2, count);
    LenAdds(rs, t.p1, count, 0);
    LenAdds(rs, t.p2, count, 0);
    var l := FixedLenX(rs, t.p1, count, 0);
    if l >= 0 { LenAdds(rs, t.p2, count, l); }
    a, b := a1 + a2, if l < 0 then b1 + a2 else a1 + b2;
    WayThrough(rs, t, count, a1, a2);
    WayThrough(rs, t, count, b1, a2);
    WayThrough(rs, t, count, a1, b2);
  }

  /** `fixedlen` gives a number if and only if all ways through the pattern are that long. */
  lemma FixedLenExact(rs: seq<Tree>, t: Tree, n: nat)
    ensures FixedLen(rs, t) == n <==> OnlyLength(rs, t, 0, n)
    ensures FixedLen(rs, t) >= -1
  {
    LenAdds(rs, t, 0, 0);
    var a, b := Lengths(rs, t, 0);
  }
}
