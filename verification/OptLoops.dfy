/** The condition `OptSafe` is exact: it holds if and only if line 762 of lpcode.c makes no difference to the program.
    */
module OptLoops {
  import opened Patterns
  import opened Analysis
  import opened Machine
  import opened CodeGen
  import opened Linking

  /** The two codes differ at some slot that both have, and not in an open call, which is still to be rewritten. */
  ghost predicate Diverge(a: Code, b: Code) {
    exists k :: 0 <= k < |a| && k < |b| && a[k] != b[k] && !a[k].IOpenCall? && !b[k].IOpenCall?
  }

  lemma DivergeFront(a: Code, b: Code, c: Code, d: Code)
    requires Diverge(a, b)
    ensures Diverge(a + c, b + d)
  {
    var k :| 0 <= k < |a| && k < |b| && a[k] != b[k] && !a[k].IOpenCall? && !b[k].IOpenCall?;
    assert (a + c)[k] == a[k] && (b + d)[k] == b[k];
  }

  lemma DivergeBehind(p: Code, a: Code, b: Code)
    requires Diverge(a, b)
    ensures Diverge(p + a, p + b)
  {
    var k :| 0 <= k < |a| && k < |b| && a[k] != b[k] && !a[k].IOpenCall? && !b[k].IOpenCall?;
    assert (p + a)[|p| + k] == a[k] && (p + b)[|p| + k] == b[k];
  }

  lemma NotDiverge(a: Code)
    ensures !Diverge(a, a)
  {
  }

  /** The same code, or codes that diverge. */
  ghost predicate Rel(same: bool, a: Code, b: Code) {
    if same then a == b else Diverge(a, b)
  }

  lemma RelConcat(s: bool, a: Code, b: Code, s': bool, c: Code, d: Code)
    requires Rel(s, a, b) && Rel(s', c, d)
    ensures Rel(s && s', a + c, b + d)
  {
    if !s { DivergeFront(a, b, c, d); } else if !s' { DivergeBehind(a, c, d); }
  }

  /** An instruction with its pad. */
  lemma RelOne(i: Instr, j: Instr)
    requires !i.IOpenCall? && !j.IOpenCall?
    ensures Rel(i == j, [i, IPad], [j, IPad])
  {
    if i != j { assert [i, IPad][0] != [j, IPad][0]; }
  }

  lemma RelTest(test: Test, x: int, y: int)
    ensures Rel(test.NoTest? || x == y, TestCode(test, x), TestCode(test, y))
  {
    if !test.NoTest? && x != y {
      var c, d := TestCode(test, x), TestCode(test, y);
      assert c[0] != d[0] && !c[0].IOpenCall? && !d[0].IOpenCall?;
    }
  }

  // ---------- Each shape of code ----------

  lemma RelChoiceTest(test: Test, s1: bool, c1: Code, d1: Code, s2: bool, c2: Code, d2: Code, emptyp2: bool)
    requires Rel(s1, c1, d1) && Rel(s2, c2, d2) && (emptyp2 ==> s2)
    ensures Rel(s1 && s2, ChoiceTestCode(test, c1, c2, emptyp2), ChoiceTestCode(test, d1, d2, emptyp2))
  {
    hide Diverge, TestCode;
    var j: Code := if emptyp2 then [] else [IJmp(2 + |c2|), IPad];
    var k: Code := if emptyp2 then [] else [IJmp(2 + |d2|), IPad];
    var x, y := TestLen(test) + |c1| + |j|, TestLen(test) + |d1| + |k|;
    RelTest(test, x, y);
    RelOne(IJmp(2 + |c2|), IJmp(2 + |d2|));
    var sj := emptyp2 || |c2| == |d2|;
    var st := test.NoTest? || x == y;
    RelConcat(st, TestCode(test, x), TestCode(test, y), s1, c1, d1);
    RelConcat(st && s1, TestCode(test, x) + c1, TestCode(test, y) + d1, sj, j, k);
    RelConcat(st && s1 && sj, TestCode(test, x) + c1 + j, TestCode(test, y) + d1 + k, s2, c2, d2);
  }

  lemma RelChoice(test: Test, s1: bool, c1: Code, d1: Code, s2: bool, c2: Code, d2: Code)
    requires Rel(s1, c1, d1) && Rel(s2, c2, d2)
    ensures Rel(s1 && s2, ChoiceCode(test, c1, c2), ChoiceCode(test, d1, d2))
  {
    hide Diverge, TestCode;
    var x, y := TestLen(test) + 2 + |c1| + 2, TestLen(test) + 2 + |d1| + 2;
    var i, j: Code := [IChoice(2 + |c1| + 2), IPad], [IChoice(2 + |d1| + 2), IPad];
    var k, l: Code := [ICommit(2 + |c2|), IPad], [ICommit(2 + |d2|), IPad];
    RelTest(test, x, y);
    RelOne(i[0], j[0]);
    RelOne(k[0], l[0]);
    var st, si, sk := test.NoTest? || x == y, |c1| == |d1|, |c2| == |d2|;
    RelConcat(st, TestCode(test, x), TestCode(test, y), si, i, j);
    RelConcat(st && si, TestCode(test, x) + i, TestCode(test, y) + j, s1, c1, d1);
    RelConcat(st && si && s1, TestCode(test, x) + i + c1, TestCode(test, y) + j + d1, sk, k, l);
    RelConcat(st && si && s1 && sk, TestCode(test, x) + i + c1 + k, TestCode(test, y) + j + d1 + l, s2, c2, d2);
  }

  lemma RelRepTest(test: Test, s: bool, c: Code, d: Code)
    requires Rel(s, c, d)
    ensures Rel(s, RepTestCode(test, c), RepTestCode(test, d))
  {
    hide Diverge, TestCode;
    var x, y := TestLen(test) + |c| + 2, TestLen(test) + |d| + 2;
    var j, k: Code := [IJmp(-(TestLen(test) + |c|)), IPad], [IJmp(-(TestLen(test) + |d|)), IPad];
    RelTest(test, x, y);
    RelOne(j[0], k[0]);
    var st := test.NoTest? || x == y;
    RelConcat(st, TestCode(test, x), TestCode(test, y), s, c, d);
    RelConcat(st && s, TestCode(test, x) + c, TestCode(test, y) + d, |c| == |d|, j, k);
  }

  lemma RelRep(test: Test, s: bool, c: Code, d: Code, o: bool, o': bool)
    requires Rel(s, c, d)
    ensures Rel(s && o == o', RepCode(test, c, o), RepCode(test, d, o'))
  {
    hide Diverge, TestCode;
    var x, y := TestLen(test) + 2 + |c| + 2, TestLen(test) + 2 + |d| + 2;
    var i: Code := [if o then IPartialCommit(2) else IChoice(2 + |c| + 2), IPad];
    var j: Code := [if o' then IPartialCommit(2) else IChoice(2 + |d| + 2), IPad];
    var k, l: Code := [IPartialCommit(-|c|), IPad], [IPartialCommit(-|d|), IPad];
    RelTest(test, x, y);
    RelOne(i[0], j[0]);
    RelOne(k[0], l[0]);
    var st, si := test.NoTest? || x == y, i[0] == j[0];
    RelConcat(st, TestCode(test, x), TestCode(test, y), si, i, j);
    RelConcat(st && si, TestCode(test, x) + i, TestCode(test, y) + j, s, c, d);
    RelConcat(st && si && s, TestCode(test, x) + i + c, TestCode(test, y) + j + d, |c| == |d|, k, l);
  }

  lemma RelNot(test: Test, s: bool, c: Code, d: Code)
    requires Rel(s, c, d)
    ensures Rel(s, NotCode(test, c), NotCode(test, d))
  {
    hide Diverge, TestCode;
    var x, y := TestLen(test) + 2 + |c| + 1, TestLen(test) + 2 + |d| + 1;
    var i, j: Code := [IChoice(2 + |c| + 1), IPad], [IChoice(2 + |d| + 1), IPad];
    RelTest(test, x, y);
    RelOne(i[0], j[0]);
    var st, si := test.NoTest? || x == y, |c| == |d|;
    RelConcat(st, TestCode(test, x), TestCode(test, y), si, i, j);
    RelConcat(st && si, TestCode(test, x) + i, TestCode(test, y) + j, s, c, d);
    RelConcat(st && si && s, TestCode(test, x) + i + c, TestCode(test, y) + j + d, true, [IFailTwice], [IFailTwice]);
  }

  /** Code between two parts that are the same, the first with an offset perhaps. */
  lemma RelBetween(s: bool, c: Code, d: Code, front: Code, back: Code)
    requires Rel(s, c, d)
    ensures Rel(s, front + c + back, front + d + back)
  {
    RelConcat(true, front, front, s, c, d);
    RelConcat(s, front + c, front + d, true, back, back);
  }

  lemma RelAndChoice(s: bool, c: Code, d: Code)
    requires Rel(s, c, d)
    ensures var back: Code := [IBackCommit(3), IPad, IFail];
      Rel(s, [IChoice(2 + |c| + 2), IPad] + c + back, [IChoice(2 + |d| + 2), IPad] + d + back)
  {
    hide Diverge;
    var i, j: Code := [IChoice(2 + |c| + 2), IPad], [IChoice(2 + |d| + 2), IPad];
    var back: Code := [IBackCommit(3), IPad, IFail];
    RelOne(i[0], j[0]);
    RelConcat(|c| == |d|, i, j, s, c, d);
    RelConcat(|c| == |d| && s, i + c, j + d, true, back, back);
  }

  // ---------- Grammars ----------

  /** What is no open call stays. */
  lemma {:induction false} CorrectKeeps(code: Code, positions: seq<nat>, k: nat, x: nat)
    requires k <= |code| && x < |code| && !code[x].IOpenCall?
    ensures CorrectFrom(code, positions, k)[x] == code[x]
    decreases |code| - k
  {
    if k < |code| { CorrectKeeps(CorrectOne(code, positions, k), positions, k + 1, x); }
  }

  lemma RelCorrect(s: bool, c: Code, d: Code, ps: seq<nat>, qs: seq<nat>)
    requires Rel(s, c, d) && (s ==> ps == qs)
    ensures Rel(s, CorrectCalls(c, ps), CorrectCalls(d, qs))
  {
    if !s {
      var k :| 0 <= k < |c| && k < |d| && c[k] != d[k] && !c[k].IOpenCall? && !d[k].IOpenCall?;
      CorrectKeeps(c, ps, 0, k);
      CorrectKeeps(d, qs, 0, k);
    }
  }

  lemma RelGrammar(s: bool, c: Code, d: Code)
    requires Rel(s, c, d)
    ensures Rel(s, GrammarCode(c), GrammarCode(d))
  {
    hide Diverge;
    var front: Code := [ICall(4), IPad];
    var i, j: Code := [IJmp(2 + |c|), IPad], [IJmp(2 + |d|), IPad];
    RelOne(i[0], j[0]);
    RelConcat(true, front, front, |c| == |d|, i, j);
    RelConcat(|c| == |d|, front + i, front + j, s, c, d);
    assert GrammarCode(c) == front + i + c && GrammarCode(d) == front + j + d;
  }

  ghost predicate RulesSafe(rules: seq<Tree>, depth: nat, ver: Version, k: nat) {
    forall j :: k <= j < |rules| ==> OptSafe(rules, depth, ver, rules[j], false, FULL)
  }

  /** The generator with line 762 put right. */
  function Right(ver: Version): Version {
    ver.(passOpt := false)
  }

  ghost predicate RuleRel(rules: seq<Tree>, depth: nat, ver: Version, k: nat)
    requires k < |rules|
  {
    Rel(OptSafe(rules, depth, ver, rules[k], false, FULL),
        Gen(rules, depth, ver, rules[k], false, NoTest, FULL),
          Gen(rules, depth, Right(ver), rules[k], false, NoTest, FULL))
  }

  lemma {:induction false} RelRules(t: Tree, depth: nat, ver: Version, k: nat, at: nat)
    requires t.TGrammar? && k <= |t.rules| && forall j :: 0 <= j < |t.rules| ==> RuleRel(t.rules, depth, ver, j)
    ensures Rel(RulesSafe(t.rules, depth, ver, k), RulesCode(t, depth, ver, k), RulesCode(t, depth, Right(ver), k))
    ensures RulesSafe(t.rules, depth, ver, k) ==>
      RulePositions(t, depth, ver, k, at) == RulePositions(t, depth, Right(ver), k, at)
    decreases |t.rules| - k
  {
    hide Gen, OptSafe, Diverge;
    var rules := t.rules;
    if k < |rules| {
      var c := Gen(rules, depth, ver, rules[k], false, NoTest, FULL);
      var d := Gen(rules, depth, Right(ver), rules[k], false, NoTest, FULL);
      assert RuleRel(rules, depth, ver, k);
      RelRules(t, depth, ver, k + 1, at + |c| + 1);
      var s, s' := OptSafe(rules, depth, ver, rules[k], false, FULL), RulesSafe(rules, depth, ver, k + 1);
      RelConcat(s, c, d, true, [IRet], [IRet]);
      RelConcat(s, c + [IRet], d + [IRet], s', RulesCode(t, depth, ver, k + 1), RulesCode(t, depth, Right(ver), k + 1));
      assert RulesSafe(rules, depth, ver, k) <==> s && s';
    }
  }

  // ---------- Whole patterns ----------

  /** Code that was handed `opt` against code that was not. */
  lemma {:induction false} MixedRel(rs: seq<Tree>, depth: nat, ver: Version, t: Tree, tt: Test)
    requires ver.passOpt
    ensures Rel(!UsesOpt(rs, depth, ver, t) && OptSafe(rs, depth, ver, t, false, FULL),
                Gen(rs, depth, ver, t, true, tt, FULL), Gen(rs, depth, Right(ver), t, false, tt, FULL))
    decreases t, 2
  {
    hide GetFirst, HeadFail, FixedLen, Diverge, TestCode;
    var ver' := Right(ver);
    match t
    case TChoice(p1, p2) => MixedChoice(rs, depth, ver, t);
    case TRep(p) =>
      if !IsCharset(p) {
        var f := GetFirst(rs, p, FULL, depth);
        if RepByTest(rs, depth, p, FULL) {
          var test := CodeTest(f.cs, false);
          MixedRel(rs, depth, ver, p, test);
          RelRepTest(test, !UsesOpt(rs, depth, ver, p) && OptSafe(rs, depth, ver, p, false, FULL),
                     Gen(rs, depth, ver, p, true, test, FULL), Gen(rs, depth, ver', p, false, test, FULL));
        } else {
          SafeRel(rs, depth, ver, p, false, NoTest, FULL);
          RelRep(CodeTest(f.cs, f.empty), OptSafe(rs, depth, ver, p, false, FULL),
                 Gen(rs, depth, ver, p, false, NoTest, FULL), Gen(rs, depth, ver', p, false, NoTest, FULL), true,
                   false);
        }
      }
    case TSeq(p1, p2) =>
      var fl1, tt2 := Follow1(rs, depth, p1, p2, FULL), Test2(rs, p1, tt);
      SafeRel(rs, depth, ver, p1, false, tt, fl1);
      MixedRel(rs, depth, ver, p2, tt2);
      RelConcat(OptSafe(rs, depth, ver, p1, false, fl1), Gen(rs, depth, ver, p1, false, tt, fl1),
                Gen(rs, depth, ver', p1, false, tt, fl1),
                !UsesOpt(rs, depth, ver, p2) && OptSafe(rs, depth, ver, p2, false, FULL),
                Gen(rs, depth, ver, p2, true, tt2, FULL), Gen(rs, depth, ver', p2, false, tt2, FULL));
    case _ => SafeRel(rs, depth, ver, t, false, tt, FULL);
  }

  lemma PartialDiverges(test: Test, c: Code, c1: Code, c2: Code)
    ensures Diverge([IPartialCommit(2), IPad] + c, ChoiceCode(test, c1, c2))
  {
    var a, b := [IPartialCommit(2), IPad] + c, ChoiceCode(test, c1, c2);
    assert a[0] == IPartialCommit(2);
    if test.NoTest? { assert b[0] == IChoice(2 + |c1| + 2); } else { TestFirst(test, TestLen(test) + 2 + |c1| + 2); }
  }

  lemma TestFirst(test: Test, off: int)
    requires !test.NoTest?
    ensures var i := TestCode(test, off)[0]; !i.IPartialCommit? && !i.IOpenCall?
  {
  }

  lemma {:induction false} MixedChoice(rs: seq<Tree>, depth: nat, ver: Version, t: Tree)
    requires ver.passOpt && t.TChoice?
    ensures Rel(!UsesOpt(rs, depth, ver, t) && OptSafe(rs, depth, ver, t, false, FULL),
                GenChoice(rs, depth, ver, t, true, FULL), GenChoice(rs, depth, Right(ver), t, false, FULL))
    decreases t, 0
  {
    hide GetFirst, HeadFail, FixedLen, Diverge, TestCode, Gen, ChoiceByTest, ChoiceCode, ChoiceTestCode;
    var p1, p2, ver' := t.p1, t.p2, Right(ver);
    var f1 := GetFirst(rs, p1, FULL, depth);
    var c2, d2 := Gen(rs, depth, ver, p2, true, NoTest, FULL), Gen(rs, depth, ver', p2, false, NoTest, FULL);
    MixedRel(rs, depth, ver, p2, NoTest);
    var s2 := !UsesOpt(rs, depth, ver, p2) && OptSafe(rs, depth, ver, p2, false, FULL);
    if ChoiceByTest(rs, depth, p1, p2, FULL) {
      var test := CodeTest(f1.cs, false);
      SafeRel(rs, depth, ver, p1, false, test, FULL);
      RelChoiceTest(test, OptSafe(rs, depth, ver, p1, false, FULL), Gen(rs, depth, ver, p1, false, test, FULL),
                    Gen(rs, depth, ver', p1, false, test, FULL), s2, c2, d2, p2.TTrue?);
    } else {
      var test := CodeTest(f1.cs, f1.empty);
      var d1 := Gen(rs, depth, ver', p1, p2.TTrue?, test, FULL);
      if p2.TTrue? {
        PartialDiverges(test, Gen(rs, depth, ver, p1, true, NoTest, FULL), d1, d2);
      } else {
        SafeRel(rs, depth, ver, p1, false, test, FULL);
        RelChoice(test, OptSafe(rs, depth, ver, p1, false, FULL), Gen(rs, depth, ver, p1, false, test, FULL), d1, s2,
                  c2, d2);
      }
    }
  }

  /** Code from the source as it stands against code from the intended source. */
  lemma {:induction false} SafeRel(rs: seq<Tree>, depth: nat, ver: Version, t: Tree, opt: bool, tt: Test, fl: Charset)
    requires ver.passOpt
    ensures Rel(OptSafe(rs, depth, ver, t, opt, fl),
                Gen(rs, depth, ver, t, opt, tt, fl), Gen(rs, depth, Right(ver), t, opt, tt, fl))
    decreases t, 1
  {
    hide GetFirst, HeadFail, FixedLen, Diverge, TestCode, HasCaptures, GenChoice, GenRep, CodeTest;
    var ver' := Right(ver);
    match t
    case TChoice(_, _) => SafeChoice(rs, depth, ver, t, opt, fl);
    case TRep(_) => SafeRep(rs, depth, ver, t, opt, fl);
    case TSeq(p1, p2) =>
      var fl1, tt2 := Follow1(rs, depth, p1, p2, fl), Test2(rs, p1, tt);
      SafeRel(rs, depth, ver, p1, false, tt, fl1);
      SafeRel(rs, depth, ver, p2, opt, tt2, fl);
      RelConcat(OptSafe(rs, depth, ver, p1, false, fl1), Gen(rs, depth, ver, p1, false, tt, fl1),
                Gen(rs, depth, ver', p1, false, tt, fl1), OptSafe(rs, depth, ver, p2, opt, fl),
                Gen(rs, depth, ver, p2, opt, tt2, fl), Gen(rs, depth, ver', p2, opt, tt2, fl));
    case TNot(p) => if !HeadFail(rs, p, depth) { SafeNot(rs, depth, ver, t); }
    case TAnd(p) => SafeAnd(rs, depth, ver, t, tt);
    case TCapture(_, _, p) => SafeCapture(rs, depth, ver, t, tt, fl);
    case TBehind(n, p) =>
      SafeRel(rs, depth, ver, p, false, NoTest, FULL);
      var front: Code := if n > 0 then [IBehind(n)] else [];
      RelConcat(true, front, front, OptSafe(rs, depth, ver, p, false, FULL),
                Gen(rs, depth, ver, p, false, NoTest, FULL),
                Gen(rs, depth, ver', p, false, NoTest, FULL));
    case TGrammar(rules) => SafeGrammar(rs, depth, ver, t);
    case _ =>
  }

  lemma {:induction false} SafeChoice(rs: seq<Tree>, depth: nat, ver: Version, t: Tree, opt: bool, fl: Charset)
    requires ver.passOpt && t.TChoice?
    ensures Rel(OptSafe(rs, depth, ver, t, opt, fl),
                GenChoice(rs, depth, ver, t, opt, fl), GenChoice(rs, depth, Right(ver), t, opt, fl))
    decreases t, 0
  {
    hide GetFirst, HeadFail, FixedLen, Diverge, TestCode, Gen, ChoiceByTest, ChoiceCode, ChoiceTestCode;
    var p1, p2, ver' := t.p1, t.p2, Right(ver);
    var f1 := GetFirst(rs, p1, FULL, depth);
    var c2, d2 := Gen(rs, depth, ver, p2, opt, NoTest, fl), Gen(rs, depth, ver', p2, opt, NoTest, fl);
    SafeRel(rs, depth, ver, p2, opt, NoTest, fl);
    var s2 := OptSafe(rs, depth, ver, p2, opt, fl);
    if ChoiceByTest(rs, depth, p1, p2, fl) {
      var test := CodeTest(f1.cs, false);
      SafeRel(rs, depth, ver, p1, false, test, fl);
      RelChoiceTest(test, OptSafe(rs, depth, ver, p1, false, fl), Gen(rs, depth, ver, p1, false, test, fl),
                    Gen(rs, depth, ver', p1, false, test, fl), s2, c2, d2, p2.TTrue?);
    } else if opt && p2.TTrue? {
      SafeRel(rs, depth, ver, p1, true, NoTest, FULL);
      var front: Code := [IPartialCommit(2), IPad];
      RelConcat(true, front, front, OptSafe(rs, depth, ver, p1, true, FULL),
                Gen(rs, depth, ver, p1, true, NoTest, FULL),
                Gen(rs, depth, ver', p1, true, NoTest, FULL));
    } else {
      var test := CodeTest(f1.cs, f1.empty);
      SafeRel(rs, depth, ver, p1, p2.TTrue?, test, FULL);
      RelChoice(test, OptSafe(rs, depth, ver, p1, p2.TTrue?, FULL), Gen(rs, depth, ver, p1, p2.TTrue?, test, FULL),
                Gen(rs, depth, ver', p1, p2.TTrue?, test, FULL), s2, c2, d2);
    }
  }

  lemma {:induction false} SafeRep(rs: seq<Tree>, depth: nat, ver: Version, t: Tree, opt: bool, fl: Charset)
    requires ver.passOpt && t.TRep?
    ensures Rel(OptSafe(rs, depth, ver, t, opt, fl),
                GenRep(rs, depth, ver, t, opt, fl), GenRep(rs, depth, Right(ver), t, opt, fl))
    decreases t, 0
  {
    hide GetFirst, HeadFail, FixedLen, Diverge, TestCode, Gen, RepByTest, UsesOpt, RepCode, RepTestCode;
    var p, ver' := t.p, Right(ver);
    if IsCharset(p) {
      assert OptSafe(rs, depth, ver, p, false, FULL);
    } else {
      var f := GetFirst(rs, p, FULL, depth);
      var s := OptSafe(rs, depth, ver, p, false, FULL);
      if RepByTest(rs, depth, p, fl) {
        var test := CodeTest(f.cs, false);
        var d := Gen(rs, depth, ver', p, false, test, FULL);
        if opt {
          MixedRel(rs, depth, ver, p, test);
          RelRepTest(test, !UsesOpt(rs, depth, ver, p) && s, Gen(rs, depth, ver, p, true, test, FULL), d);
        } else {
          SafeRel(rs, depth, ver, p, false, test, FULL);
          RelRepTest(test, s, Gen(rs, depth, ver, p, false, test, FULL), d);
        }
      } else {
        SafeRel(rs, depth, ver, p, false, NoTest, FULL);
        RelRep(CodeTest(f.cs, f.empty), s, Gen(rs, depth, ver, p, false, NoTest, FULL),
               Gen(rs, depth, ver', p, false, NoTest, FULL), opt, opt);
      }
    }
  }

  lemma {:induction false} SafeNot(rs: seq<Tree>, depth: nat, ver: Version, t: Tree)
    requires ver.passOpt && t.TNot? && !HeadFail(rs, t.p, depth)
    ensures Rel(OptSafe(rs, depth, ver, t.p, false, FULL), GenNot(rs, depth, ver, t), GenNot(rs, depth, Right(ver), t))
    decreases t, 0
  {
    hide GetFirst, HeadFail, Diverge, TestCode, Gen, NotCode;
    var f := GetFirst(rs, t.p, FULL, depth);
    SafeRel(rs, depth, ver, t.p, false, NoTest, FULL);
    RelNot(CodeTest(f.cs, f.empty), OptSafe(rs, depth, ver, t.p, false, FULL),
           Gen(rs, depth, ver, t.p, false, NoTest, FULL), Gen(rs, depth, Right(ver), t.p, false, NoTest, FULL));
  }

  lemma {:induction false} SafeAnd(rs: seq<Tree>, depth: nat, ver: Version, t: Tree, tt: Test)
    requires ver.passOpt && t.TAnd?
    ensures Rel(OptSafe(rs, depth, ver, t.p, false, FULL), GenAnd(rs, depth, ver, t, tt),
                GenAnd(rs, depth, Right(ver), t, tt))
    decreases t, 0
  {
    hide FixedLen, HasCaptures, Diverge, Gen;
    var c, d := Gen(rs, depth, ver, t.p, false, tt, FULL), Gen(rs, depth, Right(ver), t.p, false, tt, FULL);
    var s, n := OptSafe(rs, depth, ver, t.p, false, FULL), FixedLen(rs, t.p);
    SafeRel(rs, depth, ver, t.p, false, tt, FULL);
    RelAndChoice(s, c, d);
    var back: Code := if n > 0 then [IBehind(n)] else [];
    RelConcat(s, c, d, true, back, back);
  }

  lemma {:induction false} SafeCapture(rs: seq<Tree>, depth: nat, ver: Version, t: Tree, tt: Test, fl: Charset)
    requires ver.passOpt && t.TCapture?
    ensures Rel(OptSafe(rs, depth, ver, t.p, false, fl), GenCapture(rs, depth, ver, t, tt, fl),
                GenCapture(rs, depth, Right(ver), t, tt, fl))
    decreases t, 0
  {
    hide FixedLen, HasCaptures, Diverge, Gen;
    var c, d := Gen(rs, depth, ver, t.p, false, tt, fl), Gen(rs, depth, Right(ver), t.p, false, tt, fl);
    var s, n := OptSafe(rs, depth, ver, t.p, false, fl), FixedLen(rs, t.p);
    SafeRel(rs, depth, ver, t.p, false, tt, fl);
    RelBetween(s, c, d, [IOpenCapture(t.kind, t.key)], [ICloseCapture]);
    if n >= 0 { RelConcat(s, c, d, true, [IFullCapture(t.kind, t.key, n)], [IFullCapture(t.kind, t.key, n)]); }
  }

  lemma {:induction false} SafeGrammar(rs: seq<Tree>, depth: nat, ver: Version, t: Tree)
    requires ver.passOpt && t.TGrammar?
    ensures Rel(OptSafe(rs, depth, ver, t, false, FULL), Gen(rs, depth, ver, t, false, NoTest, FULL),
                Gen(rs, depth, Right(ver), t, false, NoTest, FULL))
    decreases t, 0
  {
    hide Diverge, GrammarCode, CorrectCalls, RulesCode, RulePositions;
    var rules := t.rules;
    forall k | 0 <= k < |rules| ensures RuleRel(rules, depth, ver, k) {
      SafeRel(rules, depth, ver, rules[k], false, NoTest, FULL);
    }
    RelRules(t, depth, ver, 0, 0);
    var s := RulesSafe(rules, depth, ver, 0);
    var c, d := RulesCode(t, depth, ver, 0), RulesCode(t, depth, Right(ver), 0);
    var ps, qs := RulePositions(t, depth, ver, 0, 0), RulePositions(t, depth, Right(ver), 0, 0);
    RelCorrect(s, c, d, ps, qs);
    RelGrammar(s, CorrectCalls(c, ps), CorrectCalls(d, qs));
  }

  /** `OptSafe` holds if and only if the program is the one that the generator gives with line 762 put right. */
  lemma OptSafeExact(depth: nat, ver: Version, t: Tree)
    requires ver.passOpt
    ensures OptSafe([], depth, ver, t, false, FULL) <==> CompileTree(depth, ver, t) == CompileTree(depth, Right(ver), t)
  {
    hide Gen, OptSafe, Diverge;
    var c, d := Gen([], depth, ver, t, false, NoTest, FULL), Gen([], depth, Right(ver), t, false, NoTest, FULL);
    SafeRel([], depth, ver, t, false, NoTest, FULL);
    RelConcat(OptSafe([], depth, ver, t, false, FULL), c, d, true, [IEnd], [IEnd]);
    NotDiverge(c + [IEnd]);
  }
}
