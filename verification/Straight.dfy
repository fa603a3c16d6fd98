/** What the peephole pass of lpcode.c is for: after it no instruction leads to a jump, and no jump leads to an
    instruction that it could have become. */
module Straight {
  import opened Patterns
  import opened Analysis
  import opened Machine
  import opened CodeGen
  import opened Linking
  import opened Peephole
  import opened Chains
  import opened Emitter
  import opened Compile

  // ---------- Instructions and their slots ----------

  /** From `i` on there are whole instructions, the slots behind their first ones being pads. */
  predicate Tiled(c: Code, i: nat)
    decreases |c| - i
  {
    i == |c| ||
    (&& i < |c| && i + Size(c[i]) <= |c| && (forall x :: i < x < i + Size(c[i]) ==> c[x].IPad?)
     && Tiled(c, i + Size(c[i])))
  }

  lemma {:induction false} TiledBehind(a: Code, b: Code, j: nat)
    requires Tiled(b, j) && j <= |b|
    ensures Tiled(a + b, |a| + j)
    decreases |b| - j
  {
    if j < |b| {
      var n := Size(b[j]);
      assert (a + b)[|a| + j] == b[j];
      forall x | |a| + j < x < |a| + j + n ensures (a + b)[x].IPad? { assert (a + b)[x] == b[x - |a|]; }
      TiledBehind(a, b, j + n);
    }
  }

  lemma {:induction false} TiledConcat(a: Code, b: Code, i: nat)
    requires Tiled(a, i) && Tiled(b, 0) && i <= |a|
    ensures Tiled(a + b, i)
    decreases |a| - i
  {
    if i == |a| {
      TiledBehind(a, b, 0);
    } else {
      TiledConcat(a, b, i + Size(a[i]));
    }
  }

  /** Codes with the same slots. */
  lemma {:induction false} TiledSame(a: Code, b: Code, i: nat)
    requires Tiled(a, i) && i <= |a| == |b|
    requires forall x :: 0 <= x < |a| ==> Size(a[x]) == Size(b[x]) && (a[x].IPad? ==> b[x].IPad?)
    ensures Tiled(b, i)
    decreases |a| - i
  {
    if i < |a| { TiledSame(a, b, i + Size(a[i])); }
  }

  lemma TiledOne(ins: Instr)
    ensures Size(ins) == 1 ==> Tiled([ins], 0)
    ensures Size(ins) == 2 ==> Tiled([ins, IPad], 0)
  {
  }

  lemma TiledWide(ins: Instr, n: nat)
    requires Size(ins) == n + 1
    ensures Tiled([ins] + Pads(n), 0)
  {
    var c := [ins] + Pads(n);
    assert c[0] == ins && |c| == n + 1;
    forall x | 0 < x < n + 1 ensures c[x].IPad? { assert c[x] == Pads(n)[x - 1]; }
    assert Tiled(c, n + 1);
  }

  lemma TiledTest(test: Test, off: int)
    ensures Tiled(TestCode(test, off), 0)
  {
    TiledOne(IJmp(off));
    TiledOne(ITestAny(off));
    if test.TestOne? { TiledOne(ITestChar(test.c, off)); }
    if test.TestMany? { TiledWide(ITestSet(test.cs, off), 9); }
  }

  lemma TiledThree(a: Code, b: Code, c: Code)
    requires Tiled(a, 0) && Tiled(b, 0) && Tiled(c, 0)
    ensures Tiled(a + b + c, 0)
  {
    TiledConcat(a, b, 0);
    TiledConcat(a + b, c, 0);
  }

  lemma TiledFour(a: Code, b: Code, c: Code, d: Code)
    requires Tiled(a, 0) && Tiled(b, 0) && Tiled(c, 0) && Tiled(d, 0)
    ensures Tiled(a + b + c + d, 0)
  {
    TiledThree(a, b, c);
    TiledConcat(a + b + c, d, 0);
  }

  // ---------- Generated code ----------

  lemma {:induction false} GenTiled(rs: seq<Tree>, depth: nat, ver: Version, t: Tree, opt: bool, tt: Test, fl: Charset)
    ensures Tiled(Gen(rs, depth, ver, t, opt, tt, fl), 0)
    decreases t, 1, 0
  {
    hide GetFirst, HeadFail, FixedLen, TestCode, GenChoice, GenRep, GenNot, GenAnd, GenCapture, Tiled, GrammarCode;
    NoneTiled();
    match t
    case TChar(c) => TiledOne(IChar(c)); TiledOne(IAny);
    case TAny => TiledOne(IAny);
    case TSet(cs) => CharsetTiled(cs, tt);
    case TTrue =>
    case TFalse => TiledOne(IFail);
    case TChoice(_, _) => ChoiceTiled(rs, depth, ver, t, opt, fl);
    case TRep(_) => RepTiled(rs, depth, ver, t, opt, fl);
    case TBehind(n, p) =>
      GenTiled(rs, depth, ver, p, false, NoTest, FULL);
      TiledOne(IBehind(n));
      TiledConcat(if n > 0 then [IBehind(n)] else [], Gen(rs, depth, ver, p, false, NoTest, FULL), 0);
    case TNot(_) => NotTiled(rs, depth, ver, t);
    case TAnd(_) => AndTiled(rs, depth, ver, t, tt);
    case TCapture(_, _, _) => CaptureTiled(rs, depth, ver, t, tt, fl);
    case TGrammar(_) => GrammarTiled(depth, ver, t);
    case TCall(n) => TiledOne(IOpenCall(RuleNumber(ver, n)));
    case TSeq(p1, p2) =>
      var fl1, tt2 := Follow1(rs, depth, p1, p2, fl), Test2(rs, p1, tt);
      GenTiled(rs, depth, ver, p1, false, tt, fl1);
      GenTiled(rs, depth, ver, p2, opt, tt2, fl);
      TiledConcat(Gen(rs, depth, ver, p1, false, tt, fl1), Gen(rs, depth, ver, p2, opt, tt2, fl), 0);
  }

  lemma NoneTiled()
    ensures Tiled([], 0)
  {
  }

  lemma CharsetTiled(cs: Charset, tt: Test)
    ensures Tiled(CodeCharset(cs, tt), 0)
  {
    hide CharsetType;
    TiledWide(ISet(cs), 8);
    TiledOne(IAny);
    TiledOne(IFail);
    var k := CharsetType(cs);
    if k.CsSingle? { TiledOne(IChar(k.c)); }
  }

  lemma {:induction false} ChoiceTiled(rs: seq<Tree>, depth: nat, ver: Version, t: Tree, opt: bool, fl: Charset)
    requires t.TChoice?
    ensures Tiled(GenChoice(rs, depth, ver, t, opt, fl), 0)
    decreases t, 0, 0
  {
    hide GetFirst, HeadFail, TestCode, Gen, Tiled, ChoiceByTest, CodeTest, ChoiceTestCode, ChoiceCode;
    var f1 := GetFirst(rs, t.p1, FULL, depth);
    var c2 := Gen(rs, depth, ver, t.p2, opt, NoTest, fl);
    GenTiled(rs, depth, ver, t.p2, opt, NoTest, fl);
    if ChoiceByTest(rs, depth, t.p1, t.p2, fl) {
      var test := CodeTest(f1.cs, false);
      var c1 := Gen(rs, depth, ver, t.p1, false, test, fl);
      GenTiled(rs, depth, ver, t.p1, false, test, fl);
      ChoiceTestTiled(test, c1, c2, t.p2.TTrue?);
    } else if opt && t.p2.TTrue? {
      GenTiled(rs, depth, ver, t.p1, true, NoTest, FULL);
      TiledOne(IPartialCommit(2));
      TiledConcat([IPartialCommit(2), IPad], Gen(rs, depth, ver, t.p1, true, NoTest, FULL), 0);
    } else {
      var test := CodeTest(f1.cs, f1.empty);
      GenTiled(rs, depth, ver, t.p1, t.p2.TTrue?, test, FULL);
      ChoiceCodeTiled(test, Gen(rs, depth, ver, t.p1, t.p2.TTrue?, test, FULL), c2);
    }
  }

  lemma ChoiceTestTiled(test: Test, c1: Code, c2: Code, emptyp2: bool)
    requires Tiled(c1, 0) && Tiled(c2, 0)
    ensures Tiled(ChoiceTestCode(test, c1, c2, emptyp2), 0)
  {
    hide Tiled, TestCode;
    var jmp: Code := if emptyp2 then [] else [IJmp(2 + |c2|), IPad];
    NoneTiled();
    TiledOne(IJmp(2 + |c2|));
    TiledTest(test, TestLen(test) + |c1| + |jmp|);
    TiledFour(TestCode(test, TestLen(test) + |c1| + |jmp|), c1, jmp, c2);
  }

  lemma ChoiceCodeTiled(test: Test, c1: Code, c2: Code)
    requires Tiled(c1, 0) && Tiled(c2, 0)
    ensures Tiled(ChoiceCode(test, c1, c2), 0)
  {
    hide Tiled, TestCode;
    var off := TestLen(test) + 2 + |c1| + 2;
    var choice, commit: Code := [IChoice(2 + |c1| + 2), IPad], [ICommit(2 + |c2|), IPad];
    TiledOne(choice[0]);
    TiledOne(commit[0]);
    TiledTest(test, off);
    TiledFour(TestCode(test, off), choice, c1, commit);
    TiledConcat(TestCode(test, off) + choice + c1 + commit, c2, 0);
  }

  lemma {:induction false} RepTiled(rs: seq<Tree>, depth: nat, ver: Version, t: Tree, opt: bool, fl: Charset)
    requires t.TRep?
    ensures Tiled(GenRep(rs, depth, ver, t, opt, fl), 0)
    decreases t, 0, 0
  {
    hide GetFirst, HeadFail, TestCode, Gen, Tiled, RepByTest, CodeTest;
    if IsCharset(t.p) {
      TiledWide(ISpan(ToCharset(t.p)), 8);
    } else {
      var f := GetFirst(rs, t.p, FULL, depth);
      if RepByTest(rs, depth, t.p, fl) {
        var test := CodeTest(f.cs, false);
        var c := Gen(rs, depth, ver, t.p, ver.passOpt && opt, test, FULL);
        GenTiled(rs, depth, ver, t.p, ver.passOpt && opt, test, FULL);
        var jmp: Code := [IJmp(-(TestLen(test) + |c|)), IPad];
        TiledOne(jmp[0]);
        TiledTest(test, TestLen(test) + |c| + 2);
        TiledThree(TestCode(test, TestLen(test) + |c| + 2), c, jmp);
      } else {
        var test := CodeTest(f.cs, f.empty);
        var c := Gen(rs, depth, ver, t.p, false, NoTest, FULL);
        GenTiled(rs, depth, ver, t.p, false, NoTest, FULL);
        var first: Code := [if opt then IPartialCommit(2) else IChoice(2 + |c| + 2), IPad];
        var last: Code := [IPartialCommit(-|c|), IPad];
        TiledOne(first[0]);
        TiledOne(last[0]);
        TiledTest(test, TestLen(test) + 2 + |c| + 2);
        TiledFour(TestCode(test, TestLen(test) + 2 + |c| + 2), first, c, last);
      }
    }
  }

  lemma {:induction false} NotTiled(rs: seq<Tree>, depth: nat, ver: Version, t: Tree)
    requires t.TNot?
    ensures Tiled(GenNot(rs, depth, ver, t), 0)
    decreases t, 0, 0
  {
    hide GetFirst, HeadFail, TestCode, Gen, Tiled, CodeTest;
    var f := GetFirst(rs, t.p, FULL, depth);
    var test := CodeTest(f.cs, f.empty);
    TiledOne(IFail);
    TiledOne(IFailTwice);
    if HeadFail(rs, t.p, depth) {
      TiledTest(test, TestLen(test) + 1);
      TiledConcat(TestCode(test, TestLen(test) + 1), [IFail], 0);
    } else {
      var c := Gen(rs, depth, ver, t.p, false, NoTest, FULL);
      GenTiled(rs, depth, ver, t.p, false, NoTest, FULL);
      TiledOne(IChoice(2 + |c| + 1));
      TiledTest(test, TestLen(test) + 2 + |c| + 1);
      TiledFour(TestCode(test, TestLen(test) + 2 + |c| + 1), [IChoice(2 + |c| + 1), IPad], c, [IFailTwice]);
    }
  }

  lemma {:induction false} AndTiled(rs: seq<Tree>, depth: nat, ver: Version, t: Tree, tt: Test)
    requires t.TAnd?
    ensures Tiled(GenAnd(rs, depth, ver, t, tt), 0)
    decreases t, 0, 0
  {
    hide FixedLen, HasCaptures, Gen, Tiled;
    var n := FixedLen(rs, t.p);
    var c := Gen(rs, depth, ver, t.p, false, tt, FULL);
    GenTiled(rs, depth, ver, t.p, false, tt, FULL);
    NoneTiled();
    TiledOne(IFail);
    TiledOne(IBackCommit(3));
    TiledOne(IChoice(2 + |c| + 2));
    if n > 0 { TiledOne(IBehind(n)); }
    TiledConcat(c, if n > 0 then [IBehind(n)] else [], 0);
    TiledFour([IChoice(2 + |c| + 2), IPad], c, [IBackCommit(3), IPad], [IFail]);
    assert [IChoice(2 + |c| + 2), IPad] + c + [IBackCommit(3), IPad, IFail]
      == [IChoice(2 + |c| + 2), IPad] + c + [IBackCommit(3), IPad] + [IFail];
  }

  lemma {:induction false} CaptureTiled(rs: seq<Tree>, depth: nat, ver: Version, t: Tree, tt: Test, fl: Charset)
    requires t.TCapture?
    ensures Tiled(GenCapture(rs, depth, ver, t, tt, fl), 0)
    decreases t, 0, 0
  {
    hide FixedLen, HasCaptures, Gen, Tiled;
    var len := FixedLen(rs, t.p);
    var c := Gen(rs, depth, ver, t.p, false, tt, fl);
    GenTiled(rs, depth, ver, t.p, false, tt, fl);
    TiledOne(IOpenCapture(t.kind, t.key));
    TiledOne(ICloseCapture);
    TiledThree([IOpenCapture(t.kind, t.key)], c, [ICloseCapture]);
    if len >= 0 {
      TiledOne(IFullCapture(t.kind, t.key, len));
      TiledConcat(c, [IFullCapture(t.kind, t.key, len)], 0);
    }
  }

  lemma {:induction false} RulesTiled(depth: nat, ver: Version, t: Tree, k: nat)
    requires t.TGrammar? && k <= |t.rules|
    requires forall j :: 0 <= j < |t.rules| ==> Tiled(Gen(t.rules, depth, ver, t.rules[j], false, NoTest, FULL), 0)
    ensures Tiled(RulesCode(t, depth, ver, k), 0)
    decreases |t.rules| - k
  {
    hide Gen, Tiled;
    NoneTiled();
    if k < |t.rules| {
      RulesTiled(depth, ver, t, k + 1);
      TiledOne(IRet);
      TiledThree(Gen(t.rules, depth, ver, t.rules[k], false, NoTest, FULL), [IRet], RulesCode(t, depth, ver, k + 1));
    }
  }

  /** Linking changes no sizes. */
  lemma {:induction false} CorrectTiled(c: Code, ps: seq<nat>, k: nat)
    requires Tiled(c, 0) && k <= |c|
    ensures Tiled(CorrectFrom(c, ps, k), 0)
    decreases |c| - k
  {
    hide Tiled, JumpsToRet;
    if k < |c| {
      TiledSame(c, CorrectOne(c, ps, k), 0);
      CorrectTiled(CorrectOne(c, ps, k), ps, k + 1);
    }
  }

  lemma {:induction false} GrammarTiled(depth: nat, ver: Version, t: Tree)
    requires t.TGrammar?
    ensures Tiled(GrammarCode(CorrectCalls(RulesCode(t, depth, ver, 0), RulePositions(t, depth, ver, 0, 0))), 0)
    decreases t, 0, 0
  {
    hide Gen, Tiled, RulesCode, RulePositions;
    forall j | 0 <= j < |t.rules| ensures Tiled(Gen(t.rules, depth, ver, t.rules[j], false, NoTest, FULL), 0) {
      GenTiled(t.rules, depth, ver, t.rules[j], false, NoTest, FULL);
    }
    RulesTiled(depth, ver, t, 0);
    var c := RulesCode(t, depth, ver, 0);
    CorrectTiled(c, RulePositions(t, depth, ver, 0, 0), 0);
    TiledOne(ICall(4));
    TiledOne(IJmp(2 + |c|));
    TiledThree([ICall(4), IPad], [IJmp(2 + |c|), IPad], CorrectCalls(c, RulePositions(t, depth, ver, 0, 0)));
    assert [ICall(4), IPad] + [IJmp(2 + |c|), IPad] == [ICall(4), IPad, IJmp(2 + |c|), IPad];
  }

  // ---------- The pass ----------

  /** What leads on from slot `x` leads to no jump; and if it is a jump, to nothing that it could have become. */
  predicate Direct(c: Code, x: nat)
    requires x < |c|
  {
    && (HasLabel(c[x]) ==> Stops(c, x + c[x].off))
    && (c[x].IJmp? ==>
      var y := x + c[x].off;
      Stops(c, y) && (0 <= y < |c| ==> !Unconditional(c[y]) && !UnconditionalLabel(c[y])))
  }

  /** Only the instruction at `i` has changed: one with a label has another offset; a jump may have become something
      else, with a no-op behind it if that is shorter. */
  predicate Changed(a: Code, b: Code, i: nat)
    requires i < |a|
  {
    && |a| == |b| && (forall x :: 0 <= x < |a| && x != i && x != i + 1 ==> a[x] == b[x])
    && (HasLabel(a[i]) ==> HasLabel(b[i]) && b[i] == Relabel(a[i], b[i].off))
    && (HasLabel(a[i]) || a[i].IJmp?)
    && i + 1 < |a| && (b[i + 1] == a[i + 1] || (a[i].IJmp? && b[i + 1].IAny?))
    && (a[i].IJmp? ==> Size(b[i]) == 2 || (Size(b[i]) == 1 && b[i + 1].IAny?))
    && (Size(b[i]) > 1 ==> b[i + 1] == a[i + 1])
  }

  lemma DirectKept(a: Code, b: Code, i: nat, x: nat)
    requires i < |a| && Changed(a, b, i) && x < i && Direct(a, x) && Padded(a)
    ensures Direct(b, x)
  {
  }

  lemma {:induction false} TiledTail(a: Code, b: Code, j: nat)
    requires |a| == |b| && j <= |a| && Tiled(a, j) && forall x :: j <= x < |a| ==> a[x] == b[x]
    ensures Tiled(b, j)
    decreases |a| - j
  {
    if j < |a| { TiledTail(a, b, j + Size(a[j])); }
  }

  lemma TiledKept(a: Code, b: Code, i: nat)
    requires i < |a| && Changed(a, b, i) && Tiled(a, i)
    ensures var n := i + Size(b[i]); n <= |b| && Tiled(b, n) && forall x :: i < x < n ==> b[x].IPad?
  {
    var n := i + Size(a[i]);
    TiledTail(a, b, n);
    if Size(b[i]) == 1 { assert Tiled(b, i + 1); }
  }

  /** One site of the pass. */
  lemma SiteDirect(code: Code, i: nat)
    requires i < |code| && Padded(code) && Bounded(code) && Tiled(code, i)
    ensures var c := OptimizeAt(code, i);
      (c == code || Changed(code, c, i)) && Direct(c, i)
  {
    hide FinalTarget, Bounded;
    if HasLabel(code[i]) {
      ChainsBounded(code, i + code[i].off);
    } else if code[i].IJmp? {
      JumpDirect(code, i);
    }
  }

  lemma JumpDirect(code: Code, i: nat)
    requires i < |code| && code[i].IJmp? && Padded(code) && Bounded(code)
    ensures var c := OptimizeJump(code, i); Changed(code, c, i) && Direct(c, i)
  {
    hide FinalTarget, Bounded, Rewrites;
    var ft := FinalTarget(code, i, |code|);
    ChainsBounded(code, i);
    if 0 <= ft < |code| && UnconditionalLabel(code[ft]) {
      var fft := FinalTarget(code, ft + code[ft].off, |code|);
      var mid := code[i := Relabel(code[ft], fft - i)];
      JumpRewrites(code, mid, i, ft);
      BoundedKept(code, mid, i);
      ChainsBounded(mid, i + mid[i].off);
    }
  }

  predicate DirectUpTo(c: Code, n: nat) {
    forall x :: 0 <= x < n && x < |c| ==> Direct(c, x)
  }

  /** One round of the pass. */
  lemma SiteDone(code: Code, i: nat)
    requires Padded(code) && Bounded(code) && i < |code| && Tiled(code, i)
    requires DirectUpTo(code, i)
    ensures var c := OptimizeAt(code, i);
      var n := i + Size(c[i]);
      Padded(c) && Bounded(c) && n <= |c| && Tiled(c, n) && DirectUpTo(c, n)
  {
    hide Bounded, OptimizeAt, FinalTarget;
    var c := OptimizeAt(code, i);
    SiteDirect(code, i);
    OptimizeKeeps(code, i);
    if c != code {
      TiledKept(code, c, i);
      forall x | 0 <= x < i ensures Direct(c, x) { DirectKept(code, c, i, x); }
    }
    PadsDirect(c, i, i + Size(c[i]));
  }

  /** After the pass over a whole program in which chains of jumps end, nothing leads to a jump. */
  lemma {:induction false} PassDirect(code: Code, i: nat)
    requires Padded(code) && Bounded(code) && i <= |code| && Tiled(code, i)
    requires DirectUpTo(code, i)
    ensures DirectUpTo(PeepholeFrom(code, i), |code|)
    decreases |code| - i
  {
    hide DirectUpTo, OptimizeAt, Bounded, Padded, Tiled, Size;
    if i < |code| {
      SiteDone(code, i);
      var c := OptimizeAt(code, i);
      SizePositive(c[i]);
      assert PeepholeFrom(code, i) == PeepholeFrom(c, i + Size(c[i]));
      PassDirect(c, i + Size(c[i]));
    }
  }

  lemma SizePositive(ins: Instr)
    ensures Size(ins) > 0
  {
  }

  lemma PadsDirect(c: Code, i: nat, n: nat)
    requires i < n <= |c| && Direct(c, i) && forall x :: i < x < n ==> c[x].IPad?
    ensures forall x :: i <= x < n ==> Direct(c, x)
  {
  }

  /** For any pattern with accepted grammars without left recursion, whose called rules have numbers that fit. */
  lemma CompiledDirect(depth: nat, ver: Version, t: Tree)
    requires WellFormed(t, 0) && Built(t, depth) && Narrow(ver, t)
    ensures var c := Compiled(depth, ver, t); DirectUpTo(c, |c|)
  {
    hide Gen, Built, Bounded, Padded, PeepholeFrom, Direct, WellFormed, Tiled, Narrow;
    var p := CompileTree(depth, ver, t);
    ProgramPadded(depth, ver, t);
    ProgramBounded(depth, ver, t);
    GenTiled([], depth, ver, t, false, NoTest, FULL);
    TiledOne(IEnd);
    TiledConcat(Gen([], depth, ver, t, false, NoTest, FULL), [IEnd], 0);
    assert p == Gen([], depth, ver, t, false, NoTest, FULL) + [IEnd];
    hide CompileTree;
    PassDirect(p, 0);
    assert Compiled(depth, ver, t) == PeepholeFrom(p, 0);
  }
}
