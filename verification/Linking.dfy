/** Layout of grammar code: what `codegrammar` and `correctcalls` leave in the program is every rule in its place,
    each call pointing at its rule. */
module Linking {
  import opened Patterns
  import opened Analysis
  import opened Machine
  import opened CodeGen
  import opened Simulation

  /** Every jump and open call is followed by the slot of its operand, and open calls name one of `n` rules. */
  predicate Laid(c: Code, n: nat) {
    forall x :: 0 <= x < |c| && (c[x].IJmp? || c[x].IOpenCall?) ==>
      && x + 1 < |c| && c[x + 1].IPad?
      && (c[x].IOpenCall? ==> c[x].rule < n)
  }

  lemma LaidConcat(a: Code, b: Code, n: nat)
    requires Laid(a, n) && Laid(b, n)
    ensures Laid(a + b, n)
  {
  }

  lemma TestLaid(test: Test, off: int)
    ensures Laid(TestCode(test, off), 0)
  {
  }

  lemma {:induction false} GenLaid(rs: seq<Tree>, depth: nat, ver: Version, t: Tree, opt: bool, tt: Test, fl: Charset,
                                   n: nat)
    requires WellFormed(t, n)
    ensures Laid(Gen(rs, depth, ver, t, opt, tt, fl), n)
    decreases t, 1
  {
    hide GetFirst, HeadFail, CharsetType, RulesCode, RulePositions, CorrectCalls;
    match t
    case TChoice(_, _) => ChoiceLaid(rs, depth, ver, t, opt, fl, n);
    case TRep(_) => RepLaid(rs, depth, ver, t, opt, fl, n);
    case TSeq(p1, p2) =>
      GenLaid(rs, depth, ver, p1, false, tt, Follow1(rs, depth, p1, p2, fl), n);
      GenLaid(rs, depth, ver, p2, opt, Test2(rs, p1, tt), fl, n);
      LaidConcat(Gen(rs, depth, ver, p1, false, tt, Follow1(rs, depth, p1, p2, fl)),
                 Gen(rs, depth, ver, p2, opt, Test2(rs, p1, tt), fl), n);
    case TNot(_) => NotLaid(rs, depth, ver, t, n);
    case TAnd(_) => AndLaid(rs, depth, ver, t, tt, n);
    case TCapture(_, _, _) => CaptureLaid(rs, depth, ver, t, tt, fl, n);
    case TBehind(k, p) =>
      GenLaid(rs, depth, ver, p, false, NoTest, FULL, n);
      LaidConcat(if k > 0 then [IBehind(k)] else [], Gen(rs, depth, ver, p, false, NoTest, FULL), n);
    case TGrammar(_) =>
      RulesLaid(t, depth, ver, 0);
      NoCallsLeft(RulesCode(t, depth, ver, 0), RulePositions(t, depth, ver, 0, 0));
      LaidMore(Gen(rs, depth, ver, t, opt, tt, fl), n);
    case TSet(cs) => LaidPlain(CodeCharset(cs, tt), n);
    case TChar(c) => LaidPlain(CodeChar(c, tt), n);
    case _ =>
  }

  lemma ChoiceTestLaid(test: Test, c1: Code, c2: Code, emptyp2: bool, n: nat)
    requires Laid(c1, n) && Laid(c2, n)
    ensures Laid(ChoiceTestCode(test, c1, c2, emptyp2), n)
  {
    var jmp: Code := if emptyp2 then [] else [IJmp(2 + |c2|), IPad];
    var t := TestCode(test, TestLen(test) + |c1| + |jmp|);
    TestLaid(test, TestLen(test) + |c1| + |jmp|);
    LaidConcat(t, c1, n);
    LaidConcat(t + c1, jmp, n);
    LaidConcat(t + c1 + jmp, c2, n);
  }

  lemma ChoiceCodeLaid(test: Test, c1: Code, c2: Code, n: nat)
    requires Laid(c1, n) && Laid(c2, n)
    ensures Laid(ChoiceCode(test, c1, c2), n)
  {
    var t := TestCode(test, TestLen(test) + 2 + |c1| + 2);
    var ch: Code := [IChoice(2 + |c1| + 2), IPad];
    var cm: Code := [ICommit(2 + |c2|), IPad];
    TestLaid(test, TestLen(test) + 2 + |c1| + 2);
    LaidConcat(t, ch, n);
    LaidConcat(t + ch, c1, n);
    LaidConcat(t + ch + c1, cm, n);
    LaidConcat(t + ch + c1 + cm, c2, n);
  }

  lemma NotCodeLaid(test: Test, c: Code, n: nat)
    requires Laid(c, n)
    ensures Laid(NotCode(test, c), n)
  {
    var t := TestCode(test, TestLen(test) + 2 + |c| + 1);
    var ch: Code := [IChoice(2 + |c| + 1), IPad];
    TestLaid(test, TestLen(test) + 2 + |c| + 1);
    LaidConcat(t, ch, n);
    LaidConcat(t + ch, c, n);
    LaidConcat(t + ch + c, [IFailTwice], n);
  }

  lemma {:induction false} ChoiceLaid(rs: seq<Tree>, depth: nat, ver: Version, t: Tree, opt: bool, fl: Charset, n: nat)
    requires t.TChoice? && WellFormed(t, n)
    ensures Laid(GenChoice(rs, depth, ver, t, opt, fl), n)
    decreases t, 0
  {
    hide Laid, GetFirst, HeadFail, ChoiceCode, ChoiceTestCode, TestCode;
    var f1 := GetFirst(rs, t.p1, FULL, depth);
    GenLaid(rs, depth, ver, t.p2, opt, NoTest, fl, n);
    var c2 := Gen(rs, depth, ver, t.p2, opt, NoTest, fl);
    if ChoiceByTest(rs, depth, t.p1, t.p2, fl) {
      var test := CodeTest(f1.cs, false);
      GenLaid(rs, depth, ver, t.p1, false, test, fl, n);
      ChoiceTestLaid(test, Gen(rs, depth, ver, t.p1, false, test, fl), c2, t.p2.TTrue?, n);
    } else if opt && t.p2.TTrue? {
      GenLaid(rs, depth, ver, t.p1, true, NoTest, FULL, n);
      LaidPlain([IPartialCommit(2), IPad], n);
      LaidConcat([IPartialCommit(2), IPad], Gen(rs, depth, ver, t.p1, true, NoTest, FULL), n);
    } else {
      var test := CodeTest(f1.cs, f1.empty);
      GenLaid(rs, depth, ver, t.p1, t.p2.TTrue?, test, FULL, n);
      ChoiceCodeLaid(test, Gen(rs, depth, ver, t.p1, t.p2.TTrue?, test, FULL), c2, n);
    }
  }

  lemma LaidPlain(c: Code, n: nat)
    requires forall x :: 0 <= x < |c| ==> !c[x].IJmp? && !c[x].IOpenCall?
    ensures Laid(c, n)
  {
  }

  lemma RepCodeLaid(test: Test, c: Code, opt: bool, n: nat)
    requires Laid(c, n)
    ensures Laid(RepCode(test, c, opt), n)
  {
    var t := TestCode(test, TestLen(test) + 2 + |c| + 2);
    var ch: Code := [if opt then IPartialCommit(2) else IChoice(2 + |c| + 2), IPad];
    TestLaid(test, TestLen(test) + 2 + |c| + 2);
    LaidConcat(t, ch, n);
    LaidConcat(t + ch, c, n);
    LaidConcat(t + ch + c, [IPartialCommit(-|c|), IPad], n);
  }

  lemma RepTestLaid(test: Test, c: Code, n: nat)
    requires Laid(c, n)
    ensures Laid(RepTestCode(test, c), n)
  {
    var t := TestCode(test, TestLen(test) + |c| + 2);
    TestLaid(test, TestLen(test) + |c| + 2);
    LaidConcat(t, c, n);
    LaidConcat(t + c, [IJmp(-(TestLen(test) + |c|)), IPad], n);
  }

  lemma {:induction false} RepLaid(rs: seq<Tree>, depth: nat, ver: Version, t: Tree, opt: bool, fl: Charset, n: nat)
    requires t.TRep? && WellFormed(t, n)
    ensures Laid(GenRep(rs, depth, ver, t, opt, fl), n)
    decreases t, 0
  {
    if !IsCharset(t.p) {
      var f := GetFirst(rs, t.p, FULL, depth);
      if RepByTest(rs, depth, t.p, fl) {
        GenLaid(rs, depth, ver, t.p, ver.passOpt && opt, CodeTest(f.cs, false), FULL, n);
        RepTestLaid(CodeTest(f.cs, false), Gen(rs, depth, ver, t.p, ver.passOpt && opt, CodeTest(f.cs, false), FULL),
                    n);
      } else {
        GenLaid(rs, depth, ver, t.p, false, NoTest, FULL, n);
        RepCodeLaid(CodeTest(f.cs, f.empty), Gen(rs, depth, ver, t.p, false, NoTest, FULL), opt, n);
      }
    }
  }

  lemma {:induction false} NotLaid(rs: seq<Tree>, depth: nat, ver: Version, t: Tree, n: nat)
    requires t.TNot? && WellFormed(t, n)
    ensures Laid(GenNot(rs, depth, ver, t), n)
    decreases t, 0
  {
    hide Laid, GetFirst, HeadFail, NotCode, TestCode;
    var f := GetFirst(rs, t.p, FULL, depth);
    var test := CodeTest(f.cs, f.empty);
    if HeadFail(rs, t.p, depth) {
      TestLaid(test, TestLen(test) + 1);
      LaidMore(TestCode(test, TestLen(test) + 1), n);
      LaidPlain([IFail], n);
      LaidConcat(TestCode(test, TestLen(test) + 1), [IFail], n);
    } else {
      GenLaid(rs, depth, ver, t.p, false, NoTest, FULL, n);
      NotCodeLaid(test, Gen(rs, depth, ver, t.p, false, NoTest, FULL), n);
    }
  }

  lemma LaidMore(c: Code, n: nat)
    requires Laid(c, 0)
    ensures Laid(c, n)
  {
  }

  lemma {:induction false} AndLaid(rs: seq<Tree>, depth: nat, ver: Version, t: Tree, tt: Test, n: nat)
    requires t.TAnd? && WellFormed(t, n)
    ensures Laid(GenAnd(rs, depth, ver, t, tt), n)
    decreases t, 0
  {
    hide Laid, HasCaptures, FixedLenX;
    var c := Gen(rs, depth, ver, t.p, false, tt, FULL);
    GenLaid(rs, depth, ver, t.p, false, tt, FULL, n);
    var k := FixedLen(rs, t.p);
    if 0 <= k <= MAXBEHIND && HasCaptures(rs, t.p, depth).Nothing? {
      LaidPlain(if k > 0 then [IBehind(k)] else [], n);
      LaidConcat(c, if k > 0 then [IBehind(k)] else [], n);
    } else {
      var ch: Code := [IChoice(2 + |c| + 2), IPad];
      LaidPlain(ch, n);
      LaidPlain([IBackCommit(3), IPad, IFail], n);
      LaidConcat(ch, c, n);
      LaidConcat(ch + c, [IBackCommit(3), IPad, IFail], n);
    }
  }

  lemma {:induction false} CaptureLaid(rs: seq<Tree>, depth: nat, ver: Version, t: Tree, tt: Test, fl: Charset, n: nat)
    requires t.TCapture? && WellFormed(t, n)
    ensures Laid(GenCapture(rs, depth, ver, t, tt, fl), n)
    decreases t, 0
  {
    hide Laid, HasCaptures, FixedLenX;
    var c := Gen(rs, depth, ver, t.p, false, tt, fl);
    GenLaid(rs, depth, ver, t.p, false, tt, fl, n);
    var k := FixedLen(rs, t.p);
    if 0 <= k <= MAXOFF && HasCaptures(rs, t.p, depth).Nothing? {
      LaidPlain([IFullCapture(t.kind, t.key, k)], n);
      LaidConcat(c, [IFullCapture(t.kind, t.key, k)], n);
    } else {
      LaidPlain([IOpenCapture(t.kind, t.key)], n);
      LaidPlain([ICloseCapture], n);
      LaidConcat([IOpenCapture(t.kind, t.key)], c, n);
      LaidConcat([IOpenCapture(t.kind, t.key)] + c, [ICloseCapture], n);
    }
  }

  lemma {:induction false} RulesLaid(t: Tree, depth: nat, ver: Version, k: nat)
    requires t.TGrammar? && k <= |t.rules| && WellFormed(t, 0)
    ensures Laid(RulesCode(t, depth, ver, k), |t.rules|)
    decreases t, 0, |t.rules| - k
  {
    if k < |t.rules| {
      GenLaid(t.rules, depth, ver, t.rules[k], false, NoTest, FULL, |t.rules|);
      RulesLaid(t, depth, ver, k + 1);
    }
  }

  // ---------- correctcalls ----------

  /** Slot `x` of `cur` is what `correctcalls` makes of slot `x` of `orig`. */
  ghost predicate Resolved(orig: Code, cur: Code, positions: seq<nat>, x: int)
    requires |orig| == |cur| && 0 <= x < |orig|
  {
    if orig[x].IOpenCall? && orig[x].rule < |positions| then
      var off := positions[orig[x].rule] - x;
      cur[x] == ICall(off) || (cur[x] == IJmp(off) && ReachesRet(cur, x + 2))
    else cur[x] == orig[x]
  }

  lemma {:induction false} FinalRetWithin(code: Code, pc: int, fuel: nat)
    requires var ft := FinalTarget(code, pc, fuel); 0 <= ft < |code| && code[ft].IRet?
    ensures RetWithin(code, pc, fuel)
    decreases fuel
  {
    if 0 <= pc < |code| && code[pc].IJmp? && fuel > 0 { FinalRetWithin(code, pc + code[pc].off, fuel - 1); }
  }

  /** Resolving an open call does not disturb any chain of jumps to a return. */
  lemma {:induction false} RetWithinStays(code: Code, code': Code, pc: int, n: nat)
    requires |code| == |code'|
    requires forall x :: 0 <= x < |code| && !code[x].IOpenCall? ==> code'[x] == code[x]
    requires RetWithin(code, pc, n)
    ensures RetWithin(code', pc, n)
    decreases n
  {
    if !code[pc].IRet? { RetWithinStays(code, code', pc + code[pc].off, n - 1); }
  }

  lemma CorrectOneSpec(orig: Code, cur: Code, positions: seq<nat>, k: nat)
    requires |orig| == |cur| && k < |cur|
    requires forall x :: 0 <= x < k ==> Resolved(orig, cur, positions, x)
    requires forall x :: k <= x < |cur| ==> cur[x] == orig[x]
    ensures forall x :: 0 <= x <= k ==> Resolved(orig, CorrectOne(cur, positions, k), positions, x)
    ensures forall x :: k < x < |cur| ==> CorrectOne(cur, positions, k)[x] == orig[x]
  {
    var next := CorrectOne(cur, positions, k);
    forall x | 0 <= x <= k
      ensures Resolved(orig, next, positions, x)
    {
      if x < k {
        assert Resolved(orig, cur, positions, x);
        if ReachesRet(cur, x + 2) {
          var n: nat :| RetWithin(cur, x + 2, n);
          RetWithinStays(cur, next, x + 2, n);
        }
      } else if next[k].IJmp? && orig[k].IOpenCall? {
        FinalRetWithin(cur, k + 2, |cur|);
        RetWithinStays(cur, next, k + 2, |cur|);
      }
    }
  }

  lemma {:induction false} CorrectFromSpec(orig: Code, cur: Code, positions: seq<nat>, k: nat)
    requires |orig| == |cur| && k <= |cur|
    requires forall x :: 0 <= x < k ==> Resolved(orig, cur, positions, x)
    requires forall x :: k <= x < |cur| ==> cur[x] == orig[x]
    ensures forall x :: 0 <= x < |orig| ==> Resolved(orig, CorrectFrom(cur, positions, k), positions, x)
    decreases |cur| - k
  {
    if k < |cur| {
      CorrectOneSpec(orig, cur, positions, k);
      CorrectFromSpec(orig, CorrectOne(cur, positions, k), positions, k + 1);
    }
  }

  /** `correctcalls` resolves every open call and leaves every other slot alone; a call becomes a jump only where a
      chain of jumps leads to a return. */
  lemma CorrectSpec(code: Code, positions: seq<nat>)
    ensures |CorrectCalls(code, positions)| == |code|
    ensures forall x :: 0 <= x < |code| ==> Resolved(code, CorrectCalls(code, positions), positions, x)
  {
    CorrectFromSpec(code, code, positions, 0);
  }

  /** After `correctcalls` no open call is left. */
  lemma NoCallsLeft(code: Code, positions: seq<nat>)
    requires Laid(code, |positions|)
    ensures Laid(GrammarCode(CorrectCalls(code, positions)), 0)
  {
    var c := CorrectCalls(code, positions);
    CorrectSpec(code, positions);
    forall x | 0 <= x < |c| && (c[x].IJmp? || c[x].IOpenCall?)
      ensures x + 1 < |c| && c[x + 1].IPad? && (c[x].IOpenCall? ==> c[x].rule < 0)
    {
      assert Resolved(code, c, positions, x);
      assert Resolved(code, c, positions, x + 1);
    }
    assert Laid(c, 0);
    LaidConcat([ICall(4), IPad, IJmp(2 + |c|), IPad], c, 0);
  }

  // ---------- Rules in place ----------

  /** The code holds `sub` from `base` on, slot by slot. */
  predicate Holds(code: Code, base: int, sub: Code) {
    forall x :: 0 <= x < |sub| ==> 0 <= base + x < |code| && code[base + x] == sub[x]
  }

  /** Generated code `c` starts at offset `p` of `all`. */
  predicate Part(all: Code, p: int, c: Code) {
    0 <= p && p + |c| <= |all| && all[p..p + |c|] == c
  }

  lemma RulesNext(t: Tree, depth: nat, ver: Version, k: nat, at: nat)
    requires t.TGrammar? && k < |t.rules|
    ensures RulesCode(t, depth, ver, k) == RuleCode(t.rules, depth, ver, k) + [IRet] + RulesCode(t, depth, ver, k + 1)
    ensures RulePositions(t, depth, ver, k, at)
      == [at] + RulePositions(t, depth, ver, k + 1, at + |RuleCode(t.rules, depth, ver, k)| + 1)
  {
    hide Gen;
  }

  lemma {:induction false} RulesLayout(t: Tree, depth: nat, ver: Version, k: nat, at: nat, j: nat)
    requires t.TGrammar? && k <= j < |t.rules|
    ensures var p := RulePositions(t, depth, ver, k, at)[j - k];
      var c := RuleCode(t.rules, depth, ver, j);
      && Part(RulesCode(t, depth, ver, k), p - at, c) && p - at + |c| < |RulesCode(t, depth, ver, k)|
      && RulesCode(t, depth, ver, k)[p - at + |c|] == IRet
    decreases j - k
  {
    hide Gen, RulesCode, RulePositions;
    var g := RuleCode(t.rules, depth, ver, k);
    var rest := RulesCode(t, depth, ver, k + 1);
    var all := g + [IRet] + rest;
    RulesNext(t, depth, ver, k, at);
    hide RuleCode;
    if j == k {
      assert all[..|g|] == g;
      assert all[|g|] == IRet;
    } else {
      RulesLayout(t, depth, ver, k + 1, at + |g| + 1, j);
      var p := RulePositions(t, depth, ver, k + 1, at + |g| + 1)[j - k - 1];
      var c := RuleCode(t.rules, depth, ver, j);
      var q := p - (at + |g| + 1);
      assert RulePositions(t, depth, ver, k, at)[j - k] == p;
      assert all[|g| + 1..] == rest;
      assert all[p - at..p - at + |c|] == rest[q..q + |c|];
      assert all[p - at + |c|] == rest[q + |c|];
    }
  }

  /** The absolute rule positions of a grammar whose code starts at `pc`. */
  function Positions(t: Tree, depth: nat, ver: Version, pc: int): (ps: seq<int>)
    requires t.TGrammar?
    ensures |ps| == |t.rules|
  {
    var rel := RulePositions(t, depth, ver, 0, 0);
    seq(|t.rules|, k requires 0 <= k < |rel| => pc + 4 + rel[k])
  }

  lemma {:induction false} RetWithinMoved(code: Code, sub: Code, base: int, pc: int, n: nat)
    requires Holds(code, base, sub)
    requires RetWithin(sub, pc, n)
    ensures RetWithin(code, base + pc, n)
    decreases n
  {
    assert code[base + pc] == sub[pc];
    if !sub[pc].IRet? { RetWithinMoved(code, sub, base, pc + sub[pc].off, n - 1); }
  }

  /** Slot by slot: a resolved slot of the rules' code, in place, is an embedded slot. */
  lemma ResolvedSlot(code: Code, orig: Code, cur: Code, positions: seq<nat>, pos: seq<int>, base: int, x: int)
    requires |orig| == |cur| && 0 <= x < |orig|
    requires Holds(code, base, cur)
    requires |pos| == |positions| && forall k :: 0 <= k < |pos| ==> pos[k] == base + positions[k]
    requires orig[x].IOpenCall? ==> orig[x].rule < |positions|
    requires Resolved(orig, cur, positions, x)
    ensures Slot(code, base + x, orig[x], pos)
  {
    assert code[base + x] == cur[x];
    if orig[x].IOpenCall? && cur[x].IJmp? {
      var n: nat :| RetWithin(cur, x + 2, n);
      RetWithinMoved(code, cur, base, x + 2, n);
      assert base + (x + 2) == base + x + 2;
    }
  }

  lemma HoldsRules(code: Code, pos: seq<int>, pc: int, c: Code)
    requires Embeds(code, pc, GrammarCode(c), pos) && Laid(GrammarCode(c), 0)
    ensures Holds(code, pc + 4, c)
  {
    var base := pc + 4;
    forall y | 0 <= y < |c|
      ensures 0 <= base + y < |code| && code[base + y] == c[y]
    {
      var g := GrammarCode(c);
      assert g[4 + y] == c[y];
      assert !g[4 + y].IOpenCall?;
      SlotAt(code, pc, g, pos, 4 + y);
    }
  }

  lemma GrammarInPlace(code: Code, pos: seq<int>, pc: int, t: Tree, depth: nat, ver: Version)
    requires t.TGrammar? && WellFormed(t, 0)
    requires Embeds(code, pc, GrammarCode(CorrectCalls(RulesCode(t, depth, ver, 0),
                                                       RulePositions(t, depth, ver, 0, 0))), pos)
    ensures Embeds(code, pc + 4, RulesCode(t, depth, ver, 0), Positions(t, depth, ver, pc))
  {
    var orig := RulesCode(t, depth, ver, 0);
    var positions := RulePositions(t, depth, ver, 0, 0);
    var cur := CorrectCalls(orig, positions);
    CorrectSpec(orig, positions);
    RulesLaid(t, depth, ver, 0);
    NoCallsLeft(orig, positions);
    HoldsRules(code, pos, pc, cur);
    forall x | 0 <= x < |orig|
      ensures Slot(code, pc + 4 + x, orig[x], Positions(t, depth, ver, pc))
    {
      ResolvedSlot(code, orig, cur, positions, Positions(t, depth, ver, pc), pc + 4, x);
    }
  }

  lemma EmbedsPart(code: Code, base: int, all: Code, pos: seq<int>, p: int, c: Code)
    requires Embeds(code, base, all, pos)
    requires Part(all, p, c) && p + |c| < |all| && all[p + |c|] == IRet
    ensures Embeds(code, base + p, c, pos)
    ensures Slot(code, base + p + |c|, IRet, pos)
  {
    forall x | 0 <= x < |c|
      ensures Slot(code, base + p + x, c[x], pos)
    {
      assert all[p..p + |c|][x] == all[p + x];
      SlotAt(code, base, all, pos, p + x);
    }
    SlotAt(code, base, all, pos, p + |c|);
  }

  lemma RuleLoaded(code: Code, pc: int, t: Tree, depth: nat, ver: Version, k: nat)
    requires t.TGrammar? && k < |t.rules| && pc >= 0
    requires Embeds(code, pc + 4, RulesCode(t, depth, ver, 0), Positions(t, depth, ver, pc))
    ensures RuleIn(code, t.rules, depth, ver, Positions(t, depth, ver, pc), k)
  {
    RulesLayout(t, depth, ver, 0, 0, k);
    EmbedsPart(code, pc + 4, RulesCode(t, depth, ver, 0), Positions(t, depth, ver, pc),
               RulePositions(t, depth, ver, 0, 0)[k], RuleCode(t.rules, depth, ver, k));
  }

  lemma FirstPosition(t: Tree, depth: nat, ver: Version, pc: int)
    requires t.TGrammar? && |t.rules| > 0
    ensures Positions(t, depth, ver, pc)[0] == pc + 4
  {
  }

  /** The code `codegen` emits for a grammar. */
  function LinkedCode(t: Tree, depth: nat, ver: Version): Code
    requires t.TGrammar?
  {
    GrammarCode(CorrectCalls(RulesCode(t, depth, ver, 0), RulePositions(t, depth, ver, 0, 0)))
  }

  /** Grammar code in place means that all its rules are loaded, the first one right after the call and the jump. */
  lemma GrammarLoaded(code: Code, pos: seq<int>, pc: int, t: Tree, depth: nat, ver: Version)
    requires t.TGrammar? && WellFormed(t, 0) && pc >= 0
    requires Embeds(code, pc, LinkedCode(t, depth, ver), pos)
    ensures Loaded(code, t.rules, depth, ver, Positions(t, depth, ver, pc))
  {
    var ps := Positions(t, depth, ver, pc);
    GrammarInPlace(code, pos, pc, t, depth, ver);
    forall k | 0 <= k < |t.rules|
      ensures RuleIn(code, t.rules, depth, ver, ps, k)
    {
      RuleLoaded(code, pc, t, depth, ver, k);
    }
  }
}
