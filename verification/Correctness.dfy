/** Compiler correctness: every run of compiled code ends with the result that the semantics gives. */
module Correctness {
  import opened Patterns
  import opened Analysis
  import opened Machine
  import opened CodeGen
  import opened Simulation
  import opened Linking

  // ---------- What a fragment may rely on ----------

  /** The grammar in scope: its rules are in place, well formed and clear of the defects of `coderep` and `codecall`. */
  ghost predicate Env(code: Code, rs: seq<Tree>, depth: nat, ver: Version, pos: seq<int>) {
    Loaded(code, rs, depth, ver, pos) && WellFormedRules(rs) && OptSafeRules(rs, depth, ver) && NarrowRules(ver, rs)
  }

  predicate Fits(rs: seq<Tree>, depth: nat, ver: Version, t: Tree, opt: bool, fl: Charset) {
    WellFormed(t, |rs|) && OptSafe(rs, depth, ver, t, opt, fl) && Narrow(ver, t) && (opt ==> fl == FULL)
  }

  predicate Ready(s: Subject, tt: Test, i: nat, stk: Stack, caps: seq<Entry>) {
    i <= |s| && Passes(tt, s, i) && Levels(stk, |caps|)
  }

  lemma LevelsPush(stk: Stack, f: Frame, n: nat)
    requires Levels(stk, n) && (f.Choice? ==> f.caplevel <= n)
    ensures Levels(Push(f, stk), n)
  {
  }

  lemma LevelsBelow(stk: Stack, n: nat)
    requires Levels(stk, n) && stk.Push?
    ensures Levels(stk.below, n)
  {
  }

  // ---------- One level of the definitions at a time ----------

  lemma FitsSeq(rs: seq<Tree>, depth: nat, ver: Version, t: Tree, opt: bool, fl: Charset)
    requires t.TSeq? && Fits(rs, depth, ver, t, opt, fl)
    ensures Fits(rs, depth, ver, t.p1, false, Follow1(rs, depth, t.p1, t.p2, fl)) && Fits(rs, depth, ver, t.p2, opt, fl)
  {
    hide GetFirst, HeadFail, NeedFollow;
  }

  lemma FitsChoice(rs: seq<Tree>, depth: nat, ver: Version, t: Tree, opt: bool, fl: Charset)
    requires t.TChoice? && Fits(rs, depth, ver, t, opt, fl)
    ensures
      if ChoiceByTest(rs, depth, t.p1, t.p2, fl) then
        Fits(rs, depth, ver, t.p1, false, fl) && Fits(rs, depth, ver, t.p2, opt, fl)
      else if opt && t.p2.TTrue? then Fits(rs, depth, ver, t.p1, true, FULL)
      else Fits(rs, depth, ver, t.p1, t.p2.TTrue?, FULL) && Fits(rs, depth, ver, t.p2, opt, fl)
  {
    hide GetFirst, HeadFail;
  }

  lemma FitsRep(rs: seq<Tree>, depth: nat, ver: Version, t: Tree, opt: bool, fl: Charset)
    requires t.TRep? && Fits(rs, depth, ver, t, opt, fl)
    ensures Fits(rs, depth, ver, t.p, false, FULL)
    ensures ver.passOpt && opt && !IsCharset(t.p) && RepByTest(rs, depth, t.p, fl) ==> !UsesOpt(rs, depth, ver, t.p)
  {
    hide GetFirst, HeadFail, UsesOpt;
  }

  lemma FitsOne(rs: seq<Tree>, depth: nat, ver: Version, t: Tree, opt: bool, fl: Charset)
    requires Fits(rs, depth, ver, t, opt, fl)
    ensures (t.TNot? && !HeadFail(rs, t.p, depth)) || t.TAnd? ==> Fits(rs, depth, ver, t.p, false, FULL)
    ensures t.TCapture? ==> Fits(rs, depth, ver, t.p, false, fl)
    ensures t.TBehind? ==>
      Fits(rs, depth, ver, t.p, false, FULL) && CaptureFree(t.p) && 0 < t.n && FixedLen([], t.p) == t.n
    ensures t.TCall? ==> t.rule < |rs| && RuleNumber(ver, t.rule) == t.rule
  {
    hide GetFirst, HeadFail, FixedLenX, CaptureFree;
  }

  lemma MatchSeq(rs: seq<Tree>, t: Tree, s: Subject, i: nat, fuel: nat)
    requires t.TSeq? && i <= |s|
    ensures var r1 := Match(rs, t.p1, s, i, fuel);
      Match(rs, t, s, i, fuel) == if r1.Ok? then Then(r1.caps, Match(rs, t.p2, s, r1.pos, fuel)) else r1
  {
  }

  lemma MatchChoice(rs: seq<Tree>, t: Tree, s: Subject, i: nat, fuel: nat)
    requires t.TChoice? && i <= |s|
    ensures var r1 := Match(rs, t.p1, s, i, fuel);
      Match(rs, t, s, i, fuel) == if r1.Fail? then Match(rs, t.p2, s, i, fuel) else r1
    ensures t.p2.TTrue? ==> Match(rs, t.p2, s, i, fuel) == Ok(i, [])
  {
  }

  lemma MatchRep(rs: seq<Tree>, t: Tree, s: Subject, i: nat, fuel: nat)
    requires t.TRep? && i <= |s|
    ensures var r := Match(rs, t.p, s, i, fuel);
      var r2 := if r.Ok? && fuel > 0 then Match(rs, t, s, r.pos, fuel - 1) else Out;
      Match(rs, t, s, i, fuel) == if r.Fail? then Ok(i, []) else if r.Out? then Out else Then(r.caps, r2)
  {
  }

  lemma MatchOne(rs: seq<Tree>, t: Tree, s: Subject, i: nat, fuel: nat)
    requires i <= |s|
    ensures t.TNot? ==>
      var r := Match(rs, t.p, s, i, fuel);
      Match(rs, t, s, i, fuel) == if r.Fail? then Ok(i, []) else if r.Out? then Out else Fail
    ensures t.TAnd? ==>
      var r := Match(rs, t.p, s, i, fuel);
      Match(rs, t, s, i, fuel) == if r.Ok? then Ok(i, []) else r
    ensures t.TCapture? ==>
      var r := Match(rs, t.p, s, i, fuel);
      Match(rs, t, s, i, fuel) == if r.Ok? then Ok(r.pos, [Cap(t.kind, t.key, i, r.pos, r.caps)]) else r
  {
  }

  /** What the test in front of a pattern tells about it. */
  lemma TestDecides(rs: seq<Tree>, depth: nat, p: Tree, s: Subject, i: nat, fuel: nat)
    requires i <= |s|
    ensures var f := GetFirst(rs, p, FULL, depth);
      var r := Match(rs, p, s, i, fuel);
      && (Passes(CodeTest(f.cs, false), s, i) <==> i < |s| && s[i] in f.cs)
      && (HeadFail(rs, p, depth) ==> !f.empty)
      && (HeadFail(rs, p, depth) && Passes(CodeTest(f.cs, false), s, i) ==> !r.Fail?)
      && (!f.empty && !Passes(CodeTest(f.cs, false), s, i) ==> !r.Ok?)
      && (!Passes(CodeTest(f.cs, f.empty), s, i) ==> !r.Ok?)
  {
    hide Match, GetFirst, HeadFail;
    var f := GetFirst(rs, p, FULL, depth);
    CodeTestPasses(f.cs, s, i);
    if HeadFail(rs, p, depth) {
      HeadFailNotEmpty(rs, p, FULL, depth);
      if i < |s| && s[i] in f.cs { HeadFailSound(rs, p, s, i, fuel, depth); }
    }
    if !f.empty && !(i < |s| && s[i] in f.cs) { TestSound(rs, p, s, i, fuel, depth); }
  }

  /** When the first part of a sequence failed early on a success, the second part could not have led anywhere. */
  lemma SeqCase(ev: Ev, code: Code, s: Subject, pc: int, mid: int, end: int, i: nat, stk: Stack, caps: seq<Entry>,
                rs: seq<Tree>, depth: nat, p2: Tree, fl1: Charset, fl: Charset, r1: Result, r2: Result, fuel: nat)
    requires Levels(stk, |caps|) && (r1.Ok? ==> r1.pos <= |s| && r2 == Match(rs, p2, s, r1.pos, fuel))
    requires fl1 == FULL || fl1 == GetFirst(rs, p2, fl, depth).cs
    requires Respects(ev, code, s)
    requires Good(ev, code, s, Run(pc, i, stk, caps), mid, stk, caps, fl1, r1)
    requires r1.Ok? ==>
      var caps1 := caps + EncodeAll(r1.caps);
      Good(ev, code, s, Run(mid, r1.pos, stk, caps1), end, stk, caps1, fl, r2)
    ensures Good(ev, code, s, Run(pc, i, stk, caps), end, stk, caps, fl, if r1.Ok? then Then(r1.caps, r2) else r1)
  {
    hide Respects, Match, GetFirst, FailTo, Levels;
    var st := Run(pc, i, stk, caps);
    if r1.Ok? {
      if ev(st) == ev(Run(mid, r1.pos, stk, caps + EncodeAll(r1.caps))) {
        GoodThen(ev, code, s, st, mid, end, r1.pos, stk, caps, r1.caps, fl, r2);
      } else {
        FirstSound(rs, p2, fl, s, r1.pos, fuel, depth);
      }
    }
  }

  lemma CommitExits(ev: Ev, code: Code, s: Subject, end: int, stk: Stack)
    requires Respects(ev, code, s)
    requires OptFrame(code, end, stk)
    ensures Exits(ev, code, s, end, stk, stk.top.pc, stk.below)
  {
    forall j: nat, caps: seq<Entry> | j <= |s|
      ensures ev(Run(end, j, stk, caps)) == ev(Run(stk.top.pc, j, stk.below, caps))
    {
      EvStep(ev, code, s, Run(end, j, stk, caps));
    }
  }

  lemma ExitsHere(ev: Ev, code: Code, s: Subject, end: int, stk: Stack)
    ensures Exits(ev, code, s, end, stk, end, stk)
  {
  }

  lemma NoRules(code: Code, depth: nat, ver: Version)
    ensures Env(code, [], depth, ver, [])
  {
  }

  /** The choice that `codechoice` pushes is the one that the commit after the optional pattern pops. */
  lemma CommitFrame(code: Code, pos: seq<int>, at: int, len: nat, i: nat, stk: Stack, caps: seq<Entry>)
    requires Slot(code, at + len, ICommit(2), pos)
    ensures OptFrame(code, at + len, Push(Choice(at + len + 2, i, |caps|), stk))
  {
  }

  lemma OptTop(code: Code, end: int, stk: Stack)
    requires OptFrame(code, end, stk)
    ensures stk.Push? && stk.top.Choice?
  {
  }

  lemma OptSwap(code: Code, end: int, stk: Stack, i: nat, level: nat)
    requires OptFrame(code, end, stk)
    ensures OptFrame(code, end, Push(Choice(stk.top.pc, i, level), stk.below))
  {
  }

  lemma GoodOut(ev: Ev, code: Code, s: Subject, st: State, end: int, stk: Stack, caps: seq<Entry>, fl: Charset)
    ensures Good(ev, code, s, st, end, stk, caps, fl, Out)
  {
  }

  lemma EmptyCode(rs: seq<Tree>, depth: nat, ver: Version, t: Tree, opt: bool, fl: Charset)
    ensures t.TTrue? ==> Gen(rs, depth, ver, t, opt, NoTest, fl) == []
  {
  }

  lemma GenIs(rs: seq<Tree>, depth: nat, ver: Version, t: Tree, opt: bool, tt: Test, fl: Charset)
    ensures t.TChoice? ==> Gen(rs, depth, ver, t, opt, tt, fl) == GenChoice(rs, depth, ver, t, opt, fl)
    ensures t.TRep? ==> Gen(rs, depth, ver, t, opt, tt, fl) == GenRep(rs, depth, ver, t, opt, fl)
    ensures t.TNot? ==> Gen(rs, depth, ver, t, opt, tt, fl) == GenNot(rs, depth, ver, t)
    ensures t.TAnd? ==> Gen(rs, depth, ver, t, opt, tt, fl) == GenAnd(rs, depth, ver, t, tt)
    ensures t.TCapture? ==> Gen(rs, depth, ver, t, opt, tt, fl) == GenCapture(rs, depth, ver, t, tt, fl)
    ensures t.TGrammar? ==> Gen(rs, depth, ver, t, opt, tt, fl) == LinkedCode(t, depth, ver)
  {
    hide GenChoice, GenRep, GenNot, GenAnd, GenCapture, CorrectCalls, RulesCode, RulePositions;
  }

  lemma GenSeqIs(rs: seq<Tree>, depth: nat, ver: Version, t: Tree, opt: bool, tt: Test, fl: Charset)
    requires t.TSeq?
    ensures Gen(rs, depth, ver, t, opt, tt, fl)
         == Gen(rs, depth, ver, t.p1, false, tt, Follow1(rs, depth, t.p1, t.p2, fl))
            + Gen(rs, depth, ver, t.p2, opt, Test2(rs, t.p1, tt), fl)
  {
  }

  lemma GenBehindIs(rs: seq<Tree>, depth: nat, ver: Version, t: Tree, opt: bool, tt: Test, fl: Charset)
    requires t.TBehind? && t.n > 0
    ensures Gen(rs, depth, ver, t, opt, tt, fl) == [IBehind(t.n)] + Gen(rs, depth, ver, t.p, false, NoTest, FULL)
  {
  }

  lemma GenCallIs(rs: seq<Tree>, depth: nat, ver: Version, t: Tree, opt: bool, tt: Test, fl: Charset)
    requires t.TCall?
    ensures Gen(rs, depth, ver, t, opt, tt, fl) == [IOpenCall(RuleNumber(ver, t.rule)), IPad]
  {
  }

  lemma MatchBehind(rs: seq<Tree>, t: Tree, s: Subject, i: nat, fuel: nat)
    requires t.TBehind? && i <= |s|
    ensures Match(rs, t, s, i, fuel)
         == if t.n > i then Fail
            else var r := Match(rs, t.p, s, i - t.n, fuel); if r.Ok? then Ok(i, []) else r
  {
  }

  lemma MatchCall(rs: seq<Tree>, t: Tree, s: Subject, i: nat, fuel: nat)
    requires t.TCall? && t.rule < |rs| && i <= |s|
    ensures Match(rs, t, s, i, fuel) == if fuel > 0 then Match(rs, rs[t.rule], s, i, fuel - 1) else Out
  {
  }

  lemma MatchGrammar(rs: seq<Tree>, t: Tree, s: Subject, i: nat, fuel: nat)
    requires t.TGrammar? && |t.rules| > 0 && i <= |s|
    ensures Match(rs, t, s, i, fuel) == Match(t.rules, t.rules[0], s, i, fuel)
  {
  }

  lemma RuleFits(code: Code, rs: seq<Tree>, depth: nat, ver: Version, pos: seq<int>, k: nat)
    requires Env(code, rs, depth, ver, pos) && k < |rs|
    ensures |pos| == |rs| && RuleIn(code, rs, depth, ver, pos, k)
    ensures Fits(rs, depth, ver, rs[k], false, FULL)
  {
  }

  lemma CallSlot(code: Code, pc: int, k: nat, pos: seq<int>)
    requires Slot(code, pc, IOpenCall(k), pos)
    ensures 0 <= pc < |code|
  {
  }

  lemma RetSlot(code: Code, x: int, pos: seq<int>, pos': seq<int>)
    requires Slot(code, x, IRet, pos)
    ensures Slot(code, x, IRet, pos')
  {
  }

  lemma GrammarFits(rs: seq<Tree>, depth: nat, ver: Version, t: Tree, opt: bool, fl: Charset)
    requires t.TGrammar? && Fits(rs, depth, ver, t, opt, fl)
    ensures |t.rules| > 0 && WellFormed(t, 0) && WellFormedRules(t.rules) && OptSafeRules(t.rules, depth, ver)
      && NarrowRules(ver, t.rules)
  {
  }

  lemma GrammarEnv(code: Code, t: Tree, depth: nat, ver: Version, ps: seq<int>)
    requires t.TGrammar? && Loaded(code, t.rules, depth, ver, ps)
    requires WellFormedRules(t.rules) && OptSafeRules(t.rules, depth, ver)
      && NarrowRules(ver, t.rules)
    ensures Env(code, t.rules, depth, ver, ps)
  {
  }

  // ---------- The simulation, one construct at a time ----------

  /** The code of `t`, wherever it is placed and whatever runs around it, does what the meaning of `t` says. */
  lemma {:induction false} Sim(ev: Ev, code: Code, s: Subject, rs: seq<Tree>, depth: nat, ver: Version, pos: seq<int>,
                               pc: int, t: Tree,
      opt: bool, tt: Test, fl: Charset, i: nat, stk: Stack, caps: seq<Entry>, fuel: nat)
    requires Respects(ev, code, s) && Env(code, rs, depth, ver, pos) && Fits(rs, depth, ver, t, opt, fl)
    requires Ready(s, tt, i, stk, caps) && pc >= 0
    requires Embeds(code, pc, Gen(rs, depth, ver, t, opt, tt, fl), pos)
    requires opt ==> OptFrame(code, pc + |Gen(rs, depth, ver, t, opt, tt, fl)|, stk)
    ensures Good(ev, code, s, Run(pc, i, stk, caps), pc + |Gen(rs, depth, ver, t, opt, tt, fl)|, stk, caps, fl,
                 Match(rs, t, s, i, fuel))
    decreases fuel, t, 3
  {
    hide Respects, Env, Embeds, Slot, Good, OptFrame, FailTo, EncodeAll, Step, Match, OptSafe, WellFormed, GetFirst,
         HeadFail, Levels, CharsetType, Gen, GenChoice, GenRep, GenNot, GenAnd, GenCapture, LinkedCode, Fits, Ready;
    GenIs(rs, depth, ver, t, opt, tt, fl);
    match t
    case TChoice(_, _) => SimChoice(ev, code, s, rs, depth, ver, pos, pc, t, opt, tt, fl, i, stk, caps, fuel);
    case TRep(_) => SimRep(ev, code, s, rs, depth, ver, pos, pc, t, opt, tt, fl, i, stk, caps, fuel);
    case TSeq(_, _) => SimSeq(ev, code, s, rs, depth, ver, pos, pc, t, opt, tt, fl, i, stk, caps, fuel);
    case TNot(_) => SimNot(ev, code, s, rs, depth, ver, pos, pc, t, opt, tt, fl, i, stk, caps, fuel);
    case TAnd(_) => SimAnd(ev, code, s, rs, depth, ver, pos, pc, t, opt, tt, fl, i, stk, caps, fuel);
    case TCapture(_, _, _) => SimCapture(ev, code, s, rs, depth, ver, pos, pc, t, opt, tt, fl, i, stk, caps, fuel);
    case TBehind(_, _) => SimBehind(ev, code, s, rs, depth, ver, pos, pc, t, opt, tt, fl, i, stk, caps, fuel);
    case TCall(_) => SimCall(ev, code, s, rs, depth, ver, pos, pc, t, opt, tt, fl, i, stk, caps, fuel);
    case TGrammar(_) => SimGrammar(ev, code, s, rs, depth, ver, pos, pc, t, opt, tt, fl, i, stk, caps, fuel);
    case _ => SimLeaf(ev, code, s, rs, depth, ver, pos, pc, t, opt, tt, fl, i, stk, caps, fuel);
  }

  lemma {:induction false} SimLeaf(ev: Ev, code: Code, s: Subject, rs: seq<Tree>, depth: nat, ver: Version,
                                   pos: seq<int>, pc: int, t: Tree,
      opt: bool, tt: Test, fl: Charset, i: nat, stk: Stack, caps: seq<Entry>, fuel: nat)
    requires IsCharset(t) || t.TTrue? || t.TFalse?
    requires Respects(ev, code, s) && Env(code, rs, depth, ver, pos) && Fits(rs, depth, ver, t, opt, fl)
    requires Ready(s, tt, i, stk, caps) && pc >= 0
    requires Embeds(code, pc, Gen(rs, depth, ver, t, opt, tt, fl), pos)
    requires opt ==> OptFrame(code, pc + |Gen(rs, depth, ver, t, opt, tt, fl)|, stk)
    ensures Good(ev, code, s, Run(pc, i, stk, caps), pc + |Gen(rs, depth, ver, t, opt, tt, fl)|, stk, caps, fl,
                 Match(rs, t, s, i, fuel))
    decreases fuel, t, 2
  {
    hide Respects, Env, Embeds, OptFrame, FailTo, EncodeAll, OptSafe, WellFormed, GetFirst, HeadFail, Levels,
         CharsetType;
    match t
    case TChar(c) => CharCase(ev, code, s, pos, pc, c, tt, i, stk, caps, fl);
    case TSet(cs) => CharsetCase(ev, code, s, pos, pc, cs, tt, i, stk, caps, fl);
    case TAny =>
      SlotAt(code, pc, [IAny], pos, 0);
      EvStep(ev, code, s, Run(pc, i, stk, caps));
      if i < |s| { GoodNow(ev, code, s, Run(pc, i, stk, caps), pc + 1, stk, caps, fl, i + 1); }
    case TTrue => GoodNow(ev, code, s, Run(pc, i, stk, caps), pc, stk, caps, fl, i);
    case TFalse =>
      SlotAt(code, pc, [IFail], pos, 0);
      EvStep(ev, code, s, Run(pc, i, stk, caps));
  }

  lemma {:induction false} SimSeq(ev: Ev, code: Code, s: Subject, rs: seq<Tree>, depth: nat, ver: Version,
                                  pos: seq<int>, pc: int, t: Tree,
      opt: bool, tt: Test, fl: Charset, i: nat, stk: Stack, caps: seq<Entry>, fuel: nat)
    requires t.TSeq?
    requires Respects(ev, code, s) && Env(code, rs, depth, ver, pos) && Fits(rs, depth, ver, t, opt, fl)
    requires Ready(s, tt, i, stk, caps) && pc >= 0
    requires Embeds(code, pc, Gen(rs, depth, ver, t, opt, tt, fl), pos)
    requires opt ==> OptFrame(code, pc + |Gen(rs, depth, ver, t, opt, tt, fl)|, stk)
    ensures Good(ev, code, s, Run(pc, i, stk, caps), pc + |Gen(rs, depth, ver, t, opt, tt, fl)|, stk, caps, fl,
                 Match(rs, t, s, i, fuel))
    decreases fuel, t, 2
  {
    hide Respects, Env, Embeds, Slot, Good, OptFrame, FailTo, EncodeAll, Step, Match, Gen, OptSafe, WellFormed,
         GetFirst, HeadFail, Levels, FixedLenX, NeedFollow;
    var fl1 := Follow1(rs, depth, t.p1, t.p2, fl);
    var tt2 := Test2(rs, t.p1, tt);
    var c1 := Gen(rs, depth, ver, t.p1, false, tt, fl1);
    var c2 := Gen(rs, depth, ver, t.p2, opt, tt2, fl);
    GenSeqIs(rs, depth, ver, t, opt, tt, fl);
    FitsSeq(rs, depth, ver, t, opt, fl);
    MatchSeq(rs, t, s, i, fuel);
    EmbedsConcat(code, pc, c1, c2, pos);
    Sim(ev, code, s, rs, depth, ver, pos, pc, t.p1, false, tt, fl1, i, stk, caps, fuel);
    var r1 := Match(rs, t.p1, s, i, fuel);
    var r2 := Out;
    if r1.Ok? {
      var caps1 := caps + EncodeAll(r1.caps);
      LevelsUp(stk, |caps|, |caps1|);
      if FixedLen(rs, t.p1) == 0 { FixedLenSound(rs, t.p1, 0, 0, s, i, fuel); }
      r2 := Match(rs, t.p2, s, r1.pos, fuel);
      Sim(ev, code, s, rs, depth, ver, pos, pc + |c1|, t.p2, opt, tt2, fl, r1.pos, stk, caps1, fuel);
    }
    SeqCase(ev, code, s, pc, pc + |c1|, pc + |c1| + |c2|, i, stk, caps, rs, depth, t.p2, fl1, fl, r1, r2, fuel);
  }

  lemma {:induction false} SimChoice(ev: Ev, code: Code, s: Subject, rs: seq<Tree>, depth: nat, ver: Version,
                                     pos: seq<int>, pc: int, t: Tree,
      opt: bool, tt: Test, fl: Charset, i: nat, stk: Stack, caps: seq<Entry>, fuel: nat)
    requires t.TChoice?
    requires Respects(ev, code, s) && Env(code, rs, depth, ver, pos) && Fits(rs, depth, ver, t, opt, fl)
    requires Ready(s, tt, i, stk, caps) && pc >= 0
    requires Embeds(code, pc, GenChoice(rs, depth, ver, t, opt, fl), pos)
    requires opt ==> OptFrame(code, pc + |GenChoice(rs, depth, ver, t, opt, fl)|, stk)
    ensures Good(ev, code, s, Run(pc, i, stk, caps), pc + |GenChoice(rs, depth, ver, t, opt, fl)|, stk, caps, fl,
                 Match(rs, t, s, i, fuel))
    decreases fuel, t, 2
  {
    hide Respects, Env, Embeds, Slot, Good, OptFrame, FailTo, EncodeAll, Step, Match, Gen, OptSafe, WellFormed,
         GetFirst, HeadFail, Levels, GenChoice;
    if ChoiceByTest(rs, depth, t.p1, t.p2, fl) {
      SimChoiceTest(ev, code, s, rs, depth, ver, pos, pc, t, opt, tt, fl, i, stk, caps, fuel);
    } else if opt && t.p2.TTrue? {
      SimChoiceOpt(ev, code, s, rs, depth, ver, pos, pc, t, opt, tt, fl, i, stk, caps, fuel);
    } else {
      SimChoiceFull(ev, code, s, rs, depth, ver, pos, pc, t, opt, tt, fl, i, stk, caps, fuel);
    }
  }

  lemma {:induction false} SimChoiceTest(ev: Ev, code: Code, s: Subject, rs: seq<Tree>, depth: nat, ver: Version,
                                         pos: seq<int>, pc: int, t: Tree,
      opt: bool, tt: Test, fl: Charset, i: nat, stk: Stack, caps: seq<Entry>, fuel: nat)
    requires t.TChoice? && ChoiceByTest(rs, depth, t.p1, t.p2, fl)
    requires Respects(ev, code, s) && Env(code, rs, depth, ver, pos) && Fits(rs, depth, ver, t, opt, fl)
    requires Ready(s, tt, i, stk, caps) && pc >= 0
    requires Embeds(code, pc, GenChoice(rs, depth, ver, t, opt, fl), pos)
    requires opt ==> OptFrame(code, pc + |GenChoice(rs, depth, ver, t, opt, fl)|, stk)
    ensures Good(ev, code, s, Run(pc, i, stk, caps), pc + |GenChoice(rs, depth, ver, t, opt, fl)|, stk, caps, fl,
                 Match(rs, t, s, i, fuel))
    decreases fuel, t, 1
  {
    hide Respects, Env, Embeds, Slot, Good, OptFrame, FailTo, EncodeAll, Step, Match, Gen, OptSafe, WellFormed,
         GetFirst, HeadFail, Levels, CodeTest, ChoiceTestCode;
    var f1 := GetFirst(rs, t.p1, FULL, depth);
    var test := CodeTest(f1.cs, false);
    var c1 := Gen(rs, depth, ver, t.p1, false, test, fl);
    var c2 := Gen(rs, depth, ver, t.p2, opt, NoTest, fl);
    var emptyp2 := t.p2.TTrue?;
    EmptyCode(rs, depth, ver, t.p2, opt, fl);
    FitsChoice(rs, depth, ver, t, opt, fl);
    MatchChoice(rs, t, s, i, fuel);
    ChoiceTestParts(code, pos, pc, test, c1, c2, emptyp2);
    var r1 := Match(rs, t.p1, s, i, fuel);
    var r2 := Match(rs, t.p2, s, i, fuel);
    TestDecides(rs, depth, t.p1, s, i, fuel);
    if Passes(test, s, i) {
      Sim(ev, code, s, rs, depth, ver, pos, pc + TestLen(test), t.p1, false, test, fl, i, stk, caps, fuel);
      if !HeadFail(rs, t.p1, depth) { FirstSound(rs, t.p2, fl, s, i, fuel, depth); }
    } else {
      var at := pc + |ChoiceTestCode(test, c1, c2, emptyp2)| - |c2|;
      Sim(ev, code, s, rs, depth, ver, pos, at, t.p2, opt, NoTest, fl, i, stk, caps, fuel);
    }
    ChoiceTestCase(ev, code, s, pos, pc, test, c1, c2, emptyp2, i, stk, caps, fl, r1, r2);
  }

  lemma {:induction false} SimChoiceOpt(ev: Ev, code: Code, s: Subject, rs: seq<Tree>, depth: nat, ver: Version,
                                        pos: seq<int>, pc: int, t: Tree,
      opt: bool, tt: Test, fl: Charset, i: nat, stk: Stack, caps: seq<Entry>, fuel: nat)
    requires t.TChoice? && !ChoiceByTest(rs, depth, t.p1, t.p2, fl) && opt && t.p2.TTrue?
    requires Respects(ev, code, s) && Env(code, rs, depth, ver, pos) && Fits(rs, depth, ver, t, opt, fl)
    requires Ready(s, tt, i, stk, caps) && pc >= 0
    requires Embeds(code, pc, GenChoice(rs, depth, ver, t, opt, fl), pos)
    requires opt ==> OptFrame(code, pc + |GenChoice(rs, depth, ver, t, opt, fl)|, stk)
    ensures Good(ev, code, s, Run(pc, i, stk, caps), pc + |GenChoice(rs, depth, ver, t, opt, fl)|, stk, caps, fl,
                 Match(rs, t, s, i, fuel))
    decreases fuel, t, 1
  {
    hide Respects, Env, Embeds, Slot, Good, OptFrame, FailTo, EncodeAll, Step, Match, Gen, OptSafe, WellFormed,
         GetFirst, HeadFail, Levels;
    FitsChoice(rs, depth, ver, t, opt, fl);
    MatchChoice(rs, t, s, i, fuel);
    var c1 := Gen(rs, depth, ver, t.p1, true, NoTest, FULL);
    OptTop(code, pc + 2 + |c1|, stk);
    var stk1 := Push(Choice(stk.top.pc, i, |caps|), stk.below);
    EmbedsConcat(code, pc, [IPartialCommit(2), IPad], c1, pos);
    LevelsBelow(stk, |caps|);
    LevelsPush(stk.below, stk1.top, |caps|);
    OptSwap(code, pc + 2 + |c1|, stk, i, |caps|);
    Sim(ev, code, s, rs, depth, ver, pos, pc + 2, t.p1, true, NoTest, FULL, i, stk1, caps, fuel);
    ChoiceOptCase(ev, code, s, pos, pc, c1, i, stk, caps, Match(rs, t.p1, s, i, fuel));
  }

  lemma {:induction false} SimChoiceFull(ev: Ev, code: Code, s: Subject, rs: seq<Tree>, depth: nat, ver: Version,
                                         pos: seq<int>, pc: int, t: Tree,
      opt: bool, tt: Test, fl: Charset, i: nat, stk: Stack, caps: seq<Entry>, fuel: nat)
    requires t.TChoice? && !ChoiceByTest(rs, depth, t.p1, t.p2, fl) && !(opt && t.p2.TTrue?)
    requires Respects(ev, code, s) && Env(code, rs, depth, ver, pos) && Fits(rs, depth, ver, t, opt, fl)
    requires Ready(s, tt, i, stk, caps) && pc >= 0
    requires Embeds(code, pc, GenChoice(rs, depth, ver, t, opt, fl), pos)
    requires opt ==> OptFrame(code, pc + |GenChoice(rs, depth, ver, t, opt, fl)|, stk)
    ensures Good(ev, code, s, Run(pc, i, stk, caps), pc + |GenChoice(rs, depth, ver, t, opt, fl)|, stk, caps, fl,
                 Match(rs, t, s, i, fuel))
    decreases fuel, t, 1
  {
    hide Respects, Env, Embeds, Slot, Good, OptFrame, FailTo, EncodeAll, Step, Match, Gen, OptSafe, WellFormed,
         GetFirst, HeadFail, Levels, CodeTest, ChoiceCode;
    var f1 := GetFirst(rs, t.p1, FULL, depth);
    var test := CodeTest(f1.cs, f1.empty);
    var emptyp2 := t.p2.TTrue?;
    var c1 := Gen(rs, depth, ver, t.p1, emptyp2, test, FULL);
    var c2 := Gen(rs, depth, ver, t.p2, opt, NoTest, fl);
    EmptyCode(rs, depth, ver, t.p2, opt, fl);
    FitsChoice(rs, depth, ver, t, opt, fl);
    MatchChoice(rs, t, s, i, fuel);
    ChoiceParts(code, pos, pc, test, c1, c2);
    var at := pc + TestLen(test) + 2;
    var r1 := Match(rs, t.p1, s, i, fuel);
    TestDecides(rs, depth, t.p1, s, i, fuel);
    if Passes(test, s, i) {
      var stk1 := Push(Choice(at + |c1| + 2, i, |caps|), stk);
      LevelsPush(stk, stk1.top, |caps|);
      if emptyp2 { CommitFrame(code, pos, at, |c1|, i, stk, caps); }
      Sim(ev, code, s, rs, depth, ver, pos, at, t.p1, emptyp2, test, FULL, i, stk1, caps, fuel);
    }
    if r1.Fail? {
      Sim(ev, code, s, rs, depth, ver, pos, at + |c1| + 2, t.p2, opt, NoTest, fl, i, stk, caps, fuel);
    }
    ChoiceCase(ev, code, s, pos, pc, test, c1, c2, i, stk, caps, fl, r1, Match(rs, t.p2, s, i, fuel));
  }

  lemma {:induction false} SimRep(ev: Ev, code: Code, s: Subject, rs: seq<Tree>, depth: nat, ver: Version,
                                  pos: seq<int>, pc: int, t: Tree,
      opt: bool, tt: Test, fl: Charset, i: nat, stk: Stack, caps: seq<Entry>, fuel: nat)
    requires t.TRep?
    requires Respects(ev, code, s) && Env(code, rs, depth, ver, pos) && Fits(rs, depth, ver, t, opt, fl)
    requires Ready(s, tt, i, stk, caps) && pc >= 0
    requires Embeds(code, pc, GenRep(rs, depth, ver, t, opt, fl), pos)
    requires opt ==> OptFrame(code, pc + |GenRep(rs, depth, ver, t, opt, fl)|, stk)
    ensures Good(ev, code, s, Run(pc, i, stk, caps), pc + |GenRep(rs, depth, ver, t, opt, fl)|, stk, caps, fl,
                 Match(rs, t, s, i, fuel))
    decreases fuel, t, 2
  {
    hide Respects, Env, Embeds, Slot, Good, OptFrame, FailTo, EncodeAll, Step, Match, Gen, OptSafe, WellFormed,
         GetFirst, HeadFail, Levels, RepCode, RepTestCode, CodeTest, UsesOpt;
    FitsRep(rs, depth, ver, t, opt, fl);
    if IsCharset(t.p) {
      SpanCase(ev, code, s, pos, pc, rs, t.p, i, stk, caps, fl, fuel);
    } else if RepByTest(rs, depth, t.p, fl) {
      if ver.passOpt && opt { OptUnused(rs, depth, ver, t.p, CodeTest(GetFirst(rs, t.p, FULL, depth).cs, false)); }
      SimRepTest(ev, code, s, rs, depth, ver, pos, pc, t, fl, i, stk, caps, fuel);
    } else {
      SimRepFull(ev, code, s, rs, depth, ver, pos, pc, t, opt, tt, fl, i, stk, caps, fuel);
    }
  }

  lemma {:induction false} SimRepFull(ev: Ev, code: Code, s: Subject, rs: seq<Tree>, depth: nat, ver: Version,
                                      pos: seq<int>, pc: int, t: Tree,
      opt: bool, tt: Test, fl: Charset, i: nat, stk: Stack, caps: seq<Entry>, fuel: nat)
    requires t.TRep? && !IsCharset(t.p) && !RepByTest(rs, depth, t.p, fl)
    requires Respects(ev, code, s) && Env(code, rs, depth, ver, pos) && Fits(rs, depth, ver, t, opt, fl)
    requires Ready(s, tt, i, stk, caps) && pc >= 0
    requires Embeds(code, pc, GenRep(rs, depth, ver, t, opt, fl), pos)
    requires opt ==> OptFrame(code, pc + |GenRep(rs, depth, ver, t, opt, fl)|, stk)
    ensures Good(ev, code, s, Run(pc, i, stk, caps), pc + |GenRep(rs, depth, ver, t, opt, fl)|, stk, caps, fl,
                 Match(rs, t, s, i, fuel))
    decreases fuel, t, 1
  {
    hide Respects, Env, Embeds, Slot, Good, OptFrame, FailTo, EncodeAll, Step, Match, Gen, OptSafe, WellFormed,
         GetFirst, HeadFail, Levels, RepCode, CodeTest, Exits;
    var f := GetFirst(rs, t.p, FULL, depth);
    var c := Gen(rs, depth, ver, t.p, false, NoTest, FULL);
    var test := CodeTest(f.cs, f.empty);
    FitsRep(rs, depth, ver, t, opt, fl);
    MatchRep(rs, t, s, i, fuel);
    RepParts(code, pos, pc, test, c, opt);
    TestDecides(rs, depth, t.p, s, i, fuel);
    var body := pc + TestLen(test) + 2;
    var end := body + |c| + 2;
    if Passes(test, s, i) {
      if opt {
        OptTop(code, end, stk);
        CommitExits(ev, code, s, end, stk);
        LevelsBelow(stk, |caps|);
        SimRepLoop(ev, code, s, rs, depth, ver, pos, body, t, end, stk, stk.top.pc, stk.below, fl, i, caps, fuel);
      } else {
        ExitsHere(ev, code, s, end, stk);
        SimRepLoop(ev, code, s, rs, depth, ver, pos, body, t, end, stk, end, stk, fl, i, caps, fuel);
      }
    }
    RepEntry(ev, code, s, pos, pc, test, c, opt, i, stk, caps, fl, Match(rs, t.p, s, i, fuel),
             Match(rs, t, s, i, fuel));
  }

  /** The loop guarded by a test alone, with nothing but the test to tell when to stop. */
  lemma {:induction false} SimRepTest(ev: Ev, code: Code, s: Subject, rs: seq<Tree>, depth: nat, ver: Version,
                                      pos: seq<int>, pc: int, t: Tree,
      fl: Charset, i: nat, stk: Stack, caps: seq<Entry>, fuel: nat)
    requires t.TRep? && !IsCharset(t.p) && RepByTest(rs, depth, t.p, fl)
    requires Respects(ev, code, s) && Env(code, rs, depth, ver, pos) && Fits(rs, depth, ver, t.p, false, FULL)
    requires Ready(s, NoTest, i, stk, caps) && pc >= 0
    requires Embeds(code, pc, GenRep(rs, depth, ver, t, false, fl), pos)
    ensures Good(ev, code, s, Run(pc, i, stk, caps), pc + |GenRep(rs, depth, ver, t, false, fl)|, stk, caps, fl,
                 Match(rs, t, s, i, fuel))
    decreases fuel, t, 1
  {
    hide Respects, Env, Embeds, Slot, Good, OptFrame, FailTo, EncodeAll, Step, Match, Gen, OptSafe, WellFormed,
         GetFirst, HeadFail, Levels, RepTestCode, CodeTest;
    var f := GetFirst(rs, t.p, FULL, depth);
    var test := CodeTest(f.cs, false);
    var c := Gen(rs, depth, ver, t.p, false, test, FULL);
    var r := Match(rs, t.p, s, i, fuel);
    MatchRep(rs, t, s, i, fuel);
    RepTestParts(code, pos, pc, test, c);
    TestDecides(rs, depth, t.p, s, i, fuel);
    if Passes(test, s, i) {
      Sim(ev, code, s, rs, depth, ver, pos, pc + TestLen(test), t.p, false, test, FULL, i, stk, caps, fuel);
    }
    var r2 := Out;
    if r.Ok? && fuel > 0 {
      var caps1 := caps + EncodeAll(r.caps);
      LevelsUp(stk, |caps|, |caps1|);
      SimRepTest(ev, code, s, rs, depth, ver, pos, pc, t, fl, r.pos, stk, caps1, fuel - 1);
      r2 := Match(rs, t, s, r.pos, fuel - 1);
    } else if r.Ok? {
      GoodOut(ev, code, s, Run(pc, r.pos, stk, caps + EncodeAll(r.caps)), pc + |GenRep(rs, depth, ver, t, false, fl)|,
              stk, caps + EncodeAll(r.caps), fl);
    }
    RepTestCase(ev, code, s, pos, pc, test, c, i, stk, caps, fl, r, r2);
  }

  /** The loop that keeps a choice up to date. */
  lemma {:induction false} SimRepLoop(ev: Ev, code: Code, s: Subject, rs: seq<Tree>, depth: nat, ver: Version,
                                      pos: seq<int>, body: int, t: Tree,
      end: int, stk: Stack, exit: int, below: Stack, fl: Charset, i: nat, caps: seq<Entry>, fuel: nat)
    requires t.TRep? && body >= 0
    requires Respects(ev, code, s) && Env(code, rs, depth, ver, pos) && Fits(rs, depth, ver, t.p, false, FULL)
    requires Ready(s, NoTest, i, stk, caps) && Levels(below, |caps|)
    requires Embeds(code, body, Gen(rs, depth, ver, t.p, false, NoTest, FULL), pos)
    requires var c := Gen(rs, depth, ver, t.p, false, NoTest, FULL); Slot(code, body + |c|, IPartialCommit(-|c|), pos)
    requires Exits(ev, code, s, end, stk, exit, below)
    ensures Good(ev, code, s, Run(body, i, Push(Choice(exit, i, |caps|), below), caps), end, stk, caps, fl,
                 Match(rs, t, s, i, fuel))
    decreases fuel, t, 0
  {
    hide Respects, Env, Embeds, Slot, Good, OptFrame, FailTo, EncodeAll, Step, Match, Gen, OptSafe, WellFormed,
         GetFirst, HeadFail, Levels, Exits;
    var c := Gen(rs, depth, ver, t.p, false, NoTest, FULL);
    var r := Match(rs, t.p, s, i, fuel);
    MatchRep(rs, t, s, i, fuel);
    LevelsPush(below, Choice(exit, i, |caps|), |caps|);
    Sim(ev, code, s, rs, depth, ver, pos, body, t.p, false, NoTest, FULL, i, Push(Choice(exit, i, |caps|), below),
        caps, fuel);
    var r2 := Out;
    if r.Ok? {
      var caps1 := caps + EncodeAll(r.caps);
      LevelsUp(stk, |caps|, |caps1|);
      LevelsUp(below, |caps|, |caps1|);
      if fuel > 0 {
        SimRepLoop(ev, code, s, rs, depth, ver, pos, body, t, end, stk, exit, below, fl, r.pos, caps1, fuel - 1);
        r2 := Match(rs, t, s, r.pos, fuel - 1);
      } else {
        GoodOut(ev, code, s, Run(body, r.pos, Push(Choice(exit, r.pos, |caps1|), below), caps1), end, stk, caps1, fl);
      }
    }
    RepCase(ev, code, s, pos, body, c, end, stk, exit, below, i, caps, fl, r, r2);
  }

  lemma {:induction false} SimNot(ev: Ev, code: Code, s: Subject, rs: seq<Tree>, depth: nat, ver: Version,
                                  pos: seq<int>, pc: int, t: Tree,
      opt: bool, tt: Test, fl: Charset, i: nat, stk: Stack, caps: seq<Entry>, fuel: nat)
    requires t.TNot?
    requires Respects(ev, code, s) && Env(code, rs, depth, ver, pos) && Fits(rs, depth, ver, t, opt, fl)
    requires Ready(s, tt, i, stk, caps) && pc >= 0
    requires Embeds(code, pc, GenNot(rs, depth, ver, t), pos)
    ensures Good(ev, code, s, Run(pc, i, stk, caps), pc + |GenNot(rs, depth, ver, t)|, stk, caps, fl,
                 Match(rs, t, s, i, fuel))
    decreases fuel, t, 2
  {
    hide Respects, Env, Embeds, Slot, Good, OptFrame, FailTo, EncodeAll, Step, Match, Gen, OptSafe, WellFormed,
         GetFirst, HeadFail, Levels, NotCode, CodeTest, TestCode;
    var f := GetFirst(rs, t.p, FULL, depth);
    var test := CodeTest(f.cs, f.empty);
    var r := Match(rs, t.p, s, i, fuel);
    FitsOne(rs, depth, ver, t, opt, fl);
    MatchOne(rs, t, s, i, fuel);
    TestDecides(rs, depth, t.p, s, i, fuel);
    if HeadFail(rs, t.p, depth) {
      NotHeadCase(ev, code, s, pos, pc, test, i, stk, caps, fl, r);
    } else {
      var c := Gen(rs, depth, ver, t.p, false, NoTest, FULL);
      NotParts(code, pos, pc, test, c);
      var at := pc + TestLen(test) + 2;
      var stk1 := Push(Choice(at + |c| + 1, i, |caps|), stk);
      LevelsPush(stk, stk1.top, |caps|);
      Sim(ev, code, s, rs, depth, ver, pos, at, t.p, false, NoTest, FULL, i, stk1, caps, fuel);
      NotCase(ev, code, s, pos, pc, test, c, i, stk, caps, fl, r);
    }
  }

  lemma {:induction false} SimAnd(ev: Ev, code: Code, s: Subject, rs: seq<Tree>, depth: nat, ver: Version,
                                  pos: seq<int>, pc: int, t: Tree,
      opt: bool, tt: Test, fl: Charset, i: nat, stk: Stack, caps: seq<Entry>, fuel: nat)
    requires t.TAnd?
    requires Respects(ev, code, s) && Env(code, rs, depth, ver, pos) && Fits(rs, depth, ver, t, opt, fl)
    requires Ready(s, tt, i, stk, caps) && pc >= 0
    requires Embeds(code, pc, GenAnd(rs, depth, ver, t, tt), pos)
    ensures Good(ev, code, s, Run(pc, i, stk, caps), pc + |GenAnd(rs, depth, ver, t, tt)|, stk, caps, fl,
                 Match(rs, t, s, i, fuel))
    decreases fuel, t, 2
  {
    hide Respects, Env, Embeds, Slot, Good, OptFrame, FailTo, EncodeAll, Step, Match, Gen, OptSafe, WellFormed,
         GetFirst, HeadFail, Levels, HasCaptures, FixedLenX;
    var n := FixedLen(rs, t.p);
    var c := Gen(rs, depth, ver, t.p, false, tt, FULL);
    var r := Match(rs, t.p, s, i, fuel);
    FitsOne(rs, depth, ver, t, opt, fl);
    MatchOne(rs, t, s, i, fuel);
    if 0 <= n <= MAXBEHIND && HasCaptures(rs, t.p, depth).Nothing? {
      EmbedsConcat(code, pc, c, if n > 0 then [IBehind(n)] else [], pos);
      Sim(ev, code, s, rs, depth, ver, pos, pc, t.p, false, tt, FULL, i, stk, caps, fuel);
      FixedLenSound(rs, t.p, 0, 0, s, i, fuel);
      NoCaptures(rs, t.p, s, i, fuel, depth);
      AndBehindCase(ev, code, s, pos, pc, c, n, i, stk, caps, fl, r);
    } else {
      var ch: Code := [IChoice(2 + |c| + 2), IPad];
      EmbedsConcat(code, pc, ch + c, [IBackCommit(3), IPad, IFail], pos);
      EmbedsConcat(code, pc, ch, c, pos);
      var stk1 := Push(Choice(pc + 2 + |c| + 2, i, |caps|), stk);
      LevelsPush(stk, stk1.top, |caps|);
      Sim(ev, code, s, rs, depth, ver, pos, pc + 2, t.p, false, tt, FULL, i, stk1, caps, fuel);
      AndChoiceCase(ev, code, s, pos, pc, c, i, stk, caps, fl, r);
    }
  }

  lemma {:induction false} SimCapture(ev: Ev, code: Code, s: Subject, rs: seq<Tree>, depth: nat, ver: Version,
                                      pos: seq<int>, pc: int, t: Tree,
      opt: bool, tt: Test, fl: Charset, i: nat, stk: Stack, caps: seq<Entry>, fuel: nat)
    requires t.TCapture?
    requires Respects(ev, code, s) && Env(code, rs, depth, ver, pos) && Fits(rs, depth, ver, t, opt, fl)
    requires Ready(s, tt, i, stk, caps) && pc >= 0
    requires Embeds(code, pc, GenCapture(rs, depth, ver, t, tt, fl), pos)
    ensures Good(ev, code, s, Run(pc, i, stk, caps), pc + |GenCapture(rs, depth, ver, t, tt, fl)|, stk, caps, fl,
                 Match(rs, t, s, i, fuel))
    decreases fuel, t, 2
  {
    hide Respects, Env, Embeds, Slot, Good, OptFrame, FailTo, EncodeAll, Step, Match, Gen, OptSafe, WellFormed,
         GetFirst, HeadFail, Levels, HasCaptures, FixedLenX;
    var n := FixedLen(rs, t.p);
    var c := Gen(rs, depth, ver, t.p, false, tt, fl);
    var r := Match(rs, t.p, s, i, fuel);
    FitsOne(rs, depth, ver, t, opt, fl);
    MatchOne(rs, t, s, i, fuel);
    if 0 <= n <= MAXOFF && HasCaptures(rs, t.p, depth).Nothing? {
      EmbedsConcat(code, pc, c, [IFullCapture(t.kind, t.key, n)], pos);
      Sim(ev, code, s, rs, depth, ver, pos, pc, t.p, false, tt, fl, i, stk, caps, fuel);
      FixedLenSound(rs, t.p, 0, 0, s, i, fuel);
      NoCaptures(rs, t.p, s, i, fuel, depth);
      FullCaptureCase(ev, code, s, pos, pc, t.kind, t.key, c, n, i, stk, caps, fl, r);
    } else {
      EmbedsConcat(code, pc, [IOpenCapture(t.kind, t.key)] + c, [ICloseCapture], pos);
      EmbedsConcat(code, pc, [IOpenCapture(t.kind, t.key)], c, pos);
      var caps1 := caps + [Entry(i, t.key, t.kind, 0)];
      LevelsUp(stk, |caps|, |caps1|);
      Sim(ev, code, s, rs, depth, ver, pos, pc + 1, t.p, false, tt, fl, i, stk, caps1, fuel);
      OpenCaptureCase(ev, code, s, pos, pc, t.kind, t.key, c, i, stk, caps, fl, r);
    }
  }

  lemma {:induction false} SimBehind(ev: Ev, code: Code, s: Subject, rs: seq<Tree>, depth: nat, ver: Version,
                                     pos: seq<int>, pc: int, t: Tree,
      opt: bool, tt: Test, fl: Charset, i: nat, stk: Stack, caps: seq<Entry>, fuel: nat)
    requires t.TBehind?
    requires Respects(ev, code, s) && Env(code, rs, depth, ver, pos) && Fits(rs, depth, ver, t, opt, fl)
    requires Ready(s, tt, i, stk, caps) && pc >= 0
    requires Embeds(code, pc, Gen(rs, depth, ver, t, opt, tt, fl), pos)
    requires opt ==> OptFrame(code, pc + |Gen(rs, depth, ver, t, opt, tt, fl)|, stk)
    ensures Good(ev, code, s, Run(pc, i, stk, caps), pc + |Gen(rs, depth, ver, t, opt, tt, fl)|, stk, caps, fl,
                 Match(rs, t, s, i, fuel))
    decreases fuel, t, 2
  {
    hide Respects, Env, Embeds, Slot, Good, OptFrame, FailTo, EncodeAll, Step, Match, Gen, OptSafe, WellFormed,
         GetFirst, HeadFail, Levels, FixedLenX, CaptureFree, Laid;
    FitsOne(rs, depth, ver, t, opt, fl);
    GenBehindIs(rs, depth, ver, t, opt, tt, fl);
    MatchBehind(rs, t, s, i, fuel);
    var c := Gen(rs, depth, ver, t.p, false, NoTest, FULL);
    EmbedsConcat(code, pc, [IBehind(t.n)], c, pos);
    if t.n > i {
      BehindCase(ev, code, s, pos, pc, t.n, c, i, stk, caps, fl, Out);
    } else {
      Sim(ev, code, s, rs, depth, ver, pos, pc + 1, t.p, false, NoTest, FULL, i - t.n, stk, caps, fuel);
      FixedLenClosed(rs, t.p, 0, 0);
      FixedLenSound(rs, t.p, 0, 0, s, i - t.n, fuel);
      FixedNoCaptures(rs, t.p, 0, 0, s, i - t.n, fuel);
      BehindCase(ev, code, s, pos, pc, t.n, c, i, stk, caps, fl, Match(rs, t.p, s, i - t.n, fuel));
    }
  }

  lemma {:induction false} SimCall(ev: Ev, code: Code, s: Subject, rs: seq<Tree>, depth: nat, ver: Version,
                                   pos: seq<int>, pc: int, t: Tree,
      opt: bool, tt: Test, fl: Charset, i: nat, stk: Stack, caps: seq<Entry>, fuel: nat)
    requires t.TCall?
    requires Respects(ev, code, s) && Env(code, rs, depth, ver, pos) && Fits(rs, depth, ver, t, opt, fl)
    requires Ready(s, tt, i, stk, caps) && pc >= 0
    requires Embeds(code, pc, Gen(rs, depth, ver, t, opt, tt, fl), pos)
    requires opt ==> OptFrame(code, pc + |Gen(rs, depth, ver, t, opt, tt, fl)|, stk)
    ensures Good(ev, code, s, Run(pc, i, stk, caps), pc + |Gen(rs, depth, ver, t, opt, tt, fl)|, stk, caps, fl,
                 Match(rs, t, s, i, fuel))
    decreases fuel, t, 2
  {
    hide Respects, Env, Embeds, Slot, Good, OptFrame, FailTo, EncodeAll, Step, Match, Gen, OptSafe, WellFormed,
         GetFirst, HeadFail, Levels;
    FitsOne(rs, depth, ver, t, opt, fl);
    GenCallIs(rs, depth, ver, t, opt, tt, fl);
    MatchCall(rs, t, s, i, fuel);
    if fuel > 0 {
      var k := t.rule;
      SlotAt(code, pc, [IOpenCall(k), IPad], pos, 0);
      RuleFits(code, rs, depth, ver, pos, k);
      CallSlot(code, pc, k, pos);
      var stk1 := if code[pc].ICall? then Push(Return(pc + 2), stk) else stk;
      LevelsPush(stk, Return(pc + 2), |caps|);
      Sim(ev, code, s, rs, depth, ver, pos, pos[k], rs[k], false, NoTest, FULL, i, stk1, caps, fuel - 1);
      CallCase(ev, code, s, pos, pc, k, pos[k] + |RuleCode(rs, depth, ver, k)|, i, stk, caps, fl,
               Match(rs, rs[k], s, i, fuel - 1));
    } else {
      GoodOut(ev, code, s, Run(pc, i, stk, caps), pc + 2, stk, caps, fl);
    }
  }

  lemma {:induction false} SimGrammar(ev: Ev, code: Code, s: Subject, rs: seq<Tree>, depth: nat, ver: Version,
                                      pos: seq<int>, pc: int, t: Tree,
      opt: bool, tt: Test, fl: Charset, i: nat, stk: Stack, caps: seq<Entry>, fuel: nat)
    requires t.TGrammar?
    requires Respects(ev, code, s) && Env(code, rs, depth, ver, pos) && Fits(rs, depth, ver, t, opt, fl)
    requires Ready(s, tt, i, stk, caps) && pc >= 0
    requires Embeds(code, pc, LinkedCode(t, depth, ver), pos)
    ensures Good(ev, code, s, Run(pc, i, stk, caps), pc + |LinkedCode(t, depth, ver)|, stk, caps, fl,
                 Match(rs, t, s, i, fuel))
    decreases fuel, t, 2
  {
    hide Respects, Env, Embeds, Slot, Good, OptFrame, FailTo, EncodeAll, Step, Match, Gen, OptSafe, WellFormed,
         GetFirst, HeadFail, Levels, Loaded, CorrectFrom, RulesCode, RulePositions, Positions, WellFormedRules,
         OptSafeRules, NarrowRules;
    var ps := Positions(t, depth, ver, pc);
    GrammarFits(rs, depth, ver, t, opt, fl);
    MatchGrammar(rs, t, s, i, fuel);
    GrammarLoaded(code, pos, pc, t, depth, ver);
    GrammarEnv(code, t, depth, ver, ps);
    FirstPosition(t, depth, ver, pc);
    RuleFits(code, t.rules, depth, ver, ps, 0);
    LevelsPush(stk, Return(pc + 2), |caps|);
    Sim(ev, code, s, t.rules, depth, ver, ps, pc + 4, t.rules[0], false, NoTest, FULL, i, Push(Return(pc + 2), stk),
        caps, fuel);
    RetSlot(code, pc + 4 + |RuleCode(t.rules, depth, ver, 0)|, ps, pos);
    GrammarCase(ev, code, s, pos, pc, CorrectCalls(RulesCode(t, depth, ver, 0), RulePositions(t, depth, ver, 0, 0)),
                pc + 4 + |RuleCode(t.rules, depth, ver, 0)|, i, stk, caps, fl, Match(t.rules, t.rules[0], s, i, fuel));
  }

  // ---------- Whole programs ----------

  /** The verdict that the semantics calls for. */
  function Expected(r: Result): Verdict
    requires !r.Out?
  {
    if r.Ok? then Matched(r.pos, EncodeAll(r.caps)) else GaveUp
  }

  lemma EmbedsSelf(c: Code, rest: Code)
    requires Laid(c, 0)
    ensures Embeds(c + rest, 0, c, [])
  {
    forall k | 0 <= k < |c|
      ensures Slot(c + rest, 0 + k, c[k], [])
    {
      assert (c + rest)[k] == c[k];
    }
  }

  lemma EvalRespects(ev: Ev, code: Code, s: Subject)
    requires forall st :: ev(st) == Eval(code, s, st)
    ensures Respects(ev, code, s)
  {
    forall st
      ensures ev(Step(code, s, st)) == ev(st)
    {
      EvalStep(code, s, st);
    }
  }

  /** The simulation, for a whole program. */
  lemma ProgramSim(ev: Ev, depth: nat, ver: Version, t: Tree, s: Subject, i: nat, fuel: nat)
    requires WellFormed(t, 0) && OptSafe([], depth, ver, t, false, FULL) && Narrow(ver, t) && i <= |s|
    requires Respects(ev, CompileTree(depth, ver, t), s)
    ensures var c := Gen([], depth, ver, t, false, NoTest, FULL);
      Good(ev, c + [IEnd], s, Initial(i), |c|, Push(Choice(GIVEUP, i, 0), Nil), [], FULL, Match([], t, s, i, fuel))
  {
    hide Good, Gen, Match, Embeds, Env, Respects, OptSafe, WellFormed;
    var c := Gen([], depth, ver, t, false, NoTest, FULL);
    GenLaid([], depth, ver, t, false, NoTest, FULL, 0);
    NoRules(c + [IEnd], depth, ver);
    EmbedsSelf(c, [IEnd]);
    var stk := Push(Choice(GIVEUP, i, 0), Nil);
    LevelsPush(Nil, Choice(GIVEUP, i, 0), 0);
    Sim(ev, c + [IEnd], s, [], depth, ver, [], 0, t, false, NoTest, FULL, i, stk, [], fuel);
  }

  /** Running the compiled tree from position `i` ends with the result of the semantics and its capture list, and no
      assertion of the machine is violated on the way. */
  lemma CompileCorrect(depth: nat, ver: Version, t: Tree, s: Subject, i: nat, fuel: nat)
    requires WellFormed(t, 0) && OptSafe([], depth, ver, t, false, FULL) && Narrow(ver, t) && i <= |s|
    requires !Match([], t, s, i, fuel).Out?
    ensures Eval(CompileTree(depth, ver, t), s, Initial(i)) == Expected(Match([], t, s, i, fuel))
  {
    hide Gen, Match, Respects, OptSafe, WellFormed, Eval;
    var c := Gen([], depth, ver, t, false, NoTest, FULL);
    var code := CompileTree(depth, ver, t);
    var stk := Push(Choice(GIVEUP, i, 0), Nil);
    var r := Match([], t, s, i, fuel);
    var ev: Ev := st => Eval(code, s, st);
    EvalRespects(ev, code, s);
    ProgramSim(ev, depth, ver, t, s, i, fuel);
    if r.Ok? {
      assert [] + EncodeAll(r.caps) == EncodeAll(r.caps);
      EvalIs(code, s, Run(|c|, r.pos, stk, EncodeAll(r.caps)), 1);
    } else {
      EvalIs(code, s, Run(GIVEUP, i, Nil, []), 1);
    }
  }
}
