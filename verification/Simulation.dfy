/** Running generated code computes the meaning of the tree it was generated from. */
module Simulation {
  import opened Common
  import opened Patterns
  import opened Analysis
  import opened Machine
  import opened CodeGen

  // ---------- Capture lists ----------

  /** The entries of a capture when captures without nested ones and shorter than `limit` are single entries. The
      machine leaves the list for UCHAR_MAX. */
  function Entries(c: Cap, limit: nat): (es: seq<Entry>)
    ensures |es| > 0
    decreases c, 0
  {
    if c.nested == [] && c.from <= c.to && c.to - c.from < limit then
      [Entry(c.from, c.key, c.kind, c.to - c.from + 1)]
    else
      [Entry(c.from, c.key, c.kind, 0)] + AllEntries(c.nested, limit) + [Entry(c.to, 0, CCLOSE, 1)]
  }

  function AllEntries(cs: seq<Cap>, limit: nat): seq<Entry>
    decreases cs, 1
  {
    if cs == [] then [] else Entries(cs[0], limit) + AllEntries(cs[1..], limit)
  }

  /** The entries that the machine leaves for captures: offsets go into a byte. */
  function Encode(c: Cap): seq<Entry> {
    Entries(c, UCHAR_MAX)
  }

  function EncodeAll(cs: seq<Cap>): seq<Entry> {
    AllEntries(cs, UCHAR_MAX)
  }

  lemma {:induction false} EncodeConcat(a: seq<Cap>, b: seq<Cap>)
    ensures EncodeAll(a + b) == EncodeAll(a) + EncodeAll(b)
    decreases |a|
  {
    if a == [] {
      assert a + b == b;
    } else {
      assert (a + b)[1..] == a[1..] + b;
      EncodeConcat(a[1..], b);
    }
  }

  lemma EncodeOne(c: Cap)
    ensures EncodeAll([c]) == Encode(c)
  {
    assert [c][1..] == [];
    assert AllEntries([c], UCHAR_MAX) == Entries(c, UCHAR_MAX) + AllEntries([], UCHAR_MAX);
  }

  /** A non-empty encoding never ends in an open entry. */
  lemma {:induction false} EncodeLast(cs: seq<Cap>)
    requires cs != []
    ensures var e := EncodeAll(cs); |e| > 0 && e[|e| - 1].siz > 0
    decreases |cs|
  {
    assert EncodeAll(cs) == Encode(cs[0]) + EncodeAll(cs[1..]);
    if |cs| > 1 { EncodeLast(cs[1..]); } else { EncodeOne(cs[0]); }
  }

  // ---------- Code in place ----------

  /** From `pc`, a chain of jumps ends at a return. */
  ghost predicate ReachesRet(code: Code, pc: int) {
    exists n: nat :: RetWithin(code, pc, n)
  }

  predicate RetWithin(code: Code, pc: int, n: nat)
    decreases n
  {
    0 <= pc < |code| && (code[pc].IRet? || (code[pc].IJmp? && n > 0 && RetWithin(code, pc + code[pc].off, n - 1)))
  }

  /** Slot `x` of the program holds generated instruction `ins`; open calls have been resolved to the rule
      positions `pos`, as calls or as tail calls. */
  ghost predicate Slot(code: Code, x: int, ins: Instr, pos: seq<int>) {
    0 <= x < |code| &&
    if ins.IOpenCall? then
      ins.rule < |pos| &&
      (code[x] == ICall(pos[ins.rule] - x) || (code[x] == IJmp(pos[ins.rule] - x) && ReachesRet(code, x + 2)))
    else code[x] == ins
  }

  ghost predicate Embeds(code: Code, pc: int, c: Code, pos: seq<int>) {
    forall k :: 0 <= k < |c| ==> Slot(code, pc + k, c[k], pos)
  }

  /** Rule `k` is in place, followed by its return. */
  ghost predicate RuleIn(code: Code, rs: seq<Tree>, depth: nat, ver: Version, pos: seq<int>, k: nat)
    requires k < |rs| == |pos|
  {
    && Embeds(code, pos[k], RuleCode(rs, depth, ver, k), pos)
    && Slot(code, pos[k] + |RuleCode(rs, depth, ver, k)|, IRet, pos)
    && pos[k] >= 0
  }

  /** Every rule of the grammar in scope is in place. */
  ghost predicate Loaded(code: Code, rs: seq<Tree>, depth: nat, ver: Version, pos: seq<int>) {
    |pos| == |rs| && forall k :: 0 <= k < |rs| ==> RuleIn(code, rs, depth, ver, pos, k)
  }

  lemma EmbedsConcat(code: Code, pc: int, a: Code, b: Code, pos: seq<int>)
    requires Embeds(code, pc, a + b, pos)
    ensures Embeds(code, pc, a, pos)
    ensures Embeds(code, pc + |a|, b, pos)
  {
    forall k | 0 <= k < |a|
      ensures Slot(code, pc + k, a[k], pos)
    {
      assert (a + b)[k] == a[k];
    }
    forall k | 0 <= k < |b|
      ensures Slot(code, pc + |a| + k, b[k], pos)
    {
      assert (a + b)[|a| + k] == b[k];
    }
  }

  lemma SlotAt(code: Code, pc: int, c: Code, pos: seq<int>, k: nat)
    requires Embeds(code, pc, c, pos) && k < |c|
    ensures Slot(code, pc + k, c[k], pos)
  {
  }

  // ---------- What a run of a fragment must achieve ----------

  /** The run from `st` behaves as result `r` demands: it fails into `stk`, or it arrives at `end` with the stack as
      it was and the captures appended. Code may also fail on a success that what follows is bound to reject: one
      whose next character is not in the follow set. */
  ghost predicate Good(ev: Ev, code: Code, s: Subject, st: State, end: int, stk: Stack, caps: seq<Entry>, fl: Charset,
                       r: Result) {
    match r
    case Out => true
    case Fail => ev(st) == ev(FailTo(stk, caps))
    case Ok(j, cs) =>
      || ev(st) == ev(Run(end, j, stk, caps + EncodeAll(cs)))
      || (j < |s| && s[j] !in fl && ev(st) == ev(FailTo(stk, caps)))
  }

  /** Under 'opt', the fragment ends at the commit of the choice on top of the stack, and both lead to one place. */
  ghost predicate OptFrame(code: Code, end: int, stk: Stack) {
    && stk.Push? && stk.top.Choice?
    && 0 <= end < |code| && code[end] == ICommit(stk.top.pc - end)
  }

  lemma GoodNow(ev: Ev, code: Code, s: Subject, st: State, end: int, stk: Stack, caps: seq<Entry>, fl: Charset, j: nat)
    requires Respects(ev, code, s)
    requires ev(st) == ev(Run(end, j, stk, caps))
    ensures Good(ev, code, s, st, end, stk, caps, fl, Ok(j, []))
  {
    assert caps + EncodeAll([]) == caps;
  }

  /** Sequencing. */
  lemma GoodThen(ev: Ev, code: Code, s: Subject, st: State, mid: int, end: int, k: nat, stk: Stack, caps: seq<Entry>,
                 c1: seq<Cap>, fl: Charset, r2: Result)
    requires Respects(ev, code, s)
    requires Levels(stk, |caps|)
    requires ev(st) == ev(Run(mid, k, stk, caps + EncodeAll(c1)))
    requires Good(ev, code, s, Run(mid, k, stk, caps + EncodeAll(c1)), end, stk, caps + EncodeAll(c1), fl, r2)
    ensures Good(ev, code, s, st, end, stk, caps, fl, Then(c1, r2))
  {
    FailToPrefix(stk, caps, EncodeAll(c1));
    if r2.Ok? {
      EncodeConcat(c1, r2.caps);
      assert caps + EncodeAll(c1 + r2.caps) == caps + EncodeAll(c1) + EncodeAll(r2.caps);
    }
  }

  lemma RunTest(ev: Ev, code: Code, s: Subject, pos: seq<int>, pc: int, test: Test, off: int, i: nat, stk: Stack,
                caps: seq<Entry>)
    requires Respects(ev, code, s)
    requires i <= |s| && pc != GIVEUP
    requires Embeds(code, pc, TestCode(test, off), pos)
    ensures ev(Run(pc, i, stk, caps))
         == ev(Run(if Passes(test, s, i) then pc + TestLen(test) else pc + off, i, stk, caps))
  {
    if !test.NoTest? {
      SlotAt(code, pc, TestCode(test, off), pos, 0);
      EvStep(ev, code, s, Run(pc, i, stk, caps));
    }
  }

  lemma CodeTestPasses(cs: Charset, s: Subject, i: nat)
    ensures Passes(CodeTest(cs, false), s, i) <==> i < |s| && s[i] in cs
  {
  }

  // ---------- One lemma for each shape of code ----------

  lemma CharCase(ev: Ev, code: Code, s: Subject, pos: seq<int>, pc: int, c: Byte, tt: Test, i: nat, stk: Stack,
                 caps: seq<Entry>, fl: Charset)
    requires Respects(ev, code, s)
    requires Embeds(code, pc, CodeChar(c, tt), pos) && pc >= 0 && i <= |s| && Passes(tt, s, i)
    ensures Good(ev, code, s, Run(pc, i, stk, caps), pc + |CodeChar(c, tt)|, stk, caps, fl,
                 if i < |s| && s[i] == c then Ok(i + 1, []) else Fail)
  {
    SlotAt(code, pc, CodeChar(c, tt), pos, 0);
    EvStep(ev, code, s, Run(pc, i, stk, caps));
    if i < |s| && s[i] == c { GoodNow(ev, code, s, Run(pc, i, stk, caps), pc + 1, stk, caps, fl, i + 1); }
  }

  lemma CharsetCase(ev: Ev, code: Code, s: Subject, pos: seq<int>, pc: int, cs: Charset, tt: Test, i: nat, stk: Stack,
                    caps: seq<Entry>, fl: Charset)
    requires Respects(ev, code, s)
    requires Embeds(code, pc, CodeCharset(cs, tt), pos) && pc >= 0 && i <= |s| && Passes(tt, s, i)
    ensures Good(ev, code, s, Run(pc, i, stk, caps), pc + |CodeCharset(cs, tt)|, stk, caps, fl,
                 if i < |s| && s[i] in cs then Ok(i + 1, []) else Fail)
  {
    var k := CharsetType(cs);
    if k.CsSingle? {
      CharCase(ev, code, s, pos, pc, k.c, tt, i, stk, caps, fl);
    } else {
      SlotAt(code, pc, CodeCharset(cs, tt), pos, 0);
      EvStep(ev, code, s, Run(pc, i, stk, caps));
      if i < |s| && s[i] in cs {
        GoodNow(ev, code, s, Run(pc, i, stk, caps), pc + |CodeCharset(cs, tt)|, stk, caps, fl, i + 1);
      }
    }
  }

  lemma ChoiceTestParts(code: Code, pos: seq<int>, pc: int, test: Test, c1: Code, c2: Code, emptyp2: bool)
    requires Embeds(code, pc, ChoiceTestCode(test, c1, c2, emptyp2), pos)
    ensures var jmp: Code := if emptyp2 then [] else [IJmp(2 + |c2|), IPad];
      && Embeds(code, pc, TestCode(test, TestLen(test) + |c1| + |jmp|), pos)
      && Embeds(code, pc + TestLen(test), c1, pos)
      && Embeds(code, pc + TestLen(test) + |c1|, jmp, pos)
      && Embeds(code, pc + TestLen(test) + |c1| + |jmp|, c2, pos)
      && |ChoiceTestCode(test, c1, c2, emptyp2)| == TestLen(test) + |c1| + |jmp| + |c2|
  {
    var jmp: Code := if emptyp2 then [] else [IJmp(2 + |c2|), IPad];
    var t := TestCode(test, TestLen(test) + |c1| + |jmp|);
    EmbedsConcat(code, pc, t + c1 + jmp, c2, pos);
    EmbedsConcat(code, pc, t + c1, jmp, pos);
    EmbedsConcat(code, pc, t, c1, pos);
  }

  lemma ChoiceTestCase(ev: Ev, code: Code, s: Subject, pos: seq<int>, pc: int, test: Test, c1: Code, c2: Code,
                       emptyp2: bool, i: nat, stk: Stack, caps: seq<Entry>, fl: Charset, r1: Result, r2: Result)
    requires Respects(ev, code, s)
    requires Embeds(code, pc, ChoiceTestCode(test, c1, c2, emptyp2), pos) && pc >= 0 && i <= |s|
    requires emptyp2 ==> c2 == []
    requires !Passes(test, s, i) ==> !r1.Ok?
    requires r1.Ok? ==> r1.pos <= |s|
    requires Passes(test, s, i) ==>
      var at := pc + TestLen(test);
      && Good(ev, code, s, Run(at, i, stk, caps), at + |c1|, stk, caps, fl, r1)
      && (r1.Fail? && r2.Ok? ==> r2.pos < |s| && s[r2.pos] !in fl)
    requires !Passes(test, s, i) && r1.Fail? ==>
      var at := pc + |ChoiceTestCode(test, c1, c2, emptyp2)| - |c2|;
      Good(ev, code, s, Run(at, i, stk, caps), at + |c2|, stk, caps, fl, r2)
    ensures Good(ev, code, s, Run(pc, i, stk, caps), pc + |ChoiceTestCode(test, c1, c2, emptyp2)|, stk, caps, fl,
                 if r1.Fail? then r2 else r1)
  {
    hide Embeds, ChoiceTestCode, TestCode, Passes, EncodeAll, FailTo;
    ChoiceTestParts(code, pos, pc, test, c1, c2, emptyp2);
    var jmp: Code := if emptyp2 then [] else [IJmp(2 + |c2|), IPad];
    RunTest(ev, code, s, pos, pc, test, TestLen(test) + |c1| + |jmp|, i, stk, caps);
    if Passes(test, s, i) && r1.Ok? && !emptyp2 {
      var j := pc + TestLen(test) + |c1|;
      SlotAt(code, j, jmp, pos, 0);
      EvStep(ev, code, s, Run(j, r1.pos, stk, caps + EncodeAll(r1.caps)));
    }
  }

  lemma ChoiceParts(code: Code, pos: seq<int>, pc: int, test: Test, c1: Code, c2: Code)
    requires Embeds(code, pc, ChoiceCode(test, c1, c2), pos)
    ensures Embeds(code, pc, TestCode(test, TestLen(test) + 2 + |c1| + 2), pos)
    ensures var ch := pc + TestLen(test);
      && Slot(code, ch, IChoice(2 + |c1| + 2), pos)
      && Embeds(code, ch + 2, c1, pos)
      && Slot(code, ch + 2 + |c1|, ICommit(2 + |c2|), pos)
      && Embeds(code, ch + 2 + |c1| + 2, c2, pos)
    ensures |ChoiceCode(test, c1, c2)| == TestLen(test) + 2 + |c1| + 2 + |c2|
  {
    var t := TestCode(test, TestLen(test) + 2 + |c1| + 2);
    var ch: Code := [IChoice(2 + |c1| + 2), IPad];
    var cm: Code := [ICommit(2 + |c2|), IPad];
    EmbedsConcat(code, pc, t + ch + c1 + cm, c2, pos);
    EmbedsConcat(code, pc, t + ch + c1, cm, pos);
    EmbedsConcat(code, pc, t + ch, c1, pos);
    EmbedsConcat(code, pc, t, ch, pos);
    SlotAt(code, pc + |t|, ch, pos, 0);
    SlotAt(code, pc + |t| + 2 + |c1|, cm, pos, 0);
  }

  // The two steps of a choice.

  lemma StepChoice(ev: Ev, code: Code, s: Subject, pos: seq<int>, pc: int, off: int, i: nat, stk: Stack,
                   caps: seq<Entry>)
    requires Respects(ev, code, s) && Slot(code, pc, IChoice(off), pos) && pc >= 0 && i <= |s|
    ensures ev(Run(pc, i, stk, caps)) == ev(Run(pc + 2, i, Push(Choice(pc + off, i, |caps|), stk), caps))
  {
    hide Respects;
    EvStep(ev, code, s, Run(pc, i, stk, caps));
  }

  lemma StepCommit(ev: Ev, code: Code, s: Subject, pos: seq<int>, pc: int, off: int, i: nat, top: Frame, stk: Stack,
                   caps: seq<Entry>)
    requires Respects(ev, code, s) && Slot(code, pc, ICommit(off), pos) && pc >= 0 && i <= |s| && top.Choice?
    ensures ev(Run(pc, i, Push(top, stk), caps)) == ev(Run(pc + off, i, stk, caps))
  {
    hide Respects;
    EvStep(ev, code, s, Run(pc, i, Push(top, stk), caps));
  }

  /** The general code for a choice. */
  lemma ChoiceCase(ev: Ev, code: Code, s: Subject, pos: seq<int>, pc: int, test: Test, c1: Code, c2: Code,
                   i: nat, stk: Stack, caps: seq<Entry>, fl: Charset, r1: Result, r2: Result)
    requires Respects(ev, code, s)
    requires Embeds(code, pc, ChoiceCode(test, c1, c2), pos) && pc >= 0 && i <= |s|
    requires !Passes(test, s, i) ==> !r1.Ok?
    requires r1.Ok? ==> r1.pos <= |s|
    requires Passes(test, s, i) ==>
      var at := pc + TestLen(test) + 2;
      var stk1 := Push(Choice(at + |c1| + 2, i, |caps|), stk);
      Good(ev, code, s, Run(at, i, stk1, caps), at + |c1|, stk1, caps, FULL, r1)
    requires r1.Fail? ==>
      var at := pc + TestLen(test) + 2 + |c1| + 2;
      Good(ev, code, s, Run(at, i, stk, caps), at + |c2|, stk, caps, fl, r2)
    ensures Good(ev, code, s, Run(pc, i, stk, caps), pc + |ChoiceCode(test, c1, c2)|, stk, caps, fl,
                 if r1.Fail? then r2 else r1)
  {
    hide Respects, Embeds, ChoiceCode, EncodeAll, Step, Slot;
    ChoiceParts(code, pos, pc, test, c1, c2);
    var ch := pc + TestLen(test);
    RunTest(ev, code, s, pos, pc, test, TestLen(test) + 2 + |c1| + 2, i, stk, caps);
    if Passes(test, s, i) {
      StepChoice(ev, code, s, pos, ch, 2 + |c1| + 2, i, stk, caps);
      if r1.Ok? {
        var top := Choice(ch + 2 + |c1| + 2, i, |caps|);
        StepCommit(ev, code, s, pos, ch + 2 + |c1|, 2 + |c2|, r1.pos, top, stk, caps + EncodeAll(r1.caps));
      } else {
        assert caps[..|caps|] == caps;
      }
    }
  }

  /** p? as a partial commit of the choice that is already there. */
  lemma ChoiceOptCase(ev: Ev, code: Code, s: Subject, pos: seq<int>, pc: int, c1: Code,
                      i: nat, stk: Stack, caps: seq<Entry>, r1: Result)
    requires Respects(ev, code, s)
    requires Embeds(code, pc, [IPartialCommit(2), IPad] + c1, pos) && pc >= 0 && i <= |s|
    requires OptFrame(code, pc + 2 + |c1|, stk)
    requires r1.Ok? ==> r1.pos <= |s|
    requires var stk1 := Push(Choice(stk.top.pc, i, |caps|), stk.below);
      Good(ev, code, s, Run(pc + 2, i, stk1, caps), pc + 2 + |c1|, stk1, caps, FULL, r1)
    ensures Good(ev, code, s, Run(pc, i, stk, caps), pc + 2 + |c1|, stk, caps, FULL,
                 if r1.Fail? then Ok(i, []) else r1)
  {
    var end := pc + 2 + |c1|;
    EmbedsConcat(code, pc, [IPartialCommit(2), IPad], c1, pos);
    SlotAt(code, pc, [IPartialCommit(2), IPad], pos, 0);
    EvStep(ev, code, s, Run(pc, i, stk, caps));
    var stk1 := Push(Choice(stk.top.pc, i, |caps|), stk.below);
    if r1.Ok? {
      EvStep(ev, code, s, Run(end, r1.pos, stk1, caps + EncodeAll(r1.caps)));
      EvStep(ev, code, s, Run(end, r1.pos, stk, caps + EncodeAll(r1.caps)));
    } else if r1.Fail? {
      assert caps[..|caps|] == caps;
      EvStep(ev, code, s, Run(end, i, stk, caps));
      GoodNow(ev, code, s, Run(pc, i, stk, caps), end, stk, caps, FULL, i);
    }
  }

  lemma SpanIsRep(rs: seq<Tree>, p: Tree, s: Subject, i: nat, fuel: nat)
    requires i <= |s| && IsCharset(p)
    ensures var r := Match(rs, TRep(p), s, i, fuel); r.Out? || r == Ok(SpanEnd(s, i, ToCharset(p)), [])
    decreases fuel
  {
    CharsetMatch(rs, p, s, i, fuel);
    if i < |s| && fuel > 0 { SpanIsRep(rs, p, s, i + 1, fuel - 1); }
  }

  lemma SpanCase(ev: Ev, code: Code, s: Subject, pos: seq<int>, pc: int, rs: seq<Tree>, p: Tree,
                 i: nat, stk: Stack, caps: seq<Entry>, fl: Charset, fuel: nat)
    requires Respects(ev, code, s)
    requires i <= |s| && IsCharset(p) && pc >= 0
    requires Embeds(code, pc, [ISpan(ToCharset(p))] + Pads(8), pos)
    ensures Good(ev, code, s, Run(pc, i, stk, caps), pc + 9, stk, caps, fl, Match(rs, TRep(p), s, i, fuel))
  {
    SpanIsRep(rs, p, s, i, fuel);
    SlotAt(code, pc, [ISpan(ToCharset(p))] + Pads(8), pos, 0);
    EvStep(ev, code, s, Run(pc, i, stk, caps));
    GoodNow(ev, code, s, Run(pc, i, stk, caps), pc + 9, stk, caps, fl, SpanEnd(s, i, ToCharset(p)));
  }

  lemma RepTestParts(code: Code, pos: seq<int>, pc: int, test: Test, c: Code)
    requires Embeds(code, pc, RepTestCode(test, c), pos)
    ensures Embeds(code, pc, TestCode(test, TestLen(test) + |c| + 2), pos)
    ensures Embeds(code, pc + TestLen(test), c, pos)
    ensures Slot(code, pc + TestLen(test) + |c|, IJmp(-(TestLen(test) + |c|)), pos)
    ensures |RepTestCode(test, c)| == TestLen(test) + |c| + 2
  {
    var t := TestCode(test, TestLen(test) + |c| + 2);
    var j: Code := [IJmp(-(TestLen(test) + |c|)), IPad];
    EmbedsConcat(code, pc, t + c, j, pos);
    EmbedsConcat(code, pc, t, c, pos);
    SlotAt(code, pc + |t| + |c|, j, pos, 0);
  }

  /** One turn of a loop guarded by a test alone: `r` is what the body does, `r2` what the remaining turns do. */
  lemma RepTestCase(ev: Ev, code: Code, s: Subject, pos: seq<int>, pc: int, test: Test, c: Code,
                    i: nat, stk: Stack, caps: seq<Entry>, fl: Charset, r: Result, r2: Result)
    requires Respects(ev, code, s)
    requires Embeds(code, pc, RepTestCode(test, c), pos) && pc >= 0 && i <= |s| && Levels(stk, |caps|)
    requires !Passes(test, s, i) ==> !r.Ok?
    requires r.Ok? ==> r.pos <= |s|
    requires Passes(test, s, i) ==>
      var at := pc + TestLen(test);
      && Good(ev, code, s, Run(at, i, stk, caps), at + |c|, stk, caps, FULL, r)
      && (r.Fail? ==> i < |s| && s[i] !in fl)
    requires r.Ok? ==>
      var caps1 := caps + EncodeAll(r.caps);
      Good(ev, code, s, Run(pc, r.pos, stk, caps1), pc + |RepTestCode(test, c)|, stk, caps1, fl, r2)
    ensures Good(ev, code, s, Run(pc, i, stk, caps), pc + |RepTestCode(test, c)|, stk, caps, fl,
                 if r.Fail? then Ok(i, []) else if r.Out? then Out else Then(r.caps, r2))
  {
    RepTestParts(code, pos, pc, test, c);
    var st := Run(pc, i, stk, caps);
    RunTest(ev, code, s, pos, pc, test, TestLen(test) + |c| + 2, i, stk, caps);
    if r.Ok? {
      EvStep(ev, code, s, Run(pc + TestLen(test) + |c|, r.pos, stk, caps + EncodeAll(r.caps)));
      GoodThen(ev, code, s, st, pc, pc + |RepTestCode(test, c)|, r.pos, stk, caps, r.caps, fl, r2);
    } else if !Passes(test, s, i) {
      GoodNow(ev, code, s, st, pc + |RepTestCode(test, c)|, stk, caps, fl, i);
    }
  }

  lemma RepParts(code: Code, pos: seq<int>, pc: int, test: Test, c: Code, opt: bool)
    requires Embeds(code, pc, RepCode(test, c, opt), pos)
    ensures Embeds(code, pc, TestCode(test, TestLen(test) + 2 + |c| + 2), pos)
    ensures Slot(code, pc + TestLen(test), if opt then IPartialCommit(2) else IChoice(2 + |c| + 2), pos)
    ensures Embeds(code, pc + TestLen(test) + 2, c, pos)
    ensures Slot(code, pc + TestLen(test) + 2 + |c|, IPartialCommit(-|c|), pos)
    ensures |RepCode(test, c, opt)| == TestLen(test) + 2 + |c| + 2
  {
    var t := TestCode(test, TestLen(test) + 2 + |c| + 2);
    var ch: Code := [if opt then IPartialCommit(2) else IChoice(2 + |c| + 2), IPad];
    var cm: Code := [IPartialCommit(-|c|), IPad];
    EmbedsConcat(code, pc, t + ch + c, cm, pos);
    EmbedsConcat(code, pc, t + ch, c, pos);
    EmbedsConcat(code, pc, t, ch, pos);
    SlotAt(code, pc + |t|, ch, pos, 0);
    SlotAt(code, pc + |t| + 2 + |c|, cm, pos, 0);
  }

  /** Leaving the loop: from here on, being at the end of the loop is the same as being at `exit` with stack `stk0`. */
  ghost predicate Exits(ev: Ev, code: Code, s: Subject, end: int, stk: Stack, exit: int, stk0: Stack) {
    forall j: nat, caps: seq<Entry> | j <= |s| ::
      ev(Run(end, j, stk, caps)) == ev(Run(exit, j, stk0, caps))
  }

  /** One turn of a loop that keeps a choice (target `exit`, below it `below`) up to date by partial commits. */
  lemma RepCase(ev: Ev, code: Code, s: Subject, pos: seq<int>, body: int, c: Code, end: int, stk: Stack, exit: int,
                below: Stack, i: nat, caps: seq<Entry>, fl: Charset, r: Result, r2: Result)
    requires Respects(ev, code, s)
    requires Embeds(code, body, c, pos) && body >= 0 && i <= |s| && Levels(stk, |caps|)
    requires Slot(code, body + |c|, IPartialCommit(-|c|), pos)
    requires Exits(ev, code, s, end, stk, exit, below)
    requires r.Ok? ==> r.pos <= |s|
    requires var stk1 := Push(Choice(exit, i, |caps|), below);
      Good(ev, code, s, Run(body, i, stk1, caps), body + |c|, stk1, caps, FULL, r)
    requires r.Ok? ==>
      var caps1 := caps + EncodeAll(r.caps);
      var stk1 := Push(Choice(exit, r.pos, |caps1|), below);
      Good(ev, code, s, Run(body, r.pos, stk1, caps1), end, stk, caps1, fl, r2)
    ensures Good(ev, code, s, Run(body, i, Push(Choice(exit, i, |caps|), below), caps), end, stk, caps, fl,
                 if r.Fail? then Ok(i, []) else if r.Out? then Out else Then(r.caps, r2))
  {
    var stk1 := Push(Choice(exit, i, |caps|), below);
    var st := Run(body, i, stk1, caps);
    if r.Ok? {
      var caps1 := caps + EncodeAll(r.caps);
      EvStep(ev, code, s, Run(body + |c|, r.pos, stk1, caps1));
      var st2 := Run(body, r.pos, Push(Choice(exit, r.pos, |caps1|), below), caps1);
      assert ev(st) == ev(st2);
      FailToPrefix(stk, caps, EncodeAll(r.caps));
      if r2.Ok? {
        EncodeConcat(r.caps, r2.caps);
        assert caps + EncodeAll(r.caps + r2.caps) == caps1 + EncodeAll(r2.caps);
      }
    } else if r.Fail? {
      assert caps[..|caps|] == caps;
      GoodNow(ev, code, s, st, end, stk, caps, fl, i);
    }
  }

  /** test -> end; choice end (or partial commit); body: at the loop's entry. */
  lemma RepEntry(ev: Ev, code: Code, s: Subject, pos: seq<int>, pc: int, test: Test, c: Code, opt: bool,
                 i: nat, stk: Stack, caps: seq<Entry>, fl: Charset, r: Result, rep: Result)
    requires Respects(ev, code, s)
    requires Embeds(code, pc, RepCode(test, c, opt), pos) && pc >= 0 && i <= |s|
    requires opt ==> OptFrame(code, pc + |RepCode(test, c, opt)|, stk)
    requires !Passes(test, s, i) ==> !r.Ok?
    requires r.Fail? ==> rep == Ok(i, [])
    requires r.Out? ==> rep == Out
    requires Passes(test, s, i) ==>
      var body := pc + TestLen(test) + 2;
      var end := body + |c| + 2;
      var stk1 := if opt then Push(Choice(stk.top.pc, i, |caps|), stk.below) else Push(Choice(end, i, |caps|), stk);
      Good(ev, code, s, Run(body, i, stk1, caps), end, stk, caps, fl, rep)
    ensures Good(ev, code, s, Run(pc, i, stk, caps), pc + |RepCode(test, c, opt)|, stk, caps, fl, rep)
  {
    RepParts(code, pos, pc, test, c, opt);
    RunTest(ev, code, s, pos, pc, test, TestLen(test) + 2 + |c| + 2, i, stk, caps);
    if Passes(test, s, i) {
      EvStep(ev, code, s, Run(pc + TestLen(test), i, stk, caps));
    } else if r.Fail? {
      GoodNow(ev, code, s, Run(pc, i, stk, caps), pc + |RepCode(test, c, opt)|, stk, caps, fl, i);
    }
  }

  lemma NotParts(code: Code, pos: seq<int>, pc: int, test: Test, c: Code)
    requires Embeds(code, pc, NotCode(test, c), pos)
    ensures Embeds(code, pc, TestCode(test, TestLen(test) + 2 + |c| + 1), pos)
    ensures Slot(code, pc + TestLen(test), IChoice(2 + |c| + 1), pos)
    ensures Embeds(code, pc + TestLen(test) + 2, c, pos)
    ensures Slot(code, pc + TestLen(test) + 2 + |c|, IFailTwice, pos)
    ensures |NotCode(test, c)| == TestLen(test) + 2 + |c| + 1
  {
    var t := TestCode(test, TestLen(test) + 2 + |c| + 1);
    var ch: Code := [IChoice(2 + |c| + 1), IPad];
    EmbedsConcat(code, pc, t + ch + c, [IFailTwice], pos);
    EmbedsConcat(code, pc, t + ch, c, pos);
    EmbedsConcat(code, pc, t, ch, pos);
    SlotAt(code, pc + |t|, ch, pos, 0);
    SlotAt(code, pc + |t| + 2 + |c|, [IFailTwice], pos, 0);
  }

  lemma NotCase(ev: Ev, code: Code, s: Subject, pos: seq<int>, pc: int, test: Test, c: Code,
                i: nat, stk: Stack, caps: seq<Entry>, fl: Charset, r: Result)
    requires Respects(ev, code, s)
    requires Embeds(code, pc, NotCode(test, c), pos) && pc >= 0 && i <= |s| && Levels(stk, |caps|)
    requires !Passes(test, s, i) ==> !r.Ok?
    requires r.Ok? ==> r.pos <= |s|
    requires Passes(test, s, i) ==>
      var at := pc + TestLen(test) + 2;
      var stk1 := Push(Choice(at + |c| + 1, i, |caps|), stk);
      Good(ev, code, s, Run(at, i, stk1, caps), at + |c|, stk1, caps, FULL, r)
    ensures Good(ev, code, s, Run(pc, i, stk, caps), pc + |NotCode(test, c)|, stk, caps, fl,
                 if r.Fail? then Ok(i, []) else if r.Out? then Out else Fail)
  {
    NotParts(code, pos, pc, test, c);
    var tl := TestLen(test);
    RunTest(ev, code, s, pos, pc, test, TestLen(test) + 2 + |c| + 1, i, stk, caps);
    var st := Run(pc, i, stk, caps);
    if Passes(test, s, i) {
      EvStep(ev, code, s, Run(pc + tl, i, stk, caps));
      if r.Ok? {
        var stk1 := Push(Choice(pc + tl + 2 + |c| + 1, i, |caps|), stk);
        EvStep(ev, code, s, Run(pc + tl + 2 + |c|, r.pos, stk1, caps + EncodeAll(r.caps)));
        FailToPrefix(stk, caps, EncodeAll(r.caps));
      } else {
        assert caps[..|caps|] == caps;
        GoodNowIf(ev, code, s, st, pc + |NotCode(test, c)|, stk, caps, fl, i, r.Fail?);
      }
    } else {
      GoodNow(ev, code, s, st, pc + |NotCode(test, c)|, stk, caps, fl, i);
    }
  }

  lemma GoodNowIf(ev: Ev, code: Code, s: Subject, st: State, end: int, stk: Stack, caps: seq<Entry>, fl: Charset,
                  j: nat, b: bool)
    requires Respects(ev, code, s)
    requires b ==> ev(st) == ev(Run(end, j, stk, caps))
    ensures b ==> Good(ev, code, s, st, end, stk, caps, fl, Ok(j, []))
  {
    if b { GoodNow(ev, code, s, st, end, stk, caps, fl, j); }
  }

  /** Not of a headfail pattern: a test and a failure. */
  lemma NotHeadCase(ev: Ev, code: Code, s: Subject, pos: seq<int>, pc: int, test: Test,
                    i: nat, stk: Stack, caps: seq<Entry>, fl: Charset, r: Result)
    requires Respects(ev, code, s)
    requires Embeds(code, pc, TestCode(test, TestLen(test) + 1) + [IFail], pos) && pc >= 0 && i <= |s|
    requires r.Ok? ==> Passes(test, s, i)
    requires r.Fail? ==> !Passes(test, s, i)
    ensures Good(ev, code, s, Run(pc, i, stk, caps), pc + TestLen(test) + 1, stk, caps, fl,
                 if r.Fail? then Ok(i, []) else if r.Out? then Out else Fail)
  {
    var t := TestCode(test, TestLen(test) + 1);
    EmbedsConcat(code, pc, t, [IFail], pos);
    SlotAt(code, pc + |t|, [IFail], pos, 0);
    RunTest(ev, code, s, pos, pc, test, TestLen(test) + 1, i, stk, caps);
    if r.Ok? { EvStep(ev, code, s, Run(pc + |t|, i, stk, caps)); }
    else if r.Fail? { GoodNow(ev, code, s, Run(pc, i, stk, caps), pc + TestLen(test) + 1, stk, caps, fl, i); }
  }

  /** &p as p followed by a step back. */
  lemma AndBehindCase(ev: Ev, code: Code, s: Subject, pos: seq<int>, pc: int, c: Code, n: nat,
                      i: nat, stk: Stack, caps: seq<Entry>, fl: Charset, r: Result)
    requires Respects(ev, code, s)
    requires Embeds(code, pc, c + if n > 0 then [IBehind(n)] else [], pos) && pc >= 0 && i <= |s|
    requires Good(ev, code, s, Run(pc, i, stk, caps), pc + |c|, stk, caps, FULL, r)
    requires r.Ok? ==> r.caps == [] && r.pos == i + n <= |s|
    ensures Good(ev, code, s, Run(pc, i, stk, caps), pc + |c| + (if n > 0 then 1 else 0), stk, caps, fl,
                 if r.Ok? then Ok(i, []) else r)
  {
    if r.Ok? {
      assert caps + EncodeAll(r.caps) == caps;
      if n > 0 {
        EmbedsConcat(code, pc, c, [IBehind(n)], pos);
        SlotAt(code, pc + |c|, [IBehind(n)], pos, 0);
        EvStep(ev, code, s, Run(pc + |c|, i + n, stk, caps));
      }
    }
  }

  /** choice L1; p; backcommit L2; L1: fail; L2: */
  lemma AndChoiceCase(ev: Ev, code: Code, s: Subject, pos: seq<int>, pc: int, c: Code,
                      i: nat, stk: Stack, caps: seq<Entry>, fl: Charset, r: Result)
    requires Respects(ev, code, s)
    requires Embeds(code, pc, [IChoice(2 + |c| + 2), IPad] + c + [IBackCommit(3), IPad, IFail], pos)
    requires pc >= 0 && i <= |s|
    requires r.Ok? ==> r.pos <= |s|
    requires var stk1 := Push(Choice(pc + 2 + |c| + 2, i, |caps|), stk);
      Good(ev, code, s, Run(pc + 2, i, stk1, caps), pc + 2 + |c|, stk1, caps, FULL, r)
    ensures Good(ev, code, s, Run(pc, i, stk, caps), pc + 2 + |c| + 3, stk, caps, fl, if r.Ok? then Ok(i, []) else r)
  {
    var ch: Code := [IChoice(2 + |c| + 2), IPad];
    var bk: Code := [IBackCommit(3), IPad, IFail];
    EmbedsConcat(code, pc, ch + c, bk, pos);
    EmbedsConcat(code, pc, ch, c, pos);
    SlotAt(code, pc, ch, pos, 0);
    SlotAt(code, pc + 2 + |c|, bk, pos, 0);
    SlotAt(code, pc + 2 + |c|, bk, pos, 2);
    EvStep(ev, code, s, Run(pc, i, stk, caps));
    if r.Ok? {
      var stk1 := Push(Choice(pc + 2 + |c| + 2, i, |caps|), stk);
      EvStep(ev, code, s, Run(pc + 2 + |c|, r.pos, stk1, caps + EncodeAll(r.caps)));
      assert (caps + EncodeAll(r.caps))[..|caps|] == caps;
      GoodNow(ev, code, s, Run(pc, i, stk, caps), pc + 2 + |c| + 3, stk, caps, fl, i);
    } else {
      assert caps[..|caps|] == caps;
      EvStep(ev, code, s, Run(pc + 2 + |c| + 2, i, stk, caps));
    }
  }

  lemma FullCaptureCase(ev: Ev, code: Code, s: Subject, pos: seq<int>, pc: int, kind: nat, key: nat, c: Code, n: nat,
                        i: nat, stk: Stack, caps: seq<Entry>, fl: Charset, r: Result)
    requires Respects(ev, code, s)
    requires Embeds(code, pc, c + [IFullCapture(kind, key, n)], pos) && pc >= 0 && i <= |s| && n <= MAXOFF
    requires Good(ev, code, s, Run(pc, i, stk, caps), pc + |c|, stk, caps, fl, r)
    requires r.Ok? ==> r.caps == [] && r.pos == i + n <= |s|
    ensures Good(ev, code, s, Run(pc, i, stk, caps), pc + |c| + 1, stk, caps, fl,
                 if r.Ok? then Ok(r.pos, [Cap(kind, key, i, r.pos, r.caps)]) else r)
  {
    if r.Ok? {
      EmbedsConcat(code, pc, c, [IFullCapture(kind, key, n)], pos);
      SlotAt(code, pc + |c|, [IFullCapture(kind, key, n)], pos, 0);
      assert caps + EncodeAll(r.caps) == caps;
      EvStep(ev, code, s, Run(pc + |c|, r.pos, stk, caps));
      var cap := Cap(kind, key, i, r.pos, []);
      EncodeOne(cap);
      assert EncodeAll([cap]) == [Entry(i, key, kind, n + 1)];
    }
  }

  /** Closing a capture collapses it when nothing was captured inside, and leaves exactly its encoding. */
  lemma CloseEncodes(caps: seq<Entry>, kind: nat, key: nat, from: nat, to: nat, nested: seq<Cap>)
    requires from <= to
    ensures CloseCapture(caps + [Entry(from, key, kind, 0)] + EncodeAll(nested), to)
         == caps + EncodeAll([Cap(kind, key, from, to, nested)])
  {
    var open := Entry(from, key, kind, 0);
    var cap := Cap(kind, key, from, to, nested);
    EncodeOne(cap);
    if nested == [] {
      assert caps + [open] + EncodeAll(nested) == caps + [open];
    } else {
      EncodeLast(nested);
    }
  }

  lemma OpenCaptureCase(ev: Ev, code: Code, s: Subject, pos: seq<int>, pc: int, kind: nat, key: nat, c: Code,
                        i: nat, stk: Stack, caps: seq<Entry>, fl: Charset, r: Result)
    requires Respects(ev, code, s)
    requires Embeds(code, pc, [IOpenCapture(kind, key)] + c + [ICloseCapture], pos) && pc >= 0 && i <= |s|
    requires Levels(stk, |caps|)
    requires r.Ok? ==> i <= r.pos <= |s|
    requires var caps1 := caps + [Entry(i, key, kind, 0)];
      Good(ev, code, s, Run(pc + 1, i, stk, caps1), pc + 1 + |c|, stk, caps1, fl, r)
    ensures Good(ev, code, s, Run(pc, i, stk, caps), pc + |c| + 2, stk, caps, fl,
                 if r.Ok? then Ok(r.pos, [Cap(kind, key, i, r.pos, r.caps)]) else r)
  {
    var op: Code := [IOpenCapture(kind, key)];
    var open := Entry(i, key, kind, 0);
    EmbedsConcat(code, pc, op + c, [ICloseCapture], pos);
    EmbedsConcat(code, pc, op, c, pos);
    SlotAt(code, pc, op, pos, 0);
    SlotAt(code, pc + 1 + |c|, [ICloseCapture], pos, 0);
    EvStep(ev, code, s, Run(pc, i, stk, caps));
    FailToPrefix(stk, caps, [open]);
    if r.Ok? {
      EvStep(ev, code, s, Run(pc + 1 + |c|, r.pos, stk, caps + [open] + EncodeAll(r.caps)));
      CloseEncodes(caps, kind, key, i, r.pos, r.caps);
    }
  }

  lemma BehindCase(ev: Ev, code: Code, s: Subject, pos: seq<int>, pc: int, n: nat, c: Code,
                   i: nat, stk: Stack, caps: seq<Entry>, fl: Charset, r: Result)
    requires Respects(ev, code, s)
    requires Embeds(code, pc, [IBehind(n)] + c, pos) && pc >= 0 && i <= |s|
    requires n <= i ==> Good(ev, code, s, Run(pc + 1, i - n, stk, caps), pc + 1 + |c|, stk, caps, FULL, r)
    requires n <= i && r.Ok? ==> r.pos == i && r.caps == []
    ensures Good(ev, code, s, Run(pc, i, stk, caps), pc + 1 + |c|, stk, caps, fl,
                 if n > i then Fail else if r.Ok? then Ok(i, []) else r)
  {
    EmbedsConcat(code, pc, [IBehind(n)], c, pos);
    SlotAt(code, pc, [IBehind(n)], pos, 0);
    EvStep(ev, code, s, Run(pc, i, stk, caps));
  }

  // ---------- Calls ----------

  lemma {:induction false} RetWithinEval(ev: Ev, code: Code, s: Subject, pc: int, n: nat, pc2: int, j: nat, stk: Stack,
                                         caps: seq<Entry>)
    requires Respects(ev, code, s)
    requires RetWithin(code, pc, n) && 0 <= pc2 < |code| && code[pc2].IRet? && j <= |s|
    ensures ev(Run(pc, j, stk, caps)) == ev(Run(pc2, j, stk, caps))
    decreases n
  {
    EvStep(ev, code, s, Run(pc, j, stk, caps));
    if code[pc].IRet? { EvStep(ev, code, s, Run(pc2, j, stk, caps)); }
    else { RetWithinEval(ev, code, s, pc + code[pc].off, n - 1, pc2, j, stk, caps); }
  }

  /** A call, or a jump in its place when only a return follows. `stk1` is the stack the rule runs with. */
  lemma CallCase(ev: Ev, code: Code, s: Subject, pos: seq<int>, pc: int, k: nat, ret: int,
                 i: nat, stk: Stack, caps: seq<Entry>, fl: Charset, r: Result)
    requires Respects(ev, code, s)
    requires Slot(code, pc, IOpenCall(k), pos) && pc >= 0 && i <= |s| && Levels(stk, |caps|)
    requires Slot(code, ret, IRet, pos)
    requires r.Ok? ==> r.pos <= |s|
    requires var stk1 := if code[pc].ICall? then Push(Return(pc + 2), stk) else stk;
      Good(ev, code, s, Run(pos[k], i, stk1, caps), ret, stk1, caps, FULL, r)
    ensures Good(ev, code, s, Run(pc, i, stk, caps), pc + 2, stk, caps, fl, r)
  {
    EvStep(ev, code, s, Run(pc, i, stk, caps));
    if r.Ok? {
      var caps1 := caps + EncodeAll(r.caps);
      if code[pc].ICall? {
        EvStep(ev, code, s, Run(ret, r.pos, Push(Return(pc + 2), stk), caps1));
      } else {
        var n: nat :| RetWithin(code, pc + 2, n);
        RetWithinEval(ev, code, s, pc + 2, n, ret, r.pos, stk, caps1);
      }
    }
  }

  /** call L1; jmp L2; L1: rules; L2: */
  lemma GrammarCase(ev: Ev, code: Code, s: Subject, pos: seq<int>, pc: int, rules: Code, ret: int,
                    i: nat, stk: Stack, caps: seq<Entry>, fl: Charset, r: Result)
    requires Respects(ev, code, s)
    requires Embeds(code, pc, GrammarCode(rules), pos) && pc >= 0 && i <= |s|
    requires Slot(code, ret, IRet, pos)
    requires r.Ok? ==> r.pos <= |s|
    requires var stk1 := Push(Return(pc + 2), stk);
      Good(ev, code, s, Run(pc + 4, i, stk1, caps), ret, stk1, caps, FULL, r)
    ensures Good(ev, code, s, Run(pc, i, stk, caps), pc + |GrammarCode(rules)|, stk, caps, fl, r)
  {
    SlotAt(code, pc, GrammarCode(rules), pos, 0);
    SlotAt(code, pc, GrammarCode(rules), pos, 2);
    EvStep(ev, code, s, Run(pc, i, stk, caps));
    if r.Ok? {
      var caps1 := caps + EncodeAll(r.caps);
      EvStep(ev, code, s, Run(ret, r.pos, Push(Return(pc + 2), stk), caps1));
      EvStep(ev, code, s, Run(pc + 2, r.pos, stk, caps1));
    }
  }
}
