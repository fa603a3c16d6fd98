/** The code generator in the form it has in lpcode.c: a growing code buffer whose offsets are patched later.
    Each method is proved to append exactly the code that CodeGen gives for its tree. */
module Emitter {
  import opened Common
  import opened Patterns
  import opened Analysis
  import opened Machine
  import opened CodeGen
  import opened Linking
  import opened Peephole
  import opened Chains
  import opened Compile

  const NOINST: int := -1

  predicate HasOffset(ins: Instr) {
    ins.ITestAny? || ins.ITestChar? || ins.ITestSet? || ins.IChoice? || ins.IJmp? || ins.ICall?
    || ins.ICommit? || ins.IPartialCommit? || ins.IBackCommit?
  }

  function WithOffset(ins: Instr, off: int): Instr
    requires HasOffset(ins)
  {
    match ins
    case ITestAny(_) => ITestAny(off)
    case ITestChar(c, _) => ITestChar(c, off)
    case ITestSet(cs, _) => ITestSet(cs, off)
    case IChoice(_) => IChoice(off)
    case IJmp(_) => IJmp(off)
    case ICall(_) => ICall(off)
    case ICommit(_) => ICommit(off)
    case IPartialCommit(_) => IPartialCommit(off)
    case IBackCommit(_) => IBackCommit(off)
  }

  /** Patchable: there is an instruction with an offset there. */
  predicate Open(code: Code, i: int) {
    0 <= i < |code| && HasOffset(code[i])
  }

  /** The code after patching the offset of `instruction` (if there is one) to lead to `target`. */
  function Patched(code: Code, instruction: int, target: int): Code
    requires instruction >= 0 ==> Open(code, instruction)
  {
    if instruction >= 0 then code[instruction := WithOffset(code[instruction], target - instruction)] else code
  }

  /** Which test instruction is at `tt`. */
  function TestAt(code: Code, tt: int): Test {
    if !(0 <= tt < |code|) then NoTest
    else
      match code[tt]
      case IJmp(_) => TestNever
      case ITestAny(_) => TestAnyChar
      case ITestChar(c, _) => TestOne(c)
      case ITestSet(cs, _) => TestMany(cs)
      case _ => NoTest
  }

  lemma TestAtPrefix(a: Code, b: Code, tt: int)
    requires tt < |a|
    ensures TestAt(a + b, tt) == TestAt(a, tt)
  {
  }

  /** Patching a test that was emitted with a dummy offset. */
  lemma PatchTest(a: Code, test: Test, b: Code, off: int)
    requires !test.NoTest?
    ensures (a + TestCode(test, 0) + b)[|a|] == TestCode(test, 0)[0] && HasOffset(TestCode(test, 0)[0])
    ensures Patched(a + TestCode(test, 0) + b, |a|, |a| + off) == a + TestCode(test, off) + b
  {
    TestHead(test, off);
    hide TestCode, WithOffset, HasOffset;
    var t0 := TestCode(test, 0);
    var y := WithOffset(t0[0], off);
    assert (a + t0 + b)[|a|] == t0[0];
    ReplaceHead(a, t0, b, y);
  }

  /** Only the first slot of a test holds its offset. */
  lemma TestHead(test: Test, off: int)
    requires !test.NoTest?
    ensures HasOffset(TestCode(test, 0)[0])
    ensures TestCode(test, off) == TestCode(test, 0)[0 := WithOffset(TestCode(test, 0)[0], off)]
  {
  }

  lemma ReplaceHead(a: Code, t: Code, b: Code, y: Instr)
    requires t != []
    ensures (a + t + b)[|a| := y] == a + t[0 := y] + b
  {
  }

  /** Patching an instruction in the middle of the code. */
  lemma PatchMiddle(a: Code, ins: Instr, b: Code, off: int)
    requires HasOffset(ins)
    ensures (a + [ins, IPad] + b)[|a|] == ins
    ensures Patched(a + [ins, IPad] + b, |a|, |a| + off) == a + [WithOffset(ins, off), IPad] + b
  {
  }

  lemma Assoc(a: Code, b: Code, c: Code)
    ensures a + b + c == a + (b + c)
  {
  }

  lemma NoPatch(code: Code, target: int)
    ensures Patched(code, NOINST, target) == code
  {
  }

  lemma PatchLast(a: Code, ins: Instr, off: int)
    requires HasOffset(ins)
    ensures (a + [ins, IPad])[|a|] == ins
    ensures Patched(a + [ins, IPad], |a|, |a| + off) == a + [WithOffset(ins, off), IPad]
  {
    PatchMiddle(a, ins, [], off);
    assert a + [ins, IPad] + [] == a + [ins, IPad];
    assert a + [WithOffset(ins, off), IPad] + [] == a + [WithOffset(ins, off), IPad];
  }

  // The buffer after each patch, for each shape of code.

  lemma ChoiceTestSteps(start: Code, probe: Test, c1: Code, c2: Code, emptyp2: bool)
    requires !probe.NoTest?
    ensures var code1 := if emptyp2 then start + TestCode(probe, 0) + c1
      else start + TestCode(probe, 0) + c1 + [IJmp(0), IPad];
      && Open(code1, |start|)
      && var code2 := Patched(code1, |start|, |code1|) + c2;
      && (emptyp2 ==> code2 == start + ChoiceTestCode(probe, c1, c2, true))
      && (!emptyp2 ==>
            var jmp := |start + TestCode(probe, 0) + c1|;
            Open(code2, jmp) && Patched(code2, jmp, |code2|) == start + ChoiceTestCode(probe, c1, c2, false))
  {
    hide TestCode, WithOffset, Patched, ChoiceTestCode;
    if emptyp2 { EmptyAlternative(start, probe, c1, c2); } else { FullAlternative(start, probe, c1, c2); }
  }

  lemma EmptyAlternative(start: Code, probe: Test, c1: Code, c2: Code)
    requires !probe.NoTest?
    ensures var code1 := start + TestCode(probe, 0) + c1;
      Open(code1, |start|) && Patched(code1, |start|, |code1|) + c2 == start + ChoiceTestCode(probe, c1, c2, true)
  {
    hide TestCode, WithOffset;
    PatchTest(start, probe, c1, TestLen(probe) + |c1|);
    var tc := TestCode(probe, TestLen(probe) + |c1|);
    Assoc(start, tc, c1);
    Assoc(start, tc + c1, c2);
    assert tc + c1 + [] == tc + c1;
  }

  lemma FullAlternative(start: Code, probe: Test, c1: Code, c2: Code)
    requires !probe.NoTest?
    ensures var code1 := start + TestCode(probe, 0) + c1 + [IJmp(0), IPad];
      && Open(code1, |start|)
      && var code2 := Patched(code1, |start|, |code1|) + c2;
      var jmp := |start + TestCode(probe, 0) + c1|;
      Open(code2, jmp) && Patched(code2, jmp, |code2|) == start + ChoiceTestCode(probe, c1, c2, false)
  {
    hide TestCode;
    var j: Code := [IJmp(0), IPad];
    var tc := TestCode(probe, TestLen(probe) + |c1| + 2);
    var code1 := start + TestCode(probe, 0) + c1 + j;
    assert Open(code1, |start|) && Patched(code1, |start|, |code1|) == start + tc + c1 + j by {
      Assoc(start + TestCode(probe, 0), c1, j);
      PatchTest(start, probe, c1 + j, TestLen(probe) + |c1| + 2);
      Assoc(start + tc, c1, j);
    }
    PatchMiddle(start + tc + c1, IJmp(0), c2, 2 + |c2|);
    Join4(start, tc, c1, [IJmp(2 + |c2|), IPad], c2);
  }

  lemma Join4(a: Code, b: Code, c: Code, d: Code, e: Code)
    ensures a + b + c + d + e == a + (b + c + d + e)
  {
    Assoc(a, b, c);
    Assoc(a, b + c, d);
    Assoc(a, b + c + d, e);
  }

  /** Patching the choice (or partial commit) at `|start + TestCode(probe, 0)|` and the test before it. */
  lemma TwoSteps(start: Code, probe: Test, ins: Instr, rest: Code, off: int)
    requires HasOffset(ins)
    ensures var code1 := start + TestCode(probe, 0) + [ins, IPad] + rest;
      var ch := |start + TestCode(probe, 0)|;
      var test := if probe.NoTest? then NOINST else |start|;
      && Open(code1, ch)
      && var code2 := Patched(code1, ch, ch + off);
      && |code2| == |code1|
      && (test >= 0 ==> Open(code2, test))
      && Patched(code2, test, |start| + TestLen(probe) + off)
         == start + TestCode(probe, TestLen(probe) + off) + [WithOffset(ins, off), IPad] + rest
  {
    var t0 := TestCode(probe, 0);
    var chn: Code := [WithOffset(ins, off), IPad];
    PatchMiddle(start + t0, ins, rest, off);
    Assoc(start + t0, chn, rest);
    if probe.NoTest? { assert TestCode(probe, TestLen(probe) + off) == t0; }
    else { PatchTest(start, probe, chn + rest, TestLen(probe) + off); }
    Assoc(start + TestCode(probe, TestLen(probe) + off), chn, rest);
  }

  lemma ChoiceSteps(start: Code, probe: Test, c1: Code, c2: Code)
    ensures var code1 := start + TestCode(probe, 0) + [IChoice(0), IPad] + c1 + [ICommit(0), IPad];
      var ch := |start + TestCode(probe, 0)|;
      var cm := |start + TestCode(probe, 0) + [IChoice(0), IPad] + c1|;
      var test := if probe.NoTest? then NOINST else |start|;
      && Open(code1, ch)
      && var code2 := Patched(code1, ch, |code1|);
      && (test >= 0 ==> Open(code2, test))
      && var code3 := Patched(code2, test, |code2|) + c2;
      && Open(code3, cm)
      && Patched(code3, cm, |code3|) == start + ChoiceCode(probe, c1, c2)
  {
    hide TestCode, Patched, Open;
    var cm0: Code := [ICommit(0), IPad];
    var chn: Code := [IChoice(2 + |c1| + 2), IPad];
    var tc := TestCode(probe, TestLen(probe) + (2 + |c1| + 2));
    Assoc(start + TestCode(probe, 0) + [IChoice(0), IPad], c1, cm0);
    TwoSteps(start, probe, IChoice(0), c1 + cm0, 2 + |c1| + 2);
    Assoc(start + tc + chn, c1, cm0);
    CommitStep(start, tc, chn, c1, c2);
  }

  lemma CommitStep(start: Code, tc: Code, chn: Code, c1: Code, c2: Code)
    ensures var code3 := start + tc + chn + c1 + [ICommit(0), IPad] + c2;
      var cm := |start + tc + chn + c1|;
      && Open(code3, cm)
      && Patched(code3, cm, |code3|) == start + (tc + chn + c1 + [ICommit(2 + |c2|), IPad] + c2)
  {
    PatchMiddle(start + tc + chn + c1, ICommit(0), c2, 2 + |c2|);
    Assoc(start, tc, chn);
    Join4(start, tc + chn, c1, [ICommit(2 + |c2|), IPad], c2);
  }

  lemma RepTestSteps(start: Code, probe: Test, c: Code)
    requires !probe.NoTest?
    ensures var code1 := start + TestCode(probe, 0) + c + [IJmp(0), IPad];
      var jmp := |start + TestCode(probe, 0) + c|;
      && Open(code1, |start|)
      && var code2 := Patched(code1, |start|, |code1|);
      && Open(code2, jmp)
      && Patched(code2, jmp, |start|) == start + RepTestCode(probe, c)
  {
    hide TestCode, Patched;
    var j: Code := [IJmp(0), IPad];
    Assoc(start + TestCode(probe, 0), c, j);
    PatchTest(start, probe, c + j, TestLen(probe) + |c| + 2);
    var tc := TestCode(probe, TestLen(probe) + |c| + 2);
    Assoc(start + tc, c, j);
    PatchLast(start + tc + c, IJmp(0), -(TestLen(probe) + |c|));
    Assoc(start, tc, c);
    Assoc(start, tc + c, [IJmp(-(TestLen(probe) + |c|)), IPad]);
  }

  lemma RepSteps(start: Code, probe: Test, c: Code, opt: bool)
    ensures var ch0: Code := [if opt then IPartialCommit(2) else IChoice(0), IPad];
      var code1 := start + TestCode(probe, 0) + ch0 + c + [IPartialCommit(0), IPad];
      var ch := if opt then NOINST else |start + TestCode(probe, 0)|;
      var l2 := |start + TestCode(probe, 0) + ch0|;
      var cm := |start + TestCode(probe, 0) + ch0 + c|;
      var test := if probe.NoTest? then NOINST else |start|;
      && Open(code1, cm)
      && var code2 := Patched(code1, cm, l2);
      && (ch >= 0 ==> Open(code2, ch))
      && var code3 := Patched(code2, ch, |code2|);
      && (test >= 0 ==> Open(code3, test))
      && Patched(code3, test, |code3|) == start + RepCode(probe, c, opt)
  {
    hide TestCode, Patched, Open;
    var t0 := TestCode(probe, 0);
    var ch0: Code := [if opt then IPartialCommit(2) else IChoice(0), IPad];
    var cm: Code := [IPartialCommit(-|c|), IPad];
    RepCommitStep(start + t0 + ch0 + c, |c|);
    Assoc(start + t0 + ch0, c, cm);
    if opt {
      OneStep(start, probe, ch0 + (c + cm));
      Assoc(start + t0, ch0, c + cm);
      RepJoin(start, TestCode(probe, TestLen(probe) + |ch0 + (c + cm)|), ch0, c, cm);
      NoPatch(start + t0 + ch0 + c + cm, |start + t0 + ch0 + c + cm|);
    } else {
      TwoSteps(start, probe, IChoice(0), c + cm, 2 + |c| + 2);
      var chn: Code := [IChoice(2 + |c| + 2), IPad];
      var tc := TestCode(probe, TestLen(probe) + (2 + |c| + 2));
      Assoc(start + tc, chn, c + cm);
      RepJoin(start, tc, chn, c, cm);
    }
  }

  lemma RepCommitStep(before: Code, n: int)
    ensures Open(before + [IPartialCommit(0), IPad], |before|)
    ensures Patched(before + [IPartialCommit(0), IPad], |before|, |before| - n) == before + [IPartialCommit(-n), IPad]
  {
    PatchLast(before, IPartialCommit(0), -n);
  }

  lemma RepJoin(start: Code, tc: Code, ch: Code, c: Code, cm: Code)
    ensures start + tc + (ch + (c + cm)) == start + (tc + ch + c + cm)
  {
    Assoc(start, tc, ch + (c + cm));
    Assoc(tc, ch, c + cm);
    Assoc(tc + ch, c, cm);
  }

  /** Patching the test in front to lead past everything after it. */
  lemma OneStep(start: Code, probe: Test, rest: Code)
    ensures var code1 := start + TestCode(probe, 0) + rest;
      var test := if probe.NoTest? then NOINST else |start|;
      && (test >= 0 ==> Open(code1, test))
      && Patched(code1, test, |code1|) == start + TestCode(probe, TestLen(probe) + |rest|) + rest
  {
    if probe.NoTest? { assert TestCode(probe, 0) == TestCode(probe, TestLen(probe) + |rest|); }
    else { PatchTest(start, probe, rest, TestLen(probe) + |rest|); }
  }

  lemma NotHeadSteps(start: Code, probe: Test)
    ensures var code1 := start + TestCode(probe, 0) + [IFail];
      var test := if probe.NoTest? then NOINST else |start|;
      && (test >= 0 ==> Open(code1, test))
      && Patched(code1, test, |code1|) == start + (TestCode(probe, TestLen(probe) + 1) + [IFail])
  {
    if probe.NoTest? { assert TestCode(probe, 0) == TestCode(probe, TestLen(probe) + 1); }
    else { PatchTest(start, probe, [IFail], TestLen(probe) + 1); }
    Assoc(start, TestCode(probe, TestLen(probe) + 1), [IFail]);
  }

  lemma NotSteps(start: Code, probe: Test, c: Code)
    ensures var code1 := start + TestCode(probe, 0) + [IChoice(0), IPad] + c + [IFailTwice];
      var ch := |start + TestCode(probe, 0)|;
      var test := if probe.NoTest? then NOINST else |start|;
      && Open(code1, ch)
      && var code2 := Patched(code1, ch, |code1|);
      && (test >= 0 ==> Open(code2, test))
      && Patched(code2, test, |code2|) == start + NotCode(probe, c)
  {
    var t0 := TestCode(probe, 0);
    var f: Code := [IFailTwice];
    var chn: Code := [IChoice(2 + |c| + 1), IPad];
    var off := TestLen(probe) + 2 + |c| + 1;
    Assoc(start + t0 + [IChoice(0), IPad], c, f);
    PatchMiddle(start + t0, IChoice(0), c + f, 2 + |c| + 1);
    Assoc(start + t0, chn, c + f);
    if probe.NoTest? { assert TestCode(probe, off) == t0; } else { PatchTest(start, probe, chn + (c + f), off); }
    var tc := TestCode(probe, off);
    Assoc(start, tc, chn + (c + f));
    Assoc(tc, chn, c + f);
    Assoc(tc + chn, c, f);
  }

  lemma AndSteps(start: Code, c: Code)
    ensures var code1 := start + [IChoice(0), IPad] + c + [IBackCommit(0), IPad];
      var cm := |start + [IChoice(0), IPad] + c|;
      && Open(code1, |start|)
      && var code2 := Patched(code1, |start|, |code1|) + [IFail];
      && Open(code2, cm)
      && Patched(code2, cm, |code2|) == start + ([IChoice(2 + |c| + 2), IPad] + c + [IBackCommit(3), IPad, IFail])
  {
    var cm0: Code := [IBackCommit(0), IPad];
    var chn: Code := [IChoice(2 + |c| + 2), IPad];
    Assoc(start + [IChoice(0), IPad], c, cm0);
    PatchMiddle(start, IChoice(0), c + cm0, 2 + |c| + 2);
    Assoc(start + chn, c, cm0);
    PatchMiddle(start + chn + c, IBackCommit(0), [IFail], 3);
    assert [IBackCommit(3), IPad] + [IFail] == [IBackCommit(3), IPad, IFail];
    Assoc(start + chn + c, [IBackCommit(3), IPad], [IFail]);
    Assoc(start, chn, c);
    Assoc(start, chn + c, [IBackCommit(3), IPad, IFail]);
  }

  lemma GrammarHead(begin: Code)
    ensures var code1 := begin + [ICall(0), IPad] + [IJmp(0), IPad];
      && Open(code1, |begin|)
      && Patched(code1, |begin|, |code1|) == begin + [ICall(4), IPad] + [IJmp(0), IPad]
  {
    PatchMiddle(begin, ICall(0), [IJmp(0), IPad], 4);
  }

  lemma RulesStep(t: Tree, depth: nat, ver: Version, k: nat, code: Code, positions: seq<nat>, at: nat)
    requires t.TGrammar? && k < |t.rules|
    ensures var c := Gen(t.rules, depth, ver, t.rules[k], false, NoTest, FULL);
      && code + RulesCode(t, depth, ver, k) == code + c + [IRet] + RulesCode(t, depth, ver, k + 1)
      && positions + RulePositions(t, depth, ver, k, at)
         == positions + [at] + RulePositions(t, depth, ver, k + 1, at + |c| + 1)
  {
    var c := Gen(t.rules, depth, ver, t.rules[k], false, NoTest, FULL);
    assert RulesCode(t, depth, ver, k) == c + [IRet] + RulesCode(t, depth, ver, k + 1);
    Assoc(code, c, [IRet]);
    Assoc(code, c + [IRet], RulesCode(t, depth, ver, k + 1));
    assert RulePositions(t, depth, ver, k, at) == [at] + RulePositions(t, depth, ver, k + 1, at + |c| + 1);
  }

  lemma RulesDone(t: Tree, depth: nat, ver: Version, code: Code, positions: seq<nat>, at: nat)
    requires t.TGrammar?
    ensures code + RulesCode(t, depth, ver, |t.rules|) == code
    ensures positions + RulePositions(t, depth, ver, |t.rules|, at) == positions
  {
  }

  lemma GrammarTail(begin: Code, rules: Code, positions: seq<nat>)
    ensures var code1 := begin + [ICall(4), IPad] + [IJmp(0), IPad] + rules;
      var jmp := |begin| + 2;
      && Open(code1, jmp)
      && var code2 := Patched(code1, jmp, |code1|);
      && |begin| + 4 <= |code2|
      && code2[|begin| + 4..] == rules
      && code2[..|begin| + 4] + CorrectCalls(code2[|begin| + 4..], positions)
         == begin + GrammarCode(CorrectCalls(rules, positions))
  {
    PatchMiddle(begin + [ICall(4), IPad], IJmp(0), rules, 2 + |rules|);
    var head: Code := [ICall(4), IPad, IJmp(2 + |rules|), IPad];
    var code2 := begin + [ICall(4), IPad] + [IJmp(2 + |rules|), IPad] + rules;
    assert code2 == begin + head + rules;
    assert code2[..|begin| + 4] == begin + head;
    assert code2[|begin| + 4..] == rules;
    Assoc(begin, head, CorrectCalls(rules, positions));
  }

  /** The generator comes back from `t`: every analysis it starts and every chain of jumps it follows ends. */
  ghost predicate Returns(rs: seq<Tree>, depth: nat, ver: Version, t: Tree) {
    Decided(rs, depth, ver, t) && Linkable(rs, depth, ver, t)
  }

  lemma ReturnsParts(rs: seq<Tree>, depth: nat, ver: Version, t: Tree)
    requires Returns(rs, depth, ver, t)
    ensures t.TSeq? || t.TChoice? ==> Returns(rs, depth, ver, t.p1) && Returns(rs, depth, ver, t.p2)
    ensures t.TAnd? || t.TCapture? || t.TBehind? ==> Returns(rs, depth, ver, t.p)
    ensures t.TRep? && !IsCharset(t.p) ==> Returns(rs, depth, ver, t.p)
    ensures t.TNot? && !HeadFail(rs, t.p, depth) ==> Returns(rs, depth, ver, t.p)
    ensures t.TAnd? ==> SearchEnds(rs, depth, ver, t.p, MAXBEHIND)
    ensures t.TCapture? ==> SearchEnds(rs, depth, ver, t.p, MAXOFF)
    ensures t.TChoice? ==> ChoiceDecided(rs, depth, ver, t)
    ensures t.TSeq? ==> FollowDecided(rs, depth, ver, t)
    ensures t.TNot? || (t.TRep? && !IsCharset(t.p)) ==> HeadDecided(rs, depth, ver, t.p)
    ensures t.TGrammar? ==>
      && AllEnd(CorrectCalls(RulesCode(t, depth, ver, 0), RulePositions(t, depth, ver, 0, 0)))
      && forall k :: 0 <= k < |t.rules| ==> Returns(t.rules, depth, ver, t.rules[k])
  {
    hide AllEnd, HeadFail, HasCaptures, FixedLenX, RulesCode, RulePositions, CorrectCalls, SearchEnds, FirstDecided,
         HeadDecided, ChoiceDecided, FollowDecided;
  }

  // Analyses are asked for only where they come back.

  function FirstOf(rs: seq<Tree>, depth: nat, ver: Version, t: Tree, follow: Charset): First
    requires FirstDecided(rs, depth, ver, t)
  {
    GetFirst(rs, t, follow, depth)
  }

  predicate FailsAtHead(rs: seq<Tree>, depth: nat, ver: Version, t: Tree)
    requires HeadDecided(rs, depth, ver, t)
  {
    HeadFail(rs, t, depth)
  }

  predicate WithoutCaptures(rs: seq<Tree>, depth: nat, ver: Version, t: Tree, max: nat)
    requires 0 <= FixedLen(rs, t) <= max && SearchEnds(rs, depth, ver, t, max)
  {
    HasCaptures(rs, t, depth).Nothing?
  }

  /** Grammars do not depend on the rules around them. */
  lemma AnyRules(rs: seq<Tree>, depth: nat, ver: Version, t: Tree)
    requires t.TGrammar? && Returns(rs, depth, ver, t)
    ensures Returns([], depth, ver, t)
  {
    hide AllEnd, HeadFail, HasCaptures, FixedLenX, RulesCode, RulePositions, CorrectCalls, SearchEnds, FirstDecided,
         HeadDecided, ChoiceDecided, FollowDecided;
  }

  lemma NoTestAt(code: Code)
    ensures TestAt(code, NOINST) == NoTest
  {
  }

  /** The chain behind a call, seen in the whole code and in the part that holds the rules. */
  lemma SuffixChain(code: Code, from: nat, positions: seq<nat>, k: nat)
    requires from <= |code| && k <= |code| - from && AllEnd(CorrectFrom(code[from..], positions, k))
    ensures var ft := FinalTarget(code, from + k + 2, |code|);
      && Stops(code, ft)
      && (JumpsToRet(code[from..], k + 2) <==> 0 <= ft < |code| && code[ft].IRet?)
  {
    hide CorrectFrom, AllEnd, EndsAt;
    var a, c := code[..from], code[from..];
    assert a + c + [] == code;
    HalfEnds(c, positions, k, k + 2);
    if k + 2 <= |c| {
      var m := ChainMoved(a, c, [], k + 2, |c|);
      ChainBound(code, from + k + 2, m);
    }
  }

  lemma SliceWrite(code: Code, from: nat, i: nat, ins: Instr)
    requires from <= i < |code|
    ensures code[i := ins][from..] == code[from..][i - from := ins] && code[i := ins][..from] == code[..from]
  {
  }

  lemma CorrectNext(code: Code, positions: seq<nat>, k: nat)
    requires k < |code|
    ensures CorrectFrom(code, positions, k) == CorrectFrom(CorrectOne(code, positions, k), positions, k + 1)
  {
  }

  lemma CorrectLast(code: Code, positions: seq<nat>)
    ensures CorrectFrom(code, positions, |code|) == code
  {
  }

  /** lpcode.c's `CompileState`: the code that has been written so far. */
  class CompileState {
    var code: Code

    constructor ()
      ensures code == []
    {
      code := [];
    }

    method AddInstruction(ins: Instr) returns (i: int)
      modifies this
      ensures code == old(code) + [ins] && i == |old(code)|
    {
      i := |code|;
      code := code + [ins];
    }

    method AddOffsetInst(ins: Instr) returns (i: int)
      modifies this
      ensures code == old(code) + [ins, IPad] && i == |old(code)|
    {
      i := AddInstruction(ins);
      var _ := AddInstruction(IPad);
    }

    /** Space for a charset. */
    method AddCharset(n: nat)
      modifies this
      ensures code == old(code) + Pads(n)
    {
      ghost var start := code;
      var k := 0;
      while k < n
        invariant k <= n && code == start + Pads(k)
      {
        var _ := AddInstruction(IPad);
        PadsMore(k);
        assert start + Pads(k) + [IPad] == start + Pads(k + 1);
        k := k + 1;
      }
    }

    method JumpToThere(instruction: int, target: int)
      requires instruction >= 0 ==> Open(code, instruction)
      modifies this
      ensures code == Patched(old(code), instruction, target)
    {
      if instruction >= 0 {
        code := code[instruction := WithOffset(code[instruction], target - instruction)];
      }
    }

    method JumpToHere(instruction: int)
      requires instruction >= 0 ==> Open(code, instruction)
      modifies this
      ensures code == Patched(old(code), instruction, |old(code)|)
    {
      JumpToThere(instruction, |code|);
    }

    method CodeCharInst(c: Byte, tt: int)
      requires tt < |code|
      modifies this
      ensures code == old(code) + CodeChar(c, TestAt(old(code), tt))
    {
      if tt >= 0 && code[tt].ITestChar? && code[tt].c == c {
        var _ := AddInstruction(IAny);
      } else {
        var _ := AddInstruction(IChar(c));
      }
    }

    method CodeCharsetInst(cs: Charset, tt: int)
      requires tt < |code|
      modifies this
      ensures code == old(code) + CodeCharset(cs, TestAt(old(code), tt))
    {
      var k := CharsetType(cs);
      if k.CsSingle? {
        CodeCharInst(k.c, tt);
      } else if k.CsOther? {
        if tt >= 0 && code[tt].ITestSet? && code[tt].cs == cs {
          var _ := AddInstruction(IAny);
        } else {
          var _ := AddInstruction(ISet(cs));
          AddCharset(8);
          assert old(code) + [ISet(cs)] + Pads(8) == old(code) + ([ISet(cs)] + Pads(8));
        }
      } else if k.CsEmpty? {
        var _ := AddInstruction(IFail);
      } else {
        var _ := AddInstruction(IAny);
      }
    }

    method CodeTestSet(cs: Charset, e: bool) returns (i: int)
      modifies this
      ensures code == old(code) + TestCode(CodeTest(cs, e), 0)
      ensures i == if CodeTest(cs, e).NoTest? then NOINST else |old(code)|
      ensures TestAt(code, i) == CodeTest(cs, e)
    {
      if e {
        i := NOINST;
      } else {
        var k := CharsetType(cs);
        if k.CsEmpty? {
          i := AddOffsetInst(IJmp(0));
        } else if k.CsFull? {
          i := AddOffsetInst(ITestAny(0));
        } else if k.CsSingle? {
          i := AddOffsetInst(ITestChar(k.c, 0));
        } else {
          i := AddInstruction(ITestSet(cs, 0));
          AddCharset(9);
          assert old(code) + [ITestSet(cs, 0)] + Pads(9) == old(code) + ([ITestSet(cs, 0)] + Pads(9));
        }
      }
    }

    method CodeChoice(rs: seq<Tree>, depth: nat, ver: Version, t: Tree, opt: bool, fl: Charset)
      requires Returns(rs, depth, ver, t)
      requires t.TChoice?
      modifies this
      ensures code == old(code) + GenChoice(rs, depth, ver, t, opt, fl)
      decreases t, 1
    {
      hide GetFirst, HeadFail, Gen, CharsetType, ChoiceCode, ChoiceTestCode, Returns;
      ReturnsParts(rs, depth, ver, t);
      var emptyp2 := t.p2.TTrue?;
      var f1 := FirstOf(rs, depth, ver, t.p1, FULL);
      if FailsAtHead(rs, depth, ver, t.p1) || (!f1.empty && f1.cs !! FirstOf(rs, depth, ver, t.p2, fl).cs) {
        CodeChoiceTest(rs, depth, ver, t, opt, fl, f1);
      } else if opt && emptyp2 {
        ghost var start := code;
        var pc := AddOffsetInst(IPartialCommit(0));
        PatchLast(start, IPartialCommit(0), 2);
        JumpToHere(pc);
        CodeGen(rs, depth, ver, t.p1, true, NOINST, FULL);
        Assoc(start, [IPartialCommit(2), IPad], Gen(rs, depth, ver, t.p1, true, NoTest, FULL));
      } else {
        CodeChoiceFull(rs, depth, ver, t, opt, fl, f1);
      }
    }

    method CodeChoiceTest(rs: seq<Tree>, depth: nat, ver: Version, t: Tree, opt: bool, fl: Charset, f1: First)
      requires Returns(rs, depth, ver, t)
      requires t.TChoice? && ChoiceByTest(rs, depth, t.p1, t.p2, fl)
      requires f1 == GetFirst(rs, t.p1, FULL, depth)
      modifies this
      ensures code == old(code) + GenChoice(rs, depth, ver, t, opt, fl)
      decreases t, 0
    {
      hide GetFirst, HeadFail, Gen, CharsetType, ChoiceTestCode, TestCode, HasOffset, Patched, Returns;
      ReturnsParts(rs, depth, ver, t);
      var emptyp2 := t.p2.TTrue?;
      ghost var start := code;
      // test (fail(p1)) -> L1; p1; jmp L2; L1: p2; L2:
      var test := CodeTestSet(f1.cs, false);
      CodeGen(rs, depth, ver, t.p1, false, test, fl);
      var jmp := NOINST;
      if !emptyp2 { jmp := AddOffsetInst(IJmp(0)); }
      ghost var probe := CodeTest(f1.cs, false);
      ghost var c1 := Gen(rs, depth, ver, t.p1, false, probe, fl);
      ghost var c2 := Gen(rs, depth, ver, t.p2, opt, NoTest, fl);
      ChoiceTestSteps(start, probe, c1, c2, emptyp2);
      JumpToHere(test);
      CodeGen(rs, depth, ver, t.p2, opt, NOINST, fl);
      NoPatch(code, |code|);
      JumpToHere(jmp);
    }

    method CodeChoiceFull(rs: seq<Tree>, depth: nat, ver: Version, t: Tree, opt: bool, fl: Charset, f1: First)
      requires Returns(rs, depth, ver, t)
      requires t.TChoice? && !ChoiceByTest(rs, depth, t.p1, t.p2, fl) && !(opt && t.p2.TTrue?)
      requires f1 == GetFirst(rs, t.p1, FULL, depth)
      modifies this
      ensures code == old(code) + GenChoice(rs, depth, ver, t, opt, fl)
      decreases t, 0
    {
      hide GetFirst, HeadFail, Gen, CharsetType, ChoiceCode, TestCode, HasOffset, Patched, Returns;
      ReturnsParts(rs, depth, ver, t);
      var emptyp2 := t.p2.TTrue?;
      ghost var start := code;
      ghost var probe := CodeTest(f1.cs, f1.empty);
      // test (fail(p1)) -> L1; choice L1; p1; commit L2; L1: p2; L2:
      var test := CodeTestSet(f1.cs, f1.empty);
      var pchoice := AddOffsetInst(IChoice(0));
      TestAtPrefix(start + TestCode(probe, 0), [IChoice(0), IPad], test);
      CodeGen(rs, depth, ver, t.p1, emptyp2, test, FULL);
      var pcommit := AddOffsetInst(ICommit(0));
      ghost var c1 := Gen(rs, depth, ver, t.p1, emptyp2, probe, FULL);
      ghost var c2 := Gen(rs, depth, ver, t.p2, opt, NoTest, fl);
      ChoiceSteps(start, probe, c1, c2);
      JumpToHere(pchoice);
      JumpToHere(test);
      CodeGen(rs, depth, ver, t.p2, opt, NOINST, fl);
      JumpToHere(pcommit);
    }

    method CodeRep(rs: seq<Tree>, depth: nat, ver: Version, t: Tree, opt: bool, fl: Charset)
      requires Returns(rs, depth, ver, t)
      requires t.TRep?
      modifies this
      ensures code == old(code) + GenRep(rs, depth, ver, t, opt, fl)
      decreases t, 1
    {
      hide GetFirst, HeadFail, Gen, CharsetType, RepTestCode, RepCode, TestCode, HasOffset, Patched, Returns;
      ReturnsParts(rs, depth, ver, t);
      ghost var start := code;
      if IsCharset(t.p) {
        var _ := AddInstruction(ISpan(ToCharset(t.p)));
        AddCharset(8);
        Assoc(start, [ISpan(ToCharset(t.p))], Pads(8));
      } else {
        var f := FirstOf(rs, depth, ver, t.p, FULL);
        if FailsAtHead(rs, depth, ver, t.p) || (!f.empty && f.cs !! fl) {
          // L1: test (fail(p)) -> L2; p; jmp L1; L2:
          var test := CodeTestSet(f.cs, false);
          CodeGen(rs, depth, ver, t.p, ver.passOpt && opt, test, FULL);
          var jmp := AddOffsetInst(IJmp(0));
          ghost var probe := CodeTest(f.cs, false);
          RepTestSteps(start, probe, Gen(rs, depth, ver, t.p, ver.passOpt && opt, probe, FULL));
          JumpToHere(test);
          JumpToThere(jmp, test);
        } else {
          CodeRepFull(rs, depth, ver, t, opt, fl, f);
        }
      }
    }

    method CodeRepFull(rs: seq<Tree>, depth: nat, ver: Version, t: Tree, opt: bool, fl: Charset, f: First)
      requires Returns(rs, depth, ver, t)
      requires t.TRep? && !IsCharset(t.p) && !RepByTest(rs, depth, t.p, fl)
      requires f == GetFirst(rs, t.p, FULL, depth)
      modifies this
      ensures code == old(code) + GenRep(rs, depth, ver, t, opt, fl)
      decreases t, 0
    {
      hide GetFirst, HeadFail, Gen, CharsetType, RepCode, TestCode, HasOffset, Patched, Returns;
      ReturnsParts(rs, depth, ver, t);
      ghost var start := code;
      ghost var probe := CodeTest(f.cs, f.empty);
      // test (fail(p)) -> L2; choice L2; L1: p; partialcommit L1; L2:
      // or (if 'opt'): partialcommit L1; L1: p; partialcommit L1;
      var test := CodeTestSet(f.cs, f.empty);
      var pchoice := NOINST;
      if opt {
        var pc := AddOffsetInst(IPartialCommit(0));
        PatchLast(start + TestCode(probe, 0), IPartialCommit(0), 2);
        JumpToHere(pc);
      } else {
        pchoice := AddOffsetInst(IChoice(0));
      }
      var l2 := |code|;
      CodeGen(rs, depth, ver, t.p, false, NOINST, FULL);
      var commit := AddOffsetInst(IPartialCommit(0));
      RepSteps(start, probe, Gen(rs, depth, ver, t.p, false, NoTest, FULL), opt);
      JumpToThere(commit, l2);
      NoPatch(code, |code|);
      JumpToHere(pchoice);
      NoPatch(code, |code|);
      JumpToHere(test);
    }

    method CodeNot(rs: seq<Tree>, depth: nat, ver: Version, t: Tree)
      requires Returns(rs, depth, ver, t)
      requires t.TNot?
      modifies this
      ensures code == old(code) + GenNot(rs, depth, ver, t)
      decreases t, 1
    {
      hide GetFirst, HeadFail, Gen, CharsetType, NotCode, TestCode, HasOffset, Patched, Returns;
      ReturnsParts(rs, depth, ver, t);
      var f := FirstOf(rs, depth, ver, t.p, FULL);
      ghost var start := code;
      ghost var probe := CodeTest(f.cs, f.empty);
      var test := CodeTestSet(f.cs, f.empty);
      if FailsAtHead(rs, depth, ver, t.p) {
        var _ := AddInstruction(IFail);
        NotHeadSteps(start, probe);
      } else {
        var pchoice := AddOffsetInst(IChoice(0));
        CodeGen(rs, depth, ver, t.p, false, NOINST, FULL);
        var _ := AddInstruction(IFailTwice);
        NotSteps(start, probe, Gen(rs, depth, ver, t.p, false, NoTest, FULL));
        JumpToHere(pchoice);
      }
      NoPatch(code, |code|);
      JumpToHere(test);
    }

    method CodeAnd(rs: seq<Tree>, depth: nat, ver: Version, t: Tree, tt: int)
      requires Returns(rs, depth, ver, t)
      requires t.TAnd? && tt < |code|
      modifies this
      ensures code == old(code) + GenAnd(rs, depth, ver, t, TestAt(old(code), tt))
      decreases t, 1
    {
      hide Gen, HasCaptures, FixedLenX, Patched, HasOffset, Returns;
      ReturnsParts(rs, depth, ver, t);
      ghost var start := code;
      var n := FixedLen(rs, t.p);
      ghost var c := Gen(rs, depth, ver, t.p, false, TestAt(start, tt), FULL);
      if 0 <= n <= MAXBEHIND && WithoutCaptures(rs, depth, ver, t.p, MAXBEHIND) {
        CodeGen(rs, depth, ver, t.p, false, tt, FULL);
        if n > 0 { var _ := AddInstruction(IBehind(n)); }
        Assoc(start, c, [IBehind(n)]);
        assert c + [] == c;
      } else {
        var pchoice := AddOffsetInst(IChoice(0));
        TestAtPrefix(start, [IChoice(0), IPad], tt);
        CodeGen(rs, depth, ver, t.p, false, tt, FULL);
        var pcommit := AddOffsetInst(IBackCommit(0));
        AndSteps(start, c);
        JumpToHere(pchoice);
        var _ := AddInstruction(IFail);
        JumpToHere(pcommit);
      }
    }

    method CodeCapture(rs: seq<Tree>, depth: nat, ver: Version, t: Tree, tt: int, fl: Charset)
      requires Returns(rs, depth, ver, t)
      requires t.TCapture? && tt < |code|
      modifies this
      ensures code == old(code) + GenCapture(rs, depth, ver, t, TestAt(old(code), tt), fl)
      decreases t, 1
    {
      hide Gen, HasCaptures, FixedLenX, Returns;
      ReturnsParts(rs, depth, ver, t);
      ghost var start := code;
      var len := FixedLen(rs, t.p);
      ghost var c := Gen(rs, depth, ver, t.p, false, TestAt(start, tt), fl);
      if 0 <= len <= MAXOFF && WithoutCaptures(rs, depth, ver, t.p, MAXOFF) {
        CodeGen(rs, depth, ver, t.p, false, tt, fl);
        var _ := AddInstruction(IFullCapture(t.kind, t.key, len));
        assert code == start + (c + [IFullCapture(t.kind, t.key, len)]);
      } else {
        var _ := AddInstruction(IOpenCapture(t.kind, t.key));
        TestAtPrefix(start, [IOpenCapture(t.kind, t.key)], tt);
        CodeGen(rs, depth, ver, t.p, false, tt, fl);
        var _ := AddInstruction(ICloseCapture);
        assert code == start + ([IOpenCapture(t.kind, t.key)] + c + [ICloseCapture]);
      }
    }

    method CodeGen(rs: seq<Tree>, depth: nat, ver: Version, t: Tree, opt: bool, tt: int, fl: Charset)
      requires Returns(rs, depth, ver, t)
      requires tt < |code|
      modifies this
      ensures code == old(code) + Gen(rs, depth, ver, t, opt, TestAt(old(code), tt), fl)
      decreases t, 2
    {
      hide GetFirst, HeadFail, CharsetType, HasCaptures, FixedLenX, GenChoice, GenRep, GenNot, GenAnd, GenCapture,
           Returns;
      ReturnsParts(rs, depth, ver, t);
      ghost var start := code;
      match t
      case TChar(c) => CodeCharInst(c, tt);
      case TAny => var _ := AddInstruction(IAny);
      case TSet(cs) => CodeCharsetInst(cs, tt);
      case TTrue =>
      case TFalse => var _ := AddInstruction(IFail);
      case TChoice(_, _) => CodeChoice(rs, depth, ver, t, opt, fl);
      case TRep(_) => CodeRep(rs, depth, ver, t, opt, fl);
      case TBehind(n, p) =>
        if n > 0 { var _ := AddInstruction(IBehind(n)); }
        CodeGen(rs, depth, ver, p, false, NOINST, FULL);
        assert code == start + ((if n > 0 then [IBehind(n)] else []) + Gen(rs, depth, ver, p, false, NoTest, FULL));
      case TNot(_) => CodeNot(rs, depth, ver, t);
      case TAnd(_) => CodeAnd(rs, depth, ver, t, tt);
      case TCapture(_, _, _) => CodeCapture(rs, depth, ver, t, tt, fl);
      case TGrammar(_) =>
        AnyRules(rs, depth, ver, t);
        CodeGrammar(depth, ver, t);
      case TCall(n) => var _ := AddOffsetInst(IOpenCall(RuleNumber(ver, n)));
      case TSeq(p1, p2) =>
        var fl1 := if NeedFollow(p1) then FirstOf(rs, depth, ver, p2, fl).cs else FULL;
        CodeGen(rs, depth, ver, p1, false, tt, fl1);
        ghost var c1 := Gen(rs, depth, ver, p1, false, TestAt(start, tt), fl1);
        TestAtPrefix(start, c1, tt);
        var tt2 := if FixedLen(rs, p1) != 0 then NOINST else tt;
        CodeGen(rs, depth, ver, p2, opt, tt2, fl);
        assert code == start + (c1 + Gen(rs, depth, ver, p2, opt, Test2(rs, p1, TestAt(start, tt)), fl));
    }

    method CodeGrammar(depth: nat, ver: Version, t: Tree)
      requires t.TGrammar? && Returns([], depth, ver, t)
      modifies this
      ensures code == old(code) + GrammarCode(CorrectCalls(RulesCode(t, depth, ver, 0),
                                                           RulePositions(t, depth, ver, 0, 0)))
      decreases t, 1
    {
      hide Gen, CorrectCalls, Patched, HasOffset, Returns, AllEnd;
      ReturnsParts([], depth, ver, t);
      ghost var begin := code;
      var firstcall := AddOffsetInst(ICall(0));
      var jumptoend := AddOffsetInst(IJmp(0));
      var start := |code|;
      GrammarHead(begin);
      JumpToHere(firstcall);
      var positions := CodeRules(depth, ver, t, start);
      ghost var rules := RulesCode(t, depth, ver, 0);
      GrammarTail(begin, rules, positions);
      JumpToHere(jumptoend);
      CorrectCallsFrom(positions, start);
    }

    /** The loop of `codegrammar` over the rules. */
    method CodeRules(depth: nat, ver: Version, t: Tree, start: nat) returns (positions: seq<nat>)
      requires t.TGrammar? && start == |code|
      requires forall k :: 0 <= k < |t.rules| ==> Returns(t.rules, depth, ver, t.rules[k])
      modifies this
      ensures code == old(code) + RulesCode(t, depth, ver, 0) && positions == RulePositions(t, depth, ver, 0, 0)
      decreases t, 0
    {
      hide Gen, Returns, RulesCode, RulePositions, TestAt;
      positions := [];
      var k := 0;
      ghost var head := code;
      assert [] + RulePositions(t, depth, ver, 0, 0) == RulePositions(t, depth, ver, 0, 0);
      while k < |t.rules|
        invariant k <= |t.rules| && |code| >= start
        invariant code + RulesCode(t, depth, ver, k) == head + RulesCode(t, depth, ver, 0)
        invariant positions + RulePositions(t, depth, ver, k, |code| - start) == RulePositions(t, depth, ver, 0, 0)
      {
        RulesStep(t, depth, ver, k, code, positions, |code| - start);
        positions := positions + [|code| - start];
        NoTestAt(code);
        CodeGen(t.rules, depth, ver, t.rules[k], false, NOINST, FULL);
        var _ := AddInstruction(IRet);
        k := k + 1;
      }
      RulesDone(t, depth, ver, code, positions, |code| - start);
    }

    /** `correctcalls` on the code from `from` on; `positions` are relative to `from`. It follows chains of jumps in
        code that it has partly rewritten, and they end if those of the finished code do. */
    method CorrectCallsFrom(positions: seq<nat>, from: nat)
      requires from <= |code| && AllEnd(CorrectCalls(code[from..], positions))
      modifies this
      ensures code == old(code)[..from] + CorrectCalls(old(code)[from..], positions)
    {
      hide CorrectFrom, JumpsToRet, AllEnd;
      ghost var rules := code[from..];
      var i := from;
      while i < |code|
        invariant from <= i <= |code| == |old(code)|
        invariant code[..from] == old(code)[..from]
        invariant CorrectFrom(code[from..], positions, i - from) == CorrectFrom(rules, positions, 0)
      {
        CorrectNext(code[from..], positions, i - from);
        if code[i].IOpenCall? && code[i].rule < |positions| {
          var off := from + positions[code[i].rule] - i;
          SuffixChain(code, from, positions, i - from);
          var ft := ChaseJumps(i + 2);
          var ins := if 0 <= ft < |code| && code[ft].IRet? then IJmp(off) else ICall(off);
          SliceWrite(code, from, i, ins);
          code := code[i := ins];
        }
        i := i + 1;
      }
      CorrectLast(code[from..], positions);
      assert code == code[..from] + code[from..];
    }

    /** The loop of `finaltarget`. */
    method ChaseJumps(i: int) returns (ft: int)
      requires Stops(code, FinalTarget(code, i, |code|))
      ensures ft == FinalTarget(code, i, |code|)
    {
      ft := i;
      ghost var left: nat := |code|;
      while 0 <= ft < |code| && code[ft].IJmp?
        invariant FinalTarget(code, ft, left) == FinalTarget(code, i, |code|)
        decreases left
      {
        assert left > 0;
        ft := ft + code[ft].off;
        left := left - 1;
      }
    }

    /** The case of the instructions with labels. */
    method RelabelAt(i: nat)
      requires i < |code| && HasLabel(code[i]) && Padded(code) && Bounded(code)
      modifies this
      ensures code == OptimizeLabel(old(code), i)
    {
      hide FinalTarget, Padded, Bounded;
      ChainsBounded(code, i + code[i].off);
      var target := ChaseJumps(i + code[i].off);
      code := code[i := Relabel(code[i], target - i)];
    }

    /** One site of the peephole pass. */
    method PeepholeAt(i: nat)
      requires i < |code| && Padded(code) && Bounded(code)
      modifies this
      ensures code == OptimizeAt(old(code), i)
    {
      hide FinalTarget, Padded, Bounded, OptimizeLabel;
      if HasLabel(code[i]) {
        RelabelAt(i);
      } else if code[i].IJmp? {
        ChainsBounded(code, i);
        var ft := ChaseJumps(i);
        if !(0 <= ft < |code|) {
          code := code[i := IJmp(ft - i)];
        } else if Unconditional(code[ft]) {
          code := code[i := code[ft]];
          if i + 1 < |code| { code := code[i + 1 := IAny]; }
        } else if UnconditionalLabel(code[ft]) {
          ghost var before := code;
          ChainsBounded(code, ft + code[ft].off);
          var fft := ChaseJumps(ft + code[ft].off);
          code := code[i := Relabel(code[ft], fft - i)];
          JumpRewrites(before, code, i, ft);
          BoundedKept(before, code, i);
          RelabelAt(i);  // reoptimize the new label
        } else {
          code := code[i := IJmp(ft - i)];
        }
      }
    }

    method PeepholePass()
      requires Padded(code) && Bounded(code)
      modifies this
      ensures code == PeepholeFrom(old(code), 0)
    {
      hide FinalTarget, OptimizeAt, Padded, Bounded;
      var i: nat := 0;
      while i < |code|
        invariant Padded(code) && Bounded(code)
        invariant PeepholeFrom(code, i) == PeepholeFrom(old(code), 0)
        decreases |code| - i
      {
        OptimizeKeeps(code, i);
        PeepholeAt(i);
        i := i + Size(code[i]);
      }
    }

    /** lpcode.c's `compile`, on a fresh state. It ends because chains of jumps and searches for captures do. */
    method CompilePattern(depth: nat, ver: Version, t: Tree)
      requires code == [] && WellFormed(t, 0) && Returns([], depth, ver, t) && Bounded(CompileTree(depth, ver, t))
      modifies this
      ensures code == Compiled(depth, ver, t)
    {
      hide Gen, PeepholeFrom, Bounded, WellFormed, Returns;
      CodeGen([], depth, ver, t, false, NOINST, FULL);
      assert [] + Gen([], depth, ver, t, false, NoTest, FULL) == Gen([], depth, ver, t, false, NoTest, FULL);
      var _ := AddInstruction(IEnd);
      ProgramPadded(depth, ver, t);
      PeepholePass();
    }
  }

  lemma ChainsBounded(code: Code, x: int)
    requires Bounded(code)
    ensures Stops(code, FinalTarget(code, x, |code|))
  {
  }

  /** Rewriting one site leaves chains no longer than they were. */
  lemma {:induction false} ChainKept(code: Code, code': Code, i: nat, x: int, k: nat)
    requires Rewrites(code, code', i) && Stops(code, FinalTarget(code, x, k))
    ensures Stops(code', FinalTarget(code', x, k))
    decreases k
  {
    if 0 <= x < |code'| && code'[x].IJmp? {
      if x == i {
        assert !exists m: nat :: CopyOf(code, code'[i], i, m);
        var m: nat :| m > 0 && code'[i] == IJmp(FinalTarget(code, i, m) - i);
        var w := FinalTarget(code, i, m);
        if k > 0 {
          LaterStops(code, i, m, k);
          ChainKept(code, code', i, w, k - 1);
        }
      } else if k > 0 {
        ChainKept(code, code', i, x + code[x].off, k - 1);
      }
    }
  }

  lemma LaterStops(code: Code, x: int, m: nat, k: nat)
    requires m > 0 && k > 0 && Stops(code, FinalTarget(code, x, k))
    ensures Stops(code, FinalTarget(code, FinalTarget(code, x, m), k - 1))
  {
    ChainAdd(code, x, m, k - 1);
    ChainAdd(code, x, k, m - 1);
    StopStays(code, FinalTarget(code, x, k), m - 1);
  }

  lemma BoundedKept(code: Code, code': Code, i: nat)
    requires Rewrites(code, code', i) && Bounded(code)
    ensures Bounded(code')
  {
    forall x | 0 <= x < |code'|
      ensures Stops(code', FinalTarget(code', x, |code'|))
    {
      ChainKept(code, code', i, x, |code|);
    }
  }

  lemma OptimizeKeeps(code: Code, i: nat)
    requires i < |code| && Padded(code) && Bounded(code)
    ensures Padded(OptimizeAt(code, i)) && Bounded(OptimizeAt(code, i))
  {
    hide Rewrites, FinalTarget, Bounded;
    if HasLabel(code[i]) {
      LabelRewrites(code, i);
      BoundedKept(code, OptimizeLabel(code, i), i);
    } else if code[i].IJmp? {
      var ft := FinalTarget(code, i, |code|);
      var mid := if !(0 <= ft < |code|) then code[i := IJmp(ft - i)]
                 else if Unconditional(code[ft]) then code[i := code[ft]][i + 1 := IAny]
                 else if UnconditionalLabel(code[ft])
                 then code[i := Relabel(code[ft], FinalTarget(code, ft + code[ft].off, |code|) - i)]
                 else code[i := IJmp(ft - i)];
      JumpRewrites(code, mid, i, ft);
      BoundedKept(code, mid, i);
      if 0 <= ft < |code| && UnconditionalLabel(code[ft]) {
        LabelRewrites(mid, i);
        BoundedKept(mid, OptimizeLabel(mid, i), i);
      }
    }
  }

  lemma PadsMore(k: nat)
    ensures Pads(k) + [IPad] == Pads(k + 1)
  {
  }
}
