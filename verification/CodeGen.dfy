/** The code generator of lpcode.c, as the code it emits for each tree. */
module CodeGen {
  import opened Common
  import opened Patterns
  import opened Analysis
  import opened Descents
  import opened Machine

  /** Four things that the source does and should not: `coderep` passes 'opt' on to the body of a loop that is guarded
      by a test alone (line 762); a rule's number goes through a byte of its node on its way into a call (lptree.h,
      line 44); the search for captures need not end (lines 131-150); nor need the computation of first sets, which
      goes into the bodies of look-behinds (line 337). `AsIs` is the source as it stands, `Intended` has none of the
      four. */
  datatype Version = Version(passOpt: bool, byteRules: bool, endless: bool, deepFirst: bool)

  const AsIs: Version := Version(true, true, true, true)
  const Intended: Version := Version(false, false, false, false)

  /** lpcode.c's `charsettype`: empty, singleton, full or other. */
  datatype CharsetKind = CsEmpty | CsSingle(c: Byte) | CsFull | CsOther

  function CharsetType(cs: Charset): (k: CharsetKind)
    ensures k.CsEmpty? <==> cs == {}
    ensures k.CsSingle? ==> cs == {k.c}
    ensures k.CsFull? ==> cs == FULL
  {
    if cs == {} then CsEmpty
    else if cs == FULL then CsFull
    else FindSingle(cs, 0)
  }

  function FindSingle(cs: Charset, c: nat): (k: CharsetKind)
    requires c <= 256
    ensures k.CsSingle? ==> cs == {k.c}
    ensures k.CsSingle? || k.CsOther?
    decreases 256 - c
  {
    if c == 256 then CsOther
    else if cs == {c} then CsSingle(c)
    else FindSingle(cs, c + 1)
  }

  /** A test instruction, without its offset. `NoTest` is the source's NOINST. */
  datatype Test = NoTest | TestNever | TestAnyChar | TestOne(c: Byte) | TestMany(cs: Charset)

  /** lpcode.c's `codetestset`: which test to emit for a first set, if any. */
  function CodeTest(cs: Charset, e: bool): Test {
    if e then NoTest
    else
      match CharsetType(cs)
      case CsEmpty => TestNever
      case CsFull => TestAnyChar
      case CsSingle(c) => TestOne(c)
      case CsOther => TestMany(cs)
  }

  function TestLen(t: Test): nat {
    match t
    case NoTest => 0
    case TestMany(_) => 10
    case _ => 2
  }

  function Pads(n: nat): (ps: Code)
    ensures |ps| == n && forall k :: 0 <= k < n ==> ps[k] == IPad
  {
    if n == 0 then [] else [IPad] + Pads(n - 1)
  }

  function TestCode(t: Test, off: int): (c: Code)
    ensures |c| == TestLen(t)
  {
    match t
    case NoTest => []
    case TestNever => [IJmp(off), IPad]
    case TestAnyChar => [ITestAny(off), IPad]
    case TestOne(c) => [ITestChar(c, off), IPad]
    case TestMany(cs) => [ITestSet(cs, off)] + Pads(9)
  }

  /** The test lets control through at position `i`. */
  predicate Passes(t: Test, s: Subject, i: nat) {
    match t
    case NoTest => true
    case TestNever => false
    case TestAnyChar => i < |s|
    case TestOne(c) => i < |s| && s[i] == c
    case TestMany(cs) => i < |s| && s[i] in cs
  }

  function CodeChar(c: Byte, tt: Test): Code {
    if tt == TestOne(c) then [IAny] else [IChar(c)]
  }

  function CodeCharset(cs: Charset, tt: Test): Code {
    match CharsetType(cs)
    case CsSingle(c) => CodeChar(c, tt)
    case CsOther => if tt == TestMany(cs) then [IAny] else [ISet(cs)] + Pads(8)
    case CsEmpty => [IFail]
    case CsFull => [IAny]
  }

  /** `codechoice` and `coderep`: can the alternative (the exit of the loop) be chosen by a test alone? */
  predicate ChoiceByTest(rs: seq<Tree>, depth: nat, p1: Tree, p2: Tree, fl: Charset) {
    var f1 := GetFirst(rs, p1, FULL, depth);
    HeadFail(rs, p1, depth) || (!f1.empty && f1.cs !! GetFirst(rs, p2, fl, depth).cs)
  }

  predicate RepByTest(rs: seq<Tree>, depth: nat, p: Tree, fl: Charset) {
    var f := GetFirst(rs, p, FULL, depth);
    HeadFail(rs, p, depth) || (!f.empty && f.cs !! fl)
  }

  /** The follow set `codeseq1` computes for the first child of a sequence. */
  function Follow1(rs: seq<Tree>, depth: nat, p1: Tree, p2: Tree, fl: Charset): Charset {
    if NeedFollow(p1) then GetFirst(rs, p2, fl, depth).cs else FULL
  }

  /** The test that still protects the second child of a sequence. */
  function Test2(rs: seq<Tree>, p1: Tree, tt: Test): Test {
    if FixedLen(rs, p1) != 0 then NoTest else tt
  }

  /** Code for `t`. `opt`: the code runs under a choice that jumps to its end; `tt`: a test that protects it;
      `fl`: the follow set. */
  function Gen(rs: seq<Tree>, depth: nat, ver: Version, t: Tree, opt: bool, tt: Test, fl: Charset): Code
    decreases t, 1, 0
  {
    match t
    case TChar(c) => CodeChar(c, tt)
    case TAny => [IAny]
    case TSet(cs) => CodeCharset(cs, tt)
    case TTrue => []
    case TFalse => [IFail]
    case TChoice(_, _) => GenChoice(rs, depth, ver, t, opt, fl)
    case TRep(_) => GenRep(rs, depth, ver, t, opt, fl)
    case TBehind(n, p) => (if n > 0 then [IBehind(n)] else []) + Gen(rs, depth, ver, p, false, NoTest, FULL)
    case TNot(_) => GenNot(rs, depth, ver, t)
    case TAnd(_) => GenAnd(rs, depth, ver, t, tt)
    case TCapture(_, _, _) => GenCapture(rs, depth, ver, t, tt, fl)
    case TGrammar(rules) => GrammarCode(CorrectCalls(RulesCode(t, depth, ver, 0), RulePositions(t, depth, ver, 0, 0)))
    case TCall(n) => [IOpenCall(RuleNumber(ver, n)), IPad]
    case TSeq(p1, p2) =>
      Gen(rs, depth, ver, p1, false, tt, Follow1(rs, depth, p1, p2, fl))
      + Gen(rs, depth, ver, p2, opt, Test2(rs, p1, tt), fl)
  }

  function GenChoice(rs: seq<Tree>, depth: nat, ver: Version, t: Tree, opt: bool, fl: Charset): Code
    requires t.TChoice?
    decreases t, 0, 0
  {
    var f1 := GetFirst(rs, t.p1, FULL, depth);
    if ChoiceByTest(rs, depth, t.p1, t.p2, fl) then
      // test (fail(p1)) -> L1; p1; jmp L2; L1: p2; L2:
      var test := CodeTest(f1.cs, false);
      ChoiceTestCode(test, Gen(rs, depth, ver, t.p1, false, test, fl), Gen(rs, depth, ver, t.p2, opt, NoTest, fl),
                     t.p2.TTrue?)
    else if opt && t.p2.TTrue? then
      // p1? == IPartialCommit; p1
      [IPartialCommit(2), IPad] + Gen(rs, depth, ver, t.p1, true, NoTest, FULL)
    else
      // test (fail(p1)) -> L1; choice L1; p1; commit L2; L1: p2; L2:
      var test := CodeTest(f1.cs, f1.empty);
      ChoiceCode(test, Gen(rs, depth, ver, t.p1, t.p2.TTrue?, test, FULL), Gen(rs, depth, ver, t.p2, opt, NoTest, fl))
  }

  function ChoiceTestCode(test: Test, c1: Code, c2: Code, emptyp2: bool): Code {
    var jmp: Code := if emptyp2 then [] else [IJmp(2 + |c2|), IPad];
    TestCode(test, TestLen(test) + |c1| + |jmp|) + c1 + jmp + c2
  }

  function ChoiceCode(test: Test, c1: Code, c2: Code): Code {
    TestCode(test, TestLen(test) + 2 + |c1| + 2) + [IChoice(2 + |c1| + 2), IPad] + c1
    + [ICommit(2 + |c2|), IPad] + c2
  }

  function GenRep(rs: seq<Tree>, depth: nat, ver: Version, t: Tree, opt: bool, fl: Charset): Code
    requires t.TRep?
    decreases t, 0, 0
  {
    if IsCharset(t.p) then [ISpan(ToCharset(t.p))] + Pads(8)
    else
      var f := GetFirst(rs, t.p, FULL, depth);
      if RepByTest(rs, depth, t.p, fl) then
        var test := CodeTest(f.cs, false);
        RepTestCode(test, Gen(rs, depth, ver, t.p, ver.passOpt && opt, test, FULL))
      else
        RepCode(CodeTest(f.cs, f.empty), Gen(rs, depth, ver, t.p, false, NoTest, FULL), opt)
  }

  /** L1: test (fail(p)) -> L2; p; jmp L1; L2: */
  function RepTestCode(test: Test, c: Code): Code {
    TestCode(test, TestLen(test) + |c| + 2) + c + [IJmp(-(TestLen(test) + |c|)), IPad]
  }

  /** test (fail(p)) -> L2; choice L2 (or, under 'opt', partialcommit L1); L1: p; partialcommit L1; L2: */
  function RepCode(test: Test, c: Code, opt: bool): Code {
    TestCode(test, TestLen(test) + 2 + |c| + 2)
    + [if opt then IPartialCommit(2) else IChoice(2 + |c| + 2), IPad] + c + [IPartialCommit(-|c|), IPad]
  }

  function GenNot(rs: seq<Tree>, depth: nat, ver: Version, t: Tree): Code
    requires t.TNot?
    decreases t, 0, 0
  {
    var f := GetFirst(rs, t.p, FULL, depth);
    var test := CodeTest(f.cs, f.empty);
    if HeadFail(rs, t.p, depth) then TestCode(test, TestLen(test) + 1) + [IFail]
    else NotCode(test, Gen(rs, depth, ver, t.p, false, NoTest, FULL))
  }

  /** test (fail(p)) -> L1; choice L1; p; failtwice; L1: */
  function NotCode(test: Test, c: Code): Code {
    TestCode(test, TestLen(test) + 2 + |c| + 1) + [IChoice(2 + |c| + 1), IPad] + c + [IFailTwice]
  }

  function GenAnd(rs: seq<Tree>, depth: nat, ver: Version, t: Tree, tt: Test): Code
    requires t.TAnd?
    decreases t, 0, 0
  {
    var n := FixedLen(rs, t.p);
    var c := Gen(rs, depth, ver, t.p, false, tt, FULL);
    if 0 <= n <= MAXBEHIND && HasCaptures(rs, t.p, depth).Nothing? then
      c + if n > 0 then [IBehind(n)] else []
    else
      // choice L1; p; backcommit L2; L1: fail; L2:
      [IChoice(2 + |c| + 2), IPad] + c + [IBackCommit(3), IPad, IFail]
  }

  function GenCapture(rs: seq<Tree>, depth: nat, ver: Version, t: Tree, tt: Test, fl: Charset): Code
    requires t.TCapture?
    decreases t, 0, 0
  {
    var len := FixedLen(rs, t.p);
    var c := Gen(rs, depth, ver, t.p, false, tt, fl);
    if 0 <= len <= MAXOFF && HasCaptures(rs, t.p, depth).Nothing? then c + [IFullCapture(t.kind, t.key, len)]
    else [IOpenCapture(t.kind, t.key)] + c + [ICloseCapture]
  }

  // ---------- Grammars ----------

  /** The rule number that `codecall` finds in the node of rule `n`. */
  function RuleNumber(ver: Version, n: nat): nat {
    if ver.byteRules then n % 256 else n
  }

  function RuleCode(rs: seq<Tree>, depth: nat, ver: Version, k: nat): Code
    requires k < |rs|
  {
    Gen(rs, depth, ver, rs[k], false, NoTest, FULL)
  }

  /** rule k; ret; rule k+1; ret; ... */
  function RulesCode(t: Tree, depth: nat, ver: Version, k: nat): Code
    requires t.TGrammar? && k <= |t.rules|
    decreases t, 0, |t.rules| - k
  {
    if k == |t.rules| then []
    else Gen(t.rules, depth, ver, t.rules[k], false, NoTest, FULL) + [IRet] + RulesCode(t, depth, ver, k + 1)
  }

  /** Where each rule starts, when rule k starts at `at`. */
  function RulePositions(t: Tree, depth: nat, ver: Version, k: nat, at: nat): (ps: seq<nat>)
    requires t.TGrammar? && k <= |t.rules|
    ensures |ps| == |t.rules| - k
    decreases t, 0, |t.rules| - k
  {
    if k == |t.rules| then []
    else
      var c := Gen(t.rules, depth, ver, t.rules[k], false, NoTest, FULL);
      [at] + RulePositions(t, depth, ver, k + 1, at + |c| + 1)
  }

  /** call L1; jmp L2; L1: rules; L2: */
  function GrammarCode(rules: Code): Code {
    [ICall(4), IPad, IJmp(2 + |rules|), IPad] + rules
  }

  /** Where a chain of at most `fuel` jumps leads. */
  function FinalTarget(code: Code, pc: int, fuel: nat): int
    decreases fuel
  {
    if 0 <= pc < |code| && code[pc].IJmp? && fuel > 0 then FinalTarget(code, pc + code[pc].off, fuel - 1) else pc
  }

  predicate JumpsToRet(code: Code, pc: int) {
    var ft := FinalTarget(code, pc, |code|);
    0 <= ft < |code| && code[ft].IRet?
  }

  /** lpcode.c's `correctcalls`: open calls become jumps when a return follows, calls otherwise. */
  function CorrectCalls(code: Code, positions: seq<nat>): Code {
    CorrectFrom(code, positions, 0)
  }

  function CorrectOne(code: Code, positions: seq<nat>, k: nat): (r: Code)
    requires k < |code|
    ensures |r| == |code|
  {
    if code[k].IOpenCall? && code[k].rule < |positions| then
      var off := positions[code[k].rule] - k;
      code[k := if JumpsToRet(code, k + 2) then IJmp(off) else ICall(off)]
    else code
  }

  function CorrectFrom(code: Code, positions: seq<nat>, k: nat): (r: Code)
    requires k <= |code|
    ensures |r| == |code|
    decreases |code| - k
  {
    if k == |code| then code else CorrectFrom(CorrectOne(code, positions, k), positions, k + 1)
  }

  /** `compile` before the peephole pass. */
  function CompileTree(depth: nat, ver: Version, t: Tree): Code {
    Gen([], depth, ver, t, false, NoTest, FULL) + [IEnd]
  }

  // ---------- The condition on rule numbers ----------

  /** Every called rule has a number that fits. */
  predicate Narrow(ver: Version, t: Tree) {
    match t
    case TCall(n) => ver.byteRules ==> n < 256
    case TRep(p) => Narrow(ver, p)
    case TSeq(p1, p2) => Narrow(ver, p1) && Narrow(ver, p2)
    case TChoice(p1, p2) => Narrow(ver, p1) && Narrow(ver, p2)
    case TNot(p) => Narrow(ver, p)
    case TAnd(p) => Narrow(ver, p)
    case TBehind(_, p) => Narrow(ver, p)
    case TCapture(_, _, p) => Narrow(ver, p)
    case TGrammar(rules) => NarrowRules(ver, rules)
    case _ => true
  }

  predicate NarrowRules(ver: Version, rs: seq<Tree>) {
    forall k :: 0 <= k < |rs| ==> Narrow(ver, rs[k])
  }

  // ---------- The condition on analyses ----------

  /** Every analysis that the generator starts on its way through `t` ends, within `depth` nested calls. */
  predicate Decided(rs: seq<Tree>, depth: nat, ver: Version, t: Tree)
    decreases t
  {
    match t
    case TAnd(p) => SearchEnds(rs, depth, ver, p, MAXBEHIND) && Decided(rs, depth, ver, p)
    case TCapture(_, _, p) => SearchEnds(rs, depth, ver, p, MAXOFF) && Decided(rs, depth, ver, p)
    case TRep(p) => IsCharset(p) || (HeadDecided(rs, depth, ver, p) && Decided(rs, depth, ver, p))
    case TSeq(p1, p2) => FollowDecided(rs, depth, ver, t) && Decided(rs, depth, ver, p1) && Decided(rs, depth, ver, p2)
    case TChoice(p1, p2) =>
      ChoiceDecided(rs, depth, ver, t) && Decided(rs, depth, ver, p1) && Decided(rs, depth, ver, p2)
    case TNot(p) => HeadDecided(rs, depth, ver, p) && (HeadFail(rs, p, depth) || Decided(rs, depth, ver, p))
    case TBehind(_, p) => Decided(rs, depth, ver, p)
    case TGrammar(rules) => forall k :: 0 <= k < |rules| ==> Decided(rules, depth, ver, rules[k])
    case _ => true
  }

  /** A call of `getfirst` ends. */
  predicate FirstDecided(rs: seq<Tree>, depth: nat, ver: Version, p: Tree) {
    ver.deepFirst ==> FirstEnds(rs, p, depth)
  }

  /** What `coderep` and `codenot` want to know about their body, and `codechoice` about its first alternative. */
  predicate HeadDecided(rs: seq<Tree>, depth: nat, ver: Version, p: Tree) {
    FirstDecided(rs, depth, ver, p) && (ver.deepFirst ==> HeadEnds(rs, p, depth))
  }

  /** `codechoice` asks for the first set of its second alternative only if the first one does not tell enough. */
  predicate ChoiceDecided(rs: seq<Tree>, depth: nat, ver: Version, t: Tree)
    requires t.TChoice?
  {
    && HeadDecided(rs, depth, ver, t.p1)
    && (!HeadFail(rs, t.p1, depth) && !GetFirst(rs, t.p1, FULL, depth).empty ==> FirstDecided(rs, depth, ver, t.p2))
  }

  /** `codeseq1` asks for a first set if the first child needs a follow set. */
  predicate FollowDecided(rs: seq<Tree>, depth: nat, ver: Version, t: Tree)
    requires t.TSeq?
  {
    NeedFollow(t.p1) ==> FirstDecided(rs, depth, ver, t.p2)
  }

  /** `codeand` and `codecapture` look for captures only if the length is fixed and not too large. */
  predicate SearchEnds(rs: seq<Tree>, depth: nat, ver: Version, p: Tree, max: nat) {
    ver.endless && 0 <= FixedLen(rs, p) <= max ==> !HasCaptures(rs, p, depth).Unfinished?
  }

  // ---------- The condition on lpcode.c line 762 ----------

  /** Whether the code of `t` depends on 'opt' (with nothing known about what follows). */
  predicate UsesOpt(rs: seq<Tree>, depth: nat, ver: Version, t: Tree) {
    match t
    case TChoice(p1, p2) => (p2.TTrue? && !ChoiceByTest(rs, depth, p1, p2, FULL)) || UsesOpt(rs, depth, ver, p2)
    case TRep(p) => !IsCharset(p) && (RepByTest(rs, depth, p, FULL) ==> ver.passOpt && UsesOpt(rs, depth, ver, p))
    case TSeq(_, p2) => UsesOpt(rs, depth, ver, p2)
    case _ => false
  }

  /** The generator never hands 'opt' to the body of a test-only loop whose code depends on it. */
  predicate OptSafe(rs: seq<Tree>, depth: nat, ver: Version, t: Tree, opt: bool, fl: Charset)
    decreases t
  {
    match t
    case TChoice(p1, p2) =>
      if ChoiceByTest(rs, depth, p1, p2, fl) then
        OptSafe(rs, depth, ver, p1, false, fl) && OptSafe(rs, depth, ver, p2, opt, fl)
      else if opt && p2.TTrue? then OptSafe(rs, depth, ver, p1, true, FULL)
      else OptSafe(rs, depth, ver, p1, p2.TTrue?, FULL) && OptSafe(rs, depth, ver, p2, opt, fl)
    case TRep(p) =>
      && (ver.passOpt && opt && !IsCharset(p) && RepByTest(rs, depth, p, fl) ==> !UsesOpt(rs, depth, ver, p))
      && OptSafe(rs, depth, ver, p, false, FULL)
    case TSeq(p1, p2) =>
      OptSafe(rs, depth, ver, p1, false, Follow1(rs, depth, p1, p2, fl)) && OptSafe(rs, depth, ver, p2, opt, fl)
    case TNot(p) => HeadFail(rs, p, depth) || OptSafe(rs, depth, ver, p, false, FULL)
    case TAnd(p) => OptSafe(rs, depth, ver, p, false, FULL)
    case TBehind(_, p) => OptSafe(rs, depth, ver, p, false, FULL)
    case TCapture(_, _, p) => OptSafe(rs, depth, ver, p, false, fl)
    case TGrammar(rules) => forall k :: 0 <= k < |rules| ==> OptSafe(rules, depth, ver, rules[k], false, FULL)
    case _ => true
  }

  predicate OptSafeRules(rs: seq<Tree>, depth: nat, ver: Version) {
    forall k :: 0 <= k < |rs| ==> OptSafe(rs, depth, ver, rs[k], false, FULL)
  }

  lemma {:induction false} OptUnused(rs: seq<Tree>, depth: nat, ver: Version, t: Tree, tt: Test)
    requires !UsesOpt(rs, depth, ver, t)
    ensures Gen(rs, depth, ver, t, true, tt, FULL) == Gen(rs, depth, ver, t, false, tt, FULL)
    decreases t
  {
    match t
    case TChoice(p1, p2) => OptUnused(rs, depth, ver, p2, NoTest);
    case TRep(p) =>
      if !IsCharset(p) && ver.passOpt && !UsesOpt(rs, depth, ver, p) {
        OptUnused(rs, depth, ver, p, CodeTest(GetFirst(rs, p, FULL, depth).cs, false));
      }
    case TSeq(p1, p2) => OptUnused(rs, depth, ver, p2, Test2(rs, p1, tt));
    case _ =>
  }

  /** With line 762 put right, nothing is left to ask for. */
  lemma {:induction false} AlwaysSafe(rs: seq<Tree>, depth: nat, ver: Version, t: Tree, opt: bool, fl: Charset)
    requires !ver.passOpt
    ensures OptSafe(rs, depth, ver, t, opt, fl)
    decreases t
  {
    match t
    case TChoice(p1, p2) =>
      AlwaysSafe(rs, depth, ver, p1, false, fl);
      AlwaysSafe(rs, depth, ver, p1, true, FULL);
      AlwaysSafe(rs, depth, ver, p1, p2.TTrue?, FULL);
      AlwaysSafe(rs, depth, ver, p2, opt, fl);
    case TRep(p) => AlwaysSafe(rs, depth, ver, p, false, FULL);
    case TSeq(p1, p2) =>
      AlwaysSafe(rs, depth, ver, p1, false, Follow1(rs, depth, p1, p2, fl));
      AlwaysSafe(rs, depth, ver, p2, opt, fl);
    case TNot(p) => AlwaysSafe(rs, depth, ver, p, false, FULL);
    case TAnd(p) => AlwaysSafe(rs, depth, ver, p, false, FULL);
    case TBehind(_, p) => AlwaysSafe(rs, depth, ver, p, false, FULL);
    case TCapture(_, _, p) => AlwaysSafe(rs, depth, ver, p, false, fl);
    case TGrammar(rules) =>
      forall k | 0 <= k < |rules| ensures OptSafe(rules, depth, ver, rules[k], false, FULL) {
        AlwaysSafe(rules, depth, ver, rules[k], false, FULL);
      }
    case _ =>
  }

  lemma {:induction false} AlwaysNarrow(ver: Version, t: Tree)
    requires !ver.byteRules
    ensures Narrow(ver, t)
  {
    match t
    case TRep(p) => AlwaysNarrow(ver, p);
    case TSeq(p1, p2) => AlwaysNarrow(ver, p1); AlwaysNarrow(ver, p2);
    case TChoice(p1, p2) => AlwaysNarrow(ver, p1); AlwaysNarrow(ver, p2);
    case TNot(p) => AlwaysNarrow(ver, p);
    case TAnd(p) => AlwaysNarrow(ver, p);
    case TBehind(_, p) => AlwaysNarrow(ver, p);
    case TCapture(_, _, p) => AlwaysNarrow(ver, p);
    case TGrammar(rules) => forall k | 0 <= k < |rules| ensures Narrow(ver, rules[k]) { AlwaysNarrow(ver, rules[k]); }
    case _ =>
  }

  lemma {:induction false} AlwaysDecided(rs: seq<Tree>, depth: nat, ver: Version, t: Tree)
    requires !ver.endless && !ver.deepFirst
    ensures Decided(rs, depth, ver, t)
    decreases t
  {
    hide HeadFail, HasCaptures, FixedLenX;
    match t
    case TRep(p) => AlwaysDecided(rs, depth, ver, p);
    case TSeq(p1, p2) => AlwaysDecided(rs, depth, ver, p1); AlwaysDecided(rs, depth, ver, p2);
    case TChoice(p1, p2) => AlwaysDecided(rs, depth, ver, p1); AlwaysDecided(rs, depth, ver, p2);
    case TNot(p) => AlwaysDecided(rs, depth, ver, p);
    case TAnd(p) => AlwaysDecided(rs, depth, ver, p);
    case TBehind(_, p) => AlwaysDecided(rs, depth, ver, p);
    case TCapture(_, _, p) => AlwaysDecided(rs, depth, ver, p);
    case TGrammar(rules) =>
      forall k | 0 <= k < |rules| ensures Decided(rules, depth, ver, rules[k]) {
        AlwaysDecided(rules, depth, ver, rules[k]);
      }
    case _ =>
  }
}
