/** lpcode.c line 762 hands 'opt' to the body of a loop that is guarded by a test alone. This module shows what the
    generated code then does, and when that is right, for the loops (a q?)*? */
module Defect {
  import opened Common
  import opened Patterns
  import opened Analysis
  import opened Machine
  import opened CodeGen
  import opened Charsets
  import opened Simulation
  import opened Linking
  import opened Correctness
  import opened Peephole
  import opened Grammars
  import opened Totality
  import opened Chains
  import opened Compile

  /** (a q?)*? */
  function Loop(a: Byte, q: Tree): Tree {
    TRep(TSeq(TChar(a), TChoice(q, TTrue)))
  }

  function Pattern(a: Byte, q: Tree): Tree {
    TChoice(Loop(a, q), TTrue)
  }

  /** The optional part is compiled to a partial commit, and its own code does not depend on 'opt'. */
  ghost predicate Affected(depth: nat, q: Tree) {
    && WellFormed(q, 0) && Built(q, depth) && BehindsClosed(q) && Clear(depth, AsIs, q)
    && !UsesOpt([], depth, AsIs, q) && !ChoiceByTest([], depth, q, TTrue, FULL)
  }

  function Program(a: Byte, cq: Code): Code {
    [IChoice(11 + |cq|), IPad, ITestChar(a, 7 + |cq|), IPad, IAny, IPartialCommit(2), IPad]
    + cq + [IJmp(-(5 + |cq|)), IPad, ICommit(2), IPad, IEnd]
  }

  function CodeOf(depth: nat, q: Tree): Code {
    Gen([], depth, AsIs, q, false, NoTest, FULL)
  }

  lemma SingleTest(c: Byte)
    ensures CodeTest({c}, false) == TestOne(c)
  {
    SingleType(c);
  }

  /** A character that a test has seen. */
  lemma KnownChar(depth: nat, a: Byte, fl: Charset)
    ensures Gen([], depth, AsIs, TChar(a), false, TestOne(a), fl) == [IAny] && FixedLen([], TChar(a)) == 1
  {
  }

  lemma BodyCode(depth: nat, a: Byte, q: Tree)
    requires Affected(depth, q)
    ensures Gen([], depth, AsIs, TSeq(TChar(a), TChoice(q, TTrue)), true, TestOne(a), FULL)
         == [IAny, IPartialCommit(2), IPad] + CodeOf(depth, q)
  {
    var opt := TChoice(q, TTrue);
    KnownChar(depth, a, Follow1([], depth, TChar(a), opt, FULL));
    hide GetFirst, HeadFail, Built, WellFormed, OptSafe, UsesOpt, ChoiceByTest, Gen, FixedLen, Clear, BehindsClosed,
         Follow1;
    GenSeqIs([], depth, AsIs, TSeq(TChar(a), opt), true, TestOne(a), FULL);
    GenIs([], depth, AsIs, opt, true, NoTest, FULL);
    OptUnused([], depth, AsIs, q, NoTest);
    assert Gen([], depth, AsIs, opt, true, NoTest, FULL) == [IPartialCommit(2), IPad] + CodeOf(depth, q);
    assert [IAny] + ([IPartialCommit(2), IPad] + CodeOf(depth, q))
      == [IAny, IPartialCommit(2), IPad] + CodeOf(depth, q);
  }

  lemma LoopCode(depth: nat, a: Byte, q: Tree)
    requires Affected(depth, q)
    ensures Gen([], depth, AsIs, Loop(a, q), true, NoTest, FULL)
         == RepTestCode(TestOne(a), [IAny, IPartialCommit(2), IPad] + CodeOf(depth, q))
  {
    hide Built, WellFormed, OptSafe, UsesOpt, ChoiceByTest;
    var p := TSeq(TChar(a), TChoice(q, TTrue));
    SingleTest(a);
    BodyCode(depth, a, q);
    GenIs([], depth, AsIs, Loop(a, q), true, NoTest, FULL);
    assert GetFirst([], p, FULL, depth) == First(false, {a});
    assert CheckAux([], TTrue, PEnofail, depth);
    assert NoFail([], TChoice(q, TTrue), depth);
    assert HeadFail([], p, depth);
  }

  lemma ProgramCode(depth: nat, a: Byte, q: Tree)
    requires Affected(depth, q)
    ensures CompileTree(depth, AsIs, Pattern(a, q)) == Program(a, CodeOf(depth, q))
  {
    hide Built, WellFormed, OptSafe, UsesOpt, CheckAux, Gen, Program, ChoiceCode, RepTestCode;
    var cq := CodeOf(depth, q);
    var t := Pattern(a, q);
    LoopCode(depth, a, q);
    GenIs([], depth, AsIs, t, false, NoTest, FULL);
    EmptyCode([], depth, AsIs, TTrue, false, FULL);
    assert GetFirst([], Loop(a, q), FULL, depth).empty;
    assert !ChoiceByTest([], depth, Loop(a, q), TTrue, FULL);
    var body := [IAny, IPartialCommit(2), IPad] + cq;
    assert GenChoice([], depth, AsIs, t, false, FULL) == ChoiceCode(NoTest, RepTestCode(TestOne(a), body), []);
    Assembled(a, cq);
  }

  lemma Assembled(a: Byte, cq: Code)
    ensures ChoiceCode(NoTest, RepTestCode(TestOne(a), [IAny, IPartialCommit(2), IPad] + cq), []) + [IEnd]
      == Program(a, cq)
  {
    var n := |cq|;
    var body := [IAny, IPartialCommit(2), IPad] + cq;
    var rep := RepTestCode(TestOne(a), body);
    assert rep == [ITestChar(a, 7 + n), IPad] + body + [IJmp(-(5 + n)), IPad];
    assert ChoiceCode(NoTest, rep, []) == [IChoice(11 + n), IPad] + rep + [ICommit(2), IPad];
  }

  /** What the program does: as soon as `q` fails, the whole loop is left. */
  function Literal(a: Byte, q: Tree, s: Subject, i: nat, fuel: nat): (r: Result)
    requires i <= |s|
    ensures r.Ok? ==> i <= r.pos <= |s|
    decreases fuel
  {
    if !(i < |s| && s[i] == a) then Ok(i, [])
    else
      match Match([], q, s, i + 1, fuel)
      case Out => Out
      case Fail => Ok(i + 1, [])
      case Ok(j, cs) => if fuel == 0 then Out else Then(cs, Literal(a, q, s, j, fuel - 1))
  }

  ghost predicate Leaves(ev: Ev, cq: Code, s: Subject, st: State, i0: nat, caps: seq<Entry>, r: Result) {
    r.Ok? ==> ev(st) == ev(Run(11 + |cq|, r.pos, Push(Choice(GIVEUP, i0, 0), Nil), caps + EncodeAll(r.caps)))
  }

  lemma Slots(a: Byte, cq: Code)
    ensures var c := Program(a, cq); var n := |cq|;
      && |c| == n + 12 && c[0] == IChoice(11 + n) && c[2] == ITestChar(a, 7 + n)
      && c[4] == IAny && c[5] == IPartialCommit(2)
      && c[7 + n] == IJmp(-(5 + n)) && c[9 + n] == ICommit(2) && c[11 + n] == IEnd
  {
  }

  lemma InPlace(a: Byte, cq: Code)
    requires Laid(cq, 0)
    ensures Embeds(Program(a, cq), 7, cq, [])
  {
    var c := Program(a, cq);
    forall k | 0 <= k < |cq|
      ensures Slot(c, 7 + k, cq[k], [])
    {
      assert c[7 + k] == cq[k];
    }
  }

  /** One turn of the loop, up to the optional part, and the way out. */
  lemma TurnSteps(ev: Ev, a: Byte, cq: Code, s: Subject, i0: nat, k0: nat, l0: nat, i: nat, caps: seq<Entry>)
    requires i <= |s| && Respects(ev, Program(a, cq), s)
    ensures var n := |cq|;
      var base := Push(Choice(GIVEUP, i0, 0), Nil);
      ev(Run(2, i, Push(Choice(11 + n, k0, l0), base), caps))
      == if i < |s| && s[i] == a then ev(Run(7, i + 1, Push(Choice(11 + n, i + 1, |caps|), base), caps))
         else ev(Run(11 + n, i, base, caps))
  {
    hide Program, Respects, FailTo;
    var c := Program(a, cq);
    var n := |cq|;
    var stk := Push(Choice(11 + n, k0, l0), Push(Choice(GIVEUP, i0, 0), Nil));
    Slots(a, cq);
    EvStep(ev, c, s, Run(2, i, stk, caps));
    if i < |s| && s[i] == a {
      EvStep(ev, c, s, Run(4, i, stk, caps));
      EvStep(ev, c, s, Run(5, i + 1, stk, caps));
    } else {
      EvStep(ev, c, s, Run(9 + n, i, stk, caps));
    }
  }

  /** The jump back to the test. */
  lemma BackStep(ev: Ev, a: Byte, cq: Code, s: Subject, i: nat, stk: Stack, caps: seq<Entry>)
    requires i <= |s| && Respects(ev, Program(a, cq), s)
    ensures ev(Run(7 + |cq|, i, stk, caps)) == ev(Run(2, i, stk, caps))
  {
    hide Program, Respects;
    Slots(a, cq);
    EvStep(ev, Program(a, cq), s, Run(7 + |cq|, i, stk, caps));
  }

  /** The run of the loop. */
  lemma {:induction false} LiteralRun(ev: Ev, depth: nat, a: Byte, q: Tree, s: Subject, i0: nat, k0: nat, l0: nat,
                                      i: nat, caps: seq<Entry>, fuel: nat)
    requires Affected(depth, q) && i <= |s| && l0 <= |caps|
    requires Respects(ev, Program(a, CodeOf(depth, q)), s)
    ensures var cq := CodeOf(depth, q);
      var stk := Push(Choice(11 + |cq|, k0, l0), Push(Choice(GIVEUP, i0, 0), Nil));
      Leaves(ev, cq, s, Run(2, i, stk, caps), i0, caps, Literal(a, q, s, i, fuel))
    decreases fuel
  {
    hide Built, WellFormed, OptSafe, UsesOpt, ChoiceByTest, Gen, Match, Program, Respects, Step, Levels, EncodeAll,
         Affected, CodeOf;
    var cq := CodeOf(depth, q);
    var base := Push(Choice(GIVEUP, i0, 0), Nil);
    TurnSteps(ev, a, cq, s, i0, k0, l0, i, caps);
    assert caps + EncodeAll([]) == caps by { EncodeNone(); }
    if i < |s| && s[i] == a {
      var stk1 := Push(Choice(11 + |cq|, i + 1, |caps|), base);
      LevelsPush(Nil, Choice(GIVEUP, i0, 0), |caps|);
      LevelsPush(base, stk1.top, |caps|);
      OptionalRun(ev, depth, a, q, s, i + 1, stk1, caps, fuel);
      var r := Match([], q, s, i + 1, fuel);
      if r.Fail? {
        assert caps[..|caps|] == caps;
      } else if r.Ok? && fuel > 0 {
        var caps1 := caps + EncodeAll(r.caps);
        BackStep(ev, a, cq, s, r.pos, stk1, caps1);
        LiteralRun(ev, depth, a, q, s, i0, i + 1, |caps|, r.pos, caps1, fuel - 1);
        var r2 := Literal(a, q, s, r.pos, fuel - 1);
        if r2.Ok? {
          EncodeConcat(r.caps, r2.caps);
          assert caps + EncodeAll(r.caps + r2.caps) == caps1 + EncodeAll(r2.caps);
        }
      }
    }
  }

  lemma EncodeNone()
    ensures EncodeAll([]) == []
  {
  }

  /** The code of `q` inside the program. */
  lemma OptionalRun(ev: Ev, depth: nat, a: Byte, q: Tree, s: Subject, i: nat, stk: Stack, caps: seq<Entry>, fuel: nat)
    requires Affected(depth, q) && i <= |s| && Levels(stk, |caps|)
    requires Respects(ev, Program(a, CodeOf(depth, q)), s)
    ensures var cq := CodeOf(depth, q);
      Good(ev, Program(a, cq), s, Run(7, i, stk, caps), 7 + |cq|, stk, caps, FULL, Match([], q, s, i, fuel))
  {
    hide Built, WellFormed, OptSafe, UsesOpt, ChoiceByTest, Gen, Match, Program, Respects, Good, Embeds, Env;
    GenLaid([], depth, AsIs, q, false, NoTest, FULL, 0);
    InPlace(a, CodeOf(depth, q));
    NoRules(Program(a, CodeOf(depth, q)), depth, AsIs);
    Sim(ev, Program(a, CodeOf(depth, q)), s, [], depth, AsIs, [], 7, q, false, NoTest, FULL, i, stk, caps, fuel);
  }

  /** The whole program ends where `Literal` says. */
  lemma LiteralVerdict(depth: nat, a: Byte, q: Tree, s: Subject, i: nat, fuel: nat)
    requires Affected(depth, q) && i <= |s| && Literal(a, q, s, i, fuel).Ok?
    ensures var r := Literal(a, q, s, i, fuel);
      Eval(Compiled(depth, AsIs, Pattern(a, q)), s, Initial(i)) == Matched(r.pos, EncodeAll(r.caps))
  {
    hide Built, WellFormed, OptSafe, UsesOpt, ChoiceByTest, Gen, Match, Program, Respects, Eval, PeepholeFrom;
    var cq := CodeOf(depth, q);
    var c := Program(a, cq);
    var r := Literal(a, q, s, i, fuel);
    var ev: Ev := st => Eval(c, s, st);
    EvalRespects(ev, c, s);
    Slots(a, cq);
    var base := Push(Choice(GIVEUP, i, 0), Nil);
    EvStep(ev, c, s, Initial(i));
    LiteralRun(ev, depth, a, q, s, i, i, 0, i, [], fuel);
    assert [] + EncodeAll(r.caps) == EncodeAll(r.caps);
    EvalIs(c, s, Run(11 + |cq|, r.pos, base, EncodeAll(r.caps)), 1);
    ProgramCode(depth, a, q);
    PatternWellFormed(depth, a, q);
    ProgramPadded(depth, AsIs, Pattern(a, q));
    PeepholeSound(CompileTree(depth, AsIs, Pattern(a, q)), 0, s, Initial(i));
  }

  lemma PatternWellFormed(depth: nat, a: Byte, q: Tree)
    requires Affected(depth, q)
    ensures WellFormed(Pattern(a, q), 0) && Built(Pattern(a, q), depth) && BehindsClosed(Pattern(a, q))
  {
    assert BehindsClosed(TTrue) && BehindsClosed(TChoice(q, TTrue)) && BehindsClosed(TChar(a));
    assert BehindsClosed(TSeq(TChar(a), TChoice(q, TTrue)));
    var opt := TChoice(q, TTrue);
    assert WellFormed(TTrue, 0) && Built(TTrue, depth);
    assert WellFormed(opt, 0) && Built(opt, depth);
    var body := TSeq(TChar(a), opt);
    assert WellFormed(TChar(a), 0) && Built(TChar(a), depth) && !Nullable([], TChar(a), depth);
    assert WellFormed(body, 0) && Built(body, depth) && !Nullable([], body, depth);
    assert WellFormed(Loop(a, q), 0) && Built(Loop(a, q), depth);
  }

  // ---------- When that is right ----------

  /** `q` never fails between two `a`. */
  ghost predicate NeverFailsBetween(a: Byte, q: Tree, depth: nat)
    requires WellFormed(q, 0) && Built(q, depth)
  {
    forall s: Subject, i: nat | 0 < i < |s| && s[i - 1] == a && s[i] == a :: !FailsAt(q, s, i)
  }

  ghost predicate FailsAt(q: Tree, s: Subject, i: nat)
    requires i <= |s|
  {
    exists fuel: nat :: Match([], q, s, i, fuel).Fail?
  }

  /** The compiled program gives the answer of the semantics on this subject from this position. */
  ghost predicate RightOn(depth: nat, t: Tree, s: Subject, i: nat)
    requires i <= |s|
  {
    Answers([], t, s, i) && Eval(Compiled(depth, AsIs, t), s, Initial(i)) == Expected(Answer([], t, s, i))
  }

  lemma BodyMatch(a: Byte, q: Tree, s: Subject, i: nat, fuel: nat)
    requires i <= |s|
    ensures Match([], TSeq(TChar(a), TChoice(q, TTrue)), s, i, fuel)
         == if !(i < |s| && s[i] == a) then Fail
            else var r := Match([], q, s, i + 1, fuel); if r.Fail? then Ok(i + 1, []) else r
  {
    MatchSeq([], TSeq(TChar(a), TChoice(q, TTrue)), s, i, fuel);
    if i < |s| && s[i] == a {
      MatchChoice([], TChoice(q, TTrue), s, i + 1, fuel);
      var r := Match([], q, s, i + 1, fuel);
      if r.Ok? { assert [] + r.caps == r.caps; }
    }
  }

  /** If `q` fails in front of no `a` that follows an `a`, leaving the loop at its first failure is what the loop
      does. */
  lemma {:induction false} LiteralIsLoop(depth: nat, a: Byte, q: Tree, s: Subject, i: nat, fuel: nat)
    requires WellFormed(q, 0) && Built(q, depth) && NeverFailsBetween(a, q, depth) && i <= |s|
    requires !Match([], Loop(a, q), s, i, fuel).Out?
    ensures Literal(a, q, s, i, fuel) == Match([], Loop(a, q), s, i, fuel)
    decreases fuel
  {
    hide Match, WellFormed, Built;
    MatchRep([], Loop(a, q), s, i, fuel);
    BodyMatch(a, q, s, i, fuel);
    if i < |s| && s[i] == a {
      var r := Match([], q, s, i + 1, fuel);
      if r.Fail? {
        assert FailsAt(q, s, i + 1);
        MatchRep([], Loop(a, q), s, i + 1, fuel - 1);
        BodyMatch(a, q, s, i + 1, fuel - 1);
      } else if r.Ok? {
        LiteralIsLoop(depth, a, q, s, r.pos, fuel - 1);
      }
    }
  }

  /** A repetition whose body starts with `a` goes past an `a`. */
  lemma LoopPasses(depth: nat, a: Byte, q: Tree, s: Subject, i: nat, fuel: nat)
    requires i < |s| && s[i] == a && Match([], Loop(a, q), s, i, fuel).Ok?
    ensures Match([], Loop(a, q), s, i, fuel).pos > i
  {
    hide Match;
    MatchRep([], Loop(a, q), s, i, fuel);
    BodyMatch(a, q, s, i, fuel);
  }

  /** Where `q` fails between two `a`, the program stops too early. */
  lemma StopsEarly(depth: nat, a: Byte, q: Tree, s: Subject, i: nat)
    requires Affected(depth, q) && 0 < i < |s| && s[i - 1] == a && s[i] == a && FailsAt(q, s, i)
    ensures Eval(Compiled(depth, AsIs, Pattern(a, q)), s, Initial(i - 1)) == Matched(i, [])
    ensures Answers([], Pattern(a, q), s, i - 1)
    ensures var r := Answer([], Pattern(a, q), s, i - 1); r.Ok? && r.pos > i
  {
    hide Match, WellFormed, Built, Eval, Compiled, OptSafe, UsesOpt, ChoiceByTest, Answers, Answer;
    var t := Pattern(a, q);
    var f: nat :| Match([], q, s, i, f).Fail?;
    LiteralVerdict(depth, a, q, s, i - 1, f);
    PatternWellFormed(depth, a, q);
    PatternTotal(t, depth, s, i - 1);
    var fuel := Fuel(t, s, i - 1);
    MatchMore(q, s, i, f, fuel);
    MatchChoice([], t, s, i - 1, fuel);
    MatchRep([], Loop(a, q), s, i - 1, fuel);
    BodyMatch(a, q, s, i - 1, fuel);
    RepNeverFails([], TSeq(TChar(a), TChoice(q, TTrue)), s, i - 1, fuel);
    RepNeverFails([], TSeq(TChar(a), TChoice(q, TTrue)), s, i, fuel - 1);
    LoopPasses(depth, a, q, s, i, fuel - 1);
  }

  lemma Fuel(t: Tree, s: Subject, i: nat) returns (fuel: nat)
    requires i <= |s| && Answers([], t, s, i)
    ensures Match([], t, s, i, fuel) == Answer([], t, s, i) && !Match([], t, s, i, fuel).Out?
  {
    var r := Answer([], t, s, i);
    fuel :| Match([], t, s, i, fuel) == r;
  }

  /** A failure is a failure at any fuel that gives an answer at all. */
  lemma MatchMore(q: Tree, s: Subject, i: nat, f: nat, fuel: nat)
    requires i <= |s| && Match([], q, s, i, f).Fail?
    ensures var r := Match([], q, s, i, fuel); r.Fail? || r.Out?
  {
    var r := Match([], q, s, i, fuel);
    if !r.Out? {
      if f <= fuel { MoreFuel([], q, s, i, f, fuel); } else { MoreFuel([], q, s, i, fuel, f); }
    }
  }

  /** For these loops the compiled program is right on all subjects if and only if `q` never fails between two `a`. */
  lemma DefectExact(depth: nat, a: Byte, q: Tree)
    requires Affected(depth, q)
    ensures (forall s: Subject, i: nat | i <= |s| :: RightOn(depth, Pattern(a, q), s, i))
       <==> NeverFailsBetween(a, q, depth)
  {
    hide Match, WellFormed, Built, Eval, Compiled, OptSafe, UsesOpt, ChoiceByTest, Answers, Answer;
    var t := Pattern(a, q);
    if NeverFailsBetween(a, q, depth) {
      forall s: Subject, i: nat | i <= |s|
        ensures RightOn(depth, t, s, i)
      {
        PatternWellFormed(depth, a, q);
        PatternTotal(t, depth, s, i);
        var fuel := Fuel(t, s, i);
        MatchChoice([], t, s, i, fuel);
        RepNeverFails([], TSeq(TChar(a), TChoice(q, TTrue)), s, i, fuel);
        LiteralIsLoop(depth, a, q, s, i, fuel);
        LiteralVerdict(depth, a, q, s, i, fuel);
      }
    } else {
      var s: Subject, i: nat :| 0 < i < |s| && s[i - 1] == a && s[i] == a && FailsAt(q, s, i);
      StopsEarly(depth, a, q, s, i);
      assert !RightOn(depth, t, s, i - 1);
    }
  }

  /** ((a (bc)?)*)? on "aabc": the semantics matches everything, the compiled program stops after the first a. */
  lemma Example(depth: nat)
    ensures var t := Pattern(97, TSeq(TChar(98), TChar(99)));
      var s: Subject := [97, 97, 98, 99];
      && WellFormed(t, 0) && Built(t, depth) && !OptSafe([], depth, AsIs, t, false, FULL)
      && Match([], t, s, 0, 3) == Ok(4, [])
      && Eval(Compiled(depth, AsIs, t), s, Initial(0)) == Matched(1, [])
  {
    hide Eval, Compiled, Match, WellFormed, Built, OptSafe, Affected;
    var q := TSeq(TChar(98), TChar(99));
    var s: Subject := [97, 97, 98, 99];
    ExampleAffected(depth);
    PatternWellFormed(depth, 97, q);
    ExampleOption();
    StopsEarly(depth, 97, q, s, 1);
    ExampleMatch();
    ExampleUnsafe(depth);
  }

  lemma ExampleAffected(depth: nat)
    ensures Affected(depth, TSeq(TChar(98), TChar(99)))
  {
    var q := TSeq(TChar(98), TChar(99));
    assert WellFormed(TChar(98), 0) && WellFormed(TChar(99), 0) && Built(TChar(98), depth) && Built(TChar(99), depth);
    assert !Nullable([], TChar(98), depth) && !NoFail([], TChar(99), depth);
    assert GetFirst([], q, FULL, depth) == First(false, {98});
    assert 98 in GetFirst([], q, FULL, depth).cs * GetFirst([], TTrue, FULL, depth).cs;
  }

  lemma ExampleOption()
    ensures Match([], TSeq(TChar(98), TChar(99)), [97, 97, 98, 99], 1, 0) == Fail
    ensures Match([], TSeq(TChar(98), TChar(99)), [97, 97, 98, 99], 1, 3) == Fail
    ensures Match([], TSeq(TChar(98), TChar(99)), [97, 97, 98, 99], 2, 2) == Ok(4, [])
  {
  }

  lemma ExampleMatch()
    ensures Match([], Pattern(97, TSeq(TChar(98), TChar(99))), [97, 97, 98, 99], 0, 3) == Ok(4, [])
  {
    hide Match;
    var q := TSeq(TChar(98), TChar(99));
    var s: Subject := [97, 97, 98, 99];
    ExampleOption();
    MatchChoice([], Pattern(97, q), s, 0, 3);
    BodyMatch(97, q, s, 0, 3);
    BodyMatch(97, q, s, 1, 2);
    BodyMatch(97, q, s, 4, 1);
    MatchRep([], Loop(97, q), s, 0, 3);
    MatchRep([], Loop(97, q), s, 1, 2);
    MatchRep([], Loop(97, q), s, 4, 1);
  }

  lemma ExampleUnsafe(depth: nat)
    ensures !OptSafe([], depth, AsIs, Pattern(97, TSeq(TChar(98), TChar(99))), false, FULL)
  {
    var q := TSeq(TChar(98), TChar(99));
    var p := TSeq(TChar(97), TChoice(q, TTrue));
    ExampleAffected(depth);
    assert UsesOpt([], depth, AsIs, TChoice(q, TTrue));
    assert UsesOpt([], depth, AsIs, p);
    assert CheckAux([], TTrue, PEnofail, depth) && NoFail([], TChoice(q, TTrue), depth);
    assert HeadFail([], p, depth) && RepByTest([], depth, p, FULL);
    assert !OptSafe([], depth, AsIs, Loop(97, q), true, FULL);
    assert GetFirst([], Loop(97, q), FULL, depth).empty && !HeadFail([], Loop(97, q), depth);
  }
}
