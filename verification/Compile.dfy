/** The whole of `compile`: generation, link step and peephole pass, and the end-to-end theorem. */
module Compile {
  import opened Patterns
  import opened Analysis
  import opened Machine
  import opened CodeGen
  import opened Simulation
  import opened Linking
  import opened Correctness
  import opened Peephole
  import opened Grammars
  import opened SubGrammars
  import opened Totality
  import opened Chains
  import Firsts

  /** lpcode.c's `compile`. */
  function Compiled(depth: nat, ver: Version, t: Tree): Code {
    PeepholeFrom(CompileTree(depth, ver, t), 0)
  }

  /** The pattern is clear of the four defects of the generator: no test-only loop whose code depends on 'opt' is handed
      it, every called rule has a number that fits, and every analysis ends. */
  predicate Clear(depth: nat, ver: Version, t: Tree) {
    OptSafe([], depth, ver, t, false, FULL) && Narrow(ver, t) && Decided([], depth, ver, t)
  }

  /** Without the defects every pattern is clear of them. */
  lemma AlwaysClear(depth: nat, t: Tree)
    ensures Clear(depth, Intended, t)
  {
    AlwaysSafe([], depth, Intended, t, false, FULL);
    AlwaysNarrow(Intended, t);
    AlwaysDecided([], depth, Intended, t);
  }

  /** Matching with the compiled and optimized program gives the result that the semantics of the pattern gives: the
      same end position and the same captures, or failure. No assertion of the machine is violated on the way. */
  lemma CompiledCorrect(depth: nat, ver: Version, t: Tree, s: Subject, i: nat, fuel: nat)
    requires WellFormed(t, 0) && Clear(depth, ver, t) && i <= |s|
    requires !Match([], t, s, i, fuel).Out?
    ensures Eval(Compiled(depth, ver, t), s, Initial(i)) == Expected(Match([], t, s, i, fuel))
  {
    hide Eval, Gen, Match, OptSafe, WellFormed, PeepholeFrom, Narrow, Decided;
    CompileCorrect(depth, ver, t, s, i, fuel);
    ProgramPadded(depth, ver, t);
    PeepholeSound(CompileTree(depth, ver, t), 0, s, Initial(i));
  }

  lemma ProgramPadded(depth: nat, ver: Version, t: Tree)
    requires WellFormed(t, 0)
    ensures Padded(CompileTree(depth, ver, t))
  {
    hide Gen, WellFormed;
    GenLaid([], depth, ver, t, false, NoTest, FULL, 0);
    LaidPlain([IEnd], 0);
    LaidConcat(Gen([], depth, ver, t, false, NoTest, FULL), [IEnd], 0);
    LaidPadded(CompileTree(depth, ver, t));
  }

  lemma LaidPadded(c: Code)
    requires Laid(c, 0)
    ensures Padded(c)
  {
  }

  /** Matching a pattern whose grammars are verified and not left recursive, and whose look-behinds look for no rule,
      always has an answer. */
  lemma PatternTotal(t: Tree, depth: nat, s: Subject, i: nat)
    requires i <= |s| && WellFormed(t, 0) && Built(t, depth) && BehindsClosed(t)
    ensures Answers([], t, s, i)
  {
    hide Match, Answers, Grown, WellFormed;
    BuiltOver(t, depth);
    BuiltLoops(t, depth);
    ClosedTotal(Nesting(t), [], t, depth, s, i);
  }

  lemma BuiltOver(t: Tree, depth: nat)
    requires WellFormed(t, 0) && Built(t, depth)
    ensures Proper([], depth, Nesting(t)) && Over([], t, depth, Nesting(t))
  {
    BuiltGrown(t, depth);
    ClosedUsed([], t);
  }

  lemma {:induction false} BuiltLoops(t: Tree, depth: nat)
    requires Built(t, depth)
    ensures !CheckLoops([], t, depth)
  {
    match t
    case TRep(p) => BuiltLoops(p, depth);
    case TSeq(p1, p2) => BuiltLoops(p1, depth); BuiltLoops(p2, depth);
    case TChoice(p1, p2) => BuiltLoops(p1, depth); BuiltLoops(p2, depth);
    case TNot(p) => BuiltLoops(p, depth);
    case TAnd(p) => BuiltLoops(p, depth);
    case TBehind(_, p) => BuiltLoops(p, depth);
    case TCapture(_, _, p) => BuiltLoops(p, depth);
    case _ =>
  }

  /** The end-to-end theorem, for every pattern with verified grammars without left recursion that is clear of the
      defects of the generator, every subject and every start position: whenever the semantics has an answer, the run of
      the compiled program ends with exactly that answer and its captures; and it has one if no look-behind looks for a
      rule. */
  lemma PatternCorrect(depth: nat, ver: Version, t: Tree, s: Subject, i: nat)
    requires WellFormed(t, 0) && Built(t, depth) && Clear(depth, ver, t) && i <= |s|
    ensures BehindsClosed(t) ==> Answers([], t, s, i)
    ensures Answers([], t, s, i) ==> Eval(Compiled(depth, ver, t), s, Initial(i)) == Expected(Answer([], t, s, i))
  {
    hide Eval, Match, Clear, WellFormed, Built, Compiled, BehindsClosed, Answers;
    if BehindsClosed(t) { PatternTotal(t, depth, s, i); }
    if Answers([], t, s, i) {
      var r := Answer([], t, s, i);
      var fuel: nat :| Match([], t, s, i, fuel) == r;
      CompiledCorrect(depth, ver, t, s, i, fuel);
    }
  }

  /** For the source as it stands, with conditions on the pattern alone: 'opt' reaches no loop that depends on it,
      called rules have numbers below 256, and neither the search for captures nor the computation of first sets runs
      into a circle. */
  lemma SourceCorrect(depth: nat, t: Tree, s: Subject, i: nat)
    requires WellFormed(t, 0) && Built(t, depth) && i <= |s| && depth >= Firsts.Ample([], t, Nesting(t))
    requires OptSafe([], depth, AsIs, t, false, FULL) && Narrow(AsIs, t) && Firsts.CircleFree([], depth, t)
    ensures BehindsClosed(t) ==> Answers([], t, s, i)
    ensures Answers([], t, s, i) ==> Eval(Compiled(depth, AsIs, t), s, Initial(i)) == Expected(Answer([], t, s, i))
  {
    hide Eval, Match, OptSafe, Narrow, Decided, WellFormed, Built, Compiled, BehindsClosed, Answers,
         Firsts.CircleFree, Firsts.Ample, Grown;
    BuiltOver(t, depth);
    Firsts.DecidedExact(Nesting(t), [], depth, t);
    PatternCorrect(depth, AsIs, t, s, i);
  }

  /** With the four defects put right, that holds for every pattern with verified grammars without left recursion. */
  lemma IntendedCorrect(depth: nat, t: Tree, s: Subject, i: nat)
    requires WellFormed(t, 0) && Built(t, depth) && i <= |s|
    ensures BehindsClosed(t) ==> Answers([], t, s, i)
    ensures Answers([], t, s, i) ==> Eval(Compiled(depth, Intended, t), s, Initial(i)) == Expected(Answer([], t, s, i))
  {
    hide Eval, Match, Clear, WellFormed, Built, Compiled, BehindsClosed, Answers;
    AlwaysClear(depth, t);
    PatternCorrect(depth, Intended, t, s, i);
  }
}
