/** The library's entry point: compile a pattern, then match it. */
module Library {
  import opened Common
  import opened Patterns
  import opened Analysis
  import opened Machine
  import opened CodeGen
  import opened Correctness
  import opened Grammars
  import opened Totality
  import opened Chains
  import opened Compile
  import opened Emitter
  import opened Matcher
  import opened Simulation
  import opened Captures
  import opened CaptureValues

  /** lptree.c's `lp_match`: compiles the pattern and runs it. The verdict is the answer of the semantics. */
  method MatchPattern(depth: nat, ver: Version, t: Tree, s: Subject, i: nat) returns (v: Verdict)
    requires WellFormed(t, 0) && Built(t, depth) && Clear(depth, ver, t) && i <= |s|
    requires Answers([], t, s, i)
    ensures v == Expected(Answer([], t, s, i))
  {
    hide Eval, Match, OptSafe, WellFormed, Built, Bounded, Compiled, Narrow, Decided, Linkable, Answers;
    var state := new CompileState();
    ProgramBounded(depth, ver, t);
    BuiltGrown(t, depth);
    BuiltLinkable([], depth, ver, t);
    state.CompilePattern(depth, ver, t);
    PatternCorrect(depth, ver, t, s, i);
    ghost var n := Halting(state.code, s, Initial(i));
    v := RunProgram(state.code, s, i, n);
  }

  lemma Halting(code: Code, s: Subject, st: State) returns (n: nat)
    requires Eval(code, s, st) != Diverges
    ensures Steps(code, s, st, n).Halt?
  {
    n :| Steps(code, s, st, n).Halt?;
  }

  /** A match without values gives the position behind it. */
  function Returned(vs: seq<Value>, pos: nat): seq<Value> {
    if vs == [] then [Position(pos + 1)] else vs
  }

  /** Matches and returns the captured values, as `lp_match` does through `getcaptures`; nothing when the match fails.
      */
  method MatchValues(depth: nat, ver: Version, t: Tree, s: Subject, i: nat, show: Value -> seq<Byte>)
    returns (found: bool, vs: seq<Value>)
    requires WellFormed(t, 0) && Built(t, depth) && Clear(depth, ver, t) && i <= |s|
    requires PlainTree(t) && Answers([], t, s, i)
    ensures found == Answer([], t, s, i).Ok?
    ensures found ==> exists fuel: nat ::
      && Match([], t, s, i, fuel) == Answer([], t, s, i)
      && vs == Returned(Gives([], t, s, i, fuel, show), Answer([], t, s, i).pos)
  {
    hide Match, Clear, WellFormed, Built, AllPlain, AllValues, AllEntries, Gives, Rewritten;
    var v := MatchPattern(depth, ver, t, s, i);
    ghost var r := Answer([], t, s, i);
    found := v.Matched?;
    vs := [];
    if found {
      ghost var fuel: nat :| Match([], t, s, i, fuel) == r;
      MatchGives([], t, s, i, fuel, show);
      PlainFrom(r.caps, s, 0, i, r.pos);
      var cs := new CapState(v.caps + [Entry(0, 0, CCLOSE, 1)], s, show);
      vs := cs.GetCaptures(v.pos, r.caps, UCHAR_MAX, r.pos);
      ValuesFrom(r.caps, s, 0, i, r.pos, show);
    }
  }
}
