/** The matching machine of lpvm.c: instructions, the choice/call stack, the capture list, one step, whole runs. */
module Machine {
  import opened Common
  import opened Patterns

  /** Instructions keep the source's layout: an instruction with an offset or a charset is followed by as many `IPad`
      slots as its operands take. Offsets are relative to the instruction, as in the source. */
  datatype Instr =
    | IAny
    | IChar(c: Byte)
    | ISet(cs: Charset)
    | ITestAny(off: int)
    | ITestChar(c: Byte, off: int)
    | ITestSet(cs: Charset, off: int)
    | ISpan(cs: Charset)
    | IBehind(n: nat)
    | IRet
    | IEnd
    | IChoice(off: int)
    | IJmp(off: int)
    | ICall(off: int)
    | IOpenCall(rule: nat)
    | ICommit(off: int)
    | IPartialCommit(off: int)
    | IBackCommit(off: int)
    | IFailTwice
    | IFail
    | IFullCapture(kind: nat, key: nat, len: nat)
    | IOpenCapture(kind: nat, key: nat)
    | ICloseCapture
    | IPad

  type Code = seq<Instr>

  /** An entry of the capture list; `siz` is 0 for an open entry and the length plus one for a full capture. */
  datatype Entry = Entry(pos: nat, idx: nat, kind: nat, siz: nat)

  const CCLOSE: nat := 0
  const UCHAR_MAX: nat := 255

  /** An entry of the machine's stack: a choice, or (with a null position in the source) a pending call. */
  datatype Frame = Choice(pc: int, pos: nat, caplevel: nat) | Return(pc: int)
  datatype Stack = Nil | Push(top: Frame, below: Stack)

  /** `Stuck` stands for a violated assertion of the source, or control leaving the code. */
  datatype Verdict = Matched(pos: nat, caps: seq<Entry>) | GaveUp | Stuck | Diverges
  datatype State = Run(pc: int, pos: nat, stk: Stack, caps: seq<Entry>) | Halt(v: Verdict)

  /** The address of the source's `giveup` instruction. */
  const GIVEUP: int := -1

  function Initial(i: nat): State {
    Run(0, i, Push(Choice(GIVEUP, i, 0), Nil), [])
  }

  /** The `fail` label: drop pending calls, then resume the topmost choice. */
  function FailTo(stk: Stack, caps: seq<Entry>): State {
    match stk
    case Nil => Halt(Stuck)
    case Push(Return(_), below) => FailTo(below, caps)
    case Push(Choice(pc, pos, level), below) =>
      if level <= |caps| then Run(pc, pos, below, caps[..level]) else Halt(Stuck)
  }

  /** First position at or after `i` whose character is not in `cs`. */
  function SpanEnd(s: Subject, i: nat, cs: Charset): (j: nat)
    requires i <= |s|
    ensures i <= j <= |s|
    decreases |s| - i
  {
    if i < |s| && s[i] in cs then SpanEnd(s, i + 1, cs) else i
  }

  function CloseCapture(caps: seq<Entry>, pos: nat): seq<Entry>
    requires |caps| > 0
  {
    var last := caps[|caps| - 1];
    // if possible, turn the open capture into a full capture
    if last.siz == 0 && last.pos <= pos && pos - last.pos < UCHAR_MAX then
      caps[|caps| - 1 := last.(siz := pos - last.pos + 1)]
    else
      caps + [Entry(pos, 0, CCLOSE, 1)]
  }

  function Step(code: Code, s: Subject, st: State): State {
    if st.Halt? then st
    else
      var Run(pc, pos, stk, caps) := st;
      if pos > |s| then Halt(Stuck)
      else if pc == GIVEUP then Halt(if stk.Nil? then GaveUp else Stuck)
      else if !(0 <= pc < |code|) then Halt(Stuck)
      else
        match code[pc]
        case IEnd => Halt(if stk.Push? && stk.below.Nil? then Matched(pos, caps) else Stuck)
        case IRet =>
          if stk.Push? && stk.top.Return? then Run(stk.top.pc, pos, stk.below, caps) else Halt(Stuck)
        case IAny => if pos < |s| then Run(pc + 1, pos + 1, stk, caps) else FailTo(stk, caps)
        case ITestAny(off) => Run(if pos < |s| then pc + 2 else pc + off, pos, stk, caps)
        case IChar(c) => if pos < |s| && s[pos] == c then Run(pc + 1, pos + 1, stk, caps) else FailTo(stk, caps)
        case ITestChar(c, off) => Run(if pos < |s| && s[pos] == c then pc + 2 else pc + off, pos, stk, caps)
        case ISet(cs) => if pos < |s| && s[pos] in cs then Run(pc + 9, pos + 1, stk, caps) else FailTo(stk, caps)
        case ITestSet(cs, off) => Run(if pos < |s| && s[pos] in cs then pc + 10 else pc + off, pos, stk, caps)
        case IBehind(n) => if n > pos then FailTo(stk, caps) else Run(pc + 1, pos - n, stk, caps)
        case ISpan(cs) => Run(pc + 9, SpanEnd(s, pos, cs), stk, caps)
        case IJmp(off) => Run(pc + off, pos, stk, caps)
        case IChoice(off) => Run(pc + 2, pos, Push(Choice(pc + off, pos, |caps|), stk), caps)
        case ICall(off) => Run(pc + off, pos, Push(Return(pc + 2), stk), caps)
        case ICommit(off) =>
          if stk.Push? && stk.top.Choice? then Run(pc + off, pos, stk.below, caps) else Halt(Stuck)
        case IPartialCommit(off) =>
          if stk.Push? && stk.top.Choice?
          then Run(pc + off, pos, Push(Choice(stk.top.pc, pos, |caps|), stk.below), caps)
          else Halt(Stuck)
        case IBackCommit(off) =>
          if stk.Push? && stk.top.Choice? && stk.top.caplevel <= |caps|
          then Run(pc + off, stk.top.pos, stk.below, caps[..stk.top.caplevel])
          else Halt(Stuck)
        case IFailTwice => if stk.Push? then FailTo(stk.below, caps) else Halt(Stuck)
        case IFail => FailTo(stk, caps)
        case IFullCapture(kind, key, len) =>
          if len <= pos then Run(pc + 1, pos, stk, caps + [Entry(pos - len, key, kind, len + 1)]) else Halt(Stuck)
        case IOpenCapture(kind, key) => Run(pc + 1, pos, stk, caps + [Entry(pos, key, kind, 0)])
        case ICloseCapture => if |caps| > 0 then Run(pc + 1, pos, stk, CloseCapture(caps, pos)) else Halt(Stuck)
        case IOpenCall(_) => Halt(Stuck)
        case IPad => Halt(Stuck)
  }

  function Steps(code: Code, s: Subject, st: State, n: nat): State
    decreases n
  {
    if n == 0 then st else Steps(code, s, Step(code, s, st), n - 1)
  }

  /** How the run from `st` ends. */
  ghost function Eval(code: Code, s: Subject, st: State): Verdict {
    if n: nat :| Steps(code, s, st, n).Halt? then Steps(code, s, st, n).v else Diverges
  }

  lemma {:induction false} HaltStays(code: Code, s: Subject, st: State, n: nat, m: nat)
    requires n <= m && Steps(code, s, st, n).Halt?
    ensures Steps(code, s, st, m) == Steps(code, s, st, n)
    decreases m
  {
    if n > 0 { HaltStays(code, s, Step(code, s, st), n - 1, m - 1); }
    else if m > 0 { HaltStays(code, s, st, 0, m - 1); }
  }

  lemma EvalIs(code: Code, s: Subject, st: State, n: nat)
    requires Steps(code, s, st, n).Halt?
    ensures Eval(code, s, st) == Steps(code, s, st, n).v
  {
    var m: nat :| Steps(code, s, st, m).Halt? && Eval(code, s, st) == Steps(code, s, st, m).v;
    if n <= m { HaltStays(code, s, st, n, m); } else { HaltStays(code, s, st, m, n); }
  }

  /** A run and the run from its next state end the same way. */
  lemma EvalStep(code: Code, s: Subject, st: State)
    ensures Eval(code, s, Step(code, s, st)) == Eval(code, s, st)
  {
    var st' := Step(code, s, st);
    if n: nat :| Steps(code, s, st', n).Halt? {
      EvalIs(code, s, st', n);
      assert Steps(code, s, st, n + 1) == Steps(code, s, st', n);
      EvalIs(code, s, st, n + 1);
    } else {
      forall n: nat
        ensures !Steps(code, s, st, n).Halt?
      {
        if Steps(code, s, st, n).Halt? { HaltStays(code, s, st, n, n + 1); }
      }
    }
  }

  /** An observation of states. */
  type Ev = State -> Verdict

  /** The observation does not distinguish a state from the next one. `Eval` is one such observation, and the one
      that the whole-program theorems use; most proofs need no more than this of it. */
  ghost predicate Respects(ev: Ev, code: Code, s: Subject) {
    forall st {:trigger Step(code, s, st)} :: ev(Step(code, s, st)) == ev(st)
  }

  lemma EvStep(ev: Ev, code: Code, s: Subject, st: State)
    requires Respects(ev, code, s)
    ensures ev(Step(code, s, st)) == ev(st)
  {
  }

  /** All choices on the stack were pushed when the capture list was at most `n` long. */
  predicate Levels(stk: Stack, n: nat) {
    match stk
    case Nil => true
    case Push(f, below) => (f.Choice? ==> f.caplevel <= n) && Levels(below, n)
  }

  lemma {:induction false} LevelsUp(stk: Stack, n: nat, m: nat)
    requires Levels(stk, n) && n <= m
    ensures Levels(stk, m)
  {
    if stk.Push? { LevelsUp(stk.below, n, m); }
  }

  /** Failing forgets captures added since the choices on the stack were pushed. */
  lemma {:induction false} FailToPrefix(stk: Stack, caps: seq<Entry>, more: seq<Entry>)
    requires Levels(stk, |caps|)
    ensures FailTo(stk, caps + more) == FailTo(stk, caps)
  {
    match stk
    case Nil =>
    case Push(Return(_), below) => FailToPrefix(below, caps, more);
    case Push(Choice(_, _, level), _) => assert (caps + more)[..level] == caps[..level];
  }
}
