/** The peephole pass of lpcode.c: jumps to jumps are shortened and jumps to unconditional instructions become those
    instructions, without changing how any run ends. */
module Peephole {
  import opened Patterns
  import opened Machine
  import opened CodeGen

  /** Instructions with a label other than IJmp. */
  predicate HasLabel(ins: Instr) {
    ins.IChoice? || ins.ICall? || ins.ICommit? || ins.IPartialCommit? || ins.IBackCommit?
    || ins.ITestChar? || ins.ITestSet? || ins.ITestAny?
  }

  /** The same instruction with another offset. */
  function Relabel(ins: Instr, off: int): Instr
    requires HasLabel(ins)
  {
    match ins
    case IChoice(_) => IChoice(off)
    case ICall(_) => ICall(off)
    case ICommit(_) => ICommit(off)
    case IPartialCommit(_) => IPartialCommit(off)
    case IBackCommit(_) => IBackCommit(off)
    case ITestChar(c, _) => ITestChar(c, off)
    case ITestSet(cs, _) => ITestSet(cs, off)
    case ITestAny(_) => ITestAny(off)
  }

  predicate UnconditionalLabel(ins: Instr) {
    ins.ICommit? || ins.IPartialCommit? || ins.IBackCommit?
  }

  predicate Unconditional(ins: Instr) {
    ins.IRet? || ins.IFail? || ins.IFailTwice? || ins.IEnd?
  }

  /** `case` of the instructions with labels: the label becomes its final destination. */
  function OptimizeLabel(code: Code, i: nat): (r: Code)
    requires i < |code| && HasLabel(code[i])
    ensures |r| == |code|
  {
    code[i := Relabel(code[i], FinalTarget(code, i + code[i].off, |code|) - i)]
  }

  /** `case IJmp`. */
  function OptimizeJump(code: Code, i: nat): (r: Code)
    requires i < |code| && code[i].IJmp?
    ensures |r| == |code|
  {
    var ft := FinalTarget(code, i, |code|);
    if !(0 <= ft < |code|) then code[i := IJmp(ft - i)]
    else if Unconditional(code[ft]) then
      var c := code[i := code[ft]];
      if i + 1 < |code| then c[i + 1 := IAny] else c
    else if UnconditionalLabel(code[ft]) then
      var fft := FinalTarget(code, ft + code[ft].off, |code|);
      OptimizeLabel(code[i := Relabel(code[ft], fft - i)], i)
    else code[i := IJmp(ft - i)]
  }

  function OptimizeAt(code: Code, i: nat): (r: Code)
    requires i < |code|
    ensures |r| == |code|
  {
    if HasLabel(code[i]) then OptimizeLabel(code, i)
    else if code[i].IJmp? then OptimizeJump(code, i)
    else code
  }

  /** lpcode.c's `sizei`. */
  function Size(ins: Instr): nat {
    match ins
    case ISet(_) => 9
    case ISpan(_) => 9
    case ITestSet(_, _) => 10
    case IOpenCall(_) => 2
    case IJmp(_) => 2
    case _ => if HasLabel(ins) then 2 else 1
  }

  function PeepholeFrom(code: Code, i: nat): (r: Code)
    ensures |r| == |code|
    decreases |code| - i
  {
    if i >= |code| then code
    else
      var c := OptimizeAt(code, i);
      PeepholeFrom(c, i + Size(c[i]))
  }

  // ---------- Chains of jumps ----------

  lemma {:induction false} ChainAdd(code: Code, x: int, a: nat, b: nat)
    ensures FinalTarget(code, x, a + b) == FinalTarget(code, FinalTarget(code, x, a), b)
    decreases a
  {
    if 0 <= x < |code| && code[x].IJmp? && a > 0 { ChainAdd(code, x + code[x].off, a - 1, b); }
  }

  /** `x` and `y` lead to a common place by jumps alone. */
  ghost predicate PcRel(code: Code, x: int, y: int) {
    exists k: nat, l: nat :: FinalTarget(code, x, k) == FinalTarget(code, y, l)
  }

  lemma PcSame(code: Code, x: int)
    ensures PcRel(code, x, x)
  {
    PcChain(code, x, 0);
  }

  lemma PcChain(code: Code, x: int, k: nat)
    ensures PcRel(code, x, FinalTarget(code, x, k))
  {
    assert FinalTarget(code, x, k) == FinalTarget(code, FinalTarget(code, x, k), 0);
  }

  lemma PcHop(code: Code, x: int, y: int)
    requires PcRel(code, x, y) && 0 <= x < |code| && code[x].IJmp?
    ensures PcRel(code, x + code[x].off, y)
  {
    var k: nat, l: nat :| FinalTarget(code, x, k) == FinalTarget(code, y, l);
    if k > 0 {
      assert FinalTarget(code, x + code[x].off, k - 1) == FinalTarget(code, y, l);
    } else {
      ChainAdd(code, y, l, 1);
      assert FinalTarget(code, x, 1) == FinalTarget(code, x + code[x].off, 0);
      assert FinalTarget(code, x + code[x].off, 0) == FinalTarget(code, y, l + 1);
    }
  }

  lemma PcSymm(code: Code, x: int, y: int)
    requires PcRel(code, x, y)
    ensures PcRel(code, y, x)
  {
    var k: nat, l: nat :| FinalTarget(code, x, k) == FinalTarget(code, y, l);
    assert FinalTarget(code, y, l) == FinalTarget(code, x, k);
  }

  /** Not a jump: where a chain stops. */
  predicate Stops(code: Code, x: int) {
    0 <= x < |code| ==> !code[x].IJmp?
  }

  lemma {:induction false} StopStays(code: Code, x: int, k: nat)
    requires Stops(code, x)
    ensures FinalTarget(code, x, k) == x
  {
  }

  /** Something related to a place where chains stop leads there. */
  lemma PcStop(code: Code, x: int, y: int) returns (l: nat)
    requires PcRel(code, x, y) && Stops(code, x)
    ensures FinalTarget(code, y, l) == x
  {
    var k: nat, l': nat :| FinalTarget(code, x, k) == FinalTarget(code, y, l');
    StopStays(code, x, k);
    l := l';
  }

  /** A chain has one end. */
  lemma ChainEnd(code: Code, y: int, k: nat, l: nat)
    requires Stops(code, FinalTarget(code, y, k)) && Stops(code, FinalTarget(code, y, l))
    ensures FinalTarget(code, y, k) == FinalTarget(code, y, l)
  {
    if k <= l { ChainAdd(code, y, k, l - k); StopStays(code, FinalTarget(code, y, k), l - k); }
    else { ChainAdd(code, y, l, k - l); StopStays(code, FinalTarget(code, y, l), k - l); }
  }

  // ---------- Related states ----------

  ghost predicate FrameRel(code: Code, f: Frame, g: Frame) {
    match f
    case Choice(pc, pos, level) => g.Choice? && g.pos == pos && g.caplevel == level && PcRel(code, pc, g.pc)
    case Return(pc) => g.Return? && PcRel(code, pc, g.pc)
  }

  ghost predicate StackRel(code: Code, a: Stack, b: Stack) {
    match a
    case Nil => b.Nil?
    case Push(f, below) => b.Push? && FrameRel(code, f, b.top) && StackRel(code, below, b.below)
  }

  ghost predicate StateRel(code: Code, a: State, b: State) {
    match a
    case Halt(v) => b == Halt(v)
    case Run(pc, pos, stk, caps) =>
      b.Run? && b.pos == pos && b.caps == caps && PcRel(code, pc, b.pc) && StackRel(code, stk, b.stk)
  }

  lemma {:induction false} FailRel(code: Code, a: Stack, b: Stack, caps: seq<Entry>)
    requires StackRel(code, a, b)
    ensures StateRel(code, FailTo(a, caps), FailTo(b, caps))
  {
    if a.Push? && a.top.Return? { FailRel(code, a.below, b.below, caps); }
  }

  lemma {:induction false} StackSame(code: Code, a: Stack)
    ensures StackRel(code, a, a)
  {
    if a.Push? { StackSame(code, a.below); PcSame(code, a.top.pc); }
  }

  /** Instruction `ins` at `y` does what `code[x]` does at `x`, up to chains of jumps. */
  ghost predicate Mimics(code: Code, ins: Instr, y: int, x: int)
    requires 0 <= x < |code|
  {
    if HasLabel(code[x]) then
      && HasLabel(ins) && ins == Relabel(code[x], ins.off)
      && PcRel(code, x + code[x].off, y + ins.off)
      && (y == x || UnconditionalLabel(code[x]))
    else
      ins == code[x] && !ins.IJmp? && (y == x || Unconditional(ins))
  }

  lemma StepMimics(code: Code, code': Code, s: Subject, a: State, b: State)
    requires a.Run? && b.Run? && 0 <= a.pc < |code| && 0 <= b.pc < |code'|
    requires a.pos == b.pos && a.caps == b.caps && StackRel(code, a.stk, b.stk)
    requires Mimics(code, code'[b.pc], b.pc, a.pc)
    ensures StateRel(code, Step(code, s, a), Step(code', s, b))
  {
    if HasLabel(code[a.pc]) { StepLabel(code, code', s, a, b); }
    else { StepPlain(code, code', s, a, b); }
  }

  lemma StepLabel(code: Code, code': Code, s: Subject, a: State, b: State)
    requires a.Run? && b.Run? && 0 <= a.pc < |code| && 0 <= b.pc < |code'|
    requires a.pos == b.pos && a.caps == b.caps && StackRel(code, a.stk, b.stk)
    requires Mimics(code, code'[b.pc], b.pc, a.pc) && HasLabel(code[a.pc])
    ensures StateRel(code, Step(code, s, a), Step(code', s, b))
  {
    hide PcRel;
    PcSame(code, a.pc + 2); PcSame(code, a.pc + 10);
  }

  lemma StepPlain(code: Code, code': Code, s: Subject, a: State, b: State)
    requires a.Run? && b.Run? && 0 <= a.pc < |code| && 0 <= b.pc < |code'|
    requires a.pos == b.pos && a.caps == b.caps && StackRel(code, a.stk, b.stk)
    requires Mimics(code, code'[b.pc], b.pc, a.pc) && !HasLabel(code[a.pc])
    ensures StateRel(code, Step(code, s, a), Step(code', s, b))
  {
    hide FailTo, SpanEnd, PcRel, CloseCapture;
    FailRel(code, a.stk, b.stk, a.caps);
    if a.stk.Push? { FailRel(code, a.stk.below, b.stk.below, a.caps); }
    PcSame(code, a.pc + 1); PcSame(code, a.pc + 9);
  }

  // ---------- One rewriting step ----------

  /** `code'` is `code` rewritten at `i`: a jump moved further along its own chain, or a copy of what the chain of jumps
      from `i` leads to; a pad after it may have become a no-op. */
  ghost predicate Rewrites(code: Code, code': Code, i: nat) {
    && |code'| == |code| && i < |code|
    && (forall x :: 0 <= x < |code| && x != i && x != i + 1 ==> code'[x] == code[x])
    && (i + 1 < |code| ==> code'[i + 1] == code[i + 1] || (code[i + 1].IPad? && code'[i + 1] == IAny))
    && (|| (code[i].IJmp? && exists k: nat :: k > 0 && code'[i] == IJmp(FinalTarget(code, i, k) - i))
        || exists k: nat :: CopyOf(code, code'[i], i, k))
  }

  ghost predicate CopyOf(code: Code, ins: Instr, i: int, k: nat) {
    var z := FinalTarget(code, i, k);
    0 <= z < |code| && !code[z].IJmp? && Mimics(code, ins, i, z)
  }

  lemma SlotElsewhere(code: Code, code': Code, i: nat, x: int)
    requires Rewrites(code, code', i)
    requires 0 <= x < |code| && x != i && !code[x].IPad?
    ensures code'[x] == code[x]
  {
  }

  /** If the original run halts without violating an assertion, so does the rewritten one, and with the same verdict. */
  lemma {:induction false} Forward(code: Code, code': Code, i: nat, s: Subject, a: State, b: State, n: nat)
    requires Rewrites(code, code', i) && StateRel(code, a, b)
    requires Steps(code, s, a, n).Halt? && Steps(code, s, a, n).v != Stuck
    ensures Eval(code', s, b) == Steps(code, s, a, n).v
    decreases n, 1, 0
  {
    hide Step, Rewrites, PcRel, StackRel;
    if a.Halt? {
      HaltStays(code, s, a, 0, n);
      EvalIs(code', s, b, 0);
    } else {
      var a' := Step(code, s, a);
      if 0 <= a.pc < |code| && code[a.pc].IJmp? {
        JumpStep(code, s, a);
        if a'.Run? { PcHop(code, a.pc, b.pc); }
        else { HaltStays(code, s, a, 1, n); }
        Forward(code, code', i, s, a', b, n - 1);
      } else {
        var l := PcStop(code, a.pc, b.pc);
        ForwardAt(code, code', i, s, a, b, n, l);
      }
    }
  }

  lemma JumpStep(code: Code, s: Subject, a: State)
    requires a.Run? && 0 <= a.pc < |code| && code[a.pc].IJmp?
    ensures Step(code, s, a) == if a.pos <= |s| then a.(pc := a.pc + code[a.pc].off) else Halt(Stuck)
  {
  }

  /** Same, when the original is about to execute something other than a jump and `l` jumps lead the other one there. */
  lemma {:induction false} ForwardAt(code: Code, code': Code, i: nat, s: Subject, a: State, b: State, n: nat, l: nat)
    requires Rewrites(code, code', i) && StateRel(code, a, b) && a.Run? && Stops(code, a.pc) && n > 0
    requires Steps(code, s, a, n).Halt? && Steps(code, s, a, n).v != Stuck
    requires FinalTarget(code, b.pc, l) == a.pc
    ensures Eval(code', s, b) == Steps(code, s, a, n).v
    decreases n, 0, l
  {
    hide Step, Rewrites, PcRel, StackRel;
    NotStuck(code, s, a, n);
    var x, y := a.pc, b.pc;
    if y == i && Copied(code, code', i, x, l) {
      StepMimics(code, code', s, a, b);
      EvalStep(code', s, b);
      Forward(code, code', i, s, Step(code, s, a), Step(code', s, b), n - 1);
    } else if y == i {
      var k := JumpShortened(code, code', i, x, l);
      RewritesLen(code, code', i);
      JumpStep(code', s, b);
      EvalStep(code', s, b);
      var w := FinalTarget(code, i, k);
      var b' := b.(pc := w);
      assert Step(code', s, b) == b';
      Advance(code, i, x, l, k);
      PcTo(code, x, w, if k <= l then l - k else 0);
      ForwardAt(code, code', i, s, a, b', n, if k <= l then l - k else 0);
    } else if y == x {
      StepSame(code, code', i, s, a, b);
      EvalStep(code', s, b);
      Forward(code, code', i, s, Step(code, s, a), Step(code', s, b), n - 1);
    } else {
      assert l > 0 && 0 <= y < |code| && code[y].IJmp?;
      SlotElsewhere(code, code', i, y);
      RewritesLen(code, code', i);
      JumpStep(code', s, b);
      EvalStep(code', s, b);
      PcTo(code, x, y + code[y].off, l - 1);
      ForwardAt(code, code', i, s, a, b.(pc := y + code[y].off), n, l - 1);
    }
  }

  lemma RewritesLen(code: Code, code': Code, i: nat)
    requires Rewrites(code, code', i)
    ensures |code'| == |code| && i < |code|
  {
  }

  /** A run that ends well does not start on a pad or beyond the subject. */
  lemma NotStuck(code: Code, s: Subject, a: State, n: nat)
    requires a.Run? && n > 0 && Steps(code, s, a, n).Halt? && Steps(code, s, a, n).v != Stuck
    ensures a.pos <= |s|
    ensures 0 <= a.pc < |code| ==> !code[a.pc].IPad?
    ensures a.pc == GIVEUP || 0 <= a.pc < |code|
  {
    if Steps(code, s, a, 1).Halt? { HaltStays(code, s, a, 1, n); }
  }

  lemma PcTo(code: Code, x: int, w: int, l: nat)
    requires FinalTarget(code, w, l) == x
    ensures PcRel(code, x, w)
  {
    assert FinalTarget(code, x, 0) == FinalTarget(code, w, l);
  }

  lemma Advance(code: Code, i: int, x: int, l: nat, k: nat)
    requires FinalTarget(code, i, l) == x && Stops(code, x)
    ensures FinalTarget(code, FinalTarget(code, i, k), if k <= l then l - k else 0) == x
  {
    if k <= l { ChainAdd(code, i, k, l - k); }
    else { ChainAdd(code, i, l, k - l); StopStays(code, x, k - l); }
  }

  /** The rewritten slot is a copy of the instruction at `x`. */
  ghost predicate Copied(code: Code, code': Code, i: nat, x: int, l: nat) {
    |code'| == |code| && i < |code| && 0 <= x < |code| && Mimics(code, code'[i], i, x)
  }

  lemma JumpShortened(code: Code, code': Code, i: nat, x: int, l: nat) returns (k: nat)
    requires Rewrites(code, code', i) && FinalTarget(code, i, l) == x && Stops(code, x)
    requires !Copied(code, code', i, x, l)
    ensures k > 0 && code[i].IJmp? && code'[i] == IJmp(FinalTarget(code, i, k) - i)
    ensures l > 0
  {
    if k' : nat :| CopyOf(code, code'[i], i, k') {
      ChainEnd(code, i, k', l);
      assert false;
    }
    k :| k > 0 && code'[i] == IJmp(FinalTarget(code, i, k) - i);
  }

  lemma StepSame(code: Code, code': Code, i: nat, s: Subject, a: State, b: State)
    requires Rewrites(code, code', i) && StateRel(code, a, b) && a.Run? && Stops(code, a.pc)
    requires a.pc == b.pc != i
    requires 0 <= a.pc < |code| ==> !code[a.pc].IPad?
    ensures StateRel(code, Step(code, s, a), Step(code', s, b))
  {
    if 0 <= a.pc < |code| {
      SlotElsewhere(code, code', i, a.pc);
      if HasLabel(code[a.pc]) { PcSame(code, a.pc + code[a.pc].off); }
      StepMimics(code, code', s, a, b);
    }
  }

  /** If the rewritten run halts, so does the original one. */
  lemma {:induction false} Backward(code: Code, code': Code, i: nat, s: Subject, a: State, b: State, n: nat)
    requires Rewrites(code, code', i) && StateRel(code, a, b)
    requires Steps(code', s, b, n).Halt?
    ensures Halts(code, s, a)
    decreases n
  {
    hide Step, Rewrites, PcRel, StackRel;
    RewritesLen(code, code', i);
    if b.Halt? {
      assert Steps(code, s, a, 0).Halt?;
    } else {
      var b' := Step(code', s, b);
      if 0 <= b.pc < |code'| && code'[b.pc].IJmp? {
        JumpStep(code', s, b);
        if b.pos > |s| {
          StuckBeyond(code, s, a);
        } else {
          MovedJump(code, code', i, b.pc, a.pc);
          Backward(code, code', i, s, a, b', n - 1);
        }
      } else {
        var z := Original(code, code', i, b.pc, a.pc);
        PcSymm(code, a.pc, z);
        var l := PcStop(code, z, a.pc);
        var a' := a.(pc := z);
        if 0 <= z < |code| && code[z].IPad? {
          StuckOnPad(code, s, a');
        } else {
          StepOriginal(code, code', i, s, a', b);
          Backward(code, code', i, s, Step(code, s, a'), b', n - 1);
          HaltsStep(code, s, a');
        }
        HopHalts(code, s, a, l);
      }
    }
  }

  ghost predicate Halts(code: Code, s: Subject, a: State) {
    exists n: nat :: Steps(code, s, a, n).Halt?
  }

  lemma HaltsStep(code: Code, s: Subject, a: State)
    requires Halts(code, s, Step(code, s, a))
    ensures Halts(code, s, a)
  {
    var n: nat :| Steps(code, s, Step(code, s, a), n).Halt?;
    assert Steps(code, s, a, n + 1).Halt?;
  }

  lemma StuckBeyond(code: Code, s: Subject, a: State)
    requires a.Run? && a.pos > |s|
    ensures Halts(code, s, a)
  {
    assert Steps(code, s, a, 1).Halt?;
  }

  lemma StuckOnPad(code: Code, s: Subject, a: State)
    requires a.Run? && 0 <= a.pc < |code| && code[a.pc].IPad?
    ensures Halts(code, s, a)
  {
    assert Steps(code, s, a, 1).Halt?;
  }

  lemma {:induction false} HopHalts(code: Code, s: Subject, a: State, l: nat)
    requires a.Run? && Halts(code, s, a.(pc := FinalTarget(code, a.pc, l)))
    ensures Halts(code, s, a)
    decreases l
  {
    if a.pos > |s| { StuckBeyond(code, s, a); }
    else if 0 <= a.pc < |code| && code[a.pc].IJmp? && l > 0 {
      JumpStep(code, s, a);
      HopHalts(code, s, a.(pc := a.pc + code[a.pc].off), l - 1);
      HaltsStep(code, s, a);
    }
  }

  /** A jump of the rewritten code stays within related places. */
  lemma MovedJump(code: Code, code': Code, i: nat, y: int, x: int)
    requires Rewrites(code, code', i) && PcRel(code, x, y) && 0 <= y < |code'| && code'[y].IJmp?
    ensures PcRel(code, x, y + code'[y].off)
  {
    PcSymm(code, x, y);
    if y == i {
      assert !exists k: nat :: CopyOf(code, code'[i], i, k);
      var k: nat :| k > 0 && code'[i] == IJmp(FinalTarget(code, i, k) - i);
      PcHops(code, y, x, k);
    } else {
      PcHop(code, y, x);
    }
    PcSymm(code, y + code'[y].off, x);
  }

  lemma {:induction false} PcHops(code: Code, y: int, x: int, k: nat)
    requires PcRel(code, y, x)
    ensures PcRel(code, FinalTarget(code, y, k), x)
    decreases k
  {
    if 0 <= y < |code| && code[y].IJmp? && k > 0 {
      PcHop(code, y, x);
      PcHops(code, y + code[y].off, x, k - 1);
    }
  }

  /** What the original would execute where the rewritten code executes slot `y`. */
  lemma Original(code: Code, code': Code, i: nat, y: int, x: int) returns (z: int)
    requires Rewrites(code, code', i) && PcRel(code, x, y) && (0 <= y < |code'| ==> !code'[y].IJmp?)
    ensures PcRel(code, x, z) && Stops(code, z)
    ensures 0 <= z < |code| && !code[z].IPad? ==> 0 <= y < |code'| && Mimics(code, code'[y], y, z)
    ensures !(0 <= z < |code|) ==> z == y
  {
    z := y;
    if y == i {
      var k: nat :| CopyOf(code, code'[i], i, k);
      z := FinalTarget(code, i, k);
      PcSymm(code, x, y);
      PcHops(code, y, x, k);
      PcSymm(code, z, x);
    } else if 0 <= y < |code| && HasLabel(code[y]) {
      PcSame(code, y + code[y].off);
    }
  }

  lemma StepOriginal(code: Code, code': Code, i: nat, s: Subject, a: State, b: State)
    requires Rewrites(code, code', i) && a.Run? && b.Run?
    requires a.pos == b.pos && a.caps == b.caps && StackRel(code, a.stk, b.stk)
    requires 0 <= a.pc < |code| ==> 0 <= b.pc < |code'| && Mimics(code, code'[b.pc], b.pc, a.pc)
    requires !(0 <= a.pc < |code|) ==> a.pc == b.pc
    ensures StateRel(code, Step(code, s, a), Step(code', s, b))
  {
    if 0 <= a.pc < |code| { StepMimics(code, code', s, a, b); }
  }

  lemma EvalHalts(code: Code, s: Subject, a: State)
    ensures Halts(code, s, a) ==>
      exists n: nat :: Steps(code, s, a, n).Halt? && Eval(code, s, a) == Steps(code, s, a, n).v
    ensures !Halts(code, s, a) ==> Eval(code, s, a) == Diverges
  {
  }

  /** One rewriting step changes no verdict of any run that respects the machine's assertions. */
  lemma RewriteSound(code: Code, code': Code, i: nat, s: Subject, st: State)
    requires Rewrites(code, code', i)
    requires Eval(code, s, st) != Stuck
    ensures Eval(code', s, st) == Eval(code, s, st)
  {
    if st.Run? { PcSame(code, st.pc); StackSame(code, st.stk); }
    EvalHalts(code, s, st);
    if Halts(code, s, st) {
      var n: nat :| Steps(code, s, st, n).Halt? && Eval(code, s, st) == Steps(code, s, st, n).v;
      Forward(code, code', i, s, st, st, n);
    } else {
      EvalHalts(code', s, st);
      if Halts(code', s, st) {
        var n: nat :| Steps(code', s, st, n).Halt?;
        Backward(code, code', i, s, st, st, n);
      }
    }
  }

  // ---------- The pass ----------

  /** Every jump is followed by the slot of its offset. */
  predicate Padded(code: Code) {
    forall x :: 0 <= x < |code| && code[x].IJmp? ==> x + 1 < |code| && code[x + 1].IPad?
  }

  lemma LabelRewrites(code: Code, i: nat)
    requires i < |code| && HasLabel(code[i])
    ensures Rewrites(code, OptimizeLabel(code, i), i)
    ensures Padded(code) ==> Padded(OptimizeLabel(code, i))
  {
    PcChain(code, i + code[i].off, |code|);
    assert CopyOf(code, OptimizeLabel(code, i)[i], i, 0);
  }

  /** What `case IJmp` leaves before it looks at the new label once more. */
  lemma JumpRewrites(code: Code, code': Code, i: nat, ft: int)
    requires i < |code| && code[i].IJmp? && Padded(code) && ft == FinalTarget(code, i, |code|)
    requires
      || code' == code[i := IJmp(ft - i)]
      || (0 <= ft < |code| && Unconditional(code[ft]) && code' == code[i := code[ft]][i + 1 := IAny])
      || (0 <= ft < |code| && UnconditionalLabel(code[ft])
          && code' == code[i := Relabel(code[ft], FinalTarget(code, ft + code[ft].off, |code|) - i)])
    ensures Rewrites(code, code', i) && Padded(code')
  {
    if code' == code[i := IJmp(ft - i)] {
    } else if Unconditional(code[ft]) {
      assert CopyOf(code, code'[i], i, |code|);
    } else {
      PcChain(code, ft + code[ft].off, |code|);
      assert CopyOf(code, code'[i], i, |code|);
    }
  }

  lemma OptimizeSound(code: Code, i: nat, s: Subject, st: State)
    requires i < |code| && Padded(code)
    ensures Padded(OptimizeAt(code, i))
    ensures Eval(code, s, st) != Stuck ==> Eval(OptimizeAt(code, i), s, st) == Eval(code, s, st)
  {
    hide Eval, Rewrites, FinalTarget;
    if HasLabel(code[i]) {
      LabelRewrites(code, i);
      if Eval(code, s, st) != Stuck { RewriteSound(code, OptimizeLabel(code, i), i, s, st); }
    } else if code[i].IJmp? {
      var ft := FinalTarget(code, i, |code|);
      var mid := if !(0 <= ft < |code|) then code[i := IJmp(ft - i)]
                 else if Unconditional(code[ft]) then code[i := code[ft]][i + 1 := IAny]
                 else if UnconditionalLabel(code[ft])
                 then code[i := Relabel(code[ft], FinalTarget(code, ft + code[ft].off, |code|) - i)]
                 else code[i := IJmp(ft - i)];
      JumpRewrites(code, mid, i, ft);
      if Eval(code, s, st) != Stuck { RewriteSound(code, mid, i, s, st); }
      if 0 <= ft < |code| && UnconditionalLabel(code[ft]) {
        LabelRewrites(mid, i);
        if Eval(code, s, st) != Stuck { RewriteSound(mid, OptimizeLabel(mid, i), i, s, st); }
      }
    }
  }

  /** The whole pass: every run that respects the machine's assertions ends as before, whatever the code. */
  lemma {:induction false} PeepholeSound(code: Code, i: nat, s: Subject, st: State)
    requires Padded(code) && Eval(code, s, st) != Stuck
    ensures Eval(PeepholeFrom(code, i), s, st) == Eval(code, s, st)
    decreases |code| - i
  {
    hide Eval, OptimizeAt, Padded;
    if i < |code| {
      var c := OptimizeAt(code, i);
      OptimizeSound(code, i, s, st);
      PeepholeSound(c, i + Size(c[i]), s, st);
    }
  }
}
