/** The opcode interpreter in the form it has in lpvm.c: one loop that changes the instruction pointer, the subject
    position, the stack and the capture list in place. */
module Matcher {
  import opened Patterns
  import opened Machine

  const INITBACK: nat := 100
  const INITCAPSIZE: nat := 32

  /** The stack held in an array, topmost entry last. */
  ghost function StackOf(a: seq<Frame>): Stack {
    if |a| == 0 then Nil else Push(a[|a| - 1], StackOf(a[..|a| - 1]))
  }

  lemma StackOfPush(a: seq<Frame>, f: Frame)
    ensures StackOf(a + [f]) == Push(f, StackOf(a))
  {
    assert (a + [f])[..|a|] == a;
  }

  lemma StackOfTop(a: seq<Frame>)
    ensures if |a| == 0 then StackOf(a) == Nil else StackOf(a) == Push(a[|a| - 1], StackOf(a[..|a| - 1]))
  {
  }

  class Matcher {
    const code: Code
    const s: Subject
    var pc: int
    var pos: nat
    var stack: array<Frame>
    var sp: nat
    var capture: array<Entry>
    var captop: nat
    var result: Verdict
    var running: bool

    ghost predicate Valid()
      reads this, stack, capture
    {
      0 < stack.Length && sp <= stack.Length && captop < capture.Length
    }

    ghost function State(): State
      requires Valid()
      reads this, stack, capture
    {
      if running then Run(pc, pos, StackOf(stack[..sp]), capture[..captop]) else Halt(result)
    }

    constructor (code: Code, s: Subject, i: nat)
      ensures Valid() && fresh(stack) && fresh(capture) && this.code == code && this.s == s
      ensures State() == Initial(i)
    {
      this.code, this.s := code, s;
      pc, pos, captop, sp := 0, i, 0, 1;
      running, result := true, Stuck;
      stack := new Frame[INITBACK](_ => Choice(GIVEUP, i, 0));
      capture := new Entry[INITCAPSIZE](_ => Entry(0, 0, 0, 0));
      new;
      assert stack[..1] == [] + [Choice(GIVEUP, i, 0)];
      StackOfPush([], Choice(GIVEUP, i, 0));
    }

    /** Pushes a stack entry, doubling the array when it is full. */
    method PushFrame(f: Frame)
      requires Valid()
      modifies this`stack, this`sp, stack
      ensures Valid() && (stack == old(stack) || fresh(stack)) && capture[..] == old(capture[..])
      ensures stack[..sp] == old(stack[..sp]) + [f]
    {
      if sp == stack.Length {
        var old_ := stack;
        var bigger := new Frame[2 * stack.Length](
          k requires 0 <= k reads old_ => if k < old_.Length then old_[k] else f);
        assert bigger[..sp] == stack[..sp];
        stack := bigger;
      }
      stack[sp] := f;
      sp := sp + 1;
    }

    /** Appends a capture entry; afterwards there is room for one more. */
    method PushCapture(e: Entry)
      requires Valid()
      modifies this`capture, this`captop, capture
      ensures Valid() && (capture == old(capture) || fresh(capture)) && stack[..] == old(stack[..])
      ensures capture[..captop] == old(capture[..captop]) + [e]
    {
      capture[captop] := e;
      captop := captop + 1;
      if captop >= capture.Length {
        var old_ := capture;
        var bigger := new Entry[2 * captop](k requires 0 <= k reads old_ => if k < old_.Length then old_[k] else e);
        assert bigger[..captop] == capture[..captop];
        capture := bigger;
      }
    }

    method Stop(v: Verdict)
      requires Valid()
      modifies this`running, this`result
      ensures Valid() && State() == Halt(v)
    {
      running, result := false, v;
    }

    /** The `fail` label. */
    method Fail()
      requires Valid() && running
      modifies this`pc, this`pos, this`sp, this`captop, this`running, this`result
      ensures Valid()
      ensures State() == FailTo(old(StackOf(stack[..sp])), old(capture[..captop]))
    {
      while sp > 0 && stack[sp - 1].Return?
        invariant Valid() && running
        invariant FailTo(StackOf(stack[..sp]), capture[..captop])
          == FailTo(old(StackOf(stack[..sp])), old(capture[..captop]))
        decreases sp
      {
        assert stack[..sp][..sp - 1] == stack[..sp - 1];
        sp := sp - 1;
      }
      if sp == 0 {
        Stop(Stuck);
      } else {
        assert stack[..sp][..sp - 1] == stack[..sp - 1];
        sp := sp - 1;
        if stack[sp].caplevel <= captop {
          assert capture[..captop][..stack[sp].caplevel] == capture[..stack[sp].caplevel];
          pc, pos, captop := stack[sp].pc, stack[sp].pos, stack[sp].caplevel;
        } else {
          Stop(Stuck);
        }
      }
    }

    /** The loop of ISpan. */
    method Span(cs: Charset)
      requires pos <= |s|
      modifies this`pos
      ensures pos == SpanEnd(s, old(pos), cs)
    {
      while pos < |s| && s[pos] in cs
        invariant pos <= |s| && SpanEnd(s, pos, cs) == SpanEnd(s, old(pos), cs)
        decreases |s| - pos
      {
        pos := pos + 1;
      }
    }

    /** Instructions that look at the subject only. */
    method StepSubject()
      requires Valid() && running && pos <= |s| && 0 <= pc < |code|
      requires code[pc].IAny? || code[pc].IChar? || code[pc].ISet? || code[pc].IBehind? || code[pc].ISpan?
      modifies this, stack, capture
      ensures Valid() && (stack == old(stack) || fresh(stack)) && (capture == old(capture) || fresh(capture))
      ensures State() == Step(code, s, old(State()))
    {
      hide FailTo, SpanEnd;
      match code[pc]
      case IAny => if pos < |s| { pc, pos := pc + 1, pos + 1; } else { Fail(); }
      case IChar(c) => if pos < |s| && s[pos] == c { pc, pos := pc + 1, pos + 1; } else { Fail(); }
      case ISet(cs) => if pos < |s| && s[pos] in cs { pc, pos := pc + 9, pos + 1; } else { Fail(); }
      case IBehind(n) => if n > pos { Fail(); } else { pc, pos := pc + 1, pos - n; }
      case ISpan(cs) =>
        Span(cs);
        pc := pc + 9;
    }

    /** Tests and jumps. */
    method StepTest()
      requires Valid() && running && pos <= |s| && 0 <= pc < |code|
      requires code[pc].ITestAny? || code[pc].ITestChar? || code[pc].ITestSet? || code[pc].IJmp?
      modifies this, stack, capture
      ensures Valid() && (stack == old(stack) || fresh(stack)) && (capture == old(capture) || fresh(capture))
      ensures State() == Step(code, s, old(State()))
    {
      match code[pc]
      case ITestAny(off) => pc := if pos < |s| then pc + 2 else pc + off;
      case ITestChar(c, off) => pc := if pos < |s| && s[pos] == c then pc + 2 else pc + off;
      case ITestSet(cs, off) => pc := if pos < |s| && s[pos] in cs then pc + 10 else pc + off;
      case IJmp(off) => pc := pc + off;
    }

    method StepChoice()
      requires Valid() && running && pos <= |s| && 0 <= pc < |code| && code[pc].IChoice?
      modifies this, stack, capture
      ensures Valid() && (stack == old(stack) || fresh(stack)) && (capture == old(capture) || fresh(capture))
      ensures State() == Step(code, s, old(State()))
    {
      hide StackOf, FailTo, SpanEnd, CloseCapture;
      StackOfPush(stack[..sp], Choice(pc + code[pc].off, pos, captop));
      PushFrame(Choice(pc + code[pc].off, pos, captop));
      pc := pc + 2;
    }

    method StepCall()
      requires Valid() && running && pos <= |s| && 0 <= pc < |code| && code[pc].ICall?
      modifies this, stack, capture
      ensures Valid() && (stack == old(stack) || fresh(stack)) && (capture == old(capture) || fresh(capture))
      ensures State() == Step(code, s, old(State()))
    {
      hide StackOf, FailTo, SpanEnd, CloseCapture;
      StackOfPush(stack[..sp], Return(pc + 2));
      PushFrame(Return(pc + 2));
      pc := pc + code[pc].off;
    }

    method StepPop()
      requires Valid() && running && pos <= |s| && 0 <= pc < |code|
      requires code[pc].IRet? || code[pc].ICommit?
      modifies this, stack, capture
      ensures Valid() && (stack == old(stack) || fresh(stack)) && (capture == old(capture) || fresh(capture))
      ensures State() == Step(code, s, old(State()))
    {
      hide StackOf, FailTo, SpanEnd, CloseCapture;
      StackOfTop(stack[..sp]);
      if sp == 0 {
        Stop(Stuck);
      } else {
        assert stack[..sp][..sp - 1] == stack[..sp - 1];
        var top := stack[sp - 1];
        if code[pc].IRet? && top.Return? {
          sp, pc := sp - 1, top.pc;
        } else if code[pc].ICommit? && top.Choice? {
          sp, pc := sp - 1, pc + code[pc].off;
        } else {
          Stop(Stuck);
        }
      }
    }

    method StepPartialCommit()
      requires Valid() && running && pos <= |s| && 0 <= pc < |code|
      requires code[pc].IPartialCommit?
      modifies this, stack, capture
      ensures Valid() && (stack == old(stack) || fresh(stack)) && (capture == old(capture) || fresh(capture))
      ensures State() == Step(code, s, old(State()))
    {
      hide StackOf, FailTo, SpanEnd, CloseCapture;
      StackOfTop(stack[..sp]);
      if sp == 0 {
        Stop(Stuck);
      } else {
        ghost var below := stack[..sp - 1];
        assert stack[..sp][..sp - 1] == below;
        var top := stack[sp - 1];
        if top.Choice? {
          stack[sp - 1] := Choice(top.pc, pos, captop);
          assert stack[..sp] == below + [Choice(top.pc, pos, captop)];
          StackOfPush(below, Choice(top.pc, pos, captop));
          pc := pc + code[pc].off;
        } else {
          Stop(Stuck);
        }
      }
    }

    method StepBackCommit()
      requires Valid() && running && pos <= |s| && 0 <= pc < |code|
      requires code[pc].IBackCommit?
      modifies this, stack, capture
      ensures Valid() && (stack == old(stack) || fresh(stack)) && (capture == old(capture) || fresh(capture))
      ensures State() == Step(code, s, old(State()))
    {
      hide StackOf, FailTo, SpanEnd, CloseCapture;
      StackOfTop(stack[..sp]);
      if sp == 0 {
        Stop(Stuck);
      } else {
        assert stack[..sp][..sp - 1] == stack[..sp - 1];
        var top := stack[sp - 1];
        if top.Choice? && top.caplevel <= captop {
          assert capture[..captop][..top.caplevel] == capture[..top.caplevel];
          sp, pc, pos, captop := sp - 1, pc + code[pc].off, top.pos, top.caplevel;
        } else {
          Stop(Stuck);
        }
      }
    }

    method StepFail()
      requires Valid() && running && pos <= |s| && 0 <= pc < |code|
      requires code[pc].IFail? || code[pc].IFailTwice?
      modifies this, stack, capture
      ensures Valid() && (stack == old(stack) || fresh(stack)) && (capture == old(capture) || fresh(capture))
      ensures State() == Step(code, s, old(State()))
    {
      hide StackOf, FailTo, SpanEnd, CloseCapture;
      StackOfTop(stack[..sp]);
      if code[pc].IFailTwice? {
        if sp == 0 {
          Stop(Stuck);
        } else {
          assert stack[..sp][..sp - 1] == stack[..sp - 1];
          sp := sp - 1;
          Fail();
        }
      } else {
        Fail();
      }
    }

    method StepOpen()
      requires Valid() && running && pos <= |s| && 0 <= pc < |code| && code[pc].IOpenCapture?
      modifies this, stack, capture
      ensures Valid() && (stack == old(stack) || fresh(stack)) && (capture == old(capture) || fresh(capture))
      ensures State() == Step(code, s, old(State()))
    {
      hide StackOf, FailTo, SpanEnd, CloseCapture;
      PushCapture(Entry(pos, code[pc].key, code[pc].kind, 0));
      pc := pc + 1;
    }

    method StepFull()
      requires Valid() && running && pos <= |s| && 0 <= pc < |code| && code[pc].IFullCapture?
      modifies this, stack, capture
      ensures Valid() && (stack == old(stack) || fresh(stack)) && (capture == old(capture) || fresh(capture))
      ensures State() == Step(code, s, old(State()))
    {
      hide StackOf, FailTo, SpanEnd, CloseCapture;
      var len := code[pc].len;
      if len <= pos {
        PushCapture(Entry(pos - len, code[pc].key, code[pc].kind, len + 1));
        pc := pc + 1;
      } else {
        Stop(Stuck);
      }
    }

    method StepClose()
      requires Valid() && running && pos <= |s| && 0 <= pc < |code|
      requires code[pc].ICloseCapture?
      modifies this, stack, capture
      ensures Valid() && (stack == old(stack) || fresh(stack)) && (capture == old(capture) || fresh(capture))
      ensures State() == Step(code, s, old(State()))
    {
      hide StackOf, FailTo, SpanEnd;
      if captop == 0 {
        Stop(Stuck);
        return;
      }
      ghost var caps := capture[..captop];
      var last := capture[captop - 1];
      // if possible, turn the capture into a full capture
      if last.siz == 0 && last.pos <= pos && pos - last.pos < UCHAR_MAX {
        capture[captop - 1] := last.(siz := pos - last.pos + 1);
        assert capture[..captop] == caps[captop - 1 := last.(siz := pos - last.pos + 1)];
      } else {
        PushCapture(Entry(pos, 0, CCLOSE, 1));
      }
      pc := pc + 1;
    }

    method StepOnce()
      requires Valid() && running
      modifies this, stack, capture
      ensures Valid() && (stack == old(stack) || fresh(stack)) && (capture == old(capture) || fresh(capture))
      ensures State() == Step(code, s, old(State()))
    {
      hide StackOf, FailTo, SpanEnd, CloseCapture;
      StackOfTop(stack[..sp]);
      if pos > |s| {
        Stop(Stuck);
      } else if pc == GIVEUP {
        Stop(if sp == 0 then GaveUp else Stuck);
      } else if !(0 <= pc < |code|) {
        Stop(Stuck);
      } else {
        match code[pc]
        case IAny => StepSubject();
        case IChar(_) => StepSubject();
        case ISet(_) => StepSubject();
        case IBehind(_) => StepSubject();
        case ISpan(_) => StepSubject();
        case ITestAny(_) => StepTest();
        case ITestChar(_, _) => StepTest();
        case ITestSet(_, _) => StepTest();
        case IJmp(_) => StepTest();
        case IChoice(_) => StepChoice();
        case ICall(_) => StepCall();
        case IRet => StepPop();
        case ICommit(_) => StepPop();
        case IPartialCommit(_) => StepPartialCommit();
        case IBackCommit(_) => StepBackCommit();
        case IFail => StepFail();
        case IFailTwice => StepFail();
        case IOpenCapture(_, _) => StepOpen();
        case IFullCapture(_, _, _) => StepFull();
        case ICloseCapture => StepClose();
        case IEnd =>
          StackOne(stack[..sp]);
          Stop(if sp == 1 then Matched(pos, capture[..captop]) else Stuck);
        case IOpenCall(_) => Stop(Stuck);
        case IPad => Stop(Stuck);
      }
    }

    /** The main loop, for a run that halts within `n` steps. */
    method Loop(ghost n: nat) returns (v: Verdict)
      requires Valid() && Steps(code, s, State(), n).Halt?
      modifies this, stack, capture
      ensures v == old(Steps(code, s, State(), n)).v
    {
      ghost var start := State();
      ghost var left: nat := n;
      while running
        invariant Valid() && (stack == old(stack) || fresh(stack)) && (capture == old(capture) || fresh(capture))
        invariant left <= n && Steps(code, s, State(), left) == Steps(code, s, start, n)
        decreases left
      {
        assert left > 0;
        StepOnce();
        left := left - 1;
      }
      HaltStays(code, s, State(), 0, left);
      v := result;
    }
  }

  lemma StackOne(a: seq<Frame>)
    ensures |a| == 1 <==> StackOf(a).Push? && StackOf(a).below.Nil?
  {
  }

  /** Runs the program on the subject from position `i`, as lpvm.c's `match` does, whenever that run halts. */
  method RunProgram(code: Code, s: Subject, i: nat, ghost n: nat) returns (v: Verdict)
    requires Steps(code, s, Initial(i), n).Halt?
    ensures v == Eval(code, s, Initial(i))
  {
    var m := new Matcher(code, s, i);
    v := m.Loop(n);
    EvalIs(code, s, Initial(i), n);
  }
}
