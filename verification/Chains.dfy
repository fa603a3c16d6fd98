/** Chains of jumps in generated code end. The loops over jumps in `correctcalls` and `peephole` have no other bound, so
    `compile` needs this to terminate, besides the end of every search for captures (Scans). With grammars it takes the
    absence of left recursion, and rule numbers that fit into their byte (Limits). */
module Chains {
  import opened Patterns
  import opened Analysis
  import opened Machine
  import opened CodeGen
  import opened Simulation
  import opened Linking
  import opened Peephole
  import opened Paths
  import opened Grammars
  import opened SubGrammars
  import opened Totality

  /** The chain of jumps from `x` ends at `z`. */
  ghost predicate EndsAt(c: Code, x: int, z: int) {
    Stops(c, z) && exists k: nat :: FinalTarget(c, x, k) == z
  }

  /** The chain of jumps from `x` ends inside the code or right after it. */
  ghost predicate EndsFrom(c: Code, x: int) {
    exists z :: 0 <= z <= |c| && EndsAt(c, x, z)
  }

  /** All chains end. */
  ghost predicate AllEnd(c: Code) {
    forall x :: 0 <= x < |c| ==> EndsFrom(c, x)
  }

  lemma EndsHere(c: Code, x: int)
    requires 0 <= x <= |c| && Stops(c, x)
    ensures EndsAt(c, x, x) && EndsFrom(c, x)
  {
    assert FinalTarget(c, x, 0) == x;
  }

  lemma EndsHop(c: Code, x: int, z: int)
    requires 0 <= x < |c| && c[x].IJmp? && EndsAt(c, x + c[x].off, z)
    ensures EndsAt(c, x, z)
  {
    var k: nat :| FinalTarget(c, x + c[x].off, k) == z;
    assert FinalTarget(c, x, k + 1) == z;
  }

  lemma HopEnds(c: Code, x: int)
    requires 0 <= x < |c| && c[x].IJmp? && EndsFrom(c, x + c[x].off)
    ensures EndsFrom(c, x)
  {
    var z :| 0 <= z <= |c| && EndsAt(c, x + c[x].off, z);
    EndsHop(c, x, z);
  }

  /** A chain inside `c` is a chain of the code around it, up to the end of `c`. */
  lemma {:induction false} ChainMoved(a: Code, c: Code, b: Code, x: int, k: nat) returns (m: nat)
    requires 0 <= x <= |c| && 0 <= FinalTarget(c, x, k)
    ensures FinalTarget(a + c + b, |a| + x, m) == |a| + FinalTarget(c, x, k)
    decreases k
  {
    if x < |c| && c[x].IJmp? && k > 0 {
      var y := x + c[x].off;
      assert (a + c + b)[|a| + x] == c[x];
      if 0 <= y <= |c| {
        m := ChainMoved(a, c, b, y, k - 1);
        m := m + 1;
      } else {
        assert FinalTarget(c, y, k - 1) == y;
        m := 1;
      }
    } else {
      m := 0;
    }
  }

  /** A chain that ends inside `c` ends there in the code around it; one that leaves `c` goes on after it. */
  lemma EndsMiddle(a: Code, c: Code, b: Code, x: int)
    requires 0 <= x <= |c| && (x < |c| ==> EndsFrom(c, x)) && EndsFrom(a + c + b, |a| + |c|)
    ensures EndsFrom(a + c + b, |a| + x)
  {
    if x < |c| {
      var w := a + c + b;
      var z :| 0 <= z <= |c| && EndsAt(c, x, z);
      var k: nat :| FinalTarget(c, x, k) == z;
      var m := ChainMoved(a, c, b, x, k);
      if z < |c| {
        assert w[|a| + z] == c[z];
        assert EndsAt(w, |a| + x, |a| + z);
      } else {
        var z2 :| 0 <= z2 <= |w| && EndsAt(w, |a| + |c|, z2);
        var n: nat :| FinalTarget(w, |a| + |c|, n) == z2;
        ChainAdd(w, |a| + x, m, n);
        assert EndsAt(w, |a| + x, z2);
      }
    }
  }

  lemma EndsLast(a: Code, c: Code, x: int)
    requires 0 <= x <= |c| && AllEnd(c)
    ensures EndsFrom(a + c, |a| + x)
  {
    assert a + c + [] == a + c;
    EndsHere(a + c, |a| + |c|);
    EndsMiddle(a, c, [], x);
  }

  lemma AllConcat(a: Code, b: Code)
    requires AllEnd(a) && AllEnd(b)
    ensures AllEnd(a + b)
  {
    forall x | 0 <= x < |a + b|
      ensures EndsFrom(a + b, x)
    {
      EndsLast(a, b, if x < |a| then 0 else x - |a|);
      if x < |a| {
        assert [] + a + b == a + b;
        EndsMiddle([], a, b, x);
      }
    }
  }

  lemma NoJumps(c: Code)
    requires forall x :: 0 <= x < |c| ==> !c[x].IJmp?
    ensures AllEnd(c)
  {
    forall x | 0 <= x < |c|
      ensures EndsFrom(c, x)
    {
      EndsHere(c, x);
    }
  }

  /** Test code in front of code in which all chains end, with a target there. */
  lemma TestEnds(test: Test, off: int, c: Code)
    requires TestLen(test) <= off <= TestLen(test) + |c| && AllEnd(c)
    ensures AllEnd(TestCode(test, off) + c)
  {
    var t := TestCode(test, off);
    forall x | 0 <= x < |t + c|
      ensures EndsFrom(t + c, x)
    {
      if x >= |t| { EndsLast(t, c, x - |t|); }
      else {
        assert (t + c)[x] == t[x];
        if t[x].IJmp? {
          EndsLast(t, c, off - |t|);
          HopEnds(t + c, 0);
        } else {
          EndsHere(t + c, x);
        }
      }
    }
  }

  /** c1; jmp past c2; c2 */
  lemma JumpOverEnds(c1: Code, c2: Code)
    requires AllEnd(c1) && AllEnd(c2)
    ensures AllEnd(c1 + ([IJmp(2 + |c2|), IPad] + c2))
  {
    var j: Code := [IJmp(2 + |c2|), IPad];
    var d := j + c2;
    assert d[0] == IJmp(2 + |c2|) && d[1] == IPad;
    forall x | 0 <= x < |d|
      ensures EndsFrom(d, x)
    {
      if x == 0 { EndsHere(d, |d|); HopEnds(d, 0); }
      else if x == 1 { EndsHere(d, 1); }
      else { EndsLast(j, c2, x - 2); }
    }
    AllConcat(c1, d);
  }

  lemma ChoiceTestEnds(test: Test, c1: Code, c2: Code, emptyp2: bool)
    requires AllEnd(c1) && AllEnd(c2) && (emptyp2 ==> c2 == [])
    ensures AllEnd(ChoiceTestCode(test, c1, c2, emptyp2))
  {
    hide AllEnd, TestCode;
    var jmp: Code := if emptyp2 then [] else [IJmp(2 + |c2|), IPad];
    var t := TestCode(test, TestLen(test) + |c1| + |jmp|);
    if emptyp2 {
      TestEnds(test, TestLen(test) + |c1|, c1);
      assert t + c1 + [] + [] == t + c1;
    } else {
      JumpOverEnds(c1, c2);
      TestEnds(test, TestLen(test) + |c1| + 2, c1 + (jmp + c2));
      assert t + c1 + jmp + c2 == t + (c1 + (jmp + c2));
    }
  }

  lemma ChoiceEnds(test: Test, c1: Code, c2: Code)
    requires AllEnd(c1) && AllEnd(c2)
    ensures AllEnd(ChoiceCode(test, c1, c2))
  {
    hide AllEnd, TestCode;
    var ch: Code := [IChoice(2 + |c1| + 2), IPad];
    var cm: Code := [ICommit(2 + |c2|), IPad];
    NoJumps(ch); NoJumps(cm);
    AllConcat(ch, c1);
    AllConcat(ch + c1, cm);
    AllConcat(ch + c1 + cm, c2);
    var t := TestCode(test, TestLen(test) + 2 + |c1| + 2);
    TestEnds(test, TestLen(test) + 2 + |c1| + 2, ch + c1 + cm + c2);
    assert t + ch + c1 + cm + c2 == t + (ch + c1 + cm + c2);
  }

  lemma RepTestEnds(test: Test, c: Code)
    requires AllEnd(c) && !test.NoTest?
    ensures AllEnd(RepTestCode(test, c))
  {
    var n := TestLen(test) + |c|;
    var t := TestCode(test, n + 2);
    var j: Code := [IJmp(-n), IPad];
    var w := t + c + j;
    assert w[0] == t[0] && w[n] == IJmp(-n) && w[n + 1] == IPad;
    EndsHere(w, |w|);
    if t[0].IJmp? { HopEnds(w, 0); } else { EndsHere(w, 0); }
    HopEnds(w, n);
    forall x | 0 <= x < |w|
      ensures EndsFrom(w, x)
    {
      if 0 < x < |t| { assert w[x] == t[x]; EndsHere(w, x); }
      else if |t| <= x < n { EndsMiddle(t, c, j, x - |t|); }
      else if x == n + 1 { EndsHere(w, x); }
    }
  }

  lemma RepEnds(test: Test, c: Code, opt: bool)
    requires AllEnd(c)
    ensures AllEnd(RepCode(test, c, opt))
  {
    hide AllEnd, TestCode;
    var ch: Code := [if opt then IPartialCommit(2) else IChoice(2 + |c| + 2), IPad];
    var cm: Code := [IPartialCommit(-|c|), IPad];
    NoJumps(ch); NoJumps(cm);
    AllConcat(ch, c);
    AllConcat(ch + c, cm);
    var t := TestCode(test, TestLen(test) + 2 + |c| + 2);
    TestEnds(test, TestLen(test) + 2 + |c| + 2, ch + c + cm);
    assert t + ch + c + cm == t + (ch + c + cm);
  }

  lemma NotEnds(test: Test, c: Code)
    requires AllEnd(c)
    ensures AllEnd(NotCode(test, c))
  {
    hide AllEnd, TestCode;
    var ch: Code := [IChoice(2 + |c| + 1), IPad];
    NoJumps(ch); NoJumps([IFailTwice]);
    AllConcat(ch, c);
    AllConcat(ch + c, [IFailTwice]);
    var t := TestCode(test, TestLen(test) + 2 + |c| + 1);
    TestEnds(test, TestLen(test) + 2 + |c| + 1, ch + c + [IFailTwice]);
    assert t + ch + c + [IFailTwice] == t + (ch + c + [IFailTwice]);
  }

  lemma BetweenEnds(a: Code, c: Code, b: Code)
    requires AllEnd(c)
    requires forall x :: 0 <= x < |a| ==> !a[x].IJmp?
    requires forall x :: 0 <= x < |b| ==> !b[x].IJmp?
    ensures AllEnd(a + c + b)
  {
    NoJumps(a); NoJumps(b);
    AllConcat(a, c);
    AllConcat(a + c, b);
  }

  // ---------- Generated code ----------

  /** What the builders make of closed trees: grammars are verified and not left recursive. */
  ghost predicate Built(t: Tree, depth: nat) {
    match t
    case TRep(p) => Built(p, depth) && !Nullable([], p, depth)
    case TSeq(p1, p2) => Built(p1, depth) && Built(p2, depth)
    case TChoice(p1, p2) => Built(p1, depth) && Built(p2, depth)
    case TNot(p) => Built(p, depth)
    case TAnd(p) => Built(p, depth)
    case TBehind(_, p) => Built(p, depth)
    case TCapture(_, _, p) => Built(p, depth)
    case TGrammar(_) => Grown(t, depth)
    case TCall(_) => false
    case _ => true
  }

  lemma {:induction false} BuiltGrown(t: Tree, depth: nat)
    requires Built(t, depth)
    ensures Grown(t, depth)
  {
    match t
    case TRep(p) => BuiltGrown(p, depth);
    case TSeq(p1, p2) => BuiltGrown(p1, depth); BuiltGrown(p2, depth);
    case TChoice(p1, p2) => BuiltGrown(p1, depth); BuiltGrown(p2, depth);
    case TNot(p) => BuiltGrown(p, depth);
    case TAnd(p) => BuiltGrown(p, depth);
    case TBehind(_, p) => BuiltGrown(p, depth);
    case TCapture(_, _, p) => BuiltGrown(p, depth);
    case _ =>
  }

  /** Chains end in the code of every tree whose grammars (if any) are verified and not left recursive. */
  lemma {:induction false} GenEnds(rs: seq<Tree>, depth: nat, ver: Version, t: Tree, opt: bool, tt: Test, fl: Charset)
    requires Flat(t) || (Grown(t, depth) && Narrow(ver, t))
    ensures AllEnd(Gen(rs, depth, ver, t, opt, tt, fl))
    decreases t, 1
  {
    hide AllEnd, GetFirst, HeadFail, CharsetType, CheckAux, WellFormed, VerifyGrammar, Acyclic, FixedLenX, HasCaptures,
      GenChoice, GenRep, GenNot, GenAnd, GenCapture;
    match t
    case TChoice(_, _) => ChoiceGenEnds(rs, depth, ver, t, opt, fl);
    case TRep(_) => RepGenEnds(rs, depth, ver, t, opt, fl);
    case TSeq(p1, p2) =>
      GenEnds(rs, depth, ver, p1, false, tt, Follow1(rs, depth, p1, p2, fl));
      GenEnds(rs, depth, ver, p2, opt, Test2(rs, p1, tt), fl);
      AllConcat(Gen(rs, depth, ver, p1, false, tt, Follow1(rs, depth, p1, p2, fl)),
                Gen(rs, depth, ver, p2, opt, Test2(rs, p1, tt), fl));
    case TNot(_) => NotGenEnds(rs, depth, ver, t);
    case TAnd(_) => AndGenEnds(rs, depth, ver, t, tt);
    case TCapture(_, _, _) => CaptureGenEnds(rs, depth, ver, t, tt, fl);
    case TBehind(n, p) =>
      GenEnds(rs, depth, ver, p, false, NoTest, FULL);
      var c := Gen(rs, depth, ver, p, false, NoTest, FULL);
      var b: Code := if n > 0 then [IBehind(n)] else [];
      NoJumps(b);
      AllConcat(b, c);
    case TGrammar(rules) => GrammarEnds(t, depth, ver);
    case TSet(cs) => NoJumps(CodeCharset(cs, tt));
    case TChar(c) => NoJumps(CodeChar(c, tt));
    case TAny => NoJumps([IAny]);
    case TFalse => NoJumps([IFail]);
    case TTrue => NoJumps([]);
    case TCall(n) => NoJumps([IOpenCall(RuleNumber(ver, n)), IPad]);
  }

  lemma {:induction false} ChoiceGenEnds(rs: seq<Tree>, depth: nat, ver: Version, t: Tree, opt: bool, fl: Charset)
    requires t.TChoice? && (Flat(t) || (Grown(t, depth) && Narrow(ver, t)))
    ensures AllEnd(GenChoice(rs, depth, ver, t, opt, fl))
    decreases t, 0
  {
    hide AllEnd, GetFirst, HeadFail, ChoiceCode, ChoiceTestCode, CheckAux, WellFormed, VerifyGrammar, Acyclic;
    var f1 := GetFirst(rs, t.p1, FULL, depth);
    GenEnds(rs, depth, ver, t.p2, opt, NoTest, fl);
    var c2 := Gen(rs, depth, ver, t.p2, opt, NoTest, fl);
    if ChoiceByTest(rs, depth, t.p1, t.p2, fl) {
      var test := CodeTest(f1.cs, false);
      GenEnds(rs, depth, ver, t.p1, false, test, fl);
      ChoiceTestEnds(test, Gen(rs, depth, ver, t.p1, false, test, fl), c2, t.p2.TTrue?);
    } else if opt && t.p2.TTrue? {
      GenEnds(rs, depth, ver, t.p1, true, NoTest, FULL);
      NoJumps([IPartialCommit(2), IPad]);
      AllConcat([IPartialCommit(2), IPad], Gen(rs, depth, ver, t.p1, true, NoTest, FULL));
    } else {
      var test := CodeTest(f1.cs, f1.empty);
      GenEnds(rs, depth, ver, t.p1, t.p2.TTrue?, test, FULL);
      ChoiceEnds(test, Gen(rs, depth, ver, t.p1, t.p2.TTrue?, test, FULL), c2);
    }
  }

  lemma {:induction false} RepGenEnds(rs: seq<Tree>, depth: nat, ver: Version, t: Tree, opt: bool, fl: Charset)
    requires t.TRep? && (Flat(t) || (Grown(t, depth) && Narrow(ver, t)))
    ensures AllEnd(GenRep(rs, depth, ver, t, opt, fl))
    decreases t, 0
  {
    hide AllEnd, GetFirst, HeadFail, RepCode, RepTestCode, CheckAux, WellFormed, VerifyGrammar, Acyclic;
    if IsCharset(t.p) {
      NoJumps([ISpan(ToCharset(t.p))] + Pads(8));
    } else {
      var f := GetFirst(rs, t.p, FULL, depth);
      if RepByTest(rs, depth, t.p, fl) {
        GenEnds(rs, depth, ver, t.p, ver.passOpt && opt, CodeTest(f.cs, false), FULL);
        RepTestEnds(CodeTest(f.cs, false), Gen(rs, depth, ver, t.p, ver.passOpt && opt, CodeTest(f.cs, false), FULL));
      } else {
        GenEnds(rs, depth, ver, t.p, false, NoTest, FULL);
        RepEnds(CodeTest(f.cs, f.empty), Gen(rs, depth, ver, t.p, false, NoTest, FULL), opt);
      }
    }
  }

  lemma {:induction false} NotGenEnds(rs: seq<Tree>, depth: nat, ver: Version, t: Tree)
    requires t.TNot? && (Flat(t) || (Grown(t, depth) && Narrow(ver, t)))
    ensures AllEnd(GenNot(rs, depth, ver, t))
    decreases t, 0
  {
    hide AllEnd, GetFirst, HeadFail, NotCode, CheckAux, WellFormed, VerifyGrammar, Acyclic;
    var f := GetFirst(rs, t.p, FULL, depth);
    var test := CodeTest(f.cs, f.empty);
    if HeadFail(rs, t.p, depth) {
      NoJumps([IFail]);
      TestEnds(test, TestLen(test) + 1, [IFail]);
    } else {
      GenEnds(rs, depth, ver, t.p, false, NoTest, FULL);
      NotEnds(test, Gen(rs, depth, ver, t.p, false, NoTest, FULL));
    }
  }

  lemma {:induction false} AndGenEnds(rs: seq<Tree>, depth: nat, ver: Version, t: Tree, tt: Test)
    requires t.TAnd? && (Flat(t) || (Grown(t, depth) && Narrow(ver, t)))
    ensures AllEnd(GenAnd(rs, depth, ver, t, tt))
    decreases t, 0
  {
    hide AllEnd, HasCaptures, FixedLenX, CheckAux, WellFormed, VerifyGrammar, Acyclic;
    GenEnds(rs, depth, ver, t.p, false, tt, FULL);
    var c := Gen(rs, depth, ver, t.p, false, tt, FULL);
    var n := FixedLen(rs, t.p);
    if 0 <= n <= MAXBEHIND && HasCaptures(rs, t.p, depth).Nothing? {
      var b: Code := if n > 0 then [IBehind(n)] else [];
      NoJumps(b);
      AllConcat(c, b);
    } else {
      BetweenEnds([IChoice(2 + |c| + 2), IPad], c, [IBackCommit(3), IPad, IFail]);
    }
  }

  lemma {:induction false} CaptureGenEnds(rs: seq<Tree>, depth: nat, ver: Version, t: Tree, tt: Test, fl: Charset)
    requires t.TCapture? && (Flat(t) || (Grown(t, depth) && Narrow(ver, t)))
    ensures AllEnd(GenCapture(rs, depth, ver, t, tt, fl))
    decreases t, 0
  {
    hide AllEnd, HasCaptures, FixedLenX, CheckAux, WellFormed, VerifyGrammar, Acyclic;
    GenEnds(rs, depth, ver, t.p, false, tt, fl);
    var c := Gen(rs, depth, ver, t.p, false, tt, fl);
    var n := FixedLen(rs, t.p);
    if 0 <= n <= MAXOFF && HasCaptures(rs, t.p, depth).Nothing? {
      NoJumps([IFullCapture(t.kind, t.key, n)]);
      AllConcat(c, [IFullCapture(t.kind, t.key, n)]);
    } else {
      BetweenEnds([IOpenCapture(t.kind, t.key)], c, [ICloseCapture]);
    }
  }

  // ---------- Where the code of a tree leads at once ----------

  /** From the start of `c` jumps alone lead to `z`: past the code only if `t` is nullable, to a call only if it is a
      left call of `t`. */
  ghost predicate LeadsTo(rs: seq<Tree>, t: Tree, c: Code, z: int) {
    && 0 <= z <= |c| && EndsAt(c, 0, z)
    && (z == |c| ==> Nulls(rs, t))
    && (z < |c| && c[z].IOpenCall? ==> LeftCall(rs, t, c[z].rule))
  }

  lemma EndsFirst(a: Code, b: Code, z: int)
    requires EndsAt(a, 0, z) && 0 <= z < |a|
    ensures EndsAt(a + b, 0, z) && (a + b)[z] == a[z]
  {
    var k: nat :| FinalTarget(a, 0, k) == z;
    assert [] + a + b == a + b;
    var m := ChainMoved([], a, b, 0, k);
  }

  lemma EndsThen(a: Code, b: Code, z: int)
    requires EndsAt(a, 0, |a|) && EndsAt(b, 0, z) && 0 <= z <= |b|
    ensures EndsAt(a + b, 0, |a| + z) && (z < |b| ==> (a + b)[|a| + z] == b[z])
  {
    var k: nat :| FinalTarget(a, 0, k) == |a|;
    assert [] + a + b == a + b;
    var m := ChainMoved([], a, b, 0, k);
    EndsAfter(a, b, z);
    var n: nat :| FinalTarget(a + b, |a|, n) == |a| + z;
    ChainAdd(a + b, 0, m, n);
  }

  lemma EndsAfter(a: Code, b: Code, z: int)
    requires EndsAt(b, 0, z) && 0 <= z <= |b|
    ensures EndsAt(a + b, |a|, |a| + z) && (z < |b| ==> (a + b)[|a| + z] == b[z])
  {
    var k: nat :| FinalTarget(b, 0, k) == z;
    assert a + b + [] == a + b;
    var m := ChainMoved(a, b, [], 0, k);
  }

  /** A test that never passes leads to its target; any other stays where it is. */
  lemma TestLeads(test: Test, off: int, rest: Code, z: int)
    requires !test.NoTest? && (test.TestNever? ==> EndsAt(TestCode(test, off) + rest, off, z))
    ensures EndsAt(TestCode(test, off) + rest, 0, if test.TestNever? then z else 0)
    ensures (TestCode(test, off) + rest)[0] == TestCode(test, off)[0] && !TestCode(test, off)[0].IOpenCall?
  {
    var w := TestCode(test, off) + rest;
    assert w[0] == TestCode(test, off)[0];
    if test.TestNever? { EndsHop(w, 0, z); } else { EndsHere(w, 0); }
  }

  lemma {:induction false} Lead(rs: seq<Tree>, depth: nat, ver: Version, t: Tree, opt: bool, tt: Test, fl: Charset)
    returns (z: int)
    requires WellFormed(t, |rs|) && Narrow(ver, t)
    ensures LeadsTo(rs, t, Gen(rs, depth, ver, t, opt, tt, fl), z)
    decreases t, 1
  {
    hide GetFirst, HeadFail, CharsetType, HasCaptures, FixedLenX, EndsAt, Nulls, LeadsTo,
      GenChoice, GenRep, GenNot, GenAnd, GenCapture;
    match t
    case TSeq(_, _) => z := LeadSeq(rs, depth, ver, t, opt, tt, fl);
    case TChoice(_, _) => z := LeadChoice(rs, depth, ver, t, opt, fl);
    case TRep(_) => z := LeadRep(rs, depth, ver, t, opt, fl);
    case TNot(_) => z := LeadNot(rs, depth, ver, t);
    case TAnd(_) => z := LeadAnd(rs, depth, ver, t, tt);
    case TCapture(_, _, _) => z := LeadCapture(rs, depth, ver, t, tt, fl);
    case TBehind(n, p) => z := 0; LeadStays(rs, t, [IBehind(n)] + Gen(rs, depth, ver, p, false, NoTest, FULL));
    case TSet(cs) => z := 0; LeadStays(rs, t, CodeCharset(cs, tt));
    case TChar(c) => z := 0; LeadStays(rs, t, CodeChar(c, tt));
    case TAny => z := 0; LeadStays(rs, t, [IAny]);
    case TFalse => z := 0; LeadStays(rs, t, [IFail]);
    case TTrue => z := 0; LeadStays(rs, t, []);
    case TGrammar(_) => z := 0; LeadStays(rs, t, Gen(rs, depth, ver, t, opt, tt, fl));
    case TCall(n) => z := 0; LeadStays(rs, t, [IOpenCall(RuleNumber(ver, n)), IPad]);
  }

  /** Code that starts with something other than a jump. */
  lemma LeadStays(rs: seq<Tree>, t: Tree, c: Code)
    requires c == [] ==> t.TTrue?
    requires c != [] ==> !c[0].IJmp? && (c[0].IOpenCall? ==> t == TCall(c[0].rule))
    ensures LeadsTo(rs, t, c, 0)
  {
    EndsHere(c, 0);
    NullsLeaf(rs, t);
  }

  lemma SeqIs(rs: seq<Tree>, depth: nat, ver: Version, t: Tree, opt: bool, tt: Test, fl: Charset)
    requires t.TSeq? && WellFormed(t, |rs|) && Narrow(ver, t)
    ensures Gen(rs, depth, ver, t, opt, tt, fl)
         == Gen(rs, depth, ver, t.p1, false, tt, Follow1(rs, depth, t.p1, t.p2, fl))
            + Gen(rs, depth, ver, t.p2, opt, Test2(rs, t.p1, tt), fl)
    ensures WellFormed(t.p1, |rs|) && WellFormed(t.p2, |rs|)
    ensures Narrow(ver, t.p1) && Narrow(ver, t.p2)
    ensures forall n: nat :: LeftCall(rs, t.p1, n) || (Nulls(rs, t.p1) && LeftCall(rs, t.p2, n)) ==> LeftCall(rs, t, n)
  {
    hide Follow1, Test2, Nulls;
  }

  lemma {:induction false} LeadSeq(rs: seq<Tree>, depth: nat, ver: Version, t: Tree, opt: bool, tt: Test, fl: Charset)
    returns (z: int)
    requires t.TSeq? && WellFormed(t, |rs|) && Narrow(ver, t)
    ensures LeadsTo(rs, t, Gen(rs, depth, ver, t, opt, tt, fl), z)
    decreases t, 0
  {
    hide EndsAt, Nulls, Gen, LeftCall, Follow1, Test2, WellFormed, Narrow;
    SeqIs(rs, depth, ver, t, opt, tt, fl);
    var fl1 := Follow1(rs, depth, t.p1, t.p2, fl);
    var c1 := Gen(rs, depth, ver, t.p1, false, tt, fl1);
    var c2 := Gen(rs, depth, ver, t.p2, opt, Test2(rs, t.p1, tt), fl);
    var z1 := Lead(rs, depth, ver, t.p1, false, tt, fl1);
    NullsSeq(rs, t.p1, t.p2);
    if z1 < |c1| {
      EndsFirst(c1, c2, z1);
      z := z1;
    } else {
      var z2 := Lead(rs, depth, ver, t.p2, opt, Test2(rs, t.p1, tt), fl);
      EndsThen(c1, c2, z2);
      z := |c1| + z2;
    }
  }

  /** Code for an alternative: a test and perhaps more in front of `c2`, where the test leads if it never passes. */
  lemma AlternativeLeads(rs: seq<Tree>, t: Tree, test: Test, rest: Code, c2: Code, z2: int) returns (z: int)
    requires t.TChoice? && LeadsTo(rs, t.p2, c2, z2)
    requires test.NoTest? ==> rest != [] && !rest[0].IJmp? && !rest[0].IOpenCall?
    ensures LeadsTo(rs, t, TestCode(test, TestLen(test) + |rest|) + rest + c2, z)
  {
    hide Nulls;
    var off := TestLen(test) + |rest|;
    var w := TestCode(test, off) + rest + c2;
    NullsChoice(rs, t.p1, t.p2);
    z := 0;
    if test.NoTest? {
      assert w[0] == rest[0];
      EndsHere(w, 0);
    } else {
      EndsAfter(TestCode(test, off) + rest, c2, z2);
      assert TestCode(test, off) + rest + c2 == TestCode(test, off) + (rest + c2);
      TestLeads(test, off, rest + c2, off + z2);
      if test.TestNever? { z := off + z2; }
    }
  }

  lemma {:induction false} LeadChoice(rs: seq<Tree>, depth: nat, ver: Version, t: Tree, opt: bool, fl: Charset)
    returns (z: int)
    requires t.TChoice? && WellFormed(t, |rs|) && Narrow(ver, t)
    ensures LeadsTo(rs, t, GenChoice(rs, depth, ver, t, opt, fl), z)
    decreases t, 0
  {
    hide EndsAt, Nulls, GetFirst, HeadFail, LeadsTo, TestCode;
    var f1 := GetFirst(rs, t.p1, FULL, depth);
    var c2 := Gen(rs, depth, ver, t.p2, opt, NoTest, fl);
    if ChoiceByTest(rs, depth, t.p1, t.p2, fl) {
      var test := CodeTest(f1.cs, false);
      var c1 := Gen(rs, depth, ver, t.p1, false, test, fl);
      var jmp: Code := if t.p2.TTrue? then [] else [IJmp(2 + |c2|), IPad];
      var z2 := Lead(rs, depth, ver, t.p2, opt, NoTest, fl);
      z := AlternativeLeads(rs, t, test, c1 + jmp, c2, z2);
      var tc := TestCode(test, TestLen(test) + |c1| + |jmp|);
      assert tc + c1 + jmp == tc + (c1 + jmp);
    } else if opt && t.p2.TTrue? {
      z := 0;
      LeadStays(rs, t, [IPartialCommit(2), IPad] + Gen(rs, depth, ver, t.p1, true, NoTest, FULL));
    } else {
      var test := CodeTest(f1.cs, f1.empty);
      var c1 := Gen(rs, depth, ver, t.p1, t.p2.TTrue?, test, FULL);
      var rest := [IChoice(2 + |c1| + 2), IPad] + c1 + [ICommit(2 + |c2|), IPad];
      var z2 := Lead(rs, depth, ver, t.p2, opt, NoTest, fl);
      z := AlternativeLeads(rs, t, test, rest, c2, z2);
      var tc := TestCode(test, TestLen(test) + 2 + |c1| + 2);
      assert tc + [IChoice(2 + |c1| + 2), IPad] + c1 + [ICommit(2 + |c2|), IPad] == tc + rest;
    }
  }

  /** Code of a nullable tree: a test in front, which leads past everything if it never passes. */
  lemma SkipLeads(rs: seq<Tree>, t: Tree, test: Test, rest: Code) returns (z: int)
    requires t.TRep? || t.TNot?
    requires rest != [] && (test.NoTest? ==> !rest[0].IJmp? && !rest[0].IOpenCall?)
    ensures LeadsTo(rs, t, TestCode(test, TestLen(test) + |rest|) + rest, z)
  {
    hide Nulls;
    var off := TestLen(test) + |rest|;
    var w := TestCode(test, off) + rest;
    NullsLeaf(rs, t);
    z := 0;
    if test.NoTest? {
      assert w[0] == rest[0];
      EndsHere(w, 0);
    } else {
      EndsHere(w, off);
      TestLeads(test, off, rest, off);
      if test.TestNever? { z := off; }
    }
  }

  lemma {:induction false} LeadRep(rs: seq<Tree>, depth: nat, ver: Version, t: Tree, opt: bool, fl: Charset)
    returns (z: int)
    requires t.TRep?
    ensures LeadsTo(rs, t, GenRep(rs, depth, ver, t, opt, fl), z)
  {
    hide GetFirst, HeadFail, Gen, LeadsTo, TestCode;
    if IsCharset(t.p) {
      z := 0;
      LeadStays(rs, t, [ISpan(ToCharset(t.p))] + Pads(8));
    } else {
      var f := GetFirst(rs, t.p, FULL, depth);
      if RepByTest(rs, depth, t.p, fl) {
        var test := CodeTest(f.cs, false);
        var c := Gen(rs, depth, ver, t.p, ver.passOpt && opt, test, FULL);
        var rest := c + [IJmp(-(TestLen(test) + |c|)), IPad];
        z := SkipLeads(rs, t, test, rest);
        var tc := TestCode(test, TestLen(test) + |c| + 2);
        assert tc + c + [IJmp(-(TestLen(test) + |c|)), IPad] == tc + rest;
      } else {
        var test := CodeTest(f.cs, f.empty);
        var c := Gen(rs, depth, ver, t.p, false, NoTest, FULL);
        var ch: Code := [if opt then IPartialCommit(2) else IChoice(2 + |c| + 2), IPad];
        var rest := ch + c + [IPartialCommit(-|c|), IPad];
        z := SkipLeads(rs, t, test, rest);
        var tc := TestCode(test, TestLen(test) + 2 + |c| + 2);
        assert tc + ch + c + [IPartialCommit(-|c|), IPad] == tc + rest;
      }
    }
  }

  lemma {:induction false} LeadNot(rs: seq<Tree>, depth: nat, ver: Version, t: Tree) returns (z: int)
    requires t.TNot?
    ensures LeadsTo(rs, t, GenNot(rs, depth, ver, t), z)
  {
    hide GetFirst, HeadFail, Gen, LeadsTo, TestCode;
    var f := GetFirst(rs, t.p, FULL, depth);
    var test := CodeTest(f.cs, f.empty);
    if HeadFail(rs, t.p, depth) {
      z := SkipLeads(rs, t, test, [IFail]);
    } else {
      var c := Gen(rs, depth, ver, t.p, false, NoTest, FULL);
      var rest := [IChoice(2 + |c| + 1), IPad] + c + [IFailTwice];
      z := SkipLeads(rs, t, test, rest);
      var tc := TestCode(test, TestLen(test) + 2 + |c| + 1);
      assert tc + [IChoice(2 + |c| + 1), IPad] + c + [IFailTwice] == tc + rest;
    }
  }

  /** The code of the body comes first; what follows it (if anything) is no jump. */
  lemma BodyLeads(rs: seq<Tree>, t: Tree, c: Code, b: Code, z1: int) returns (z: int)
    requires t.TAnd? || t.TCapture?
    requires LeadsTo(rs, t.p, c, z1)
    requires b == [] ==> t.TAnd?
    requires b != [] ==> !b[0].IJmp? && !b[0].IOpenCall?
    ensures LeadsTo(rs, t, c + b, z)
  {
    hide Nulls;
    NullsLeaf(rs, t);
    z := z1;
    if z1 < |c| { EndsFirst(c, b, z1); }
    else { EndsHere(b, 0); EndsThen(c, b, 0); }
  }

  lemma {:induction false} LeadAnd(rs: seq<Tree>, depth: nat, ver: Version, t: Tree, tt: Test) returns (z: int)
    requires t.TAnd? && WellFormed(t, |rs|) && Narrow(ver, t)
    ensures LeadsTo(rs, t, GenAnd(rs, depth, ver, t, tt), z)
    decreases t, 0
  {
    hide HasCaptures, FixedLenX, LeadsTo;
    var c := Gen(rs, depth, ver, t.p, false, tt, FULL);
    var n := FixedLen(rs, t.p);
    if 0 <= n <= MAXBEHIND && HasCaptures(rs, t.p, depth).Nothing? {
      var z1 := Lead(rs, depth, ver, t.p, false, tt, FULL);
      z := BodyLeads(rs, t, c, if n > 0 then [IBehind(n)] else [], z1);
    } else {
      z := 0;
      LeadStays(rs, t, [IChoice(2 + |c| + 2), IPad] + c + [IBackCommit(3), IPad, IFail]);
    }
  }

  lemma {:induction false} LeadCapture(rs: seq<Tree>, depth: nat, ver: Version, t: Tree, tt: Test, fl: Charset)
    returns (z: int)
    requires t.TCapture? && WellFormed(t, |rs|) && Narrow(ver, t)
    ensures LeadsTo(rs, t, GenCapture(rs, depth, ver, t, tt, fl), z)
    decreases t, 0
  {
    hide HasCaptures, FixedLenX, LeadsTo;
    var c := Gen(rs, depth, ver, t.p, false, tt, fl);
    var n := FixedLen(rs, t.p);
    if 0 <= n <= MAXOFF && HasCaptures(rs, t.p, depth).Nothing? {
      var z1 := Lead(rs, depth, ver, t.p, false, tt, fl);
      z := BodyLeads(rs, t, c, [IFullCapture(t.kind, t.key, n)], z1);
    } else {
      z := 0;
      LeadStays(rs, t, [IOpenCapture(t.kind, t.key)] + c + [ICloseCapture]);
    }
  }

  // ---------- Grammars ----------

  lemma {:induction false} RulesEnd(t: Tree, depth: nat, ver: Version, k: nat)
    requires t.TGrammar? && k <= |t.rules| && GrownRules(t.rules, depth) && NarrowRules(ver, t.rules)
    ensures AllEnd(RulesCode(t, depth, ver, k))
    decreases t, 0, |t.rules| - k
  {
    hide AllEnd;
    if k < |t.rules| {
      var c := Gen(t.rules, depth, ver, t.rules[k], false, NoTest, FULL);
      GenEnds(t.rules, depth, ver, t.rules[k], false, NoTest, FULL);
      NoJumps([IRet]);
      AllConcat(c, [IRet]);
      RulesEnd(t, depth, ver, k + 1);
      AllConcat(c + [IRet], RulesCode(t, depth, ver, k + 1));
    } else {
      NoJumps([]);
    }
  }

  /** A chain of the unresolved code is a chain of the resolved code. */
  lemma {:induction false} ChainResolved(orig: Code, cur: Code, positions: seq<nat>, x: int, k: nat) returns (m: nat)
    requires |orig| == |cur| && forall y :: 0 <= y < |orig| ==> Resolved(orig, cur, positions, y)
    ensures FinalTarget(cur, x, m) == FinalTarget(orig, x, k)
    decreases k
  {
    m := 0;
    if 0 <= x < |orig| && orig[x].IJmp? && k > 0 {
      assert Resolved(orig, cur, positions, x);
      m := ChainResolved(orig, cur, positions, x + orig[x].off, k - 1);
      m := m + 1;
    }
  }

  /** A chain of the resolved code ends if the tail call it runs into (if any) leads to a rule from which chains end. */
  lemma ResolvedEnds(orig: Code, cur: Code, positions: seq<nat>, x: int, z: int)
    requires |orig| == |cur| && forall y :: 0 <= y < |orig| ==> Resolved(orig, cur, positions, y)
    requires EndsAt(orig, x, z) && 0 <= z <= |orig|
    requires z < |orig| && orig[z].IOpenCall? ==>
      orig[z].rule < |positions| && EndsFrom(cur, positions[orig[z].rule])
    ensures EndsFrom(cur, x)
  {
    var k: nat :| FinalTarget(orig, x, k) == z;
    var m := ChainResolved(orig, cur, positions, x, k);
    if z < |orig| { assert Resolved(orig, cur, positions, z); }
    if Stops(cur, z) {
      assert EndsAt(cur, x, z);
    } else {
      HopEnds(cur, z);
      var e :| 0 <= e <= |cur| && EndsAt(cur, z, e);
      var n: nat :| FinalTarget(cur, z, n) == e;
      ChainAdd(cur, x, m, n);
      assert EndsAt(cur, x, e);
    }
  }

  /** From the start of a rule that is not left recursive chains end: each tail call on the way is a left call. */
  lemma {:induction false} RuleEnds(t: Tree, depth: nat, ver: Version, orig: Code, cur: Code, positions: seq<nat>,
                                    n: nat, budget: nat)
    requires t.TGrammar? && WellFormedRules(t.rules) && NarrowRules(ver, t.rules) && n < |t.rules|
    requires orig == RulesCode(t, depth, ver, 0) && positions == RulePositions(t, depth, ver, 0, 0)
    requires |orig| == |cur| && forall y :: 0 <= y < |orig| ==> Resolved(orig, cur, positions, y)
    requires LeftEnds(t.rules, t.rules[n], budget)
    ensures EndsFrom(cur, positions[n])
    decreases budget
  {
    hide RulesCode, RulePositions, Gen, LeftEnds, Resolved, EndsAt, EndsFrom, Nulls, LeftCall;
    var c := RuleCode(t.rules, depth, ver, n);
    var z := Lead(t.rules, depth, ver, t.rules[n], false, NoTest, FULL);
    RulesLayout(t, depth, ver, 0, 0, n);
    var p := positions[n];
    InRule(orig, p, c, z);
    if z < |c| && c[z].IOpenCall? {
      var n' := c[z].rule;
      LeftSpends(t.rules, t.rules[n], budget, n');
      RuleEnds(t, depth, ver, orig, cur, positions, n', budget - 1);
    }
    ResolvedEnds(orig, cur, positions, p, p + z);
  }

  /** Where a rule's code leads, seen in the code of all rules. */
  lemma InRule(all: Code, p: int, c: Code, z: int)
    requires Part(all, p, c) && p + |c| < |all| && all[p + |c|] == IRet
    requires EndsAt(c, 0, z) && 0 <= z <= |c|
    ensures EndsAt(all, p, p + z)
    ensures z < |c| ==> all[p + z] == c[z]
  {
    var a, b := all[..p], all[p + |c|..];
    assert a + c + b == all;
    var k: nat :| FinalTarget(c, 0, k) == z;
    var m := ChainMoved(a, c, b, 0, k);
    if z < |c| { assert all[p..p + |c|][z] == all[p + z]; }
  }

  lemma {:induction false} GrammarEnds(t: Tree, depth: nat, ver: Version)
    requires t.TGrammar? && Grown(t, depth) && NarrowRules(ver, t.rules)
    ensures AllEnd(CorrectCalls(RulesCode(t, depth, ver, 0), RulePositions(t, depth, ver, 0, 0)))
    ensures AllEnd(GrammarCode(CorrectCalls(RulesCode(t, depth, ver, 0), RulePositions(t, depth, ver, 0, 0))))
    decreases t, 0
  {
    hide RulesCode, RulePositions, CorrectFrom, VerifyRule, Resolved;
    var orig := RulesCode(t, depth, ver, 0);
    var positions := RulePositions(t, depth, ver, 0, 0);
    var cur := CorrectCalls(orig, positions);
    RulesEnd(t, depth, ver, 0);
    CorrectSpec(orig, positions);
    RulesLaid(t, depth, ver, 0);
    forall x | 0 <= x < |cur|
      ensures EndsFrom(cur, x)
    {
      assert EndsFrom(orig, x);
      var z :| 0 <= z <= |orig| && EndsAt(orig, x, z);
      if z < |orig| && orig[z].IOpenCall? {
        var n := orig[z].rule;
        RuleCallsUsed(t.rules, n);
        AnyEnds(t.rules, t.rules[n]);
        RuleEnds(t, depth, ver, orig, cur, positions, n, DEEP);
      }
      ResolvedEnds(orig, cur, positions, x, z);
    }
    GrammarCodeEnds(cur);
  }

  lemma GrammarCodeEnds(cur: Code)
    requires AllEnd(cur)
    ensures AllEnd(GrammarCode(cur))
  {
    NoJumps([ICall(4), IPad]);
    JumpOverEnds([ICall(4), IPad], cur);
    assert GrammarCode(cur) == [ICall(4), IPad] + ([IJmp(2 + |cur|), IPad] + cur);
  }

  // ---------- While calls are being corrected ----------

  /** `correctcalls` changes open calls only. */
  lemma {:induction false} CorrectKeeps(code: Code, positions: seq<nat>, k: nat, y: nat)
    requires k <= |code| && y < |code|
    ensures code[y].IOpenCall? || CorrectFrom(code, positions, k)[y] == code[y]
    decreases |code| - k
  {
    hide JumpsToRet;
    if k < |code| { CorrectKeeps(CorrectOne(code, positions, k), positions, k + 1, y); }
  }

  /** So the chains of the code that it has partly rewritten are beginnings of those that it leaves in the end. */
  lemma {:induction false} HalfChain(half: Code, full: Code, x: int, n: nat) returns (m: nat)
    requires |half| == |full| && forall y :: 0 <= y < |half| ==> half[y].IOpenCall? || full[y] == half[y]
    requires Stops(full, FinalTarget(full, x, n)) && 0 <= FinalTarget(full, x, n) <= |full| && 0 <= x <= |half|
    ensures Stops(half, FinalTarget(half, x, m)) && 0 <= FinalTarget(half, x, m) <= |half|
    decreases n
  {
    m := 0;
    if x < |half| && half[x].IJmp? {
      m := HalfChain(half, full, x + half[x].off, n - 1);
      m := m + 1;
    }
  }

  /** They end. */
  lemma HalfEnds(code: Code, positions: seq<nat>, k: nat, x: int)
    requires k <= |code| && AllEnd(CorrectFrom(code, positions, k))
    ensures Stops(code, FinalTarget(code, x, |code|))
    ensures 0 <= x <= |code| ==> 0 <= FinalTarget(code, x, |code|) <= |code|
  {
    hide CorrectFrom;
    var full := CorrectFrom(code, positions, k);
    forall y | 0 <= y < |code| ensures code[y].IOpenCall? || full[y] == code[y] { CorrectKeeps(code, positions, k, y); }
    if 0 <= x < |code| {
      assert EndsFrom(full, x);
      var z :| 0 <= z <= |full| && EndsAt(full, x, z);
      var n: nat :| FinalTarget(full, x, n) == z;
      var m := HalfChain(code, full, x, n);
      ChainBound(code, x, m);
    }
  }

  /** In every grammar that the generator meets on its way through `t`, the chains that `correctcalls` leaves end. */
  ghost predicate Linkable(rs: seq<Tree>, depth: nat, ver: Version, t: Tree)
    decreases t
  {
    match t
    case TRep(p) => IsCharset(p) || Linkable(rs, depth, ver, p)
    case TSeq(p1, p2) => Linkable(rs, depth, ver, p1) && Linkable(rs, depth, ver, p2)
    case TChoice(p1, p2) => Linkable(rs, depth, ver, p1) && Linkable(rs, depth, ver, p2)
    case TNot(p) => HeadFail(rs, p, depth) || Linkable(rs, depth, ver, p)
    case TAnd(p) => Linkable(rs, depth, ver, p)
    case TBehind(_, p) => Linkable(rs, depth, ver, p)
    case TCapture(_, _, p) => Linkable(rs, depth, ver, p)
    case TGrammar(rules) =>
      && AllEnd(CorrectCalls(RulesCode(t, depth, ver, 0), RulePositions(t, depth, ver, 0, 0)))
      && forall k :: 0 <= k < |rules| ==> Linkable(rules, depth, ver, rules[k])
    case _ => true
  }

  lemma {:induction false} BuiltLinkable(rs: seq<Tree>, depth: nat, ver: Version, t: Tree)
    requires Flat(t) || (Grown(t, depth) && Narrow(ver, t))
    ensures Linkable(rs, depth, ver, t)
    decreases t
  {
    hide AllEnd, HeadFail, WellFormed, VerifyGrammar, Acyclic, CheckAux, RulesCode, RulePositions, CorrectCalls;
    match t
    case TRep(p) => BuiltLinkable(rs, depth, ver, p);
    case TSeq(p1, p2) => BuiltLinkable(rs, depth, ver, p1); BuiltLinkable(rs, depth, ver, p2);
    case TChoice(p1, p2) => BuiltLinkable(rs, depth, ver, p1); BuiltLinkable(rs, depth, ver, p2);
    case TNot(p) => BuiltLinkable(rs, depth, ver, p);
    case TAnd(p) => BuiltLinkable(rs, depth, ver, p);
    case TBehind(_, p) => BuiltLinkable(rs, depth, ver, p);
    case TCapture(_, _, p) => BuiltLinkable(rs, depth, ver, p);
    case TGrammar(rules) =>
      GrammarEnds(t, depth, ver);
      forall k | 0 <= k < |rules| ensures Linkable(rules, depth, ver, rules[k]) {
        BuiltLinkable(rules, depth, ver, rules[k]);
      }
    case _ =>
  }

  // ---------- The bound ----------

  function Place(c: Code, x: int, i: nat): nat {
    var y := FinalTarget(c, x, i);
    if y >= 0 then y else 0
  }

  /** The places a chain visits, before it ends, are distinct. */
  lemma {:induction false} Visited(c: Code, x: int, k: nat) returns (p: seq<nat>)
    requires Stops(c, FinalTarget(c, x, k)) && (k > 0 ==> !Stops(c, FinalTarget(c, x, k - 1)))
    ensures |p| == k && !Repeats(p)
    ensures forall i :: 0 <= i < k ==> p[i] < |c| && p[i] == FinalTarget(c, x, i)
    decreases k
  {
    p := seq(k, i requires 0 <= i < k => Place(c, x, i));
    forall i | 0 <= i < k
      ensures p[i] < |c| && p[i] == FinalTarget(c, x, i)
    {
      InRangeBefore(c, x, i, k);
    }
    if i, j :| 0 <= i < j < |p| && p[i] == p[j] {
      // from the repeated place the chain would end j - i steps early
      ChainAdd(c, x, i, k - j);
      ChainAdd(c, x, j, k - j);
      assert FinalTarget(c, x, i + (k - j)) == FinalTarget(c, x, k);
      InRangeBefore(c, x, i + (k - j), k);
    }
  }

  lemma InRangeBefore(c: Code, x: int, i: nat, k: nat)
    requires i < k && !Stops(c, FinalTarget(c, x, k - 1))
    ensures 0 <= FinalTarget(c, x, i) < |c| && !Stops(c, FinalTarget(c, x, i))
  {
    var y, d: nat := FinalTarget(c, x, i), k - 1 - i;
    ChainAdd(c, x, i, d);
    if Stops(c, y) { StopStays(c, y, d); }
  }

  /** A chain that ends does so within as many jumps as there are slots. */
  lemma {:induction false} ChainBound(c: Code, x: int, k: nat)
    requires Stops(c, FinalTarget(c, x, k))
    ensures Stops(c, FinalTarget(c, x, |c|)) && FinalTarget(c, x, |c|) == FinalTarget(c, x, k)
    decreases k
  {
    if k > 0 && Stops(c, FinalTarget(c, x, k - 1)) {
      ChainBound(c, x, k - 1);
      ChainEnd(c, x, k - 1, k);
    } else {
      var p := Visited(c, x, k);
      DistinctBound(p, |c|);
      ChainAdd(c, x, k, |c| - k);
      StopStays(c, FinalTarget(c, x, k), |c| - k);
    }
  }

  /** Every chain of jumps ends within |code| jumps: what the loops over jumps need in order to end. */
  predicate Bounded(c: Code) {
    forall x :: 0 <= x < |c| ==> Stops(c, FinalTarget(c, x, |c|))
  }

  lemma AllEndBounded(c: Code)
    requires AllEnd(c)
    ensures Bounded(c)
  {
    forall x | 0 <= x < |c|
      ensures Stops(c, FinalTarget(c, x, |c|))
    {
      assert EndsFrom(c, x);
      var z :| 0 <= z <= |c| && EndsAt(c, x, z);
      var k: nat :| FinalTarget(c, x, k) == z;
      ChainBound(c, x, k);
    }
  }

  /** In the program generated for any pattern whose grammars are verified and not left recursive, chains of jumps
      end. */
  lemma ProgramBounded(depth: nat, ver: Version, t: Tree)
    requires Built(t, depth) && Narrow(ver, t)
    ensures Bounded(CompileTree(depth, ver, t))
  {
    hide AllEnd, Gen, Built, Bounded, Narrow, Grown;
    BuiltGrown(t, depth);
    GenEnds([], depth, ver, t, false, NoTest, FULL);
    NoJumps([IEnd]);
    AllConcat(Gen([], depth, ver, t, false, NoTest, FULL), [IEnd]);
    AllEndBounded(CompileTree(depth, ver, t));
  }
}
