/** Where the library's promises end: grammars with more than 256 rules, whose numbers do not fit into the byte of a
    rule node, and look-behinds that look for a rule. */
module Limits {
  import opened Patterns
  import opened Analysis
  import opened Descents
  import opened Machine
  import opened CodeGen
  import opened Simulation
  import opened Linking
  import opened Peephole
  import opened Grammars
  import opened SubGrammars
  import opened Totality
  import opened Chains

  // ---------- Where a call leads ----------

  /** Later rules start later. */
  lemma {:induction false} PositionsGrow(t: Tree, depth: nat, ver: Version, k: nat, at: nat, i: nat, j: nat)
    requires t.TGrammar? && k <= i < j < |t.rules|
    ensures var ps := RulePositions(t, depth, ver, k, at); at <= ps[i - k] < ps[j - k]
    decreases j - k
  {
    hide Gen, RuleCode, RulesCode, RulePositions;
    RulesNext(t, depth, ver, k, at);
    var next := at + |RuleCode(t.rules, depth, ver, k)| + 1;
    if i > k {
      PositionsGrow(t, depth, ver, k + 1, next, i, j);
    } else if j > k + 1 {
      PositionsGrow(t, depth, ver, k + 1, next, k + 1, j);
    } else {
      RulesNext(t, depth, ver, k + 1, next);
    }
  }

  lemma PositionsDistinct(t: Tree, depth: nat, ver: Version, i: nat, j: nat)
    requires t.TGrammar? && i < |t.rules| && j < |t.rules| && i != j
    ensures var ps := RulePositions(t, depth, ver, 0, 0); ps[i] != ps[j]
  {
    PositionsGrow(t, depth, ver, 0, 0, if i < j then i else j, if i < j then j else i);
  }

  /** A call of rule `n`, as `correctcalls` leaves it, leads to rule `n` if and only if that number fits. */
  lemma LinkExact(t: Tree, depth: nat, ver: Version, x: nat, n: nat)
    requires t.TGrammar? && n < |t.rules|
    requires var c := RulesCode(t, depth, ver, 0); x < |c| && c[x] == IOpenCall(RuleNumber(ver, n))
    ensures var ps := RulePositions(t, depth, ver, 0, 0);
      var c := CorrectCalls(RulesCode(t, depth, ver, 0), ps);
      && |c| == |RulesCode(t, depth, ver, 0)| && (c[x].ICall? || c[x].IJmp?)
      && x + c[x].off == ps[RuleNumber(ver, n)]
      && (x + c[x].off == ps[n] <==> (ver.byteRules ==> n < 256))
  {
    hide RulesCode, RulePositions, CorrectCalls;
    var ps := RulePositions(t, depth, ver, 0, 0);
    CorrectSpec(RulesCode(t, depth, ver, 0), ps);
    assert Resolved(RulesCode(t, depth, ver, 0), CorrectCalls(RulesCode(t, depth, ver, 0), ps), ps, x);
    if RuleNumber(ver, n) != n { PositionsDistinct(t, depth, ver, RuleNumber(ver, n), n); }
  }

  // ---------- What the byte changes ----------

  /** Every call that the generator writes code for names a rule whose number fits into a byte. */
  predicate CodedNarrow(rs: seq<Tree>, depth: nat, t: Tree)
    decreases t
  {
    match t
    case TCall(n) => n < 256
    case TRep(p) => CodedNarrow(rs, depth, p)
    case TSeq(p1, p2) => CodedNarrow(rs, depth, p1) && CodedNarrow(rs, depth, p2)
    case TChoice(p1, p2) => CodedNarrow(rs, depth, p1) && CodedNarrow(rs, depth, p2)
    case TNot(p) => HeadFail(rs, p, depth) || CodedNarrow(rs, depth, p)
    case TAnd(p) => CodedNarrow(rs, depth, p)
    case TBehind(_, p) => CodedNarrow(rs, depth, p)
    case TCapture(_, _, p) => CodedNarrow(rs, depth, p)
    case TGrammar(rules) => forall k :: 0 <= k < |rules| ==> CodedNarrow(rules, depth, rules[k])
    case _ => true
  }

  /** Equal, or different in a slot in a way that linking does not undo. */
  ghost predicate Rel(same: bool, c: Code, c': Code) {
    && |c| == |c'|
    && if same then c == c' else exists x :: 0 <= x < |c| && Apart(c[x], c'[x])
  }

  predicate Apart(i: Instr, i': Instr) {
    i != i' && (i.IOpenCall? <==> i'.IOpenCall?)
  }

  lemma RelConcat(s1: bool, a: Code, a': Code, s2: bool, b: Code, b': Code)
    requires Rel(s1, a, a') && Rel(s2, b, b')
    ensures Rel(s1 && s2, a + b, a' + b')
  {
    if !s1 {
      var x :| 0 <= x < |a| && Apart(a[x], a'[x]);
      assert Apart((a + b)[x], (a' + b')[x]);
    } else if !s2 {
      var x :| 0 <= x < |b| && Apart(b[x], b'[x]);
      assert Apart((a + b)[|a| + x], (a' + b')[|a| + x]);
    }
  }

  lemma RelWithin(s: bool, pre: Code, c: Code, c': Code, post: Code)
    requires Rel(s, c, c')
    ensures Rel(s, pre + c, pre + c') && Rel(s, c + post, c' + post) && Rel(s, pre + c + post, pre + c' + post)
  {
    RelConcat(true, pre, pre, s, c, c');
    RelConcat(s, c, c', true, post, post);
    RelConcat(s, pre + c, pre + c', true, post, post);
  }

  /** Linking keeps equal code equal and different code different. */
  lemma LinkRel(s: bool, c: Code, c': Code, ps: seq<nat>)
    requires Rel(s, c, c') && Laid(c, |ps|) && Laid(c', |ps|)
    requires forall i, j :: 0 <= i < j < |ps| ==> ps[i] != ps[j]
    ensures Rel(s, CorrectCalls(c, ps), CorrectCalls(c', ps))
  {
    hide CorrectCalls;
    CorrectSpec(c, ps);
    CorrectSpec(c', ps);
    if !s {
      var x :| 0 <= x < |c| && Apart(c[x], c'[x]);
      assert Resolved(c, CorrectCalls(c, ps), ps, x) && Resolved(c', CorrectCalls(c', ps), ps, x);
      assert Apart(CorrectCalls(c, ps)[x], CorrectCalls(c', ps)[x]);
    }
  }

  /** The code with rule numbers in a byte, against the code with rule numbers kept whole. */
  ghost predicate GenRel(rs: seq<Tree>, depth: nat, passOpt: bool, t: Tree, opt: bool, tt: Test, fl: Charset) {
    Rel(CodedNarrow(rs, depth, t), Gen(rs, depth, Bytes(passOpt), t, opt, tt, fl),
        Gen(rs, depth, Whole(passOpt), t, opt, tt, fl))
  }

  function Bytes(passOpt: bool): Version {
    Version(passOpt, true, true, true)
  }

  function Whole(passOpt: bool): Version {
    Version(passOpt, false, true, true)
  }

  lemma {:induction false} ByteRel(rs: seq<Tree>, depth: nat, passOpt: bool, t: Tree, opt: bool, tt: Test, fl: Charset,
                                   n: nat)
    requires WellFormed(t, n)
    ensures GenRel(rs, depth, passOpt, t, opt, tt, fl)
    decreases t, 1, 0
  {
    hide GetFirst, HeadFail, CharsetType, RulesCode, RulePositions, CorrectCalls, HasCaptures, FixedLenX, Rel;
    var v, w := Bytes(passOpt), Whole(passOpt);
    match t
    case TChoice(_, _) => ChoiceRel(rs, depth, passOpt, t, opt, fl, n);
    case TRep(_) => RepRel(rs, depth, passOpt, t, opt, fl, n);
    case TSeq(p1, p2) =>
      var f1 := Follow1(rs, depth, p1, p2, fl);
      var t2 := Test2(rs, p1, tt);
      ByteRel(rs, depth, passOpt, p1, false, tt, f1, n);
      ByteRel(rs, depth, passOpt, p2, opt, t2, fl, n);
      RelConcat(CodedNarrow(rs, depth, p1), Gen(rs, depth, v, p1, false, tt, f1), Gen(rs, depth, w, p1, false, tt, f1),
                CodedNarrow(rs, depth, p2), Gen(rs, depth, v, p2, opt, t2, fl), Gen(rs, depth, w, p2, opt, t2, fl));
    case TNot(_) => NotRel(rs, depth, passOpt, t, n);
    case TAnd(_) => AndRel(rs, depth, passOpt, t, tt, n);
    case TCapture(_, _, _) => CaptureRel(rs, depth, passOpt, t, tt, fl, n);
    case TBehind(k, p) =>
      ByteRel(rs, depth, passOpt, p, false, NoTest, FULL, n);
      RelWithin(CodedNarrow(rs, depth, p), if k > 0 then [IBehind(k)] else [],
                Gen(rs, depth, v, p, false, NoTest, FULL), Gen(rs, depth, w, p, false, NoTest, FULL), []);
    case TGrammar(_) => GrammarRel(t, depth, passOpt);
    case TCall(k) => CallRel(passOpt, k);
    case _ => SameRel(Gen(rs, depth, v, t, opt, tt, fl));
  }

  lemma SameRel(c: Code)
    ensures Rel(true, c, c)
  {
  }

  lemma CallRel(passOpt: bool, n: nat)
    ensures Rel(n < 256, [IOpenCall(RuleNumber(Bytes(passOpt), n)), IPad],
                [IOpenCall(RuleNumber(Whole(passOpt), n)), IPad])
  {
    if n >= 256 {
      assert Apart([IOpenCall(RuleNumber(Bytes(passOpt), n)), IPad][0],
                   [IOpenCall(RuleNumber(Whole(passOpt), n)), IPad][0]);
    }
  }

  lemma {:induction false} ChoiceRel(rs: seq<Tree>, depth: nat, passOpt: bool, t: Tree, opt: bool, fl: Charset, n: nat)
    requires t.TChoice? && WellFormed(t, n)
    ensures Rel(CodedNarrow(rs, depth, t), GenChoice(rs, depth, Bytes(passOpt), t, opt, fl),
                GenChoice(rs, depth, Whole(passOpt), t, opt, fl))
    decreases t, 0, 0
  {
    hide GetFirst, HeadFail, Gen, Rel, ChoiceByTest, TestCode;
    var v, w := Bytes(passOpt), Whole(passOpt);
    var f1 := GetFirst(rs, t.p1, FULL, depth);
    var s1, s2 := CodedNarrow(rs, depth, t.p1), CodedNarrow(rs, depth, t.p2);
    ByteRel(rs, depth, passOpt, t.p2, opt, NoTest, fl, n);
    if ChoiceByTest(rs, depth, t.p1, t.p2, fl) {
      var test := CodeTest(f1.cs, false);
      ByteRel(rs, depth, passOpt, t.p1, false, test, fl, n);
      ChoiceTestRel(test, s1, Gen(rs, depth, v, t.p1, false, test, fl), Gen(rs, depth, w, t.p1, false, test, fl),
                    s2, Gen(rs, depth, v, t.p2, opt, NoTest, fl), Gen(rs, depth, w, t.p2, opt, NoTest, fl),
                    t.p2.TTrue?);
    } else if opt && t.p2.TTrue? {
      ByteRel(rs, depth, passOpt, t.p1, true, NoTest, FULL, n);
      RelWithin(s1, [IPartialCommit(2), IPad], Gen(rs, depth, v, t.p1, true, NoTest, FULL),
                Gen(rs, depth, w, t.p1, true, NoTest, FULL), []);
    } else {
      var test := CodeTest(f1.cs, f1.empty);
      ByteRel(rs, depth, passOpt, t.p1, t.p2.TTrue?, test, FULL, n);
      ChoiceCodeRel(test, s1, Gen(rs, depth, v, t.p1, t.p2.TTrue?, test, FULL),
                    Gen(rs, depth, w, t.p1, t.p2.TTrue?, test, FULL),
                    s2, Gen(rs, depth, v, t.p2, opt, NoTest, fl), Gen(rs, depth, w, t.p2, opt, NoTest, fl));
    }
  }

  lemma ChoiceTestRel(test: Test, s1: bool, c1: Code, d1: Code, s2: bool, c2: Code, d2: Code, emptyp2: bool)
    requires Rel(s1, c1, d1) && Rel(s2, c2, d2)
    ensures Rel(s1 && s2, ChoiceTestCode(test, c1, c2, emptyp2), ChoiceTestCode(test, d1, d2, emptyp2))
  {
    hide Rel, TestCode;
    RelLength(s1, c1, d1);
    RelLength(s2, c2, d2);
    var jmp: Code := if emptyp2 then [] else [IJmp(2 + |c2|), IPad];
    var pre := TestCode(test, TestLen(test) + |c1| + |jmp|);
    RelWithin(s1, pre, c1, d1, jmp);
    RelConcat(s1, pre + c1 + jmp, pre + d1 + jmp, s2, c2, d2);
  }

  lemma ChoiceCodeRel(test: Test, s1: bool, c1: Code, d1: Code, s2: bool, c2: Code, d2: Code)
    requires Rel(s1, c1, d1) && Rel(s2, c2, d2)
    ensures Rel(s1 && s2, ChoiceCode(test, c1, c2), ChoiceCode(test, d1, d2))
  {
    hide Rel, TestCode;
    RelLength(s1, c1, d1);
    RelLength(s2, c2, d2);
    var pre := TestCode(test, TestLen(test) + 2 + |c1| + 2) + [IChoice(2 + |c1| + 2), IPad];
    var post: Code := [ICommit(2 + |c2|), IPad];
    RelWithin(s1, pre, c1, d1, post);
    RelConcat(s1, pre + c1 + post, pre + d1 + post, s2, c2, d2);
  }

  lemma {:induction false} RepRel(rs: seq<Tree>, depth: nat, passOpt: bool, t: Tree, opt: bool, fl: Charset, n: nat)
    requires t.TRep? && WellFormed(t, n)
    ensures Rel(CodedNarrow(rs, depth, t), GenRep(rs, depth, Bytes(passOpt), t, opt, fl),
                GenRep(rs, depth, Whole(passOpt), t, opt, fl))
    decreases t, 0, 0
  {
    hide GetFirst, HeadFail, Gen, Rel, RepByTest, TestCode;
    var v, w := Bytes(passOpt), Whole(passOpt);
    var s := CodedNarrow(rs, depth, t.p);
    if IsCharset(t.p) {
      SameRel(GenRep(rs, depth, v, t, opt, fl));
    } else {
      var f := GetFirst(rs, t.p, FULL, depth);
      if RepByTest(rs, depth, t.p, fl) {
        var test := CodeTest(f.cs, false);
        var o := passOpt && opt;
        ByteRel(rs, depth, passOpt, t.p, o, test, FULL, n);
        RepTestRel(test, s, Gen(rs, depth, v, t.p, o, test, FULL), Gen(rs, depth, w, t.p, o, test, FULL));
      } else {
        ByteRel(rs, depth, passOpt, t.p, false, NoTest, FULL, n);
        RepCodeRel(CodeTest(f.cs, f.empty), s, Gen(rs, depth, v, t.p, false, NoTest, FULL),
                   Gen(rs, depth, w, t.p, false, NoTest, FULL), opt);
      }
    }
  }

  lemma RepTestRel(test: Test, s: bool, c: Code, d: Code)
    requires Rel(s, c, d)
    ensures Rel(s, RepTestCode(test, c), RepTestCode(test, d))
  {
    hide Rel, TestCode;
    RelLength(s, c, d);
    RelWithin(s, TestCode(test, TestLen(test) + |c| + 2), c, d, [IJmp(-(TestLen(test) + |c|)), IPad]);
  }

  lemma RepCodeRel(test: Test, s: bool, c: Code, d: Code, opt: bool)
    requires Rel(s, c, d)
    ensures Rel(s, RepCode(test, c, opt), RepCode(test, d, opt))
  {
    hide Rel, TestCode;
    RelLength(s, c, d);
    var first: Code := [if opt then IPartialCommit(2) else IChoice(2 + |c| + 2), IPad];
    RelWithin(s, TestCode(test, TestLen(test) + 2 + |c| + 2) + first, c, d, [IPartialCommit(-|c|), IPad]);
  }

  lemma {:induction false} NotRel(rs: seq<Tree>, depth: nat, passOpt: bool, t: Tree, n: nat)
    requires t.TNot? && WellFormed(t, n)
    ensures Rel(CodedNarrow(rs, depth, t), GenNot(rs, depth, Bytes(passOpt), t), GenNot(rs, depth, Whole(passOpt), t))
    decreases t, 0, 0
  {
    hide GetFirst, HeadFail, Gen, Rel, TestCode;
    var v, w := Bytes(passOpt), Whole(passOpt);
    var f := GetFirst(rs, t.p, FULL, depth);
    var test := CodeTest(f.cs, f.empty);
    if HeadFail(rs, t.p, depth) {
      SameRel(GenNot(rs, depth, v, t));
    } else {
      ByteRel(rs, depth, passOpt, t.p, false, NoTest, FULL, n);
      var c, d := Gen(rs, depth, v, t.p, false, NoTest, FULL), Gen(rs, depth, w, t.p, false, NoTest, FULL);
      assert |c| == |d| by { RelLength(CodedNarrow(rs, depth, t.p), c, d); }
      RelWithin(CodedNarrow(rs, depth, t.p), TestCode(test, TestLen(test) + 2 + |c| + 1) + [IChoice(2 + |c| + 1), IPad],
                c, d, [IFailTwice]);
    }
  }

  lemma RelLength(s: bool, c: Code, d: Code)
    requires Rel(s, c, d)
    ensures |c| == |d|
  {
  }

  lemma {:induction false} AndRel(rs: seq<Tree>, depth: nat, passOpt: bool, t: Tree, tt: Test, n: nat)
    requires t.TAnd? && WellFormed(t, n)
    ensures Rel(CodedNarrow(rs, depth, t), GenAnd(rs, depth, Bytes(passOpt), t, tt),
                GenAnd(rs, depth, Whole(passOpt), t, tt))
    decreases t, 0, 0
  {
    hide Gen, Rel, HasCaptures, FixedLenX, HeadFail;
    var s := CodedNarrow(rs, depth, t.p);
    var k := FixedLen(rs, t.p);
    ByteRel(rs, depth, passOpt, t.p, false, tt, FULL, n);
    var c := Gen(rs, depth, Bytes(passOpt), t.p, false, tt, FULL);
    var d := Gen(rs, depth, Whole(passOpt), t.p, false, tt, FULL);
    RelLength(s, c, d);
    RelWithin(s, [], c, d, if k > 0 then [IBehind(k)] else []);
    RelWithin(s, [IChoice(2 + |c| + 2), IPad], c, d, [IBackCommit(3), IPad, IFail]);
  }

  lemma {:induction false} CaptureRel(rs: seq<Tree>, depth: nat, passOpt: bool, t: Tree, tt: Test, fl: Charset, n: nat)
    requires t.TCapture? && WellFormed(t, n)
    ensures Rel(CodedNarrow(rs, depth, t), GenCapture(rs, depth, Bytes(passOpt), t, tt, fl),
                GenCapture(rs, depth, Whole(passOpt), t, tt, fl))
    decreases t, 0, 0
  {
    hide Gen, Rel, HasCaptures, FixedLenX, HeadFail;
    var s := CodedNarrow(rs, depth, t.p);
    var k := FixedLen(rs, t.p);
    ByteRel(rs, depth, passOpt, t.p, false, tt, fl, n);
    var c := Gen(rs, depth, Bytes(passOpt), t.p, false, tt, fl);
    var d := Gen(rs, depth, Whole(passOpt), t.p, false, tt, fl);
    if 0 <= k <= MAXOFF { RelWithin(s, [], c, d, [IFullCapture(t.kind, t.key, k)]); }
    RelWithin(s, [IOpenCapture(t.kind, t.key)], c, d, [ICloseCapture]);
  }

  /** The rules from number `k` on fit. */
  predicate RulesFit(rs: seq<Tree>, depth: nat, k: nat)
    requires k <= |rs|
  {
    forall j :: k <= j < |rs| ==> CodedNarrow(rs, depth, rs[j])
  }

  lemma {:induction false} RulesRel(t: Tree, depth: nat, passOpt: bool, k: nat, at: nat)
    requires t.TGrammar? && k <= |t.rules| && WellFormed(t, 0)
    ensures Rel(RulesFit(t.rules, depth, k), RulesCode(t, depth, Bytes(passOpt), k),
                RulesCode(t, depth, Whole(passOpt), k))
    ensures RulePositions(t, depth, Bytes(passOpt), k, at) == RulePositions(t, depth, Whole(passOpt), k, at)
    decreases t, 0, |t.rules| - k
  {
    hide Gen, Rel, CodedNarrow;
    var v, w := Bytes(passOpt), Whole(passOpt);
    if k == |t.rules| {
      SameRel(RulesCode(t, depth, v, k));
    } else {
      var c, d := RuleCode(t.rules, depth, v, k), RuleCode(t.rules, depth, w, k);
      var s := CodedNarrow(t.rules, depth, t.rules[k]);
      ByteRel(t.rules, depth, passOpt, t.rules[k], false, NoTest, FULL, |t.rules|);
      RelLength(s, c, d);
      RulesRel(t, depth, passOpt, k + 1, at + |c| + 1);
      RelWithin(s, [], c, d, [IRet]);
      RelConcat(s, c + [IRet], d + [IRet], RulesFit(t.rules, depth, k + 1), RulesCode(t, depth, v, k + 1),
                RulesCode(t, depth, w, k + 1));
    }
  }

  lemma {:induction false} GrammarRel(t: Tree, depth: nat, passOpt: bool)
    requires t.TGrammar? && WellFormed(t, 0)
    ensures forall rs, opt, tt, fl :: GenRel(rs, depth, passOpt, t, opt, tt, fl)
    decreases t, 0, |t.rules| + 1
  {
    hide RulesCode, RulePositions, CorrectCalls, Rel;
    var v, w := Bytes(passOpt), Whole(passOpt);
    var ps := RulePositions(t, depth, v, 0, 0);
    RulesRel(t, depth, passOpt, 0, 0);
    RulesLaid(t, depth, v, 0);
    RulesLaid(t, depth, w, 0);
    forall i, j | 0 <= i < j < |ps| ensures ps[i] != ps[j] { PositionsDistinct(t, depth, v, i, j); }
    var c, d := CorrectCalls(RulesCode(t, depth, v, 0), ps), CorrectCalls(RulesCode(t, depth, w, 0), ps);
    LinkRel(RulesFit(t.rules, depth, 0), RulesCode(t, depth, v, 0), RulesCode(t, depth, w, 0), ps);
    RelLength(RulesFit(t.rules, depth, 0), c, d);
    RelWithin(RulesFit(t.rules, depth, 0), [ICall(4), IPad, IJmp(2 + |c|), IPad], c, d, []);
  }

  /** Keeping rule numbers in a byte makes no difference to a program if and only if every call in it names a rule whose
      number fits. */
  lemma ByteExact(depth: nat, passOpt: bool, t: Tree)
    requires WellFormed(t, 0)
    ensures CompileTree(depth, Bytes(passOpt), t) == CompileTree(depth, Whole(passOpt), t)
       <==> CodedNarrow([], depth, t)
  {
    hide Gen, CodedNarrow;
    ByteRel([], depth, passOpt, t, false, NoTest, FULL, 0);
    RelWithin(CodedNarrow([], depth, t), [], Gen([], depth, Bytes(passOpt), t, false, NoTest, FULL),
              Gen([], depth, Whole(passOpt), t, false, NoTest, FULL), [IEnd]);
  }

  /** A pattern whose calls all name rules with numbers that fit is compiled as if rule numbers were kept whole. */
  lemma {:induction false} NarrowCoded(rs: seq<Tree>, depth: nat, t: Tree)
    requires Narrow(AsIs, t)
    ensures CodedNarrow(rs, depth, t)
    decreases t
  {
    hide HeadFail;
    match t
    case TRep(p) => NarrowCoded(rs, depth, p);
    case TSeq(p1, p2) => NarrowCoded(rs, depth, p1); NarrowCoded(rs, depth, p2);
    case TChoice(p1, p2) => NarrowCoded(rs, depth, p1); NarrowCoded(rs, depth, p2);
    case TNot(p) => NarrowCoded(rs, depth, p);
    case TAnd(p) => NarrowCoded(rs, depth, p);
    case TBehind(_, p) => NarrowCoded(rs, depth, p);
    case TCapture(_, _, p) => NarrowCoded(rs, depth, p);
    case TGrammar(rules) =>
      forall k | 0 <= k < |rules| ensures CodedNarrow(rules, depth, rules[k]) { NarrowCoded(rules, depth, rules[k]); }
    case _ =>
  }

  // ---------- A grammar with 257 rules ----------

  function WideRule(k: nat): Tree {
    if k == 0 then TCall(256) else if k == 256 then TChar(97) else TTrue
  }

  /** Rule 0 calls rule 256, which is 'a'. */
  const Wide: seq<Tree> := seq(257, k requires 0 <= k < 257 => WideRule(k))

  lemma WideIs(k: nat)
    requires k < 257
    ensures |Wide| == 257 && Wide[k] == WideRule(k)
  {
  }

  lemma WideVerified(depth: nat)
    ensures FlatRules(Wide) && VerifyGrammar(Wide, depth) && RulesBehindClosed(Wide)
  {
    hide Wide;
    WideIs(0);
    WideIs(256);
    forall k | 0 <= k < |Wide|
      ensures WellFormed(Wide[k], |Wide|) && Flat(Wide[k]) && BehindsClosed(Wide[k])
        && !CheckLoops(Wide, Wide[k], depth)
      ensures VerifyRule(Wide, Wide[k], MAXRULES, false).Passes?
    {
      WideIs(k);
      assert VerifyRule(Wide, TChar(97), MAXRULES - 1, false) == Passes(false);
      assert VerifyRule(Wide, TCall(256), MAXRULES, false) == VerifyRule(Wide, Wide[256], MAXRULES - 1, false);
    }
  }

  lemma WideMatch(fuel: nat)
    requires fuel > 0
    ensures Match([], TGrammar(Wide), [97], 0, fuel) == Ok(1, [])
  {
    hide Wide;
    WideIs(0);
    WideIs(256);
    assert Match(Wide, Wide[256], [97], 0, fuel - 1) == Ok(1, []);
    assert Match(Wide, Wide[0], [97], 0, fuel) == Ok(1, []);
  }

  /** The first rule of the linked code. */
  lemma WideCode(depth: nat)
    ensures var c := CompileTree(depth, AsIs, TGrammar(Wide)); |c| > 6 && c[0] == ICall(4) && c[4] == IJmp(0)
  {
    hide Wide, RulesCode, RulePositions, CorrectCalls;
    WideIs(0);
    var t := TGrammar(Wide);
    var c := RulesCode(t, depth, AsIs, 0);
    var ps := RulePositions(t, depth, AsIs, 0, 0);
    RulesNext(t, depth, AsIs, 0, 0);
    assert RuleCode(Wide, depth, AsIs, 0) == [IOpenCall(0), IPad];
    assert c[0] == IOpenCall(0) && c[2] == IRet && ps[0] == 0;
    CorrectFirst(c, ps);
    assert CompileTree(depth, AsIs, t)[4] == CorrectCalls(c, ps)[0];
  }

  /** A call in the first slot with a return behind it becomes a jump. */
  lemma CorrectFirst(c: Code, ps: seq<nat>)
    requires |c| > 2 && |ps| > 0 && ps[0] == 0 && c[0] == IOpenCall(0) && c[2] == IRet
    ensures |CorrectCalls(c, ps)| == |c| && CorrectCalls(c, ps)[0] == IJmp(0)
  {
    assert FinalTarget(c, 2, |c|) == 2;
    var next := CorrectOne(c, ps, 0);
    CorrectKeeps(next, ps, 1, 0);
  }

  lemma {:induction false} SelfJump(c: Code, x: nat, k: nat)
    requires x < |c| && c[x] == IJmp(0)
    ensures FinalTarget(c, x, k) == x
    decreases k
  {
    if k > 0 { SelfJump(c, x, k - 1); }
  }

  /** The library accepts this grammar and it matches "a"; but its only call leads back to the calling rule, as a jump
      to itself, from which `finaltarget` never comes to a stop. */
  lemma WideFails(depth: nat, k: nat, fuel: nat)
    requires fuel > 0
    ensures WellFormed(TGrammar(Wide), 0) && Built(TGrammar(Wide), depth) && BehindsClosed(TGrammar(Wide))
    ensures Match([], TGrammar(Wide), [97], 0, fuel) == Ok(1, []) && !Narrow(AsIs, TGrammar(Wide))
    ensures var c := CompileTree(depth, AsIs, TGrammar(Wide));
      |c| > 4 && c[0] == ICall(4) && FinalTarget(c, 4, k) == 4 && !Stops(c, FinalTarget(c, 4, k))
  {
    hide Wide, CompileTree, VerifyRule;
    WideVerified(depth);
    FlatBuilt(Wide, depth);
    WideMatch(fuel);
    WideCode(depth);
    WideIs(0);
    assert !Narrow(AsIs, Wide[0]);
    SelfJump(CompileTree(depth, AsIs, TGrammar(Wide)), 4, k);
  }

  // ---------- A look-behind that looks for a rule ----------

  /** The body of the look-behind, whose call is still open when `lp_behind` looks at it. */
  const Ahead: Tree := TSeq(TNot(TNot(TCall(0))), TChar(97))

  /** S <- 'a' B(!!S 'a') */
  const Backward: seq<Tree> := [TSeq(TChar(97), TBehind(1, Ahead))]

  /** `lp_behind` takes it to have one character and no captures. */
  lemma AheadTaken(depth: nat)
    ensures FixedLen([], Ahead) == 1 && CaptureFree(Ahead) && HasCaptures([], Ahead, depth) == Nothing
  {
    assert CaptureFree(TNot(TCall(0))) && CaptureFree(Ahead.p1);
    assert HasCaptures([], TCall(0), depth) == Nothing && HasCaptures([], TNot(TCall(0)), depth) == Nothing;
  }

  lemma BackwardFlat()
    ensures FlatRules(Backward) && !RulesBehindClosed(Backward)
  {
    AheadTaken(0);
    hide FixedLen;
    var b := TBehind(1, Ahead);
    assert WellFormed(TNot(TCall(0)), 1) && WellFormed(Ahead.p1, 1) && WellFormed(Ahead, 1) && WellFormed(b, 1);
    assert Flat(TNot(TCall(0))) && Flat(Ahead.p1) && Flat(Ahead) && Flat(b);
    assert !WellFormed(TNot(TCall(0)), 0) && !WellFormed(Ahead.p1, 0);
    assert !BehindsClosed(b) && !BehindsClosed(Backward[0]);
  }

  /** And `verifygrammar` does not look into it. */
  lemma BackwardAccepted(depth: nat)
    ensures VerifyGrammar(Backward, depth)
  {
    hide Nullable;
    var a, b, c := TChar(97), TNot(TCall(0)), TBehind(1, Ahead);
    assert VerifyRule(Backward, a, MAXRULES, false) == Passes(false);
    assert VerifyRule(Backward, Backward[0], MAXRULES, false) == Passes(false);
    assert !CheckLoops(Backward, a, depth) && !CheckLoops(Backward, TCall(0), depth);
    assert !CheckLoops(Backward, b, depth);
    assert !CheckLoops(Backward, TNot(b), depth);
    assert Ahead == TSeq(TNot(b), a) && !CheckLoops(Backward, Ahead, depth);
    assert !CheckLoops(Backward, c, depth);
    assert Backward[0] == TSeq(a, c) && !CheckLoops(Backward, Backward[0], depth);
  }

  /** Matching "a" needs the answer of the same match. */
  lemma {:induction false} BackwardTurn(fuel: nat)
    ensures Match(Backward, Backward[0], [97], 0, fuel) == Out
    decreases fuel
  {
    var s: Subject := [97];
    var b := Backward[0].p2;
    if fuel > 0 { BackwardTurn(fuel - 1); }
    assert Match(Backward, TCall(0), s, 0, fuel) == Out;
    assert Match(Backward, b.p.p1, s, 0, fuel) == Out;
    assert Match(Backward, b, s, 1, fuel) == Out;
    assert Match(Backward, TChar(97), s, 0, fuel) == Ok(1, []);
  }

  /** So the match has no answer, although the library accepts the grammar. */
  lemma BackwardNoAnswer()
    ensures !Answers([], TGrammar(Backward), [97], 0)
  {
    forall fuel: nat ensures Match([], TGrammar(Backward), [97], 0, fuel) == Out { BackwardTurn(fuel); }
  }

  // ---------- A look-behind that getfirst does not come back from ----------

  /** S <- B(!!S 'a') 'b' */
  const Turning: seq<Tree> := [TSeq(TBehind(1, Ahead), TChar(98))]

  lemma TurningFlat()
    ensures FlatRules(Turning)
  {
    AheadTaken(0);
    hide FixedLen;
    var b, c := TNot(TCall(0)), TBehind(1, Ahead);
    assert WellFormed(b, 1) && WellFormed(TNot(b), 1) && WellFormed(Ahead, 1) && WellFormed(c, 1);
    assert WellFormed(Turning[0], 1);
    assert Flat(b) && Flat(TNot(b)) && Flat(Ahead) && Flat(c) && Flat(Turning[0]);
  }

  lemma TurningVerified(depth: nat)
    ensures VerifyGrammar(Turning, depth)
  {
    hide Nullable;
    var b, c := TNot(TCall(0)), TBehind(1, Ahead);
    assert VerifyRule(Turning, c, MAXRULES, false) == Passes(true);
    assert VerifyRule(Turning, TChar(98), MAXRULES, false) == Passes(false);
    assert VerifyRule(Turning, Turning[0], MAXRULES, false) == Passes(false);
    assert !CheckLoops(Turning, TChar(97), depth) && !CheckLoops(Turning, TChar(98), depth);
    assert !CheckLoops(Turning, TCall(0), depth) && !CheckLoops(Turning, b, depth);
    assert !CheckLoops(Turning, TNot(b), depth);
    assert !CheckLoops(Turning, Ahead, depth);
    assert !CheckLoops(Turning, c, depth);
    assert !CheckLoops(Turning, Turning[0], depth);
  }

  lemma TurningNarrow()
    ensures Narrow(AsIs, Turning[0])
  {
    var b := TNot(TCall(0));
    assert Narrow(AsIs, b) && Narrow(AsIs, TNot(b)) && Narrow(AsIs, Ahead) && Narrow(AsIs, TBehind(1, Ahead));
  }

  /** The library builds this grammar and accepts it, and none of the other defects is met in it. */
  lemma TurningAccepted(depth: nat)
    ensures WellFormed(TGrammar(Turning), 0) && FlatRules(Turning) && VerifyGrammar(Turning, depth)
    ensures Narrow(AsIs, TGrammar(Turning)) && OptSafe([], depth, AsIs, TGrammar(Turning), false, FULL)
  {
    TurningFlat();
    TurningVerified(depth);
    TurningNarrow();
    TurningSafe(depth);
    hide Turning, VerifyGrammar;
    TurningOne();
    OneRule(Turning, depth);
  }

  lemma TurningOne()
    ensures |Turning| == 1
  {
  }

  /** A grammar with one rule. */
  lemma OneRule(rules: seq<Tree>, depth: nat)
    requires |rules| == 1 && FlatRules(rules) && Narrow(AsIs, rules[0])
    requires OptSafe(rules, depth, AsIs, rules[0], false, FULL)
    ensures WellFormed(TGrammar(rules), 0) && Narrow(AsIs, TGrammar(rules))
    ensures OptSafe([], depth, AsIs, TGrammar(rules), false, FULL)
  {
  }

  lemma TurningSafe(depth: nat)
    ensures OptSafe(Turning, depth, AsIs, Turning[0], false, FULL)
  {
    hide GetFirst;
    var b := TNot(TCall(0));
    assert OptSafe(Turning, depth, AsIs, b, false, FULL) && OptSafe(Turning, depth, AsIs, TNot(b), false, FULL);
    assert Follow1(Turning, depth, TNot(b), TChar(97), FULL) == FULL;
    assert OptSafe(Turning, depth, AsIs, Ahead, false, FULL);
    assert OptSafe(Turning, depth, AsIs, TBehind(1, Ahead), false, FULL);
    assert Follow1(Turning, depth, TBehind(1, Ahead), TChar(98), FULL) == FULL;
  }

  /** From its rule `getfirst` goes into the look-behind, from there to the call, and so on. */
  lemma {:induction false} TurningFirst(d: nat)
    ensures !FirstEnds(Turning, TCall(0), d)
    decreases d
  {
    if d > 0 {
      TurningFirst(d - 1);
      var b := TNot(TCall(0));
      assert !FirstEnds(Turning, b, d - 1) && !FirstEnds(Turning, TNot(b), d - 1);
      assert !FirstEnds(Turning, Ahead, d - 1) && !FirstEnds(Turning, TBehind(1, Ahead), d - 1);
      assert !FirstEnds(Turning, Turning[0], d - 1);
    }
  }

  /** So no depth is enough to compile it. */
  lemma TurningNeverCompiled(depth: nat)
    ensures !Decided([], depth, AsIs, TGrammar(Turning))
  {
    TurningFirst(depth);
    var rs, b := Turning, TNot(TCall(0));
    assert !FirstEnds(rs, b, depth);
    assert !HeadDecided(rs, depth, AsIs, b);
    assert !Decided(rs, depth, AsIs, TNot(b));
    assert !Decided(rs, depth, AsIs, Ahead) && !Decided(rs, depth, AsIs, TBehind(1, Ahead));
    assert !Decided(rs, depth, AsIs, rs[0]);
  }
}
