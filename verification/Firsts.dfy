/** When lpcode.c's `getfirst` comes back. It follows left calls, and goes into the bodies of look-behinds, which
    `verifyrule` does not do: so it can come round in a circle in a grammar that was accepted. The other analyses come
    back in all accepted grammars. */
module Firsts {
  import opened Patterns
  import opened Analysis
  import opened Descents
  import opened CodeGen
  import opened Paths
  import opened Grammars
  import opened SubGrammars
  import opened Totality
  import Scans

  // ---------- Where getfirst goes ----------

  /** Rule `n` of a grammar. */
  datatype Place = At(rs: seq<Tree>, n: nat)

  ghost predicate Good(x: Place) {
    x.n < |x.rs| && WellFormedRules(x.rs)
  }

  /** From `t`, `getfirst` goes to `y` before it goes to any other rule: by a call, or into a grammar. */
  ghost predicate FirstCall(rs: seq<Tree>, t: Tree, y: Place) {
    match t
    case TCall(k) => y == At(rs, k)
    case TGrammar(rules) => y == At(rules, 0)
    case TRep(p) => FirstCall(rs, p, y)
    case TAnd(p) => FirstCall(rs, p, y)
    case TNot(p) => !IsCharset(p) && FirstCall(rs, p, y)
    case TBehind(_, p) => FirstCall(rs, p, y)
    case TCapture(_, _, p) => FirstCall(rs, p, y)
    case TSeq(p1, p2) => FirstCall(rs, p1, y) || (Nulls(rs, p1) && FirstCall(rs, p2, y))
    case TChoice(p1, p2) => FirstCall(rs, p1, y) || FirstCall(rs, p2, y)
    case _ => false
  }

  ghost function FirstStep(): (Place, Place) -> bool {
    (x: Place, y: Place) => Good(x) && Good(y) && FirstCall(x.rs, x.rs[x.n], y)
  }

  ghost function FirstDone(): (Place, nat) -> bool {
    (x: Place, b: nat) => Good(x) && FirstEnds(x.rs, x.rs[x.n], b)
  }

  ghost function Goods(): Place -> bool {
    (x: Place) => Good(x)
  }

  /** Going on from `t`, `getfirst` comes round in a circle. */
  ghost predicate FirstCircle(rs: seq<Tree>, t: Tree) {
    exists y: Place :: Good(y) && FirstCall(rs, t, y) && Circles(FirstStep(), y)
  }

  lemma {:induction false} FirstSpends(rs: seq<Tree>, t: Tree, d: nat, y: Place)
    requires FirstEnds(rs, t, d) && FirstCall(rs, t, y)
    ensures y.n < |y.rs| && d > 0 && FirstEnds(y.rs, y.rs[y.n], d - 1)
    decreases t
  {
    match t
    case TRep(p) => FirstSpends(rs, p, d, y);
    case TAnd(p) => FirstSpends(rs, p, d, y);
    case TNot(p) => FirstSpends(rs, p, d, y);
    case TBehind(_, p) => FirstSpends(rs, p, d, y);
    case TCapture(_, _, p) => FirstSpends(rs, p, d, y);
    case TSeq(p1, p2) =>
      CheckNulls(rs, p1, d);
      if FirstCall(rs, p1, y) { FirstSpends(rs, p1, d, y); } else { FirstSpends(rs, p2, d, y); }
    case TChoice(p1, p2) => if FirstCall(rs, p1, y) { FirstSpends(rs, p1, d, y); } else { FirstSpends(rs, p2, d, y); }
    case _ =>
  }

  lemma {:induction false} FirstWants(rs: seq<Tree>, t: Tree, d: nat) returns (y: Place)
    requires WellFormed(t, |rs|) && WellFormedRules(rs) && !FirstEnds(rs, t, d)
    ensures Good(y) && FirstCall(rs, t, y) && (d > 0 ==> !FirstEnds(y.rs, y.rs[y.n], d - 1))
    decreases t
  {
    match t
    case TCall(k) => y := At(rs, k);
    case TGrammar(rules) => y := At(rules, 0);
    case TRep(p) => y := FirstWants(rs, p, d);
    case TAnd(p) => y := FirstWants(rs, p, d);
    case TNot(p) => y := FirstWants(rs, p, d);
    case TBehind(_, p) => y := FirstWants(rs, p, d);
    case TCapture(_, _, p) => y := FirstWants(rs, p, d);
    case TSeq(p1, p2) =>
      if FirstEnds(rs, p1, d) {
        FirstChecks(rs, p1, d);
        CheckNulls(rs, p1, d);
        y := FirstWants(rs, p2, d);
      } else {
        y := FirstWants(rs, p1, d);
      }
    case TChoice(p1, p2) =>
      if !FirstEnds(rs, p1, d) { y := FirstWants(rs, p1, d); } else { y := FirstWants(rs, p2, d); }
  }

  lemma FirstSearch()
    ensures Spends(FirstStep(), FirstDone()) && Wants(FirstStep(), FirstDone(), Goods())
  {
    hide FirstEnds, FirstCall, WellFormedRules;
    var step, done, good := FirstStep(), FirstDone(), Goods();
    forall x: Place, y: Place, b: nat | done(x, b) && step(x, y) ensures b > 0 && done(y, b - 1) {
      FirstSpends(x.rs, x.rs[x.n], b, y);
    }
    forall x: Place, b: nat | good(x) && !done(x, b)
      ensures exists y :: step(x, y) && good(y) && (b > 0 ==> !done(y, b - 1))
    {
      RuleFormed(x);
      var y := FirstWants(x.rs, x.rs[x.n], b);
      assert step(x, y) && good(y) && (b > 0 ==> !done(y, b - 1));
    }
  }

  lemma RuleFormed(x: Place)
    requires Good(x)
    ensures WellFormed(x.rs[x.n], |x.rs|)
  {
  }

  // ---------- How far it can go without a repetition ----------

  lemma {:induction false} FirstInside(rs: seq<Tree>, t: Tree, y: Place)
    requires FirstCall(rs, t, y)
    ensures y.rs == rs || Scans.Size(y.rs) < Scans.Mass(t)
    decreases t
  {
    match t
    case TRep(p) => FirstInside(rs, p, y);
    case TAnd(p) => FirstInside(rs, p, y);
    case TNot(p) => FirstInside(rs, p, y);
    case TBehind(_, p) => FirstInside(rs, p, y);
    case TCapture(_, _, p) => FirstInside(rs, p, y);
    case TSeq(p1, p2) => if FirstCall(rs, p1, y) { FirstInside(rs, p1, y); } else { FirstInside(rs, p2, y); }
    case TChoice(p1, p2) => if FirstCall(rs, p1, y) { FirstInside(rs, p1, y); } else { FirstInside(rs, p2, y); }
    case _ =>
  }

  /** How many places of a chain are in its first grammar. */
  lemma {:induction false} SameGrammar(p: seq<Place>) returns (k: nat)
    requires |p| > 0 && Path(FirstStep(), p)
    ensures 0 < k <= |p| && forall i :: 0 <= i < k ==> p[i].rs == p[0].rs
    ensures k < |p| ==> Scans.Size(p[k].rs) < Scans.RulesMass(p[0].rs, 0)
    decreases |p|
  {
    if |p| == 1 { return 1; }
    assert FirstStep()(p[0], p[0 + 1]);
    FirstInside(p[0].rs, p[0].rs[p[0].n], p[1]);
    Scans.RuleMass(p[0].rs, 0, p[0].n);
    if p[1].rs != p[0].rs { return 1; }
    SubPath(FirstStep(), p, 1, |p|);
    var q := p[1..];
    var m := SameGrammar(q);
    k := m + 1;
    forall i | 0 <= i < k ensures p[i].rs == p[0].rs {
      if i > 0 { assert p[i] == q[i - 1]; }
    }
    if k < |p| { assert p[k] == q[m]; }
  }

  /** A chain without a repetition is no longer than there are rules. */
  lemma {:induction false} ChainLength(p: seq<Place>)
    requires |p| > 0 && Good(p[0]) && Path(FirstStep(), p) && !Repeats(p)
    ensures |p| <= Scans.Size(p[0].rs)
    decreases |p|
  {
    var rs := p[0].rs;
    var k := SameGrammar(p);
    var numbers := seq(k, i requires 0 <= i < k => p[i].n);
    forall i | 0 <= i < k ensures numbers[i] < |rs| {
      if i > 0 { assert FirstStep()(p[i - 1], p[i - 1 + 1]); }
    }
    forall i, j | 0 <= i < j < k ensures numbers[i] != numbers[j] { assert p[i] != p[j]; }
    DistinctBound(numbers, |rs|);
    if k < |p| {
      var q := p[k..];
      SubPath(FirstStep(), p, k, |p|);
      assert FirstStep()(p[k - 1], p[k - 1 + 1]);
      forall i, j | 0 <= i < j < |q| ensures q[i] != q[j] { assert p[k + i] != p[k + j]; }
      ChainLength(q);
    }
  }

  lemma PlacesWithin(x: Place, n: nat)
    requires Good(x) && Scans.Size(x.rs) <= n
    ensures Within(FirstStep(), x, n)
  {
    forall p: seq<Place> | |p| > 0 && p[0] == x && Path(FirstStep(), p) && !Repeats(p) ensures |p| <= n {
      ChainLength(p);
    }
  }

  /** `getfirst` comes back if and only if following left calls, in the bodies of look-behinds too, does not lead
      round in a circle; and then it does so within a depth given by the number of rules. */
  lemma FirstExact(rs: seq<Tree>, t: Tree, d: nat)
    requires WellFormed(t, |rs|) && WellFormedRules(rs)
    ensures FirstEnds(rs, t, d) ==> !FirstCircle(rs, t)
    ensures d >= Scans.Enough(rs, t) && !FirstCircle(rs, t) ==> FirstEnds(rs, t, d)
  {
    hide FirstEnds, FirstCall, Good, Spends, Wants, Within, Circles, WellFormed;
    FirstSearch();
    if FirstEnds(rs, t, d) {
      forall y: Place | Good(y) && FirstCall(rs, t, y) ensures !Circles(FirstStep(), y) {
        FirstSpends(rs, t, d, y);
        DoneNoCircle(FirstStep(), FirstDone(), y, d - 1);
      }
    } else if d >= Scans.Enough(rs, t) {
      var y := FirstWants(rs, t, d);
      FirstInside(rs, t, y);
      SizePositive(y);
      PlacesWithin(y, d);
      DoneExact(FirstStep(), FirstDone(), Goods(), y, d - 1);
    }
  }

  lemma SizePositive(y: Place)
    requires Good(y)
    ensures Scans.Size(y.rs) > 0
  {
  }

  // ---------- Accepted grammars ----------

  /** `headfail` comes back. */
  lemma {:induction false} AcceptedHead(level: nat, rs: seq<Tree>, t: Tree, depth: nat, budget: nat, d: nat)
    requires Proper(rs, depth, level) && Over(rs, t, depth, level) && LeftEnds(rs, t, budget)
    requires d >= budget + DEEP + DEEP * level
    ensures HeadEnds(rs, t, d)
    decreases level, budget, t
  {
    OverSub(rs, t, depth, level);
    hide Over, WellFormed, CheckEnds, CheckAux;
    match t
    case TSeq(p1, p2) =>
      OverEnds(rs, p2, depth, level);
      OverCheck(level, rs, p2, depth, DEEP, PEnofail, d);
      if NoFail(rs, p2, d) { AcceptedHead(level, rs, p1, depth, budget, d); }
    case TChoice(p1, p2) =>
      AcceptedHead(level, rs, p1, depth, budget, d);
      AcceptedHead(level, rs, p2, depth, budget, d);
    case TAnd(p) => AcceptedHead(level, rs, p, depth, budget, d);
    case TCapture(_, _, p) => AcceptedHead(level, rs, p, depth, budget, d);
    case TGrammar(rules) =>
      OverGrammar(rs, rules, depth, level);
      OneLevel(level);
      AcceptedHead(level - 1, rules, rules[0], depth, MAXRULES, d - 1);
    case TCall(n) =>
      OverRule(rs, n, depth, level);
      AcceptedHead(level, rs, rs[n], depth, budget - 1, d - 1);
    case _ =>
  }

  lemma OneLevel(level: nat)
    requires level > 0
    ensures DEEP * level == DEEP * (level - 1) + DEEP
  {
  }

  lemma OverCheck(level: nat, rs: seq<Tree>, t: Tree, depth: nat, budget: nat, pred: Pred, d: nat)
    requires Proper(rs, depth, level) && Over(rs, t, depth, level) && LeftEnds(rs, t, budget)
    requires d >= budget + DEEP * level
    ensures CheckEnds(rs, t, pred, d)
  {
    hide CallsUsed, WellFormed, Acyclic, LeftEnds, CheckEnds;
    AcceptedCheck(level, rs, t, depth, budget, pred, d);
  }

  /** `getfirst` gives the same answer at every depth that is enough for `nullable`, even if it does not come back
      itself: what it is after in the bodies of look-behinds does not count. */
  lemma {:induction false} FirstStable(level: nat, rs: seq<Tree>, t: Tree, depth: nat, budget: nat, follow: Charset,
                                       d: nat, d': nat)
    requires Proper(rs, depth, level) && Over(rs, t, depth, level) && LeftEnds(rs, t, budget)
    requires d >= budget + DEEP * level && d' >= budget + DEEP * level
    ensures GetFirst(rs, t, follow, d) == GetFirst(rs, t, follow, d')
    decreases level, budget, t
  {
    OverSub(rs, t, depth, level);
    hide Over, WellFormed, CheckEnds, CheckAux;
    match t
    case TAnd(p) => FirstStable(level, rs, p, depth, budget, follow, d, d');
    case TRep(p) => FirstStable(level, rs, p, depth, budget, follow, d, d');
    case TCapture(_, _, p) => FirstStable(level, rs, p, depth, budget, follow, d, d');
    case TSeq(p1, p2) =>
      OverCheck(level, rs, p1, depth, budget, PEnullable, d);
      OverCheck(level, rs, p1, depth, budget, PEnullable, d');
      CheckNulls(rs, p1, d);
      CheckNulls(rs, p1, d');
      FirstStable(level, rs, p1, depth, budget, FULL, d, d');
      if Nulls(rs, p1) {
        FirstStable(level, rs, p2, depth, budget, follow, d, d');
        FirstStable(level, rs, p1, depth, budget, GetFirst(rs, p2, follow, d).cs, d, d');
      }
    case TChoice(p1, p2) =>
      FirstStable(level, rs, p1, depth, budget, follow, d, d');
      FirstStable(level, rs, p2, depth, budget, follow, d, d');
    case TGrammar(rules) =>
      OverGrammar(rs, rules, depth, level);
      OneLevel(level);
      FirstStable(level - 1, rules, rules[0], depth, MAXRULES, follow, d, d');
    case TCall(n) =>
      OverRule(rs, n, depth, level);
      FirstStable(level, rs, rs[n], depth, budget - 1, follow, d - 1, d' - 1);
    case _ =>
  }

  /** It comes back if no look-behind looks for a rule. */
  lemma {:induction false} ClosedFirst(level: nat, rs: seq<Tree>, t: Tree, depth: nat, budget: nat, d: nat)
    requires Proper(rs, depth, level) && Over(rs, t, depth, level) && LeftEnds(rs, t, budget)
    requires RulesBehindClosed(rs) && BehindsClosed(t) && d >= budget + DEEP * level
    ensures FirstEnds(rs, t, d)
    decreases level, budget, t
  {
    OverSub(rs, t, depth, level);
    BehindsSub(t);
    hide Over, WellFormed, CheckEnds, CheckAux;
    match t
    case TAnd(p) => ClosedFirst(level, rs, p, depth, budget, d);
    case TRep(p) => ClosedFirst(level, rs, p, depth, budget, d);
    case TNot(p) => ClosedFirst(level, rs, p, depth, budget, d);
    case TCapture(_, _, p) => ClosedFirst(level, rs, p, depth, budget, d);
    case TBehind(_, p) =>
      BehindBody(t);
      ClosedLeft(rs, p, budget);
      ClosedFirst(level, rs, p, depth, budget, d);
    case TSeq(p1, p2) =>
      OverCheck(level, rs, p1, depth, budget, PEnullable, d);
      CheckNulls(rs, p1, d);
      ClosedFirst(level, rs, p1, depth, budget, d);
      if Nulls(rs, p1) { ClosedFirst(level, rs, p2, depth, budget, d); }
    case TChoice(p1, p2) =>
      ClosedFirst(level, rs, p1, depth, budget, d);
      ClosedFirst(level, rs, p2, depth, budget, d);
    case TGrammar(rules) =>
      OverGrammar(rs, rules, depth, level);
      OneLevel(level);
      ClosedFirst(level - 1, rules, rules[0], depth, MAXRULES, d - 1);
    case TCall(n) =>
      OverRule(rs, n, depth, level);
      ClosedFirst(level, rs, rs[n], depth, budget - 1, d - 1);
    case _ =>
  }

  lemma {:induction false} ClosedLeft(rs: seq<Tree>, t: Tree, budget: nat)
    requires WellFormed(t, 0)
    ensures LeftEnds(rs, t, budget)
    decreases t
  {
    match t
    case TRep(p) => ClosedLeft(rs, p, budget);
    case TNot(p) => ClosedLeft(rs, p, budget);
    case TAnd(p) => ClosedLeft(rs, p, budget);
    case TCapture(_, _, p) => ClosedLeft(rs, p, budget);
    case TSeq(p1, p2) => ClosedLeft(rs, p1, budget); ClosedLeft(rs, p2, budget);
    case TChoice(p1, p2) => ClosedLeft(rs, p1, budget); ClosedLeft(rs, p2, budget);
    case _ =>
  }

  /** A depth that is enough for everything that can come back at all. */
  function Ample(rs: seq<Tree>, t: Tree, level: nat): nat {
    Scans.Enough(rs, t) + DEEP * (level + 2)
  }

  /** For any pattern over rules that are not left recursive, the analyses give the same answers at every depth that
      is ample, as following calls without a bound does. `nullable`, `nofail` and `headfail` come back. `getfirst`
      does if and only if it does not run into a circle, so certainly if no look-behind looks for a rule. The search
      for captures is the subject of Scans. */
  lemma AnalysesStable(level: nat, rs: seq<Tree>, t: Tree, depth: nat, follow: Charset, d: nat, d': nat)
    requires Proper(rs, depth, level) && Over(rs, t, depth, level)
    requires d >= Ample(rs, t, level) && d' >= Ample(rs, t, level)
    ensures CheckEnds(rs, t, PEnullable, d) && (Nullable(rs, t, d) <==> Nullable(rs, t, d'))
    ensures CheckEnds(rs, t, PEnofail, d) && (NoFail(rs, t, d) <==> NoFail(rs, t, d'))
    ensures HeadEnds(rs, t, d) && (HeadFail(rs, t, d) <==> HeadFail(rs, t, d'))
    ensures GetFirst(rs, t, follow, d) == GetFirst(rs, t, follow, d')
    ensures FirstEnds(rs, t, d) <==> !FirstCircle(rs, t)
    ensures RulesBehindClosed(rs) && BehindsClosed(t) ==> !FirstCircle(rs, t)
    ensures HasCaptures(rs, t, d) == HasCaptures(rs, t, d')
  {
    hide GetFirst, HeadFail, CheckAux, HasCaptures, CheckEnds, HeadEnds, FirstEnds, FirstCircle, Scans.Enough, LeftEnds,
         Proper, BehindsClosed, RulesBehindClosed;
    OverEnds(rs, t, depth, level);
    OverFormed(rs, t, depth, level);
    hide Over;
    Levels(level);
    CheckStable(level, rs, t, depth, PEnullable, d, d');
    CheckStable(level, rs, t, depth, PEnofail, d, d');
    HeadStable(level, rs, t, depth, d, d');
    FirstStable(level, rs, t, depth, DEEP, follow, d, d');
    FirstExact(rs, t, d);
    if RulesBehindClosed(rs) && BehindsClosed(t) { ClosedFirst(level, rs, t, depth, DEEP, d); }
    Scans.CapturesStable(rs, t, d, d');
  }

  lemma OverFormed(rs: seq<Tree>, t: Tree, depth: nat, level: nat)
    requires Proper(rs, depth, level) && Over(rs, t, depth, level)
    ensures WellFormedRules(rs) && WellFormed(t, |rs|)
  {
  }

  lemma CheckStable(level: nat, rs: seq<Tree>, t: Tree, depth: nat, pred: Pred, d: nat, d': nat)
    requires Proper(rs, depth, level) && Over(rs, t, depth, level) && LeftEnds(rs, t, DEEP)
    requires d >= DEEP * (level + 2) && d' >= DEEP * (level + 2)
    ensures CheckEnds(rs, t, pred, d) && (CheckAux(rs, t, pred, d) <==> CheckAux(rs, t, pred, d'))
  {
    hide CheckAux, CheckEnds, LeftEnds, Proper, Over;
    var e := DEEP * (level + 2);
    Levels(level);
    OverCheck(level, rs, t, depth, DEEP, pred, e);
    CheckMore(rs, t, pred, e, d);
    CheckMore(rs, t, pred, e, d');
  }

  lemma HeadStable(level: nat, rs: seq<Tree>, t: Tree, depth: nat, d: nat, d': nat)
    requires Proper(rs, depth, level) && Over(rs, t, depth, level) && LeftEnds(rs, t, DEEP)
    requires d >= DEEP * (level + 2) && d' >= DEEP * (level + 2)
    ensures HeadEnds(rs, t, d) && (HeadFail(rs, t, d) <==> HeadFail(rs, t, d'))
  {
    hide HeadFail, HeadEnds, LeftEnds, Proper, Over;
    var e := DEEP * (level + 2);
    Levels(level);
    AcceptedHead(level, rs, t, depth, DEEP, e);
    HeadMore(rs, t, e, d);
    HeadMore(rs, t, e, d');
  }

  lemma Levels(level: nat)
    ensures DEEP * (level + 2) == DEEP + DEEP + DEEP * level
  {
  }

  // ---------- A whole compilation ----------

  /** No analysis that the generator starts on its way through `t` runs into a circle. */
  ghost predicate CircleFree(rs: seq<Tree>, depth: nat, t: Tree)
    decreases t
  {
    match t
    case TAnd(p) => Scans.NoCircle(rs, p, MAXBEHIND) && CircleFree(rs, depth, p)
    case TCapture(_, _, p) => Scans.NoCircle(rs, p, MAXOFF) && CircleFree(rs, depth, p)
    case TRep(p) => IsCharset(p) || (!FirstCircle(rs, p) && CircleFree(rs, depth, p))
    case TSeq(p1, p2) =>
      (NeedFollow(p1) ==> !FirstCircle(rs, p2)) && CircleFree(rs, depth, p1) && CircleFree(rs, depth, p2)
    case TChoice(p1, p2) =>
      && !FirstCircle(rs, p1)
      && (!HeadFail(rs, p1, depth) && !GetFirst(rs, p1, FULL, depth).empty ==> !FirstCircle(rs, p2))
      && CircleFree(rs, depth, p1) && CircleFree(rs, depth, p2)
    case TNot(p) => !FirstCircle(rs, p) && (HeadFail(rs, p, depth) || CircleFree(rs, depth, p))
    case TBehind(_, p) => CircleFree(rs, depth, p)
    case TGrammar(rules) => forall k :: 0 <= k < |rules| ==> CircleFree(rules, depth, rules[k])
    case _ => true
  }

  lemma FirstDecides(level: nat, rs: seq<Tree>, p: Tree, depth: nat)
    requires Proper(rs, depth, level) && Over(rs, p, depth, level) && depth >= Ample(rs, p, level)
    ensures FirstDecided(rs, depth, AsIs, p) <==> !FirstCircle(rs, p)
    ensures HeadDecided(rs, depth, AsIs, p) <==> !FirstCircle(rs, p)
  {
    AnalysesStable(level, rs, p, depth, FULL, depth, depth);
  }

  /** At an ample depth the analyses of a whole compilation are decided if and only if none of them runs into a
      circle. */
  lemma {:induction false} DecidedExact(level: nat, rs: seq<Tree>, depth: nat, t: Tree)
    requires Proper(rs, depth, level) && Over(rs, t, depth, level) && depth >= Ample(rs, t, level)
    ensures Decided(rs, depth, AsIs, t) <==> CircleFree(rs, depth, t)
    decreases t, 1
  {
    hide HeadFail, GetFirst, SearchEnds, Scans.NoCircle, FirstCircle, FirstDecided, HeadDecided, Proper, Ample;
    OverSub(rs, t, depth, level);
    AmpleSub(rs, t, level);
    hide Over;
    match t
    case TAnd(p) => SearchDecides(rs, t, p, MAXBEHIND, depth, level); DecidedExact(level, rs, depth, p);
    case TCapture(_, _, p) => SearchDecides(rs, t, p, MAXOFF, depth, level); DecidedExact(level, rs, depth, p);
    case TRep(p) => FirstDecides(level, rs, p, depth); DecidedExact(level, rs, depth, p);
    case TSeq(p1, p2) =>
      FirstDecides(level, rs, p2, depth);
      DecidedExact(level, rs, depth, p1);
      DecidedExact(level, rs, depth, p2);
    case TChoice(p1, p2) =>
      FirstDecides(level, rs, p1, depth);
      FirstDecides(level, rs, p2, depth);
      DecidedExact(level, rs, depth, p1);
      DecidedExact(level, rs, depth, p2);
    case TNot(p) => FirstDecides(level, rs, p, depth); DecidedExact(level, rs, depth, p);
    case TBehind(_, p) => DecidedExact(level, rs, depth, p);
    case TGrammar(rules) => RulesExact(level, rs, depth, t);
    case _ =>
  }

  lemma {:induction false} RulesExact(level: nat, rs: seq<Tree>, depth: nat, t: Tree)
    requires t.TGrammar? && Over(rs, t, depth, level) && depth >= Ample(rs, t, level)
    ensures forall k :: 0 <= k < |t.rules| ==>
      (Decided(t.rules, depth, AsIs, t.rules[k]) <==> CircleFree(t.rules, depth, t.rules[k]))
    decreases t, 0
  {
    hide Over, Decided, CircleFree, WellFormed, Grown, LeftEnds;
    OverGrammar(rs, t.rules, depth, level);
    forall k | 0 <= k < |t.rules|
      ensures Decided(t.rules, depth, AsIs, t.rules[k]) <==> CircleFree(t.rules, depth, t.rules[k])
    {
      OverRule(t.rules, k, depth, level - 1);
      Scans.RuleMass(t.rules, 0, k);
      OneLevel(level);
      DecidedExact(level - 1, t.rules, depth, t.rules[k]);
    }
  }

  lemma AmpleSub(rs: seq<Tree>, t: Tree, level: nat)
    ensures t.TNot? || t.TAnd? || t.TRep? || t.TCapture? || t.TBehind? ==> Ample(rs, t.p, level) <= Ample(rs, t, level)
    ensures t.TSeq? || t.TChoice? ==>
      Ample(rs, t.p1, level) <= Ample(rs, t, level) && Ample(rs, t.p2, level) <= Ample(rs, t, level)
  {
  }

  lemma SearchDecides(rs: seq<Tree>, t: Tree, p: Tree, max: nat, depth: nat, level: nat)
    requires (t.TAnd? || t.TCapture?) && t.p == p && depth >= Ample(rs, p, level)
    ensures SearchEnds(rs, depth, AsIs, p, max) <==> Scans.NoCircle(rs, p, max)
  {
    hide SearchEnds, Scans.NoCircle, Scans.Enough;
    Scans.SearchExact(rs, depth, p, max);
  }
}
