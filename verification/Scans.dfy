/** When lpcode.c's search for captures ends. From a call it goes on to the called rule and all rules after that one,
    so it can come back to where it started; it does not if it finds a capture first. */
module Scans {
  import opened Patterns
  import opened Analysis
  import Paths
  import opened Grammars
  import opened CodeGen

  // ---------- Where nothing is found ----------

  /** No capture, and every call goes to a rule after number `lo`. */
  predicate Harmless(t: Tree, lo: nat)
    decreases t, 0
  {
    match t
    case TCapture(_, _, _) => false
    case TCall(n) => n > lo
    case TRep(p) => Harmless(p, lo)
    case TNot(p) => Harmless(p, lo)
    case TAnd(p) => Harmless(p, lo)
    case TBehind(_, p) => Harmless(p, lo)
    case TSeq(p1, p2) => Harmless(p1, lo) && Harmless(p2, lo)
    case TChoice(p1, p2) => Harmless(p1, lo) && Harmless(p2, lo)
    case TGrammar(rules) => Clean(rules, 0)
    case _ => true
  }

  /** From rule `k` on there is no capture, and every call goes forward. */
  predicate Clean(rs: seq<Tree>, k: nat)
    requires k <= |rs|
    decreases rs, |rs| - k
  {
    k == |rs| || (Harmless(rs[k], k) && Clean(rs, k + 1))
  }

  /** What the search meets first that matters: nothing, a capture, or a call of a rule from which rules are not
      clean. */
  datatype Event = Quiet | Meets | Goes(rs: seq<Tree>, n: nat)

  function FirstEvent(rs: seq<Tree>, t: Tree): Event
    decreases t, 0
  {
    match t
    case TCapture(_, _, _) => Meets
    case TCall(n) => if n < |rs| && !Clean(rs, n) then Goes(rs, n) else Quiet
    case TRep(p) => FirstEvent(rs, p)
    case TNot(p) => FirstEvent(rs, p)
    case TAnd(p) => FirstEvent(rs, p)
    case TBehind(_, p) => FirstEvent(rs, p)
    case TSeq(p1, p2) =>
      var e := FirstEvent(rs, p1);
      if e.Quiet? then FirstEvent(rs, p2) else e
    case TChoice(p1, p2) =>
      var e := FirstEvent(rs, p1);
      if e.Quiet? then FirstEvent(rs, p2) else e
    case TGrammar(rules) => RulesEvent(rules, 0)
    case _ => Quiet
  }

  function RulesEvent(rs: seq<Tree>, k: nat): Event
    requires k <= |rs|
    decreases rs, |rs| - k
  {
    if k == |rs| then Quiet
    else
      var e := FirstEvent(rs, rs[k]);
      if e.Quiet? then RulesEvent(rs, k + 1) else e
  }

  /** The event that comes `k` calls later. */
  function Follow(e: Event, k: nat): Event
    decreases k
  {
    if k > 0 && e.Goes? && e.n <= |e.rs| then Follow(RulesEvent(e.rs, e.n), k - 1) else e
  }

  /** The search comes back to a rule that it is still at. */
  ghost predicate Circles(e: Event) {
    exists i: nat, j: nat :: i < j && Follow(e, i).Goes? && Follow(e, i) == Follow(e, j)
  }

  // ---------- Clean and quiet are the same ----------

  lemma {:induction false} CleanFrom(rs: seq<Tree>, k: nat, j: nat)
    requires k <= j <= |rs| && Clean(rs, k)
    ensures Clean(rs, j) && (j < |rs| ==> Harmless(rs[j], j))
    decreases j - k
  {
    if k < j { CleanFrom(rs, k + 1, j); }
  }

  lemma {:induction false} HarmlessQuiet(rs: seq<Tree>, t: Tree, lo: nat)
    requires lo < |rs| && Harmless(t, lo) && Clean(rs, lo + 1)
    ensures FirstEvent(rs, t) == Quiet
    decreases t, 0
  {
    match t
    case TCall(n) => if n < |rs| { CleanFrom(rs, lo + 1, n); }
    case TRep(p) => HarmlessQuiet(rs, p, lo);
    case TNot(p) => HarmlessQuiet(rs, p, lo);
    case TAnd(p) => HarmlessQuiet(rs, p, lo);
    case TBehind(_, p) => HarmlessQuiet(rs, p, lo);
    case TSeq(p1, p2) => HarmlessQuiet(rs, p1, lo); HarmlessQuiet(rs, p2, lo);
    case TChoice(p1, p2) => HarmlessQuiet(rs, p1, lo); HarmlessQuiet(rs, p2, lo);
    case TGrammar(rules) => CleanQuiet(rules, 0);
    case _ =>
  }

  lemma {:induction false} CleanQuiet(rs: seq<Tree>, k: nat)
    requires k <= |rs| && Clean(rs, k)
    ensures RulesEvent(rs, k) == Quiet
    decreases rs, |rs| - k
  {
    if k < |rs| {
      HarmlessQuiet(rs, rs[k], k);
      CleanQuiet(rs, k + 1);
    }
  }

  predicate CleanBefore(rs: seq<Tree>, j: nat)
    requires j < |rs|
  {
    exists n | 0 <= n <= j :: Clean(rs, n)
  }

  /** A quiet tree is harmless, or calls back to where rules are clean. */
  lemma {:induction false} QuietHarmless(rs: seq<Tree>, t: Tree, j: nat)
    requires FirstEvent(rs, t) == Quiet && j < |rs|
    ensures Harmless(t, j) || CleanBefore(rs, j)
    decreases t, 0
  {
    match t
    case TCall(n) => if n <= j { assert Clean(rs, n); assert CleanBefore(rs, j); }
    case TRep(p) => QuietHarmless(rs, p, j);
    case TNot(p) => QuietHarmless(rs, p, j);
    case TAnd(p) => QuietHarmless(rs, p, j);
    case TBehind(_, p) => QuietHarmless(rs, p, j);
    case TSeq(p1, p2) => QuietHarmless(rs, p1, j); QuietHarmless(rs, p2, j);
    case TChoice(p1, p2) => QuietHarmless(rs, p1, j); QuietHarmless(rs, p2, j);
    case TGrammar(rules) => QuietClean(rules, 0);
    case _ =>
  }

  lemma {:induction false} QuietClean(rs: seq<Tree>, k: nat)
    requires k <= |rs| && RulesEvent(rs, k) == Quiet
    ensures Clean(rs, k)
    decreases rs, |rs| - k
  {
    if k < |rs| {
      QuietHarmless(rs, rs[k], k);
      if !Harmless(rs[k], k) {
        var n :| 0 <= n <= k && Clean(rs, n);
        CleanFrom(rs, n, k);
      }
      QuietClean(rs, k + 1);
    }
  }

  // ---------- More depth ----------

  /** Once the search has ended, more depth changes nothing. */
  lemma {:induction false} ScanMore(rs: seq<Tree>, t: Tree, d: nat, more: nat)
    requires d <= more && !HasCaptures(rs, t, d).Unfinished?
    ensures HasCaptures(rs, t, more) == HasCaptures(rs, t, d)
    decreases d, t, 0
  {
    match t
    case TRep(p) => ScanMore(rs, p, d, more);
    case TNot(p) => ScanMore(rs, p, d, more);
    case TAnd(p) => ScanMore(rs, p, d, more);
    case TBehind(_, p) => ScanMore(rs, p, d, more);
    case TSeq(p1, p2) =>
      ScanMore(rs, p1, d, more);
      if HasCaptures(rs, p1, d).Nothing? { ScanMore(rs, p2, d, more); }
    case TChoice(p1, p2) =>
      ScanMore(rs, p1, d, more);
      if HasCaptures(rs, p1, d).Nothing? { ScanMore(rs, p2, d, more); }
    case TGrammar(rules) => RulesMore(rules, 0, d, more);
    case TCall(n) => if n < |rs| { RulesMore(rs, n, d - 1, more - 1); }
    case _ =>
  }

  lemma {:induction false} RulesMore(rs: seq<Tree>, k: nat, d: nat, more: nat)
    requires k <= |rs| && d <= more && !RulesCaptures(rs, k, d).Unfinished?
    ensures RulesCaptures(rs, k, more) == RulesCaptures(rs, k, d)
    decreases d, rs, |rs| - k
  {
    if k < |rs| {
      ScanMore(rs, rs[k], d, more);
      if HasCaptures(rs, rs[k], d).Nothing? { RulesMore(rs, k + 1, d, more); }
    }
  }

  // ---------- How deep the search goes where nothing is found ----------

  /** How many rules the grammars inside a tree have, with one for each grammar. */
  function Mass(t: Tree): nat
    decreases t, 0
  {
    match t
    case TRep(p) => Mass(p)
    case TNot(p) => Mass(p)
    case TAnd(p) => Mass(p)
    case TBehind(_, p) => Mass(p)
    case TCapture(_, _, p) => Mass(p)
    case TSeq(p1, p2) => Mass(p1) + Mass(p2)
    case TChoice(p1, p2) => Mass(p1) + Mass(p2)
    case TGrammar(rules) => 1 + |rules| + RulesMass(rules, 0)
    case _ => 0
  }

  function RulesMass(rs: seq<Tree>, k: nat): nat
    requires k <= |rs|
    decreases rs, |rs| - k
  {
    if k == |rs| then 0 else Mass(rs[k]) + RulesMass(rs, k + 1)
  }

  lemma {:induction false} RuleMass(rs: seq<Tree>, k: nat, j: nat)
    requires k <= j < |rs|
    ensures Mass(rs[j]) <= RulesMass(rs, k)
    decreases j - k
  {
    if k < j { RuleMass(rs, k + 1, j); }
  }

  lemma {:induction false} HarmlessNothing(rs: seq<Tree>, t: Tree, lo: nat, d: nat)
    requires lo < |rs| && Harmless(t, lo) && Clean(rs, lo + 1) && Mass(t) <= RulesMass(rs, 0)
    requires d >= RulesMass(rs, 0) + |rs| - lo
    ensures HasCaptures(rs, t, d) == Nothing
    decreases RulesMass(rs, 0), |rs| - lo, 0, t
  {
    match t
    case TCall(n) =>
      if n < |rs| {
        CleanFrom(rs, lo + 1, n);
        CleanNothing(rs, n, d - 1);
      }
    case TRep(p) => HarmlessNothing(rs, p, lo, d);
    case TNot(p) => HarmlessNothing(rs, p, lo, d);
    case TAnd(p) => HarmlessNothing(rs, p, lo, d);
    case TBehind(_, p) => HarmlessNothing(rs, p, lo, d);
    case TSeq(p1, p2) => HarmlessNothing(rs, p1, lo, d); HarmlessNothing(rs, p2, lo, d);
    case TChoice(p1, p2) => HarmlessNothing(rs, p1, lo, d); HarmlessNothing(rs, p2, lo, d);
    case TGrammar(rules) => CleanNothing(rules, 0, d);
    case _ =>
  }

  /** Where rules are clean, the search ends and finds nothing. */
  lemma {:induction false} CleanNothing(rs: seq<Tree>, k: nat, d: nat)
    requires k <= |rs| && Clean(rs, k) && d >= RulesMass(rs, 0) + |rs| - k
    ensures RulesCaptures(rs, k, d) == Nothing
    decreases RulesMass(rs, 0), |rs| - k, 1, TTrue
  {
    if k < |rs| {
      RuleMass(rs, 0, k);
      HarmlessNothing(rs, rs[k], k, d);
      CleanNothing(rs, k + 1, d);
    }
  }

  // ---------- What the search does at its first event ----------

  /** How many rules a grammar has, with those of the grammars inside it. */
  function Size(rs: seq<Tree>): nat {
    |rs| + RulesMass(rs, 0)
  }

  /** The search goes on in the same grammar or in one inside it, where the rules are not clean. */
  lemma {:induction false} GoesInside(rs: seq<Tree>, t: Tree)
    requires FirstEvent(rs, t).Goes?
    ensures var e := FirstEvent(rs, t); e.n < |e.rs| && !Clean(e.rs, e.n) && (e.rs == rs || Size(e.rs) < Mass(t))
    decreases t, 0
  {
    match t
    case TRep(p) => GoesInside(rs, p);
    case TNot(p) => GoesInside(rs, p);
    case TAnd(p) => GoesInside(rs, p);
    case TBehind(_, p) => GoesInside(rs, p);
    case TSeq(p1, p2) => if FirstEvent(rs, p1).Quiet? { GoesInside(rs, p2); } else { GoesInside(rs, p1); }
    case TChoice(p1, p2) => if FirstEvent(rs, p1).Quiet? { GoesInside(rs, p2); } else { GoesInside(rs, p1); }
    case TGrammar(rules) => RulesGoInside(rules, 0);
    case _ =>
  }

  lemma {:induction false} RulesGoInside(rs: seq<Tree>, k: nat)
    requires k <= |rs| && RulesEvent(rs, k).Goes?
    ensures var e := RulesEvent(rs, k);
      e.n < |e.rs| && !Clean(e.rs, e.n) && (e.rs == rs || Size(e.rs) < RulesMass(rs, 0))
    decreases rs, |rs| - k
  {
    RuleMass(rs, 0, k);
    if FirstEvent(rs, rs[k]).Quiet? { RulesGoInside(rs, k + 1); } else { GoesInside(rs, rs[k]); }
  }

  /** Where the search finds nothing, there is nothing to meet. */
  lemma {:induction false} NothingQuiet(rs: seq<Tree>, t: Tree, d: nat)
    requires HasCaptures(rs, t, d) == Nothing
    ensures FirstEvent(rs, t) == Quiet
    decreases d, t, 0
  {
    match t
    case TCall(n) => if n < |rs| { RulesNothingQuiet(rs, n, d - 1); QuietClean(rs, n); }
    case TRep(p) => NothingQuiet(rs, p, d);
    case TNot(p) => NothingQuiet(rs, p, d);
    case TAnd(p) => NothingQuiet(rs, p, d);
    case TBehind(_, p) => NothingQuiet(rs, p, d);
    case TSeq(p1, p2) => NothingQuiet(rs, p1, d); NothingQuiet(rs, p2, d);
    case TChoice(p1, p2) => NothingQuiet(rs, p1, d); NothingQuiet(rs, p2, d);
    case TGrammar(rules) => RulesNothingQuiet(rules, 0, d);
    case _ =>
  }

  lemma {:induction false} RulesNothingQuiet(rs: seq<Tree>, k: nat, d: nat)
    requires k <= |rs| && RulesCaptures(rs, k, d) == Nothing
    ensures RulesEvent(rs, k) == Quiet
    decreases d, rs, |rs| - k
  {
    if k < |rs| {
      NothingQuiet(rs, rs[k], d);
      RulesNothingQuiet(rs, k + 1, d);
    }
  }

  /** The outcome of the search at a depth that is enough for its quiet part. */
  predicate Agrees(e: Event, r: Scan, d: nat) {
    match e
    case Quiet => r == Nothing
    case Meets => r == Found
    case Goes(g, m) => m <= |g| && d > 0 && r == RulesCaptures(g, m, d - 1)
  }

  lemma {:induction false} EventScan(rs: seq<Tree>, t: Tree, d: nat)
    requires d > Size(rs) && d >= Mass(t)
    ensures Agrees(FirstEvent(rs, t), HasCaptures(rs, t, d), d)
    decreases t, 0
  {
    match t
    case TCall(n) => if n < |rs| && Clean(rs, n) { CleanNothing(rs, n, d - 1); }
    case TRep(p) => EventScan(rs, p, d);
    case TNot(p) => EventScan(rs, p, d);
    case TAnd(p) => EventScan(rs, p, d);
    case TBehind(_, p) => EventScan(rs, p, d);
    case TSeq(p1, p2) =>
      EventScan(rs, p1, d);
      EventScan(rs, p2, d);
      if !FirstEvent(rs, p1).Quiet? && HasCaptures(rs, p1, d).Nothing? { NothingQuiet(rs, p1, d); }
    case TChoice(p1, p2) =>
      EventScan(rs, p1, d);
      EventScan(rs, p2, d);
      if !FirstEvent(rs, p1).Quiet? && HasCaptures(rs, p1, d).Nothing? { NothingQuiet(rs, p1, d); }
    case TGrammar(rules) => RulesScan(rules, 0, d);
    case _ =>
  }

  lemma {:induction false} RulesScan(rs: seq<Tree>, k: nat, d: nat)
    requires k <= |rs| && d > Size(rs)
    ensures Agrees(RulesEvent(rs, k), RulesCaptures(rs, k, d), d)
    decreases rs, |rs| - k
  {
    if k < |rs| {
      RuleMass(rs, 0, k);
      EventScan(rs, rs[k], d);
      RulesScan(rs, k + 1, d);
      if !FirstEvent(rs, rs[k]).Quiet? && HasCaptures(rs, rs[k], d).Nothing? { NothingQuiet(rs, rs[k], d); }
    }
  }

  /** A search that has ended has ended what it goes on to, one call less deep. */
  lemma {:induction false} GoesEnded(rs: seq<Tree>, t: Tree, d: nat)
    requires FirstEvent(rs, t).Goes? && !HasCaptures(rs, t, d).Unfinished?
    ensures var e := FirstEvent(rs, t); e.n <= |e.rs| && d > 0 && !RulesCaptures(e.rs, e.n, d - 1).Unfinished?
    decreases t, 0
  {
    match t
    case TRep(p) => GoesEnded(rs, p, d);
    case TNot(p) => GoesEnded(rs, p, d);
    case TAnd(p) => GoesEnded(rs, p, d);
    case TBehind(_, p) => GoesEnded(rs, p, d);
    case TSeq(p1, p2) =>
      if FirstEvent(rs, p1).Quiet? { QuietNotFound(rs, p1, d); GoesEnded(rs, p2, d); } else { GoesEnded(rs, p1, d); }
    case TChoice(p1, p2) =>
      if FirstEvent(rs, p1).Quiet? { QuietNotFound(rs, p1, d); GoesEnded(rs, p2, d); } else { GoesEnded(rs, p1, d); }
    case TGrammar(rules) => RulesGoEnded(rules, 0, d);
    case _ =>
  }

  lemma {:induction false} RulesGoEnded(rs: seq<Tree>, k: nat, d: nat)
    requires k <= |rs| && RulesEvent(rs, k).Goes? && !RulesCaptures(rs, k, d).Unfinished?
    ensures var e := RulesEvent(rs, k); e.n <= |e.rs| && d > 0 && !RulesCaptures(e.rs, e.n, d - 1).Unfinished?
    decreases rs, |rs| - k
  {
    if FirstEvent(rs, rs[k]).Quiet? {
      QuietNotFound(rs, rs[k], d);
      RulesGoEnded(rs, k + 1, d);
    } else {
      GoesEnded(rs, rs[k], d);
    }
  }

  lemma QuietNotFound(rs: seq<Tree>, t: Tree, d: nat)
    requires FirstEvent(rs, t) == Quiet
    ensures HasCaptures(rs, t, d) != Found
  {
    if HasCaptures(rs, t, d) == Found {
      var more := d + Size(rs) + Mass(t) + 1;
      EventScan(rs, t, more);
      ScanMore(rs, t, d, more);
    }
  }

  // ---------- Following the calls ----------

  lemma {:induction false} FollowOn(e: Event, i: nat, j: nat)
    ensures Follow(e, i + j) == Follow(Follow(e, i), j)
    decreases i + j
  {
    if i > 0 && e.Goes? && e.n <= |e.rs| {
      FollowOn(RulesEvent(e.rs, e.n), i - 1, j);
    } else if j > 0 && i > 0 {
      assert Follow(e, j) == e == Follow(e, i + j);
    }
  }

  predicate Inside(e: Event) {
    e.Goes? ==> e.n < |e.rs|
  }

  lemma {:induction false} FollowInside(e: Event, k: nat)
    requires Inside(e)
    ensures var f := Follow(e, k);
      Inside(f) && (e.Goes? && f.Goes? ==> f.rs == e.rs || Size(f.rs) < RulesMass(e.rs, 0))
    decreases k
  {
    if k > 0 && e.Goes? {
      var n := RulesEvent(e.rs, e.n);
      if n.Goes? { RulesGoInside(e.rs, e.n); }
      FollowInside(n, k - 1);
    }
  }

  /** Around a circle the search goes on for ever. */
  lemma {:induction false} CircleGoes(e: Event, p: nat, k: nat)
    requires e.Goes? && p > 0 && Follow(e, p) == e
    ensures Follow(e, k).Goes?
    decreases k
  {
    if k >= p {
      FollowOn(e, p, k - p);
      CircleGoes(e, p, k - p);
    } else if !Follow(e, k).Goes? {
      FollowOn(e, k, p - k);
    }
  }

  lemma CirclesGoes(e: Event, k: nat)
    requires Circles(e)
    ensures Follow(e, k).Goes?
  {
    var i: nat, j: nat :| i < j && Follow(e, i).Goes? && Follow(e, i) == Follow(e, j);
    FollowOn(e, i, j - i);
    CircleGoes(Follow(e, i), j - i, k);
    FollowOn(e, i, k);
    FollowOn(e, k, i);
  }

  lemma CircleLater(e: Event, k: nat)
    requires Circles(Follow(e, k))
    ensures Circles(e)
  {
    var f := Follow(e, k);
    var i: nat, j: nat :| i < j && Follow(f, i).Goes? && Follow(f, i) == Follow(f, j);
    FollowOn(e, k, i);
    FollowOn(e, k, j);
    assert Follow(e, k + i).Goes? && Follow(e, k + i) == Follow(e, k + j);
  }

  /** Without a circle there are no more calls to follow than there are rules. */
  lemma {:induction false} Settles(e: Event)
    requires Inside(e) && !Circles(e)
    ensures !Follow(e, if e.Goes? then Size(e.rs) else 0).Goes?
    decreases if e.Goes? then Size(e.rs) + 1 else 0
  {
    if e.Goes? {
      var n := |e.rs|;
      if k :| 0 <= k <= n && !(Follow(e, k).Goes? && Follow(e, k).rs == e.rs) {
        var f := Follow(e, k);
        FollowInside(e, k);
        if Circles(f) { CircleLater(e, k); }
        Settles(f);
        var m := if f.Goes? then Size(f.rs) else 0;
        FollowOn(e, k, m);
        FollowOn(e, k + m, Size(e.rs) - (k + m));
      } else {
        AllInOne(e);
      }
    }
  }

  lemma AllInOne(e: Event)
    requires Inside(e) && e.Goes?
    requires forall k :: 0 <= k <= |e.rs| ==> Follow(e, k).Goes? && Follow(e, k).rs == e.rs
    ensures Circles(e)
  {
    var n := |e.rs|;
    var visited := seq(n + 1, k requires 0 <= k <= n => Follow(e, k).n);
    forall k | 0 <= k <= n ensures visited[k] < n { FollowInside(e, k); }
    if !Paths.Repeats(visited) { Paths.DistinctBound(visited, n); }
    var i, j :| 0 <= i < j < |visited| && visited[i] == visited[j];
    assert Follow(e, i) == Follow(e, j);
  }

  // ---------- When the search ends ----------

  /** A depth that is enough, if any is. */
  function Enough(rs: seq<Tree>, t: Tree): nat {
    2 * (if Size(rs) < Mass(t) then Mass(t) else Size(rs)) + 1
  }

  lemma {:induction false} ChainEnds(rs: seq<Tree>, n: nat, k: nat, d: nat)
    requires n <= |rs| && !Follow(RulesEvent(rs, n), k).Goes? && d > Size(rs) + k
    ensures !RulesCaptures(rs, n, d).Unfinished?
    decreases k
  {
    var e := RulesEvent(rs, n);
    RulesScan(rs, n, d);
    if e.Goes? {
      RulesGoInside(rs, n);
      ChainEnds(e.rs, e.n, k - 1, d - 1);
    }
  }

  lemma {:induction false} EndsChain(rs: seq<Tree>, n: nat, d: nat)
    requires n <= |rs| && !RulesCaptures(rs, n, d).Unfinished?
    ensures !Circles(RulesEvent(rs, n))
    decreases d
  {
    var e := RulesEvent(rs, n);
    if Circles(e) {
      CirclesGoes(e, 0);
      RulesGoEnded(rs, n, d);
      EndsChain(e.rs, e.n, d - 1);
      CircleShifts(e);
    }
  }

  lemma CircleShifts(e: Event)
    requires Circles(e) && e.Goes? && e.n <= |e.rs|
    ensures Circles(RulesEvent(e.rs, e.n))
  {
    var i: nat, j: nat :| i < j && Follow(e, i).Goes? && Follow(e, i) == Follow(e, j);
    var f := RulesEvent(e.rs, e.n);
    FollowOn(e, i, 1);
    FollowOn(e, j, 1);
    CirclesGoes(e, i + 1);
    assert Follow(f, i) == Follow(e, i + 1) && Follow(f, j) == Follow(e, j + 1);
  }

  /** The search ends if and only if following its calls does not lead round in a circle before a capture is met, and
      then it ends within a depth that depends on the number of rules alone. It finds nothing exactly where nothing is
      met. */
  lemma ScanEnds(rs: seq<Tree>, t: Tree, d: nat)
    ensures !HasCaptures(rs, t, d).Unfinished? ==> !Circles(FirstEvent(rs, t))
    ensures !Circles(FirstEvent(rs, t)) && d >= Enough(rs, t) ==> !HasCaptures(rs, t, d).Unfinished?
    ensures d >= Enough(rs, t) ==> (HasCaptures(rs, t, d).Nothing? <==> FirstEvent(rs, t).Quiet?)
  {
    hide FirstEvent, HasCaptures, RulesCaptures, Mass, RulesMass, Clean;
    var e := FirstEvent(rs, t);
    if e.Goes? { GoesInside(rs, t); }
    if !HasCaptures(rs, t, d).Unfinished? && Circles(e) {
      CirclesGoes(e, 0);
      GoesEnded(rs, t, d);
      EndsChain(e.rs, e.n, d - 1);
      CircleShifts(e);
    }
    if d >= Enough(rs, t) {
      EventScan(rs, t, d);
      if HasCaptures(rs, t, d).Nothing? { NothingQuiet(rs, t, d); }
      if !Circles(e) && e.Goes? {
        Settles(e);
        ChainEnds(e.rs, e.n, Size(e.rs) - 1, d - 1);
      }
    }
  }

  /** The search has the same outcome at every depth that is enough; on a pattern with flat rules, twice their number
      and one is enough (`FlatEnough`). Following calls without a bound, as the source does, either ends with that
      outcome or never ends. */
  lemma CapturesStable(rs: seq<Tree>, t: Tree, d: nat, d': nat)
    requires d >= Enough(rs, t) && d' >= Enough(rs, t)
    ensures HasCaptures(rs, t, d) == HasCaptures(rs, t, d')
  {
    hide HasCaptures, FirstEvent, Circles, Enough;
    ScanEnds(rs, t, d);
    ScanEnds(rs, t, d');
    if !HasCaptures(rs, t, d).Unfinished? {
      if d <= d' { ScanMore(rs, t, d, d'); } else { ScanMore(rs, t, d', d); }
    }
  }

  lemma {:induction false} FlatMass(t: Tree)
    requires Flat(t)
    ensures Mass(t) == 0
  {
    match t
    case TRep(p) => FlatMass(p);
    case TNot(p) => FlatMass(p);
    case TAnd(p) => FlatMass(p);
    case TBehind(_, p) => FlatMass(p);
    case TCapture(_, _, p) => FlatMass(p);
    case TSeq(p1, p2) => FlatMass(p1); FlatMass(p2);
    case TChoice(p1, p2) => FlatMass(p1); FlatMass(p2);
    case _ =>
  }

  lemma {:induction false} FlatRulesMass(rs: seq<Tree>, k: nat)
    requires k <= |rs| && forall j :: 0 <= j < |rs| ==> Flat(rs[j])
    ensures RulesMass(rs, k) == 0
    decreases |rs| - k
  {
    if k < |rs| { FlatMass(rs[k]); FlatRulesMass(rs, k + 1); }
  }

  lemma FlatEnough(rs: seq<Tree>, t: Tree)
    requires Flat(t) && forall j :: 0 <= j < |rs| ==> Flat(rs[j])
    ensures Enough(rs, t) == 2 * |rs| + 1
  {
    FlatMass(t);
    FlatRulesMass(rs, 0);
  }

  /** There is no search, or it runs into no circle. */
  ghost predicate NoCircle(rs: seq<Tree>, p: Tree, max: nat) {
    0 <= FixedLen(rs, p) <= max ==> !Circles(FirstEvent(rs, p))
  }

  /** `codeand` and `codecapture` come to an end exactly if they do not look for captures, or the search runs into no
      circle. */
  lemma SearchExact(rs: seq<Tree>, depth: nat, p: Tree, max: nat)
    requires depth >= Enough(rs, p)
    ensures SearchEnds(rs, depth, AsIs, p, max) <==> NoCircle(rs, p, max)
  {
    hide HasCaptures, FirstEvent, Circles, Enough, FixedLen;
    ScanEnds(rs, p, depth);
  }

  // ---------- What lp_behind has looked at ----------

  /** A body in which `lp_behind` finds no captures, with its calls still open, has none. */
  lemma {:induction false} OpenScan(rs: seq<Tree>, p: Tree, d: nat)
    requires HasCaptures(rs, p, d).Nothing?
    ensures CaptureFree(p)
    decreases p, 0
  {
    match p
    case TRep(q) => OpenScan(rs, q, d);
    case TNot(q) => OpenScan(rs, q, d);
    case TAnd(q) => OpenScan(rs, q, d);
    case TBehind(_, q) => OpenScan(rs, q, d);
    case TSeq(p1, p2) => OpenScan(rs, p1, d); OpenScan(rs, p2, d);
    case TChoice(p1, p2) => OpenScan(rs, p1, d); OpenScan(rs, p2, d);
    case TGrammar(rules) => OpenRules(rules, 0, d);
    case _ =>
  }

  lemma {:induction false} OpenRules(rs: seq<Tree>, k: nat, d: nat)
    requires k <= |rs| && RulesCaptures(rs, k, d).Nothing?
    ensures forall j :: k <= j < |rs| ==> CaptureFree(rs[j])
    decreases rs, |rs| - k
  {
    if k < |rs| {
      OpenScan(rs, rs[k], d);
      OpenRules(rs, k + 1, d);
    }
  }

  // ---------- A pattern that is never compiled ----------

  /** S <- 'x' S / 'y' */
  const Looping: seq<Tree> := [TChoice(TSeq(TChar(120), TCall(0)), TChar(121))]

  /** The capture of !S, a pattern of fixed length. */
  const Uncompiled: Tree := TCapture(5, 0, TNot(TGrammar(Looping)))

  lemma {:induction false} LoopingUnfinished(d: nat)
    ensures RulesCaptures(Looping, 0, d) == Unfinished
    decreases d
  {
    if d > 0 { LoopingUnfinished(d - 1); }
    assert HasCaptures(Looping, TChar(120), d) == Nothing;
    assert HasCaptures(Looping, Looping[0].p1, d) == Unfinished;
  }

  /** The library builds this pattern and accepts its grammar, and no depth is enough to compile it. */
  lemma NeverCompiled(depth: nat)
    ensures WellFormed(Uncompiled, 0) && FlatRules(Looping) && VerifyGrammar(Looping, depth)
    ensures HasCaptures([], Uncompiled.p, depth) == Unfinished && FixedLen([], Uncompiled.p) == 0
    ensures !Decided([], depth, AsIs, Uncompiled)
  {
    LoopingAccepted(depth);
    hide VerifyGrammar, FlatRules;
    LoopingUnfinished(depth);
    assert HasCaptures([], Uncompiled.p, depth) == HasCaptures([], TGrammar(Looping), depth);
  }

  lemma LoopingAccepted(depth: nat)
    ensures FlatRules(Looping) && VerifyGrammar(Looping, depth) && WellFormed(TGrammar(Looping), 0)
  {
    hide Nullable;
    var x, y := TChar(120), TChar(121);
    var call := TSeq(x, TCall(0));
    assert Looping[0] == TChoice(call, y);
    assert WellFormed(call, 1) && WellFormed(Looping[0], 1) && Flat(call) && Flat(Looping[0]);
    assert VerifyRule(Looping, x, MAXRULES, false) == Passes(false);
    assert VerifyRule(Looping, call, MAXRULES, false) == Passes(false);
    assert VerifyRule(Looping, y, MAXRULES, false) == Passes(false);
    assert VerifyRule(Looping, Looping[0], MAXRULES, false) == Passes(false);
    assert !CheckLoops(Looping, x, depth) && !CheckLoops(Looping, y, depth) && !CheckLoops(Looping, TCall(0), depth);
    assert !CheckLoops(Looping, call, depth);
    assert !CheckLoops(Looping, Looping[0], depth);
  }
}
