/** The tree analyses of lpcode.c and their soundness against the semantics in Patterns.

    Every analysis follows calls into the called rule. `depth` bounds how many calls deep it goes; beyond that it
    gives the answer that promises nothing. All results here hold for every depth; Grammars shows that on the
    grammars `verifygrammar` accepts the bound is never reached, so that it leaves the answers unchanged. */
module Analysis {
  import opened Patterns

  const MAXRULES: nat := 1000
  const MAXBEHIND: nat := 255
  const MAXOFF: nat := 15

  datatype Pred = PEnullable | PEnofail

  predicate CheckAux(rs: seq<Tree>, t: Tree, pred: Pred, depth: nat)
    decreases depth, t
  {
    match t
    case TChar(_) => false
    case TSet(_) => false
    case TAny => false
    case TFalse => false
    case TRep(_) => true
    case TTrue => true
    case TNot(_) => pred.PEnullable?
    case TBehind(_, _) => pred.PEnullable?
    case TAnd(p) => pred.PEnullable? || CheckAux(rs, p, pred, depth)
    case TSeq(p1, p2) => CheckAux(rs, p1, pred, depth) && CheckAux(rs, p2, pred, depth)
    case TChoice(p1, p2) => CheckAux(rs, p2, pred, depth) || CheckAux(rs, p1, pred, depth)
    case TCapture(_, _, p) => CheckAux(rs, p, pred, depth)
    case TGrammar(rules) =>
      if |rules| > 0 then CheckAux(rules, rules[0], pred, depth) else pred.PEnullable?
    case TCall(n) =>
      if n < |rs| && depth > 0 then CheckAux(rs, rs[n], pred, depth - 1) else pred.PEnullable?
  }

  predicate Nullable(rs: seq<Tree>, t: Tree, depth: nat) {
    CheckAux(rs, t, PEnullable, depth)
  }

  predicate NoFail(rs: seq<Tree>, t: Tree, depth: nat) {
    CheckAux(rs, t, PEnofail, depth)
  }

  /** Number of characters `t` matches, added to `len`, or -1 when that varies. `count` is the source's own
      bound on nested calls. */
  function FixedLenX(rs: seq<Tree>, t: Tree, count: nat, len: nat): int
    decreases if count < MAXRULES then MAXRULES - count else 0, t
  {
    match t
    case TChar(_) => len + 1
    case TSet(_) => len + 1
    case TAny => len + 1
    case TFalse => len
    case TTrue => len
    case TNot(_) => len
    case TAnd(_) => len
    case TBehind(_, _) => len
    case TRep(_) => -1
    case TCapture(_, _, p) => FixedLenX(rs, p, count, len)
    case TGrammar(rules) => if |rules| > 0 then FixedLenX(rules, rules[0], count, len) else -1
    case TCall(n) =>
      if count >= MAXRULES || n >= |rs| then -1 else FixedLenX(rs, rs[n], count + 1, len)
    case TSeq(p1, p2) =>
      var l := FixedLenX(rs, p1, count, len);
      if l < 0 then -1 else FixedLenX(rs, p2, count, l)
    case TChoice(p1, p2) =>
      var n1 := FixedLenX(rs, p1, count, len);
      if n1 < 0 then -1
      else
        var n2 := FixedLenX(rs, p2, count, len);
        if n1 == n2 then n1 else -1
  }

  function FixedLen(rs: seq<Tree>, t: Tree): int {
    FixedLenX(rs, t, 0, 0)
  }

  /** What a search for captures has come to when it may follow calls `depth` deep. */
  datatype Scan = Unfinished | Nothing | Found

  /** lpcode.c's `hascaptures`, which has no bound of its own. It goes from left to right, stops at the first capture,
      and follows every call it meets. A call that is still open has no siblings, so that nothing is found below it.
      */
  function HasCaptures(rs: seq<Tree>, t: Tree, depth: nat): Scan
    decreases depth, t, 0
  {
    match t
    case TCapture(_, _, _) => Found
    case TRep(p) => HasCaptures(rs, p, depth)
    case TNot(p) => HasCaptures(rs, p, depth)
    case TAnd(p) => HasCaptures(rs, p, depth)
    case TBehind(_, p) => HasCaptures(rs, p, depth)
    case TSeq(p1, p2) =>
      var r := HasCaptures(rs, p1, depth);
      if r.Nothing? then HasCaptures(rs, p2, depth) else r
    case TChoice(p1, p2) =>
      var r := HasCaptures(rs, p1, depth);
      if r.Nothing? then HasCaptures(rs, p2, depth) else r
    case TGrammar(rules) => RulesCaptures(rules, 0, depth)
    case TCall(n) => if n >= |rs| then Nothing else if depth == 0 then Unfinished else RulesCaptures(rs, n, depth - 1)
    case _ => Nothing
  }

  /** The same from a rule node on, whose siblings are the pattern of the rule and the next rule. */
  function RulesCaptures(rs: seq<Tree>, k: nat, depth: nat): Scan
    requires k <= |rs|
    decreases depth, rs, |rs| - k
  {
    if k == |rs| then Nothing
    else
      var r := HasCaptures(rs, rs[k], depth);
      if r.Nothing? then RulesCaptures(rs, k + 1, depth) else r
  }

  /** The two results of `getfirst`: whether the pattern may accept the empty string, and its first set. */
  datatype First = First(empty: bool, cs: Charset)

  function GetFirst(rs: seq<Tree>, t: Tree, follow: Charset, depth: nat): First
    decreases depth, t
  {
    match t
    case TChar(_) => First(false, ToCharset(t))
    case TSet(_) => First(false, ToCharset(t))
    case TAny => First(false, ToCharset(t))
    case TTrue => First(true, follow)
    case TFalse => First(false, {})
    case TChoice(p1, p2) =>
      var f1 := GetFirst(rs, p1, follow, depth);
      var f2 := GetFirst(rs, p2, follow, depth);
      First(f1.empty || f2.empty, f1.cs + f2.cs)
    case TSeq(p1, p2) =>
      if !Nullable(rs, p1, depth) then GetFirst(rs, p1, FULL, depth)
      else
        var f2 := GetFirst(rs, p2, follow, depth);
        var f1 := GetFirst(rs, p1, f2.cs, depth);
        First(f1.empty && f2.empty, f1.cs)
    case TRep(p) => First(true, GetFirst(rs, p, follow, depth).cs + follow)
    case TCapture(_, _, p) => GetFirst(rs, p, follow, depth)
    case TGrammar(rules) =>
      if |rules| > 0 then GetFirst(rules, rules[0], follow, depth) else First(true, FULL)
    case TCall(n) =>
      if n < |rs| && depth > 0 then GetFirst(rs, rs[n], follow, depth - 1) else First(true, FULL)
    case TAnd(p) =>
      var f := GetFirst(rs, p, follow, depth);
      First(f.empty, f.cs * follow)
    case TNot(p) => if IsCharset(p) then First(true, FULL - ToCharset(p)) else First(true, follow)
    case TBehind(_, _) => First(true, follow)
  }

  predicate HeadFail(rs: seq<Tree>, t: Tree, depth: nat)
    decreases depth, t
  {
    match t
    case TChar(_) => true
    case TSet(_) => true
    case TAny => true
    case TFalse => true
    case TTrue => false
    case TRep(_) => false
    case TNot(_) => false
    case TBehind(_, _) => false
    case TCapture(_, _, p) => HeadFail(rs, p, depth)
    case TAnd(p) => HeadFail(rs, p, depth)
    case TGrammar(rules) => |rules| > 0 && HeadFail(rules, rules[0], depth)
    case TCall(n) => n < |rs| && depth > 0 && HeadFail(rs, rs[n], depth - 1)
    case TSeq(p1, p2) => NoFail(rs, p2, depth) && HeadFail(rs, p1, depth)
    case TChoice(p1, p2) => HeadFail(rs, p1, depth) && HeadFail(rs, p2, depth)
  }

  predicate NeedFollow(t: Tree) {
    match t
    case TChoice(_, _) => true
    case TRep(_) => true
    case TCapture(_, _, p) => NeedFollow(p)
    case TSeq(_, p2) => NeedFollow(p2)
    case _ => false
  }

  /** What the builders and `finalfix` guarantee: every call names a rule of its grammar, every grammar has a rule,
      and the body of a look-behind has no captures and the positive fixed length in its node. Calls in that body were
      still open when `lp_behind` looked at it: they count as of no fixed length and as free of captures. */
  predicate WellFormed(t: Tree, nrules: nat)
    decreases t
  {
    match t
    case TRep(p) => WellFormed(p, nrules)
    case TSeq(p1, p2) => WellFormed(p1, nrules) && WellFormed(p2, nrules)
    case TChoice(p1, p2) => WellFormed(p1, nrules) && WellFormed(p2, nrules)
    case TNot(p) => WellFormed(p, nrules)
    case TAnd(p) => WellFormed(p, nrules)
    case TCall(n) => n < nrules
    case TGrammar(rules) => |rules| > 0 && forall k :: 0 <= k < |rules| ==> WellFormed(rules[k], |rules|)
    case TBehind(n, p) => WellFormed(p, nrules) && CaptureFree(p) && 0 < n <= MAXBEHIND && FixedLen([], p) == n
    case TCapture(_, _, p) => WellFormed(p, nrules)
    case _ => true
  }

  predicate WellFormedRules(rs: seq<Tree>) {
    forall k :: 0 <= k < |rs| ==> WellFormed(rs[k], |rs|)
  }

  /** No capture node anywhere in the tree. */
  predicate CaptureFree(t: Tree) {
    match t
    case TCapture(_, _, _) => false
    case TRep(p) => CaptureFree(p)
    case TSeq(p1, p2) => CaptureFree(p1) && CaptureFree(p2)
    case TChoice(p1, p2) => CaptureFree(p1) && CaptureFree(p2)
    case TNot(p) => CaptureFree(p)
    case TAnd(p) => CaptureFree(p)
    case TBehind(_, p) => CaptureFree(p)
    case TGrammar(rules) => forall k :: 0 <= k < |rules| ==> CaptureFree(rules[k])
    case _ => true
  }

  // ---------- Nullable and nofail ----------

  /** A match that consumes nothing is possible only for a nullable pattern. */
  lemma {:induction false} NullableSound(rs: seq<Tree>, t: Tree, s: Subject, i: nat, fuel: nat, depth: nat)
    requires i <= |s|
    ensures var r := Match(rs, t, s, i, fuel); r.Ok? && r.pos == i ==> Nullable(rs, t, depth)
    decreases fuel, t
  {
    match t
    case TSeq(p1, p2) =>
      NullableSound(rs, p1, s, i, fuel, depth);
      var r1 := Match(rs, p1, s, i, fuel);
      if r1.Ok? { NullableSound(rs, p2, s, r1.pos, fuel, depth); }
    case TChoice(p1, p2) =>
      NullableSound(rs, p1, s, i, fuel, depth);
      NullableSound(rs, p2, s, i, fuel, depth);
    case TCapture(_, _, p) => NullableSound(rs, p, s, i, fuel, depth);
    case TGrammar(rules) => if |rules| > 0 { NullableSound(rules, rules[0], s, i, fuel, depth); }
    case TCall(n) => if n < |rs| && fuel > 0 && depth > 0 { NullableSound(rs, rs[n], s, i, fuel - 1, depth - 1); }
    case _ =>
  }

  /** A repetition never fails. */
  lemma {:induction false} RepNeverFails(rs: seq<Tree>, p: Tree, s: Subject, i: nat, fuel: nat)
    requires i <= |s|
    ensures !Match(rs, TRep(p), s, i, fuel).Fail?
    decreases fuel
  {
    var r := Match(rs, p, s, i, fuel);
    if r.Ok? && fuel > 0 { RepNeverFails(rs, p, s, r.pos, fuel - 1); }
  }

  /** A nofail pattern never fails. */
  lemma {:induction false} NoFailSound(rs: seq<Tree>, t: Tree, s: Subject, i: nat, fuel: nat, depth: nat)
    requires i <= |s|
    requires NoFail(rs, t, depth)
    ensures !Match(rs, t, s, i, fuel).Fail?
    decreases fuel, t
  {
    match t
    case TRep(p) => RepNeverFails(rs, p, s, i, fuel);
    case TSeq(p1, p2) =>
      NoFailSound(rs, p1, s, i, fuel, depth);
      var r1 := Match(rs, p1, s, i, fuel);
      if r1.Ok? { NoFailSound(rs, p2, s, r1.pos, fuel, depth); }
    case TChoice(p1, p2) =>
      if NoFail(rs, p2, depth) { NoFailSound(rs, p2, s, i, fuel, depth); }
      else { NoFailSound(rs, p1, s, i, fuel, depth); }
    case TAnd(p) => NoFailSound(rs, p, s, i, fuel, depth);
    case TCapture(_, _, p) => NoFailSound(rs, p, s, i, fuel, depth);
    case TGrammar(rules) => NoFailSound(rules, rules[0], s, i, fuel, depth);
    case TCall(n) => if fuel > 0 { NoFailSound(rs, rs[n], s, i, fuel - 1, depth - 1); }
    case _ =>
  }

  lemma {:induction false} NoFailNullable(rs: seq<Tree>, t: Tree, depth: nat)
    requires NoFail(rs, t, depth)
    ensures Nullable(rs, t, depth)
    decreases depth, t
  {
    match t
    case TSeq(p1, p2) => NoFailNullable(rs, p1, depth); NoFailNullable(rs, p2, depth);
    case TChoice(p1, p2) =>
      if NoFail(rs, p2, depth) { NoFailNullable(rs, p2, depth); } else { NoFailNullable(rs, p1, depth); }
    case TCapture(_, _, p) => NoFailNullable(rs, p, depth);
    case TGrammar(rules) => NoFailNullable(rules, rules[0], depth);
    case TCall(n) => NoFailNullable(rs, rs[n], depth - 1);
    case _ =>
  }

  // ---------- Fixed length and captures ----------

  /** A tree of fixed length n consumes exactly n characters on every success. */
  lemma {:induction false} FixedLenSound(rs: seq<Tree>, t: Tree, count: nat, len: nat, s: Subject, i: nat, fuel: nat)
    requires i <= |s|
    requires FixedLenX(rs, t, count, len) >= 0
    ensures FixedLenX(rs, t, count, len) >= len
    ensures var r := Match(rs, t, s, i, fuel); r.Ok? ==> r.pos == i + FixedLenX(rs, t, count, len) - len
    decreases if count < MAXRULES then MAXRULES - count else 0, t
  {
    match t
    case TSeq(p1, p2) =>
      FixedLenSound(rs, p1, count, len, s, i, fuel);
      var r1 := Match(rs, p1, s, i, fuel);
      FixedLenSound(rs, p2, count, FixedLenX(rs, p1, count, len), s, if r1.Ok? then r1.pos else i, fuel);
    case TChoice(p1, p2) =>
      FixedLenSound(rs, p1, count, len, s, i, fuel);
      FixedLenSound(rs, p2, count, len, s, i, fuel);
    case TCapture(_, _, p) => FixedLenSound(rs, p, count, len, s, i, fuel);
    case TGrammar(rules) => FixedLenSound(rules, rules[0], count, len, s, i, fuel);
    case TCall(n) => FixedLenSound(rs, rs[n], count + 1, len, s, i, if fuel > 0 then fuel - 1 else 0);
    case _ =>
  }

  /** A tree in which `hascaptures` finds nothing adds no capture. */
  lemma {:induction false} NoCaptures(rs: seq<Tree>, t: Tree, s: Subject, i: nat, fuel: nat, depth: nat)
    requires i <= |s|
    requires HasCaptures(rs, t, depth).Nothing?
    ensures var r := Match(rs, t, s, i, fuel); r.Ok? ==> r.caps == []
    decreases fuel, t
  {
    match t
    case TRep(p) =>
      NoCaptures(rs, p, s, i, fuel, depth);
      var r := Match(rs, p, s, i, fuel);
      if r.Ok? && fuel > 0 { NoCaptures(rs, t, s, r.pos, fuel - 1, depth); }
    case TSeq(p1, p2) =>
      NoCaptures(rs, p1, s, i, fuel, depth);
      var r := Match(rs, p1, s, i, fuel);
      if r.Ok? { NoCaptures(rs, p2, s, r.pos, fuel, depth); }
    case TChoice(p1, p2) =>
      NoCaptures(rs, p1, s, i, fuel, depth);
      NoCaptures(rs, p2, s, i, fuel, depth);
    case TGrammar(rules) => if |rules| > 0 { NoCaptures(rules, rules[0], s, i, fuel, depth); }
    case TCall(n) => if n < |rs| && fuel > 0 { NoCaptures(rs, rs[n], s, i, fuel - 1, depth - 1); }
    case _ =>
  }

  lemma {:induction false} CaptureFreeSound(rs: seq<Tree>, t: Tree, s: Subject, i: nat, fuel: nat)
    requires i <= |s|
    requires CaptureFree(t) && forall k :: 0 <= k < |rs| ==> CaptureFree(rs[k])
    ensures var r := Match(rs, t, s, i, fuel); r.Ok? ==> r.caps == []
    decreases fuel, t
  {
    match t
    case TRep(p) =>
      CaptureFreeSound(rs, p, s, i, fuel);
      var r := Match(rs, p, s, i, fuel);
      if r.Ok? && fuel > 0 { CaptureFreeSound(rs, t, s, r.pos, fuel - 1); }
    case TSeq(p1, p2) =>
      CaptureFreeSound(rs, p1, s, i, fuel);
      var r := Match(rs, p1, s, i, fuel);
      if r.Ok? { CaptureFreeSound(rs, p2, s, r.pos, fuel); }
    case TChoice(p1, p2) =>
      CaptureFreeSound(rs, p1, s, i, fuel);
      CaptureFreeSound(rs, p2, s, i, fuel);
    case TGrammar(rules) => if |rules| > 0 { CaptureFreeSound(rules, rules[0], s, i, fuel); }
    case TCall(n) => if n < |rs| && fuel > 0 { CaptureFreeSound(rs, rs[n], s, i, fuel - 1); }
    case _ =>
  }

  /** A length that does not depend on the calls of a tree is its length whatever these lead to. */
  lemma {:induction false} FixedLenClosed(rs: seq<Tree>, t: Tree, count: nat, len: nat)
    requires FixedLenX([], t, count, len) >= 0
    ensures FixedLenX(rs, t, count, len) == FixedLenX([], t, count, len)
    decreases t
  {
    match t
    case TSeq(p1, p2) =>
      FixedLenClosed(rs, p1, count, len);
      FixedLenClosed(rs, p2, count, FixedLenX([], p1, count, len));
    case TChoice(p1, p2) => FixedLenClosed(rs, p1, count, len); FixedLenClosed(rs, p2, count, len);
    case TCapture(_, _, p) => FixedLenClosed(rs, p, count, len);
    case _ =>
  }

  /** Such a tree makes calls inside of predicates only, where captures are dropped. */
  lemma {:induction false} FixedNoCaptures(rs: seq<Tree>, t: Tree, count: nat, len: nat, s: Subject, i: nat, fuel: nat)
    requires i <= |s| && FixedLenX([], t, count, len) >= 0 && CaptureFree(t)
    ensures var r := Match(rs, t, s, i, fuel); r.Ok? ==> r.caps == []
    decreases t
  {
    match t
    case TSeq(p1, p2) =>
      FixedNoCaptures(rs, p1, count, len, s, i, fuel);
      var r := Match(rs, p1, s, i, fuel);
      if r.Ok? { FixedNoCaptures(rs, p2, count, FixedLenX([], p1, count, len), s, r.pos, fuel); }
    case TChoice(p1, p2) =>
      FixedNoCaptures(rs, p1, count, len, s, i, fuel);
      FixedNoCaptures(rs, p2, count, len, s, i, fuel);
    case TGrammar(rules) => if |rules| > 0 { CaptureFreeSound(rules, rules[0], s, i, fuel); }
    case _ =>
  }

  // ---------- First sets ----------

  /** If `t` matches at `i` and either consumes something or is followed by a character of `follow`, then the
      next character is in the first set. */
  lemma {:induction false} FirstSound(rs: seq<Tree>, t: Tree, follow: Charset, s: Subject, i: nat, fuel: nat,
                                      depth: nat)
    requires i < |s|
    ensures var r := Match(rs, t, s, i, fuel);
      r.Ok? && (r.pos > i || s[i] in follow) ==> s[i] in GetFirst(rs, t, follow, depth).cs
    decreases fuel, t
  {
    match t
    case TChoice(p1, p2) =>
      FirstSound(rs, p1, follow, s, i, fuel, depth);
      FirstSound(rs, p2, follow, s, i, fuel, depth);
    case TSeq(p1, p2) =>
      NullableSound(rs, p1, s, i, fuel, depth);
      FirstSound(rs, p1, FULL, s, i, fuel, depth);
      FirstSound(rs, p1, GetFirst(rs, p2, follow, depth).cs, s, i, fuel, depth);
      FirstSound(rs, p2, follow, s, i, fuel, depth);
    case TRep(p) =>
      FirstSound(rs, p, follow, s, i, fuel, depth);
      if fuel > 0 { FirstSound(rs, t, follow, s, i, fuel - 1, depth); }
    case TAnd(p) => FirstSound(rs, p, follow, s, i, fuel, depth);
    case TCapture(_, _, p) => FirstSound(rs, p, follow, s, i, fuel, depth);
    case TGrammar(rules) => if |rules| > 0 { FirstSound(rules, rules[0], follow, s, i, fuel, depth); }
    case TCall(n) => if n < |rs| && fuel > 0 && depth > 0 { FirstSound(rs, rs[n], follow, s, i, fuel - 1, depth - 1); }
    case TNot(p) => if IsCharset(p) { CharsetMatch(rs, p, s, i, fuel); }
    case _ =>
  }

  lemma CharsetMatch(rs: seq<Tree>, t: Tree, s: Subject, i: nat, fuel: nat)
    requires i <= |s| && IsCharset(t)
    ensures Match(rs, t, s, i, fuel) == if i < |s| && s[i] in ToCharset(t) then Ok(i + 1, []) else Fail
  {
  }

  /** When `getfirst` returns 0 the pattern fails at the end of the subject. */
  lemma {:induction false} FirstEmptySound(rs: seq<Tree>, t: Tree, follow: Charset, s: Subject, fuel: nat, depth: nat)
    requires !GetFirst(rs, t, follow, depth).empty
    ensures !Match(rs, t, s, |s|, fuel).Ok?
    decreases fuel, t
  {
    match t
    case TChoice(p1, p2) =>
      FirstEmptySound(rs, p1, follow, s, fuel, depth);
      FirstEmptySound(rs, p2, follow, s, fuel, depth);
    case TSeq(p1, p2) =>
      if !Nullable(rs, p1, depth) { NullableSound(rs, p1, s, |s|, fuel, depth); }
      else if !GetFirst(rs, p1, GetFirst(rs, p2, follow, depth).cs, depth).empty {
        FirstEmptySound(rs, p1, GetFirst(rs, p2, follow, depth).cs, s, fuel, depth);
      } else { FirstEmptySound(rs, p2, follow, s, fuel, depth); }
    case TAnd(p) => FirstEmptySound(rs, p, follow, s, fuel, depth);
    case TCapture(_, _, p) => FirstEmptySound(rs, p, follow, s, fuel, depth);
    case TGrammar(rules) => FirstEmptySound(rules, rules[0], follow, s, fuel, depth);
    case TCall(n) => if fuel > 0 { FirstEmptySound(rs, rs[n], follow, s, fuel - 1, depth - 1); }
    case _ =>
  }

  /** A pattern whose first set excludes the next character (or that faces the end) cannot succeed. */
  lemma TestSound(rs: seq<Tree>, t: Tree, s: Subject, i: nat, fuel: nat, depth: nat)
    requires i <= |s|
    requires !GetFirst(rs, t, FULL, depth).empty
    requires !(i < |s| && s[i] in GetFirst(rs, t, FULL, depth).cs)
    ensures !Match(rs, t, s, i, fuel).Ok?
  {
    if i < |s| { FirstSound(rs, t, FULL, s, i, fuel, depth); } else { FirstEmptySound(rs, t, FULL, s, fuel, depth); }
  }

  // ---------- Headfail ----------

  lemma {:induction false} NoFailFirstFull(rs: seq<Tree>, t: Tree, depth: nat)
    requires NoFail(rs, t, depth)
    ensures GetFirst(rs, t, FULL, depth).cs == FULL
    decreases depth, t
  {
    match t
    case TSeq(p1, p2) =>
      NoFailFirstFull(rs, p1, depth); NoFailFirstFull(rs, p2, depth);
      NoFailNullable(rs, p1, depth);
    case TChoice(p1, p2) =>
      if NoFail(rs, p2, depth) { NoFailFirstFull(rs, p2, depth); } else { NoFailFirstFull(rs, p1, depth); }
    case TAnd(p) => NoFailFirstFull(rs, p, depth);
    case TCapture(_, _, p) => NoFailFirstFull(rs, p, depth);
    case TGrammar(rules) => NoFailFirstFull(rules, rules[0], depth);
    case TCall(n) => NoFailFirstFull(rs, rs[n], depth - 1);
    case _ =>
  }

  lemma {:induction false} HeadFailNotEmpty(rs: seq<Tree>, t: Tree, follow: Charset, depth: nat)
    requires HeadFail(rs, t, depth)
    ensures !GetFirst(rs, t, follow, depth).empty
    decreases depth, t
  {
    match t
    case TSeq(p1, p2) =>
      HeadFailNotEmpty(rs, p1, FULL, depth);
      HeadFailNotEmpty(rs, p1, GetFirst(rs, p2, follow, depth).cs, depth);
    case TChoice(p1, p2) => HeadFailNotEmpty(rs, p1, follow, depth); HeadFailNotEmpty(rs, p2, follow, depth);
    case TAnd(p) => HeadFailNotEmpty(rs, p, follow, depth);
    case TCapture(_, _, p) => HeadFailNotEmpty(rs, p, follow, depth);
    case TGrammar(rules) => HeadFailNotEmpty(rules, rules[0], follow, depth);
    case TCall(n) => HeadFailNotEmpty(rs, rs[n], follow, depth - 1);
    case _ =>
  }

  /** A headfail pattern cannot fail once its first character fits. */
  lemma {:induction false} HeadFailSound(rs: seq<Tree>, t: Tree, s: Subject, i: nat, fuel: nat, depth: nat)
    requires i < |s| && HeadFail(rs, t, depth)
    requires s[i] in GetFirst(rs, t, FULL, depth).cs
    ensures !Match(rs, t, s, i, fuel).Fail?
    decreases fuel, t
  {
    match t
    case TSeq(p1, p2) =>
      NoFailFirstFull(rs, p2, depth);
      HeadFailSound(rs, p1, s, i, fuel, depth);
      var r1 := Match(rs, p1, s, i, fuel);
      if r1.Ok? { NoFailSound(rs, p2, s, r1.pos, fuel, depth); }
    case TChoice(p1, p2) =>
      if s[i] in GetFirst(rs, p1, FULL, depth).cs { HeadFailSound(rs, p1, s, i, fuel, depth); }
      else { HeadFailSound(rs, p2, s, i, fuel, depth); }
    case TAnd(p) => HeadFailSound(rs, p, s, i, fuel, depth);
    case TCapture(_, _, p) => HeadFailSound(rs, p, s, i, fuel, depth);
    case TGrammar(rules) => HeadFailSound(rules, rules[0], s, i, fuel, depth);
    case TCall(n) => if fuel > 0 { HeadFailSound(rs, rs[n], s, i, fuel - 1, depth - 1); }
    case _ =>
  }

  /** Headfail is exact: whenever there is an answer, it is success if and only if the next character exists and
      is in the first set. */
  lemma HeadFailExact(rs: seq<Tree>, t: Tree, s: Subject, i: nat, fuel: nat, depth: nat)
    requires i <= |s| && HeadFail(rs, t, depth)
    requires !Match(rs, t, s, i, fuel).Out?
    ensures Match(rs, t, s, i, fuel).Ok? <==> i < |s| && s[i] in GetFirst(rs, t, FULL, depth).cs
  {
    HeadFailNotEmpty(rs, t, FULL, depth);
    if i < |s| && s[i] in GetFirst(rs, t, FULL, depth).cs { HeadFailSound(rs, t, s, i, fuel, depth); }
    else { TestSound(rs, t, s, i, fuel, depth); }
  }
}
