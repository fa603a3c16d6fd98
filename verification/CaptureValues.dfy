/** The values of a match, defined on the pattern itself: what each construct adds to the values of its parts. The walk
    over the capture list comes to the same. */
module CaptureValues {
  import opened Common
  import opened Patterns
  import opened Captures

  type Show = Value -> seq<Byte>

  /** The values that a match of `t` from `i` produces. */
  ghost function Gives(rs: seq<Tree>, t: Tree, s: Subject, i: nat, fuel: nat, show: Show): seq<Value>
    requires i <= |s| && Match(rs, t, s, i, fuel).Ok?
    decreases fuel, t, 0
  {
    match t
    case TRep(p) =>
      var r := Match(rs, p, s, i, fuel);
      if r.Ok? then Gives(rs, p, s, i, fuel, show) + Gives(rs, t, s, r.pos, fuel - 1, show) else []
    case TSeq(p1, p2) =>
      Gives(rs, p1, s, i, fuel, show) + Gives(rs, p2, s, Match(rs, p1, s, i, fuel).pos, fuel, show)
    case TChoice(p1, p2) => Gives(rs, if Match(rs, p1, s, i, fuel).Ok? then p1 else p2, s, i, fuel, show)
    case TCall(n) => Gives(rs, rs[n], s, i, fuel - 1, show)
    case TGrammar(rules) => Gives(rules, rules[0], s, i, fuel, show)
    case TCapture(kind, key, p) =>
      var piece := s[i..Match(rs, p, s, i, fuel).pos];
      if kind == CPOSITION then [Position(i + 1)]
      else if kind == CCONST then [Constant(key)]
      else if kind == CSIMPLE then [Text(piece)] + Gives(rs, p, s, i, fuel, show)
      else if kind == CSUBST then [Text(Rewritten(rs, p, s, i, fuel, show))]
      else if key != 0 then []
      else if Gives(rs, p, s, i, fuel, show) == [] then [Text(piece)]
      else Gives(rs, p, s, i, fuel, show)
    case _ => []
  }

  /** The text that a match of `t` from `i` is replaced by inside of a substitution: every capture by its first value,
      and where there is none, by what it matched. */
  ghost function Rewritten(rs: seq<Tree>, t: Tree, s: Subject, i: nat, fuel: nat, show: Show): seq<Byte>
    requires i <= |s| && Match(rs, t, s, i, fuel).Ok?
    decreases fuel, t, 1
  {
    match t
    case TRep(p) =>
      var r := Match(rs, p, s, i, fuel);
      if r.Ok? then Rewritten(rs, p, s, i, fuel, show) + Rewritten(rs, t, s, r.pos, fuel - 1, show) else []
    case TSeq(p1, p2) =>
      Rewritten(rs, p1, s, i, fuel, show) + Rewritten(rs, p2, s, Match(rs, p1, s, i, fuel).pos, fuel, show)
    case TChoice(p1, p2) => Rewritten(rs, if Match(rs, p1, s, i, fuel).Ok? then p1 else p2, s, i, fuel, show)
    case TCall(n) => Rewritten(rs, rs[n], s, i, fuel - 1, show)
    case TGrammar(rules) => Rewritten(rules, rules[0], s, i, fuel, show)
    case TCapture(_, _, _) =>
      var vs := Gives(rs, t, s, i, fuel, show);
      if vs == [] then s[i..Match(rs, t, s, i, fuel).pos] else AsText(vs[0], show)
    case _ => s[i..Match(rs, t, s, i, fuel).pos]
  }

  predicate PlainRules(rs: seq<Tree>) {
    forall k :: 0 <= k < |rs| ==> PlainTree(rs[k])
  }

  // ---------- Forests ----------

  lemma {:induction false} ValuesConcat(a: seq<Cap>, b: seq<Cap>, s: Subject, lo: nat, mid: nat, hi: nat, show: Show)
    requires AllPlain(a, s, lo, mid) && AllPlain(b, s, mid, hi)
    ensures AllPlain(a + b, s, lo, hi)
    ensures AllValues(a + b, s, lo, hi, show) == AllValues(a, s, lo, mid, show) + AllValues(b, s, mid, hi, show)
    decreases |a|
  {
    hide Plain, Values;
    PlainConcat(a, b, s, lo, mid, hi);
    if a == [] {
      assert a + b == b;
      ValuesFrom(b, s, lo, mid, hi, show);
    } else {
      assert (a + b)[1..] == a[1..] + b;
      ValuesConcat(a[1..], b, s, a[0].to, mid, hi, show);
    }
  }

  lemma ValuesFrom(cs: seq<Cap>, s: Subject, lo: nat, mid: nat, hi: nat, show: Show)
    requires AllPlain(cs, s, lo, hi) && AllPlain(cs, s, mid, hi)
    ensures AllValues(cs, s, lo, hi, show) == AllValues(cs, s, mid, hi, show)
  {
  }

  /** Text in front of the first capture is kept. */
  lemma {:induction false} SubstFrom(cs: seq<Cap>, s: Subject, curr: nat, lo: nat, hi: nat, show: Show)
    requires AllPlain(cs, s, lo, hi) && curr <= lo && hi <= |s|
    ensures lo <= hi && Substituted(cs, s, curr, lo, hi, show) == s[curr..lo] + Substituted(cs, s, lo, lo, hi, show)
  {
    hide Plain, Values, AsText, Substituted;
    PlainUpTo(cs, s, lo, hi);
    if cs == [] {
      SubstNone(s, curr, lo, hi, show);
      SubstNone(s, lo, lo, hi, show);
      Glue(s, curr, lo, hi, []);
    } else {
      var c := cs[0];
      var vs := Values(c, s, show);
      var rest := if vs == [] then Substituted(cs[1..], s, c.from, c.to, hi, show)
        else AsText(vs[0], show) + Substituted(cs[1..], s, c.to, c.to, hi, show);
      Glue(s, curr, lo, c.from, rest);
      SubstParts(cs, s, curr, lo, hi, show);
      SubstParts(cs, s, lo, lo, hi, show);
    }
  }

  lemma SubstNone(s: Subject, curr: nat, lo: nat, hi: nat, show: Show)
    requires curr <= lo <= hi <= |s|
    ensures Substituted([], s, curr, lo, hi, show) == s[curr..hi]
  {
  }

  lemma Glue(s: Subject, a: nat, b: nat, c: nat, rest: seq<Byte>)
    requires a <= b <= c <= |s|
    ensures s[a..c] + rest == s[a..b] + (s[b..c] + rest)
    ensures rest == [] ==> s[a..c] == s[a..b] + s[b..c]
  {
    assert s[a..c] == s[a..b] + s[b..c];
  }

  /** One capture of a substitution and the others. */
  lemma SubstParts(cs: seq<Cap>, s: Subject, curr: nat, lo: nat, hi: nat, show: Show)
    requires AllPlain(cs, s, lo, hi) && curr <= lo && hi <= |s| && cs != []
    ensures var c := cs[0];
      var vs := Values(c, s, show);
      Substituted(cs, s, curr, lo, hi, show)
      == s[curr..c.from]
         + if vs == [] then Substituted(cs[1..], s, c.from, c.to, hi, show)
           else AsText(vs[0], show) + Substituted(cs[1..], s, c.to, c.to, hi, show)
  {
    hide Values, AsText;
  }

  /** What a capture is replaced by. */
  function Replacement(c: Cap, s: Subject, show: Show): seq<Byte>
    requires Plain(c, s)
  {
    var vs := Values(c, s, show);
    if vs == [] then s[c.from..c.to] else AsText(vs[0], show)
  }

  /** The pieces between the captures, joined with the replacements. */
  function Woven(cs: seq<Cap>, s: Subject, lo: nat, hi: nat, show: Show): seq<Byte>
    requires AllPlain(cs, s, lo, hi) && hi <= |s|
    decreases |cs|
  {
    if cs == [] then s[lo..hi]
    else s[lo..cs[0].from] + Replacement(cs[0], s, show) + Woven(cs[1..], s, cs[0].to, hi, show)
  }

  /** The loop that remembers where to continue copying joins those pieces. */
  lemma {:induction false} SubstitutedWoven(cs: seq<Cap>, s: Subject, lo: nat, hi: nat, show: Show)
    requires AllPlain(cs, s, lo, hi) && hi <= |s|
    ensures Substituted(cs, s, lo, lo, hi, show) == Woven(cs, s, lo, hi, show)
    decreases |cs|
  {
    if cs != [] {
      hide Plain, Values, AsText;
      var c := cs[0];
      SubstParts(cs, s, lo, lo, hi, show);
      SubstitutedWoven(cs[1..], s, c.to, hi, show);
      if Values(c, s, show) == [] {
        SubstFrom(cs[1..], s, c.from, c.to, hi, show);
      }
    }
  }

  lemma {:induction false} WovenConcat(a: seq<Cap>, b: seq<Cap>, s: Subject, lo: nat, mid: nat, hi: nat, show: Show)
    requires AllPlain(a, s, lo, mid) && AllPlain(b, s, mid, hi) && hi <= |s|
    ensures mid <= hi && AllPlain(a + b, s, lo, hi)
    ensures Woven(a + b, s, lo, hi, show) == Woven(a, s, lo, mid, show) + Woven(b, s, mid, hi, show)
    decreases |a|
  {
    hide Plain, Replacement;
    PlainUpTo(b, s, mid, hi);
    PlainConcat(a, b, s, lo, mid, hi);
    if a == [] {
      assert a + b == b;
      WovenFrom(b, s, lo, mid, hi, show);
    } else {
      assert (a + b)[1..] == a[1..] + b;
      WovenConcat(a[1..], b, s, a[0].to, mid, hi, show);
      var x, y := s[lo..a[0].from] + Replacement(a[0], s, show), Woven(a[1..], s, a[0].to, mid, show);
      assert x + (y + Woven(b, s, mid, hi, show)) == x + y + Woven(b, s, mid, hi, show);
    }
  }

  lemma WovenFrom(b: seq<Cap>, s: Subject, lo: nat, mid: nat, hi: nat, show: Show)
    requires lo <= mid <= hi <= |s| && AllPlain(b, s, mid, hi) && AllPlain(b, s, lo, hi)
    ensures Woven(b, s, lo, hi, show) == s[lo..mid] + Woven(b, s, mid, hi, show)
  {
    hide Plain, Replacement;
    if b == [] {
      Glue(s, lo, mid, hi, []);
    } else {
      var x, y := Replacement(b[0], s, show), Woven(b[1..], s, b[0].to, hi, show);
      Glue(s, lo, mid, b[0].from, x + y);
      assert s[lo..b[0].from] + (x + y) == s[lo..b[0].from] + x + y;
      assert s[mid..b[0].from] + (x + y) == s[mid..b[0].from] + x + y;
    }
  }

  lemma NothingGiven(s: Subject, i: nat, j: nat, show: Show)
    requires i <= j <= |s|
    ensures AllPlain([], s, i, j) && AllValues([], s, i, j, show) == [] && Woven([], s, i, j, show) == s[i..j]
  {
  }

  lemma OneGives(c: Cap, s: Subject, show: Show)
    requires Plain(c, s)
    ensures AllPlain([c], s, c.from, c.to)
    ensures AllValues([c], s, c.from, c.to, show) == Values(c, s, show)
    ensures Woven([c], s, c.from, c.to, show) == Replacement(c, s, show)
  {
    hide Plain, Values, Replacement;
    PlainTo(c, s);
    assert AllPlain([], s, c.to, c.to);
    assert [c][1..] == [];
    assert s[c.from..c.from] == [] && s[c.to..c.to] == [];
  }

  lemma PlainTo(c: Cap, s: Subject)
    requires Plain(c, s)
    ensures c.from <= c.to <= |s|
  {
  }

  lemma PlainInside(c: Cap, s: Subject)
    requires AllPlain([c], s, c.from, c.to)
    ensures Plain(c, s)
  {
  }

  lemma CaptureValue(c: Cap, s: Subject, show: Show)
    requires Plain(c, s) && AllPlain(c.nested, s, c.from, c.to)
    requires c.kind == CPOSITION || c.kind == CCONST || c.kind == CSIMPLE || c.kind == CSUBST || c.kind == CGROUP
    ensures c.from <= c.to <= |s|
    ensures var piece, vs := s[c.from..c.to], AllValues(c.nested, s, c.from, c.to, show);
      Values(c, s, show) ==
        if c.kind == CPOSITION then [Position(c.from + 1)]
        else if c.kind == CCONST then [Constant(c.key)]
        else if c.kind == CSIMPLE then [Text(piece)] + vs
        else if c.kind == CSUBST then [Text(Woven(c.nested, s, c.from, c.to, show))]
        else if c.key != 0 then []
        else if vs == [] then [Text(piece)] else vs
  {
    PlainTo(c, s);
    SubstitutedWoven(c.nested, s, c.from, c.to, show);
  }

  // ---------- Patterns ----------

  /** The values and the substituted text of the captures of a match are those of the pattern. */
  lemma {:induction false} MatchGives(rs: seq<Tree>, t: Tree, s: Subject, i: nat, fuel: nat, show: Show)
    requires i <= |s| && PlainTree(t) && PlainRules(rs) && Match(rs, t, s, i, fuel).Ok?
    ensures var r := Match(rs, t, s, i, fuel);
      && AllPlain(r.caps, s, i, r.pos)
      && AllValues(r.caps, s, i, r.pos, show) == Gives(rs, t, s, i, fuel, show)
      && Woven(r.caps, s, i, r.pos, show) == Rewritten(rs, t, s, i, fuel, show)
    decreases fuel, t
  {
    hide Plain, Values, AllPlain, AllValues, Woven;
    MatchPlain(rs, t, s, i, fuel);
    var r := Match(rs, t, s, i, fuel);
    NothingGiven(s, i, r.pos, show);
    match t
    case TRep(p) =>
      var r1 := Match(rs, p, s, i, fuel);
      if r1.Ok? {
        MatchGives(rs, p, s, i, fuel, show);
        MatchGives(rs, t, s, r1.pos, fuel - 1, show);
        var r2 := Match(rs, t, s, r1.pos, fuel - 1);
        ValuesConcat(r1.caps, r2.caps, s, i, r1.pos, r2.pos, show);
        WovenConcat(r1.caps, r2.caps, s, i, r1.pos, r2.pos, show);
      }
    case TSeq(p1, p2) =>
      var r1 := Match(rs, p1, s, i, fuel);
      MatchGives(rs, p1, s, i, fuel, show);
      MatchGives(rs, p2, s, r1.pos, fuel, show);
      var r2 := Match(rs, p2, s, r1.pos, fuel);
      ValuesConcat(r1.caps, r2.caps, s, i, r1.pos, r2.pos, show);
      WovenConcat(r1.caps, r2.caps, s, i, r1.pos, r2.pos, show);
    case TChoice(p1, p2) => MatchGives(rs, if Match(rs, p1, s, i, fuel).Ok? then p1 else p2, s, i, fuel, show);
    case TCall(n) => MatchGives(rs, rs[n], s, i, fuel - 1, show);
    case TGrammar(rules) => MatchGives(rules, rules[0], s, i, fuel, show);
    case TCapture(kind, key, p) =>
      MatchGives(rs, p, s, i, fuel, show);
      var r1 := Match(rs, p, s, i, fuel);
      OnePlain(kind, key, p, s, i, r1);
      var c := Cap(kind, key, i, r1.pos, r1.caps);
      PlainInside(c, s);
      OneGives(c, s, show);
      CaptureValue(c, s, show);
    case _ =>
  }

  // ---------- Substitutions ----------

  /** Every outermost capture has its own text as its first value, or no value: simple captures, named groups, and
      substitutions in which the same holds. */
  predicate OwnText(t: Tree) {
    match t
    case TRep(p) => OwnText(p)
    case TSeq(p1, p2) => OwnText(p1) && OwnText(p2)
    case TChoice(p1, p2) => OwnText(p1) && OwnText(p2)
    case TCapture(kind, key, p) =>
      kind == CSIMPLE || (kind == CGROUP && key != 0) || (kind == CSUBST && OwnText(p))
    case TGrammar(rules) => forall k :: 0 <= k < |rules| ==> OwnText(rules[k])
    case _ => true
  }

  /** Then a substitution changes nothing. */
  lemma {:induction false} KeepsText(rs: seq<Tree>, t: Tree, s: Subject, i: nat, fuel: nat, show: Show)
    requires i <= |s| && Match(rs, t, s, i, fuel).Ok?
    requires OwnText(t) && forall k :: 0 <= k < |rs| ==> OwnText(rs[k])
    ensures Rewritten(rs, t, s, i, fuel, show) == s[i..Match(rs, t, s, i, fuel).pos]
    decreases fuel, t
  {
    match t
    case TRep(p) =>
      var r := Match(rs, p, s, i, fuel);
      if r.Ok? {
        KeepsText(rs, p, s, i, fuel, show);
        KeepsText(rs, t, s, r.pos, fuel - 1, show);
        Glue(s, i, r.pos, Match(rs, t, s, r.pos, fuel - 1).pos, []);
      }
    case TSeq(p1, p2) =>
      var r := Match(rs, p1, s, i, fuel);
      KeepsText(rs, p1, s, i, fuel, show);
      KeepsText(rs, p2, s, r.pos, fuel, show);
      Glue(s, i, r.pos, Match(rs, p2, s, r.pos, fuel).pos, []);
    case TChoice(p1, p2) => KeepsText(rs, if Match(rs, p1, s, i, fuel).Ok? then p1 else p2, s, i, fuel, show);
    case TCall(n) => KeepsText(rs, rs[n], s, i, fuel - 1, show);
    case TGrammar(rules) => KeepsText(rules, rules[0], s, i, fuel, show);
    case TCapture(kind, key, p) => if kind == CSUBST { KeepsText(rs, p, s, i, fuel, show); }
    case _ =>
  }

  /** A simple capture inside of another one, on the subject "ab": the outer text comes first. */
  lemma NestedExample(show: Show)
    ensures var t := TCapture(CSIMPLE, 0, TSeq(TCapture(CSIMPLE, 0, TChar(97)), TChar(98)));
      var s: Subject := [97, 98];
      && Match([], t, s, 0, 0).Ok?
      && var r := Match([], t, s, 0, 0);
         PlainTree(t) && r.pos == 2 && AllPlain(r.caps, s, 0, 2)
         && AllValues(r.caps, s, 0, 2, show) == [Text([97, 98]), Text([97])]
  {
    hide AllPlain, AllValues;
    var a := TCapture(CSIMPLE, 0, TChar(97));
    var t := TCapture(CSIMPLE, 0, TSeq(a, TChar(98)));
    var s: Subject := [97, 98];
    assert Match([], TChar(97), s, 0, 0) == Ok(1, []);
    assert Match([], a, s, 0, 0).pos == 1;
    assert Match([], TChar(98), s, 1, 0) == Ok(2, []);
    assert Match([], TSeq(a, TChar(98)), s, 0, 0).pos == 2;
    MatchGives([], t, s, 0, 0, show);
    assert s[0..2] == [97, 98] && s[0..1] == [97];
    assert Gives([], a, s, 0, 0, show) == [Text([97])];
  }
}
