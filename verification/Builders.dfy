/** Building pattern trees (lptree.c): the simplifications keep the meaning of a pattern, and the code that lays trees
    out and rearranges them in a flat node array does what it should to the tree. */
module Builders {
  import opened Common
  import opened Patterns
  import opened Analysis

  // ---------- Simplifications ----------

  /** Both patterns have the same outcome everywhere. */
  ghost predicate Same(rs: seq<Tree>, t: Tree, u: Tree) {
    forall s: Subject, i: nat, fuel: nat | i <= |s| :: Match(rs, t, s, i, fuel) == Match(rs, u, s, i, fuel)
  }

  /** `lp_seq` */
  function Seq(t1: Tree, t2: Tree): Tree {
    if t1.TFalse? || t2.TTrue? then t1
    else if t1.TTrue? then t2
    else TSeq(t1, t2)
  }

  lemma SeqSame(rs: seq<Tree>, t1: Tree, t2: Tree)
    ensures Same(rs, Seq(t1, t2), TSeq(t1, t2))
  {
    forall s: Subject, i: nat, fuel: nat | i <= |s|
      ensures Match(rs, Seq(t1, t2), s, i, fuel) == Match(rs, TSeq(t1, t2), s, i, fuel)
    {
      var r1 := Match(rs, t1, s, i, fuel);
      if r1.Ok? {
        assert r1.caps + [] == r1.caps;
        var r2 := Match(rs, t2, s, r1.pos, fuel);
        if r2.Ok? { assert [] + r2.caps == r2.caps; }
      }
    }
  }

  /** `lp_choice` */
  function Choice(rs: seq<Tree>, t1: Tree, t2: Tree, depth: nat): Tree {
    if IsCharset(t1) && IsCharset(t2) then TSet(ToCharset(t1) + ToCharset(t2))
    else if NoFail(rs, t1, depth) || t2.TFalse? then t1
    else if t1.TFalse? then t2
    else TChoice(t1, t2)
  }

  lemma ChoiceSame(rs: seq<Tree>, t1: Tree, t2: Tree, depth: nat)
    ensures Same(rs, Choice(rs, t1, t2, depth), TChoice(t1, t2))
  {
    forall s: Subject, i: nat, fuel: nat | i <= |s|
      ensures Match(rs, Choice(rs, t1, t2, depth), s, i, fuel) == Match(rs, TChoice(t1, t2), s, i, fuel)
    {
      if IsCharset(t1) && IsCharset(t2) {
        CharsetMatch(rs, t1, s, i, fuel);
        CharsetMatch(rs, t2, s, i, fuel);
      } else if NoFail(rs, t1, depth) {
        NoFailSound(rs, t1, s, i, fuel, depth);
      }
    }
  }

  /** `lp_sub` */
  function Sub(t1: Tree, t2: Tree): Tree {
    if IsCharset(t1) && IsCharset(t2) then TSet(ToCharset(t1) - ToCharset(t2))
    else TSeq(TNot(t2), t1)
  }

  lemma SubSame(rs: seq<Tree>, t1: Tree, t2: Tree)
    ensures Same(rs, Sub(t1, t2), TSeq(TNot(t2), t1))
  {
    if IsCharset(t1) && IsCharset(t2) {
      forall s: Subject, i: nat, fuel: nat | i <= |s|
        ensures Match(rs, Sub(t1, t2), s, i, fuel) == Match(rs, TSeq(TNot(t2), t1), s, i, fuel)
      {
        CharsetMatch(rs, t1, s, i, fuel);
        CharsetMatch(rs, t2, s, i, fuel);
      }
    }
  }

  // ---------- Repetitions ----------

  /** The tree that `lp_star` builds: at least `n` repetitions, or at most `-n`. */
  function Star(p: Tree, n: int): Tree
    decreases if n < 0 then -n else n
  {
    if n > 0 then TSeq(p, Star(p, n - 1))
    else if n == 0 then TRep(p)
    else if n == -1 then TChoice(p, TTrue)
    else TChoice(TSeq(p, Star(p, n + 1)), TTrue)
  }

  /** Matching `p` as often as possible, at most `max` times (or without limit, if `max` is negative): how often, and
      where that ends. */
  datatype Greedy = Unknown | Times(count: nat, pos: nat, caps: seq<Cap>)

  function Repeat(rs: seq<Tree>, p: Tree, s: Subject, i: nat, max: int, fuel: nat): (g: Greedy)
    requires i <= |s|
    ensures g.Times? ==> i <= g.pos <= |s|
    decreases if max >= 0 then max else fuel
  {
    if max == 0 then Times(0, i, [])
    else
      match Match(rs, p, s, i, fuel)
      case Out => Unknown
      case Fail => Times(0, i, [])
      case Ok(k, c) =>
        if max < 0 && fuel == 0 then Unknown
        else
          var g := if max > 0 then Repeat(rs, p, s, k, max - 1, fuel) else Repeat(rs, p, s, k, max, fuel - 1);
          if g.Unknown? then Unknown else Times(g.count + 1, g.pos, c + g.caps)
  }

  /** p^-m matches `p` greedily at most `m` times, and never fails. */
  lemma {:induction false} AtMost(rs: seq<Tree>, p: Tree, s: Subject, i: nat, m: int, fuel: nat)
    requires i <= |s| && m > 0
    ensures var g := Repeat(rs, p, s, i, m, fuel);
      var r := Match(rs, Star(p, -m), s, i, fuel);
      && (g.Unknown? <==> r.Out?)
      && (g.Times? ==> r == Ok(g.pos, g.caps) && g.count <= m)
    decreases m
  {
    var r := Match(rs, p, s, i, fuel);
    if r.Ok? {
      if m > 1 { AtMost(rs, p, s, r.pos, m - 1, fuel); }
      else { assert r.caps + [] == r.caps; }
    }
  }

  /** A repetition is greedy. */
  lemma {:induction false} RepIsGreedy(rs: seq<Tree>, p: Tree, s: Subject, i: nat, fuel: nat)
    requires i <= |s|
    ensures var g := Repeat(rs, p, s, i, -1, fuel);
      var r := Match(rs, TRep(p), s, i, fuel);
      && (g.Unknown? <==> r.Out?)
      && (g.Times? ==> r == Ok(g.pos, g.caps))
    decreases fuel
  {
    var r := Match(rs, p, s, i, fuel);
    if r.Ok? && fuel > 0 { RepIsGreedy(rs, p, s, r.pos, fuel - 1); }
  }

  /** Fuel that is enough for greedy repetition stays enough. */
  lemma {:induction false} RepeatMore(rs: seq<Tree>, p: Tree, s: Subject, i: nat, fuel: nat, more: nat)
    requires i <= |s| && fuel <= more && Repeat(rs, p, s, i, -1, fuel).Times?
    ensures Repeat(rs, p, s, i, -1, more) == Repeat(rs, p, s, i, -1, fuel)
    decreases fuel
  {
    MoreFuel(rs, p, s, i, fuel, more);
    var r := Match(rs, p, s, i, fuel);
    if r.Ok? { RepeatMore(rs, p, s, r.pos, fuel - 1, more - 1); }
  }

  /** p^n matches `p` greedily, and succeeds if and only if that gives at least `n` repetitions. */
  lemma {:induction false} AtLeast(rs: seq<Tree>, p: Tree, s: Subject, i: nat, n: nat, fuel: nat)
    requires i <= |s| && Repeat(rs, p, s, i, -1, fuel).Times?
    ensures var g := Repeat(rs, p, s, i, -1, fuel);
      Match(rs, Star(p, n), s, i, fuel) == if g.count >= n then Ok(g.pos, g.caps) else Fail
    decreases n
  {
    RepIsGreedy(rs, p, s, i, fuel);
    if n > 0 {
      var r := Match(rs, p, s, i, fuel);
      if r.Ok? {
        RepeatMore(rs, p, s, r.pos, fuel - 1, fuel);
        AtLeast(rs, p, s, r.pos, n - 1, fuel);
      }
    }
  }

  // ---------- Strings and numbers ----------

  /** The pattern of a string: one character after the other. */
  function Literal(str: seq<Byte>): Tree
    requires |str| > 0
  {
    if |str| == 1 then TChar(str[0]) else TSeq(TChar(str[0]), Literal(str[1..]))
  }

  function Anys(n: nat): Tree
    requires n > 0
  {
    if n == 1 then TAny else TSeq(TAny, Anys(n - 1))
  }

  /** `numtree`: `n` characters, or not `-n` characters. */
  function Num(n: int): Tree {
    if n == 0 then TTrue else if n > 0 then Anys(n) else TNot(Anys(-n))
  }

  /** A string pattern matches exactly that string. */
  lemma {:induction false} LiteralMatches(rs: seq<Tree>, str: seq<Byte>, s: Subject, i: nat, fuel: nat)
    requires i <= |s| && |str| > 0
    ensures Match(rs, Literal(str), s, i, fuel) ==
      if i + |str| <= |s| && s[i..i + |str|] == str then Ok(i + |str|, []) else Fail
    decreases |str|
  {
    if i < |s| && s[i] == str[0] && |str| > 1 {
      LiteralMatches(rs, str[1..], s, i + 1, fuel);
      if i + |str| <= |s| {
        assert s[i..i + |str|] == [s[i]] + s[i + 1..i + |str|];
        assert str == [str[0]] + str[1..];
        assert s[i..i + |str|] == str <==> s[i + 1..i + |str|] == str[1..];
      }
    } else if i + |str| <= |s| {
      assert s[i..i + |str|][0] == s[i];
      if |str| == 1 { assert s[i..i + 1] == [s[i]]; }
    }
  }

  lemma {:induction false} AnysMatches(rs: seq<Tree>, n: nat, s: Subject, i: nat, fuel: nat)
    requires i <= |s| && n > 0
    ensures Match(rs, Anys(n), s, i, fuel) == if i + n <= |s| then Ok(i + n, []) else Fail
    decreases n
  {
    if i < |s| && n > 1 { AnysMatches(rs, n - 1, s, i + 1, fuel); }
  }

  /** The number `n` matches `n` characters; `-n` matches where there are fewer than `n` left. */
  lemma NumMatches(rs: seq<Tree>, n: int, s: Subject, i: nat, fuel: nat)
    requires i <= |s|
    ensures Match(rs, Num(n), s, i, fuel) ==
      if n >= 0 then (if i + n <= |s| then Ok(i + n, []) else Fail) else (if i - n <= |s| then Fail else Ok(i, []))
  {
    if n > 0 { AnysMatches(rs, n, s, i, fuel); }
    if n < 0 { AnysMatches(rs, -n, s, i, fuel); }
  }

  // ---------- Right association ----------

  /** `correctassociativity`: Op (Op t11 t12) t2 => Op t11 (Op t12 t2), as long as that is possible. */
  function Rotated(t: Tree): (r: Tree)
    ensures t.TSeq? ==> r.TSeq? && !r.p1.TSeq?
    ensures t.TChoice? ==> r.TChoice? && !r.p1.TChoice?
    decreases if t.TSeq? || t.TChoice? then t.p1 else t
  {
    if t.TSeq? && t.p1.TSeq? then Rotated(TSeq(t.p1.p1, TSeq(t.p1.p2, t.p2)))
    else if t.TChoice? && t.p1.TChoice? then Rotated(TChoice(t.p1.p1, TChoice(t.p1.p2, t.p2)))
    else t
  }

  lemma SeqRotates(rs: seq<Tree>, a: Tree, b: Tree, c: Tree, s: Subject, i: nat, fuel: nat)
    requires i <= |s|
    ensures Match(rs, TSeq(TSeq(a, b), c), s, i, fuel) == Match(rs, TSeq(a, TSeq(b, c)), s, i, fuel)
  {
    var r1 := Match(rs, a, s, i, fuel);
    if r1.Ok? {
      var r2 := Match(rs, b, s, r1.pos, fuel);
      if r2.Ok? {
        var r3 := Match(rs, c, s, r2.pos, fuel);
        if r3.Ok? { assert r1.caps + (r2.caps + r3.caps) == r1.caps + r2.caps + r3.caps; }
      }
    }
  }

  lemma ChoiceRotates(rs: seq<Tree>, a: Tree, b: Tree, c: Tree, s: Subject, i: nat, fuel: nat)
    requires i <= |s|
    ensures Match(rs, TChoice(TChoice(a, b), c), s, i, fuel) == Match(rs, TChoice(a, TChoice(b, c)), s, i, fuel)
  {
  }

  lemma RotateOnce(rs: seq<Tree>, a: Tree, b: Tree, c: Tree)
    ensures Same(rs, TSeq(TSeq(a, b), c), TSeq(a, TSeq(b, c)))
    ensures Same(rs, TChoice(TChoice(a, b), c), TChoice(a, TChoice(b, c)))
  {
    hide Match;
    forall s: Subject, i: nat, fuel: nat | i <= |s|
      ensures Match(rs, TSeq(TSeq(a, b), c), s, i, fuel) == Match(rs, TSeq(a, TSeq(b, c)), s, i, fuel)
      ensures Match(rs, TChoice(TChoice(a, b), c), s, i, fuel) == Match(rs, TChoice(a, TChoice(b, c)), s, i, fuel)
    {
      SeqRotates(rs, a, b, c, s, i, fuel);
      ChoiceRotates(rs, a, b, c, s, i, fuel);
    }
  }

  lemma {:induction false} RotatedSame(rs: seq<Tree>, t: Tree)
    ensures Same(rs, Rotated(t), t)
    decreases if t.TSeq? || t.TChoice? then t.p1 else t
  {
    if t.TSeq? && t.p1.TSeq? {
      RotateOnce(rs, t.p1.p1, t.p1.p2, t.p2);
      RotatedSame(rs, TSeq(t.p1.p1, TSeq(t.p1.p2, t.p2)));
    } else if t.TChoice? && t.p1.TChoice? {
      RotateOnce(rs, t.p1.p1, t.p1.p2, t.p2);
      RotatedSame(rs, TChoice(t.p1.p1, TChoice(t.p1.p2, t.p2)));
    }
  }
}
