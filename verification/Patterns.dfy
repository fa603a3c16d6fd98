/** Pattern trees (lptree.h) and the meaning of a pattern: the big-step semantics of
    parsing expression grammars that the rest of the project compares code against. */
module Patterns {
  import opened Common

  type Charset = set<Byte>
  type Subject = seq<Byte>

  /** lpcode.c's `fullset`. */
  const FULL: Charset := set b: Byte | 0 <= b < 256

  /** A pattern tree. A `TCall` names a rule of the nearest enclosing `TGrammar` by its number;
      `TOpenCall` does not survive `finalfix`, and `TRunTime` is not modelled. */
  datatype Tree =
    | TChar(c: Byte)
    | TSet(cs: Charset)
    | TAny
    | TTrue
    | TFalse
    | TRep(p: Tree)
    | TSeq(p1: Tree, p2: Tree)
    | TChoice(p1: Tree, p2: Tree)
    | TNot(p: Tree)
    | TAnd(p: Tree)
    | TCall(rule: nat)
    | TGrammar(rules: seq<Tree>)
    | TBehind(n: nat, p: Tree)
    | TCapture(kind: nat, key: nat, p: Tree)

  /** One node of the capture forest: kind, ktable key, extent in the subject, nested captures. */
  datatype Cap = Cap(kind: nat, key: nat, from: nat, to: nat, nested: seq<Cap>)

  /** `Out` means that the given fuel was not enough to tell. */
  datatype Result = Out | Fail | Ok(pos: nat, caps: seq<Cap>)

  /** lpcode.c's `tocharset`: the trees that consume exactly one character of a set. */
  predicate IsCharset(t: Tree) {
    t.TChar? || t.TSet? || t.TAny?
  }

  function ToCharset(t: Tree): (cs: Charset)
    requires IsCharset(t)
  {
    match t
    case TChar(c) => {c}
    case TSet(cs) => cs
    case _ => FULL
  }

  /** Matches `t` against `s` from position `i`. `rs` are the rules that calls refer to. Each call and each
      new iteration of a repetition uses one unit of fuel. */
  function Match(rs: seq<Tree>, t: Tree, s: Subject, i: nat, fuel: nat): (r: Result)
    requires i <= |s|
    ensures r.Ok? ==> i <= r.pos <= |s|
    decreases fuel, t
  {
    match t
    case TChar(c) => if i < |s| && s[i] == c then Ok(i + 1, []) else Fail
    case TSet(cs) => if i < |s| && s[i] in cs then Ok(i + 1, []) else Fail
    case TAny => if i < |s| then Ok(i + 1, []) else Fail
    case TTrue => Ok(i, [])
    case TFalse => Fail
    case TRep(p) =>
      (match Match(rs, p, s, i, fuel)
       case Out => Out
       case Fail => Ok(i, [])
       case Ok(k, c1) => if fuel == 0 then Out else Then(c1, Match(rs, t, s, k, fuel - 1)))
    case TSeq(p1, p2) =>
      (match Match(rs, p1, s, i, fuel)
       case Out => Out
       case Fail => Fail
       case Ok(k, c1) => Then(c1, Match(rs, p2, s, k, fuel)))
    case TChoice(p1, p2) =>
      var r := Match(rs, p1, s, i, fuel);
      if r.Fail? then Match(rs, p2, s, i, fuel) else r
    case TNot(p) =>
      (match Match(rs, p, s, i, fuel)
       case Out => Out
       case Fail => Ok(i, [])
       case Ok(_, _) => Fail)
    case TAnd(p) =>
      var r := Match(rs, p, s, i, fuel);
      if r.Ok? then Ok(i, []) else r
    case TCall(n) => if n < |rs| && fuel > 0 then Match(rs, rs[n], s, i, fuel - 1) else Out
    case TGrammar(rules) => if |rules| > 0 then Match(rules, rules[0], s, i, fuel) else Out
    case TBehind(n, p) =>
      if n > i then Fail
      else
        var r := Match(rs, p, s, i - n, fuel);
        if r.Ok? then Ok(i, []) else r
    case TCapture(kind, key, p) =>
      var r := Match(rs, p, s, i, fuel);
      if r.Ok? then Ok(r.pos, [Cap(kind, key, i, r.pos, r.caps)]) else r
  }

  /** Prefixes the captures of an earlier part to the outcome of what follows it. */
  function Then(c1: seq<Cap>, r: Result): (r': Result)
    ensures r'.Ok? <==> r.Ok?
    ensures r.Ok? ==> r'.pos == r.pos
  {
    if r.Ok? then Ok(r.pos, c1 + r.caps) else r
  }

  /** More fuel never changes an answer. */
  lemma {:induction false} MoreFuel(rs: seq<Tree>, t: Tree, s: Subject, i: nat, fuel: nat, more: nat)
    requires i <= |s| && fuel <= more
    requires !Match(rs, t, s, i, fuel).Out?
    ensures Match(rs, t, s, i, more) == Match(rs, t, s, i, fuel)
    decreases fuel, t
  {
    match t
    case TRep(p) =>
      MoreFuel(rs, p, s, i, fuel, more);
      var r := Match(rs, p, s, i, fuel);
      if r.Ok? { MoreFuel(rs, t, s, r.pos, fuel - 1, more - 1); }
    case TSeq(p1, p2) =>
      MoreFuel(rs, p1, s, i, fuel, more);
      var r := Match(rs, p1, s, i, fuel);
      if r.Ok? { MoreFuel(rs, p2, s, r.pos, fuel, more); }
    case TChoice(p1, p2) =>
      MoreFuel(rs, p1, s, i, fuel, more);
      if Match(rs, p1, s, i, fuel).Fail? { MoreFuel(rs, p2, s, i, fuel, more); }
    case TNot(p) => MoreFuel(rs, p, s, i, fuel, more);
    case TAnd(p) => MoreFuel(rs, p, s, i, fuel, more);
    case TCall(n) => MoreFuel(rs, rs[n], s, i, fuel - 1, more - 1);
    case TGrammar(rules) => MoreFuel(rules, rules[0], s, i, fuel, more);
    case TBehind(n, p) => if n <= i { MoreFuel(rs, p, s, i - n, fuel, more); }
    case TCapture(_, _, p) => MoreFuel(rs, p, s, i, fuel, more);
    case _ =>
  }
}
