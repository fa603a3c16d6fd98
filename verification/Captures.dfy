/** The capture list and its walkers (lpcap.c): each walker ends exactly at the end of the capture it was started on,
    and the values it produces are those of the capture forest, whichever captures were collapsed into single entries.
    */
module Captures {
  import opened Common
  import opened Patterns
  import opened Machine
  import opened Simulation

  const CPOSITION: nat := 1
  const CCONST: nat := 2
  const CSIMPLE: nat := 5
  const CSUBST: nat := 11
  const CGROUP: nat := 14

  predicate IsClose(e: Entry) {
    e.kind == CCLOSE
  }

  predicate IsFull(e: Entry) {
    e.siz != 0
  }

  /** No capture is of the kind that marks close entries. */
  predicate Named(c: Cap)
    decreases c, 0
  {
    c.kind != CCLOSE && AllNamed(c.nested)
  }

  predicate AllNamed(cs: seq<Cap>)
    decreases cs, 1
  {
    cs == [] || (Named(cs[0]) && AllNamed(cs[1..]))
  }

  // ---------- Finding the matching bracket ----------

  /** Index of the close entry reached from `at` with `n` opens waiting for one; |list| if there is none. */
  function CloseFrom(list: seq<Entry>, at: nat, n: nat): (r: nat)
    requires at <= |list|
    ensures at <= r <= |list|
    decreases |list| - at
  {
    if at == |list| then at
    else if IsClose(list[at]) then if n == 0 then at else CloseFrom(list, at + 1, n - 1)
    else if !IsFull(list[at]) then CloseFrom(list, at + 1, n + 1)
    else CloseFrom(list, at + 1, n)
  }

  /** Index of the open entry reached going back from `at` with `n` closes waiting for one; -1 if there is none. */
  function OpenBefore(list: seq<Entry>, at: nat, n: nat): (r: int)
    requires at <= |list|
    ensures -1 <= r < at || (at == 0 && r == -1)
    decreases at
  {
    if at == 0 then -1
    else if IsClose(list[at - 1]) then OpenBefore(list, at - 1, n + 1)
    else if !IsFull(list[at - 1]) then if n == 0 then at - 1 else OpenBefore(list, at - 1, n - 1)
    else OpenBefore(list, at - 1, n)
  }

  lemma {:induction false} CloseSkipsOne(a: seq<Entry>, c: Cap, b: seq<Entry>, limit: nat, n: nat)
    requires Named(c)
    ensures var es := Entries(c, limit); var l := a + es + b; CloseFrom(l, |a|, n) == CloseFrom(l, |a| + |es|, n)
    decreases c, 0
  {
    var es := Entries(c, limit);
    var l := a + es + b;
    if |es| == 1 && IsFull(es[0]) {
      assert l[|a|] == es[0];
    } else {
      var open, close := [Entry(c.from, c.key, c.kind, 0)], [Entry(c.to, 0, CCLOSE, 1)];
      var m := AllEntries(c.nested, limit);
      assert l == (a + open) + m + (close + b);
      assert l[|a|] == open[0] && l[|a| + 1 + |m|] == close[0];
      CloseSkipsAll(a + open, c.nested, close + b, limit, n + 1);
    }
  }

  /** Balanced captures do not affect the search for a close entry. */
  lemma {:induction false} CloseSkipsAll(a: seq<Entry>, cs: seq<Cap>, b: seq<Entry>, limit: nat, n: nat)
    requires AllNamed(cs)
    ensures var es := AllEntries(cs, limit); var l := a + es + b; CloseFrom(l, |a|, n) == CloseFrom(l, |a| + |es|, n)
    decreases cs, 1
  {
    if cs != [] {
      var e0, rest := Entries(cs[0], limit), AllEntries(cs[1..], limit);
      assert a + (e0 + rest) + b == a + e0 + (rest + b);
      assert a + (e0 + rest) + b == (a + e0) + rest + b;
      CloseSkipsOne(a, cs[0], rest + b, limit, n);
      CloseSkipsAll(a + e0, cs[1..], b, limit, n);
    }
  }

  lemma {:induction false} OpenSkipsOne(a: seq<Entry>, c: Cap, b: seq<Entry>, limit: nat, n: nat)
    requires Named(c)
    ensures var es := Entries(c, limit); var l := a + es + b; OpenBefore(l, |a| + |es|, n) == OpenBefore(l, |a|, n)
    decreases c, 0
  {
    var es := Entries(c, limit);
    var l := a + es + b;
    if |es| == 1 && IsFull(es[0]) {
      assert l[|a|] == es[0];
    } else {
      var open, close := [Entry(c.from, c.key, c.kind, 0)], [Entry(c.to, 0, CCLOSE, 1)];
      var m := AllEntries(c.nested, limit);
      assert l == (a + open) + m + (close + b);
      assert l[|a|] == open[0] && l[|a| + 1 + |m|] == close[0];
      OpenSkipsAll(a + open, c.nested, close + b, limit, n + 1);
    }
  }

  /** Balanced captures do not affect the search for an open entry. */
  lemma {:induction false} OpenSkipsAll(a: seq<Entry>, cs: seq<Cap>, b: seq<Entry>, limit: nat, n: nat)
    requires AllNamed(cs)
    ensures var es := AllEntries(cs, limit); var l := a + es + b; OpenBefore(l, |a| + |es|, n) == OpenBefore(l, |a|, n)
    decreases cs, 1
  {
    if cs != [] {
      var e0, rest := Entries(cs[0], limit), AllEntries(cs[1..], limit);
      assert a + (e0 + rest) + b == a + e0 + (rest + b);
      assert a + (e0 + rest) + b == (a + e0) + rest + b;
      OpenSkipsOne(a, cs[0], rest + b, limit, n);
      OpenSkipsAll(a + e0, cs[1..], b, limit, n);
    }
  }

  /** lpcap.c's `nextcap`: started on a capture, it stops right after it. */
  method NextCap(list: seq<Entry>, cap: nat, ghost a: seq<Entry>, ghost c: Cap, ghost b: seq<Entry>, ghost limit: nat)
    returns (next: nat)
    requires Named(c) && list == a + Entries(c, limit) + b && cap == |a|
    ensures next == |a| + |Entries(c, limit)|
  {
    ghost var es := Entries(c, limit);
    assert list[cap] == es[0];
    next := cap;
    if !IsFull(list[next]) {
      ghost var m := AllEntries(c.nested, limit);
      ghost var close := [Entry(c.to, 0, CCLOSE, 1)];
      assert list == (a + es[..1]) + m + (close + b);
      CloseSkipsAll(a + es[..1], c.nested, close + b, limit, 0);
      ghost var end := |a| + 1 + |m|;
      assert list[end] == close[0];
      assert CloseFrom(list, cap + 1, 0) == end;
      var n := 0;  // number of opens waiting for a close
      next := next + 1;
      while !(IsClose(list[next]) && n == 0)
        invariant 0 <= n && next <= end < |list| && CloseFrom(list, next, n) == end
        decreases end - next
      {
        if IsClose(list[next]) { n := n - 1; }
        else if !IsFull(list[next]) { n := n + 1; }
        next := next + 1;
      }
    }
    next := next + 1;
  }

  /** lpcap.c's `findopen`: started on the close entry of a capture, it stops at the open entry of that capture. */
  method FindOpen(list: seq<Entry>, cap: nat, ghost a: seq<Entry>, ghost c: Cap, ghost b: seq<Entry>, ghost limit: nat)
    returns (open: nat)
    requires Named(c) && list == a + Entries(c, limit) + b
    requires |Entries(c, limit)| > 1 && cap == |a| + |Entries(c, limit)| - 1
    ensures open == |a|
  {
    ghost var m := AllEntries(c.nested, limit);
    ghost var op, cl := [Entry(c.from, c.key, c.kind, 0)], [Entry(c.to, 0, CCLOSE, 1)];
    assert list == (a + op) + m + (cl + b);
    OpenSkipsAll(a + op, c.nested, cl + b, limit, 0);
    assert list[|a|] == op[0];
    var n := 0;  // number of closes waiting for an open
    open := cap - 1;
    while IsClose(list[open]) || IsFull(list[open]) || n > 0
      invariant 0 <= n && |a| <= open < |list| && OpenBefore(list, open + 1, n) == |a|
      decreases open
    {
      if IsClose(list[open]) { n := n + 1; }
      else if !IsFull(list[open]) { n := n - 1; }
      open := open - 1;
    }
  }

  // ---------- Values ----------

  datatype Value = Text(bytes: seq<Byte>) | Position(n: nat) | Constant(key: nat)

  /** A value inside a substitution; `show` is how Lua turns a number or other value into text. */
  function AsText(v: Value, show: Value -> seq<Byte>): seq<Byte> {
    if v.Text? then v.bytes else show(v)
  }

  /** The captures whose evaluation calls no Lua code, with extents in order inside the subject. Position and constant
      captures are empty, as the library builds them. */
  predicate Plain(c: Cap, s: Subject): (b: bool)
    ensures b ==> c.from <= c.to <= |s|
    decreases c, 0
  {
    && c.from <= c.to <= |s|
    && (c.kind == CSIMPLE || c.kind == CSUBST || c.kind == CGROUP
        || ((c.kind == CPOSITION || c.kind == CCONST) && c.from == c.to && c.nested == []))
    && AllPlain(c.nested, s, c.from, c.to)
  }

  predicate AllPlain(cs: seq<Cap>, s: Subject, lo: nat, hi: nat)
    decreases cs, 1
  {
    if cs == [] then lo <= hi
    else lo <= cs[0].from && cs[0].to <= hi && Plain(cs[0], s) && AllPlain(cs[1..], s, cs[0].to, hi)
  }

  /** The values of a capture (`pushcapture`). */
  function Values(c: Cap, s: Subject, show: Value -> seq<Byte>): seq<Value>
    requires Plain(c, s)
    decreases c, 0
  {
    var whole := Text(s[c.from..c.to]);
    if c.kind == CPOSITION then [Position(c.from + 1)]
    else if c.kind == CCONST then [Constant(c.key)]
    else if c.kind == CSIMPLE then [whole] + AllValues(c.nested, s, c.from, c.to, show)
    else if c.kind == CSUBST then [Text(Substituted(c.nested, s, c.from, c.from, c.to, show))]
    else if c.key != 0 then []
    else
      var vs := AllValues(c.nested, s, c.from, c.to, show);
      if vs == [] then [whole] else vs
  }

  function AllValues(cs: seq<Cap>, s: Subject, lo: nat, hi: nat, show: Value -> seq<Byte>): seq<Value>
    requires AllPlain(cs, s, lo, hi)
    decreases cs, 1
  {
    if cs == [] then [] else Values(cs[0], s, show) + AllValues(cs[1..], s, cs[0].to, hi, show)
  }

  /** The text of a substitution capture from `curr` on: the subject with each nested capture replaced by its first
      value, if it has one. */
  function Substituted(cs: seq<Cap>, s: Subject, curr: nat, lo: nat, hi: nat, show: Value -> seq<Byte>): seq<Byte>
    requires AllPlain(cs, s, lo, hi) && curr <= lo && hi <= |s|
    decreases cs, 2
  {
    if cs == [] then s[curr..hi]
    else
      var vs := Values(cs[0], s, show);
      var before := s[curr..cs[0].from];
      if vs == [] then before + Substituted(cs[1..], s, cs[0].from, cs[0].to, hi, show)
      else before + AsText(vs[0], show) + Substituted(cs[1..], s, cs[0].to, cs[0].to, hi, show)
  }

  lemma {:induction false} PlainNamed(c: Cap, s: Subject)
    requires Plain(c, s)
    ensures Named(c)
    decreases c, 0
  {
    AllPlainNamed(c.nested, s, c.from, c.to);
  }

  lemma {:induction false} AllPlainNamed(cs: seq<Cap>, s: Subject, lo: nat, hi: nat)
    requires AllPlain(cs, s, lo, hi)
    ensures AllNamed(cs)
    decreases cs, 1
  {
    if cs != [] {
      PlainNamed(cs[0], s);
      AllPlainNamed(cs[1..], s, cs[0].to, hi);
    }
  }

  /** `es` is what the list holds from `at` on. */
  predicate HoldsAt(list: seq<Entry>, at: nat, es: seq<Entry>) {
    at + |es| <= |list| && list[at..at + |es|] == es
  }

  lemma HoldsSplit(list: seq<Entry>, at: nat, a: seq<Entry>, b: seq<Entry>)
    requires HoldsAt(list, at, a + b)
    ensures HoldsAt(list, at, a) && HoldsAt(list, at + |a|, b)
  {
    var l := list[at..at + |a + b|];
    assert list[at..at + |a|] == l[..|a|];
    assert list[at + |a|..at + |a| + |b|] == l[|a|..];
  }

  lemma HoldsFirst(list: seq<Entry>, at: nat, es: seq<Entry>)
    requires HoldsAt(list, at, es) && es != []
    ensures at < |list| && list[at] == es[0]
  {
    assert list[at..at + |es|][0] == list[at];
  }

  /** The parts of a capture in the list. */
  lemma HoldsParts(list: seq<Entry>, at: nat, c: Cap, limit: nat)
    requires HoldsAt(list, at, Entries(c, limit)) && c.from <= c.to
    ensures at < |list| && list[at].pos == c.from && list[at].kind == c.kind && list[at].idx == c.key
    ensures IsFull(list[at]) <==> c.nested == [] && c.to - c.from < limit
    ensures IsFull(list[at]) ==> |Entries(c, limit)| == 1 && list[at].siz == c.to - c.from + 1
    ensures !IsFull(list[at]) ==>
      var m := AllEntries(c.nested, limit);
      && |Entries(c, limit)| == |m| + 2
      && HoldsAt(list, at + 1, m)
      && HoldsAt(list, at + 1 + |m|, [Entry(c.to, 0, CCLOSE, 1)])
  {
    var es := Entries(c, limit);
    HoldsFirst(list, at, es);
    if !IsFull(es[0]) {
      var m := AllEntries(c.nested, limit);
      HoldsSplit(list, at, [Entry(c.from, c.key, c.kind, 0)] + m, [Entry(c.to, 0, CCLOSE, 1)]);
      HoldsSplit(list, at, [Entry(c.from, c.key, c.kind, 0)], m);
    }
  }

  /** The next nested capture, or the close entry. */
  lemma HoldsNext(list: seq<Entry>, at: nat, cs: seq<Cap>, limit: nat, to: nat)
    requires HoldsAt(list, at, AllEntries(cs, limit))
      && HoldsAt(list, at + |AllEntries(cs, limit)|, [Entry(to, 0, CCLOSE, 1)])
    requires AllNamed(cs)
    ensures at < |list|
    ensures cs == [] ==> list[at] == Entry(to, 0, CCLOSE, 1)
    ensures cs != [] ==>
      && !IsClose(list[at])
      && HoldsAt(list, at, Entries(cs[0], limit))
      && HoldsAt(list, at + |Entries(cs[0], limit)|, AllEntries(cs[1..], limit))
      && |AllEntries(cs, limit)| == |Entries(cs[0], limit)| + |AllEntries(cs[1..], limit)|
  {
    if cs == [] { HoldsFirst(list, at, [Entry(to, 0, CCLOSE, 1)]); }
    else {
      HoldsSplit(list, at, Entries(cs[0], limit), AllEntries(cs[1..], limit));
      HoldsFirst(list, at, Entries(cs[0], limit));
    }
  }

  /** The state of a walk over the capture list. */
  class CapState {
    const list: seq<Entry>
    const s: Subject
    const show: Value -> seq<Byte>
    var cap: nat

    constructor (list: seq<Entry>, s: Subject, show: Value -> seq<Byte>)
      ensures this.list == list && this.s == s && this.show == show && cap == 0
    {
      this.list, this.s, this.show, cap := list, s, show, 0;
    }

    /** Skips a capture. */
    method Skip(ghost c: Cap, ghost limit: nat)
      requires Plain(c, s) && HoldsAt(list, cap, Entries(c, limit))
      modifies this`cap
      ensures cap == old(cap) + |Entries(c, limit)|
    {
      ghost var es := Entries(c, limit);
      PlainNamed(c, s);
      assert list == list[..cap] + es + list[cap + |es|..];
      cap := NextCap(list, cap, list[..cap], c, list[cap + |es|..], limit);
    }

    /** lpcap.c's `pushnestedvalues`; the values come in the order in which they are pushed. */
    method PushNestedValues(addextra: bool, ghost c: Cap, ghost limit: nat) returns (vs: seq<Value>)
      requires limit > 0 && Plain(c, s) && HoldsAt(list, cap, Entries(c, limit))
      modifies this`cap
      ensures cap == old(cap) + |Entries(c, limit)|
      ensures var inner := AllValues(c.nested, s, c.from, c.to, show);
        vs == if addextra || inner == [] then inner + [Text(s[c.from..c.to])] else inner
      decreases c, 1
    {
      HoldsParts(list, cap, c, limit);
      var open := list[cap];
      if IsFull(list[cap]) {
        vs := [Text(s[open.pos..open.pos + open.siz - 1])];
        cap := cap + 1;
      } else {
        cap := cap + 1;
        vs := NestedLoop(c, limit);
        if addextra || vs == [] {
          vs := vs + [Text(s[open.pos..list[cap].pos])];
        }
        cap := cap + 1;
      }
    }

    /** The loop over the nested captures; it stops at the close entry. */
    method NestedLoop(ghost c: Cap, ghost limit: nat) returns (vs: seq<Value>)
      requires limit > 0 && Plain(c, s) && HoldsAt(list, cap, AllEntries(c.nested, limit))
      requires HoldsAt(list, cap + |AllEntries(c.nested, limit)|, [Entry(c.to, 0, CCLOSE, 1)])
      modifies this`cap
      ensures cap == old(cap) + |AllEntries(c.nested, limit)| < |list| && list[cap].pos == c.to
      ensures vs == AllValues(c.nested, s, c.from, c.to, show)
      decreases c, 0
    {
      hide HoldsAt, Entries, AllEntries, Values, AllNamed, AllValues;
      ghost var cs, lo := c.nested, c.from;
      AllPlainNamed(cs, s, lo, c.to);
      HoldsNext(list, cap, cs, limit, c.to);
      vs := [];
      assert [] + AllValues(cs, s, lo, c.to, show) == AllValues(cs, s, lo, c.to, show);
      while !IsClose(list[cap])
        invariant cap < |list| && AllPlain(cs, s, lo, c.to)
        invariant forall d :: d in cs ==> d in c.nested
        invariant cs == [] <==> IsClose(list[cap])
        invariant HoldsAt(list, cap, AllEntries(cs, limit))
        invariant cap + |AllEntries(cs, limit)| == old(cap) + |AllEntries(c.nested, limit)|
        invariant vs + AllValues(cs, s, lo, c.to, show) == AllValues(c.nested, s, c.from, c.to, show)
        decreases |cs|
      {
        AllPlainNamed(cs, s, lo, c.to);
        HoldsNext(list, cap, cs, limit, c.to);
        ghost var c0, rest := cs[0], cs[1..];
        assert c0 in cs;
        var ws := PushCapture(c0, limit);
        ValuesStep(vs, cs, s, lo, c.to, show);
        vs := vs + ws;
        cs, lo := rest, c0.to;
        AllPlainNamed(cs, s, lo, c.to);
        HoldsNext(list, cap, cs, limit, c.to);
      }
      HoldsNext(list, cap, cs, limit, c.to);
      ValuesDone(vs, s, lo, c.to, show);
      NoEntries(limit);
    }

    /** lpcap.c's `substcap`. */
    method SubstCap(ghost c: Cap, ghost limit: nat) returns (text: seq<Byte>)
      requires limit > 0 && Plain(c, s) && c.kind == CSUBST && HoldsAt(list, cap, Entries(c, limit))
      modifies this`cap
      ensures cap == old(cap) + |Entries(c, limit)|
      ensures text == Substituted(c.nested, s, c.from, c.from, c.to, show)
      decreases c, 1
    {
      HoldsParts(list, cap, c, limit);
      var open := list[cap];
      if IsFull(open) {
        text := s[open.pos..open.pos + open.siz - 1];
      } else {
        cap := cap + 1;
        text := SubstLoop(open.pos, c, limit);
      }
      cap := cap + 1;
    }

    method SubstLoop(from: nat, ghost c: Cap, ghost limit: nat) returns (text: seq<Byte>)
      requires limit > 0 && Plain(c, s) && from == c.from && HoldsAt(list, cap, AllEntries(c.nested, limit))
      requires HoldsAt(list, cap + |AllEntries(c.nested, limit)|, [Entry(c.to, 0, CCLOSE, 1)])
      modifies this`cap
      ensures cap == old(cap) + |AllEntries(c.nested, limit)|
      ensures text == Substituted(c.nested, s, c.from, c.from, c.to, show)
      decreases c, 0
    {
      hide HoldsAt, Entries, AllEntries, Values, AllNamed, Substituted;
      ghost var cs, lo := c.nested, c.from;
      var curr := from;
      AllPlainNamed(cs, s, lo, c.to);
      HoldsNext(list, cap, cs, limit, c.to);
      text := [];
      assert [] + Substituted(cs, s, curr, lo, c.to, show) == Substituted(cs, s, curr, lo, c.to, show);
      while !IsClose(list[cap])
        invariant cap < |list| && AllPlain(cs, s, lo, c.to) && curr <= lo
        invariant forall d :: d in cs ==> d in c.nested
        invariant cs == [] <==> IsClose(list[cap])
        invariant HoldsAt(list, cap, AllEntries(cs, limit))
        invariant cap + |AllEntries(cs, limit)| == old(cap) + |AllEntries(c.nested, limit)|
        invariant text + Substituted(cs, s, curr, lo, c.to, show)
          == Substituted(c.nested, s, c.from, c.from, c.to, show)
        decreases |cs|
      {
        AllPlainNamed(cs, s, lo, c.to);
        HoldsNext(list, cap, cs, limit, c.to);
        assert cs[0] in cs;
        text, curr := SubstOne(text, curr, cs, lo, c.to, limit);
        cs, lo := cs[1..], cs[0].to;
        AllPlainNamed(cs, s, lo, c.to);
        HoldsNext(list, cap, cs, limit, c.to);
      }
      HoldsNext(list, cap, cs, limit, c.to);
      SubstDone(text, s, curr, lo, c.to, show);
      text := text + s[curr..list[cap].pos];
      NoEntries(limit);
    }

    /** One round of the loop: the text up to the next capture, and what replaces it. */
    method SubstOne(sofar: seq<Byte>, from: nat, ghost cs: seq<Cap>, ghost lo: nat, ghost hi: nat, ghost limit: nat)
      returns (text: seq<Byte>, curr: nat)
      requires limit > 0 && cs != [] && AllPlain(cs, s, lo, hi) && from <= lo && hi <= |s|
      requires HoldsAt(list, cap, Entries(cs[0], limit))
      modifies this`cap
      ensures cap == old(cap) + |Entries(cs[0], limit)|
      ensures curr <= cs[0].to && AllPlain(cs[1..], s, cs[0].to, hi)
      ensures text + Substituted(cs[1..], s, curr, cs[0].to, hi, show) == sofar + Substituted(cs, s, from, lo, hi, show)
      decreases cs[0], 4
    {
      hide HoldsAt, Entries, AllEntries, Values, AllNamed, Substituted;
      HoldsParts(list, cap, cs[0], limit);
      SubstStep(sofar, cs, s, from, lo, hi, show);
      var next := list[cap].pos;
      text := sofar + s[from..next];  // text up to the capture
      var some, value := AddOneString(cs[0], limit);
      if some {
        text := text + value;
        curr := CloseAddr(list, cap, cs[0], limit);  // continue after the match
      } else {
        curr := next;  // keep the original text
      }
    }

    /** lpcap.c's `addonestring`: the first value of a capture as text, if there is one. */
    method AddOneString(ghost c: Cap, ghost limit: nat) returns (some: bool, text: seq<Byte>)
      requires limit > 0 && Plain(c, s) && HoldsAt(list, cap, Entries(c, limit))
      modifies this`cap
      ensures cap == old(cap) + |Entries(c, limit)|
      ensures var vs := Values(c, s, show); some == (vs != []) && (some ==> text == AsText(vs[0], show))
      decreases c, 3
    {
      var vs := PushCapture(c, limit);
      some := vs != [];
      text := if some then AsText(vs[0], show) else [];
    }

    /** lpcap.c's `pushcapture`, for the modelled kinds. */
    method PushCapture(ghost c: Cap, ghost limit: nat) returns (vs: seq<Value>)
      requires limit > 0 && Plain(c, s) && HoldsAt(list, cap, Entries(c, limit))
      modifies this`cap
      ensures cap == old(cap) + |Entries(c, limit)|
      ensures vs == Values(c, s, show)
      decreases c, 2
    {
      HoldsParts(list, cap, c, limit);
      var e := list[cap];
      if e.kind == CPOSITION {
        vs := [Position(e.pos + 1)];
        cap := cap + 1;
      } else if e.kind == CCONST {
        vs := [Constant(e.idx)];
        cap := cap + 1;
      } else if e.kind == CSIMPLE {
        vs := PushNestedValues(true, c, limit);
        var k := |vs| - 1;
        vs := [vs[k]] + vs[..k];  // make the whole match the first value
      } else if e.kind == CSUBST {
        var text := SubstCap(c, limit);
        vs := [Text(text)];
      } else if e.idx == 0 {
        vs := PushNestedValues(false, c, limit);
      } else {
        Skip(c, limit);
        vs := [];
      }
    }

    /** lpcap.c's `getcaptures`: the values of the whole list, or the end position `r` when there are none. */
    method GetCaptures(r: nat, ghost cs: seq<Cap>, ghost limit: nat, ghost hi: nat) returns (vs: seq<Value>)
      requires limit > 0 && AllPlain(cs, s, 0, hi) && hi <= |s| && cap == 0
      requires list == AllEntries(cs, limit) + [Entry(0, 0, CCLOSE, 1)]
      modifies this`cap
      ensures var all := AllValues(cs, s, 0, hi, show); vs == if all == [] then [Position(r + 1)] else all
    {
      // the list is the inside of one group that spans the subject
      ghost var c := Cap(CGROUP, 0, 0, hi, cs);
      ghost var es := AllEntries(cs, limit);
      assert list[0..0 + |es|] == es;
      vs := TopLoop(cs, limit, hi);
      if vs == [] { vs := [Position(r + 1)]; }
    }

    method TopLoop(ghost all: seq<Cap>, ghost limit: nat, ghost hi: nat) returns (vs: seq<Value>)
      requires limit > 0 && AllPlain(all, s, 0, hi) && HoldsAt(list, cap, AllEntries(all, limit))
      requires HoldsAt(list, cap + |AllEntries(all, limit)|, [Entry(0, 0, CCLOSE, 1)])
      modifies this`cap
      ensures vs == AllValues(all, s, 0, hi, show)
    {
      hide HoldsAt, Entries, AllEntries, Values, AllNamed, AllValues;
      ghost var cs: seq<Cap>, lo: nat := all, 0;
      AllPlainNamed(cs, s, lo, hi);
      HoldsNext(list, cap, cs, limit, 0);
      vs := [];
      assert [] + AllValues(cs, s, lo, hi, show) == AllValues(cs, s, lo, hi, show);
      while !IsClose(list[cap])
        invariant cap < |list| && AllPlain(cs, s, lo, hi)
        invariant cs == [] <==> IsClose(list[cap])
        invariant HoldsAt(list, cap, AllEntries(cs, limit))
        invariant cap + |AllEntries(cs, limit)| == old(cap) + |AllEntries(all, limit)|
        invariant vs + AllValues(cs, s, lo, hi, show) == AllValues(all, s, 0, hi, show)
        decreases |cs|
      {
        AllPlainNamed(cs, s, lo, hi);
        HoldsNext(list, cap, cs, limit, 0);
        ghost var c0, rest := cs[0], cs[1..];
        var ws := PushCapture(c0, limit);
        ValuesStep(vs, cs, s, lo, hi, show);
        vs := vs + ws;
        cs, lo := rest, c0.to;
        AllPlainNamed(cs, s, lo, hi);
        HoldsNext(list, cap, cs, limit, 0);
      }
      ValuesDone(vs, s, lo, hi, show);
    }
  }

  /** lpcap.c's `closeaddr` of the entry before the cursor: where the capture just passed ended. */
  method CloseAddr(list: seq<Entry>, cap: nat, ghost c: Cap, ghost limit: nat) returns (to: nat)
    requires |Entries(c, limit)| <= cap && HoldsAt(list, cap - |Entries(c, limit)|, Entries(c, limit)) && c.from <= c.to
    ensures to == c.to
  {
    ghost var es := Entries(c, limit);
    ghost var at := cap - |es|;
    assert list[at..at + |es|][|es| - 1] == list[cap - 1];
    assert es[|es| - 1].pos + es[|es| - 1].siz - 1 == c.to;
    to := list[cap - 1].pos + list[cap - 1].siz - 1;
  }

  lemma ValuesStep(vs: seq<Value>, cs: seq<Cap>, s: Subject, lo: nat, hi: nat, show: Value -> seq<Byte>)
    requires cs != [] && AllPlain(cs, s, lo, hi)
    ensures vs + AllValues(cs, s, lo, hi, show)
         == vs + Values(cs[0], s, show) + AllValues(cs[1..], s, cs[0].to, hi, show)
  {
    hide Values;
  }

  lemma ValuesDone(vs: seq<Value>, s: Subject, lo: nat, hi: nat, show: Value -> seq<Byte>)
    requires lo <= hi
    ensures vs + AllValues([], s, lo, hi, show) == vs
  {
  }

  lemma NoEntries(limit: nat)
    ensures AllEntries([], limit) == []
  {
  }

  lemma SubstStep(text: seq<Byte>, cs: seq<Cap>, s: Subject, curr: nat, lo: nat, hi: nat, show: Value -> seq<Byte>)
    requires cs != [] && AllPlain(cs, s, lo, hi) && curr <= lo && hi <= |s|
    ensures var vs := Values(cs[0], s, show);
      var sofar := text + s[curr..cs[0].from];
      text + Substituted(cs, s, curr, lo, hi, show)
      == if vs == [] then sofar + Substituted(cs[1..], s, cs[0].from, cs[0].to, hi, show)
         else sofar + AsText(vs[0], show) + Substituted(cs[1..], s, cs[0].to, cs[0].to, hi, show)
  {
    hide Values;
  }

  lemma SubstDone(text: seq<Byte>, s: Subject, curr: nat, lo: nat, hi: nat, show: Value -> seq<Byte>)
    requires curr <= lo <= hi <= |s|
    ensures text + Substituted([], s, curr, lo, hi, show) == text + s[curr..hi]
  {
  }

  // ---------- Captures of a match ----------

  /** Trees with captures of the modelled kinds only, position and constant captures with an empty body. */
  predicate PlainTree(t: Tree) {
    match t
    case TRep(p) => PlainTree(p)
    case TSeq(p1, p2) => PlainTree(p1) && PlainTree(p2)
    case TChoice(p1, p2) => PlainTree(p1) && PlainTree(p2)
    case TNot(p) => PlainTree(p)
    case TAnd(p) => PlainTree(p)
    case TBehind(_, p) => PlainTree(p)
    case TCapture(kind, _, p) =>
      PlainTree(p) && (kind == CSIMPLE || kind == CSUBST || kind == CGROUP
                       || ((kind == CPOSITION || kind == CCONST) && p.TTrue?))
    case TGrammar(rules) => forall k :: 0 <= k < |rules| ==> PlainTree(rules[k])
    case _ => true
  }

  lemma {:induction false} PlainConcat(a: seq<Cap>, b: seq<Cap>, s: Subject, lo: nat, mid: nat, hi: nat)
    requires AllPlain(a, s, lo, mid) && AllPlain(b, s, mid, hi)
    ensures AllPlain(a + b, s, lo, hi)
    decreases |a|
  {
    if a == [] {
      assert a + b == b;
      PlainFrom(b, s, lo, mid, hi);
    } else {
      assert (a + b)[1..] == a[1..] + b;
      PlainConcat(a[1..], b, s, a[0].to, mid, hi);
      PlainUpTo(b, s, mid, hi);
    }
  }

  lemma PlainFrom(cs: seq<Cap>, s: Subject, lo: nat, mid: nat, hi: nat)
    requires AllPlain(cs, s, mid, hi) && lo <= mid
    ensures AllPlain(cs, s, lo, hi)
  {
    PlainUpTo(cs, s, mid, hi);
  }

  lemma {:induction false} PlainUpTo(cs: seq<Cap>, s: Subject, lo: nat, hi: nat)
    requires AllPlain(cs, s, lo, hi)
    ensures lo <= hi
    decreases |cs|
  {
    if cs != [] { PlainUpTo(cs[1..], s, cs[0].to, hi); }
  }

  /** The captures of a match lie in order between its start and its end. */
  lemma {:induction false} MatchPlain(rs: seq<Tree>, t: Tree, s: Subject, i: nat, fuel: nat)
    requires i <= |s| && PlainTree(t) && forall k :: 0 <= k < |rs| ==> PlainTree(rs[k])
    ensures var r := Match(rs, t, s, i, fuel); r.Ok? ==> AllPlain(r.caps, s, i, r.pos)
    decreases fuel, t
  {
    hide Plain;
    match t
    case TRep(p) =>
      MatchPlain(rs, p, s, i, fuel);
      var r := Match(rs, p, s, i, fuel);
      if r.Ok? && fuel > 0 {
        MatchPlain(rs, t, s, r.pos, fuel - 1);
        var r2 := Match(rs, t, s, r.pos, fuel - 1);
        if r2.Ok? { PlainConcat(r.caps, r2.caps, s, i, r.pos, r2.pos); }
      }
    case TSeq(p1, p2) =>
      MatchPlain(rs, p1, s, i, fuel);
      var r := Match(rs, p1, s, i, fuel);
      if r.Ok? {
        MatchPlain(rs, p2, s, r.pos, fuel);
        var r2 := Match(rs, p2, s, r.pos, fuel);
        if r2.Ok? { PlainConcat(r.caps, r2.caps, s, i, r.pos, r2.pos); }
      }
    case TChoice(p1, p2) => MatchPlain(rs, p1, s, i, fuel); MatchPlain(rs, p2, s, i, fuel);
    case TCapture(kind, key, p) =>
      MatchPlain(rs, p, s, i, fuel);
      var r := Match(rs, p, s, i, fuel);
      if r.Ok? { OnePlain(kind, key, p, s, i, r); }
    case TCall(n) => if n < |rs| && fuel > 0 { MatchPlain(rs, rs[n], s, i, fuel - 1); }
    case TGrammar(rules) => if |rules| > 0 { MatchPlain(rules, rules[0], s, i, fuel); }
    case _ =>
  }

  lemma OnePlain(kind: nat, key: nat, p: Tree, s: Subject, i: nat, r: Result)
    requires r.Ok? && i <= r.pos <= |s| && AllPlain(r.caps, s, i, r.pos) && PlainTree(TCapture(kind, key, p))
    requires p.TTrue? ==> r == Ok(i, [])
    ensures AllPlain([Cap(kind, key, i, r.pos, r.caps)], s, i, r.pos)
  {
    var c := Cap(kind, key, i, r.pos, r.caps);
    assert Plain(c, s);
    assert [c][1..] == [];
    assert AllPlain([], s, r.pos, r.pos);
  }
}
