/** The quoted-printable filters of LuaSocket's mime.c (section 6.7 of RFC 2045): encoder, line wrapper and decoder as
    machines that see one byte at a time, and what a pipeline of them does. */
module QuotedPrintable {
  import opened Common

  const TAB: Byte := 9
  const LF: Byte := 10
  const CR: Byte := 13
  const SPACE: Byte := 32
  const EQ: Byte := 61

  datatype Class = QPPlain | QPQuoted | QPIfLast | QPCr

  /** The table `qpclass`. */
  function ClassOf(c: Byte): Class {
    if 33 <= c <= 60 || 62 <= c <= 126 then QPPlain
    else if c == TAB || c == SPACE then QPIfLast
    else if c == CR then QPCr
    else QPQuoted
  }

  /** The table `qpbase`. */
  function Hex(n: nat): Byte
    requires n < 16
  {
    if n < 10 then 48 + n else 55 + n
  }

  /** The table `qpunbase`; 255 for what is not a digit. */
  function Unbase(c: Byte): Byte {
    if 48 <= c <= 57 then c - 48
    else if 65 <= c <= 70 then c - 55
    else if 97 <= c <= 102 then c - 87
    else 255
  }

  // ---------- Tokens ----------

  /** What encoded text is made of: a byte as it is, a byte as =XX, the marker for a line break, a soft line break. */
  datatype Token = Literal(c: Byte) | Escape(c: Byte) | LineBreak | SoftBreak

  const CRLF: seq<Byte> := [CR, LF]

  function Text(t: Token, marker: seq<Byte>): seq<Byte> {
    match t
    case Literal(c) => [c]
    case Escape(c) => [EQ, Hex(c / 16), Hex(c % 16)]
    case LineBreak => marker
    case SoftBreak => [EQ, CR, LF]
  }

  function Texts(ts: seq<Token>, marker: seq<Byte>): seq<Byte> {
    if ts == [] then [] else Text(ts[0], marker) + Texts(ts[1..], marker)
  }

  /** The bytes that a token stands for. */
  function Meaning(t: Token): seq<Byte> {
    match t
    case Literal(c) => [c]
    case Escape(c) => [c]
    case LineBreak => [CR, LF]
    case SoftBreak => []
  }

  function Meanings(ts: seq<Token>): seq<Byte> {
    if ts == [] then [] else Meaning(ts[0]) + Meanings(ts[1..])
  }

  lemma {:induction false} TextsConcat(a: seq<Token>, b: seq<Token>, marker: seq<Byte>)
    ensures Texts(a + b, marker) == Texts(a, marker) + Texts(b, marker)
    decreases |a|
  {
    if a == [] {
      assert a + b == b;
    } else {
      assert (a + b)[1..] == a[1..] + b;
      TextsConcat(a[1..], b, marker);
    }
  }

  lemma {:induction false} MeaningsConcat(a: seq<Token>, b: seq<Token>)
    ensures Meanings(a + b) == Meanings(a) + Meanings(b)
    decreases |a|
  {
    if a == [] {
      assert a + b == b;
    } else {
      assert (a + b)[1..] == a[1..] + b;
      MeaningsConcat(a[1..], b);
    }
  }

  /** Only bytes that may appear as they are do. */
  predicate Clean(t: Token) {
    t.Literal? ==> ClassOf(t.c) == QPPlain || ClassOf(t.c) == QPIfLast
  }

  predicate AllClean(ts: seq<Token>) {
    forall k :: 0 <= k < |ts| ==> Clean(ts[k])
  }

  // ---------- The encoder ----------

  /** Tokens that are decided, and bytes that are not. */
  datatype Encoding = Encoding(out: seq<Token>, pending: seq<Byte>)

  /** The loop of `qpencode`. */
  function Drain(p: seq<Byte>): Encoding
    decreases |p|
  {
    if p == [] then Encoding([], [])
    else
      match ClassOf(p[0])
      case QPCr =>
        if |p| < 2 then Encoding([], p)
        else if p[1] == LF then Encoding([LineBreak], [])
        else Emit(Escape(p[0]), Drain(p[1..]))
      case QPIfLast =>
        if |p| < 3 then Encoding([], p)
        else if p[1] == CR && p[2] == LF then Encoding([Escape(p[0]), LineBreak], [])
        else Emit(Literal(p[0]), Drain(p[1..]))
      case QPQuoted => Emit(Escape(p[0]), Drain(p[1..]))
      case QPPlain => Emit(Literal(p[0]), Drain(p[1..]))
  }

  function Emit(t: Token, e: Encoding): Encoding {
    Encoding([t] + e.out, e.pending)
  }

  /** What may be left pending. */
  predicate Pending(p: seq<Byte>) {
    p == [] || p == [CR] || (|p| <= 2 && ClassOf(p[0]) == QPIfLast)
  }

  /** Encoding input with `p` pending before it. */
  function EncodeRun(p: seq<Byte>, x: seq<Byte>): Encoding
    decreases |x|
  {
    if x == [] then Encoding([], p)
    else
      var e := Drain(p + [x[0]]);
      var f := EncodeRun(e.pending, x[1..]);
      Encoding(e.out + f.out, f.pending)
  }

  /** `qppad`: what is pending when the input ends. */
  function Pad(p: seq<Byte>): seq<Token> {
    if p == [] then []
    else PadEach(p) + [SoftBreak]
  }

  function PadEach(p: seq<Byte>): seq<Token> {
    if p == [] then []
    else [if ClassOf(p[0]) == QPPlain then Literal(p[0]) else Escape(p[0])] + PadEach(p[1..])
  }

  /** The encoded form of a whole input. */
  function Encoded(x: seq<Byte>): seq<Token> {
    var e := EncodeRun([], x);
    e.out + Pad(e.pending)
  }

  /** The last token is a blank that stands as it is. */
  predicate EndsBlank(ts: seq<Token>) {
    |ts| > 0 && ts[|ts| - 1].Literal? && ClassOf(ts[|ts| - 1].c) == QPIfLast
  }

  /** No blank stands as it is in front of a line break. */
  predicate NoTrailingBlank(ts: seq<Token>) {
    forall k :: 0 < k < |ts| && ts[k].LineBreak? ==> !EndsBlank(ts[..k])
  }

  /** What one byte does: nothing is lost, and what stays pending is one of the expected forms. */
  lemma DrainKeeps(p: seq<Byte>, c: Byte)
    requires Pending(p)
    ensures var e := Drain(p + [c]);
      && Pending(e.pending) && AllClean(e.out)
      && Meanings(e.out) + e.pending == p + [c]
  {
    var q := p + [c];
    if p == [] {
      DrainOne(c);
      assert q == [c];
    } else if |p| == 1 {
      assert q == [p[0], c];
      DrainTwo(p[0], c);
    } else {
      assert q == [p[0], p[1], c];
      DrainThree(p[0], p[1], c);
    }
  }

  lemma MeaningsOne(t: Token)
    ensures Meanings([t]) == Meaning(t)
  {
    assert [t][1..] == [];
    assert Meaning(t) + [] == Meaning(t);
  }

  lemma DrainOne(c: Byte)
    ensures var e := Drain([c]);
      Pending(e.pending) && AllClean(e.out) && |e.out| <= 1 && Meanings(e.out) + e.pending == [c]
    ensures var e := Drain([c]);
      if ClassOf(c) == QPCr || ClassOf(c) == QPIfLast then e == Encoding([], [c]) else e.pending == []
  {
    assert [c][1..] == [];
    assert [Literal(c)] + [] == [Literal(c)] && [Escape(c)] + [] == [Escape(c)];
    MeaningsOne(Literal(c));
    MeaningsOne(Escape(c));
  }

  lemma EmitMeans(t: Token, e: Encoding)
    ensures Meanings(Emit(t, e).out) == Meaning(t) + Meanings(e.out)
    ensures Clean(t) && AllClean(e.out) ==> AllClean(Emit(t, e).out)
  {
    assert Emit(t, e).out[1..] == e.out;
  }

  lemma DrainTwo(b: Byte, c: Byte)
    ensures var e := Drain([b, c]); Pending(e.pending) && AllClean(e.out) && Meanings(e.out) + e.pending == [b, c]
  {
    hide Meanings;
    assert [b, c][1..] == [c];
    DrainOne(c);
    EmitMeans(Literal(b), Drain([c]));
    EmitMeans(Escape(b), Drain([c]));
    MeaningsOne(LineBreak);
    assert Meanings([]) == [] by { NoMeaning(); }
  }

  lemma NoMeaning()
    ensures Meanings([]) == []
  {
  }

  lemma DrainThree(a: Byte, b: Byte, c: Byte)
    requires ClassOf(a) == QPIfLast
    ensures var e := Drain([a, b, c]); Pending(e.pending) && AllClean(e.out) && Meanings(e.out) + e.pending == [a, b, c]
  {
    hide Meanings;
    assert [a, b, c][1..] == [b, c];
    DrainTwo(b, c);
    EmitMeans(Literal(a), Drain([b, c]));
    MeaningsTwo(Escape(a), LineBreak);
  }

  lemma MeaningsTwo(t: Token, u: Token)
    ensures Meanings([t, u]) == Meaning(t) + Meaning(u)
  {
    assert [t, u][1..] == [u];
    MeaningsOne(u);
  }

  /** No byte is lost or changed by the encoder. */
  lemma {:induction false} EncodeKeeps(p: seq<Byte>, x: seq<Byte>)
    requires Pending(p)
    ensures var e := EncodeRun(p, x);
      Pending(e.pending) && AllClean(e.out) && Meanings(e.out) + e.pending == p + x
    decreases |x|
  {
    hide Drain, Pending, Meanings;
    if x == [] {
      NoMeaning();
      assert p + x == p && [] + p == p;
    } else {
      DrainKeeps(p, x[0]);
      var e := Drain(p + [x[0]]);
      EncodeKeeps(e.pending, x[1..]);
      var f := EncodeRun(e.pending, x[1..]);
      MeaningsConcat(e.out, f.out);
      Regroup(Meanings(e.out), e.pending, p, x, Meanings(f.out), f.pending);
    }
  }

  lemma Regroup(m: seq<Byte>, q: seq<Byte>, p: seq<Byte>, x: seq<Byte>, n: seq<Byte>, r: seq<Byte>)
    requires x != [] && m + q == p + [x[0]] && n + r == q + x[1..]
    ensures m + n + r == p + x
  {
    assert m + n + r == m + (q + x[1..]);
    assert m + (q + x[1..]) == (p + [x[0]]) + x[1..];
    assert x == [x[0]] + x[1..];
  }

  lemma {:induction false} PadKeeps(p: seq<Byte>)
    ensures Meanings(PadEach(p)) == p && AllClean(PadEach(p))
    decreases |p|
  {
    if p != [] {
      PadKeeps(p[1..]);
      assert PadEach(p)[1..] == PadEach(p[1..]);
    }
  }

  /** The encoded text stands for the input. */
  lemma EncodedMeans(x: seq<Byte>)
    ensures Meanings(Encoded(x)) == x && AllClean(Encoded(x))
  {
    hide EncodeRun, PadEach, Meanings;
    var e := EncodeRun([], x);
    EncodeKeeps([], x);
    assert [] + x == x;
    PadKeeps(e.pending);
    MeaningsConcat(e.out, Pad(e.pending));
    MeaningsConcat(PadEach(e.pending), [SoftBreak]);
    MeaningsOne(SoftBreak);
    NoMeaning();
    assert e.pending + [] == e.pending;
  }

  // ---------- Chunks ----------

  /** Where the input is cut does not matter. */
  lemma {:induction false} EncodeConcat(p: seq<Byte>, x: seq<Byte>, y: seq<Byte>)
    ensures var e := EncodeRun(p, x);
      var f := EncodeRun(e.pending, y);
      EncodeRun(p, x + y) == Encoding(e.out + f.out, f.pending)
    decreases |x|
  {
    if x == [] {
      assert x + y == y;
      assert [] + EncodeRun(p, y).out == EncodeRun(p, y).out;
    } else {
      assert (x + y)[0] == x[0] && (x + y)[1..] == x[1..] + y;
      EncodeConcat(Drain(p + [x[0]]).pending, x[1..], y);
      var d := Drain(p + [x[0]]);
      var e := EncodeRun(d.pending, x[1..]);
      var f := EncodeRun(e.pending, y);
      assert d.out + (e.out + f.out) == d.out + e.out + f.out;
    }
  }

  /** What was left pending can be fed again. */
  lemma EncodeAgain(p: seq<Byte>)
    requires Pending(p)
    ensures EncodeRun([], p) == Encoding([], p)
  {
    if |p| >= 1 {
      assert [] + [p[0]] == [p[0]];
      assert p[1..] == if |p| == 1 then [] else [p[1]];
      if |p| == 1 {
        assert p == [p[0]];
      } else {
        assert [p[0]] + [p[1]] == p;
        assert [p[1]][1..] == [];
        assert EncodeRun([p[0]], [p[1]]) == Encoding([], p);
      }
    }
  }

  /** A chain of calls of `qp`, each with what the one before left over and the next chunk. */
  function EncodeChunks(p: seq<Byte>, chunks: seq<seq<Byte>>): Encoding
    decreases |chunks|
  {
    if chunks == [] then Encoding([], p)
    else
      var e := EncodeRun([], p + chunks[0]);
      var f := EncodeChunks(e.pending, chunks[1..]);
      Encoding(e.out + f.out, f.pending)
  }

  function Joined(chunks: seq<seq<Byte>>): seq<Byte> {
    if chunks == [] then [] else chunks[0] + Joined(chunks[1..])
  }

  lemma {:induction false} ChunksEncode(p: seq<Byte>, chunks: seq<seq<Byte>>)
    requires Pending(p)
    ensures EncodeChunks(p, chunks) == EncodeRun(p, Joined(chunks))
    decreases |chunks|
  {
    hide Pending, Drain;
    if chunks != [] {
      EncodeAgain(p);
      EncodeConcat([], p, chunks[0]);
      var e := EncodeRun(p, chunks[0]);
      assert [] + e.out == e.out;
      EncodeKeeps(p, chunks[0]);
      ChunksEncode(e.pending, chunks[1..]);
      EncodeConcat(p, chunks[0], Joined(chunks[1..]));
    }
  }

  // ---------- Blanks at the end of a line ----------

  /** The state in between: a blank that stands as it is has something other than a line break after it. */
  predicate Between(ts: seq<Token>, p: seq<Byte>) {
    NoTrailingBlank(ts) && (EndsBlank(ts) ==> p != [] && p[0] != CR)
  }

  lemma Append(ts: seq<Token>, t: Token)
    requires NoTrailingBlank(ts) && (t.LineBreak? ==> !EndsBlank(ts))
    ensures NoTrailingBlank(ts + [t])
    ensures EndsBlank(ts + [t]) <==> t.Literal? && ClassOf(t.c) == QPIfLast
  {
    var us := ts + [t];
    forall k | 0 < k < |us| && us[k].LineBreak?
      ensures !EndsBlank(us[..k])
    {
      if k < |ts| { assert us[..k] == ts[..k] && us[k] == ts[k]; } else { assert us[..k] == ts; }
    }
  }

  /** Draining keeps that up, whatever was written before. */
  lemma {:induction false} DrainBetween(ts: seq<Token>, p: seq<Byte>)
    requires Between(ts, p) && |p| <= 3
    requires |p| == 3 ==> ClassOf(p[0]) == QPIfLast
    ensures var e := Drain(p); Between(ts + e.out, e.pending)
    decreases |p|
  {
    hide NoTrailingBlank;
    if p == [] {
      assert ts + [] == ts;
    } else {
      var c := ClassOf(p[0]);
      if (c.QPCr? && |p| < 2) || (c.QPIfLast? && |p| < 3) {
        assert ts + [] == ts;
      } else if c.QPCr? && p[1] == LF {
        Append(ts, LineBreak);
      } else if c.QPIfLast? && p[1] == CR && p[2] == LF {
        Append(ts, Escape(p[0]));
        Append(ts + [Escape(p[0])], LineBreak);
        assert ts + [Escape(p[0]), LineBreak] == ts + [Escape(p[0])] + [LineBreak];
      } else {
        var t := if c.QPPlain? || c.QPIfLast? then Literal(p[0]) else Escape(p[0]);
        Append(ts, t);
        var e := Drain(p[1..]);
        assert ts + ([t] + e.out) == ts + [t] + e.out;
        if c.QPIfLast? && p[1] == CR {
          // the carriage return is not one of a line break, and is written at once
          Append(ts + [t], Escape(CR));
          var rest := Drain(p[2..]);
          assert p[1..][1..] == p[2..];
          assert e == Emit(Escape(CR), rest);
          DrainBetween(ts + [t] + [Escape(CR)], p[2..]);
          assert ts + [t] + ([Escape(CR)] + rest.out) == ts + [t] + [Escape(CR)] + rest.out;
        } else {
          DrainBetween(ts + [t], p[1..]);
        }
      }
    }
  }

  lemma {:induction false} RunBetween(ts: seq<Token>, p: seq<Byte>, x: seq<Byte>)
    requires Pending(p) && Between(ts, p)
    ensures var e := EncodeRun(p, x); Between(ts + e.out, e.pending)
    decreases |x|
  {
    hide Drain, NoTrailingBlank;
    if x == [] {
      assert ts + [] == ts;
    } else {
      var q := p + [x[0]];
      var d := Drain(q);
      assert Between(ts, q);
      DrainBetween(ts, q);
      DrainKeeps(p, x[0]);
      RunBetween(ts + d.out, d.pending, x[1..]);
      var f := EncodeRun(d.pending, x[1..]);
      assert ts + (d.out + f.out) == ts + d.out + f.out;
    }
  }

  lemma {:induction false} PadBetween(ts: seq<Token>, p: seq<Byte>)
    requires NoTrailingBlank(ts)
    ensures NoTrailingBlank(ts + PadEach(p)) && (EndsBlank(ts + PadEach(p)) ==> EndsBlank(ts) && p == [])
    decreases |p|
  {
    hide NoTrailingBlank;
    if p == [] {
      assert ts + [] == ts;
    } else {
      var t := if ClassOf(p[0]) == QPPlain then Literal(p[0]) else Escape(p[0]);
      assert PadEach(p) == [t] + PadEach(p[1..]);
      hide PadEach;
      Append(ts, t);
      PadBetween(ts + [t], p[1..]);
      assert ts + ([t] + PadEach(p[1..])) == ts + [t] + PadEach(p[1..]);
    }
  }

  /** In encoded text no line, and not the whole text, ends in a blank that stands as it is. */
  lemma BlanksQuoted(x: seq<Byte>)
    ensures NoTrailingBlank(Encoded(x)) && !EndsBlank(Encoded(x))
  {
    hide EncodeRun, PadEach;
    var e := EncodeRun([], x);
    RunBetween([], [], x);
    assert [] + e.out == e.out;
    if e.pending == [] {
      assert e.out + [] == e.out;
    } else {
      PadBetween(e.out, e.pending);
      Append(e.out + PadEach(e.pending), SoftBreak);
      assert e.out + (PadEach(e.pending) + [SoftBreak]) == e.out + PadEach(e.pending) + [SoftBreak];
    }
  }
}
