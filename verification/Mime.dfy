/** The line wrapper and the decoder of mime.c, the three filters in the form they have there, and the pipeline. */
module Mime {
  import opened Common
  import opened QuotedPrintable

  // ---------- The wrapper ----------

  /** Output so far, and how much room is left on the line. */
  datatype Wrapping = Wrapping(out: seq<Byte>, left: int)

  /** One round of the loop of `qpwrp`. */
  function WrapByte(left: int, c: Byte, length: int): Wrapping {
    if c == CR then Wrapping([], left)
    else if c == LF then Wrapping([CR, LF], length)
    else if left <= (if c == EQ then 3 else 1) then Wrapping([EQ, CR, LF, c], length - 1)
    else Wrapping([c], left - 1)
  }

  function WrapRun(left: int, x: seq<Byte>, length: int): Wrapping
    decreases |x|
  {
    if x == [] then Wrapping([], left)
    else
      var w := WrapByte(left, x[0], length);
      var v := WrapRun(w.left, x[1..], length);
      Wrapping(w.out + v.out, v.left)
  }

  /** What wrapping does to one token. */
  function WrapToken(left: int, t: Token, length: int): (seq<Token>, int) {
    match t
    case Literal(_) => if left <= 1 then ([SoftBreak, t], length - 1) else ([t], left - 1)
    case Escape(_) => if left <= 3 then ([SoftBreak, t], length - 3) else ([t], left - 3)
    case LineBreak => ([t], length)
    case SoftBreak => (if left <= 3 then [SoftBreak, t] else [t], length)
  }

  function WrapTokens(left: int, ts: seq<Token>, length: int): (seq<Token>, int)
    decreases |ts|
  {
    if ts == [] then ([], left)
    else
      var (us, l) := WrapToken(left, ts[0], length);
      var (vs, l') := WrapTokens(l, ts[1..], length);
      (us + vs, l')
  }

  lemma {:induction false} WrapConcat(left: int, x: seq<Byte>, y: seq<Byte>, length: int)
    ensures var w := WrapRun(left, x, length);
      var v := WrapRun(w.left, y, length);
      WrapRun(left, x + y, length) == Wrapping(w.out + v.out, v.left)
    decreases |x|
  {
    if x == [] {
      assert x + y == y;
      assert [] + WrapRun(left, y, length).out == WrapRun(left, y, length).out;
    } else {
      assert (x + y)[0] == x[0] && (x + y)[1..] == x[1..] + y;
      var w := WrapByte(left, x[0], length);
      WrapConcat(w.left, x[1..], y, length);
      var v := WrapRun(w.left, x[1..], length);
      var u := WrapRun(v.left, y, length);
      assert w.out + (v.out + u.out) == w.out + v.out + u.out;
    }
  }

  lemma WrapOne(left: int, c: Byte, length: int)
    ensures WrapRun(left, [c], length) == WrapByte(left, c, length)
  {
    var w := WrapByte(left, c, length);
    assert [c][1..] == [];
    assert WrapRun(w.left, [], length) == Wrapping([], w.left);
    assert w.out + [] == w.out;
  }

  lemma WrapTwo(left: int, c: Byte, d: Byte, length: int)
    ensures var w := WrapByte(left, c, length);
      var v := WrapByte(w.left, d, length);
      WrapRun(left, [c, d], length) == Wrapping(w.out + v.out, v.left)
  {
    hide WrapRun;
    WrapOne(left, c, length);
    WrapOne(WrapByte(left, c, length).left, d, length);
    assert [c] + [d] == [c, d];
    WrapConcat(left, [c], [d], length);
  }

  lemma WrapThree(left: int, c: Byte, d: Byte, e: Byte, length: int)
    ensures var w := WrapByte(left, c, length);
      var v := WrapByte(w.left, d, length);
      var u := WrapByte(v.left, e, length);
      WrapRun(left, [c, d, e], length) == Wrapping(w.out + v.out + u.out, u.left)
  {
    hide WrapRun;
    WrapTwo(left, c, d, length);
    var w := WrapByte(left, c, length);
    WrapOne(WrapByte(w.left, d, length).left, e, length);
    assert [c, d] + [e] == [c, d, e];
    WrapConcat(left, [c, d], [e], length);
  }

  lemma TextsOne(t: Token)
    ensures Texts([t], CRLF) == Text(t, CRLF)
  {
    assert [t][1..] == [];
    assert Text(t, CRLF) + [] == Text(t, CRLF);
  }

  lemma TextsTwo(t: Token, u: Token)
    ensures Texts([t, u], CRLF) == Text(t, CRLF) + Text(u, CRLF)
  {
    assert [t, u][1..] == [u];
    TextsOne(u);
  }

  /** Wrapping the text of a token gives the text of tokens: no =XX is ever split. */
  lemma WrapText(left: int, t: Token, length: int)
    requires Clean(t) && length >= 4
    ensures var (us, l) := WrapToken(left, t, length);
      WrapRun(left, Text(t, CRLF), length) == Wrapping(Texts(us, CRLF), l)
  {
    hide WrapRun, Texts;
    TextsOne(t);
    TextsTwo(SoftBreak, t);
    match t
    case Literal(c) => WrapOne(left, c, length);
    case Escape(c) => WrapThree(left, EQ, Hex(c / 16), Hex(c % 16), length);
    case LineBreak => WrapTwo(left, CR, LF, length);
    case SoftBreak => WrapThree(left, EQ, CR, LF, length);
  }

  /** Wrapping encoded text gives the text of tokens with the same meaning. */
  lemma {:induction false} WrapTexts(left: int, ts: seq<Token>, length: int)
    requires AllClean(ts) && length >= 4
    ensures var (us, l) := WrapTokens(left, ts, length);
      && WrapRun(left, Texts(ts, CRLF), length) == Wrapping(Texts(us, CRLF), l)
      && AllClean(us) && Meanings(us) == Meanings(ts)
    decreases |ts|
  {
    hide WrapRun;
    if ts == [] {
      WrapNone(left, length);
    } else {
      var t, rest := ts[0], ts[1..];
      var (us, l) := WrapToken(left, t, length);
      var (vs, l') := WrapTokens(l, rest, length);
      WrapTexts(l, rest, length);
      WrapText(left, t, length);
      WrapConcat(left, Text(t, CRLF), Texts(rest, CRLF), length);
      TextsConcat(us, vs, CRLF);
      MeaningsConcat(us, vs);
      WrapMeaning(left, t, length);
    }
  }

  lemma WrapNone(left: int, length: int)
    ensures WrapRun(left, [], length) == Wrapping([], left)
  {
  }

  lemma WrapMeaning(left: int, t: Token, length: int)
    requires Clean(t)
    ensures var us := WrapToken(left, t, length).0; Meanings(us) == Meaning(t) && AllClean(us)
  {
    hide Meanings;
    MeaningsOne(t);
    MeaningsTwo(SoftBreak, t);
    assert [] + Meaning(t) == Meaning(t);
  }

  /** No line is longer than `length`, when `used` bytes stand on the first line already. */
  predicate LinesFit(ts: seq<Token>, used: int, length: int)
    decreases |ts|
  {
    if ts == [] then used <= length
    else
      match ts[0]
      case Literal(_) => LinesFit(ts[1..], used + 1, length)
      case Escape(_) => LinesFit(ts[1..], used + 3, length)
      case LineBreak => used <= length && LinesFit(ts[1..], 0, length)
      case SoftBreak => used + 1 <= length && LinesFit(ts[1..], 0, length)
  }

  /** Wrapped lines fit, and there is room for the soft break that ends them. */
  lemma {:induction false} WrapFits(left: int, ts: seq<Token>, length: int)
    requires length >= 4 && 1 <= left <= length
    ensures var (us, l) := WrapTokens(left, ts, length);
      && 1 <= l <= length
      && LinesFit(us, length - left, length)
      && LinesFit(us + [SoftBreak], length - left, length)
    decreases |ts|
  {
    if ts == [] {
      assert [] + [SoftBreak] == [SoftBreak];
    } else {
      var t := ts[0];
      var (us, l) := WrapToken(left, t, length);
      WrapFits(l, ts[1..], length);
      var (vs, l') := WrapTokens(l, ts[1..], length);
      assert us + vs + [SoftBreak] == us + (vs + [SoftBreak]);
      FitsAfter(left, t, vs, length);
      FitsAfter(left, t, vs + [SoftBreak], length);
    }
  }

  lemma FitsAfter(left: int, t: Token, vs: seq<Token>, length: int)
    requires length >= 4 && 1 <= left <= length
    requires LinesFit(vs, length - WrapToken(left, t, length).1, length)
    ensures LinesFit(WrapToken(left, t, length).0 + vs, length - left, length)
  {
    var us := [t] + vs;
    assert us[1..] == vs;
    var both := [SoftBreak, t] + vs;
    assert both[1..] == us;
  }

  /** What has to fit on a line before a soft break. The = of a soft break is taken for the beginning of an escape. */
  function Width(t: Token): nat {
    match t
    case Literal(_) => 1
    case Escape(_) => 3
    case LineBreak => 0
    case SoftBreak => 3
  }

  /** Wherever a line is broken, what comes next and the = of another soft break would have been too much for it. */
  predicate BreaksLate(ts: seq<Token>, used: int, length: int)
    decreases |ts|
  {
    |ts| <= 1 ||
    match ts[0]
    case Literal(_) => BreaksLate(ts[1..], used + 1, length)
    case Escape(_) => BreaksLate(ts[1..], used + 3, length)
    case LineBreak => BreaksLate(ts[1..], 0, length)
    case SoftBreak => used + Width(ts[1]) + 1 > length && BreaksLate(ts[1..], 0, length)
  }

  /** A soft break stands at the end only. */
  predicate SoftLast(ts: seq<Token>) {
    forall k :: 0 <= k < |ts| - 1 ==> !ts[k].SoftBreak?
  }

  lemma {:induction false} WrapLate(left: int, ts: seq<Token>, length: int)
    requires SoftLast(ts)
    ensures BreaksLate(WrapTokens(left, ts, length).0, length - left, length)
    decreases |ts|
  {
    if ts != [] {
      var t := ts[0];
      var (us, l) := WrapToken(left, t, length);
      WrapLate(l, ts[1..], length);
      var vs := WrapTokens(l, ts[1..], length).0;
      if |ts| == 1 { WrapTokensNone(l, length); }
      LateAfter(left, t, vs, length);
    }
  }

  lemma WrapTokensNone(left: int, length: int)
    ensures WrapTokens(left, [], length) == ([], left)
  {
  }

  lemma LateAfter(left: int, t: Token, vs: seq<Token>, length: int)
    requires BreaksLate(vs, length - WrapToken(left, t, length).1, length) && (t.SoftBreak? ==> vs == [])
    ensures BreaksLate(WrapToken(left, t, length).0 + vs, length - left, length)
  {
    var us := [t] + vs;
    assert us[1..] == vs;
    var both := [SoftBreak, t] + vs;
    assert both[1..] == us;
  }

  // ---------- The decoder ----------

  datatype Decoding = Decoding(out: seq<Byte>, pending: seq<Byte>)

  /** `qpdecode` with the bytes in its buffer. */
  function DecodeBuffer(p: seq<Byte>): Decoding
    requires p != []
  {
    if p[0] == EQ then
      if |p| < 3 then Decoding([], p)
      else if p[1] == CR && p[2] == LF then Decoding([], [])
      else
        var c, d := Unbase(p[1]), Unbase(p[2]);
        if c > 15 || d > 15 then Decoding(p[..3], []) else Decoding([16 * c + d], [])
    else if p[0] == CR then
      if |p| < 2 then Decoding([], p)
      else if p[1] == LF then Decoding(p[..2], []) else Decoding([], [])
    else if p[0] == TAB || 31 < p[0] < 127 then Decoding([p[0]], [])
    else Decoding([], [])
  }

  function DecodeRun(p: seq<Byte>, x: seq<Byte>): Decoding
    decreases |x|
  {
    if x == [] then Decoding([], p)
    else
      var d := DecodeBuffer(p + [x[0]]);
      var e := DecodeRun(d.pending, x[1..]);
      Decoding(d.out + e.out, e.pending)
  }

  lemma {:induction false} DecodeConcat(p: seq<Byte>, x: seq<Byte>, y: seq<Byte>)
    ensures var d := DecodeRun(p, x);
      var e := DecodeRun(d.pending, y);
      DecodeRun(p, x + y) == Decoding(d.out + e.out, e.pending)
    decreases |x|
  {
    if x == [] {
      assert x + y == y;
      assert [] + DecodeRun(p, y).out == DecodeRun(p, y).out;
    } else {
      assert (x + y)[0] == x[0] && (x + y)[1..] == x[1..] + y;
      var c := DecodeBuffer(p + [x[0]]);
      DecodeConcat(c.pending, x[1..], y);
      var d := DecodeRun(c.pending, x[1..]);
      var e := DecodeRun(d.pending, y);
      assert c.out + (d.out + e.out) == c.out + d.out + e.out;
    }
  }

  lemma DecodeOne(p: seq<Byte>, c: Byte)
    ensures DecodeRun(p, [c]) == DecodeBuffer(p + [c])
  {
    var d := DecodeBuffer(p + [c]);
    assert [c][1..] == [];
    assert DecodeRun(d.pending, []) == Decoding([], d.pending);
    assert d.out + [] == d.out;
  }

  /** What may be left pending. */
  predicate DecodePending(p: seq<Byte>) {
    p == [] || p == [CR] || (|p| <= 2 && p[0] == EQ)
  }

  lemma DecodeKeeps(p: seq<Byte>, c: Byte)
    requires DecodePending(p)
    ensures DecodePending(DecodeBuffer(p + [c]).pending)
  {
  }

  lemma {:induction false} DecodeRunKeeps(p: seq<Byte>, x: seq<Byte>)
    requires DecodePending(p)
    ensures DecodePending(DecodeRun(p, x).pending)
    decreases |x|
  {
    hide DecodePending, DecodeBuffer;
    if x != [] {
      DecodeKeeps(p, x[0]);
      DecodeRunKeeps(DecodeBuffer(p + [x[0]]).pending, x[1..]);
    }
  }

  lemma DecodeAgain(p: seq<Byte>)
    requires DecodePending(p)
    ensures DecodeRun([], p) == Decoding([], p)
  {
    hide DecodeRun;
    if p == [] {
      DecodeNone([]);
    } else if |p| == 1 {
      assert p == [p[0]] && [] + [p[0]] == p;
      DecodeOne([], p[0]);
    } else {
      assert [] + [p[0]] == [p[0]] && [p[0]] + [p[1]] == p;
      DecodeOne([], p[0]);
      DecodeOne([p[0]], p[1]);
      DecodeConcat([], [p[0]], [p[1]]);
    }
  }

  lemma DecodeNone(p: seq<Byte>)
    ensures DecodeRun(p, []) == Decoding([], p)
  {
  }

  lemma HexDigits(c: Byte)
    ensures Unbase(Hex(c / 16)) == c / 16 && Unbase(Hex(c % 16)) == c % 16
    ensures Hex(c / 16) != CR
  {
  }

  lemma DecodeThree(c: Byte, d: Byte)
    ensures DecodeRun([], [EQ, c, d]) == DecodeBuffer([EQ, c, d])
  {
    hide DecodeRun;
    assert [] + [EQ] == [EQ] && [EQ] + [c] == [EQ, c] && [EQ, c] + [d] == [EQ, c, d];
    DecodeOne([], EQ);
    DecodeOne([EQ], c);
    DecodeOne([EQ, c], d);
    DecodeConcat([], [EQ], [c]);
    DecodeConcat([], [EQ, c], [d]);
    assert [] + DecodeBuffer([EQ, c, d]).out == DecodeBuffer([EQ, c, d]).out;
  }

  lemma DecodeText(t: Token)
    requires Clean(t)
    ensures DecodeRun([], Text(t, CRLF)) == Decoding(Meaning(t), [])
  {
    hide DecodeRun;
    match t
    case Literal(c) =>
      assert [] + [c] == [c];
      DecodeOne([], c);
    case Escape(c) =>
      HexDigits(c);
      DecodeThree(Hex(c / 16), Hex(c % 16));
    case LineBreak =>
      assert [] + [CR] == [CR] && [CR] + [LF] == [CR, LF];
      DecodeOne([], CR);
      DecodeOne([CR], LF);
      DecodeConcat([], [CR], [LF]);
      assert [] + [CR, LF] == [CR, LF];
    case SoftBreak => DecodeThree(CR, LF);
  }

  /** Decoding gives the meaning of any text made of tokens. */
  lemma {:induction false} DecodeTexts(ts: seq<Token>)
    requires AllClean(ts)
    ensures DecodeRun([], Texts(ts, CRLF)) == Decoding(Meanings(ts), [])
    decreases |ts|
  {
    hide DecodeRun;
    if ts == [] {
      DecodeNone([]);
    } else {
      DecodeText(ts[0]);
      DecodeTexts(ts[1..]);
      DecodeConcat([], Text(ts[0], CRLF), Texts(ts[1..], CRLF));
    }
  }

  function DecodeChunks(p: seq<Byte>, chunks: seq<seq<Byte>>): Decoding
    decreases |chunks|
  {
    if chunks == [] then Decoding([], p)
    else
      var d := DecodeRun([], p + chunks[0]);
      var e := DecodeChunks(d.pending, chunks[1..]);
      Decoding(d.out + e.out, e.pending)
  }

  function WrapChunks(left: int, chunks: seq<seq<Byte>>, length: int): Wrapping
    decreases |chunks|
  {
    if chunks == [] then Wrapping([], left)
    else
      var w := WrapRun(left, chunks[0], length);
      var v := WrapChunks(w.left, chunks[1..], length);
      Wrapping(w.out + v.out, v.left)
  }

  lemma {:induction false} ChunksDecode(p: seq<Byte>, chunks: seq<seq<Byte>>)
    requires DecodePending(p)
    ensures DecodeChunks(p, chunks) == DecodeRun(p, Joined(chunks))
    decreases |chunks|
  {
    hide DecodePending, DecodeBuffer;
    if chunks != [] {
      DecodeAgain(p);
      DecodeConcat([], p, chunks[0]);
      var d := DecodeRun(p, chunks[0]);
      assert [] + d.out == d.out;
      DecodeRunKeeps(p, chunks[0]);
      ChunksDecode(d.pending, chunks[1..]);
      DecodeConcat(p, chunks[0], Joined(chunks[1..]));
    }
  }

  lemma {:induction false} ChunksWrap(left: int, chunks: seq<seq<Byte>>, length: int)
    ensures WrapChunks(left, chunks, length) == WrapRun(left, Joined(chunks), length)
    decreases |chunks|
  {
    if chunks != [] {
      ChunksWrap(WrapRun(left, chunks[0], length).left, chunks[1..], length);
      WrapConcat(left, chunks[0], Joined(chunks[1..]), length);
    }
  }

  // ---------- The pipeline ----------

  /** What the wrapper puts at the end of the input. */
  function WrapEnd(left: int, length: int): seq<Token> {
    if left < length then [SoftBreak] else []
  }

  predicate Break(t: Token) {
    t.LineBreak? || t.SoftBreak?
  }

  /** There is all the room of a line left exactly behind a break. */
  lemma {:induction false} RoomLeft(left: int, ts: seq<Token>, length: int)
    requires left <= length
    ensures var (us, l) := WrapTokens(left, ts, length);
      && l <= length
      && (ts == [] <==> us == []) && (ts != [] ==> us[|us| - 1] == ts[|ts| - 1])
      && (l == length <==> if ts == [] then left == length else Break(ts[|ts| - 1]))
    decreases |ts|
  {
    if ts != [] {
      var (us, l) := WrapToken(left, ts[0], length);
      RoomLeft(l, ts[1..], length);
    }
  }

  /** The wrapper ends with a soft break if and only if the last line is not empty. */
  lemma WrapEndExact(ts: seq<Token>, length: int)
    ensures var (us, l) := WrapTokens(length, ts, length);
      WrapEnd(l, length) == if us != [] && !Break(us[|us| - 1]) then [SoftBreak] else []
  {
    hide WrapTokens;
    RoomLeft(length, ts, length);
  }

  /** Encoding, wrapping and decoding any input, each with its input cut up in any way, gives the input back, leaves
      nothing pending, and no line in between is longer than `length`. */
  lemma Pipeline(input: seq<seq<Byte>>, encoded: seq<seq<Byte>>, wrapped: seq<seq<Byte>>, length: int)
    requires length >= 4
    requires var e := EncodeChunks([], input); Joined(encoded) == Texts(e.out + Pad(e.pending), CRLF)
    requires var w := WrapChunks(length, encoded, length);
      Joined(wrapped) == w.out + Texts(WrapEnd(w.left, length), CRLF)
    ensures DecodeChunks([], wrapped) == Decoding(Joined(input), [])
    ensures exists ts :: Joined(wrapped) == Texts(ts, CRLF) && AllClean(ts) && LinesFit(ts, 0, length)
  {
    hide EncodeChunks, DecodeChunks, WrapChunks, DecodeRun, EncodeRun, WrapRun, Joined, Texts, Meanings, Pad,
         WrapTokens, LinesFit;
    var x := Joined(input);
    ChunksEncode([], input);
    EncodedMeans(x);
    var ts := Encoded(x);
    ChunksWrap(length, encoded, length);
    WrapTexts(length, ts, length);
    WrapFits(length, ts, length);
    var (us, l) := WrapTokens(length, ts, length);
    var end := WrapEnd(l, length);
    var all := us + end;
    TextsConcat(us, end, CRLF);
    MeaningsConcat(us, end);
    EndMeans(l, length);
    assert Meanings(all) == x by { assert x + [] == x; }
    assert us + [] == us;
    DecodeTexts(all);
    ChunksDecode([], wrapped);
    assert Joined(wrapped) == Texts(all, CRLF) && AllClean(all) && LinesFit(all, 0, length);
  }

  lemma EndMeans(left: int, length: int)
    ensures Meanings(WrapEnd(left, length)) == [] && AllClean(WrapEnd(left, length))
  {
    MeaningsOne(SoftBreak);
  }

  /** Lines of at most three bytes cannot hold an =XX, and the wrapper then breaks it. */
  lemma NarrowBreaks(c: Byte, length: int)
    requires length <= 3
    ensures DecodeRun([], WrapRun(length, Text(Escape(c), CRLF), length).out).out != [c]
  {
    hide DecodeRun, WrapRun, DecodeBuffer;
    var h, l := Hex(c / 16), Hex(c % 16);
    WrapThree(length, EQ, h, l, length);
    var out := WrapRun(length, [EQ, h, l], length).out;
    if length == 3 {
      assert out == [EQ, CR, LF] + [EQ, h, EQ] + [CR, LF, l];
      BrokenAt(h, EQ, [CR, LF, l], c);
    } else {
      assert out[..3] == [EQ, CR, LF] && out[3..6] == [EQ, EQ, CR];
      assert out == [EQ, CR, LF] + [EQ, EQ, CR] + out[6..];
      BrokenAt(EQ, CR, out[6..], c);
    }
  }

  /** Something that is not =XX comes out as it is. */
  lemma BrokenAt(a: Byte, b: Byte, rest: seq<Byte>, c: Byte)
    requires Unbase(a) > 15 || Unbase(b) > 15
    requires !(a == CR && b == LF)
    ensures DecodeRun([], [EQ, CR, LF] + [EQ, a, b] + rest).out != [c]
  {
    hide DecodeRun;
    DecodeThree(CR, LF);
    DecodeThree(a, b);
    DecodeConcat([], [EQ, CR, LF], [EQ, a, b]);
    DecodeConcat([], [EQ, CR, LF] + [EQ, a, b], rest);
    assert [EQ, a, b][..3] == [EQ, a, b];
    assert DecodeRun([], [EQ, CR, LF] + [EQ, a, b]).out == [EQ, a, b];
  }

  // ---------- The filters as mime.c has them ----------

  /** mime.c's `qpencode`. `input` holds the bytes that are not decided yet, and the result is how many these are;
      `buffer` is what has been written. */
  method QpEncode(c: Byte, input: array<Byte>, size0: nat, marker: seq<Byte>, buffer0: seq<Byte>)
    returns (size: nat, buffer: seq<Byte>)
    requires input.Length == 3 && size0 <= 2 && Pending(input[..size0])
    modifies input
    ensures var e := Drain(old(input[..size0]) + [c]);
      size <= 2 && input[..size] == e.pending && Pending(e.pending) && buffer == buffer0 + Texts(e.out, marker)
  {
    hide Texts, Drain, Pending, StillToWrite;
    ghost var p := input[..size0] + [c];
    DrainKeeps(input[..size0], c);
    input[size0] := c;
    size, buffer := size0 + 1, buffer0;
    assert input[..size] == p;
    WriteBegin(buffer0, p, marker);
    while size > 0
      invariant size <= 3 && StillToWrite(buffer, input[..size], buffer0, p, marker)
      decreases size
    {
      ghost var q := input[..size];
      WriteNext(buffer, q, buffer0, p, marker);
      var b := input[0];
      match ClassOf(b) {
        case QPCr =>
          if size < 2 { return; }
          if input[1] == LF {
            buffer := buffer + marker;
            return 0, buffer;
          }
          buffer := buffer + Text(Escape(b), marker);
        case QPIfLast =>
          if size < 3 { return; }
          if input[1] == CR && input[2] == LF {
            buffer := buffer + Text(Escape(b), marker);
            buffer := buffer + marker;
            return 0, buffer;
          }
          buffer := buffer + [b];
        case QPQuoted => buffer := buffer + Text(Escape(b), marker);
        case QPPlain => buffer := buffer + [b];
      }
      input[0] := input[1];
      input[1] := input[2];
      size := size - 1;
      assert input[..size] == q[1..];
    }
    WriteEnd(buffer, buffer0, p, marker);
    assert input[..0] == [];
  }

  /** With `q` in the buffer, what is still to be written is what draining `q` gives. */
  ghost predicate StillToWrite(buffer: seq<Byte>, q: seq<Byte>, buffer0: seq<Byte>, p: seq<Byte>, marker: seq<Byte>) {
    && Drain(q).pending == Drain(p).pending
    && buffer + Texts(Drain(q).out, marker) == buffer0 + Texts(Drain(p).out, marker)
  }

  lemma WriteBegin(buffer: seq<Byte>, p: seq<Byte>, marker: seq<Byte>)
    ensures StillToWrite(buffer, p, buffer, p, marker)
  {
  }

  lemma WriteEnd(buffer: seq<Byte>, buffer0: seq<Byte>, p: seq<Byte>, marker: seq<Byte>)
    requires StillToWrite(buffer, [], buffer0, p, marker)
    ensures Drain(p).pending == [] && buffer == buffer0 + Texts(Drain(p).out, marker)
  {
    assert buffer + [] == buffer;
  }

  lemma WriteNext(buffer: seq<Byte>, q: seq<Byte>, buffer0: seq<Byte>, p: seq<Byte>, marker: seq<Byte>)
    requires 0 < |q| <= 3 && StillToWrite(buffer, q, buffer0, p, marker)
    ensures var all := buffer0 + Texts(Drain(p).out, marker);
      var t := if ClassOf(q[0]) == QPPlain || ClassOf(q[0]) == QPIfLast then Literal(q[0]) else Escape(q[0]);
      if (ClassOf(q[0]) == QPCr && |q| < 2) || (ClassOf(q[0]) == QPIfLast && |q| < 3) then
        Drain(p).pending == q && buffer == all
      else if ClassOf(q[0]) == QPCr && q[1] == LF then Drain(p).pending == [] && buffer + marker == all
      else if ClassOf(q[0]) == QPIfLast && q[1] == CR && q[2] == LF then
        Drain(p).pending == [] && buffer + Text(Escape(q[0]), marker) + marker == all
      else StillToWrite(buffer + Text(t, marker), q[1..], buffer0, p, marker)
  {
    hide Texts, Drain;
    DrainParts(q, marker);
    assert buffer + [] == buffer;
    assert buffer + (Text(Escape(q[0]), marker) + marker) == buffer + Text(Escape(q[0]), marker) + marker;
  }

  /** One round of the loop of `qpencode`. */
  lemma DrainParts(p: seq<Byte>, marker: seq<Byte>)
    requires 0 < |p| <= 3
    ensures var e := Drain(p);
      var t := if ClassOf(p[0]) == QPPlain || ClassOf(p[0]) == QPIfLast then Literal(p[0]) else Escape(p[0]);
      if (ClassOf(p[0]) == QPCr && |p| < 2) || (ClassOf(p[0]) == QPIfLast && |p| < 3) then
        e == Encoding([], p) && Texts(e.out, marker) == []
      else if ClassOf(p[0]) == QPCr && p[1] == LF then
        e.pending == [] && Texts(e.out, marker) == marker
      else if ClassOf(p[0]) == QPIfLast && p[1] == CR && p[2] == LF then
        e.pending == [] && Texts(e.out, marker) == Text(Escape(p[0]), marker) + marker
      else
        e.pending == Drain(p[1..]).pending && Texts(e.out, marker) == Text(t, marker) + Texts(Drain(p[1..]).out, marker)
  {
    assert [LineBreak][1..] == [] && marker + [] == marker;
    assert [Escape(p[0]), LineBreak][1..] == [LineBreak];
    assert Texts([LineBreak], marker) == marker;
    var e := Drain(p[1..]);
    assert ([Literal(p[0])] + e.out)[1..] == e.out && ([Escape(p[0])] + e.out)[1..] == e.out;
  }

  /** Feeds all of `x` to `qpencode`. */
  method QpEncodeAll(x: seq<Byte>, input: array<Byte>, size0: nat, marker: seq<Byte>, buffer0: seq<Byte>)
    returns (size: nat, buffer: seq<Byte>)
    requires input.Length == 3 && size0 <= 2 && Pending(input[..size0])
    modifies input
    ensures var e := EncodeRun(old(input[..size0]), x);
      size <= 2 && input[..size] == e.pending && Pending(e.pending) && buffer == buffer0 + Texts(e.out, marker)
  {
    hide Texts, Drain, Pending, EncodeRun;
    ghost var p, done := input[..size0], [];
    size, buffer := size0, buffer0;
    EncodeNothing(p, marker);
    for i := 0 to |x|
      invariant size <= 2 && Pending(input[..size])
      invariant EncodeRun(p, x[..i]) == Encoding(done, input[..size])
      invariant buffer == buffer0 + Texts(done, marker)
    {
      ghost var e := Drain(input[..size] + [x[i]]);
      EncodeOne(input[..size], x[i]);
      EncodeConcat(p, x[..i], [x[i]]);
      assert x[..i] + [x[i]] == x[..i + 1];
      TextsConcat(done, e.out, marker);
      size, buffer := QpEncode(x[i], input, size, marker, buffer);
      done := done + e.out;
    }
    assert x[..|x|] == x;
  }

  lemma EncodeNothing(p: seq<Byte>, marker: seq<Byte>)
    ensures EncodeRun(p, []) == Encoding([], p) && Texts([], marker) == []
  {
  }

  lemma EncodeOne(p: seq<Byte>, c: Byte)
    ensures EncodeRun(p, [c]) == Drain(p + [c])
  {
    hide Drain;
    var e := Drain(p + [c]);
    assert [c][1..] == [];
    assert EncodeRun(e.pending, []) == Encoding([], e.pending);
    assert e.out + [] == e.out;
  }

  /** mime.c's `qppad` */
  method QpPad(input: array<Byte>, size: nat, buffer0: seq<Byte>, marker: seq<Byte>) returns (buffer: seq<Byte>)
    requires size <= input.Length
    ensures buffer == buffer0 + Texts(Pad(input[..size]), marker)
  {
    hide Texts, PadEach;
    buffer := buffer0;
    ghost var p := input[..size];
    PadNothing(marker);
    assert p[0..] == p;
    for i := 0 to size
      invariant buffer + Texts(PadEach(p[i..]), marker) == buffer0 + Texts(PadEach(p), marker)
    {
      PadNext(p[i..], marker);
      assert p[i..][1..] == p[i + 1..];
      if ClassOf(input[i]) == QPPlain { buffer := buffer + [input[i]]; }
      else { buffer := buffer + Text(Escape(input[i]), marker); }
    }
    assert p[size..] == [];
    assert buffer + [] == buffer;
    if size > 0 {
      TextsConcat(PadEach(p), [SoftBreak], marker);
      SoftText(marker);
      buffer := buffer + [EQ, CR, LF];
    }
  }

  lemma SoftText(marker: seq<Byte>)
    ensures Texts([SoftBreak], marker) == [EQ, CR, LF]
  {
    assert [SoftBreak][1..] == [];
  }

  lemma PadNothing(marker: seq<Byte>)
    ensures PadEach([]) == [] && Texts([], marker) == []
  {
  }

  lemma PadNext(p: seq<Byte>, marker: seq<Byte>)
    requires p != []
    ensures var t := if ClassOf(p[0]) == QPPlain then Literal(p[0]) else Escape(p[0]);
      Texts(PadEach(p), marker) == Text(t, marker) + Texts(PadEach(p[1..]), marker)
  {
    assert PadEach(p)[1..] == PadEach(p[1..]);
  }

  /** What the end of input is answered with: nothing in place of a text that is empty as a C string. */
  function Answered(text: seq<Byte>): Option<seq<Byte>> {
    if text == [] || text[0] == 0 then None else Some(text)
  }

  /** A text that was decoded from the bytes that earlier calls left over is empty, so nothing is lost at the end of
      chunks. */
  lemma PendingAnswered(p: seq<Byte>)
    requires DecodePending(p)
    ensures DecodeRun([], p).out == []
  {
    DecodeAgain(p);
  }

  /** But a text decoded in one call is lost if it begins with a zero byte: "=00" stands for one. */
  lemma ZeroLost(x: seq<Byte>)
    ensures var d := DecodeRun([], [EQ, 48, 48] + x); d.out != [] && d.out[0] == 0 && Answered(d.out) == None
  {
    hide DecodeBuffer;
    DecodeConcat([], [EQ, 48, 48], x);
    ZeroBuffer();
    var s := [EQ, 48, 48];
    assert s[1..] == [48, 48] && s[2..] == [48];
    DecodeConcat([], [EQ, 48], [48]);
    DecodeConcat([], [EQ], [48]);
    assert [EQ] + [48] == [EQ, 48] && [EQ, 48] + [48] == s && [] + [EQ] == [EQ];
    DecodeOne([], EQ);
    DecodeOne([EQ], 48);
    DecodeOne([EQ, 48], 48);
  }

  lemma ZeroBuffer()
    ensures DecodeBuffer([EQ]) == Decoding([], [EQ]) && DecodeBuffer([EQ, 48]) == Decoding([], [EQ, 48])
    ensures DecodeBuffer([EQ, 48, 48]) == Decoding([0], [])
  {
    assert Unbase(48) == 0;
  }

  /** mime.c's `mime_global_qp`: encodes what an earlier call left over and the next chunk, or ends the input. */
  method Qp(first: Option<seq<Byte>>, second: Option<seq<Byte>>, marker: seq<Byte>)
    returns (out: Option<seq<Byte>>, rest: Option<seq<Byte>>)
    ensures first.None? ==> out == None && rest == None
    ensures first.Some? && second.Some? ==>
      var e := EncodeRun([], first.value + second.value); out == Some(Texts(e.out, marker)) && rest == Some(e.pending)
    ensures first.Some? && second.None? ==> out == Answered(Texts(Encoded(first.value), marker)) && rest == None
  {
    if first.None? { return None, None; }
    var text, left := QpText(first.value, second, marker);
    if second.None? { return Answered(text), None; }
    return Some(text), Some(left);
  }

  /** The work of `mime_global_qp`. */
  method QpText(first: seq<Byte>, second: Option<seq<Byte>>, marker: seq<Byte>)
    returns (out: seq<Byte>, rest: seq<Byte>)
    ensures second.Some? ==>
      var e := EncodeRun([], first + second.value); out == Texts(e.out, marker) && rest == e.pending
    ensures second.None? ==> out == Texts(Encoded(first), marker) && rest == []
  {
    hide Texts, EncodeRun, Pad;
    var atom := new Byte[3](_ => 0);
    assert atom[..0] == [];
    var asize;
    asize, out := QpEncodeAll(first, atom, 0, marker, []);
    ghost var e := EncodeRun([], first);
    assert [] + Texts(e.out, marker) == Texts(e.out, marker);
    if second.None? {
      out := QpPad(atom, asize, out, marker);
      TextsConcat(e.out, Pad(e.pending), marker);
      rest := [];
    } else {
      EncodeConcat([], first, second.value);
      TextsConcat(e.out, EncodeRun(e.pending, second.value).out, marker);
      asize, out := QpEncodeAll(second.value, atom, asize, marker, out);
      rest := atom[..asize];
    }
  }

  /** mime.c's `qpdecode` */
  method QpDecode(c0: Byte, input: array<Byte>, size0: nat, buffer0: seq<Byte>) returns (size: nat, buffer: seq<Byte>)
    requires input.Length == 3 && size0 <= 2 && DecodePending(input[..size0])
    modifies input
    ensures var d := DecodeBuffer(old(input[..size0]) + [c0]);
      size <= 2 && input[..size] == d.pending && DecodePending(d.pending) && buffer == buffer0 + d.out
  {
    ghost var p := input[..size0] + [c0];
    DecodeKeeps(input[..size0], c0);
    input[size0] := c0;
    size, buffer := size0 + 1, buffer0;
    assert input[..size] == p;
    assert buffer + [] == buffer;
    match input[0] {
      case 61 =>
        if size < 3 { return; }
        if input[1] == CR && input[2] == LF { return 0, buffer; }
        var c, d := Unbase(input[1]), Unbase(input[2]);
        buffer := buffer + if c > 15 || d > 15 then input[..3] else [16 * c + d];
        size := 0;
      case 13 =>
        if size < 2 { return; }
        if input[1] == LF { buffer := buffer + input[..2]; }
        size := 0;
      case b =>
        if b == TAB || 31 < b < 127 { buffer := buffer + [b]; }
        size := 0;
    }
  }

  method QpDecodeAll(x: seq<Byte>, input: array<Byte>, size0: nat, buffer0: seq<Byte>)
    returns (size: nat, buffer: seq<Byte>)
    requires input.Length == 3 && size0 <= 2 && DecodePending(input[..size0])
    modifies input
    ensures var d := DecodeRun(old(input[..size0]), x);
      size <= 2 && input[..size] == d.pending && DecodePending(d.pending) && buffer == buffer0 + d.out
  {
    hide DecodeBuffer, DecodePending, DecodeRun;
    ghost var p, done := input[..size0], [];
    size, buffer := size0, buffer0;
    DecodeNone(p);
    for i := 0 to |x|
      invariant size <= 2 && DecodePending(input[..size])
      invariant DecodeRun(p, x[..i]) == Decoding(done, input[..size])
      invariant buffer == buffer0 + done
    {
      ghost var d := DecodeBuffer(input[..size] + [x[i]]);
      DecodeOne(input[..size], x[i]);
      DecodeConcat(p, x[..i], [x[i]]);
      assert x[..i] + [x[i]] == x[..i + 1];
      size, buffer := QpDecode(x[i], input, size, buffer);
      done := done + d.out;
    }
    assert x[..|x|] == x;
  }

  /** mime.c's `mime_global_unqp` */
  method Unqp(first: Option<seq<Byte>>, second: Option<seq<Byte>>)
    returns (out: Option<seq<Byte>>, rest: Option<seq<Byte>>)
    ensures first.None? ==> out == None && rest == None
    ensures first.Some? && second.Some? ==>
      var d := DecodeRun([], first.value + second.value); out == Some(d.out) && rest == Some(d.pending)
    ensures first.Some? && second.None? ==> out == Answered(DecodeRun([], first.value).out) && rest == None
  {
    if first.None? { return None, None; }
    var text, left := UnqpText(first.value, second);
    if second.None? { return Answered(text), None; }
    return Some(text), Some(left);
  }

  /** The work of `mime_global_unqp`. */
  method UnqpText(first: seq<Byte>, second: Option<seq<Byte>>) returns (out: seq<Byte>, rest: seq<Byte>)
    ensures second.Some? ==> var d := DecodeRun([], first + second.value); out == d.out && rest == d.pending
    ensures second.None? ==> out == DecodeRun([], first).out && rest == []
  {
    hide DecodeRun;
    var atom := new Byte[3](_ => 0);
    assert atom[..0] == [];
    var asize;
    asize, out := QpDecodeAll(first, atom, 0, []);
    rest := [];
    if second.Some? {
      DecodeConcat([], first, second.value);
      asize, out := QpDecodeAll(second.value, atom, asize, out);
      rest := atom[..asize];
    }
  }

  /** mime.c's `mime_global_qpwrp` */
  method Qpwrp(left0: int, input: Option<seq<Byte>>, length: int) returns (out: Option<seq<Byte>>, left: int)
    ensures input.Some? ==> out.Some? && Wrapping(out.value, left) == WrapRun(left0, input.value, length)
    ensures input.None? ==> out == Answered(Texts(WrapEnd(left0, length), CRLF)) && left == length
  {
    if input.None? {
      TextsOne(SoftBreak);
      return if left0 < length then Some([EQ, CR, LF]) else None, length;
    }
    var text;
    text, left := QpwrpText(left0, input.value, length);
    out := Some(text);
  }

  /** The loop of `mime_global_qpwrp`. */
  method QpwrpText(left0: int, input: seq<Byte>, length: int) returns (out: seq<Byte>, left: int)
    ensures Wrapping(out, left) == WrapRun(left0, input, length)
  {
    hide WrapRun;
    left, out := left0, [];
    WrapNone(left0, length);
    for i := 0 to |input|
      invariant WrapRun(left0, input[..i], length) == Wrapping(out, left)
    {
      var c := input[i];
      WrapOne(left, c, length);
      WrapConcat(left0, input[..i], [c], length);
      assert input[..i] + [c] == input[..i + 1];
      if c == LF {
        left := length;
        out := out + [CR, LF];
      } else if c == EQ {
        if left <= 3 {
          left := length;
          out := out + [EQ, CR, LF];
        }
        out := out + [c];
        left := left - 1;
      } else if c != CR {
        if left <= 1 {
          left := length;
          out := out + [EQ, CR, LF];
        }
        out := out + [c];
        left := left - 1;
      }
    }
    assert input[..|input|] == input;
  }
}
