/** What the quoted-printable filters have to do, said about whole texts and not about a machine that sees one byte at a
    time: which pieces any text consists of for the decoder, and what the encoder makes of each byte in its place. */
module QpTexts {
  import opened Common
  import opened QuotedPrintable
  import opened Mime

  // ---------- The decoder ----------

  /** An escape with two digits, one with something else behind the =, a soft line break, a line break, a carriage
      return with something else behind it, and any other byte. */
  datatype Piece = Hexed(c: Byte, d: Byte) | Broken(c: Byte, d: Byte) | Soft | Line | Stray(c: Byte) | Single(c: Byte)

  /** What a hexadecimal digit of either case is worth. */
  function Worth(c: Byte): Option<nat> {
    if '0' as int <= c <= '9' as int then Some(c - '0' as int)
    else if 'A' as int <= c <= 'F' as int then Some(c - 'A' as int + 10)
    else if 'a' as int <= c <= 'f' as int then Some(c - 'a' as int + 10)
    else None
  }

  const EOL: seq<Byte> := ['\r' as int, '\n' as int]

  predicate PieceOk(p: Piece) {
    match p
    case Hexed(c, d) => Worth(c).Some? && Worth(d).Some?
    case Broken(c, d) => !(Worth(c).Some? && Worth(d).Some?) && [c, d] != EOL
    case Stray(c) => c != '\n' as int
    case Single(c) => c != '\r' as int && c != '=' as int
    case _ => true
  }

  function Spelled(p: Piece): seq<Byte> {
    match p
    case Hexed(c, d) => ['=' as int, c, d]
    case Broken(c, d) => ['=' as int, c, d]
    case Soft => ['=' as int] + EOL
    case Line => EOL
    case Stray(c) => ['\r' as int, c]
    case Single(c) => [c]
  }

  /** Broken escapes come out as they are; stray carriage returns take the next byte with them; control characters other
      than tabs, and bytes with eight bits, are dropped. */
  function PieceMeans(p: Piece): seq<Byte> {
    match p
    case Hexed(c, d) => if Worth(c).Some? && Worth(d).Some? then [16 * Worth(c).value + Worth(d).value] else []
    case Broken(c, d) => ['=' as int, c, d]
    case Soft => []
    case Line => EOL
    case Stray(_) => []
    case Single(c) => if c == '\t' as int || ' ' as int <= c <= '~' as int then [c] else []
  }

  predicate PiecesOk(ps: seq<Piece>) {
    forall k :: 0 <= k < |ps| ==> PieceOk(ps[k])
  }

  function AllSpelled(ps: seq<Piece>): seq<Byte> {
    if ps == [] then [] else Spelled(ps[0]) + AllSpelled(ps[1..])
  }

  function PiecesMean(ps: seq<Piece>): seq<Byte> {
    if ps == [] then [] else PieceMeans(ps[0]) + PiecesMean(ps[1..])
  }

  /** The beginning of a piece that is not complete. */
  predicate Unfinished(rest: seq<Byte>) {
    rest == [] || rest == ['\r' as int] || (|rest| <= 2 && rest[0] == '=' as int)
  }

  lemma WorthIs(c: Byte)
    ensures Worth(c) == if Unbase(c) > 15 then None else Some(Unbase(c))
  {
  }

  lemma DecodePiece(p: Piece)
    requires PieceOk(p)
    ensures DecodeRun([], Spelled(p)) == Decoding(PieceMeans(p), [])
  {
    hide DecodeRun, Unbase, Worth;
    match p
    case Hexed(c, d) => WorthIs(c); WorthIs(d); CrDigit(); DecodeThree(c, d);
    case Broken(c, d) => WorthIs(c); WorthIs(d); DecodeThree(c, d);
    case Soft =>
      assert Spelled(p) == Text(SoftBreak, CRLF);
      DecodeText(SoftBreak);
    case Line => DecodeText(LineBreak);
    case Stray(c) =>
      assert [] + [CR] == [CR] && [CR] + [c] == [CR, c];
      DecodeOne([], CR);
      DecodeOne([CR], c);
      DecodeConcat([], [CR], [c]);
    case Single(c) =>
      assert [] + [c] == [c];
      DecodeOne([], c);
  }

  lemma CrDigit()
    ensures Worth(CR).None?
  {
  }

  /** Any text of such pieces is decoded to what they mean, and what is not complete is left over. */
  lemma {:induction false} DecodePieces(ps: seq<Piece>, rest: seq<Byte>)
    requires PiecesOk(ps) && Unfinished(rest)
    ensures DecodeRun([], AllSpelled(ps) + rest) == Decoding(PiecesMean(ps), rest)
    decreases |ps|
  {
    hide DecodeRun, PieceOk, Spelled, PieceMeans;
    if ps == [] {
      assert AllSpelled(ps) + rest == rest;
      DecodeAgain(rest);
    } else {
      assert AllSpelled(ps) + rest == Spelled(ps[0]) + (AllSpelled(ps[1..]) + rest);
      DecodePiece(ps[0]);
      DecodePieces(ps[1..], rest);
      DecodeConcat([], Spelled(ps[0]), AllSpelled(ps[1..]) + rest);
    }
  }

  /** Every text consists of such pieces and one that may be incomplete. */
  lemma {:induction false} PiecesFound(x: seq<Byte>) returns (ps: seq<Piece>, rest: seq<Byte>)
    ensures PiecesOk(ps) && Unfinished(rest) && x == AllSpelled(ps) + rest
    decreases |x|
  {
    hide Worth, AllSpelled;
    NoPieces();
    ps, rest := [], x;
    if !Unfinished(x) {
      var p := if x[0] != '=' as int && x[0] != CR then Single(x[0])
        else if x[0] == CR then if x[1] == LF then Line else Stray(x[1])
        else if x[1..3] == CRLF then Soft
        else if Worth(x[1]).Some? && Worth(x[2]).Some? then Hexed(x[1], x[2])
        else Broken(x[1], x[2]);
      CrDigit();
      var n := |Spelled(p)|;
      assert x[..n] == Spelled(p);
      ps, rest := PiecesFound(x[n..]);
      PieceFirst(p, ps);
      assert x == x[..n] + x[n..];
      assert x == Spelled(p) + (AllSpelled(ps) + rest) == (Spelled(p) + AllSpelled(ps)) + rest;
      ps := [p] + ps;
    }
  }

  lemma NoPieces()
    ensures AllSpelled([]) == []
  {
  }

  lemma PieceFirst(p: Piece, ps: seq<Piece>)
    ensures AllSpelled([p] + ps) == Spelled(p) + AllSpelled(ps)
  {
    assert ([p] + ps)[1..] == ps;
  }

  /** So the decoder gives `out` with `rest` left over if and only if the text can be read in that way. */
  lemma DecodesExactly(x: seq<Byte>, out: seq<Byte>, rest: seq<Byte>)
    ensures DecodeRun([], x) == Decoding(out, rest) <==>
      exists ps :: PiecesOk(ps) && Unfinished(rest) && x == AllSpelled(ps) + rest && PiecesMean(ps) == out
  {
    hide DecodeRun, PiecesOk, Unfinished, AllSpelled, PiecesMean;
    var ps, r := PiecesFound(x);
    DecodePieces(ps, r);
    if qs :| PiecesOk(qs) && Unfinished(rest) && x == AllSpelled(qs) + rest && PiecesMean(qs) == out {
      DecodePieces(qs, rest);
    }
  }

  // ---------- The encoder ----------

  predicate Printable(c: Byte) {
    '!' as int <= c <= '~' as int && c != '=' as int
  }

  predicate Blank(c: Byte) {
    c == ' ' as int || c == '\t' as int
  }

  /** The input ends too soon to tell what its first byte needs. */
  predicate Stuck(x: seq<Byte>) {
    x == ['\r' as int] || (0 < |x| < 3 && Blank(x[0]))
  }

  function Each(x: seq<Byte>): seq<Token> {
    if x == [] then [] else [if Printable(x[0]) then Literal(x[0]) else Escape(x[0])] + Each(x[1..])
  }

  /** Line breaks stay. A byte stands as it is if it is printable, or a blank with at least two bytes behind it that are
      no line break. Where the input ends too soon to tell, a soft break follows. */
  function Reference(x: seq<Byte>): seq<Token> {
    if x == [] then []
    else if |x| >= 2 && x[..2] == EOL then [LineBreak] + Reference(x[2..])
    else if Stuck(x) then Each(x) + [SoftBreak]
    else
      [if Printable(x[0]) || (Blank(x[0]) && x[1..3] != EOL) then Literal(x[0]) else Escape(x[0])] + Reference(x[1..])
  }

  lemma Classes(c: Byte)
    ensures Printable(c) <==> ClassOf(c) == QPPlain
    ensures Blank(c) <==> ClassOf(c) == QPIfLast
    ensures c == CR <==> ClassOf(c) == QPCr
  {
  }

  lemma {:induction false} PadReference(p: seq<Byte>)
    ensures PadEach(p) == Each(p)
    decreases |p|
  {
    if p != [] {
      Classes(p[0]);
      PadReference(p[1..]);
    }
  }

  /** One round of the loop, in terms of printable bytes and blanks. */
  lemma DrainRound(q: seq<Byte>)
    requires 0 < |q| <= 3
    ensures var c, e := q[0], Drain(q);
      if (c == CR && |q| == 1) || (Blank(c) && |q| < 3) then e == Encoding([], q)
      else if c == CR && q[1] == LF then e == Encoding([LineBreak], [])
      else if Blank(c) && q[1] == CR && q[2] == LF then e == Encoding([Escape(c), LineBreak], [])
      else e == Emit(if Printable(c) || Blank(c) then Literal(c) else Escape(c), Drain(q[1..]))
  {
    hide ClassOf;
    Classes(q[0]);
  }

  lemma ReferenceBreak(y: seq<Byte>)
    ensures Reference(CRLF + y) == [LineBreak] + Reference(y)
  {
    var x := CRLF + y;
    assert x[..2] == CRLF && x[2..] == y;
  }

  lemma ReferenceByte(x: seq<Byte>)
    requires x != [] && !Stuck(x) && !(|x| >= 2 && x[..2] == CRLF)
    ensures Reference(x) ==
      [if Printable(x[0]) || (Blank(x[0]) && x[1..3] != CRLF) then Literal(x[0]) else Escape(x[0])] + Reference(x[1..])
  {
  }

  lemma ReferenceBlank(c: Byte, y: seq<Byte>)
    requires Blank(c)
    ensures Reference([c] + CRLF + y) == [Escape(c), LineBreak] + Reference(y)
  {
    hide Reference;
    var x := [c] + CRLF + y;
    assert x[1..] == CRLF + y && x[1..3] == CRLF && x[..2] == [c, CR];
    ReferenceByte(x);
    ReferenceBreak(y);
    assert [Escape(c), LineBreak] + Reference(y) == [Escape(c)] + ([LineBreak] + Reference(y));
  }

  lemma ReferenceEmit(q: seq<Byte>, y: seq<Byte>, e: Encoding)
    requires q != [] && !(q[0] == CR && (|q| == 1 || q[1] == LF))
    requires Blank(q[0]) ==> |q| >= 3 && q[1..3] != CRLF
    requires e.out + Reference(e.pending + y) == Reference(q[1..] + y)
    ensures var f := Emit(if Printable(q[0]) || Blank(q[0]) then Literal(q[0]) else Escape(q[0]), e);
      f.out + Reference(f.pending + y) == Reference(q + y)
  {
    hide Reference;
    var x := q + y;
    assert x[1..] == q[1..] + y;
    assert |q| >= 2 ==> x[..2] == [q[0], q[1]];
    assert |x| >= 2 ==> x[..2] == [x[0], x[1]];
    assert |q| >= 3 ==> x[1..3] == q[1..3];
    ReferenceByte(x);
    var t := if Printable(q[0]) || Blank(q[0]) then Literal(q[0]) else Escape(q[0]);
    assert [t] + e.out + Reference(e.pending + y) == [t] + (e.out + Reference(e.pending + y));
  }

  /** What is decided is decided rightly, whatever comes later. */
  lemma {:induction false} DrainReference(q: seq<Byte>, y: seq<Byte>)
    requires |q| <= 3 && (|q| == 3 ==> Blank(q[0]))
    ensures var e := Drain(q); e.out + Reference(e.pending + y) == Reference(q + y)
    decreases |q|
  {
    var e, x := Drain(q), q + y;
    assert [] + Reference(x) == Reference(x) && [] + y == y;
    if q != [] {
      hide Drain, Reference;
      DrainRound(q);
      var c := q[0];
      if |q| == 2 && c == CR && q[1] == LF {
        assert x == CRLF + y;
        ReferenceBreak(y);
      } else if |q| == 3 && q[1] == CR && q[2] == LF {
        assert x == [c] + CRLF + y;
        ReferenceBlank(c, y);
      } else if !(c == CR && |q| == 1) && !(Blank(c) && |q| < 3) {
        if |q| == 3 { assert q[1..3] == [q[1], q[2]]; }
        DrainReference(q[1..], y);
        ReferenceEmit(q, y, Drain(q[1..]));
      }
    }
  }

  lemma {:induction false} RunReference(p: seq<Byte>, x: seq<Byte>)
    requires Pending(p)
    ensures var e := EncodeRun(p, x); e.out + Pad(e.pending) == Reference(p + x)
    decreases |x|
  {
    hide Drain, Pending, Reference;
    if x == [] {
      assert p + x == p;
      PadReference(p);
      PendingReference(p);
      assert [] + Pad(p) == Pad(p);
    } else {
      var q := p + [x[0]];
      PendingSize(p, x[0]);
      DrainReference(q, x[1..]);
      DrainKeeps(p, x[0]);
      var e := Drain(q);
      RunReference(e.pending, x[1..]);
      var f := EncodeRun(e.pending, x[1..]);
      assert p + x == q + x[1..];
      assert e.out + f.out + Pad(f.pending) == e.out + (f.out + Pad(f.pending));
    }
  }

  lemma PendingSize(p: seq<Byte>, c: Byte)
    requires Pending(p)
    ensures |p| <= 2 && (|p| == 2 ==> Blank(p[0]))
  {
    if p != [] { Classes(p[0]); }
  }

  lemma PendingReference(p: seq<Byte>)
    requires Pending(p) && PadEach(p) == Each(p)
    ensures Pad(p) == Reference(p)
  {
    if p != [] { Classes(p[0]); }
  }

  /** The encoded form of every input is the reference. */
  lemma EncodedReference(x: seq<Byte>)
    ensures Encoded(x) == Reference(x)
  {
    RunReference([], x);
    assert [] + x == x;
  }

  /** Escapes are written with capital digits. */
  lemma EscapeText(c: Byte, marker: seq<Byte>)
    ensures var m := Text(Escape(c), marker);
      && |m| == 3 && m[0] == '=' as int && Worth(m[1]) == Some(c / 16) && Worth(m[2]) == Some(c % 16)
      && m[1] <= 'F' as int && m[2] <= 'F' as int
  {
  }

  lemma EachNoBreak(x: seq<Byte>)
    ensures forall k :: 0 <= k < |Each(x)| ==> !Each(x)[k].SoftBreak?
  {
  }

  /** Encoded text holds a soft break at its end only, so that wrapping it breaks lines late. */
  lemma {:induction false} ReferenceSoftLast(x: seq<Byte>)
    ensures SoftLast(Reference(x))
    decreases |x|
  {
    if x == [] {
    } else if |x| >= 2 && x[..2] == CRLF {
      ReferenceSoftLast(x[2..]);
    } else if Stuck(x) {
      EachNoBreak(x);
    } else {
      ReferenceSoftLast(x[1..]);
    }
  }

  lemma WrappedLate(x: seq<Byte>, left: int, length: int)
    ensures BreaksLate(WrapTokens(left, Encoded(x), length).0, length - left, length)
  {
    EncodedReference(x);
    ReferenceSoftLast(x);
    WrapLate(left, Encoded(x), length);
  }
}
