/** The length-prefixed messages of TcpParser.cpp, and the loop that takes them out of what a connection has
    delivered. Lengths have 32 bits, and characters are signed. */
module Framing {
  import opened Common

  // ---------- Frames ----------

  /** What `createHead` leaves for a length. */
  function Head(n: nat): (h: seq<Byte>)
    ensures 1 <= |h| <= 5
  {
    if n <= 125 then [n] else if n <= 0xFFFF then [126] + BigEndian(n, 2) else [127] + BigEndian(n, 4)
  }

  function Frame(m: seq<Byte>): seq<Byte> {
    Head(|m|) + m
  }

  function Frames(ms: seq<seq<Byte>>): seq<Byte> {
    if ms == [] then [] else Frame(ms[0]) + Frames(ms[1..])
  }

  // ---------- What the parser makes of a queue ----------

  /** More has to come; a message and how many bytes it took with its head; or a length that does not fit, where the
      parser makes no progress or reads past the end. */
  datatype Outcome = Wait | Message(body: seq<Byte>, taken: nat) | Broken

  /** The length that a head announces, and how long the head is; nothing if it is not there yet. */
  datatype Announced = Partial | Length(n: nat, head: nat)

  /** `parseHead`: a first byte from 128 on is a negative character, so it is not larger than 125, and is widened with
      its sign. */
  function Announce(q: seq<Byte>): (a: Announced)
    ensures a.Length? ==> 1 <= a.head <= |q| && a.n < W32
  {
    if q == [] then Partial
    else if q[0] >= 128 then Length(W32 - 256 + q[0], 1)
    else if q[0] <= 125 then Length(q[0], 1)
    else if q[0] == 126 then
      if |q| < 3 then Partial else Length(Short(q[1], q[2]), 3)
    else
      if |q| < 5 then Partial else Length(Long(q[1], q[2], q[3], q[4]), 5)
  }

  function Short(a: Byte, b: Byte): nat {
    256 * a + b
  }

  function Long(a: Byte, b: Byte, c: Byte, d: Byte): nat {
    0x100_0000 * a + 0x1_0000 * b + 256 * c + d
  }

  /** `parsePack` */
  function Parse(q: seq<Byte>): (o: Outcome)
    ensures o.Message? ==> 0 < o.taken <= |q| && |o.body| <= o.taken && o.body == q[o.taken - |o.body|..o.taken]
  {
    match Announce(q)
    case Partial => Wait
    case Length(n, head) =>
      if (head + n) % W32 > |q| then Wait
      else if head + n >= W32 then Broken
      else Message(q[head..head + n], head + n)
  }

  /** A message does not depend on what comes after it. */
  lemma ParseMore(q: seq<Byte>, more: seq<Byte>)
    ensures !Parse(q).Wait? ==> Parse(q + more) == Parse(q)
  {
    var a := Announce(q);
    if a.Length? && !Parse(q).Wait? {
      AnnounceMore(q, more);
      if Parse(q).Message? { assert (q + more)[a.head..a.head + a.n] == q[a.head..a.head + a.n]; }
    }
  }

  lemma AnnounceMore(q: seq<Byte>, more: seq<Byte>)
    requires Announce(q).Length?
    ensures Announce(q + more) == Announce(q)
  {
  }

  lemma AnnouncedFits(q: seq<Byte>)
    ensures q == [] ==> Announce(q) == Partial
    ensures var a := Announce(q); a.Length? ==> 1 <= a.head <= |q| && a.head <= 5 && a.n < W32
  {
  }

  lemma InPrefix(q: seq<Byte>, n: nat, from: nat)
    requires from <= n <= |q|
    ensures q[..n][from..n] == q[from..n]
  {
  }

  lemma ParseIs(q: seq<Byte>)
    ensures var a := Announce(q);
      Parse(q) ==
        if a.Partial? || (a.head + a.n) % W32 > |q| then Wait
        else if a.head + a.n >= W32 then Broken
        else Message(q[a.head..a.head + a.n], a.head + a.n)
  {
  }

  // ---------- Heads read back ----------

  lemma BigShort(n: nat)
    requires n <= 0xFFFF
    ensures var h := BigEndian(n, 2); Short(h[0], h[1]) == n
  {
    assert BigEndian(n / 256, 1) == [] + [n / 256 % 256];
    assert BigEndian(n, 2) == [n / 256 % 256] + [n % 256];
  }

  lemma BigLong(n: nat)
    requires n < W32
    ensures var h := BigEndian(n, 4); Long(h[0], h[1], h[2], h[3]) == n
  {
    var a, b, c := n / 256, n / 256 / 256, n / 256 / 256 / 256;
    assert BigEndian(c, 1) == [] + [c % 256];
    assert BigEndian(b, 2) == BigEndian(c, 1) + [b % 256];
    assert BigEndian(a, 3) == BigEndian(b, 2) + [a % 256];
    assert BigEndian(n, 4) == [c % 256] + [b % 256] + [a % 256] + [n % 256];
  }

  lemma HeadRead(n: nat, rest: seq<Byte>)
    requires n < W32
    ensures Announce(Head(n) + rest) == Length(n, |Head(n)|)
  {
    var q := Head(n) + rest;
    assert q[..|Head(n)|] == Head(n);
    if n > 0xFFFF {
      BigLong(n);
      var h := BigEndian(n, 4);
      assert q[0] == 127 && q[1] == h[0] && q[2] == h[1] && q[3] == h[2] && q[4] == h[3];
    } else if n > 125 {
      BigShort(n);
      var h := BigEndian(n, 2);
      assert q[0] == 126 && q[1] == h[0] && q[2] == h[1];
    }
  }

  /** The bytes of a head by the length it stands for, high byte first. */
  lemma HeadBytes(n: nat)
    requires n < W32
    ensures var h := Head(n);
      if n <= 125 then h == [n]
      else if n <= 0xFFFF then |h| == 3 && h[0] == 126 && 256 * h[1] as int + h[2] as int == n
      else
        |h| == 5 && h[0] == 127
        && 0x100_0000 * h[1] as int + 0x1_0000 * h[2] as int + 256 * h[3] as int + h[4] as int == n
  {
    if n > 0xFFFF { BigLong(n); } else if n > 125 { BigShort(n); }
  }

  /** No shorter head announces the length, if and only if no character from 128 on does: these are taken for the last
      128 lengths. */
  lemma HeadShortest(n: nat)
    requires n < W32
    ensures (forall q :: Announce(q).Length? && Announce(q).n == n ==> |Head(n)| <= Announce(q).head) <==> n < W32 - 128
  {
    HeadBytes(n);
    if n >= W32 - 128 {
      var q := [n - (W32 - 256)];
      assert Announce(q) == Length(n, 1);
    }
  }

  /** A frame is read back, whatever follows it, if and only if head and message together are shorter than 2^32. */
  lemma FrameExact(m: seq<Byte>, rest: seq<Byte>)
    requires |m| < W32
    ensures Parse(Frame(m) + rest) == Message(m, |Frame(m)|) <==> |Frame(m)| < W32
    ensures |Frame(m)| >= W32 ==> Parse(Frame(m) + rest) == Broken
  {
    var head := Head(|m|);
    assert Frame(m) + rest == head + (m + rest);
    HeadRead(|m|, m + rest);
    if |Frame(m)| < W32 {
      assert (head + (m + rest))[|head|..|head| + |m|] == m;
    }
  }

  /** Nothing is taken out of a frame that is not complete. */
  lemma FrameIncomplete(m: seq<Byte>, part: seq<Byte>)
    requires |Frame(m)| < W32 && |part| < |Frame(m)| && part == Frame(m)[..|part|]
    ensures Parse(part) == Wait
  {
    var frame := Frame(m);
    HeadRead(|m|, m);
    if Announce(part).Length? {
      AnnounceMore(part, frame[|part|..]);
      assert part + frame[|part|..] == frame;
    }
  }

  // ---------- The loop ----------

  /** The messages that the loop takes out, and the bytes it leaves. */
  datatype Drained = Drained(messages: seq<seq<Byte>>, rest: seq<Byte>, broken: bool)

  /** More messages came before. */
  function After(ms: seq<seq<Byte>>, d: Drained): Drained {
    Drained(ms + d.messages, d.rest, d.broken)
  }

  lemma AfterAfter(a: seq<seq<Byte>>, b: seq<seq<Byte>>, d: Drained)
    ensures After(a, After(b, d)) == After(a + b, d) && After([], d) == d
  {
    assert a + (b + d.messages) == a + b + d.messages;
    assert [] + d.messages == d.messages;
  }

  function Drain(q: seq<Byte>): Drained
    decreases |q|
  {
    match Parse(q)
    case Wait => Drained([], q, false)
    case Broken => Drained([], q, true)
    case Message(body, taken) => After([body], Drain(q[taken..]))
  }

  /** Deliveries one after the other, from what earlier ones left. */
  function Deliver(q: seq<Byte>, chunks: seq<seq<Byte>>): Drained
    decreases |chunks|
  {
    if chunks == [] then Drained([], q, false)
    else
      var d := Drain(q + chunks[0]);
      if d.broken then d else After(d.messages, Deliver(d.rest, chunks[1..]))
  }

  lemma DeliverIs(q: seq<Byte>, chunks: seq<seq<Byte>>)
    ensures chunks == [] ==> Deliver(q, chunks) == Drained([], q, false)
    ensures chunks != [] ==>
      var d := Drain(q + chunks[0]);
      Deliver(q, chunks) == if d.broken then d else After(d.messages, Deliver(d.rest, chunks[1..]))
  {
  }

  function Joined(chunks: seq<seq<Byte>>): seq<Byte> {
    if chunks == [] then [] else chunks[0] + Joined(chunks[1..])
  }

  /** How the bytes are cut up does not matter, as long as all lengths fit. */
  lemma {:induction false} DrainMore(q: seq<Byte>, more: seq<Byte>)
    requires !Drain(q).broken
    ensures Drain(q + more) == After(Drain(q).messages, Drain(Drain(q).rest + more))
    decreases |q|
  {
    hide Parse, Drain;
    DrainIs(q);
    var end := Drain(Drain(q).rest + more);
    if Parse(q).Message? {
      ParseMore(q, more);
      DrainIs(q + more);
      var body, later := Parse(q).body, q[Parse(q).taken..];
      assert (q + more)[Parse(q).taken..] == later + more;
      DrainMore(later, more);
      AfterAfter([body], Drain(later).messages, end);
    } else {
      AfterAfter([], [], end);
    }
  }

  lemma DrainIs(q: seq<Byte>)
    ensures var o := Parse(q);
      Drain(q) == if o.Message? then After([o.body], Drain(q[o.taken..])) else Drained([], q, o.Broken?)
  {
  }

  lemma {:induction false} DeliverAll(q: seq<Byte>, chunks: seq<seq<Byte>>)
    requires Drain(q) == Drained([], q, false) && !Drain(q + Joined(chunks)).broken
    ensures Deliver(q, chunks) == Drain(q + Joined(chunks))
    decreases |chunks|
  {
    hide Drain, Deliver;
    DeliverIs(q, chunks);
    if chunks == [] {
      assert q + [] == q;
    } else {
      var first, later := q + chunks[0], Joined(chunks[1..]);
      assert q + Joined(chunks) == first + later;
      if Drain(first).broken { BrokenMore(first, later); }
      DrainMore(first, later);
      DrainAgain(first);
      DeliverAll(Drain(first).rest, chunks[1..]);
    }
  }

  lemma {:induction false} BrokenMore(q: seq<Byte>, more: seq<Byte>)
    requires Drain(q).broken
    ensures Drain(q + more).broken
    decreases |q|
  {
    ParseMore(q, more);
    if Parse(q).Message? {
      var taken := Parse(q).taken;
      assert (q + more)[taken..] == q[taken..] + more;
      BrokenMore(q[taken..], more);
    }
  }

  /** What the loop leaves waits for more. */
  lemma {:induction false} DrainAgain(q: seq<Byte>)
    requires !Drain(q).broken
    ensures Drain(Drain(q).rest) == Drained([], Drain(q).rest, false)
    decreases |q|
  {
    if Parse(q).Message? { DrainAgain(q[Parse(q).taken..]); }
  }

  predicate Fit(ms: seq<seq<Byte>>) {
    forall i :: 0 <= i < |ms| ==> |Frame(ms[i])| < W32
  }

  /** Frames, and the beginning of one more. */
  lemma {:induction false} DrainFrames(ms: seq<seq<Byte>>, part: seq<Byte>)
    requires Fit(ms) && Parse(part) == Wait
    ensures Drain(Frames(ms) + part) == Drained(ms, part, false)
    decreases |ms|
  {
    if ms == [] {
      assert Frames(ms) + part == part;
    } else {
      hide Drain, Frame;
      var rest := Frames(ms[1..]) + part;
      assert Frames(ms) + part == Frame(ms[0]) + rest;
      DrainFrame(ms[0], rest);
      DrainFrames(ms[1..], part);
      assert [ms[0]] + ms[1..] == ms;
      hide After;
      AfterIs(ms[0], ms[1..], part);
    }
  }

  lemma DrainFrame(m: seq<Byte>, rest: seq<Byte>)
    requires |Frame(m)| < W32
    ensures Drain(Frame(m) + rest) == After([m], Drain(rest))
  {
    hide Parse, Drain, Frame, After;
    HeadFits(m);
    FrameExact(m, rest);
    assert (Frame(m) + rest)[|Frame(m)|..] == rest;
    DrainIs(Frame(m) + rest);
  }

  lemma HeadFits(m: seq<Byte>)
    ensures |Frame(m)| > |m|
  {
  }

  lemma AfterIs(m: seq<Byte>, ms: seq<seq<Byte>>, rest: seq<Byte>)
    ensures After([m], Drained(ms, rest, false)) == Drained([m] + ms, rest, false)
  {
  }

  /** Messages that are sent come out as they went in, in order and in full, however the bytes are cut up on the way;
      of a further frame that is not complete nothing is taken. */
  lemma AllDelivered(ms: seq<seq<Byte>>, last: seq<Byte>, part: seq<Byte>, chunks: seq<seq<Byte>>)
    requires Fit(ms) && Fit([last]) && |part| < |Frame(last)| && part == Frame(last)[..|part|]
    requires Joined(chunks) == Frames(ms) + part
    ensures Deliver([], chunks) == Drained(ms, part, false)
  {
    assert [last][0] == last;
    FrameIncomplete(last, part);
    DrainFrames(ms, part);
    assert [] + Joined(chunks) == Joined(chunks);
    DeliverAll([], chunks);
  }

  /** A first byte of 255 is taken for a length of 2^32 - 1, so that nothing is ever taken out again. */
  lemma Stuck(rest: seq<Byte>)
    ensures Parse([255] + rest) == Broken
  {
    assert ([255] + rest)[0] == 255;
  }

  // ---------- TcpParser.cpp ----------

  /** The queue of a connection: what has been received, to be looked at from the front and deleted there. */
  class EventBuffer {
    var data: seq<Byte>

    constructor ()
      ensures data == []
    {
      data := [];
    }

    method ReadBuffer(n: nat) returns (bytes: Option<seq<Byte>>)
      ensures bytes == if n <= |data| then Some(data[..n]) else None
    {
      bytes := if n <= |data| then Some(data[..n]) else None;
    }

    method DelBuffer(n: nat)
      requires n <= |data|
      modifies this
      ensures data == old(data)[n..]
    {
      data := data[n..];
    }
  }

  class TcpParser {
    var parsedLens: nat
    var bufLens: nat
    var headLens: nat
    var totalLens: nat
    var needReadLens: nat
    const head: array<Byte>

    constructor ()
      ensures head.Length == 5 && fresh(head)
    {
      parsedLens, bufLens, headLens, totalLens, needReadLens := 0, 0, 0, 0, 0;
      head := new Byte[5](_ => 0);
    }

    /** `createHead` */
    method CreateHead(n: nat) returns (size: nat)
      requires head.Length == 5 && n < W32
      modifies head
      ensures size <= 5 && head[..size] == Head(n)
    {
      if n <= 125 {
        head[0] := n;
        return 1;
      }
      if n <= 0xFFFF {
        head[0], head[1], head[2] := 126, n / 256 % 256, n % 256;
        assert BigEndian(n / 256, 1) == [] + [n / 256 % 256];
        assert BigEndian(n, 2) == [n / 256 % 256] + [n % 256];
        return 3;
      }
      head[0], head[1], head[2] := 127, n / 256 / 256 / 256 % 256, n / 256 / 256 % 256;
      head[3], head[4] := n / 256 % 256, n % 256;
      var a, b, c := n / 256, n / 256 / 256, n / 256 / 256 / 256;
      assert BigEndian(c, 1) == [] + [c % 256];
      assert BigEndian(b, 2) == BigEndian(c, 1) + [b % 256];
      assert BigEndian(a, 3) == BigEndian(b, 2) + [a % 256];
      assert BigEndian(n, 4) == [c % 256] + [b % 256] + [a % 256] + [n % 256];
      size := 5;
    }

    /** `parseHead` */
    method ParseHead(buffer: EventBuffer) returns (ok: bool)
      requires totalLens == |buffer.data|
      modifies this`needReadLens, this`headLens, this`bufLens
      ensures ok <==> Announce(buffer.data).Length?
      ensures ok ==> Announce(buffer.data) == Length(bufLens, headLens)
    {
      needReadLens := 1;
      var first := buffer.ReadBuffer(needReadLens);
      if first == None { return false; }
      var flag: int := first.value[0];
      if flag >= 128 { flag := flag - 256; }
      if flag <= 125 {
        headLens, bufLens := 1, flag % W32;
        return true;
      }
      needReadLens := if flag == 126 then 3 else 5;
      if totalLens < needReadLens { return false; }
      var bytes := buffer.ReadBuffer(needReadLens);
      if bytes == None { return false; }
      var h := bytes.value;
      bufLens := if flag == 126 then Short(h[1], h[2]) else Long(h[1], h[2], h[3], h[4]);
      headLens := needReadLens;
      ok := true;
    }

    /** `parsePack`: nothing; or a message, with `parsedLens` bytes to delete for it; or, with `ok` unset, a pointer
        from which more bytes are announced than there are. */
    method ParsePack(buffer: EventBuffer) returns (ok: bool, msg: Option<seq<Byte>>)
      modifies this`parsedLens, this`bufLens, this`headLens, this`totalLens, this`needReadLens
      ensures ok <==> !Parse(buffer.data).Broken?
      ensures ok ==> var o := Parse(buffer.data);
        if o.Message? then msg == Some(o.body) && parsedLens == o.taken && bufLens == |o.body| else msg == None
    {
      hide Announce, Parse;
      AnnouncedFits(buffer.data);
      ParseIs(buffer.data);
      bufLens, parsedLens, totalLens := 0, 0, |buffer.data|;
      if totalLens == 0 { return true, None; }
      var there := ParseHead(buffer);
      if !there { return true, None; }
      needReadLens := (headLens + bufLens) % W32;
      if needReadLens > totalLens { return true, None; }
      if bufLens == 0 {
        parsedLens := headLens;
        return true, Some([]);
      }
      var bytes := buffer.ReadBuffer(needReadLens);
      if bytes == None { return true, None; }
      parsedLens := (headLens + bufLens) % W32;
      if headLens + bufLens > needReadLens { return false, None; }
      InPrefix(buffer.data, needReadLens, headLens);
      msg := Some(bytes.value[headLens..headLens + bufLens]);
      ok := true;
    }

    /** The loop of a read callback, when `chunk` has come in. */
    method OnRead(buffer: EventBuffer, chunk: seq<Byte>) returns (ok: bool, messages: seq<seq<Byte>>)
      modifies this`parsedLens, this`bufLens, this`headLens, this`totalLens, this`needReadLens, buffer
      ensures var d := Drain(old(buffer.data) + chunk);
        ok == !d.broken && messages == d.messages && buffer.data == d.rest
    {
      hide Parse, Drain, After;
      buffer.data := buffer.data + chunk;
      ghost var all := buffer.data;
      messages := [];
      AfterAfter([], [], Drain(all));
      while true
        invariant Drain(all) == After(messages, Drain(buffer.data))
        decreases |buffer.data|
      {
        var msg;
        DrainIs(buffer.data);
        AfterNone(messages, buffer.data, Parse(buffer.data).Broken?);
        ok, msg := ParsePack(buffer);
        if !ok || msg == None { return; }
        AfterAfter(messages, [msg.value], Drain(buffer.data[parsedLens..]));
        messages := messages + [msg.value];
        buffer.DelBuffer(parsedLens);
      }
    }
  }

  lemma AfterNone(ms: seq<seq<Byte>>, rest: seq<Byte>, broken: bool)
    ensures After(ms, Drained([], rest, broken)) == Drained(ms, rest, broken)
  {
    assert ms + [] == ms;
  }

  /** A connection from beginning to end, on any chunks: the deliveries, until one is broken. */
  method Connection(chunks: seq<seq<Byte>>) returns (ok: bool, messages: seq<seq<Byte>>, rest: seq<Byte>)
    ensures Drained(messages, rest, !ok) == Deliver([], chunks)
  {
    hide Drain, Deliver, After;
    var parser := new TcpParser();
    var buffer := new EventBuffer();
    ok, messages := true, [];
    assert chunks[0..] == chunks;
    AfterAfter([], [], Deliver([], chunks));
    for i := 0 to |chunks|
      invariant ok && Deliver([], chunks) == After(messages, Deliver(buffer.data, chunks[i..]))
    {
      var later := chunks[i..];
      assert later[1..] == chunks[i + 1..];
      DeliverIs(buffer.data, later);
      var more;
      ok, more := parser.OnRead(buffer, chunks[i]);
      AfterBroken(messages, more, buffer.data);
      AfterAfter(messages, more, Deliver(buffer.data, later[1..]));
      messages := messages + more;
      if !ok { return false, messages, buffer.data; }
    }
    DeliverIs(buffer.data, []);
    AfterNone(messages, buffer.data, false);
    rest := buffer.data;
  }

  lemma AfterBroken(ms: seq<seq<Byte>>, more: seq<seq<Byte>>, rest: seq<Byte>)
    ensures After(ms, Drained(more, rest, true)) == Drained(ms + more, rest, true)
  {
  }
}
