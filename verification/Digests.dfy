/** The ends of the two hash classes: padding, length and digest. */
module Digests {
  import opened Common
  import opened Streams
  import Rfc3174

  /** `n` in `k` bytes, low byte first. */
  function LittleEndian(n: nat, k: nat): (s: seq<Byte>)
    ensures |s| == k
  {
    if k == 0 then [] else [n % 256] + LittleEndian(n / 256, k - 1)
  }

  function Zeros(n: nat): (z: seq<Byte>)
    ensures |z| == n && forall i :: 0 <= i < n ==> z[i] == 0
  {
    seq(n, _ => 0)
  }

  /** How many zeros follow the byte 0x80. */
  function Gap(n: nat): nat {
    (119 - n % 64) % 64
  }

  /** Section 4 of RFC 3174 and sections 3.1 and 3.2 of RFC 1321: a one bit, zeros, and the length in bits. */
  function Padded(m: seq<Byte>, length: seq<Byte>): seq<Byte> {
    m + [0x80] + Zeros(Gap(|m|)) + length
  }

  lemma PaddedSize(n: nat)
    ensures (n + 1 + Gap(n)) % 64 == 56 && (n + 1 + Gap(n) + 8) % 64 == 0
  {
    Shifted(n + 1 + Gap(n), n % 64 + 1 + Gap(n), n / 64);
    Shifted(n + 1 + Gap(n) + 8, n % 64 + 9 + Gap(n), n / 64);
  }

  /** The state that a whole message leads to. */
  function Digest(f: Compression, init: State, m: seq<Byte>, length: seq<Byte>): State
    requires |length| == 8
  {
    var p := Padded(m, length);
    Blocks(f, init, p, |p| / 64)
  }

  // ---------- The bytes of a digest ----------

  function BigWords(s: State): seq<Byte> {
    if s == [] then [] else BigWords(s[..|s| - 1]) + BigEndian(s[|s| - 1] as int, 4)
  }

  function LittleWords(s: State): seq<Byte> {
    if s == [] then [] else LittleWords(s[..|s| - 1]) + LittleEndian(s[|s| - 1] as int, 4)
  }

  lemma WordsNext(s: State, k: nat)
    requires k < |s|
    ensures BigWords(s[..k + 1]) == BigWords(s[..k]) + BigEndian(s[k] as int, 4)
    ensures LittleWords(s[..k + 1]) == LittleWords(s[..k]) + LittleEndian(s[k] as int, 4)
  {
    assert s[..k + 1][..k] == s[..k];
  }

  /** `n` shifted right by `k` bytes. */
  function ShiftedBytes(n: nat, k: nat): nat {
    if k == 0 then n else ShiftedBytes(n, k - 1) / 256
  }

  /** Byte `i` of the big form is the one that a shift by the bytes behind it leads to. */
  lemma FourBytes(n: nat)
    ensures BigEndian(n, 4) == [ShiftedBytes(n, 3) % 256, ShiftedBytes(n, 2) % 256, ShiftedBytes(n, 1) % 256, n % 256]
    ensures LittleEndian(n, 4) == [n % 256, ShiftedBytes(n, 1) % 256, ShiftedBytes(n, 2) % 256,
                                   ShiftedBytes(n, 3) % 256]
  {
    var a, b, c := n / 256, n / 256 / 256, n / 256 / 256 / 256;
    assert ShiftedBytes(n, 1) == a && ShiftedBytes(n, 2) == b && ShiftedBytes(n, 3) == c;
    assert BigEndian(c, 1) == [] + [c % 256] && BigEndian(b, 2) == BigEndian(c, 1) + [b % 256];
    assert BigEndian(a, 3) == BigEndian(b, 2) + [a % 256];
    assert LittleEndian(c, 1) == [c % 256] + [] && LittleEndian(b, 2) == [b % 256] + LittleEndian(c, 1);
    assert LittleEndian(a, 3) == [a % 256] + LittleEndian(b, 2);
  }

  lemma {:induction false} BigSize(s: State)
    ensures |BigWords(s)| == 4 * |s|
    decreases |s|
  {
    if s != [] { BigSize(s[..|s| - 1]); }
  }

  lemma {:induction false} BigByte(s: State, i: nat)
    requires i < 4 * |s|
    ensures |BigWords(s)| == 4 * |s| && BigWords(s)[i] == ShiftedBytes(s[i / 4] as int, 3 - i % 4) % 256
    decreases |s|
  {
    hide ShiftedBytes, BigEndian;
    var init := s[..|s| - 1];
    BigSize(init);
    assert BigWords(s) == BigWords(init) + BigEndian(s[|s| - 1] as int, 4);
    hide BigWords;
    if i < 4 * (|s| - 1) {
      BigByte(init, i);
    } else {
      LastQuarter(|s|, i);
      FourBytes(s[|s| - 1] as int);
      LastByte(s[|s| - 1] as int);
    }
  }

  lemma LastQuarter(n: nat, i: nat)
    requires n > 0 && 4 * (n - 1) <= i < 4 * n
    ensures i / 4 == n - 1 && i % 4 == i - 4 * (n - 1)
  {
  }

  lemma LastByte(n: nat)
    ensures ShiftedBytes(n, 0) == n
  {
  }

  /** The loop at the end of SHA1.cpp's `Final`: byte `i` comes from word `i >> 2`, shifted by 3 - (`i` & 3) bytes. */
  method WriteBig(s: State) returns (bytes: seq<Byte>)
    ensures bytes == BigWords(s)
  {
    hide BigWords;
    bytes := [];
    BigSize(s);
    for i := 0 to 4 * |s|
      invariant bytes == BigWords(s)[..i]
    {
      BigByte(s, i);
      bytes := bytes + [ShiftedBytes(s[i / 4] as int, 3 - i % 4) % 256];
    }
    assert BigWords(s)[..4 * |s|] == BigWords(s);
  }

  /** md5.cpp's `encode`, word by word. */
  method Encode(s: State) returns (bytes: seq<Byte>)
    ensures bytes == LittleWords(s)
  {
    bytes := [];
    for i := 0 to |s|
      invariant bytes == LittleWords(s[..i])
    {
      var w := s[i] as int;
      FourBytes(w);
      WordsNext(s, i);
      bytes := bytes + [w % 256, ShiftedBytes(w, 1) % 256, ShiftedBytes(w, 2) % 256, ShiftedBytes(w, 3) % 256];
    }
    assert s[..|s|] == s;
  }

  // ---------- SHA1.cpp ----------

  /** SHA1.cpp's `Final`: feeds the padding one byte at a time, until the count says that only the length is missing. */
  method Sha1Final(h: Stream, ghost m: seq<Byte>) returns (digest: seq<Byte>)
    requires h.Holds(m)
    modifies h`state, h`count0, h`count1, h.buffer
    ensures digest == BigWords(Digest(h.compress, h.init, m, BigEndian(Bits(m), 8)))
  {
    hide Blocks, Stream.Holds, Gap, Refilled, Bits, BigWords;
    Counted(h, m);
    var finalcount := BigEndian(h.count0 + W32 * h.count1, 8);
    var _ := h.Update([0x80], m);
    ghost var z := 0;
    assert m + [0x80] + Zeros(0) == m + [0x80];
    Counted(h, m + [0x80]);
    while h.count0 / 8 % 64 != 56
      invariant z <= Gap(|m|) && h.Holds(m + [0x80] + Zeros(z))
      invariant h.count0 / 8 % 64 == (|m| + 1 + z) % 64
      decreases Gap(|m|) - z
    {
      NotYet(|m|, z);
      ghost var fed := m + [0x80] + Zeros(z);
      var _ := h.Update([0], fed);
      assert fed + [0] == m + [0x80] + Zeros(z + 1);
      z := z + 1;
      Counted(h, m + [0x80] + Zeros(z));
    }
    GapReached(|m|, z);
    var _ := h.Update(finalcount, m + [0x80] + Zeros(z));
    PaddedSize(|m|);
    Counted(h, Padded(m, finalcount));
    digest := WriteBig(h.state);
  }

  /** What a stream says about its message. */
  lemma Counted(h: Stream, m: seq<Byte>)
    requires h.Holds(m)
    ensures h.count0 + W32 * h.count1 == Bits(m) && h.count0 / 8 % 64 == |m| % 64
    ensures h.state == Blocks(h.compress, h.init, m, |m| / 64)
    ensures h.buffer.Length == 64 && h.buffer[..|m| % 64] == m[|m| - |m| % 64..]
  {
    BufferIndex(h.count0, h.count1, |m|);
  }

  lemma NotYet(n: nat, z: nat)
    requires z <= Gap(n) && (n + 1 + z) % 64 != 56
    ensures z < Gap(n)
  {
    PaddedSize(n);
  }

  lemma GapReached(n: nat, z: nat)
    requires z <= Gap(n) && (n + 1 + z) % 64 == 56
    ensures z == Gap(n)
  {
    Shifted(n + 1 + z, n % 64 + 1 + z, n / 64);
  }

  // ---------- md5.cpp ----------

  /** md5.cpp's `final`: feeds padding and length, takes the digest, and puts state and count back, but not the
      buffer. So the stream goes on as if nothing had happened if and only if fewer than 56 bytes were in the buffer,
      or these bytes are just what the padding has left there. */
  method Md5Final(h: Stream, ghost m: seq<Byte>) returns (digest: seq<Byte>)
    requires h.Holds(m)
    modifies h`state, h`count0, h`count1, h.buffer
    ensures digest == LittleWords(Digest(h.compress, h.init, m, LittleEndian(Bits(m), 8)))
    ensures h.state == old(h.state) && h.count0 == old(h.count0) && h.count1 == old(h.count1)
    ensures h.Holds(m) <==>
      |m| % 64 < 56 || m[|m| - |m| % 64..] == (Zeros(56) + LittleEndian(Bits(m), 8))[..|m| % 64]
  {
    hide Blocks, Refilled, Stream.Holds, Gap, Bits, LittleWords;
    Counted(h, m);
    var oldState, oldCount0, oldCount1 := h.state, h.count0, h.count1;
    var bits := LittleEndian(h.count0 + W32 * h.count1, 8);
    var index := h.count0 / 8 % 64;
    var padLen := if index < 56 then 56 - index else 120 - index;
    var padding := [0x80] + Zeros(padLen - 1);
    ghost var b0 := h.buffer[..];
    PaddedSize(|m|);
    GapIs(|m|);
    assert m + padding == m + [0x80] + Zeros(Gap(|m|));
    var _ := h.Update(padding, m);
    ghost var b1 := h.buffer[..];
    var _ := h.Update(bits, m + padding);
    Counted(h, Padded(m, bits));
    digest := Encode(h.state);
    h.state, h.count0, h.count1 := oldState, oldCount0, oldCount1;
    Overwritten(b0, index, padding, bits);
    HoldsAgain(h, m, b0);
  }

  lemma GapIs(n: nat)
    ensures Gap(n) == (if n % 64 < 56 then 56 - n % 64 else 120 - n % 64) - 1
  {
  }

  /** With state and count put back, only the buffer matters. */
  lemma HoldsAgain(h: Stream, m: seq<Byte>, b0: seq<Byte>)
    requires h.buffer.Length == |b0| == 64 && h.count0 + W32 * h.count1 == Bits(m)
    requires h.state == Blocks(h.compress, h.init, m, |m| / 64) && b0[..|m| % 64] == m[|m| - |m| % 64..]
    ensures h.Holds(m) <==> h.buffer[..|m| % 64] == b0[..|m| % 64]
  {
  }

  /** What padding and length leave in the buffer. */
  lemma Overwritten(b0: seq<Byte>, index: nat, padding: seq<Byte>, bits: seq<Byte>)
    requires |b0| == 64 && index < 64 && |bits| == 8
    requires padding == [0x80] + Zeros((if index < 56 then 56 - index else 120 - index) - 1)
    ensures var b2 := Refilled(Refilled(b0, index, padding), 56, bits);
      && |b2| == 64
      && (index < 56 ==> b2[..index] == b0[..index])
      && (index >= 56 ==> b2 == Zeros(56) + bits)
  {
    var b1 := Refilled(b0, index, padding);
    var b2 := Refilled(b1, 56, bits);
    assert bits[8..] == [] && b2 == b1[..56] + bits;
    if index >= 56 {
      assert padding[|padding| - 56..] == Zeros(56);
      assert b1[..56] == Zeros(56);
    } else {
      assert b1[..index] == b0[..index];
    }
  }

  /** No chunk is so long that with what is in the buffer before it 2^32 bytes come together. `n` bytes came before. */
  predicate Fits(n: nat, chunks: seq<seq<Byte>>)
    decreases |chunks|
  {
    chunks == [] || (n % 64 + |chunks[0]| < W32 && Fits(n + |chunks[0]|, chunks[1..]))
  }

  /** Any way of cutting up a message gives the same stream, exactly if all its chunks fit. */
  method Feed(h: Stream, chunks: seq<seq<Byte>>) returns (ok: bool)
    requires h.Holds([]) && forall i :: 0 <= i < |chunks| ==> |chunks[i]| < W32
    modifies h`state, h`count0, h`count1, h.buffer
    ensures ok <==> Fits(0, chunks)
    ensures ok ==> h.Holds(Message(chunks))
  {
    hide Blocks, Refilled, Message, Stream.Holds, Fits;
    ghost var m: seq<Byte> := [];
    assert chunks[0..] == chunks;
    for i := 0 to |chunks|
      invariant h.Holds(m) && m + Message(chunks[i..]) == Message(chunks)
      invariant Fits(0, chunks) <==> Fits(|m|, chunks[i..])
    {
      MessageNext(chunks[i..]);
      FitsNext(|m|, chunks[i..]);
      assert chunks[i..][1..] == chunks[i + 1..];
      assert m + (chunks[i] + Message(chunks[i + 1..])) == m + chunks[i] + Message(chunks[i + 1..]);
      ok := h.Update(chunks[i], m);
      if !ok { return; }
      m := m + chunks[i];
    }
    assert chunks[|chunks|..] == [];
    MessageNext([]);
    FitsNext(|m|, []);
    assert m + [] == m;
    ok := true;
  }

  lemma FitsNext(n: nat, chunks: seq<seq<Byte>>)
    ensures Fits(n, chunks) <==> chunks == [] || (n % 64 + |chunks[0]| < W32 && Fits(n + |chunks[0]|, chunks[1..]))
  {
  }

  lemma MessageNext(chunks: seq<seq<Byte>>)
    ensures Message(chunks) == if chunks == [] then [] else chunks[0] + Message(chunks[1..])
  {
  }

  function Message(chunks: seq<seq<Byte>>): seq<Byte> {
    if chunks == [] then [] else chunks[0] + Message(chunks[1..])
  }

  /** SHA1.cpp's `Reset`. */
  const SHA1_INIT: State := [0x67452301, 0xEFCDAB89, 0x98BADCFE, 0x10325476, 0xC3D2E1F0]

  /** Reset, any updates, final: the digest of the message, however it was cut up, exactly if all its chunks fit. */
  method Sha1Hash(chunks: seq<seq<Byte>>) returns (ok: bool, digest: seq<Byte>)
    requires forall i :: 0 <= i < |chunks| ==> |chunks[i]| < W32
    ensures ok <==> Fits(0, chunks)
    ensures ok ==>
      var m := Message(chunks);
      digest == BigWords(Digest(Rfc3174.CompressBytes, Rfc3174.Initial(), m, BigEndian(Bits(m), 8)))
  {
    hide Message, Digest, Stream.Holds, Fits, BigWords, Rfc3174.Initial;
    Rfc3174.InitialIs();
    var h := new Stream(SHA1, Rfc3174.CompressBytes, SHA1_INIT);
    digest := [];
    ok := Feed(h, chunks);
    if ok { digest := Sha1Final(h, Message(chunks)); }
  }
}
