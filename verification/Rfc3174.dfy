/** SHA-1's compression as sections 3, 5 and 6.1 of RFC 3174 have it: arithmetic modulo 2^32, rotations as
    multiplication and division by powers of two, 80 words and shifted registers. */
module Rfc3174 {
  import opened Common

  type State = seq<bv32>

  /** Section 3: S^k(x), for the three numbers of places that are used. Products are modulo 2^32. */
  function Rotated(x: bv32, k: nat): bv32
    requires k == 1 || k == 5 || k == 30
  {
    if k == 1 then x * 0x2 + x / 0x8000_0000
    else if k == 5 then x * 0x20 + x / 0x800_0000
    else x * 0x4000_0000 + x / 0x4
  }

  /** Word `i` of a block, high byte first. */
  function BigWord(block: seq<bv8>, i: nat): bv32
    requires |block| == 64 && i < 16
  {
    Number(block[4 * i], block[4 * i + 1], block[4 * i + 2], block[4 * i + 3])
  }

  function Number(a: bv8, b: bv8, c: bv8, d: bv8): bv32 {
    ((a as bv32 * 0x100 + b as bv32) * 0x100 + c as bv32) * 0x100 + d as bv32
  }

  /** The message schedule of 80 words. */
  function Schedule(block: seq<bv8>, t: nat): bv32
    requires |block| == 64
  {
    if t < 16 then BigWord(block, t)
    else
      Rotated(Parity(Schedule(block, t - 3), Schedule(block, t - 8), Schedule(block, t - 14), Schedule(block, t - 16)),
              1)
  }

  function Parity(a: bv32, b: bv32, c: bv32, d: bv32): bv32 {
    a ^ b ^ c ^ d
  }

  /** Section 5. */
  function F(t: nat, b: bv32, c: bv32, d: bv32): bv32 {
    if t < 20 then (b & c) | (!b & d)
    else if t < 40 then b ^ c ^ d
    else if t < 60 then (b & c) | (b & d) | (c & d)
    else b ^ c ^ d
  }

  function K(t: nat): bv32 {
    if t < 20 then 0x5A827999 else if t < 40 then 0x6ED9EBA1 else if t < 60 then 0x8F1BBCDC else 0xCA62C1D6
  }

  /** `k` is the square root of `n`, times 2^30 and rounded down. */
  predicate Root(k: nat, n: nat) {
    k * k <= n * 0x1000_0000_0000_0000 < (k + 1) * (k + 1)
  }

  /** The constants are the roots of 2, 3, 5 and 10. */
  lemma Roots(t: nat)
    ensures Root(K(t) as nat, if t < 20 then 2 else if t < 40 then 3 else if t < 60 then 5 else 10)
  {
  }

  datatype Registers = Registers(a: bv32, b: bv32, c: bv32, d: bv32, e: bv32)

  function Sum(a: bv32, f: bv32, e: bv32, w: bv32, k: bv32): bv32 {
    a + f + e + w + k
  }

  function Round(block: seq<bv8>, t: nat, r: Registers): Registers
    requires |block| == 64
  {
    Registers(Sum(Rotated(r.a, 5), F(t, r.b, r.c, r.d), r.e, Schedule(block, t), K(t)), r.a, Rotated(r.b, 30), r.c, r.d)
  }

  function Rounds(block: seq<bv8>, t: nat, r: Registers): Registers
    requires |block| == 64
  {
    if t == 0 then r else Round(block, t - 1, Rounds(block, t - 1, r))
  }

  /** One application of the algorithm of section 6.1. */
  function Compress(s: State, block: seq<bv8>): State {
    if |s| != 5 || |block| != 64 then s
    else
      Added(s, Rounds(block, 80, Registers(s[0], s[1], s[2], s[3], s[4])))
  }

  function Plus(x: bv32, y: bv32): bv32 {
    x + y
  }

  function Added(s: State, r: Registers): State
    requires |s| == 5
  {
    [Plus(s[0], r.a), Plus(s[1], r.b), Plus(s[2], r.c), Plus(s[3], r.d), Plus(s[4], r.e)]
  }

  /** The same on bytes as numbers, as the streaming part has them. */
  function CompressBytes(s: State, block: seq<Byte>): State {
    Compress(s, seq(|block|, i requires 0 <= i < |block| => block[i] as bv8))
  }

  /** The initial words: these twenty bytes, the low byte of each word first. */
  function InitialByte(m: bv8): bv8 {
    if m < 8 then 0x01 + 0x22 * m else if m < 16 then 0xFE - 0x22 * (m - 8) else 0xF0 - 0x0F * (m - 16)
  }

  /** The word made of bytes `m` to `m + 3`. */
  function InitialWord(m: bv8): bv32 {
    Number(InitialByte(m + 3), InitialByte(m + 2), InitialByte(m + 1), InitialByte(m))
  }

  function Initial(): State {
    [InitialWord(0), InitialWord(4), InitialWord(8), InitialWord(12), InitialWord(16)]
  }

  lemma InitialIs()
    ensures Initial() == [0x67452301, 0xEFCDAB89, 0x98BADCFE, 0x10325476, 0xC3D2E1F0]
  {
  }
}
