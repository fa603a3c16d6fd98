/** The streaming part that SHA1.cpp and md5.cpp share: a bit count in two words, a block buffer, padding at the end. */
module Streams {
  import opened Common

  type Word = w: int | 0 <= w < 0x1_0000_0000
  type State = seq<bv32>
  type Compression = (State, seq<Byte>) -> State

  const W64: nat := 0x1_0000_0000_0000_0000

  /** The two classes. */
  datatype Hash = SHA1 | MD5

  /** The test for a whole block, in 32 bits: SHA1.cpp adds the length to the position, md5.cpp compares it with the
      room. */
  predicate WholeBlock(kind: Hash, j: nat, n: nat)
    requires j < 64
  {
    match kind
    case SHA1 => (j + n) % W32 > 63
    case MD5 => n >= 64 - j
  }

  /** The test for another whole block of the input from `i` on, in 32 bits. */
  predicate Another(i: nat, n: nat) {
    (i + 63) % W32 < n
  }

  /** SHA-1's test is right if and only if position and length together stay below 2^32. */
  lemma TestExact(j: nat, n: nat)
    requires j < 64 && n < W32
    ensures (WholeBlock(SHA1, j, n) <==> j + n > 63) <==> j + n < W32
  {
    if j + n >= W32 { assert (j + n) % W32 == j + n - W32; }
  }

  /** The loop's test is right at every position that a run of whole blocks comes to if and only if the same holds. */
  lemma LoopExact(j: nat, n: nat)
    requires j < 64 && n < W32
    ensures (forall i: nat | i <= n && (j + i) % 64 == 0 :: Another(i, n) <==> i + 63 < n) <==> j + n < W32
  {
    if j + n >= W32 {
      assert !(Another(W32 - j, n) <==> W32 - j + 63 < n) && (j + (W32 - j)) % 64 == 0;
    } else {
      forall i: nat | i <= n && (j + i) % 64 == 0 ensures Another(i, n) <==> i + 63 < n { NoWrap(j, n, i); }
    }
  }

  lemma NoWrap(j: nat, n: nat, i: nat)
    requires i <= n && (j + i) % 64 == 0 && j + n < W32
    ensures i + 63 < W32
  {
    assert W32 % 64 == 0;
  }

  /** One byte in the buffer and 2^32 - 1 more: SHA-1 sees no whole block and copies them all into the buffer; MD5's
      loop reads on at the last of them. */
  lemma TooLong()
    ensures !WholeBlock(SHA1, 1, W32 - 1) && 1 + (W32 - 1) > 63
    ensures Another(W32 - 1, W32 - 1)
  {
  }

  /** The state after the first `k` blocks of a message. */
  function Blocks(f: Compression, init: State, m: seq<Byte>, k: nat): State
    requires 64 * k <= |m|
  {
    if k == 0 then init else f(Blocks(f, init, m, k - 1), m[64 * (k - 1)..64 * k])
  }

  /** Only the blocks themselves matter. */
  lemma {:induction false} BlocksSame(f: Compression, init: State, m: seq<Byte>, n: seq<Byte>, k: nat)
    requires 64 * k <= |m| && 64 * k <= |n| && m[..64 * k] == n[..64 * k]
    ensures Blocks(f, init, m, k) == Blocks(f, init, n, k)
    decreases k
  {
    if k > 0 {
      assert m[..64 * (k - 1)] == m[..64 * k][..64 * (k - 1)];
      assert n[..64 * (k - 1)] == n[..64 * k][..64 * (k - 1)];
      BlocksSame(f, init, m, n, k - 1);
      assert m[64 * (k - 1)..64 * k] == m[..64 * k][64 * (k - 1)..];
      assert n[64 * (k - 1)..64 * k] == n[..64 * k][64 * (k - 1)..];
    }
  }

  /** The bit count of a message, in 64 bits. */
  function Bits(m: seq<Byte>): nat {
    8 * |m| % W64
  }

  lemma BitsIs(m: seq<Byte>)
    ensures Bits(m) == 8 * |m| % W64
  {
  }

  /** Adding to the count, with the carry found by comparison. */
  lemma CountStep(lo: Word, hi: Word, total: nat, n: nat)
    requires n < W32 && lo + W32 * hi == total % W64
    ensures var add := 8 * n % W32;
      var lo' := (lo + add) % W32;
      var carry := if lo' < add then 1 else 0;
      var hi' := ((hi + carry) % W32 + n / 0x2000_0000) % W32;
      lo' + W32 * hi' == (total + 8 * n) % W64
  {
    var add, up := 8 * n % W32, n / 0x2000_0000;
    Times8(n);
    LowWords(lo, add);
    var lo' := (lo + add) % W32;
    var carry := if lo' < add then 1 else 0;
    HighWords(hi + carry, up);
    var h := hi + carry + up;
    Together(total, 8 * n, lo, hi, add, up, lo', carry, h % W32, h / W32);
  }

  lemma SmallWord(w: Word)
    ensures w % W32 == w
  {
  }

  lemma Times8(n: nat)
    ensures 8 * n == n / 0x2000_0000 * W32 + 8 * n % W32
  {
  }

  lemma LowWords(lo: Word, add: Word)
    ensures var lo' := (lo + add) % W32; lo + add == (if lo' < add then W32 else 0) + lo'
  {
  }

  lemma Together(total: nat, bits: nat, lo: nat, hi: nat, add: nat, up: nat, lo': nat, carry: nat, hi': nat, q: nat)
    requires lo + W32 * hi == total % W64 && bits == up * W32 + add && lo + add == carry * W32 + lo'
    requires hi + carry + up == hi' + q * W32 && lo' < W32 && hi' < W32
    ensures lo' + W32 * hi' == (total + bits) % W64
  {
    assert W64 == W32 * W32;
    WrapSum(total, bits, lo' + W32 * hi', q);
  }

  lemma HighWords(a: nat, b: nat)
    ensures (a % W32 + b) % W32 == (a + b) % W32
  {
  }

  lemma WrapSum(total: nat, n: nat, r: nat, q: nat)
    requires r < W64 && r + q * W64 == total % W64 + n
    ensures r == (total + n) % W64
  {
    var t := total / W64;
    assert total + n == r + (q + t) * W64;
    Remainder(total + n, r, q + t);
  }

  lemma Remainder(x: nat, r: nat, q: nat)
    requires r < W64 && x == r + q * W64
    ensures x % W64 == r
  {
  }

  /** The position in the buffer, from the low word of the count. */
  lemma BufferIndex(lo: Word, hi: Word, n: nat)
    requires lo + W32 * hi == 8 * n % W64
    ensures lo / 8 % 64 == n % 64
  {
    assert W64 == W32 * W32;
    var q := 8 * n / W64;
    var h := hi + q * W32;
    assert 8 * n == lo + W32 * h;
    var low := n - 0x2000_0000 * h;
    assert lo == 8 * low;
    Shifted(n, low, 0x80_0000 * h);
  }

  lemma Shifted(n: int, low: int, k: int)
    requires n == low + 64 * k
    ensures n % 64 == low % 64
  {
  }

  lemma Nothing(f: Compression, init: State)
    ensures Blocks(f, init, [], 0) == init && Bits([]) == 0
  {
  }

  /** The buffer after input has gone through it, in full. */
  function Refilled(b: seq<Byte>, j: nat, data: seq<Byte>): seq<Byte>
    requires |b| == 64 && j < 64
  {
    if j + |data| <= 63 then b[..j] + data + b[j + |data|..]
    else
      var r := (j + |data|) % 64;
      data[|data| - r..] + (b[..j] + data[..64 - j])[r..]
  }

  /** How much of the input is left for the buffer. */
  lemma LeftOver(m: nat, n: nat, i: nat)
    requires i == 0 || (0 < i <= n && (m + i) % 64 == 0 && n - i < 64)
    ensures i > 0 ==> (m % 64 + n) % 64 == n - i
  {
    if i > 0 {
      assert m % 64 + n == (m + i) / 64 * 64 - m / 64 * 64 + (n - i);
      Shifted(m % 64 + n, n - i, (m + i) / 64 - m / 64);
    }
  }

  lemma Parts(was: seq<Byte>, now: seq<Byte>, j: nat, rest: seq<Byte>)
    requires |was| == |now| == 64 && j + |rest| <= 64
    requires now[..j] == was[..j] && now[j..j + |rest|] == rest && now[j + |rest|..] == was[j + |rest|..]
    ensures now == was[..j] + rest + was[j + |rest|..]
    ensures now[..j + |rest|] == was[..j] + rest
  {
    assert now == now[..j] + now[j..j + |rest|] + now[j + |rest|..];
    assert now[..j + |rest|] == now[..j] + now[j..j + |rest|];
  }

  /** One of the two classes: the fields they have in common. */
  class Stream {
    const kind: Hash
    const compress: Compression
    const init: State
    var state: State
    var count0: Word
    var count1: Word
    const buffer: array<Byte>

    /** What has been fed so far is `m`. */
    ghost predicate Holds(m: seq<Byte>)
      reads this, buffer
    {
      && buffer.Length == 64
      && state == Blocks(compress, init, m, |m| / 64)
      && buffer[..|m| % 64] == m[|m| - |m| % 64..]
      && count0 + W32 * count1 == Bits(m)
    }

    /** `Reset` */
    constructor (kind: Hash, compress: Compression, init: State)
      ensures this.kind == kind && this.compress == compress && this.init == init && fresh(buffer) && Holds([])
    {
      hide Blocks;
      this.kind, this.compress, this.init := kind, compress, init;
      state, count0, count1 := init, 0, 0;
      buffer := new Byte[64];
      Nothing(compress, init);
    }

    /** The position in the buffer. */
    method Index(ghost m: seq<Byte>) returns (j: nat)
      requires count0 + W32 * count1 == Bits(m)
      ensures j == count0 / 8 % 64 == |m| % 64
    {
      BufferIndex(count0, count1, |m|);
      j := count0 / 8 % 64;
    }

    /** The part of `Update` that counts bits. */
    method Count(n: nat, ghost m: seq<Byte>)
      requires n < W32 && count0 + W32 * count1 == Bits(m)
      modifies this`count0, this`count1
      ensures count0 + W32 * count1 == 8 * (|m| + n) % W64
    {
      hide Bits;
      BitsIs(m);
      CountStep(count0, count1, 8 * |m|, n);
      SmallWord(count1);
      var add := 8 * n % W32;
      count0 := (count0 + add) % W32;
      if count0 < add { count1 := (count1 + 1) % W32; }
      count1 := (count1 + n / 0x2000_0000) % W32;
    }

    /** Copies input into the buffer. */
    method Fill(at: nat, data: seq<Byte>)
      requires buffer.Length == 64 && at + |data| <= 64
      modifies buffer
      ensures buffer[..at] == old(buffer[..at]) && buffer[at..at + |data|] == data
      ensures buffer[at + |data|..] == old(buffer[at + |data|..])
    {
      for i := 0 to |data|
        invariant buffer[..at] == old(buffer[..at]) && buffer[at..at + i] == data[..i]
        invariant buffer[at + |data|..] == old(buffer[at + |data|..])
      {
        buffer[at + i] := data[i];
      }
      assert data[..|data|] == data;
    }

    /** The part of `Update` that uses up whole blocks: first the one in the buffer, then those in the input. It fails
        where it would read past the end of the input. */
    method WholeBlocks(j: nat, data: seq<Byte>, ghost m: seq<Byte>) returns (ok: bool, i: nat)
      requires buffer.Length == 64 && j == |m| % 64 && j + |data| > 63 && |data| < W32
      requires state == Blocks(compress, init, m, |m| / 64) && buffer[..j] == m[|m| - j..]
      modifies this`state, buffer
      ensures ok <==> j + |data| < W32
      ensures ok ==> 0 < i <= |data| && (|m| + i) % 64 == 0 && |data| - i < 64
      ensures ok ==> (|m| + i) / 64 * 64 <= |m + data| && state == Blocks(compress, init, m + data, (|m| + i) / 64)
      ensures ok ==> buffer[..] == old(buffer[..j]) + data[..64 - j]
    {
      hide Blocks;
      var n := |data|;
      i := 64 - j;
      Fill(j, data[..i]);
      ghost var full := buffer[..];
      assert full == full[..j] + full[j..64];
      FirstBlock(compress, init, m, data, buffer[..]);
      state := compress(state, buffer[..]);
      while Another(i, n)
        invariant 0 < i <= n && (|m| + i) % 64 == 0
        invariant state == Blocks(compress, init, m + data, (|m| + i) / 64) && buffer[..] == full
        decreases n - i
      {
        Aligned(|m|, j, i);
        if i + 64 > n {
          PastEnd(j, n, i);
          return false, i;
        }
        NextBlock(compress, init, m, data, i);
        state := compress(state, data[i..i + 64]);
        i := i + 64;
      }
      Aligned(|m|, j, i);
      AllRead(j, n, i);
      ok := true;
    }

    /** `Update`, of SHA1.cpp and of md5.cpp. It goes wrong, by writing past the end of the buffer or reading past the
        end of the input, if and only if the bytes in the buffer and the new ones are together 2^32 or more. */
    method Update(data: seq<Byte>, ghost m: seq<Byte>) returns (ok: bool)
      requires Holds(m) && |data| < W32
      modifies this`state, this`count0, this`count1, buffer
      ensures ok <==> |m| % 64 + |data| < W32
      ensures ok ==> Holds(m + data)
      ensures ok ==> buffer[..] == Refilled(old(buffer[..]), |m| % 64, data)
    {
      hide Blocks, Refilled, Bits;
      var j := Index(m);
      Count(|data|, m);
      BitsIs(m + data);
      ok := Absorb(j, data, m);
    }

    /** `Update` without the counting. */
    method Absorb(j0: nat, data: seq<Byte>, ghost m: seq<Byte>) returns (ok: bool)
      requires buffer.Length == 64 && j0 == |m| % 64 && |data| < W32
      requires state == Blocks(compress, init, m, |m| / 64) && buffer[..j0] == m[|m| - j0..]
      modifies this`state, buffer
      ensures ok <==> j0 + |data| < W32
      ensures ok ==> var all := m + data;
        state == Blocks(compress, init, all, |all| / 64) && buffer[..|all| % 64] == all[|all| - |all| % 64..]
      ensures ok ==> buffer[..] == Refilled(old(buffer[..]), |m| % 64, data)
    {
      hide Blocks, Refilled, WholeBlock;
      BlocksSame(compress, init, m, m + data, |m| / 64);
      WholeBlockIs(kind, j0, |data|);
      var i, j := 0, j0;
      ghost var b0 := buffer[..];
      if WholeBlock(kind, j, |data|) {
        ok, i := WholeBlocks(j, data, m);
        if !ok { return; }
        j := 0;
      }
      ghost var b1 := buffer[..];
      if |data| - i > 64 - j { return false; }
      Remains(j, data, i, m);
      ok := true;
      RefilledNow(b0, b1, |m|, data, i, buffer[..]);
    }

    /** The part of `Update` that keeps what is left of the input. */
    method Remains(j: nat, data: seq<Byte>, i: nat, ghost m: seq<Byte>)
      requires buffer.Length == 64 && i <= |data|
      requires if i == 0 then j == |m| % 64 && j + |data| <= 63 && buffer[..j] == m[|m| - j..]
               else j == 0 && (|m| + i) % 64 == 0 && |data| - i < 64
      modifies buffer
      ensures var all := m + data; |all| / 64 == (|m| + i) / 64 && buffer[..|all| % 64] == all[|all| - |all| % 64..]
      ensures buffer[..] == old(buffer[..j]) + data[i..] + old(buffer[j + |data| - i..])
    {
      Rest(m, data, i, j, buffer[..j]);
      ghost var was := buffer[..];
      var rest := data[i..];
      Fill(j, rest);
      Parts(was, buffer[..], j, rest);
    }
  }

  lemma RefilledNow(b0: seq<Byte>, b1: seq<Byte>, m: nat, data: seq<Byte>, i: nat, b2: seq<Byte>)
    requires |b0| == 64 && |b1| == 64 && i <= |data| && |data| - i < 64
    requires if i == 0 then m % 64 + |data| <= 63 && b1 == b0
             else m % 64 + |data| > 63 && (m + i) % 64 == 0 && b1 == b0[..m % 64] + data[..64 - m % 64]
    requires var j := if i == 0 then m % 64 else 0; b2 == b1[..j] + data[i..] + b1[j + |data| - i..]
    ensures b2 == Refilled(b0, m % 64, data)
  {
    hide Refilled;
    if i == 0 { RefilledShort(b0, m % 64, data, b2); } else { RefilledLong(b0, m, data, i, b2); }
  }

  lemma Aligned(m: nat, j: nat, i: nat)
    requires j == m % 64 && (m + i) % 64 == 0
    ensures (j + i) % 64 == 0
  {
    Shifted(m + i, j + i, m / 64);
  }

  lemma PastEnd(j: nat, n: nat, i: nat)
    requires j < 64 && i <= n < W32 && (j + i) % 64 == 0 && Another(i, n) && i + 64 > n
    ensures j + n >= W32
  {
    if j + n < W32 { NoWrap(j, n, i); }
  }

  lemma AllRead(j: nat, n: nat, i: nat)
    requires j < 64 && i <= n < W32 && (j + i) % 64 == 0 && !Another(i, n)
    ensures n - i < 64 && j + n < W32
  {
    if j + n < W32 { NoWrap(j, n, i); }
  }

  lemma WholeBlockIs(kind: Hash, j: nat, n: nat)
    requires j < 64 && n < W32
    ensures j + n < W32 ==> (WholeBlock(kind, j, n) <==> j + n > 63)
    ensures WholeBlock(kind, j, n) ==> j + n > 63
    ensures j + n >= W32 && kind.SHA1? ==> !WholeBlock(kind, j, n)
    ensures j + n >= W32 && kind.MD5? ==> WholeBlock(kind, j, n)
  {
    TestExact(j, n);
  }

  lemma RefilledShort(b0: seq<Byte>, j: nat, data: seq<Byte>, b2: seq<Byte>)
    requires |b0| == 64 && j + |data| <= 63 && b2 == b0[..j] + data[0..] + b0[j + |data|..]
    ensures b2 == Refilled(b0, j, data)
  {
    assert data[0..] == data;
  }

  lemma RefilledLong(b0: seq<Byte>, m: nat, data: seq<Byte>, i: nat, b2: seq<Byte>)
    requires |b0| == 64 && m % 64 + |data| > 63 && 0 < i <= |data| && (m + i) % 64 == 0 && |data| - i < 64
    requires var b1 := b0[..m % 64] + data[..64 - m % 64]; b2 == b1[..0] + data[i..] + b1[|data| - i..]
    ensures b2 == Refilled(b0, m % 64, data)
  {
    LeftOver(m, |data|, i);
    var j := m % 64;
    var b1 := b0[..j] + data[..64 - j];
    assert b1[..0] + data[i..] == data[i..];
  }

  lemma FirstBlock(f: Compression, init: State, m: seq<Byte>, data: seq<Byte>, b: seq<Byte>)
    requires |m| % 64 + |data| > 63 && |b| == 64
    requires var j := |m| % 64; b[..j] == m[|m| - j..] && b[j..64] == data[..64 - j]
    ensures var k := |m| / 64;
      && (|m| + 64 - |m| % 64) / 64 == k + 1 && (|m| + 64 - |m| % 64) % 64 == 0
      && 64 * (k + 1) <= |m + data|
      && Blocks(f, init, m + data, k + 1) == f(Blocks(f, init, m, k), b)
  {
    var j, k, all := |m| % 64, |m| / 64, m + data;
    assert |m| == 64 * k + j;
    BlocksSame(f, init, m, all, k);
    assert b == b[..j] + b[j..64];
    assert all[64 * k..64 * (k + 1)] == m[64 * k..] + data[..64 - j];
  }

  lemma NextBlock(f: Compression, init: State, m: seq<Byte>, data: seq<Byte>, i: nat)
    requires i + 64 <= |data| && (|m| + i) % 64 == 0
    ensures (|m| + i + 64) / 64 == (|m| + i) / 64 + 1
    ensures Blocks(f, init, m + data, (|m| + i + 64) / 64)
      == f(Blocks(f, init, m + data, (|m| + i) / 64), data[i..i + 64])
  {
    var k := (|m| + i) / 64;
    assert |m| + i == 64 * k;
    assert (m + data)[64 * k..64 * (k + 1)] == data[i..i + 64];
  }

  /** What is left over for the buffer. */
  lemma Rest(m: seq<Byte>, data: seq<Byte>, i: nat, j: nat, kept: seq<Byte>)
    requires i <= |data| && |kept| == j
    requires if i == 0 then j == |m| % 64 && j + |data| <= 63 && kept == m[|m| - j..]
             else j == 0 && (|m| + i) % 64 == 0 && |data| - i < 64
    ensures var all := m + data;
      && |all| % 64 == j + |data| - i && |all| / 64 == (|m| + i) / 64
      && all[|all| - |all| % 64..] == kept + data[i..]
  {
    var all := m + data;
    if i == 0 {
      DivMod(|all|, |m| / 64, j + |data|);
      assert all[|all| - (j + |data|)..] == m[|m| - j..] + data;
      assert data[0..] == data;
    } else {
      DivMod(|all|, (|m| + i) / 64, |data| - i);
      assert all[|all| - (|data| - i)..] == data[i..];
      assert kept == [] && [] + data[i..] == data[i..];
    }
  }

  lemma DivMod(n: nat, k: nat, r: nat)
    requires n == 64 * k + r && r < 64
    ensures n / 64 == k && n % 64 == r
  {
  }
}
