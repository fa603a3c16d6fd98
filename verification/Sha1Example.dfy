/** The first test of section 7.3 of RFC 3174, the message "abc", worked out with the definitions of Rfc3174. */
module Sha1Example {
  import opened Common
  import opened Rfc3174
  import Streams
  import opened Digests

  /** "abc", padded. */
  function Block(): (block: seq<bv8>)
    ensures |block| == 64
  {
    seq(64, k requires 0 <= k < 64 =>
      if k == 0 then 0x61 else if k == 1 then 0x62 else if k == 2 then 0x63 else if k == 3 then 0x80
      else if k == 63 then 0x18 else 0)
  }

  function W(t: nat): bv32 {
    Schedule(Block(), t)
  }

  function After(t: nat): Registers {
    Rounds(Block(), t, Registers(0x67452301, 0xEFCDAB89, 0x98BADCFE, 0x10325476, 0xC3D2E1F0))
  }

  lemma Word(t: nat)
    requires 16 <= t < 80
    ensures W(t) == Rotated(Parity(W(t - 3), W(t - 8), W(t - 14), W(t - 16)), 1)
  {
    hide Rotated, Parity, Block, BigWord;
  }

  lemma Turn(t: nat)
    requires t < 80
    ensures var r := After(t);
      After(t + 1)
      == Registers(Sum(Rotated(r.a, 5), F(t, r.b, r.c, r.d), r.e, W(t), K(t)), r.a, Rotated(r.b, 30), r.c, r.d)
  {
    hide Rotated, F, Sum, K, Block, Schedule;
  }

  // ---------- The schedule ----------

  lemma Words0()
    ensures W(0) == 0x61626380 && W(15) == 0x18
    ensures W(1) == 0 && W(2) == 0 && W(3) == 0 && W(4) == 0 && W(5) == 0 && W(6) == 0 && W(7) == 0
    ensures W(8) == 0 && W(9) == 0 && W(10) == 0 && W(11) == 0 && W(12) == 0 && W(13) == 0 && W(14) == 0
  {
    hide Number;
    assert BigWord(Block(), 0) == Number(0x61, 0x62, 0x63, 0x80);
    assert BigWord(Block(), 15) == Number(0, 0, 0, 0x18);
    forall t | 1 <= t < 15 ensures W(t) == Number(0, 0, 0, 0) {
      assert BigWord(Block(), t) == Number(0, 0, 0, 0);
    }
    Numbers();
  }

  lemma Numbers()
    ensures Number(0x61, 0x62, 0x63, 0x80) == 0x61626380 && Number(0, 0, 0, 0x18) == 0x18 && Number(0, 0, 0, 0) == 0
  {
  }

  lemma Words1()
    ensures W(16) == 0xC2C4C700 && W(17) == 0x00000000 && W(18) == 0x00000030 && W(19) == 0x85898E01
    ensures W(20) == 0x00000000 && W(21) == 0x00000060 && W(22) == 0x0B131C03 && W(23) == 0x00000030
    ensures W(24) == 0x85898EC1 && W(25) == 0x16263806 && W(26) == 0x00000000 && W(27) == 0x00000180
    ensures W(28) == 0x2C4C700C && W(29) == 0x000000F0 && W(30) == 0x93AFB507 && W(31) == 0x5898E048
  {
    hide W;
    Words0();
    Word(16); Word(17); Word(18); Word(19); Word(20); Word(21); Word(22); Word(23);
    Word(24); Word(25); Word(26); Word(27); Word(28); Word(29); Word(30); Word(31);
  }

  lemma Words2()
    ensures W(32) == 0x8E9A9202 && W(33) == 0x00000600 && W(34) == 0xB131C0F0 && W(35) == 0x16263BC6
    ensures W(36) == 0x4EBED41E && W(37) == 0x626380A1 && W(38) == 0x16263806 && W(39) == 0x000018C0
    ensures W(40) == 0xD2E138C4 && W(41) == 0x00000F00 && W(42) == 0x3AFB5079 && W(43) == 0x898E04E5
    ensures W(44) == 0xE2BA3C2B && W(45) == 0x000060C0 && W(46) == 0x053A37CD && W(47) == 0x74458547
  {
    hide W;
    Words1();
    Word(32); Word(33); Word(34); Word(35); Word(36); Word(37); Word(38); Word(39);
    Word(40); Word(41); Word(42); Word(43); Word(44); Word(45); Word(46); Word(47);
  }

  lemma Words3()
    ensures W(48) == 0xDA9415ED && W(49) == 0x26380A16 && W(50) == 0x626383A1 && W(51) == 0x4EBF54DE
    ensures W(52) == 0x3835B44B && W(53) == 0x0000F600 && W(54) == 0x1E84C7A3 && W(55) == 0x98E04D98
    ensures W(56) == 0x651D16A0 && W(57) == 0x62658CA1 && W(58) == 0x458544D6 && W(59) == 0x44584CB7
    ensures W(60) == 0x7BA06619 && W(61) == 0x6380AEA2 && W(62) == 0x0AE55269 && W(63) == 0x627B49A1
  {
    hide W;
    Words2();
    Word(48); Word(49); Word(50); Word(51); Word(52); Word(53); Word(54); Word(55);
    Word(56); Word(57); Word(58); Word(59); Word(60); Word(61); Word(62); Word(63);
  }

  lemma Words4()
    ensures W(64) == 0x7CD45C9D && W(65) == 0x000F0000 && W(66) == 0xFB50753A && W(67) == 0xEC6765E8
    ensures W(68) == 0xBA3C2BE2 && W(69) == 0x0060C000 && W(70) == 0x3A37CD05 && W(71) == 0x458546F4
    ensures W(72) == 0xB8599DD6 && W(73) == 0x380A1A26 && W(74) == 0x01E02203 && W(75) == 0xE7CC3456
    ensures W(76) == 0xE6E60B69 && W(77) == 0x00F60A00 && W(78) == 0x5795EF4F && W(79) == 0x822E0879
  {
    hide W;
    Words3();
    Word(64); Word(65); Word(66); Word(67); Word(68); Word(69); Word(70); Word(71);
    Word(72); Word(73); Word(74); Word(75); Word(76); Word(77); Word(78); Word(79);
  }

  // ---------- The rounds ----------

  lemma Rounds10()
    ensures After(10) == Registers(0x8351F929, 0x4B6AE328, 0x27A301F5, 0x664F8C30, 0x0FF1F290)
  {
    hide W, After;
    Words0();
    Start();
    Turn(0); Turn(1); Turn(2); Turn(3); Turn(4); Turn(5); Turn(6); Turn(7); Turn(8); Turn(9);
  }

  lemma Rounds20()
    ensures After(20) == Registers(0xFD9E1D7D, 0xDC64901D, 0x20AA99CA, 0xD3A49608, 0xC82F758B)
  {
    hide W, After;
    Words0();
    Words1();
    Rounds10();
    Turn(10); Turn(11); Turn(12); Turn(13); Turn(14); Turn(15); Turn(16); Turn(17); Turn(18); Turn(19);
  }

  lemma Rounds30()
    ensures After(30) == Registers(0xC5FBAF5D, 0x8370B52E, 0xD2AA1365, 0x6F8D7EF5, 0x12104EE9)
  {
    hide W, After;
    Words1();
    Rounds20();
    Turn(20); Turn(21); Turn(22); Turn(23); Turn(24); Turn(25); Turn(26); Turn(27); Turn(28); Turn(29);
  }

  lemma Rounds40()
    ensures After(40) == Registers(0x32DE1CBA, 0x4C986405, 0xF718E5CF, 0x03D447F6, 0xF72EEC32)
  {
    hide W, After;
    Words1();
    Words2();
    Rounds30();
    Turn(30); Turn(31); Turn(32); Turn(33); Turn(34); Turn(35); Turn(36); Turn(37); Turn(38); Turn(39);
  }

  lemma Rounds50()
    ensures After(50) == Registers(0x120731C5, 0xBAF39337, 0xAFAB40B2, 0x2806E11B, 0x8714787C)
  {
    hide W, After;
    Words2();
    Words3();
    Rounds40();
    Turn(40); Turn(41); Turn(42); Turn(43); Turn(44); Turn(45); Turn(46); Turn(47); Turn(48); Turn(49);
  }

  lemma Rounds60()
    ensures After(60) == Registers(0x3F52DE5A, 0x09D785FD, 0x3498BFD4, 0xF211824F, 0xD79915AB)
  {
    hide W, After;
    Words3();
    Rounds50();
    Turn(50); Turn(51); Turn(52); Turn(53); Turn(54); Turn(55); Turn(56); Turn(57); Turn(58); Turn(59);
  }

  lemma Rounds70()
    ensures After(70) == Registers(0x3F2588C2, 0x497093C0, 0xDE37534A, 0x030F7CAD, 0x4405957E)
  {
    hide W, After;
    Words3();
    Words4();
    Rounds60();
    Turn(60); Turn(61); Turn(62); Turn(63); Turn(64); Turn(65); Turn(66); Turn(67); Turn(68); Turn(69);
  }

  lemma Rounds80()
    ensures After(80) == Registers(0x42541B35, 0x5738D5E1, 0x21834873, 0x681E6DF6, 0xD8FDF6AD)
  {
    hide W, After;
    Words4();
    Rounds70();
    Turn(70); Turn(71); Turn(72); Turn(73); Turn(74); Turn(75); Turn(76); Turn(77); Turn(78); Turn(79);
  }

  lemma Start()
    ensures After(0) == Registers(0x67452301, 0xEFCDAB89, 0x98BADCFE, 0x10325476, 0xC3D2E1F0)
  {
  }

  lemma Sums()
    ensures Plus(0x67452301, 0x42541B35) == 0xA9993E36 && Plus(0xEFCDAB89, 0x5738D5E1) == 0x4706816A
    ensures Plus(0x98BADCFE, 0x21834873) == 0xBA3E2571 && Plus(0x10325476, 0x681E6DF6) == 0x7850C26C
    ensures Plus(0xC3D2E1F0, 0xD8FDF6AD) == 0x9CD0D89D
  {
  }

  /** The state after the one block. */
  lemma Compressed()
    ensures Compress(Initial(), Block()) == [0xA9993E36, 0x4706816A, 0xBA3E2571, 0x7850C26C, 0x9CD0D89D]
  {
    hide Rounds, Plus, Initial, Block;
    InitialIs();
    Rounds80();
    Sums();
  }

  const ABC: seq<Byte> := [0x61, 0x62, 0x63]

  lemma PaddedBlock()
    ensures var p := Padded(ABC, BigEndian(24, 8)); |p| == 64 && forall k :: 0 <= k < 64 ==> p[k] as bv8 == Block()[k]
  {
    hide BigEndian;
    LengthBytes();
    var p := Padded(ABC, BigEndian(24, 8));
    assert Gap(3) == 52 && |p| == 64;
    assert p[..4] == [0x61, 0x62, 0x63, 0x80] && p[63] == 24;
    assert forall k :: 4 <= k < 63 ==> p[k] == 0;
    assert p[0] == p[..4][0] && p[1] == p[..4][1] && p[2] == p[..4][2] && p[3] == p[..4][3];
    hide Padded;
  }

  lemma LengthBytes()
    ensures BigEndian(24, 8) == [0, 0, 0, 0, 0, 0, 0, 24]
  {
    assert BigEndian(0, 1) == [0] && BigEndian(0, 2) == [0, 0] && BigEndian(0, 3) == [0, 0, 0];
    assert BigEndian(0, 4) == [0, 0, 0, 0] && BigEndian(0, 5) == [0, 0, 0, 0, 0];
    assert BigEndian(0, 6) == [0, 0, 0, 0, 0, 0] && BigEndian(0, 7) == [0, 0, 0, 0, 0, 0, 0];
  }

  lemma Digested()
    ensures Digest(CompressBytes, Initial(), ABC, BigEndian(24, 8))
      == [0xA9993E36, 0x4706816A, 0xBA3E2571, 0x7850C26C, 0x9CD0D89D]
  {
    hide Compress, Initial, Block, Padded;
    PaddedBlock();
    Compressed();
    var p := Padded(ABC, BigEndian(24, 8));
    assert p[0..64] == p;
    assert seq(64, i requires 0 <= i < 64 => p[i] as bv8) == Block();
    assert CompressBytes(Initial(), p) == Compress(Initial(), Block());
    OneBlock(CompressBytes, Initial(), p);
  }

  lemma NumberBytes(n: nat)
    requires n < W32
    ensures BigEndian(n, 4) == [n / 0x100_0000, n / 0x1_0000 % 256, n / 256 % 256, n % 256]
  {
    FourBytes(n);
    assert n / 256 / 256 == n / 0x1_0000 && n / 256 / 256 / 256 == n / 0x100_0000;
    assert ShiftedBytes(n, 0) == n && ShiftedBytes(n, 1) == n / 256 && ShiftedBytes(n, 2) == n / 256 / 256;
  }

  lemma WordBytes(w: bv32, n: nat)
    requires w as int == n < W32
    ensures BigEndian(w as int, 4) == [n / 0x100_0000, n / 0x1_0000 % 256, n / 256 % 256, n % 256]
  {
    hide BigEndian;
    NumberBytes(n);
  }

  lemma Longer(s: State, k: nat, before: seq<Byte>, bytes: seq<Byte>)
    requires k < |s| && BigWords(s[..k]) == before && BigEndian(s[k] as int, 4) == bytes
    ensures BigWords(s[..k + 1]) == before + bytes
  {
    hide BigWords, BigEndian;
    WordsNext(s, k);
  }

  /** And the bytes of the digest. */
  lemma Example()
    ensures BigWords(Digest(CompressBytes, Initial(), ABC, BigEndian(24, 8)))
      == [0xA9, 0x99, 0x3E, 0x36]
         + [0x47, 0x06, 0x81, 0x6A]
         + [0xBA, 0x3E, 0x25, 0x71]
         + [0x78, 0x50, 0xC2, 0x6C]
         + [0x9C, 0xD0, 0xD8, 0x9D]
  {
    hide BigWords, BigEndian, Digest, Initial;
    Digested();
    WordBytes(0xA9993E36, 0xA9993E36);
    WordBytes(0x4706816A, 0x4706816A);
    WordBytes(0xBA3E2571, 0xBA3E2571);
    WordBytes(0x7850C26C, 0x7850C26C);
    WordBytes(0x9CD0D89D, 0x9CD0D89D);
    var s: State := [0xA9993E36, 0x4706816A, 0xBA3E2571, 0x7850C26C, 0x9CD0D89D];
    assert s[..0] == [] && s[..5] == s;
    NoWords();
    Longer(s, 0, [], [0xA9, 0x99, 0x3E, 0x36]);
    Longer(s, 1, BigWords(s[..1]), [0x47, 0x06, 0x81, 0x6A]);
    Longer(s, 2, BigWords(s[..2]), [0xBA, 0x3E, 0x25, 0x71]);
    Longer(s, 3, BigWords(s[..3]), [0x78, 0x50, 0xC2, 0x6C]);
    Longer(s, 4, BigWords(s[..4]), [0x9C, 0xD0, 0xD8, 0x9D]);
  }

  lemma NoWords()
    ensures BigWords([]) == []
  {
  }

  lemma OneBlock(f: Streams.Compression, init: State, p: seq<Byte>)
    requires |p| == 64
    ensures Streams.Blocks(f, init, p, 1) == f(init, p)
  {
    assert Streams.Blocks(f, init, p, 0) == init;
    assert p[0..64] == p;
  }
}
