/** Character sets as lpcode.c has them, bitmaps of 32 bytes, and `charsettype` on them. */
module Charsets {
  import opened Common
  import opened Patterns
  import opened CodeGen

  const CHARSETSIZE: nat := 32

  type Bitmap = cs: seq<bv8> | |cs| == 32 witness seq(32, _ => 0)

  function Mask(k: nat): bv8
    requires k < 8
  {
    match k
    case 0 => 0x01
    case 1 => 0x02
    case 2 => 0x04
    case 3 => 0x08
    case 4 => 0x10
    case 5 => 0x20
    case 6 => 0x40
    case _ => 0x80
  }

  predicate Bit(b: bv8, k: nat)
    requires k < 8
  {
    b & Mask(k) != 0
  }

  /** `testchar` */
  predicate Has(cs: Bitmap, c: Byte) {
    Bit(cs[c / 8], c % 8)
  }

  function SetOf(cs: Bitmap): Charset {
    set c: Byte | 0 <= c < 256 && Has(cs, c)
  }

  // ---------- Single bytes ----------

  /** Which bit is set in a byte that has just one. */
  function BitIndex(b: bv8): nat {
    var high := b & 0xF0 != 0;
    var b1 := if high then b >> 4 else b;
    var b2 := if b1 & 0x0C != 0 then b1 >> 2 else b1;
    (if high then 4 else 0) + (if b1 & 0x0C != 0 then 2 else 0) + (if b2 & 0x02 != 0 then 1 else 0)
  }

  lemma EmptyByte(b: bv8, k: nat)
    requires k < 8 && b == 0
    ensures !Bit(b, k)
  {
  }

  lemma FullByte(b: bv8, k: nat)
    requires k < 8 && b == 0xFF
    ensures Bit(b, k)
  {
  }

  lemma SingleByte(b: bv8, k: nat)
    requires k < 8 && b != 0 && b & (b - 1) == 0
    ensures BitIndex(b) < 8 && (Bit(b, k) <==> k == BitIndex(b))
  {
  }

  /** A byte that is not empty, not full and has more than one bit. */
  lemma MixedByte(b: bv8) returns (j: nat, k: nat, l: nat)
    requires b != 0 && b != 0xFF && b & (b - 1) != 0
    ensures j < 8 && k < 8 && j != k && l < 8 && Bit(b, j) && Bit(b, k) && !Bit(b, l)
  {
    j := FirstBit(b);
    k := FirstBit(b & (b - 1));
    l := FirstBit(!b);
    LowBitCleared(b, j, k);
    NotBit(b, l);
  }

  lemma LowBitCleared(b: bv8, j: nat, k: nat)
    requires k < 8 && j < 8 && Bit(b, j) && forall i :: 0 <= i < j ==> !Bit(b, i)
    ensures !Bit(b & (b - 1), j)
    ensures Bit(b & (b - 1), k) ==> Bit(b, k)
  {
    assert j > 0 ==> !Bit(b, 0);
    assert j > 1 ==> !Bit(b, 1);
    assert j > 2 ==> !Bit(b, 2);
    assert j > 3 ==> !Bit(b, 3);
    assert j > 4 ==> !Bit(b, 4);
    assert j > 5 ==> !Bit(b, 5);
    assert j > 6 ==> !Bit(b, 6);
  }

  lemma NotBit(b: bv8, k: nat)
    requires k < 8
    ensures Bit(!b, k) <==> !Bit(b, k)
  {
  }

  lemma FirstBit(b: bv8) returns (k: nat)
    requires b != 0
    ensures k < 8 && Bit(b, k) && forall j :: 0 <= j < k ==> !Bit(b, j)
  {
    k := if Bit(b, 0) then 0 else if Bit(b, 1) then 1 else if Bit(b, 2) then 2 else if Bit(b, 3) then 3
         else if Bit(b, 4) then 4 else if Bit(b, 5) then 5 else if Bit(b, 6) then 6 else 7;
  }

  // ---------- charsettype ----------

  /** Two members and a non-member. */
  ghost predicate Mixed(cs: Bitmap) {
    exists a: Byte, b: Byte, c: Byte :: a != b && Has(cs, a) && Has(cs, b) && !Has(cs, c)
  }

  lemma MixedIsOther(cs: Bitmap)
    requires Mixed(cs)
    ensures CharsetType(SetOf(cs)) == CsOther
  {
    hide FindSingle, Has;
    var a: Byte, b: Byte, c: Byte :| a != b && Has(cs, a) && Has(cs, b) && !Has(cs, c);
    var s := SetOf(cs);
    assert a in s && b in s && c !in s && c in FULL;
  }

  /** All bytes before number `i` are empty, or one bit in byte `candidate` is all that is set, or all are full. */
  ghost predicate SoFar(cs: Bitmap, i: nat, count: nat, candidate: int)
    requires i <= 32
  {
    || (count == 0 && forall j :: 0 <= j < i ==> cs[j] == 0)
    || (count == 1 && 0 <= candidate < i && cs[candidate] != 0 && cs[candidate] & (cs[candidate] - 1) == 0
        && forall j :: 0 <= j < i && j != candidate ==> cs[j] == 0)
    || (i > 0 && count == 8 * i && forall j :: 0 <= j < i ==> cs[j] == 0xFF)
  }

  lemma HasBit(cs: Bitmap, i: nat, k: nat)
    requires i < 32 && k < 8
    ensures Has(cs, 8 * i + k) <==> Bit(cs[i], k)
  {
    assert (8 * i + k) / 8 == i && (8 * i + k) % 8 == k;
  }

  lemma MixedAt(cs: Bitmap, i: nat, j: nat, i': nat, j': nat, i'': nat, j'': nat)
    requires i < 32 && j < 8 && i' < 32 && j' < 8 && i'' < 32 && j'' < 8
    requires (i != i' || j != j') && Bit(cs[i], j) && Bit(cs[i'], j') && !Bit(cs[i''], j'')
    ensures Mixed(cs)
  {
    hide Bit, Has;
    HasBit(cs, i, j);
    HasBit(cs, i', j');
    HasBit(cs, i'', j'');
    var a: Byte, b: Byte, c: Byte := 8 * i + j, 8 * i' + j', 8 * i'' + j'';
    assert a != b && Has(cs, a) && Has(cs, b) && !Has(cs, c);
  }

  /** The returns of ISet inside the loop. */
  lemma OtherAt(cs: Bitmap, i: nat, count: nat, candidate: int)
    requires i < 32 && SoFar(cs, i, count, candidate)
    requires
      || (cs[i] == 0 && count > 1)
      || (cs[i] == 0xFF && count < 8 * i)
      || (cs[i] != 0 && cs[i] != 0xFF && cs[i] & (cs[i] - 1) == 0 && count > 0)
      || (cs[i] != 0 && cs[i] != 0xFF && cs[i] & (cs[i] - 1) != 0)
    ensures Mixed(cs)
  {
    hide Bit, Mixed, BitIndex;
    var b := cs[i];
    if b != 0 && b != 0xFF && b & (b - 1) != 0 {
      var j, k, l := MixedByte(b);
      MixedAt(cs, i, j, i, k, i, l);
    } else if b == 0 {
      FullByte(cs[0], 0);
      FullByte(cs[0], 1);
      EmptyByte(b, 0);
      MixedAt(cs, 0, 0, 0, 1, i, 0);
    } else if count == 1 {
      var m := FirstBit(b);
      SingleByte(cs[candidate], 0);
      var k := BitIndex(cs[candidate]);
      SingleByte(cs[candidate], k);
      SingleByte(cs[candidate], (k + 1) % 8);
      MixedAt(cs, candidate, k, i, m, candidate, (k + 1) % 8);
    } else if b == 0xFF {
      FullByte(b, 0);
      FullByte(b, 1);
      EmptyByte(cs[0], 0);
      MixedAt(cs, i, 0, i, 1, 0, 0);
    } else {
      FullByte(cs[0], 0);
      FullByte(cs[0], 1);
      var k := BitIndex(b);
      SingleByte(b, 0);
      SingleByte(b, (k + 1) % 8);
      MixedAt(cs, 0, 0, 0, 1, i, (k + 1) % 8);
    }
  }

  lemma WholeSet(cs: Bitmap, count: nat, candidate: int)
    requires SoFar(cs, 32, count, candidate)
    ensures count == 0 ==> SetOf(cs) == {}
    ensures count > 1 ==> count == 256 && SetOf(cs) == FULL
    ensures count == 1 ==>
      0 <= candidate < 32 && BitIndex(cs[candidate]) < 8 && SetOf(cs) == {8 * candidate + BitIndex(cs[candidate])}
  {
    hide Bit, BitIndex;
    forall c: Byte
      ensures count == 0 ==> !Has(cs, c)
      ensures count > 1 ==> Has(cs, c)
      ensures count == 1 ==>
        BitIndex(cs[candidate]) < 8 && (Has(cs, c) <==> c == 8 * candidate + BitIndex(cs[candidate]))
    {
      if count == 0 { EmptyByte(cs[c / 8], c % 8); }
      if count > 1 { FullByte(cs[c / 8], c % 8); }
      if count == 1 {
        SingleByte(cs[candidate], c % 8);
        if c / 8 != candidate { EmptyByte(cs[c / 8], c % 8); }
      }
    }
    hide Has;
    if count == 1 {
      SingleByte(cs[candidate], 0);
      var c0: Byte := 8 * candidate + BitIndex(cs[candidate]);
      assert Has(cs, c0);
      assert SetOf(cs) == {c0};
    }
  }

  /** The kinds of the sets that are not mixed. */
  lemma {:induction false} Singles(cs: Charset, c: Byte, from: nat)
    requires cs == {c} && from <= c
    ensures FindSingle(cs, from) == CsSingle(c)
    decreases c - from
  {
    if from < c {
      assert from !in cs;
      Singles(cs, c, from + 1);
    }
  }

  lemma SingleType(c: Byte)
    ensures CharsetType({c}) == CsSingle(c)
  {
    hide FindSingle;
    var other: Byte := if c == 0 then 1 else 0;
    assert other in FULL && other !in {c};
    assert c in {c};
    Singles({c}, c, 0);
  }

  lemma FullType()
    ensures CharsetType(FULL) == CsFull
  {
    assert 0 in FULL;
  }

  /** lpcode.c's `charsettype` */
  method CharsetTypeOf(cs: Bitmap) returns (kind: CharsetKind)
    ensures kind == CharsetType(SetOf(cs))
  {
    hide CharsetType, SetOf, Mixed, SoFar;
    var count, candidate := 0, -1;
    SoFarBegin(cs);
    for i := 0 to CHARSETSIZE
      invariant count >= 0 && SoFar(cs, i, count, candidate)
    {
      var b := cs[i];
      if b == 0 {
        if count > 1 {
          OtherAt(cs, i, count, candidate);
          MixedIsOther(cs);
          return CsOther;
        }
        SoFarNext(cs, i, count, candidate, count, candidate);
      } else if b == 0xFF {
        if count < i * 8 {
          OtherAt(cs, i, count, candidate);
          MixedIsOther(cs);
          return CsOther;
        }
        SoFarNext(cs, i, count, candidate, count + 8, candidate);
        count := count + 8;
      } else if b & (b - 1) == 0 {
        if count > 0 {
          OtherAt(cs, i, count, candidate);
          MixedIsOther(cs);
          return CsOther;
        }
        SoFarNext(cs, i, count, candidate, count + 1, i);
        count := count + 1;
        candidate := i;
      } else {
        OtherAt(cs, i, count, candidate);
        MixedIsOther(cs);
        return CsOther;
      }
    }
    WholeSet(cs, count, candidate);
    if count == 0 {
      EmptyType();
      kind := CsEmpty;
    } else if count == 1 {
      var b := cs[candidate];
      SingleType(candidate * 8 + BitIndex(b));
      kind := CsSingle(candidate * 8 + BitIndex(b));
    } else {
      FullType();
      kind := CsFull;
    }
  }

  lemma EmptyType()
    ensures CharsetType({}) == CsEmpty
  {
  }

  lemma SoFarBegin(cs: Bitmap)
    ensures SoFar(cs, 0, 0, -1)
  {
  }

  lemma SoFarNext(cs: Bitmap, i: nat, count: nat, candidate: int, count': nat, candidate': int)
    requires i < 32 && SoFar(cs, i, count, candidate)
    requires
      || (cs[i] == 0 && count <= 1 && count' == count && candidate' == candidate)
      || (cs[i] == 0xFF && count >= 8 * i && count' == count + 8 && candidate' == candidate)
      || (cs[i] != 0 && cs[i] & (cs[i] - 1) == 0 && count == 0 && count' == 1 && candidate' == i)
    ensures SoFar(cs, i + 1, count', candidate')
  {
  }
}
