/** SHA1.cpp's `Transform`: a circular buffer of 16 words and registers that change roles, against the 80 words and
    shifted registers of section 6.1 of RFC 3174. */
module Sha1 {
  import opened Common
  import opened Rfc3174

  function Rol1(x: bv32): bv32 {
    (x << 1) | (x >> 31)
  }

  function Rol5(x: bv32): bv32 {
    (x << 5) | (x >> 27)
  }

  function Rol8(x: bv32): bv32 {
    (x << 8) | (x >> 24)
  }

  function Rol24(x: bv32): bv32 {
    (x << 24) | (x >> 8)
  }

  function Rol30(x: bv32): bv32 {
    (x << 30) | (x >> 2)
  }

  function Join(a: bv8, b: bv8, c: bv8, d: bv8): bv32 {
    (a as bv32 << 24) | (b as bv32 << 16) | (c as bv32 << 8) | d as bv32
  }

  /** The words as a little-endian machine loads them. */
  function LittleWord(block: seq<bv8>, i: nat): bv32
    requires |block| == 64 && i < 16
  {
    Join(block[4 * i + 3], block[4 * i + 2], block[4 * i + 1], block[4 * i])
  }

  /** SHABLK0 turns the bytes around. */
  function Swapped(x: bv32): bv32 {
    (Rol24(x) & 0xFF00FF00) | (Rol8(x) & 0x00FF00FF)
  }

  lemma SwapBytes(a: bv8, b: bv8, c: bv8, d: bv8)
    ensures Swapped(Join(d, c, b, a)) == Number(a, b, c, d)
  {
  }

  lemma SwappedWord(block: seq<bv8>, i: nat)
    requires |block| == 64 && i < 16
    ensures Swapped(LittleWord(block, i)) == BigWord(block, i)
  {
    hide Swapped, Join, Number;
    SwapBytes(block[4 * i], block[4 * i + 1], block[4 * i + 2], block[4 * i + 3]);
  }

  lemma ShiftNumber(x: bv32)
    ensures (x << 1) | (x >> 31) == x * 0x2 + x / 0x8000_0000
    ensures (x << 5) | (x >> 27) == x * 0x20 + x / 0x800_0000
    ensures (x << 30) | (x >> 2) == x * 0x4000_0000 + x / 0x4
  {
  }

  /** ROL32 with 1, 5 and 30 places is the rotation on numbers. */
  lemma Rotations(x: bv32)
    ensures Rol1(x) == Rotated(x, 1) && Rol5(x) == Rotated(x, 5) && Rol30(x) == Rotated(x, 30)
  {
    ShiftNumber(x);
  }

  /** The constants of S_R0 and S_R1, S_R2, S_R3 and S_R4. */
  function MacroK(t: nat): bv32 {
    if t < 20 then 0x5A827999 else if t < 40 then 0x6ED9EBA1 else if t < 60 then 0x8F1BBCDC else 0xCA62C1D6
  }

  /** The round functions as the macros S_R0 to S_R4 write them. */
  function MacroF(t: nat, w: bv32, x: bv32, y: bv32): bv32 {
    if t < 20 then (w & (x ^ y)) ^ y
    else if t < 40 then w ^ x ^ y
    else if t < 60 then ((w | x) & y) | (w & x)
    else w ^ x ^ y
  }

  lemma SelectSame(w: bv32, x: bv32, y: bv32)
    ensures (w & (x ^ y)) ^ y == (w & x) | (!w & y)
  {
  }

  lemma MajoritySame(w: bv32, x: bv32, y: bv32)
    ensures ((w | x) & y) | (w & x) == (w & x) | (w & y) | (x & y)
  {
  }

  lemma SameF(t: nat, w: bv32, x: bv32, y: bv32)
    ensures MacroF(t, w, x, y) == F(t, w, x, y)
  {
    SelectSame(w, x, y);
    MajoritySame(w, x, y);
  }

  /** Which variable plays role `k` in round `t`: the names in the argument lists of the macros move by one each time.
      */
  function Role(t: nat, k: nat): nat
    requires t <= 80 && k < 5
  {
    if k >= t % 5 then k - t % 5 else k + 5 - t % 5
  }

  lemma RolesMove(t: nat)
    requires t < 80
    ensures Role(t + 1, 0) == Role(t, 4) && Role(t + 1, 1) == Role(t, 0) && Role(t + 1, 2) == Role(t, 1)
    ensures Role(t + 1, 3) == Role(t, 2) && Role(t + 1, 4) == Role(t, 3)
    ensures forall j, k :: 0 <= j < k < 5 ==> Role(t, j) != Role(t, k)
  {
  }

  /** The registers hold what they should, each in its role. */
  ghost predicate InRoles(v: seq<bv32>, t: nat, r: Registers)
    requires t <= 80
  {
    && |v| == 5
    && v[Role(t, 0)] == r.a && v[Role(t, 1)] == r.b && v[Role(t, 2)] == r.c
    && v[Role(t, 3)] == r.d && v[Role(t, 4)] == r.e
  }

  /** The last words of the schedule, each in its place in the circle; before round 16, the words still to come. */
  ghost predicate InCircle(l: seq<bv32>, block: seq<bv8>, t: nat)
    requires |block| == 64
  {
    && |l| == 16
    && (forall k :: 0 <= k < t && t <= k + 16 ==> l[k % 16] == Schedule(block, k))
    && (forall k :: t <= k < 16 ==> l[k] == LittleWord(block, k))
  }

  /** What SHABLK combines. */
  function Four(a: bv32, b: bv32, c: bv32, d: bv32): bv32 {
    a ^ b ^ c ^ d
  }

  lemma FourSame(a: bv32, b: bv32, c: bv32, d: bv32)
    ensures Rol1(Four(a, b, c, d)) == Rotated(Parity(a, b, c, d), 1)
  {
    Rotations(Four(a, b, c, d));
    hide Rol1, Rotated;
  }

  /** The word for round `t`, and the circle with that word in it. */
  function NextWord(l: seq<bv32>, t: nat): bv32
    requires |l| == 16
  {
    if t < 16 then Swapped(l[t]) else Rol1(Four(l[(t + 13) % 16], l[(t + 8) % 16], l[(t + 2) % 16], l[t % 16]))
  }

  /** The circle holds the words that the next one is made of. */
  lemma CircleWord(l: seq<bv32>, block: seq<bv8>, t: nat)
    requires |block| == 64 && InCircle(l, block, t)
    ensures NextWord(l, t) == Schedule(block, t)
  {
    hide Rol1, Rotated, Four, Parity, LittleWord, BigWord, Swapped, Schedule, InCircle;
    ScheduleIs(block, t);
    if t < 16 {
      CircleAhead(l, block, t);
      SwappedWord(block, t);
    } else {
      CircleBehind(l, block, t, 3);
      CircleBehind(l, block, t, 8);
      CircleBehind(l, block, t, 14);
      CircleBehind(l, block, t, 16);
      FourSame(Schedule(block, t - 3), Schedule(block, t - 8), Schedule(block, t - 14), Schedule(block, t - 16));
    }
  }

  lemma CircleAhead(l: seq<bv32>, block: seq<bv8>, t: nat)
    requires |block| == 64 && InCircle(l, block, t)
    ensures |l| == 16 && (t < 16 ==> l[t] == LittleWord(block, t))
  {
  }

  lemma CircleBehind(l: seq<bv32>, block: seq<bv8>, t: nat, n: nat)
    requires |block| == 64 && InCircle(l, block, t) && 0 < n <= 16 <= t
    ensures |l| == 16 && l[(t + 16 - n) % 16] == Schedule(block, t - n)
    ensures n == 16 ==> (t + 16 - n) % 16 == t % 16
  {
    hide Schedule, LittleWord;
    assert (t + 16 - n) % 16 == (t - n) % 16;
  }

  lemma ScheduleIs(block: seq<bv8>, t: nat)
    requires |block| == 64
    ensures t < 16 ==> Schedule(block, t) == BigWord(block, t)
    ensures t >= 16 ==>
      var a, b, c, d := Schedule(block, t - 3), Schedule(block, t - 8), Schedule(block, t - 14),
        Schedule(block, t - 16);
      Schedule(block, t) == Rotated(Parity(a, b, c, d), 1)
  {
    hide Rotated, Parity, BigWord;
  }

  /** And with the new word in it, those that the one after that is made of. */
  lemma CircleStep(l: seq<bv32>, block: seq<bv8>, t: nat)
    requires |block| == 64 && InCircle(l, block, t)
    ensures NextWord(l, t) == Schedule(block, t)
    ensures InCircle(l[t % 16 := NextWord(l, t)], block, t + 1)
  {
    hide Schedule, NextWord, LittleWord;
    CircleWord(l, block, t);
    var l' := l[t % 16 := NextWord(l, t)];
    forall k | 0 <= k < t + 1 && t + 1 <= k + 16 ensures l'[k % 16] == Schedule(block, k) {
      if k < t { Apart(k, t); }
    }
  }

  lemma Apart(k: nat, t: nat)
    requires k < t < k + 16
    ensures k % 16 != t % 16
  {
  }

  lemma RoleStep(v: seq<bv32>, t: nat, r: Registers, block: seq<bv8>, z: bv32, w: bv32)
    requires |block| == 64 && t < 80 && InRoles(v, t, r)
    requires z == MacroSum(v[Role(t, 4)], MacroF(t, v[Role(t, 1)], v[Role(t, 2)], v[Role(t, 3)]), Schedule(block, t),
                           MacroK(t), v[Role(t, 0)])
    requires w == Rol30(v[Role(t, 1)])
    ensures InRoles(v[Role(t, 4) := z][Role(t, 1) := w], t + 1, Round(block, t, r))
  {
    hide Rol5, Rol30, Rotated, F, Schedule, MacroF, MacroSum, Sum, Role;
    RolesMove(t);
    RoleBounds(t);
    RoleBounds(t + 1);
    SameF(t, r.b, r.c, r.d);
    Rotations(r.a);
    Rotations(r.b);
    SumSame(r.e, F(t, r.b, r.c, r.d), Schedule(block, t), K(t), r.a);
  }

  /** What the macros add to the register in the last role. */
  function MacroSum(z: bv32, f: bv32, w: bv32, k: bv32, v: bv32): bv32 {
    z + (f + w + k + Rol5(v))
  }

  lemma SumSame(z: bv32, f: bv32, w: bv32, k: bv32, v: bv32)
    ensures MacroSum(z, f, w, k, v) == Sum(Rol5(v), f, z, w, k)
  {
    hide Rol5;
  }

  /** A register variable is added to a word of the state. */
  function Back(word: bv32, v: bv32): (r: bv32)
    ensures r == Plus(word, v)
  {
    word + v
  }

  /** SHA1.cpp's `Transform`, its 80 unrolled rounds as a loop. */
  method Transform(s: State, block: seq<bv8>) returns (s': State)
    requires |s| == 5 && |block| == 64
    ensures s' == Compress(s, block)
  {
    hide InRoles, InCircle, Rounds, LittleWord, Plus, Back;
    ghost var r0 := Registers(s[0], s[1], s[2], s[3], s[4]);
    var l := new bv32[16](i requires 0 <= i < 16 => LittleWord(block, i));
    var v := new bv32[5](i requires 0 <= i < 5 => s[i]);
    Begin(s, block, l[..], v[..], r0);
    for t := 0 to 80
      invariant InCircle(l[..], block, t) && InRoles(v[..], t, Rounds(block, t, r0))
    {
      RoundsNext(block, t, r0);
      OneRound(l, v, block, t, Rounds(block, t, r0));
    }
    End(v[..], Rounds(block, 80, r0));
    s' := [Back(s[0], v[0]), Back(s[1], v[1]), Back(s[2], v[2]), Back(s[3], v[3]), Back(s[4], v[4])];
  }

  /** One macro call. */
  method OneRound(l: array<bv32>, v: array<bv32>, block: seq<bv8>, t: nat, ghost r: Registers)
    requires |block| == 64 && t < 80 && l != v && InCircle(l[..], block, t) && InRoles(v[..], t, r)
    modifies l, v
    ensures InCircle(l[..], block, t + 1) && InRoles(v[..], t + 1, Round(block, t, r))
  {
    hide Rol5, Rol30, F, Schedule, MacroK, MacroF, MacroSum, NextWord, Role, Round, InCircle, InRoles;
    Sizes(l[..], v[..], block, t, r);
    RoleBounds(t);
    RolesMove(t);
    ghost var l0, v0 := l[..], v[..];
    CircleStep(l0, block, t);
    var word := NextWord(l[..], t);
    l[t % 16] := word;
    var z := MacroSum(v[Role(t, 4)], MacroF(t, v[Role(t, 1)], v[Role(t, 2)], v[Role(t, 3)]), word, MacroK(t),
                      v[Role(t, 0)]);
    var w := Rol30(v[Role(t, 1)]);
    RoleStep(v0, t, r, block, z, w);
    v[Role(t, 4)] := z;
    v[Role(t, 1)] := w;
    assert l[..] == l0[t % 16 := word];
    assert v[..] == v0[Role(t, 4) := z][Role(t, 1) := w];
  }

  lemma Sizes(l: seq<bv32>, v: seq<bv32>, block: seq<bv8>, t: nat, r: Registers)
    requires |block| == 64 && t < 80 && InCircle(l, block, t) && InRoles(v, t, r)
    ensures |l| == 16 && |v| == 5
  {
  }

  lemma RoleBounds(t: nat)
    requires t <= 80
    ensures forall k :: 0 <= k < 5 ==> Role(t, k) < 5
  {
  }

  lemma RoundsNext(block: seq<bv8>, t: nat, r: Registers)
    requires |block| == 64
    ensures Rounds(block, t + 1, r) == Round(block, t, Rounds(block, t, r))
  {
  }

  lemma Begin(s: State, block: seq<bv8>, l: seq<bv32>, v: seq<bv32>, r0: Registers)
    requires |s| == 5 && |block| == 64 && r0 == Registers(s[0], s[1], s[2], s[3], s[4])
    requires |l| == 16 && (forall i :: 0 <= i < 16 ==> l[i] == LittleWord(block, i)) && v == s
    ensures InCircle(l, block, 0) && InRoles(v, 0, Rounds(block, 0, r0))
  {
  }

  lemma End(v: seq<bv32>, r: Registers)
    requires InRoles(v, 80, r)
    ensures |v| == 5 && v == [r.a, r.b, r.c, r.d, r.e]
  {
  }
}
