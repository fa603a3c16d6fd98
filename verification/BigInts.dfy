/** The multiple-precision integers of dtoa.c: every operation computes its exact value, in place or in a number that is
    large enough, and leaves no leading zero words. */
module BigInts {
  import opened Words

  /** dtoa.c's `Bigint`: `wds` words are in use of the 2^k that are there. */
  class Bigint {
    const k: nat
    const x: array<Word>
    var sign: bool
    var wds: nat

    /** `Balloc`. The words are not initialized. */
    constructor (k: nat)
      ensures this.k == k && x.Length == Pow(2, k) && wds == 0 && !sign
      ensures fresh(x)
    {
      this.k := k;
      this.x := new Word[Pow(2, k)];
      sign, wds := false, 0;
    }

    ghost predicate Sized()
      reads this
    {
      x.Length == Pow(2, k) && wds <= x.Length
    }

    ghost function Value(): nat
      requires Sized()
      reads this, x
    {
      Val(x[..], wds)
    }

    /** The top word is not zero, unless it is the only one. A zero may have no word in use at all: `mult` and `quorem`
        leave it like that. */
    ghost predicate Valid()
      reads this, x
    {
      Sized() && (wds >= 2 ==> x[wds - 1] != 0) && (wds == 0 ==> x[0] == 0)
    }
  }

  /** A value this large needs the top word. */
  lemma TopNeeded(x: seq<Word>, n: nat)
    requires 0 < n <= |x|
    ensures x[n - 1] != 0 <==> Val(x, n) >= Weight(n - 1)
  {
    hide Val, Weight;
    ValTop(x, n);
    if x[n - 1] != 0 { MulMonotone(1, x[n - 1], Weight(n - 1)); }
  }

  // ---------- multadd ----------

  /** The loop of `multadd`. */
  method MultAddWords(x: array<Word>, n: nat, m: nat, a: nat) returns (carry: Word)
    requires 0 < n <= x.Length && m < 0x8000_0000 && a < 0x8000_0000
    modifies x
    ensures Val(x[..], n) + carry * Weight(n) == Val(old(x[..]), n) * m + a
    ensures forall j :: n <= j < x.Length ==> x[j] == old(x[j])
  {
    hide Val, Weight, ScaleDone;
    ghost var x0 := x[..];
    ScaleBegin(x0, m, a);
    var c := a;
    for i := 0 to n
      invariant 0 <= c < 0x8000_0000
      invariant ScaleDone(x[..], x0, i, m, a, c)
      invariant forall j :: i <= j < x.Length ==> x[j] == x0[j]
    {
      ScaleStep(x[..], x0, i, m, a, c);
      var y := x[i] * m + c;
      x[i] := y % BASE;
      c := y / BASE;
    }
    carry := c;
    ScaleEnd(x[..], x0, n, m, a, c);
  }

  /** After `i` words of the multiplication. */
  ghost predicate ScaleDone(x: seq<Word>, x0: seq<Word>, i: nat, m: nat, a: nat, c: nat) {
    i <= |x| && i <= |x0| && Val(x, i) + c * Weight(i) == Val(x0, i) * m + a
  }

  lemma ScaleBegin(x: seq<Word>, m: nat, a: nat)
    ensures ScaleDone(x, x, 0, m, a, a)
  {
  }

  lemma ScaleEnd(x: seq<Word>, x0: seq<Word>, i: nat, m: nat, a: nat, c: nat)
    requires ScaleDone(x, x0, i, m, a, c)
    ensures i <= |x| && i <= |x0| && Val(x, i) + c * Weight(i) == Val(x0, i) * m + a
  {
  }

  lemma ValZero(x: seq<Word>, y: seq<Word>)
    ensures Val(x, 0) == Val(y, 0) == 0 && Weight(0) == 1
  {
  }

  lemma CarryBound(w: Word, m: nat, c: nat)
    requires m < 0x8000_0000 && c < 0x8000_0000
    ensures 0 <= (w * m + c) / BASE < 0x8000_0000
  {
    MulMonotone(0, w, m);
    MulMonotone(w, BASE - 1, m);
    Distribute(BASE - 1, 1, m);
  }

  lemma ScaleStep(x: seq<Word>, x0: seq<Word>, i: nat, m: nat, a: nat, c: nat)
    requires i < |x| == |x0| && x[i] == x0[i] && m < 0x8000_0000 && c < 0x8000_0000
    requires ScaleDone(x, x0, i, m, a, c)
    ensures var y := x[i] * m + c;
      0 <= y / BASE < 0x8000_0000 && ScaleDone(x[i := y % BASE], x0, i + 1, m, a, y / BASE)
  {
    hide Val, Weight;
    var y := x[i] * m + c;
    CarryBound(x[i], m, c);
    CarryStep(Val(x, i), c, Weight(i), x[i], m, Val(x0, i) * m + a);
    ValWrite(x, i, y % BASE);
    ValNext(x0, i);
    Distribute(Val(x0, i), x0[i] * Weight(i), m);
    Rearrange(x0[i], Weight(i), m);
  }

  lemma Rearrange(a: int, b: int, c: int)
    ensures (a * b) * c == a * c * b
  {
  }

  /** dtoa.c's `multadd` */
  method MultAdd(b: Bigint, m: nat, a: nat) returns (r: Bigint)
    requires b.Valid() && b.wds >= 1 && m < 0x8000_0000 && a < 0x8000_0000
    modifies b, b.x
    ensures r == b || (fresh(r) && fresh(r.x))
    ensures r.Sized() && r.wds >= 1 && r.Value() == old(b.Value()) * m + a
    ensures m > 0 ==> r.Valid()
  {
    hide Val, Weight, Pow;
    ghost var x0 := b.x[..];
    var carry := MultAddWords(b.x, b.wds, m, a);
    if carry != 0 {
      r := AddWord(b, carry);
    } else {
      r := b;
      if m > 0 && b.wds >= 2 { StillTop(x0, b.x[..], b.wds, m, a); }
    }
  }

  lemma StillTop(x0: seq<Word>, x: seq<Word>, n: nat, m: nat, a: nat)
    requires 2 <= n <= |x| == |x0| && m > 0 && x0[n - 1] != 0 && Val(x, n) == Val(x0, n) * m + a
    ensures x[n - 1] != 0
  {
    hide Val, Weight;
    TopNeeded(x0, n);
    TopNeeded(x, n);
    MulMonotone(1, m, Val(x0, n));
  }

  /** Puts one more word on top, in a larger number if there is no room. */
  method AddWord(b: Bigint, w: Word) returns (r: Bigint)
    requires b.Sized() && b.wds >= 1 && w != 0
    modifies b, b.x
    ensures r == b || (fresh(r) && fresh(r.x))
    ensures r.Valid() && r.wds >= 1 && r.Value() == old(b.Value()) + w * Weight(old(b.wds))
  {
    hide Val, Weight, Pow;
    r := b;
    var wds := b.wds;
    if wds >= b.x.Length {
      PowNext(2, b.k);
      r := new Bigint(b.k + 1);
      r.sign := b.sign;
      CopyWords(r.x, 0, b.x, wds);
      ValSame(r.x[..], b.x[..], wds);
    }
    ValWrite(r.x[..], wds, w);
    r.x[wds] := w;
    r.wds := wds + 1;
  }

  /** Copies `n` words to `to` and above. */
  method CopyWords(x: array<Word>, to: nat, y: array<Word>, n: nat)
    requires n <= y.Length && to + n <= x.Length && x != y
    modifies x
    ensures forall j :: 0 <= j < n ==> x[to + j] == y[j]
    ensures forall j :: 0 <= j < to ==> x[j] == old(x[j])
  {
    for i := 0 to n
      invariant forall j :: 0 <= j < i ==> x[to + j] == y[j]
      invariant forall j :: 0 <= j < to ==> x[j] == old(x[j])
    {
      x[to + i] := y[i];
    }
  }

  // ---------- mult ----------

  /** The inner loop of `mult`: adds `y` times the words of `a` to the words of `c` from `j` on. */
  method AddRow(c: array<Word>, j: nat, a: array<Word>, wa: nat, y: Word)
    requires 0 < wa <= a.Length && j + wa < c.Length && a != c && c[j + wa] == 0
    modifies c
    ensures Val(c[..], j + wa + 1) == Val(old(c[..]), j + wa) + Val(a[..], wa) * y * Weight(j)
    ensures forall t :: j + wa < t < c.Length ==> c[t] == old(c[t])
  {
    hide Val, Weight, RowDone;
    ghost var c0 := c[..];
    var carry := 0;
    RowBegin(c0, a[..], j, y);
    for i := 0 to wa
      invariant 0 <= carry < BASE
      invariant RowDone(c[..], c0, a[..], j, i, y, carry)
      invariant forall t :: j + i <= t < c.Length ==> c[t] == c0[t]
    {
      RowStep(c[..], c0, a[..], j, i, y, carry);
      var z := a[i] * y + c[j + i] + carry;
      c[j + i] := z % BASE;
      carry := z / BASE;
    }
    RowEnd(c[..], c0, a[..], j, wa, y, carry);
    c[j + wa] := carry;
  }

  /** After `i` words of the row. */
  ghost predicate RowDone(c: seq<Word>, c0: seq<Word>, a: seq<Word>, j: nat, i: nat, y: Word, carry: nat) {
    && i <= |a| && j + i <= |c| && j + i <= |c0|
    && Val(c, j + i) + carry * Weight(j + i) == Val(c0, j + i) + Val(a, i) * y * Weight(j)
  }

  lemma RowBegin(c: seq<Word>, a: seq<Word>, j: nat, y: Word)
    requires j <= |c|
    ensures RowDone(c, c, a, j, 0, y, 0)
  {
  }

  lemma RowEnd(c: seq<Word>, c0: seq<Word>, a: seq<Word>, j: nat, i: nat, y: Word, carry: Word)
    requires RowDone(c, c0, a, j, i, y, carry) && j + i < |c|
    ensures Val(c[j + i := carry], j + i + 1) == Val(c0, j + i) + Val(a, i) * y * Weight(j)
  {
    hide Val, Weight;
    ValWrite(c, j + i, carry);
  }

  lemma ProductBound(v: Word, w: Word, c: nat)
    requires c <= 2 * (BASE - 1)
    ensures 0 <= v * w + c && (v * w + c) / BASE < BASE
  {
    MulMonotone(v, BASE - 1, w);
    MulMonotone(w, BASE - 1, BASE - 1);
    MulMonotone(0, v, w);
  }

  lemma RowStep(c: seq<Word>, c0: seq<Word>, a: seq<Word>, j: nat, i: nat, y: Word, carry: Word)
    requires i < |a| && j + i < |c| == |c0| && c[j + i] == c0[j + i]
    requires RowDone(c, c0, a, j, i, y, carry)
    ensures var z := a[i] * y + c[j + i] + carry;
      0 <= z / BASE < BASE && RowDone(c[j + i := z % BASE], c0, a, j, i + 1, y, z / BASE)
  {
    hide Val;
    var z := a[i] * y + c[j + i] + carry;
    var w := Weight(j + i);
    ProductBound(a[i], y, c[j + i] + carry);
    ValWrite(c, j + i, z % BASE);
    ValNext(c0, j + i);
    ValNext(a, i);
    PowAdd(BASE, j, i);
    hide Weight, Pow;
    Distribute(c[j + i], carry, w);
    CarryStep(Val(c, j + i), c[j + i] + carry, w, a[i], y, Val(c0, j + i + 1) + Val(a, i) * y * Weight(j));
    RowProduct(Val(a, i), a[i], y, Weight(i), Weight(j));
  }

  lemma RowProduct(v: int, d: int, y: int, wi: int, wj: int)
    ensures (v + d * wi) * y * wj == v * y * wj + d * y * (wj * wi)
  {
    Distribute(v, d * wi, y);
    Distribute(v * y, (d * wi) * y, wj);
    assert ((d * wi) * y) * wj == d * y * (wj * wi) by {
      Rearrange(d, wi, y);
      Assoc(d * y, wi, wj);
    }
  }

  /** The outer loop of `mult`. */
  method MultWords(c: array<Word>, a: array<Word>, wa: nat, b: array<Word>, wb: nat)
    requires wb <= wa <= a.Length && wb <= b.Length && wa + wb <= c.Length && c != a && c != b
    modifies c
    ensures Val(c[..], wa + wb) == Val(a[..], wa) * Val(b[..], wb)
  {
    hide Val, Weight;
    ClearWords(c, wa + wb);
    ValZero(b[..], c[..]);
    ValZeros(c[..], 0, wa);
    for j := 0 to wb
      invariant Val(c[..], wa + j) == Val(a[..], wa) * Val(b[..], j)
      invariant forall t :: wa + j <= t < wa + wb ==> c[t] == 0
    {
      var y := b[j];
      ValNext(b[..], j);
      MultStep(Val(a[..], wa), Val(b[..], j), y, Weight(j));
      if y != 0 {
        AddRow(c, j, a, wa, y);
      } else {
        ValNext(c[..], wa + j);
      }
    }
  }

  /** Drops leading zero words. */
  method TrimWords(x: array<Word>, n: nat) returns (m: nat)
    requires n <= x.Length
    ensures m <= n && Val(x[..], m) == Val(x[..], n)
    ensures m > 0 ==> x[m - 1] != 0
    ensures forall j :: m <= j < n ==> x[j] == 0
  {
    m := n;
    while m > 0 && x[m - 1] == 0
      invariant m <= n && Val(x[..], m) == Val(x[..], n)
      invariant forall j :: m <= j < n ==> x[j] == 0
    {
      m := m - 1;
    }
  }

  /** dtoa.c's `mult`. The product of two zeros without words has no word either, and its first word is not set. */
  method Mult(a0: Bigint, b0: Bigint) returns (c: Bigint)
    requires a0.Valid() && b0.Valid()
    ensures fresh(c) && fresh(c.x) && c.Sized()
    ensures a0.wds >= 1 || b0.wds >= 1 ==> c.Valid()
    ensures c.Value() == a0.Value() * b0.Value()
    ensures c.wds == 0 <==> c.Value() == 0
  {
    hide Val, Weight, Pow;
    var a, b := a0, b0;
    if a.wds < b.wds { a, b := b, a; }
    var wc := a.wds + b.wds;
    PowNext(2, a.k);
    c := new Bigint(if wc > a.x.Length then a.k + 1 else a.k);
    MultWords(c.x, a.x, a.wds, b.x, b.wds);
    var m := TrimWords(c.x, wc);
    c.wds := m;
    ValZero(c.x[..], c.x[..]);
    if m > 0 { TopNeeded(c.x[..], m); }
  }

  lemma MultStep(a: int, b: int, y: int, w: int)
    ensures a * (b + y * w) == a * b + a * y * w
  {
    Distribute(b, y * w, a);
    Assoc(a, y, w);
  }

  method ClearWords(x: array<Word>, n: nat)
    requires n <= x.Length
    modifies x
    ensures forall j :: 0 <= j < n ==> x[j] == 0
  {
    for i := 0 to n
      invariant forall j :: 0 <= j < i ==> x[j] == 0
    {
      x[i] := 0;
    }
  }

  // ---------- lshift ----------

  /** Shifting one word left by `s`, with `z` coming in from the right: the two parts that are stored (their bits do not
      overlap, so that `|` adds) and passed on are the digits of the sum. */
  lemma ShiftWord(w: Word, s: nat, z: nat)
    requires 0 < s < 32 && z < Pow(2, s)
    ensures var y := w * Pow(2, s) + z;
      && w * Pow(2, s) % BASE + z == y % BASE
      && w / Pow(2, 32 - s) == y / BASE
      && w / Pow(2, 32 - s) < Pow(2, s)
  {
    hide Pow;
    var p, q := Pow(2, s), Pow(2, 32 - s);
    PowAdd(2, s, 32 - s);
    Pow2Word();
    var hi, lo := w / q, w % q;
    assert w == hi * q + lo;
    Distribute(hi * q, lo, p);
    assert (hi * q) * p == hi * BASE by { Assoc(hi, q, p); }
    MulMonotone(lo + 1, q, p);
    Distribute(lo, 1, p);
    MulMonotone(0, lo, p);
    Digits(w * p, hi, lo * p);
    Digits(w * p + z, hi, lo * p + z);
    if hi >= p { MulMonotone(p, hi, q); }
  }

  lemma Digits(y: int, hi: int, lo: int)
    requires y == hi * BASE + lo && 0 <= lo < BASE
    ensures y / BASE == hi && y % BASE == lo
  {
  }

  /** The loop of `lshift` for a shift by `s` bits, into the words from `n` on. */
  method ShiftWords(x1: array<Word>, n: nat, x: array<Word>, wds: nat, s: nat)
    requires x1 != x && wds <= x.Length && n + wds < x1.Length && 0 < s < 32
    requires forall j :: 0 <= j < n ==> x1[j] == 0
    modifies x1
    ensures Val(x1[..], n + wds + 1) == Val(x[..], wds) * Pow(2, s) * Weight(n)
  {
    hide Val, Weight, Pow;
    var z := 0;
    ValZero(x[..], x1[..]);
    ValZeros(x1[..], 0, n);
    for i := 0 to wds
      invariant 0 <= z < Pow(2, s)
      invariant Val(x1[..], n + i) + z * Weight(n + i) == Val(x[..], i) * Pow(2, s) * Weight(n)
    {
      ShiftWord(x[i], s, z);
      ShiftStep(x1[..], x[..], n, i, Pow(2, s), z);
      x1[n + i] := x[i] * Pow(2, s) % BASE + z;
      z := x[i] / Pow(2, 32 - s);
    }
    PowMonotone(2, s, 32);
    Pow2Word();
    ValWrite(x1[..], n + wds, z);
    x1[n + wds] := z;
  }

  lemma ShiftStep(x1: seq<Word>, x: seq<Word>, n: nat, i: nat, m: nat, z: nat)
    requires i < |x| && n + i < |x1|
    requires Val(x1, n + i) + z * Weight(n + i) == Val(x, i) * m * Weight(n)
    ensures var y := x[i] * m + z;
      Val(x1[n + i := y % BASE], n + i + 1) + (y / BASE) * Weight(n + i + 1) == Val(x, i + 1) * m * Weight(n)
  {
    hide Val;
    var y := x[i] * m + z;
    ValWrite(x1, n + i, y % BASE);
    ValNext(x1, n + i);
    ValNext(x, i);
    PowAdd(BASE, n, i);
    hide Weight, Pow;
    CarryStep(Val(x1, n + i), z, Weight(n + i), x[i], m, Val(x, i) * m * Weight(n));
    RowProduct(Val(x, i), x[i], m, Weight(i), Weight(n));
  }

  /** dtoa.c's `lshift` */
  method LShift(b: Bigint, k: nat) returns (r: Bigint)
    requires b.Valid() && b.wds >= 1
    ensures fresh(r) && fresh(r.x) && r.Sized() && r.wds >= 1
    ensures r.Value() == b.Value() * Pow(2, k)
    ensures b.Value() > 0 ==> r.Valid()
  {
    hide Val, Weight, Pow;
    var n, s := k / 32, k % 32;
    var k1, i := b.k, b.x.Length;
    var n1 := n + b.wds + 1;
    while n1 > i
      invariant i == Pow(2, k1)
    {
      PowNext(2, k1);
      i, k1 := 2 * i, k1 + 1;
    }
    r := new Bigint(k1);
    ClearWords(r.x, n);
    if s != 0 {
      ShiftWords(r.x, n, b.x, b.wds, s);
    } else {
      MoveWords(r.x, n, b.x, b.wds);
    }
    r.wds := if r.x[n + b.wds] != 0 && s != 0 then n1 else n1 - 1;
    Shifted(b.x[..], b.wds, r.x[..], r.wds, k);
  }

  /** The words in use after a shift. */
  lemma Shifted(x: seq<Word>, m: nat, y: seq<Word>, w: nat, k: nat)
    requires 0 < m <= |x| && m + k / 32 < |y|
    requires var n := k / 32;
      if k % 32 != 0 then Val(y, n + m + 1) == Val(x, m) * Pow(2, k % 32) * Weight(n)
      else Val(y, n + m) == Val(x, m) * Weight(n)
    requires w == m + k / 32 + if y[m + k / 32] != 0 && k % 32 != 0 then 1 else 0
    ensures Val(y, w) == Val(x, m) * Pow(2, k)
    ensures Val(x, m) > 0 && (m >= 2 ==> x[m - 1] != 0) ==> y[w - 1] != 0
  {
    hide Val, Weight, Pow;
    var n := k / 32;
    PowNext(2, 0);
    ShiftTotal(Val(x, m), k);
    ValNext(y, n + m);
    if Val(x, m) > 0 && (m >= 2 ==> x[m - 1] != 0) && w == n + m { ShiftedTop(x, m, y, k); }
  }

  /** A shift by whole words. */
  method MoveWords(x1: array<Word>, n: nat, x: array<Word>, wds: nat)
    requires x1 != x && wds <= x.Length && n + wds < x1.Length
    requires forall j :: 0 <= j < n ==> x1[j] == 0
    modifies x1
    ensures Val(x1[..], n + wds) == Val(x[..], wds) * Weight(n)
  {
    hide Val, Weight;
    ValZero(x[..], x1[..]);
    ValZeros(x1[..], 0, n);
    for i := 0 to wds
      invariant Val(x1[..], n + i) == Val(x[..], i) * Weight(n)
    {
      ShiftStep(x1[..], x[..], n, i, 1, 0);
      x1[n + i] := x[i];
    }
  }

  lemma ShiftTotal(v: int, k: nat)
    ensures v * Pow(2, k % 32) * Weight(k / 32) == v * Pow(2, k)
  {
    hide Weight, Pow;
    WeightPow2(k / 32);
    PowAdd(2, k % 32, 32 * (k / 32));
    Assoc(v, Pow(2, k % 32), Weight(k / 32));
  }

  lemma ShiftedTop(x: seq<Word>, m: nat, y: seq<Word>, k: nat)
    requires 0 < m <= |x| && (m >= 2 ==> x[m - 1] != 0) && Val(x, m) > 0
    requires m + k / 32 <= |y| && Val(y, m + k / 32) == Val(x, m) * Pow(2, k)
    ensures y[m + k / 32 - 1] != 0
  {
    hide Val, Pow;
    var n := k / 32;
    ValZero(x, y);
    ValNext(x, 0);
    TopNeeded(x, m);
    TopNeeded(y, m + n);
    PowAdd(BASE, m - 1, n);
    WeightPow2(n);
    PowMonotone(2, 32 * n, k);
    MulMonotone(Weight(m - 1), Val(x, m), Pow(2, k));
    MulMonotone(Weight(n), Pow(2, k), Weight(m - 1));
  }

  // ---------- cmp ----------

  /** dtoa.c's `cmp`: the sign of a - b, except that a zero without words is taken to be smaller than any other zero.
      Two of them cannot be compared. */
  method Cmp(a: Bigint, b: Bigint) returns (i: int)
    requires a.Valid() && b.Valid() && (a.wds > 0 || b.wds > 0)
    ensures (a.wds > 0 || b.Value() > 0) && (b.wds > 0 || a.Value() > 0) ==>
      (i < 0 <==> a.Value() < b.Value()) && (i == 0 <==> a.Value() == b.Value())
    ensures a.wds == 0 ==> i < 0
    ensures b.wds == 0 ==> i > 0
  {
    hide Val, Pow;
    ValZero(a.x[..], b.x[..]);
    i := a.wds - b.wds;
    if i != 0 {
      if i < 0 && (a.wds > 0 || b.Value() > 0) { LongerIsLarger(a.x[..], a.wds, b.x[..], b.wds); }
      if i > 0 && (b.wds > 0 || a.Value() > 0) { LongerIsLarger(b.x[..], b.wds, a.x[..], a.wds); }
      return;
    }
    var j := a.wds;
    while j > 0
      invariant 0 <= j <= a.wds
      invariant forall t :: j <= t < a.wds ==> a.x[t] == b.x[t]
    {
      j := j - 1;
      if a.x[j] != b.x[j] {
        if a.x[j] < b.x[j] { ValDecided(a.x[..], b.x[..], a.wds, j); } else { ValDecided(b.x[..], a.x[..], a.wds, j); }
        return if a.x[j] < b.x[j] then -1 else 1;
      }
    }
    ValSame(a.x[..], b.x[..], a.wds);
    return 0;
  }

  lemma LongerIsLarger(x: seq<Word>, m: nat, y: seq<Word>, n: nat)
    requires m < n <= |y| && m <= |x| && (n >= 2 ==> y[n - 1] != 0) && (m == 0 ==> Val(y, n) > 0)
    ensures Val(x, m) < Val(y, n)
  {
    hide Val;
    ValZero(x, y);
    if n >= 2 { ValLonger(x, m, y, n); }
  }

  // ---------- diff ----------

  const WIDE: nat := BASE * BASE

  /** A 64-bit subtraction that wraps: bit 32 of the outcome is the borrow. */
  lemma BorrowStep(d: int)
    requires 0 - BASE <= d < BASE
    ensures var y := d % WIDE;
      && (y / BASE) % 2 == (if d < 0 then 1 else 0)
      && y % BASE == d + BASE * ((y / BASE) % 2)
      && 0 <= y % BASE < BASE
  {
    if d < 0 {
      assert d % WIDE == d + WIDE;
      Digits(d + WIDE, BASE - 1, d + BASE);
    } else {
      Digits(d, 0, d);
    }
  }

  /** The loops of `diff`, on numbers of `wa` >= `wb` words. */
  method SubWords(c: array<Word>, a: array<Word>, wa: nat, b: array<Word>, wb: nat) returns (borrow: nat)
    requires wb <= wa <= a.Length && wb <= b.Length && wa <= c.Length && c != a && c != b
    modifies c
    ensures borrow <= 1 && Val(c[..], wa) + Val(b[..], wb) == Val(a[..], wa) + borrow * Weight(wa)
  {
    hide Val, Weight;
    borrow := 0;
    ValZero(a[..], b[..]);
    ValZero(c[..], c[..]);
    for i := 0 to wb
      invariant borrow <= 1
      invariant Val(c[..], i) + Val(b[..], i) == Val(a[..], i) + borrow * Weight(i)
    {
      var y := (a[i] - b[i] - borrow) % WIDE;
      BorrowStep(a[i] - b[i] - borrow);
      SubStep(c[..], a[..], i, b[i], borrow, Val(b[..], i));
      ValNext(b[..], i);
      borrow := (y / BASE) % 2;
      c[i] := y % BASE;
    }
    for i := wb to wa
      invariant borrow <= 1
      invariant Val(c[..], i) + Val(b[..], wb) == Val(a[..], i) + borrow * Weight(i)
    {
      var y := (a[i] - borrow) % WIDE;
      BorrowStep(a[i] - borrow);
      SubStep(c[..], a[..], i, 0, borrow, Val(b[..], wb));
      borrow := (y / BASE) % 2;
      c[i] := y % BASE;
    }
  }

  lemma SubStep(c: seq<Word>, a: seq<Word>, i: nat, w: Word, borrow: nat, v: nat)
    requires i < |c| && i < |a| && borrow <= 1
    requires Val(c, i) + v == Val(a, i) + borrow * Weight(i)
    ensures var y := (a[i] - w - borrow) % WIDE;
      && 0 <= y % BASE < BASE
      && Val(c[i := y % BASE], i + 1) + v + w * Weight(i) == Val(a, i + 1) + (y / BASE) % 2 * Weight(i + 1)
  {
    hide Val, Weight;
    var y := (a[i] - w - borrow) % WIDE;
    BorrowStep(a[i] - w - borrow);
    ValWrite(c, i, y % BASE);
    ValNext(a, i);
    SubProduct(y % BASE, a[i], w, borrow, (y / BASE) % 2, Weight(i));
  }

  lemma SubProduct(d: int, a: int, w: int, borrow: int, next: int, p: int)
    requires d == a - w - borrow + BASE * next
    ensures d * p + w * p + borrow * p == a * p + next * (BASE * p)
  {
    Distribute(d, w, p);
    Distribute(d + w, borrow, p);
    Distribute(a, BASE * next, p);
    Assoc(next, BASE, p);
  }

  /** dtoa.c's `diff`: the absolute value of a - b, with `sign` set if that is negative. */
  method Diff(a: Bigint, b: Bigint) returns (c: Bigint)
    requires a.Valid() && b.Valid() && a.wds >= 1 && b.wds >= 1
    ensures fresh(c) && fresh(c.x) && c.Valid() && c.wds >= 1
    ensures c.sign <==> a.Value() < b.Value()
    ensures c.Value() == if a.Value() < b.Value() then b.Value() - a.Value() else a.Value() - b.Value()
  {
    hide Val, Weight, Pow;
    var i := Cmp(a, b);
    if i == 0 {
      PowNext(2, 0);
      c := new Bigint(0);
      c.x[0] := 0;
      c.wds := 1;
      ValZero(c.x[..], c.x[..]);
      ValNext(c.x[..], 0);
    } else if i < 0 {
      c := Subtract(b, a);
      c.sign := true;
    } else {
      c := Subtract(a, b);
    }
  }

  /** The part of `diff` for a > b. */
  method Subtract(a: Bigint, b: Bigint) returns (c: Bigint)
    requires a.Valid() && b.Valid() && a.wds >= 1 && b.wds >= 1 && a.Value() > b.Value()
    ensures fresh(c) && fresh(c.x) && c.Valid() && c.wds >= 1 && !c.sign
    ensures c.Value() == a.Value() - b.Value()
  {
    hide Val, Weight, Pow;
    DiffShape(a.x[..], a.wds, b.x[..], b.wds);
    c := new Bigint(a.k);
    var borrow := SubWords(c.x, a.x, a.wds, b.x, b.wds);
    NoBorrow(a.x[..], c.x[..], a.wds, Val(b.x[..], b.wds), borrow);
    var wa := TrimWords(c.x, a.wds);
    ValZero(c.x[..], c.x[..]);
    c.wds := wa;
  }

  lemma DiffShape(x: seq<Word>, m: nat, y: seq<Word>, n: nat)
    requires 0 < m <= |x| && 0 < n <= |y| && (n >= 2 ==> y[n - 1] != 0) && Val(x, m) > Val(y, n)
    ensures n <= m
  {
    if m < n { LongerIsLarger(x, m, y, n); }
  }

  /** When the larger number comes first, nothing is borrowed in the end. */
  lemma NoBorrow(a: seq<Word>, c: seq<Word>, n: nat, v: nat, borrow: nat)
    requires n <= |a| && n <= |c| && borrow <= 1
    requires Val(c, n) + v == Val(a, n) + borrow * Weight(n) && v <= Val(a, n)
    ensures borrow == 0
  {
    hide Val, Weight;
    ValBound(c, n);
  }
}
