/** dtoa.c's `quorem`: one digit of a quotient, from an estimate that is corrected at most once. */
module Quotients {
  import opened Words
  import opened BigInts

  // ---------- hi0bits and dshift ----------

  /** dtoa.c's `hi0bits`: how far a word can be shifted left. A test of the upper bits of a word is a comparison. */
  method Hi0Bits(x0: Word) returns (k: nat)
    ensures x0 == 0 ==> k == 32
    ensures x0 != 0 ==> k < 32 && 0x8000_0000 <= x0 * Pow(2, k) < BASE
  {
    hide Shifted;
    var x := x0;
    k := 0;
    ShiftMore(x0, 0, x0);
    if x < 0x1_0000 { k, x := 16, x * 0x1_0000; }
    ShiftMore(x0, k, x);
    if x < 0x100_0000 { k, x := k + 8, x * 0x100; }
    ShiftMore(x0, k, x);
    if x < 0x1000_0000 { k, x := k + 4, x * 0x10; }
    ShiftMore(x0, k, x);
    if x < 0x4000_0000 { k, x := k + 2, x * 4; }
    ShiftMore(x0, k, x);
    if x < 0x8000_0000 {
      k := k + 1;
      if x < 0x4000_0000 { return 32; }
    }
    assert x0 != 0 ==> exists y :: 0x8000_0000 <= y < BASE && Shifted(x0, k, y) by {
      assert x0 != 0 ==> Shifted(x0, k, if x < 0x8000_0000 then 2 * x else x);
    }
    ShiftEnd(x0, k);
  }

  ghost predicate Shifted(x0: nat, k: nat, x: nat) {
    x == x0 * Pow(2, k)
  }

  lemma ShiftMore(x0: nat, k: nat, x: nat)
    requires (k == 0 && x == x0) || Shifted(x0, k, x)
    ensures Shifted(x0, k, x) && (x == 0 <==> x0 == 0)
    ensures Shifted(x0, k + 16, x * 0x1_0000) && Shifted(x0, k + 8, x * 0x100) && Shifted(x0, k + 4, x * 0x10)
    ensures Shifted(x0, k + 2, x * 4) && Shifted(x0, k + 1, 2 * x)
  {
    assert Pow(2, 0) == 1 && Pow(2, 1) == 2 && Pow(2, 2) == 4 && Pow(2, 4) == 0x10;
    hide Pow;
    PowAdd(2, 4, 4);
    Pow2Word();
    var p := Pow(2, k);
    Times(x0, k, 16);
    Times(x0, k, 8);
    Times(x0, k, 4);
    Times(x0, k, 2);
    Times(x0, k, 1);
    if x0 > 0 { MulMonotone(1, x0, p); }
  }

  lemma Times(x: nat, k: nat, j: nat)
    ensures x * Pow(2, k + j) == x * Pow(2, k) * Pow(2, j)
  {
    hide Pow;
    PowAdd(2, k, j);
    Assoc(x, Pow(2, k), Pow(2, j));
  }

  lemma ShiftEnd(x0: nat, k: nat)
    requires x0 != 0 ==> exists y :: 0x8000_0000 <= y < BASE && Shifted(x0, k, y)
    ensures x0 != 0 ==> 0x8000_0000 <= x0 * Pow(2, k) < BASE
  {
  }

  // ---------- quorem ----------

  /** After `i` words of taking `q` times `s` from `b0`. */
  ghost predicate TakeDone(b: seq<Word>, b0: seq<Word>, s: seq<Word>, i: nat, q: nat, carry: nat, borrow: nat) {
    && i <= |b| && i <= |b0| && i <= |s|
    && Val(b, i) + Val(s, i) * q == Val(b0, i) + (carry + borrow) * Weight(i)
  }

  lemma TakeBegin(b: seq<Word>, s: seq<Word>, q: nat)
    ensures TakeDone(b, b, s, 0, q, 0, 0)
  {
  }

  lemma TakeStep(b: seq<Word>, b0: seq<Word>, s: seq<Word>, i: nat, q: Word, carry: Word, borrow: nat)
    requires i < |b| == |b0| && i < |s| && b[i] == b0[i] && borrow <= 1 && TakeDone(b, b0, s, i, q, carry, borrow)
    ensures var ys := s[i] * q + carry;
      var y := (b[i] - ys % BASE - borrow) % WIDE;
      && 0 <= ys / BASE < BASE
      && 0 <= y % BASE < BASE
      && TakeDone(b[i := y % BASE], b0, s, i + 1, q, ys / BASE, (y / BASE) % 2)
  {
    hide Val, Weight;
    var ys := s[i] * q + carry;
    var y := (b[i] - ys % BASE - borrow) % WIDE;
    var w := Weight(i);
    ProductBound(s[i], q, carry);
    BorrowStep(b[i] - ys % BASE - borrow);
    ValWrite(b, i, y % BASE);
    ValNext(b0, i);
    ValNext(s, i);
    Distribute(Val(s, i), s[i] * w, q);
    Rearrange(s[i], w, q);
    TakeProduct(y % BASE, b[i], s[i] * q, carry, borrow, ys / BASE, (y / BASE) % 2, w);
  }

  lemma TakeProduct(d: int, b: int, sq: int, carry: int, borrow: int, carry': int, borrow': int, w: int)
    requires d == b - (sq + carry - carry' * BASE) - borrow + BASE * borrow'
    ensures d * w + sq * w + (carry + borrow) * w == b * w + (carry' + borrow') * (BASE * w)
  {
    Distribute(d, sq, w);
    Distribute(d + sq, carry + borrow, w);
    Assoc(carry' + borrow', BASE, w);
    Distribute(b, (carry' + borrow') * BASE, w);
    Distribute(carry', borrow', BASE);
  }

  /** The loops of `quorem`: takes `q` times the number `s` of `n` words from `b`. The second loop of the source is the
      same with q = 1. */
  method TakeWords(b: array<Word>, s: array<Word>, n: nat, q: Word)
    requires n <= b.Length && n <= s.Length && b != s
    requires Val(s[..], n) * q <= Val(b[..], n)
    modifies b
    ensures Val(b[..], n) == Val(old(b[..]), n) - Val(s[..], n) * q
  {
    hide Val, Weight, TakeDone;
    ghost var b0 := b[..];
    var carry, borrow := 0, 0;
    TakeBegin(b0, s[..], q);
    for i := 0 to n
      invariant 0 <= carry < BASE && 0 <= borrow <= 1
      invariant TakeDone(b[..], b0, s[..], i, q, carry, borrow)
      invariant forall t :: i <= t < b.Length ==> b[t] == b0[t]
    {
      TakeStep(b[..], b0, s[..], i, q, carry, borrow);
      var ys := s[i] * q + carry;
      carry := ys / BASE;
      var y := (b[i] - ys % BASE - borrow) % WIDE;
      borrow := (y / BASE) % 2;
      b[i] := y % BASE;
    }
    TakeEnd(b[..], b0, s[..], n, q, carry, borrow);
  }

  /** When there is enough to take from, nothing is left over. */
  lemma TakeEnd(b: seq<Word>, b0: seq<Word>, s: seq<Word>, n: nat, q: nat, carry: nat, borrow: nat)
    requires TakeDone(b, b0, s, n, q, carry, borrow) && Val(s, n) * q <= Val(b0, n)
    ensures Val(b, n) == Val(b0, n) - Val(s, n) * q
  {
    hide Val, Weight;
    ValBound(b, n);
    if carry + borrow > 0 { MulMonotone(1, carry + borrow, Weight(n)); }
  }

  /** The part of `quorem` that drops leading zero words, when the number had `n + 1` words. */
  method Shrink(b: Bigint, n0: nat)
    requires b.Sized() && b.wds == n0 + 1
    modifies b
    ensures b.Valid() && b.wds <= n0 + 1 && b.Value() == old(b.Value())
    ensures b.wds < n0 + 1 <==> b.x[n0] == 0
  {
    hide Pow;
    var n := n0;
    if b.x[n] == 0 {
      while n - 1 > 0 && b.x[n - 1] == 0
        invariant 0 <= n <= n0 && (n0 > 0 ==> n > 0)
        invariant Val(b.x[..], n) == Val(b.x[..], n0 + 1)
      {
        n := n - 1;
      }
      b.wds := n;
    }
  }

  /** The estimate from the top words is the quotient, or one less. */
  lemma Estimate(b: nat, s: nat, bt: nat, st: nat, w: nat, q: nat)
    requires bt * w <= b < (bt + 1) * w && st * w <= s < (st + 1) * w && bt < BASE
    requires st >= 0x1_0000 && q == bt / (st + 1)
    ensures s * q <= b && b < s * (q + 2) && q < 0x1_0000
  {
    var r := bt % (st + 1);
    assert bt == q * (st + 1) + r;
    assert s * q <= b by {
      MulMonotone(s, (st + 1) * w, q);
      Rearrange(st + 1, w, q);
      MulMonotone((st + 1) * q, bt, w);
      assert (st + 1) * w * q == (st + 1) * q * w;
    }
    assert q < 0x1_0000 by {
      if q >= 0x1_0000 { MulMonotone(0x1_0000, q, st + 1); }
    }
    // b < (q + 1) * (st + 1) * w <= (q + 2) * st * w, since q + 1 <= st
    assert bt + 1 <= (q + 1) * (st + 1) by { Distribute(q, 1, st + 1); }
    assert (q + 1) * (st + 1) <= st * (q + 2) by {
      Distribute(st, 1, q + 1);
      Distribute(q + 1, 1, st);
    }
    MulMonotone(bt + 1, st * (q + 2), w);
    assert st * (q + 2) * w == (st * w) * (q + 2) by { Rearrange(st, w, q + 2); }
    MulMonotone(st * w, s, q + 2);
  }

  lemma QuotientIs(b: nat, s: nat, q: nat, r: nat)
    requires b == s * q + r && r < s
    ensures b / s == q && b % s == r
  {
    Unique(b, s, q, r);
  }

  lemma Unique(b: nat, s: nat, q: nat, r: nat)
    requires b == s * q + r && r < s
    ensures b / s == q
  {
    var d := b / s;
    assert b == s * d + b % s;
    if d < q {
      MulMonotone(d + 1, q, s);
      Distribute(d, 1, s);
    }
    if q < d {
      MulMonotone(q + 1, d, s);
      Distribute(q, 1, s);
    }
  }

  /** Takes `q` times `S` from `b`, which has as many words. */
  method Take(b: Bigint, S: Bigint, q: Word)
    requires b.Valid() && S.Valid() && b != S && b.x != S.x && b.wds == S.wds >= 1
    requires Enough(b.Value(), S.Value(), q)
    modifies b, b.x
    ensures b.Valid() && b.wds <= S.wds && Divided(old(b.Value()), S.Value(), q, b.Value())
  {
    hide Val, Pow;
    TakeWords(b.x, S.x, S.wds, q);
    Shrink(b, S.wds - 1);
  }

  /** The first half of `quorem`: takes off the estimate, which leaves less than twice the divisor. */
  method TakeEstimate(b: Bigint, S: Bigint) returns (q: nat)
    requires b.Valid() && S.Valid() && b != S && b.x != S.x && b.wds == S.wds >= 1
    requires 0x1_0000 <= S.x[S.wds - 1] < 0xFFFF_FFFF
    modifies b, b.x
    ensures b.Valid() && b.wds <= S.wds && b.Value() < 2 * S.Value()
    ensures Divided(old(b.Value()), S.Value(), q, b.Value())
  {
    hide Val, Weight, Pow;
    ghost var v := b.Value();
    var n := S.wds - 1;
    hide TopQuotient, Divided, Enough;
    q := TopQuotient(b.x[n], S.x[n]);
    TopEstimate(b.x[..], S.x[..], n, q);
    EstimateLeaves(v, S.Value(), q);
    hide Bigint.Value;
    if q != 0 { Take(b, S, q); }
  }

  /** The estimate. */
  function TopQuotient(b: Word, s: Word): nat {
    b / (s as int + 1)
  }

  ghost predicate Enough(v: nat, s: nat, q: nat) {
    s * q <= v < s * (q + 2)
  }

  /** The quotient so far, and what is left. */
  ghost predicate Divided(v: nat, s: nat, q: nat, r: nat) {
    v == s * q + r
  }

  lemma EstimateLeaves(v: nat, s: nat, q: nat)
    requires Enough(v, s, q)
    ensures forall r: nat :: Divided(v, s, q, r) ==> r < 2 * s
    ensures q == 0 ==> Divided(v, s, q, v)
  {
    Distribute(q, 2, s);
  }

  lemma DividedMore(v: nat, s: nat, q: nat, r: nat)
    requires Divided(v, s, q, r) && s <= r < 2 * s
    ensures Enough(r, s, 1)
    ensures forall t: nat :: Divided(r, s, 1, t) ==> Divided(v, s, q + 1, t) && t < s
  {
    Distribute(q, 1, s);
  }

  lemma DividedIs(v: nat, s: nat, q: nat, r: nat)
    requires Divided(v, s, q, r) && r < s
    ensures v / s == q && v % s == r
  {
    QuotientIs(v, s, q, r);
  }

  /** dtoa.c's `quorem`: returns the quotient and leaves the remainder in `b`. The top word of the divisor has to be at
      least 2^16 for that, and adding 1 to it must not wrap; the callers see to it that it is from 2^27 to 2^28 - 1. */
  method Quorem(b: Bigint, S: Bigint) returns (q: nat)
    requires b.Valid() && S.Valid() && b != S && b.x != S.x
    requires 1 <= S.wds && 0x1_0000 <= S.x[S.wds - 1] < 0xFFFF_FFFF && b.wds <= S.wds
    modifies b, b.x
    ensures b.Valid() && b.wds <= S.wds
    ensures S.Value() > 0 && q == old(b.Value()) / S.Value()
    ensures b.Value() == old(b.Value()) % S.Value()
  {
    hide Val, Weight, Pow, Divided, Enough;
    ghost var v, s := b.Value(), S.Value();
    TopNeeded(S.x[..], S.wds);
    if b.wds < S.wds {
      ValLonger(b.x[..], b.wds, S.x[..], S.wds);
      QuotientIs(v, s, 0, v);
      return 0;
    }
    hide Bigint.Value;
    q := TakeEstimate(b, S);
    var c := Cmp(b, S);
    if c >= 0 {
      MoreWords(b, S);
      DividedMore(v, s, q, b.Value());
      Take(b, S, 1);
      q := q + 1;
    }
    DividedIs(v, s, q, b.Value());
  }

  lemma TopEstimate(b: seq<Word>, s: seq<Word>, n: nat, q: nat)
    requires n < |b| && n < |s| && s[n] >= 0x1_0000 && q == TopQuotient(b[n], s[n])
    ensures Enough(Val(b, n + 1), Val(s, n + 1), q) && q < 0x1_0000
  {
    hide Val, Weight;
    ValTop(b, n + 1);
    ValTop(s, n + 1);
    Estimate(Val(b, n + 1), Val(s, n + 1), b[n], s[n], Weight(n), q);
  }

  lemma MoreWords(b: Bigint, S: Bigint)
    requires b.Valid() && S.Valid() && b.wds <= S.wds && 1 <= S.wds && S.x[S.wds - 1] != 0 && b.Value() >= S.Value()
    ensures b.wds == S.wds
  {
    hide Val, Pow;
    SameWords(b.x[..], b.wds, S.x[..], S.wds);
  }

  /** A number that is not smaller has at least as many words. */
  lemma SameWords(x: seq<Word>, m: nat, y: seq<Word>, n: nat)
    requires m <= |x| && 0 < n <= |y| && y[n - 1] != 0 && Val(x, m) >= Val(y, n) && m <= n
    ensures m == n
  {
    if m < n { ValLonger(x, m, y, n); }
  }

  // ---------- The shape of the divisor ----------

  /** A divisor that `quorem` is meant for: exactly four leading zero bits. */
  ghost predicate Shaped(S: Bigint)
    reads S, S.x
  {
    S.Valid() && 1 <= S.wds && 0x800_0000 <= S.x[S.wds - 1] < 0x1000_0000
  }

  /** Ten times such a divisor needs no further word, and neither does anything below. */
  lemma TenFits(b: Bigint, S: Bigint)
    requires b.Valid() && Shaped(S) && b.Value() < 10 * S.Value()
    ensures b.wds <= S.wds && S.Value() > 0
  {
    hide Val, Pow;
    TopNeeded(S.x[..], S.wds);
    FitsWords(b.x[..], b.wds, S.x[..], S.wds);
  }

  lemma FitsWords(x: seq<Word>, m: nat, s: seq<Word>, n: nat)
    requires 0 < n <= |s| && m <= |x| && s[n - 1] < 0x1000_0000 && (m >= 2 ==> x[m - 1] != 0)
    requires Val(x, m) < 10 * Val(s, n)
    ensures m <= n
  {
    if m > n { MoreIsMore(x, m, s, n); }
  }

  lemma MoreIsMore(x: seq<Word>, m: nat, s: seq<Word>, n: nat)
    requires 0 < n <= |s| && n < m <= |x| && s[n - 1] < 0x1000_0000 && x[m - 1] != 0
    ensures Val(x, m) >= 10 * Val(s, n)
  {
    hide Val, Weight;
    ValTop(s, n);
    ValNext(s, n - 1);
    MulMonotone(s[n - 1] + 1, 0x1000_0000, Weight(n - 1));
    TopNeeded(x, m);
    WeightOrder(n, m - 1);
  }

  lemma WeightIs(n: nat)
    ensures Weight(n) == Pow(BASE, n)
  {
  }

  /** Bounds on a value that give its number of words and bounds on its top word. */
  lemma TopWord(x: seq<Word>, n: nat, p: nat, lo: nat, hi: nat)
    requires n <= |x| && (n >= 2 ==> x[n - 1] != 0) && 1 <= lo && hi <= BASE
    requires lo * Weight(p) <= Val(x, n) < hi * Weight(p)
    ensures n == p + 1 && lo <= x[p] < hi
  {
    hide Val, Weight;
    var w := Weight(p);
    assert w <= Val(x, n) < Weight(p + 1) by {
      MulMonotone(1, lo, w);
      MulMonotone(hi, BASE, w);
      WeightIs(p); WeightIs(p + 1); PowNext(BASE, p);
    }
    WordCount(x, n, p);
    ValTop(x, n);
    Between(Val(x, n), w, x[p], lo, hi);
  }

  lemma Between(v: int, w: int, top: int, lo: int, hi: int)
    requires w > 0 && lo * w <= v < hi * w && top * w <= v < (top + 1) * w
    ensures lo <= top < hi
  {
    if top + 1 <= lo { MulMonotone(top + 1, lo, w); }
    if hi <= top { MulMonotone(hi, top, w); }
  }

  lemma WordCount(x: seq<Word>, n: nat, p: nat)
    requires n <= |x| && (n >= 2 ==> x[n - 1] != 0)
    requires Weight(p) <= Val(x, n) < Weight(p + 1)
    ensures n == p + 1
  {
    hide Val, Weight;
    ValBound(x, n);
    if n <= p { WeightOrder(n, p); }
    if n > p + 1 {
      TopNeeded(x, n);
      WeightOrder(p + 1, n - 1);
    }
  }

  lemma WeightOrder(m: nat, n: nat)
    requires m <= n
    ensures Weight(m) <= Weight(n)
  {
    PowMonotone(BASE, m, n);
  }

  /** A shift backwards does not count. */
  function Forward(p2: int): nat {
    if p2 > 0 then p2 else 0
  }

  /** dtoa.c's `dshift` */
  method DShift(b: Bigint, p2: int) returns (i: nat)
    requires b.Valid() && b.wds >= 1 && b.Value() > 0
    ensures i < 32
    ensures exists h: nat ::
      h < 32 && (i + Forward(p2) + 4 - h) % 32 == 0 && 0x8000_0000 <= b.x[b.wds - 1] * Pow(2, h) < BASE
  {
    hide Pow;
    TopNonzero(b);
    var h := Hi0Bits(b.x[b.wds - 1]);
    var rv: int := h as int - 4;
    if p2 > 0 { rv := rv - p2; }
    i := rv % 32;
    assert (i + Forward(p2) + 4 - h) % 32 == 0;
  }

  lemma TopNonzero(b: Bigint)
    requires b.Valid() && b.Value() > 0
    ensures b.wds >= 1 && b.x[b.wds - 1] != 0
  {
    hide Pow;
    ValZero(b.x[..], b.x[..]);
    if b.wds == 1 { ValNext(b.x[..], 0); }
  }

  /** Shifting by what `dshift` says gives the divisor its shape. */
  lemma ShapeReached(x: seq<Word>, n: nat, y: seq<Word>, m: nat, h: nat, sh: nat)
    requires 0 < n <= |x| && h < 32 && 0x8000_0000 <= x[n - 1] * Pow(2, h) < BASE
    requires (sh + 4 - h) % 32 == 0
    requires m <= |y| && (m >= 2 ==> y[m - 1] != 0) && Val(y, m) == Val(x, n) * Pow(2, sh)
    ensures 1 <= m && 0x800_0000 <= y[m - 1] < 0x1000_0000
  {
    hide Val, Pow;
    var t := (sh + 4 - h) / 32;
    assert sh + 4 == h + 32 * t && t >= 0;
    var w := Weight(n - 1);
    ValTop(x, n);
    ScaledUp(x[n - 1], Val(x, n), w, h);
    WeightPow2(t);
    PowAdd(2, h, 32 * t);
    PowAdd(2, sh, 4);
    Pow2Four();
    WeightIs(n - 1); WeightIs(t); WeightIs(n - 1 + t);
    PowAdd(BASE, n - 1, t);
    hide Weight;
    ScaledWords(Val(x, n), w, Weight(t), Pow(2, h), Pow(2, sh));
    TopWord(y, m, n - 1 + t, 0x800_0000, 0x1000_0000);
  }

  lemma Pow2Four()
    ensures Pow(2, 4) == 16
  {
  }

  /** The whole number, shifted like its top word. */
  lemma ScaledUp(top: nat, v: nat, w: nat, h: nat)
    requires top * w <= v < (top + 1) * w && h < 32 && 0x8000_0000 <= top * Pow(2, h) < BASE
    ensures 0x8000_0000 * w <= v * Pow(2, h) < BASE * w
  {
    hide Pow;
    var p := Pow(2, h);
    assert (top + 1) * p <= BASE by {
      PowAdd(2, h, 32 - h);
      Pow2Word();
      var q := Pow(2, 32 - h);
      if top >= q { MulMonotone(q, top, p); }
      MulMonotone(top + 1, q, p);
    }
    MulMonotone(top * w, v, p);
    Rearrange(top, w, p);
    MulMonotone(0x8000_0000, top * p, w);
    MulMonotone(v + 1, (top + 1) * w, p);
    Distribute(v, 1, p);
    Rearrange(top + 1, w, p);
    MulMonotone((top + 1) * p, BASE, w);
  }

  lemma ScaledWords(v: nat, w: nat, wt: nat, ph: nat, ps: nat)
    requires 0x8000_0000 * w <= v * ph < BASE * w && wt > 0 && ph * wt == ps * 16
    ensures 0x800_0000 * (w * wt) <= v * ps < 0x1000_0000 * (w * wt)
  {
    MulMonotone(0x8000_0000 * w, v * ph, wt);
    MulMonotone(v * ph + 1, BASE * w, wt);
    Distribute(v * ph, 1, wt);
    assert v * ph * wt == v * ps * 16 by { Assoc(v, ph, wt); Assoc(v, ps, 16); }
    Assoc(0x8000_0000, w, wt);
    Assoc(BASE, w, wt);
  }
}
