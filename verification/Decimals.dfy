/** The end of dtoa.c's `dtoa`: the digits of a quotient of two large integers, correctly rounded. */
module Decimals {
  import opened Words
  import opened BigInts
  import opened Quotients
  import opened Powers

  /** The first `n` characters are digits. */
  predicate Digital(s: seq<char>, n: nat) {
    n <= |s| && forall i :: 0 <= i < n ==> IsDigit(s[i])
  }

  /** The number that the first `n` characters make. */
  function Number(s: seq<char>, n: nat): nat
    requires Digital(s, n)
  {
    if n == 0 then 0 else 10 * Number(s, n - 1) + DigitValue(s[n - 1])
  }

  /** v / s rounded to the nearest integer, and to the even one of two that are equally near. */
  function RoundHalfEven(v: nat, s: nat): nat
    requires s > 0
  {
    var q, r := v / s, v % s;
    if 2 * r > s || (2 * r == s && q % 2 == 1) then q + 1 else q
  }

  /** Digits, the first and the last not zero. */
  ghost predicate Text(s: seq<char>, n: nat) {
    && 1 <= n <= |s|
    && Digital(s, n)
    && s[0] != '0' && s[n - 1] != '0'
  }

  lemma {:induction false} NumberSame(s: seq<char>, t: seq<char>, n: nat)
    requires n <= |s| && n <= |t| && forall i :: 0 <= i < n ==> IsDigit(s[i]) && s[i] == t[i]
    ensures Number(s, n) == Number(t, n)
    decreases n
  {
    if n > 0 { NumberSame(s, t, n - 1); }
  }

  lemma NumberNext(s: seq<char>, n: nat)
    requires n < |s| && forall i :: 0 <= i <= n ==> IsDigit(s[i])
    ensures Number(s, n + 1) == 10 * Number(s, n) + DigitValue(s[n])
  {
  }

  // ---------- Rounding off the digits ----------

  /** The label `roundoff` of `dtoa`: adds one in the last of `n` places. */
  method RoundOff(buf: array<char>, n0: nat, k0: int) returns (n: nat, k: int)
    requires 1 <= n0 <= buf.Length && buf[0] != '0' && forall i :: 0 <= i < n0 ==> IsDigit(buf[i])
    modifies buf
    ensures n <= n0 && Text(buf[..], n) && (k == k0 || (k == k0 + 1 && n == 1))
    ensures Number(buf[..], n) * Pow(10, n0 - n) * Pow(10, k - k0) == Number(old(buf[..]), n0) + 1
  {
    hide Number, Pow;
    ghost var was := buf[..];
    n := n0;
    PowNext(10, 0);
    while true
      invariant 1 <= n <= n0 && buf[..] == was
      invariant (Number(was, n) + 1) * Pow(10, n0 - n) == Number(was, n0) + 1
      decreases n
    {
      n := n - 1;
      NumberNext(was, n);
      if buf[n] != '9' { break; }
      Nines(Number(was, n), n0 - n - 1);
      if n == 0 {
        buf[0] := '1';
        AllNines(was, buf[..], n0);
        return 1, k0 + 1;
      }
    }
    buf[n] := (buf[n] as int + 1) as char;
    NumberSame(buf[..], was, n);
    NumberNext(buf[..], n);
    n, k := n + 1, k0;
  }

  lemma Nines(v: nat, e: nat)
    ensures (10 * v + 9 + 1) * Pow(10, e) == (v + 1) * Pow(10, e + 1)
  {
    hide Pow;
    PowNext(10, e);
    Assoc(v + 1, 10, Pow(10, e));
  }

  lemma AllNines(was: seq<char>, now: seq<char>, n: nat)
    requires 1 <= n <= |was| && forall i :: 0 <= i < n ==> IsDigit(was[i])
    requires |now| >= 1 && now[0] == '1'
    requires (Number(was, 0) + 1) * Pow(10, n) == Number(was, n) + 1
    ensures Number(now, 1) * Pow(10, n - 1) * Pow(10, 1) == Number(was, n) + 1
  {
    hide Pow;
    assert Number(was, 0) == 0 && Number(now, 1) == 1 by { NumberNext(now, 0); }
    PowNext(10, n - 1);
    PowNext(10, 0);
  }

  /** The other branch: drops trailing zeros. */
  method TrimZeros(buf: array<char>, n0: nat) returns (n: nat)
    requires 1 <= n0 <= buf.Length && buf[0] != '0' && forall i :: 0 <= i < n0 ==> IsDigit(buf[i])
    ensures n <= n0 && Text(buf[..], n)
    ensures Number(buf[..], n) * Pow(10, n0 - n) == Number(buf[..], n0)
  {
    hide Number, Pow;
    n := n0;
    PowNext(10, 0);
    while buf[n - 1] == '0'
      invariant 1 <= n <= n0 && Number(buf[..], n) * Pow(10, n0 - n) == Number(buf[..], n0)
      decreases n
    {
      n := n - 1;
      NumberNext(buf[..], n);
      PowNext(10, n0 - n - 1);
      Assoc(Number(buf[..], n), 10, Pow(10, n0 - n - 1));
    }
  }

  // ---------- The digits ----------

  /** With the number `d` written in `i` places, `r` is left of `v` shifted by `i - 1` places. */
  ghost predicate Written(v: nat, s: nat, d: nat, i: nat, r: nat)
    requires i >= 1
  {
    d * s + r == v * Pow(10, i - 1)
  }

  /** What has to be divided for place `i`. */
  ghost predicate Next(v: nat, s: nat, d: nat, i: nat, b: nat)
    requires i >= 1
  {
    10 * d * s + b == v * Pow(10, i - 1)
  }

  lemma FirstPlace(v: nat, s: nat)
    ensures Next(v, s, 0, 1, v)
  {
    PowNext(10, 0);
  }

  lemma OnePlace(v: nat, s: nat, d: nat, i: nat, b: nat)
    requires i >= 1 && s > 0 && Next(v, s, d, i, b) && b < 10 * s
    ensures b / s <= 9 && b % s < s && (b >= s ==> b / s > 0) && (b > 0 && b % s == 0 ==> b / s > 0)
    ensures Written(v, s, 10 * d + b / s, i, b % s)
  {
    var q, r := b / s, b % s;
    assert b == q * s + r;
    if q >= 10 { MulMonotone(10, q, s); }
    if q <= 0 { MulMonotone(q, 0, s); }
    Distribute(10 * d, q, s);
  }

  lemma NextPlace(v: nat, s: nat, d: nat, i: nat, r: nat)
    requires i >= 1 && Written(v, s, d, i, r)
    ensures Next(v, s, d, i + 1, 10 * r)
  {
    PowNext(10, i - 1);
    Assoc(v, 10, Pow(10, i - 1));
    Assoc(10, d, s);
    assert 10 * (d * s + r) == v * Pow(10, i) by { Assoc(10, v, Pow(10, i - 1)); }
  }

  lemma NewDigit(s: seq<char>, n: nat, q: nat)
    requires Digital(s, n) && n < |s| && q <= 9
    ensures var t := s[n := ('0' as int + q) as char];
      && Digital(t, n + 1)
      && Number(t, n + 1) == 10 * Number(s, n) + q
      && (t[n] == '0' <==> q == 0)
      && (('0' as int + q) % 2 == q % 2)
  {
    var t := s[n := ('0' as int + q) as char];
    NumberSame(s, t, n);
    NumberNext(t, n);
  }

  /** The test `!b->x[0] && b->wds <= 1` */
  method IsZero(b: Bigint) returns (z: bool)
    requires b.Valid()
    ensures z <==> b.Value() == 0
    ensures !z ==> b.wds >= 1
  {
    z := b.x[0] == 0 && b.wds <= 1;
    ZeroIs(b.x[..], b.wds);
  }

  lemma ZeroIs(x: seq<Word>, n: nat)
    requires n <= |x| && |x| > 0 && (n >= 2 ==> x[n - 1] != 0) && (n == 0 ==> x[0] == 0)
    ensures x[0] == 0 && n <= 1 <==> Val(x, n) == 0
  {
    hide Val;
    ValZero(x, x);
    ValNext(x, 0);
    if n >= 2 { TopNeeded(x, n); }
  }

  /** One round of the digit loop: writes digit number `i`. */
  method OneDigit(b: Bigint, S: Bigint, buf: array<char>, i: nat, ghost v: nat) returns (dig: char)
    requires b.Valid() && Shaped(S) && b != S && b.x != S.x && b.Value() < 10 * S.Value()
    requires 1 <= i <= buf.Length && Digital(buf[..], i - 1) && Next(v, S.Value(), Number(buf[..], i - 1), i, b.Value())
    modifies b, b.x, buf
    ensures b.Valid() && b.Value() < S.Value()
    ensures Digital(buf[..], i) && dig == buf[i - 1] && (forall j :: 0 <= j < i - 1 ==> buf[j] == old(buf[j]))
    ensures Written(v, S.Value(), Number(buf[..], i), i, b.Value())
    ensures old(b.Value()) >= S.Value() ==> dig != '0'
    ensures old(b.Value()) > 0 && b.Value() == 0 ==> dig != '0'
  {
    hide Val, Pow, Next, Written, Number;
    TenFits(b, S);
    OnePlace(v, S.Value(), Number(buf[..], i - 1), i, b.Value());
    ghost var was := buf[..];
    hide Bigint.Value, Digital;
    var q := Quorem(b, S);
    NewDigit(buf[..], i - 1, q);
    dig := ('0' as int + q) as char;
    buf[i - 1] := dig;
    assert buf[..] == was[i - 1 := dig];
  }

  /** The integer digit loop of `dtoa`: writes digits until nothing is left, or there are `ilim` of them. */
  method DigitLoop(b0: Bigint, S: Bigint, buf: array<char>, ilim: nat) returns (b: Bigint, n: nat)
    requires b0.Valid() && Shaped(S) && b0 != S && b0.x != S.x && S.Value() <= b0.Value() < 10 * S.Value()
    requires 1 <= ilim <= buf.Length
    modifies b0, b0.x, buf
    ensures b == b0 || (fresh(b) && fresh(b.x))
    ensures Shaped(S) && S.Value() == old(S.Value()) && b.Valid() && b.Value() < S.Value()
    ensures 1 <= n <= ilim && Digital(buf[..], n) && buf[0] != '0'
    ensures Written(old(b0.Value()), S.Value(), Number(buf[..], n), n, b.Value())
    ensures if b.Value() == 0 then buf[n - 1] != '0' else n == ilim && b.wds >= 1
  {
    hide Val, Pow, Next, Written, Number, Bigint.Value, Digital;
    ghost var v := b0.Value();
    b := b0;
    var i := 1;
    FirstPlace(v, S.Value());
    NoDigits(buf[..]);
    while true
      invariant 1 <= i <= ilim && (b == b0 || (fresh(b) && fresh(b.x)))
      invariant Shaped(S) && S.Value() == old(S.Value()) && b != S && b.x != S.x
      invariant b.Valid() && 0 < b.Value() < 10 * S.Value() && (i == 1 ==> b.Value() >= S.Value())
      invariant Digital(buf[..], i - 1) && Next(v, S.Value(), Number(buf[..], i - 1), i, b.Value())
      invariant i > 1 ==> buf[0] != '0'
      decreases ilim - i
    {
      var dig := OneDigit(b, S, buf, i, v);
      var z := IsZero(b);
      if z || i >= ilim { return b, i; }
      NextPlace(v, S.Value(), Number(buf[..], i), i, b.Value());
      b := MultAdd(b, 10, 0);
      i := i + 1;
    }
  }

  lemma NoDigits(s: seq<char>)
    ensures Digital(s, 0) && Number(s, 0) == 0
  {
  }

  // ---------- The rounded number ----------

  /** The `n` digits, with `k` the exponent of the first, are v / s rounded to `ilim` digits; `k0` is the exponent of
      the first digit of v / s itself. */
  ghost predicate Rounded(text: seq<char>, n: nat, k: int, v: nat, s: nat, ilim: nat, k0: int)
    requires Text(text, n) && s > 0 && 1 <= ilim
  {
    && n <= ilim && k >= k0
    && Number(text, n) * Pow(10, ilim - n) * Pow(10, k - k0) == RoundHalfEven(v * Pow(10, ilim - 1), s)
  }

  /** Nothing is left: the digits are exact. */
  lemma ExactDigits(text: seq<char>, n: nat, v: nat, s: nat, ilim: nat, k: int)
    requires Text(text, n) && s > 0 && n <= ilim && Written(v, s, Number(text, n), n, 0)
    ensures Rounded(text, n, k, v, s, ilim, k)
  {
    hide Number, Pow;
    var d, e := Number(text, n), Pow(10, ilim - n);
    PowAdd(10, n - 1, ilim - n);
    PowNext(10, 0);
    Assoc(v, Pow(10, n - 1), e);
    Rearrange(d, s, e);
    QuotientIs(v * Pow(10, ilim - 1), s, d * e, 0);
  }

  /** What is left decides between the last digit and the next. */
  lemma HalfEven(v: nat, s: nat, d: nat, i: nat, r: nat)
    requires i >= 1 && r < s && Written(v, s, d, i, r)
    ensures RoundHalfEven(v * Pow(10, i - 1), s) == if 2 * r > s || (2 * r == s && d % 2 == 1) then d + 1 else d
  {
    hide Pow;
    QuotientIs(v * Pow(10, i - 1), s, d, r);
  }

  lemma LastParity(text: seq<char>, n: nat)
    requires Digital(text, n) && n >= 1
    ensures Number(text, n) % 2 == text[n - 1] as int % 2
  {
    NumberNext(text, n - 1);
  }

  lemma RoundedUp(was: seq<char>, text: seq<char>, n: nat, k: int, v: nat, s: nat, ilim: nat, k0: int)
    requires Text(text, n) && s > 0 && n <= ilim && 1 <= ilim && k >= k0 && Digital(was, ilim)
    requires Number(text, n) * Pow(10, ilim - n) * Pow(10, k - k0) == Number(was, ilim) + 1
    requires RoundHalfEven(v * Pow(10, ilim - 1), s) == Number(was, ilim) + 1
    ensures Rounded(text, n, k, v, s, ilim, k0)
  {
  }

  lemma RoundedDown(text: seq<char>, n: nat, k: int, v: nat, s: nat, ilim: nat)
    requires Text(text, n) && s > 0 && n <= ilim && 1 <= ilim && Digital(text, ilim)
    requires Number(text, n) * Pow(10, ilim - n) == Number(text, ilim)
    requires RoundHalfEven(v * Pow(10, ilim - 1), s) == Number(text, ilim)
    ensures Rounded(text, n, k, v, s, ilim, k)
  {
    PowNext(10, 0);
  }

  /** The digit loop of `dtoa` and the rounding after it. */
  method RoundedDigits(b0: Bigint, S: Bigint, buf: array<char>, ilim: nat, k0: int) returns (n: nat, k: int)
    requires b0.Valid() && Shaped(S) && b0 != S && b0.x != S.x && S.Value() <= b0.Value() < 10 * S.Value()
    requires 1 <= ilim <= buf.Length
    modifies b0, b0.x, buf
    ensures S.Sized() && S.Value() == old(S.Value()) > 0
    ensures Text(buf[..], n) && Rounded(buf[..], n, k, old(b0.Value()), S.Value(), ilim, k0)
  {
    hide Val, Pow, Written, Number, Rounded, RoundHalfEven, Bigint.Value;
    ghost var v, s := b0.Value(), S.Value();
    var b;
    b, n := DigitLoop(b0, S, buf, ilim);
    var z := IsZero(b);
    if z {
      k := k0;
      ExactDigits(buf[..], n, v, s, ilim, k);
      return;
    }
    n, k := RoundLast(b, S, buf, ilim, k0, v);
  }

  /** What `dtoa` does after its last digit: what is left in `b0` decides. */
  method RoundLast(b0: Bigint, S: Bigint, buf: array<char>, ilim: nat, k0: int, ghost v: nat) returns (n: nat, k: int)
    requires b0.Valid() && b0.wds >= 1 && Shaped(S) && 0 < b0.Value() < S.Value()
    requires 1 <= ilim <= buf.Length && Digital(buf[..], ilim) && buf[0] != '0'
    requires Written(v, S.Value(), Number(buf[..], ilim), ilim, b0.Value())
    modifies buf
    ensures Text(buf[..], n) && Rounded(buf[..], n, k, v, S.Value(), ilim, k0)
  {
    hide Val, Pow, Written, Number, Rounded, RoundHalfEven;
    ghost var s := S.Value();
    var dig := buf[ilim - 1];
    LastParity(buf[..], ilim);
    HalfEven(v, s, Number(buf[..], ilim), ilim, b0.Value());
    Doubled(b0.Value());
    hide Bigint.Value;
    var b := LShift(b0, 1);
    var j := Cmp(b, S);
    ghost var was := buf[..];
    if j > 0 || (j == 0 && dig as int % 2 == 1) {
      n, k := RoundOff(buf, ilim, k0);
      RoundedUp(was, buf[..], n, k, v, s, ilim, k0);
    } else {
      n := TrimZeros(buf, ilim);
      k := k0;
      RoundedDown(buf[..], n, k, v, s, ilim);
    }
  }

  lemma Doubled(v: nat)
    ensures v * Pow(2, 1) == 2 * v
  {
    PowNext(2, 0);
  }

  // ---------- From the binary number to its digits ----------

  lemma {:induction false} RoundScaled(v: nat, s: nat, c: nat)
    requires s > 0 && c > 0
    ensures s * c > 0 && RoundHalfEven(v * c, s * c) == RoundHalfEven(v, s)
  {
    var q, r := v / s, v % s;
    assert v == s * q + r;
    MulMonotone(1, s, c);
    assert v * c == (s * c) * q + r * c by {
      Distribute(s * q, r, c);
      Rearrange(s, q, c);
    }
    MulMonotone(r + 1, s, c);
    Distribute(r, 1, c);
    QuotientIs(v * c, s * c, q, r * c);
    if 2 * r > s { MulMonotone(s + 1, 2 * r, c); Distribute(s, 1, c); }
    if 2 * r < s { MulMonotone(2 * r + 1, s, c); Distribute(2 * r, 1, c); }
    Assoc(2, r, c);
  }

  lemma RoundedScaled(text: seq<char>, n: nat, k: int, v: nat, s: nat, c: nat, ilim: nat, k0: int)
    requires Text(text, n) && s > 0 && c > 0 && s * c > 0 && 1 <= ilim
    requires Rounded(text, n, k, v * c, s * c, ilim, k0)
    ensures Rounded(text, n, k, v, s, ilim, k0)
  {
    hide Number, Pow, RoundHalfEven;
    RoundScaled(v * Pow(10, ilim - 1), s, c);
    Rearrange(v, Pow(10, ilim - 1), c);
  }

  /** Both numbers get the same factor, and the divisor gets its shape. */
  method Normalize(b0: Bigint, S0: Bigint, b2: nat, s2: nat) returns (b: Bigint, S: Bigint, ghost c: nat)
    requires b0.Valid() && S0.Valid() && b0.Value() > 0 && S0.Value() > 0 && b0 != S0 && b0.x != S0.x
    ensures (b == b0 || (fresh(b) && fresh(b.x))) && (S == S0 || (fresh(S) && fresh(S.x))) && b != S && b.x != S.x
    ensures b.Valid() && Shaped(S) && c > 0
    ensures b.Value() == b0.Value() * Pow(2, b2) * c && S.Value() == S0.Value() * Pow(2, s2) * c
    ensures b.Value() > 0 && b.wds >= 1
  {
    hide Val, Pow;
    TopNonzero(b0);
    TopNonzero(S0);
    var i := DShift(S0, s2);
    c := Pow(2, i);
    PowAdd(2, b2, i);
    PowAdd(2, s2, i);
    Assoc(b0.Value(), Pow(2, b2), c);
    Assoc(S0.Value(), Pow(2, s2), c);
    b := Shift(b0, b2 + i);
    S := Shift(S0, s2 + i);
    Reached(S0, S, i, s2);
  }

  lemma Reached(S0: Bigint, S: Bigint, i: nat, s2: nat)
    requires S0.Valid() && S.Valid() && S0.Value() > 0 && S0.wds >= 1 && S.Value() == S0.Value() * Pow(2, s2 + i)
    requires exists h: nat :: h < 32 && (i + s2 + 4 - h) % 32 == 0 && 0x8000_0000 <= S0.x[S0.wds - 1] * Pow(2, h) < BASE
    ensures Shaped(S)
  {
    hide Val, Pow;
    var h: nat :| h < 32 && (i + s2 + 4 - h) % 32 == 0 && 0x8000_0000 <= S0.x[S0.wds - 1] * Pow(2, h) < BASE;
    ShapeReached(S0.x[..], S0.wds, S.x[..], S.wds, h, s2 + i);
  }

  /** `lshift`, if there is anything to shift. */
  method Shift(b: Bigint, k: nat) returns (r: Bigint)
    requires b.Valid() && b.wds >= 1 && b.Value() > 0
    ensures (k == 0 && r == b) || (fresh(r) && fresh(r.x))
    ensures r.Valid() && r.wds >= 1 && r.Value() == b.Value() * Pow(2, k) > 0
  {
    hide Val, Pow;
    MulMonotone(1, b.Value(), Pow(2, k));
    if k > 0 { r := LShift(b, k); } else { r := b; PowNext(2, 0); }
  }

  /** The end of `dtoa` for a given number of digits: the digits of b0 * 2^b2 / (S0 * 2^s2), where `k0` is its
      exponent or, if `k_check` is set, may be one too large. */
  method Convert(b0: Bigint, S0: Bigint, b2: nat, s2: nat, k0: int, k_check: bool, ilim0: nat, ilim1: nat,
                 buf: array<char>)
    returns (n: nat, k: int)
    requires b0.Valid() && S0.Valid() && b0.Value() > 0 && S0.Value() > 0 && b0 != S0 && b0.x != S0.x
    requires var v, s := b0.Value() * Pow(2, b2), S0.Value() * Pow(2, s2);
      v < 10 * s && (if k_check then s <= 10 * v else s <= v)
    requires 1 <= ilim0 <= buf.Length && 1 <= ilim1 <= buf.Length
    modifies b0, b0.x, buf
    ensures Text(buf[..], n)
    ensures var v, s := old(b0.Value()) * Pow(2, b2), old(S0.Value()) * Pow(2, s2);
      && s > 0
      && if v < s then Rounded(buf[..], n, k, 10 * v, s, ilim1, k0 - 1) else Rounded(buf[..], n, k, v, s, ilim0, k0)
  {
    hide Val, Pow, Rounded, Number, Text;
    ghost var v, s := b0.Value() * Pow(2, b2), S0.Value() * Pow(2, s2);
    MulMonotone(1, S0.Value(), Pow(2, s2));
    var b, S;
    ghost var c;
    b, S, c := Normalize(b0, S0, b2, s2);
    Factor(v, s, c);
    hide Bigint.Value, Shaped;
    n, k := Finish(b, S, k0, k_check, ilim0, ilim1, buf, v, s, c);
  }

  /** The same, once both numbers have been multiplied by `c` to give the divisor its shape. */
  method Finish(b0: Bigint, S: Bigint, k0: int, k_check: bool, ilim0: nat, ilim1: nat, buf: array<char>,
                ghost v: nat, ghost s: nat, ghost c: nat)
    returns (n: nat, k: int)
    requires b0.Valid() && b0.wds >= 1 && Shaped(S) && b0 != S && b0.x != S.x && s > 0 && c > 0
    requires b0.Value() == v * c && S.Value() == s * c
    requires v < 10 * s && (if k_check then s <= 10 * v else s <= v)
    requires 1 <= ilim0 <= buf.Length && 1 <= ilim1 <= buf.Length
    modifies b0, b0.x, buf
    ensures Text(buf[..], n)
    ensures if v < s then Rounded(buf[..], n, k, 10 * v, s, ilim1, k0 - 1) else Rounded(buf[..], n, k, v, s, ilim0, k0)
  {
    hide Val, Pow, Rounded, Number, Text;
    Factor(v, s, c);
    TenFits(b0, S);
    hide Bigint.Value;
    var b, below := b0, false;
    if k_check {
      var j := Cmp(b, S);
      below := j < 0;
    }
    if below {
      b := MultAdd(b, 10, 0);
      n, k := RoundedDigits(b, S, buf, ilim1, k0 - 1);
      RoundedScaled(buf[..], n, k, 10 * v, s, c, ilim1, k0 - 1);
    } else {
      n, k := RoundedDigits(b, S, buf, ilim0, k0);
      RoundedScaled(buf[..], n, k, v, s, c, ilim0, k0);
    }
  }

  lemma Factor(v: nat, s: nat, c: nat)
    requires c > 0 && v < 10 * s
    ensures v * c < 10 * (s * c)
    ensures v < s <==> v * c < s * c
    ensures s <= 10 * v ==> s * c <= 10 * (v * c)
    ensures (10 * v) * c == 10 * (v * c)
  {
    Assoc(10, v, c);
    Assoc(10, s, c);
    MulMonotone(v + 1, 10 * s, c);
    Distribute(v, 1, c);
    if v < s { MulMonotone(v + 1, s, c); } else { MulMonotone(s, v, c); }
    if s <= 10 * v { MulMonotone(s, 10 * v, c); }
  }

  // ---------- No digits asked for ----------

  /** A number below ten units, rounded to tens, hundreds, ... of units. */
  lemma Tenths(v: nat, s: nat, e: nat)
    requires 0 < s && v < 10 * s && e >= 1
    ensures s * Pow(10, e) > 0
    ensures RoundHalfEven(v, s * Pow(10, e)) == if e == 1 && v > 5 * s then 1 else 0
  {
    hide Pow, RoundHalfEven;
    TenPower(e);
    if e == 1 { assert s * Pow(10, e) == 10 * s; } else { MulMonotone(100, Pow(10, e), s); }
    BelowOne(v, s * Pow(10, e));
  }

  lemma {:induction false} TenPower(e: nat)
    requires e >= 1
    ensures if e == 1 then Pow(10, e) == 10 else Pow(10, e) >= 100
  {
    hide Pow;
    PowNext(10, 0);
    PowNext(10, e - 1);
    if e > 1 { TenPower(e - 1); }
  }

  lemma BelowOne(v: nat, t: nat)
    requires v < t
    ensures RoundHalfEven(v, t) == if 2 * v > t then 1 else 0
  {
    QuotientIs(v, t, 0, v);
  }

  /** The case of `dtoa` in which the digits asked for end before the first one. The number is rounded all the same: to
      nothing, or up to a single one in the place before its first digit. */
  method FewDigits(b: Bigint, S: Bigint, ilim: int) returns (one: bool)
    requires b.Valid() && S.Valid() && b.wds >= 1 && S.wds >= 1 && b != S && b.x != S.x
    requires S.Value() > 0 && b.Value() < 10 * S.Value() && ilim <= 0
    modifies S, S.x
    ensures var t := old(S.Value()) * Pow(10, 1 - ilim);
      t > 0 && RoundHalfEven(old(b.Value()), t) == if one then 1 else 0
  {
    hide Val, Pow, RoundHalfEven;
    Tenths(b.Value(), S.Value(), 1 - ilim);
    if ilim < 0 { return false; }
    hide Bigint.Value;
    var five := MultAdd(S, 5, 0);
    var j := Cmp(b, five);
    one := j > 0;
  }
}
