/** The other digit loop of dtoa.c's `dtoa`, for modes in which the shortest string is wanted that reads as the given
    number: it stops as soon as what it has written lies between the neighbours' half-gaps. */
module Shortest {
  import opened Words
  import opened BigInts
  import opened Quotients
  import opened Powers
  import opened Decimals

  // ---------- Between the half-gaps ----------

  /** `y` is less than `l` below `x` and less than `h` above it, or at one of these ends if they count. */
  predicate Near(x: nat, y: nat, l: nat, h: nat, ends: bool) {
    if ends then x <= y + l && y <= x + h else x < y + l && y < x + h
  }

  /** The number `d`, written in `i` places of which the first is the unit, lies between v/s - lo/s and v/s + hi/s. */
  ghost predicate Inside(v: nat, s: nat, lo: nat, hi: nat, ends: bool, d: nat, i: nat)
    requires i >= 1
  {
    var p := Pow(10, i - 1);
    Near(v * p, d * s, lo * p, hi * p, ends)
  }

  /** No number in fewer than `i` places does. */
  ghost predicate NoneBefore(v: nat, s: nat, lo: nat, hi: nat, ends: bool, i: nat) {
    forall m: nat, d: nat :: 1 <= m < i ==> !Inside(v, s, lo, hi, ends, d, m)
  }

  /** No number in as many places that does is nearer. */
  ghost predicate Closest(v: nat, s: nat, lo: nat, hi: nat, ends: bool, d: nat, i: nat)
    requires i >= 1
  {
    forall e: nat :: Inside(v, s, lo, hi, ends, e, i) ==> Off(v, s, d, i) <= Off(v, s, e, i)
  }

  /** The number is the upper end itself. */
  ghost predicate AtEnd(v: nat, s: nat, hi: nat, d: nat, i: nat)
    requires i >= 1
  {
    v * Pow(10, i - 1) + hi * Pow(10, i - 1) == d * s
  }

  /** Of two numbers that are equally near, the even one; but if the upper of them is the upper end, the lower, except
      where that would be a nine. */
  ghost predicate TieRight(v: nat, s: nat, lo: nat, hi: nat, ends: bool, d: nat, i: nat)
    requires i >= 1
  {
    forall e: nat :: e != d && Inside(v, s, lo, hi, ends, e, i) && Off(v, s, e, i) == Off(v, s, d, i) ==>
      if ends && AtEnd(v, s, hi, if d < e then e else d, i) then d < e || d % 10 == 0 else d % 2 == 0
  }

  /** How far `d`, written in `i` places, is away from v / s, in units of 1 / s. */
  ghost function Off(v: nat, s: nat, d: nat, i: nat): nat
    requires i >= 1
  {
    Distance(v * Pow(10, i - 1), d * s)
  }

  function Distance(x: nat, y: nat): nat {
    if x < y then y - x else x - y
  }

  /** The numbers next to what has been divided: which of them are inside. */
  lemma Candidates(x: nat, s: nat, d: nat, r: nat, l: nat, h: nat, ends: bool)
    requires d * s + r == x && r < s && h > 0 && l > 0
    ensures Near(x, d * s, l, h, ends) <==> r < l || (ends && r == l)
    ensures Near(x, (d + 1) * s, l, h, ends) <==> s < r + h || (ends && s == r + h)
    ensures Distance(x, d * s) == r && Distance(x, (d + 1) * s) == s - r
  {
    Distribute(d, 1, s);
  }

  /** All others are further away. */
  lemma Others(x: nat, s: nat, d: nat, r: nat, l: nat, h: nat, ends: bool, e: nat)
    requires d * s + r == x && r < s && Near(x, e * s, l, h, ends) && l > 0 && h > 0
    ensures e <= d ==> Near(x, d * s, l, h, ends) && Distance(x, d * s) <= Distance(x, e * s)
    ensures e > d ==> Near(x, (d + 1) * s, l, h, ends) && Distance(x, (d + 1) * s) <= Distance(x, e * s)
  {
    Distribute(d, 1, s);
    if e <= d { MulMonotone(e, d, s); } else { MulMonotone(d + 1, e, s); }
  }

  /** A further zero changes nothing. */
  lemma Lifted(v: nat, s: nat, lo: nat, hi: nat, ends: bool, d: nat, i: nat)
    requires i >= 1
    ensures Inside(v, s, lo, hi, ends, d, i) <==> Inside(v, s, lo, hi, ends, 10 * d, i + 1)
  {
    hide Pow;
    var p := Pow(10, i - 1);
    PowNext(10, i - 1);
    Tens(v, p);
    Tens(lo, p);
    Tens(hi, p);
    Assoc(10, d, s);
  }

  lemma Tens(a: nat, p: nat)
    ensures a * (10 * p) == 10 * (a * p)
  {
  }

  /** So the last digit of the first number that is inside is not zero, unless it is ten. */
  lemma NotTen(v: nat, s: nat, lo: nat, hi: nat, ends: bool, d: nat, i: nat)
    requires i > 1 && NoneBefore(v, s, lo, hi, ends, i) && Inside(v, s, lo, hi, ends, d, i)
    ensures d % 10 != 0
  {
    hide Inside;
    if d % 10 == 0 {
      var c := d / 10;
      assert 10 * c == d;
      Lifted(v, s, lo, hi, ends, c, i - 1);
    }
  }

  // ---------- One place ----------

  /** What the loop knows when it has divided: `d` has been written in `i` places and `r` is left; `l` and `h` are the
      half-gaps at that place. */
  ghost predicate AtPlace(v: nat, s: nat, lo: nat, hi: nat, d: nat, i: nat, r: nat, l: nat, h: nat) {
    && i >= 1 && Written(v, s, d, i, r) && r < s && lo > 0 && hi > 0
    && l == lo * Pow(10, i - 1) && h == hi * Pow(10, i - 1)
  }

  lemma GapPositive(a: nat, i: nat)
    requires a > 0 && i >= 1
    ensures a * Pow(10, i - 1) > 0
  {
    hide Pow;
    MulMonotone(1, a, Pow(10, i - 1));
  }

  /** Which of the two numbers at this place are inside. */
  lemma PlaceIs(v: nat, s: nat, lo: nat, hi: nat, ends: bool, d: nat, i: nat, r: nat, l: nat, h: nat)
    requires AtPlace(v, s, lo, hi, d, i, r, l, h)
    ensures Inside(v, s, lo, hi, ends, d, i) <==> r < l || (ends && r == l)
    ensures Inside(v, s, lo, hi, ends, d + 1, i) <==> s < r + h || (ends && s == r + h)
    ensures l > 0 && h > 0
    ensures Off(v, s, d, i) == r && Off(v, s, d + 1, i) == s - r
  {
    hide Pow, Near, Distance;
    GapPositive(lo, i);
    GapPositive(hi, i);
    Candidates(v * Pow(10, i - 1), s, d, r, l, h, ends);
  }

  /** There are no others to think of. */
  lemma PlaceOthers(v: nat, s: nat, lo: nat, hi: nat, ends: bool, d: nat, i: nat, r: nat, l: nat, h: nat, e: nat)
    requires AtPlace(v, s, lo, hi, d, i, r, l, h) && Inside(v, s, lo, hi, ends, e, i)
    ensures Inside(v, s, lo, hi, ends, if e <= d then d else d + 1, i)
    ensures (if e <= d then r else s - r) <= Off(v, s, e, i)
  {
    hide Pow, Near, Distance;
    PlaceIs(v, s, lo, hi, ends, d, i, r, l, h);
    Others(v * Pow(10, i - 1), s, d, r, l, h, ends, e);
  }

  /** Of two numbers inside, the nearer is the closest of all. */
  lemma PlaceClosest(v: nat, s: nat, lo: nat, hi: nat, ends: bool, d: nat, i: nat, r: nat, l: nat, h: nat)
    requires AtPlace(v, s, lo, hi, d, i, r, l, h)
    ensures (Inside(v, s, lo, hi, ends, d + 1, i) ==> r <= s - r) ==> Closest(v, s, lo, hi, ends, d, i)
    ensures (Inside(v, s, lo, hi, ends, d, i) ==> s - r <= r) ==> Closest(v, s, lo, hi, ends, d + 1, i)
  {
    hide Pow, Inside, Off;
    PlaceIs(v, s, lo, hi, ends, d, i, r, l, h);
    forall e: nat | Inside(v, s, lo, hi, ends, e, i)
      ensures Inside(v, s, lo, hi, ends, if e <= d then d else d + 1, i)
      ensures (if e <= d then r else s - r) <= Off(v, s, e, i)
    {
      PlaceOthers(v, s, lo, hi, ends, d, i, r, l, h, e);
    }
  }

  /** Equally near are only the numbers next to what has been divided, if that is half-way; or, if nothing is left,
      those next to it on both sides. */
  lemma Ties(x: nat, s: nat, d: nat, r: nat, up: bool, e: nat)
    requires d * s + r == x && r < s
    requires var c := d + if up then 1 else 0; e != c && Distance(x, e * s) == Distance(x, c * s)
    ensures (2 * r == s && e == (if up then d else d + 1)) || (r == 0 && up && e + 1 == d)
  {
    Distribute(d, 1, s);
    Distribute(d, 2, s);
    if e + 2 <= d {
      MulMonotone(e + 2, d, s);
      Distribute(e, 2, s);
    } else if e >= d + 2 {
      MulMonotone(d + 2, e, s);
    } else if e + 1 == d {
      Distribute(e, 1, s);
    }
  }

  /** How the loop decides a tie. */
  ghost predicate Decided(d: nat, s: nat, r: nat, l: nat, h: nat, ends: bool, up: bool) {
    && (2 * r == s && LowInside(r, l, ends) && HighInside(r, s, h, ends) ==>
         if ends && s == r + h then up <==> d % 10 == 9 else up <==> d % 2 == 1)
    && (r == 0 && up ==> ends && s == h && d % 10 == 9)
  }

  lemma TieHere(x: nat, s: nat, d: nat, r: nat, l: nat, h: nat, ends: bool, up: bool, e: nat)
    requires d * s + r == x && r < s && l > 0 && h > 0 && Decided(d, s, r, l, h, ends, up)
    requires var c := d + if up then 1 else 0;
      e != c && Near(x, c * s, l, h, ends) && Near(x, e * s, l, h, ends) && Distance(x, e * s) == Distance(x, c * s)
    ensures var c := d + if up then 1 else 0;
      if ends && x + h == (if c < e then e else c) * s then c < e || c % 10 == 0 else c % 2 == 0
  {
    Ties(x, s, d, r, up, e);
    Candidates(x, s, d, r, l, h, ends);
    hide Near, Distance;
    var c := d + if up then 1 else 0;
    assert (if c < e then e else c) == d + 1;
    Distribute(d, 1, s);
  }

  /** That is right. */
  lemma PlaceTie(v: nat, s: nat, lo: nat, hi: nat, ends: bool, d: nat, i: nat, r: nat, l: nat, h: nat, up: bool)
    requires AtPlace(v, s, lo, hi, d, i, r, l, h) && Decided(d, s, r, l, h, ends, up)
    requires Inside(v, s, lo, hi, ends, d + if up then 1 else 0, i)
    ensures TieRight(v, s, lo, hi, ends, d + if up then 1 else 0, i)
  {
    hide Pow, Near, Distance, Decided;
    GapPositive(lo, i);
    GapPositive(hi, i);
    var c := d + if up then 1 else 0;
    forall e: nat | e != c && Inside(v, s, lo, hi, ends, e, i) && Off(v, s, e, i) == Off(v, s, c, i)
      ensures if ends && AtEnd(v, s, hi, if c < e then e else c, i) then c < e || c % 10 == 0 else c % 2 == 0
    {
      TieHere(v * Pow(10, i - 1), s, d, r, l, h, ends, up, e);
    }
  }

  lemma PlaceMade(v: nat, s: nat, lo: nat, hi: nat, d: nat, i: nat, r: nat, l: nat, h: nat)
    requires i >= 1 && Written(v, s, d, i, r) && r < s && lo > 0 && hi > 0
    requires l == lo * Pow(10, i - 1) && h == hi * Pow(10, i - 1)
    ensures AtPlace(v, s, lo, hi, d, i, r, l, h)
  {
  }

  lemma NoneHere(v: nat, s: nat, lo: nat, hi: nat, ends: bool, d: nat, i: nat, r: nat, l: nat, h: nat)
    requires AtPlace(v, s, lo, hi, d, i, r, l, h) && NoneBefore(v, s, lo, hi, ends, i)
    requires !(r < l || (ends && r == l)) && !(s < r + h || (ends && s == r + h))
    ensures NoneBefore(v, s, lo, hi, ends, i + 1)
  {
    hide Inside, Off;
    PlaceIs(v, s, lo, hi, ends, d, i, r, l, h);
    forall e: nat ensures !Inside(v, s, lo, hi, ends, e, i) {
      if Inside(v, s, lo, hi, ends, e, i) { PlaceOthers(v, s, lo, hi, ends, d, i, r, l, h, e); }
    }
  }

  /** The gaps and what is left, for the next place. */
  lemma NextGap(a: nat, i: nat)
    requires i >= 1
    ensures 10 * (a * Pow(10, i - 1)) == a * Pow(10, i)
  {
    hide Pow;
    PowNext(10, i - 1);
    Tens(a, Pow(10, i - 1));
  }

  lemma FirstGap(a: nat)
    ensures a * Pow(10, 0) == a
  {
    PowNext(10, 0);
  }

  /** Only the last digit matters. */
  lemma LastDecides(d: nat, dig: char, s: nat, r: nat, l: nat, h: nat, ends: bool, up: bool)
    requires IsDigit(dig) && d % 10 == DigitValue(dig)
    requires Decided(DigitValue(dig), s, r, l, h, ends, up)
    ensures Decided(d, s, r, l, h, ends, up)
  {
  }

  // ---------- The comparisons ----------

  ghost predicate Distinct(a: Bigint, b: Bigint) {
    a != b && a.x != b.x
  }

  /** `j` and `j1`: what is left against the lower gap, and against the divisor less the upper gap. When nothing is left
      `cmp` may take it to be smaller than a difference that is zero too. */
  method Compare(b: Bigint, S: Bigint, mlo: Bigint, mhi: Bigint) returns (j: int, j1: int)
    requires b.Valid() && S.Valid() && mlo.Valid() && mhi.Valid() && S.wds >= 1 && mlo.wds >= 1 && mhi.wds >= 1
    requires mlo.Value() > 0
    ensures (j < 0 <==> b.Value() < mlo.Value()) && (j == 0 <==> b.Value() == mlo.Value())
    ensures j1 > 0 <==> S.Value() < b.Value() + mhi.Value()
    ensures j1 == 0 ==> S.Value() == b.Value() + mhi.Value()
    ensures j1 < 0 ==> S.Value() > b.Value() + mhi.Value() || (b.Value() == 0 && S.Value() == mhi.Value())
  {
    hide Bigint.Valid, Bigint.Value;
    WordlessZero(b);
    j := Cmp(b, mlo);
    var delta := Diff(S, mhi);
    j1 := 1;
    if !delta.sign { j1 := Cmp(b, delta); }
  }

  lemma WordlessZero(b: Bigint)
    requires b.Valid()
    ensures b.wds == 0 ==> b.Value() == 0
  {
    hide Val;
    ValZero(b.x[..], b.x[..]);
  }

  // ---------- The last digit ----------

  /** The digits in the text are the shortest that lie between the half-gaps; their first is at the place of `k`. */
  ghost predicate Shortest(text: seq<char>, n: nat, k: int, v: nat, s: nat, lo: nat, hi: nat, ends: bool, k0: int)
    requires Text(text, n)
  {
    && k >= k0
    && Inside(v, s, lo, hi, ends, Number(text, n) * Pow(10, k - k0), n)
    && NoneBefore(v, s, lo, hi, ends, n)
    && (k == k0 ==> Closest(v, s, lo, hi, ends, Number(text, n), n))
    && TieRight(v, s, lo, hi, ends, Number(text, n) * Pow(10, k - k0), n)
  }

  lemma LastDigit(text: seq<char>, i: nat)
    requires i >= 1 && Digital(text, i)
    ensures Number(text, i) % 10 == DigitValue(text[i - 1])
  {
    hide Number;
    NumberNext(text, i - 1);
  }

  /** Ends with digit number `i` or, with `up`, with the next one. At a nine the source goes to `round_9_up`, which can
      happen only in the first place. */
  method Accept(buf: array<char>, i: nat, up: bool, k0: int, ghost v: nat, ghost s: nat, ghost lo: nat, ghost hi: nat,
                ghost ends: bool) returns (n: nat, k: int)
    requires 1 <= i <= buf.Length && Digital(buf[..], i) && buf[0] != '0'
    requires var d := Number(buf[..], i) + if up then 1 else 0;
      && NoneBefore(v, s, lo, hi, ends, i) && Inside(v, s, lo, hi, ends, d, i)
      && ((up && d % 10 == 0) || Closest(v, s, lo, hi, ends, d, i)) && TieRight(v, s, lo, hi, ends, d, i)
    modifies buf
    ensures Text(buf[..], n) && Shortest(buf[..], n, k, v, s, lo, hi, ends, k0)
  {
    hide Number, Pow, Inside, NoneBefore, Closest, Shortest, TieRight;
    ghost var d := Number(buf[..], i) + if up then 1 else 0;
    LastDigit(buf[..], i);
    if i > 1 { NotTen(v, s, lo, hi, ends, d, i); }
    n, k := i, k0;
    if up && buf[i - 1] == '9' {
      n, k := RoundOff(buf, i, k0);
    } else {
      WriteLast(buf, i, up);
      NoShift(Number(buf[..], n));
    }
    ShortestIs(buf[..], n, k, i, d, v, s, lo, hi, ends, k0);
  }

  lemma NoShift(d: nat)
    ensures d * Pow(10, 0) * Pow(10, 0) == d
  {
  }

  /** The last digit, or the next one. */
  method WriteLast(buf: array<char>, i: nat, up: bool)
    requires 1 <= i <= buf.Length && Digital(buf[..], i) && buf[0] != '0'
    requires if up then buf[i - 1] != '9' else buf[i - 1] != '0'
    modifies buf
    ensures Text(buf[..], i) && Number(buf[..], i) == old(Number(buf[..], i)) + if up then 1 else 0
  {
    hide Number;
    ghost var was := buf[..];
    if up { buf[i - 1] := (buf[i - 1] as int + 1) as char; }
    NumberSame(buf[..], was, i - 1);
    NumberNext(buf[..], i - 1);
    NumberNext(was, i - 1);
  }

  /** What has been written is the number that was accepted, if a ten in the first place has become a one. */
  lemma ShortestIs(text: seq<char>, n: nat, k: int, i: nat, d: nat, v: nat, s: nat, lo: nat, hi: nat, ends: bool,
                   k0: int)
    requires Text(text, n) && i >= 1 && n <= i && k0 <= k <= k0 + 1 && (k > k0 ==> n == 1) && (n < i ==> i == 1)
    requires Number(text, n) * Pow(10, i - n) * Pow(10, k - k0) == d
    requires NoneBefore(v, s, lo, hi, ends, i) && Inside(v, s, lo, hi, ends, d, i)
    requires (d % 10 == 0 || Closest(v, s, lo, hi, ends, d, i)) && TieRight(v, s, lo, hi, ends, d, i)
    requires d % 10 == 0 ==> i == 1 && d > 0
    ensures Shortest(text, n, k, v, s, lo, hi, ends, k0)
  {
    hide Number, Pow, Inside, NoneBefore, Closest, TieRight;
    PowNext(10, 0);
    if n == 1 { OneDigitNumber(text); }
  }

  lemma OneDigitNumber(text: seq<char>)
    requires Digital(text, 1)
    ensures Number(text, 1) < 10
  {
    assert Number(text, 0) == 0;
    NumberNext(text, 0);
  }

  // ---------- The loop ----------

  predicate LowInside(r: nat, l: nat, ends: bool) {
    r < l || (ends && r == l)
  }

  predicate HighInside(r: nat, s: nat, h: nat, ends: bool) {
    s < r + h || (ends && s == r + h)
  }

  /** Whether to stop at this digit, and then whether the next one is better. */
  method Decide(b: Bigint, S: Bigint, mlo: Bigint, mhi: Bigint, dig: char, ends: bool) returns (done: bool, up: bool)
    requires b.Valid() && Shaped(S) && b.Value() < S.Value()
    requires mlo.Valid() && mhi.Valid() && mlo.wds >= 1 && mhi.wds >= 1 && 0 < mlo.Value() <= mhi.Value()
    ensures done <==> LowInside(b.Value(), mlo.Value(), ends) || HighInside(b.Value(), S.Value(), mhi.Value(), ends)
    ensures done && !up ==>
      && LowInside(b.Value(), mlo.Value(), ends)
      && (HighInside(b.Value(), S.Value(), mhi.Value(), ends) ==> b.Value() <= S.Value() - b.Value())
    ensures done && up ==>
      && HighInside(b.Value(), S.Value(), mhi.Value(), ends)
      && (dig != '9' && LowInside(b.Value(), mlo.Value(), ends) ==> S.Value() - b.Value() <= b.Value())
    ensures done && IsDigit(dig) ==>
      Decided(DigitValue(dig), S.Value(), b.Value(), mlo.Value(), mhi.Value(), ends, up)
  {
    hide Val, Pow, Bigint.Value;
    var j, j1 := Compare(b, S, mlo, mhi);
    if j1 == 0 && ends { return true, dig == '9' || j > 0; }
    if j < 0 || (j == 0 && ends) {
      var z := IsZero(b);
      if z || j1 <= 0 { return true, false; }
      Doubled(b.Value());
      var twice := LShift(b, 1);
      var c := Cmp(twice, S);
      return true, c > 0 || (c == 0 && dig as int % 2 == 1);
    }
    return j1 > 0, true;
  }

  // The four numbers of the loop.

  ghost predicate Apart(b: Bigint, S: Bigint, mlo: Bigint, mhi: Bigint) {
    && Distinct(b, S) && Distinct(b, mlo) && Distinct(b, mhi) && Distinct(S, mlo) && Distinct(S, mhi)
    && (mlo == mhi || Distinct(mlo, mhi))
  }

  /** The gaps at place `i`. */
  ghost predicate Gaps(mlo: Bigint, mhi: Bigint, lo: nat, hi: nat, i: nat)
    reads mlo, mlo.x, mhi, mhi.x
  {
    && i >= 1 && mlo.Valid() && mhi.Valid() && mlo.wds >= 1 && mhi.wds >= 1 && 0 < lo <= hi
    && mlo.Value() == lo * Pow(10, i - 1) && mhi.Value() == hi * Pow(10, i - 1)
  }

  /** Digit number `i` is to be found, and nothing shorter will do. */
  ghost predicate Going(b: Bigint, S: Bigint, text: seq<char>, i: nat, v: nat, lo: nat, hi: nat, ends: bool)
    reads b, b.x, S, S.x
  {
    && 1 <= i <= |text| && b.Valid() && Shaped(S) && b.Value() < 10 * S.Value()
    && (if i == 1 then b.Value() >= S.Value() else text[0] != '0')
    && Digital(text, i - 1) && Next(v, S.Value(), Number(text, i - 1), i, b.Value())
    && NoneBefore(v, S.Value(), lo, hi, ends, i)
  }

  /** Digit number `i` has been found, and nothing as short will do. */
  ghost predicate Paused(b: Bigint, S: Bigint, text: seq<char>, i: nat, v: nat, lo: nat, hi: nat, ends: bool)
    reads b, b.x, S, S.x
  {
    && 1 <= i <= |text| && b.Valid() && Shaped(S) && 0 < b.Value() < S.Value() && b.wds >= 1
    && Digital(text, i) && text[0] != '0' && Written(v, S.Value(), Number(text, i), i, b.Value())
    && NoneBefore(v, S.Value(), lo, hi, ends, i + 1)
  }

  /** One round of the loop: writes digit number `i`, and perhaps ends with it. */
  method OneRound(b: Bigint, S: Bigint, mlo: Bigint, mhi: Bigint, buf: array<char>, i: nat, k0: int, ends: bool,
                  ghost v: nat, ghost lo: nat, ghost hi: nat) returns (done: bool, n: nat, k: int)
    requires Apart(b, S, mlo, mhi) && Gaps(mlo, mhi, lo, hi, i) && Going(b, S, buf[..], i, v, lo, hi, ends)
    modifies b, b.x, buf
    ensures done ==> Text(buf[..], n) && Shortest(buf[..], n, k, v, S.Value(), lo, hi, ends, k0)
    ensures !done ==> Paused(b, S, buf[..], i, v, lo, hi, ends) && lo * Pow(10, i - 1) < S.Value()
  {
    hide Val, Pow, Number, Inside, NoneBefore, Closest, Next, Written, Shortest, AtPlace, TieRight, Decided;
    var dig := OneDigit(b, S, buf, i, v);
    ghost var d, s, r, l, h := Number(buf[..], i), S.Value(), b.Value(), mlo.Value(), mhi.Value();
    MulMonotone(lo, hi, Pow(10, i - 1));
    GapPositive(lo, i);
    PlaceMade(v, s, lo, hi, d, i, r, l, h);
    PlaceIs(v, s, lo, hi, ends, d, i, r, l, h);
    PlaceClosest(v, s, lo, hi, ends, d, i, r, l, h);
    hide Off;
    LastDigit(buf[..], i);
    hide Bigint.Value;
    var up;
    done, up := Decide(b, S, mlo, mhi, dig, ends);
    n, k := i, k0;
    if done {
      LastDecides(d, dig, s, r, l, h, ends, up);
      PlaceTie(v, s, lo, hi, ends, d, i, r, l, h, up);
      n, k := Accept(buf, i, up, k0, v, s, lo, hi, ends);
    } else {
      NoneHere(v, s, lo, hi, ends, d, i, r, l, h);
      WordlessZero(b);
    }
  }

  /** Both gaps times ten; in the usual case they are one object. */
  method GapsTimesTen(mlo0: Bigint, mhi0: Bigint, ghost lo: nat, ghost hi: nat, ghost i: nat)
    returns (mlo: Bigint, mhi: Bigint)
    requires Gaps(mlo0, mhi0, lo, hi, i) && (mlo0 == mhi0 || Distinct(mlo0, mhi0))
    modifies mlo0, mlo0.x, mhi0, mhi0.x
    ensures Gaps(mlo, mhi, lo, hi, i + 1) && (mlo == mhi || Distinct(mlo, mhi))
    ensures mlo == mlo0 || (fresh(mlo) && fresh(mlo.x))
    ensures mhi == mhi0 || (fresh(mhi) && fresh(mhi.x))
  {
    hide Val, Pow;
    NextGap(lo, i);
    NextGap(hi, i);
    hide Bigint.Value;
    mlo := MultAdd(mlo0, 10, 0);
    mhi := mlo;
    if mlo0 != mhi0 { mhi := MultAdd(mhi0, 10, 0); }
  }

  /** What is left and both gaps times ten. */
  method TimesTen(b0: Bigint, S: Bigint, mlo0: Bigint, mhi0: Bigint, ghost text: seq<char>, ghost i: nat, ghost v: nat,
                  ghost lo: nat, ghost hi: nat, ghost ends: bool) returns (b: Bigint, mlo: Bigint, mhi: Bigint)
    requires Apart(b0, S, mlo0, mhi0) && Gaps(mlo0, mhi0, lo, hi, i) && Paused(b0, S, text, i, v, lo, hi, ends)
    requires i < |text|
    modifies b0, b0.x, mlo0, mlo0.x, mhi0, mhi0.x
    ensures Apart(b, S, mlo, mhi) && Gaps(mlo, mhi, lo, hi, i + 1) && Going(b, S, text, i + 1, v, lo, hi, ends)
    ensures b == b0 || (fresh(b) && fresh(b.x))
    ensures mlo == mlo0 || (fresh(mlo) && fresh(mlo.x))
    ensures mhi == mhi0 || (fresh(mhi) && fresh(mhi.x))
  {
    hide Val, Pow, Number, NoneBefore, Next, Written, Digital, Gaps;
    NextPlace(v, S.Value(), Number(text, i), i, b0.Value());
    hide Bigint.Value;
    b := MultAdd(b0, 10, 0);
    mlo, mhi := GapsTimesTen(mlo0, mhi0, lo, hi, i);
  }

  /** The loop, until a digit can be accepted or, if `ilim` is not zero or less, there are `ilim` of them. With a lower
      gap of 2^-54 of the number or more, which every double has, 18 places are enough (`DoubleRoom`). */
  method ShortestDigits(b0: Bigint, S: Bigint, mlo0: Bigint, mhi0: Bigint, buf: array<char>, ilim: int, k0: int,
                        ends: bool) returns (n: nat, k: int, ghost short: bool)
    requires b0.Valid() && Shaped(S) && S.Value() <= b0.Value() < 10 * S.Value()
    requires mlo0.Valid() && mhi0.Valid() && mlo0.wds >= 1 && mhi0.wds >= 1 && 0 < mlo0.Value() <= mhi0.Value()
    requires Apart(b0, S, mlo0, mhi0)
    requires buf.Length >= 1 && S.Value() <= mlo0.Value() * Pow(10, buf.Length - 1)
    modifies b0, b0.x, mlo0, mlo0.x, mhi0, mhi0.x, buf
    ensures S.Sized() && S.Value() == old(S.Value()) > 0 && Text(buf[..], n)
    ensures short ==>
      Shortest(buf[..], n, k, old(b0.Value()), S.Value(), old(mlo0.Value()), old(mhi0.Value()), ends, k0)
    ensures !short ==>
      && ilim >= 1 && Rounded(buf[..], n, k, old(b0.Value()), S.Value(), ilim, k0)
      && NoneBefore(old(b0.Value()), S.Value(), old(mlo0.Value()), old(mhi0.Value()), ends, ilim + 1)
  {
    hide Val, Pow, Number, NoneBefore, Next, Written, Shortest, Rounded, Digital;
    ghost var v, s, lo, hi := b0.Value(), S.Value(), mlo0.Value(), mhi0.Value();
    var b, mlo, mhi := b0, mlo0, mhi0;
    var i := 1;
    FirstPlace(v, s);
    FirstGap(lo);
    FirstGap(hi);
    NoDigits(buf[..]);
    NothingBefore(v, s, lo, hi, ends);
    hide Bigint.Value, Going, Gaps, Paused;
    while true
      invariant 1 <= i <= buf.Length && Shaped(S) && S.Value() == s
      invariant b == b0 || (fresh(b) && fresh(b.x))
      invariant mlo == mlo0 || (fresh(mlo) && fresh(mlo.x))
      invariant mhi == mhi0 || (fresh(mhi) && fresh(mhi.x))
      invariant Apart(b, S, mlo, mhi) && Gaps(mlo, mhi, lo, hi, i) && Going(b, S, buf[..], i, v, lo, hi, ends)
      decreases buf.Length - i
    {
      var done;
      done, n, k := OneRound(b, S, mlo, mhi, buf, i, k0, ends, v, lo, hi);
      if done { return n, k, true; }
      if i == ilim {
        n, k := AtLimit(b, S, buf, i, k0, v, lo, hi, ends);
        return n, k, false;
      }
      b, mlo, mhi := TimesTen(b, S, mlo, mhi, buf[..], i, v, lo, hi, ends);
      i := i + 1;
    }
  }

  /** Enough digits have been written. */
  method AtLimit(b: Bigint, S: Bigint, buf: array<char>, ilim: nat, k0: int, ghost v: nat, ghost lo: nat, ghost hi: nat,
                 ghost ends: bool) returns (n: nat, k: int)
    requires Paused(b, S, buf[..], ilim, v, lo, hi, ends)
    modifies buf
    ensures S.Value() > 0 && Text(buf[..], n) && ilim >= 1 && Rounded(buf[..], n, k, v, S.Value(), ilim, k0)
    ensures NoneBefore(v, S.Value(), lo, hi, ends, ilim + 1)
  {
    hide Val, Pow, Number, NoneBefore, Written, Rounded, Digital, Bigint.Value;
    n, k := RoundLast(b, S, buf, ilim, k0, v);
  }

  /** The way into the loop: `k0` is the exponent of the number or, if `k_check` is set, may be one too large; `mhi0`
      is half the distance to the next number, and the distance to the one before is half of that in the special case
      that the number is a power of two. */
  method ConvertShortest(b0: Bigint, S: Bigint, mhi0: Bigint, buf: array<char>, ilim0: int, ilim1: int, k0: int,
                         k_check: bool, special: bool, ends: bool) returns (n: nat, k: int, ghost short: bool)
    requires b0.Valid() && b0.wds >= 1 && Shaped(S) && mhi0.Valid() && mhi0.wds >= 1 && mhi0.Value() > 0
    requires Distinct(b0, S) && Distinct(b0, mhi0) && Distinct(S, mhi0)
    requires b0.Value() < 10 * S.Value() && (if k_check then S.Value() <= 10 * b0.Value() else S.Value() <= b0.Value())
    requires buf.Length >= 1 && S.Value() <= mhi0.Value() * Pow(10, buf.Length - 1)
    modifies b0, b0.x, mhi0, mhi0.x, buf
    ensures S.Sized() && S.Value() == old(S.Value()) > 0 && Text(buf[..], n)
    ensures var below := old(b0.Value()) < S.Value();
      var c := if below then 10 else 1;
      var v, lo := c * old(b0.Value()), c * old(mhi0.Value());
      var hi := if special then 2 * lo else lo;
      var k1, ilim := if below then k0 - 1 else k0, if below then ilim1 else ilim0;
      && (short ==> Shortest(buf[..], n, k, v, S.Value(), lo, hi, ends, k1))
      && (!short ==> ilim >= 1 && Rounded(buf[..], n, k, v, S.Value(), ilim, k1)
                     && NoneBefore(v, S.Value(), lo, hi, ends, ilim + 1))
  {
    hide Val, Pow, Number, NoneBefore, Shortest, Rounded, Text;
    ghost var g := mhi0.Value();
    MulMonotone(g, 10 * g, Pow(10, buf.Length - 1));
    TenFits(b0, S);
    hide Bigint.Value;
    var b, mlo, below := CheckExponent(b0, S, mhi0, k_check);
    Doubled(mlo.Value());
    var mhi := mlo;
    if special { mhi := LShift(mlo, 1); }
    n, k, short := ShortestDigits(b, S, mlo, mhi, buf, if below then ilim1 else ilim0, if below then k0 - 1
                                  else k0, ends);
  }

  /** If the estimate of the exponent was too large, the number and the gap are taken ten times. */
  method CheckExponent(b0: Bigint, S: Bigint, mhi0: Bigint, k_check: bool) returns (b: Bigint, mlo: Bigint, below: bool)
    requires b0.Valid() && b0.wds >= 1 && Shaped(S) && mhi0.Valid() && mhi0.wds >= 1
    requires Distinct(b0, S) && Distinct(b0, mhi0) && Distinct(S, mhi0)
    requires !k_check ==> S.Value() <= b0.Value()
    modifies b0, b0.x, mhi0, mhi0.x
    ensures below <==> old(b0.Value()) < S.Value()
    ensures b.Valid() && mlo.Valid() && mlo.wds >= 1
    ensures b.Value() == (if below then 10 else 1) * old(b0.Value())
    ensures mlo.Value() == (if below then 10 else 1) * old(mhi0.Value())
    ensures b == b0 || (fresh(b) && fresh(b.x))
    ensures mlo == mhi0 || (fresh(mlo) && fresh(mlo.x))
    ensures Distinct(b, mlo)
  {
    hide Val, Pow, Bigint.Value;
    b, mlo, below := b0, mhi0, false;
    if k_check {
      var j := Cmp(b, S);
      below := j < 0;
    }
    if below {
      b := MultAdd(b, 10, 0);
      mlo := MultAdd(mlo, 10, 0);
    }
  }

  lemma NothingBefore(v: nat, s: nat, lo: nat, hi: nat, ends: bool)
    ensures NoneBefore(v, s, lo, hi, ends, 1)
  {
  }

  /** The buffer of 18 characters that `dtoa` allocates for the shortest string is long enough for any double: its
      lower gap is at least 2^-54 of the number. */
  lemma DoubleRoom(v: nat, s: nat, lo: nat)
    requires s <= v && v <= lo * Pow(2, 54)
    ensures s <= lo * Pow(10, 17)
  {
    hide Pow;
    PowersCompared();
    MulMonotone(Pow(2, 54), Pow(10, 17), lo);
  }

  lemma PowersCompared()
    ensures Pow(2, 54) <= Pow(10, 17)
  {
    hide Pow;
    assert Pow(2, 9) == 512 && Pow(2, 27) == 134217728 by {
      PowNext(2, 0); PowNext(2, 1); PowNext(2, 2); PowNext(2, 3); PowNext(2, 4); PowNext(2, 5); PowNext(2, 6);
      PowNext(2, 7); PowNext(2, 8);
      PowAdd(2, 9, 9); PowAdd(2, 18, 9);
    }
    PowAdd(2, 27, 27);
    assert Pow(10, 4) == 10000 && Pow(10, 8) == 100000000 && Pow(10, 17) == 100000000000000000 by {
      PowNext(10, 0); PowNext(10, 1); PowNext(10, 2); PowNext(10, 3);
      PowAdd(10, 4, 4); PowAdd(10, 8, 8); PowNext(10, 16);
    }
  }
}
