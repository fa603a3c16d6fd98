/** dtoa.c's `pow5mult` and `s2b`: multiplication by powers of five with a cache of repeated squares, and reading
    digits. */
module Powers {
  import opened Words
  import opened BigInts

  /** The list `p5s`: node `i` is 5^(4 * 2^i). It grows when a larger power is needed. */
  class Cache {
    var nodes: seq<Bigint>

    ghost predicate Valid()
      reads this, nodes, set n | n in nodes :: n.x
    {
      forall i :: 0 <= i < |nodes| ==>
        nodes[i].Valid() && nodes[i].wds >= 1 && nodes[i].Value() == Pow(5, 4 * Pow(2, i))
    }

    constructor ()
      ensures nodes == [] && Valid()
    {
      nodes := [];
    }

    /** The node after number `i - 1`, made by squaring that one if it is not there yet. */
    method Get(i: nat) returns (p5: Bigint)
      requires Valid() && i <= |nodes|
      modifies this
      ensures Valid() && i < |nodes| && p5 == nodes[i]
      ensures nodes == old(nodes) || (nodes == old(nodes) + [p5] && fresh(p5) && fresh(p5.x))
    {
      hide Val, Pow;
      if i < |nodes| { return nodes[i]; }
      if i == 0 {
        Pow2First();
        PowNext(2, 0);
        p5 := I2b(625);
      } else {
        p5 := Square(nodes[i - 1], i - 1);
      }
      nodes := nodes + [p5];
    }
  }

  method Square(b: Bigint, ghost i: nat) returns (c: Bigint)
    requires b.Valid() && b.wds >= 1 && b.Value() == Pow(5, 4 * Pow(2, i))
    ensures fresh(c) && fresh(c.x) && c.Valid() && c.wds >= 1 && c.Value() == Pow(5, 4 * Pow(2, i + 1))
  {
    hide Val, Pow;
    SquareNext(i);
    Positive(b.Value(), b.Value());
    c := Mult(b, b);
  }

  lemma Positive(a: int, b: int)
    requires a > 0 && b > 0
    ensures a * b > 0
  {
  }

  lemma Pow2First()
    ensures Pow(5, 4) == 625
  {
  }

  lemma SquareNext(i: nat)
    ensures Pow(5, 4 * Pow(2, i)) * Pow(5, 4 * Pow(2, i)) == Pow(5, 4 * Pow(2, i + 1))
  {
    hide Pow;
    PowNext(2, i);
    PowAdd(5, 4 * Pow(2, i), 4 * Pow(2, i));
  }

  /** dtoa.c's `i2b` */
  method I2b(i: Word) returns (b: Bigint)
    ensures fresh(b) && fresh(b.x) && b.Valid() && b.wds == 1 && b.Value() == i
  {
    b := new Bigint(1);
    b.x[0] := i;
    b.wds := 1;
    ValNext(b.x[..], 0);
  }

  /** dtoa.c's `pow5mult`. `b` is not one of the cached numbers. */
  method Pow5Mult(b: Bigint, k: nat, cache: Cache) returns (r: Bigint)
    requires b.Valid() && b.wds >= 1 && cache.Valid()
    requires Apart(b, cache.nodes)
    modifies b, b.x, cache
    ensures r == b || (fresh(r) && fresh(r.x))
    ensures r.Valid() && r.Value() == old(b.Value()) * Pow(5, k)
    ensures r.wds == 0 ==> r.Value() == 0
    ensures cache.Valid() && old(cache.nodes) <= cache.nodes
    ensures forall n :: n in cache.nodes ==> n in old(cache.nodes) || (fresh(n) && fresh(n.x))
    ensures Apart(r, cache.nodes)
  {
    hide Val, Pow;
    ghost var v := b.Value();
    r := b;
    if k % 4 != 0 {
      var p05 := [5, 25, 125];
      SmallPowers();
      r := MultAdd(b, p05[k % 4 - 1], 0);
    } else {
      PowNext(5, 0);
    }
    assert r.Value() == v * Pow(5, k % 4);
    assert cache.Valid();
    if k / 4 == 0 { return; }
    r := Squares(r, k / 4, cache);
    PowAdd(5, k % 4, 4 * (k / 4));
    Assoc(v, Pow(5, k % 4), Pow(5, 4 * (k / 4)));
  }

  lemma SmallPowers()
    ensures Pow(5, 1) == 5 && Pow(5, 2) == 25 && Pow(5, 3) == 125
  {
  }

  /** The loop of `pow5mult`: multiplies by 625^k. */
  method Squares(b: Bigint, k0: nat, cache: Cache) returns (r: Bigint)
    requires b.Valid() && b.wds >= 1 && cache.Valid() && k0 > 0
    requires Apart(b, cache.nodes)
    modifies cache
    ensures r == b || (fresh(r) && fresh(r.x))
    ensures r.Valid() && r.Value() == b.Value() * Pow(5, 4 * k0)
    ensures r.wds == 0 ==> r.Value() == 0
    ensures cache.Valid() && old(cache.nodes) <= cache.nodes
    ensures forall n :: n in cache.nodes ==> n in old(cache.nodes) || (fresh(n) && fresh(n.x))
    ensures Apart(r, cache.nodes)
  {
    hide Val, Pow, StillToDo, Apart, Cache.Valid, Bigint.Value;
    ghost var target := b.Value() * Pow(5, 4 * k0);
    r := b;
    var k, i := k0, 0;
    Begin(b.Value(), k0);
    while true
      invariant k > 0 && i <= |cache.nodes|
      invariant cache.Valid() && old(cache.nodes) <= cache.nodes
      invariant forall n :: n in cache.nodes ==> n in old(cache.nodes) || (fresh(n) && fresh(n.x))
      invariant r == b || (fresh(r) && fresh(r.x))
      invariant Apart(r, cache.nodes) && r.Valid() && (r.wds == 0 ==> r.Value() == 0)
      invariant StillToDo(r.Value(), i, k, target)
      decreases k
    {
      r := Round(r, i, k, cache, target);
      k := k / 2;
      if k == 0 { break; }
      i := i + 1;
    }
  }

  /** One round of the loop. */
  method Round(b: Bigint, i: nat, k: nat, cache: Cache, ghost target: nat) returns (r: Bigint)
    requires b.Valid() && (b.wds == 0 ==> b.Value() == 0) && cache.Valid() && Apart(b, cache.nodes)
    requires k > 0 && i <= |cache.nodes| && StillToDo(b.Value(), i, k, target)
    modifies cache
    ensures r == b || (fresh(r) && fresh(r.x))
    ensures r.Valid() && (r.wds == 0 ==> r.Value() == 0)
    ensures StillToDo(r.Value(), i + 1, k / 2, target) && (k / 2 == 0 ==> r.Value() == target)
    ensures cache.Valid() && old(cache.nodes) <= cache.nodes && i < |cache.nodes|
    ensures forall n :: n in cache.nodes ==> n in old(cache.nodes) || (fresh(n) && fresh(n.x))
    ensures Apart(r, cache.nodes)
  {
    hide Val, Pow, StillToDo;
    var p5 := cache.Get(i);
    SquareStep(b.Value(), i, k, target);
    r := b;
    if k % 2 != 0 { r := Mult(b, p5); }
  }

  ghost predicate Apart(r: Bigint, nodes: seq<Bigint>) {
    r !in nodes && forall n :: n in nodes ==> n.x != r.x
  }

  /** What is left to multiply by is 5^(4 * 2^i * k). */
  ghost predicate StillToDo(v: nat, i: nat, k: nat, target: nat) {
    v * Pow(5, 4 * Pow(2, i) * k) == target
  }

  lemma Begin(v: nat, k: nat)
    ensures StillToDo(v, 0, k, v * Pow(5, 4 * k))
  {
    PowNext(2, 0);
  }

  lemma SquareStep(v: nat, i: nat, k: nat, target: nat)
    requires k > 0 && StillToDo(v, i, k, target)
    ensures var w := if k % 2 == 0 then v else v * Pow(5, 4 * Pow(2, i));
      StillToDo(w, i + 1, k / 2, target) && (k / 2 == 0 ==> w == target)
  {
    hide Pow;
    PowNext(2, i);
    PowNext(5, 0);
    var e := 4 * Pow(2, i);
    var h := k / 2;
    Assoc(e, 2, h);
    assert 4 * Pow(2, i + 1) * h == e * (2 * h);
    if k % 2 != 0 {
      assert k == 2 * h + 1;
      assert e * k == e + e * (2 * h) by { Distribute(2 * h, 1, e); }
      PowAdd(5, e, e * (2 * h));
      Assoc(v, Pow(5, e), Pow(5, e * (2 * h)));
    }
  }

  // ---------- Reading digits ----------

  predicate IsDigit(c: char) {
    '0' <= c <= '9'
  }

  function DigitValue(c: char): nat
    requires IsDigit(c)
  {
    c as int - '0' as int
  }

  /** Digit number `i` of a text with `nd0` digits in front of a decimal point of `dplen` characters. */
  function DigitAt(s: string, nd0: nat, dplen: nat, i: nat): char
    requires nd0 <= |s| && (i >= nd0 ==> i + dplen < |s|)
  {
    if i < nd0 then s[i] else s[i + dplen]
  }

  /** The text holds `nd` digits around its decimal point. */
  predicate Numeral(s: string, nd0: nat, nd: nat, dplen: nat) {
    && nd0 <= nd && nd + dplen <= |s|
    && forall i :: 0 <= i < nd ==> IsDigit(DigitAt(s, nd0, dplen, i))
  }

  /** The number that the first `n` digits make. */
  function Decimal(s: string, nd0: nat, dplen: nat, n: nat): nat
    requires nd0 <= |s| && n + dplen <= |s|
    requires forall i :: 0 <= i < n ==> IsDigit(DigitAt(s, nd0, dplen, i))
  {
    if n == 0 then 0 else 10 * Decimal(s, nd0, dplen, n - 1) + DigitValue(DigitAt(s, nd0, dplen, n - 1))
  }

  /** dtoa.c's `s2b`. `y9` is what the first nine digits, or all if there are fewer, make. */
  method S2b(s: string, nd0: nat, nd: nat, y9: Word, dplen: nat) returns (b: Bigint)
    requires Numeral(s, nd0, nd, dplen) && nd > 0
    requires y9 == Decimal(s, nd0, dplen, if nd < 9 then nd else 9)
    ensures fresh(b) && fresh(b.x) && b.Valid() && b.wds >= 1
    ensures b.Value() == Decimal(s, nd0, dplen, nd)
  {
    hide Val, Pow, Decimal;
    var x, k, y := (nd + 8) / 9, 0, 1;
    PowNext(2, 0);
    while x > y
      invariant y == Pow(2, k)
    {
      PowNext(2, k);
      y, k := 2 * y, k + 1;
    }
    b := new Bigint(k);
    b.x[0] := y9;
    b.wds := 1;
    SingleWord(b.x[..]);
    if 9 < nd0 {
      b := MoreDigits(b, s, 9, 9, nd0, nd0, nd, dplen);
      b := MoreDigits(b, s, nd0, nd0 + dplen, nd, nd0, nd, dplen);
    } else if 9 < nd {
      b := MoreDigits(b, s, 9, dplen + 9, nd, nd0, nd, dplen);
    }
  }

  /** A loop of `s2b`: takes in the digits from number `i0`, found at `p0`, up to number `n`. */
  method MoreDigits(b: Bigint, s: string, i0: nat, p0: nat, n: nat, ghost nd0: nat, ghost nd: nat, ghost dplen: nat)
    returns (r: Bigint)
    requires Numeral(s, nd0, nd, dplen) && i0 <= n <= nd
    requires (p0 == i0 && n <= nd0) || (p0 == i0 + dplen && nd0 <= i0)
    requires b.Valid() && b.wds >= 1 && b.Value() == Decimal(s, nd0, dplen, i0)
    modifies b, b.x
    ensures r == b || (fresh(r) && fresh(r.x))
    ensures r.Valid() && r.wds >= 1 && r.Value() == Decimal(s, nd0, dplen, n)
  {
    hide Val, Pow, Decimal;
    r := b;
    for i := i0 to n
      invariant r == b || (fresh(r) && fresh(r.x))
      invariant r.Valid() && r.wds >= 1 && r.Value() == Decimal(s, nd0, dplen, i)
    {
      DecimalNext(s, nd0, nd, dplen, i);
      r := MultAdd(r, 10, DigitValue(s[p0 + (i - i0)]));
    }
  }

  lemma DecimalNext(s: string, nd0: nat, nd: nat, dplen: nat, i: nat)
    requires Numeral(s, nd0, nd, dplen) && i < nd
    ensures IsDigit(DigitAt(s, nd0, dplen, i))
    ensures Decimal(s, nd0, dplen, i + 1) == Decimal(s, nd0, dplen, i) * 10 + DigitValue(DigitAt(s, nd0, dplen, i))
  {
  }

  lemma SingleWord(x: seq<Word>)
    requires |x| > 0
    ensures Val(x, 1) == x[0]
  {
    ValNext(x, 0);
  }
}
