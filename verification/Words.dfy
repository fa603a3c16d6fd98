/** Natural numbers as words in little-endian order (dtoa.c): what a run of words is worth, and the single steps of the
    carry and borrow loops. */
module Words {

  const BASE: nat := 0x1_0000_0000

  type Word = w: int | 0 <= w < 0x1_0000_0000

  function Pow(b: nat, k: nat): (p: nat)
    requires b > 0
    ensures p > 0
  {
    if k == 0 then 1 else b * Pow(b, k - 1)
  }

  /** The weight of word `i`. */
  function Weight(i: nat): (p: nat)
    ensures p > 0
  {
    Pow(BASE, i)
  }

  /** The value of the first `n` words. */
  function Val(x: seq<Word>, n: nat): nat
    requires n <= |x|
  {
    if n == 0 then 0 else Val(x, n - 1) + x[n - 1] * Weight(n - 1)
  }

  // ---------- Powers ----------

  lemma {:induction false} PowAdd(b: nat, i: nat, j: nat)
    requires b > 0
    ensures Pow(b, i + j) == Pow(b, i) * Pow(b, j)
    decreases i
  {
    if i > 0 {
      PowAdd(b, i - 1, j);
      Assoc(b, Pow(b, i - 1), Pow(b, j));
    }
  }

  lemma Assoc(a: int, b: int, c: int)
    ensures a * (b * c) == (a * b) * c
  {
  }

  lemma PowNext(b: nat, k: nat)
    requires b > 0
    ensures Pow(b, 0) == 1 && Pow(b, k + 1) == b * Pow(b, k)
  {
  }

  lemma {:induction false} PowMonotone(b: nat, i: nat, j: nat)
    requires b > 0 && i <= j
    ensures Pow(b, i) <= Pow(b, j)
    decreases j
  {
    if i < j {
      PowMonotone(b, i, j - 1);
      MulMonotone(1, b, Pow(b, j - 1));
    }
  }

  lemma Pow2Word()
    ensures Pow(2, 16) == 0x1_0000
    ensures Pow(2, 27) == 0x800_0000 && Pow(2, 28) == 0x1000_0000 && Pow(2, 32) == BASE
  {
    assert Pow(2, 4) == 16;
    hide Pow;
    PowAdd(2, 4, 4);
    PowAdd(2, 8, 8);
    PowAdd(2, 16, 16);
    PowAdd(2, 16, 8);
    PowAdd(2, 24, 4);
    PowNext(2, 27);
  }

  lemma {:induction false} WeightPow2(n: nat)
    ensures Weight(n) == Pow(2, 32 * n)
    decreases n
  {
    if n > 0 {
      WeightPow2(n - 1);
      PowNext(BASE, n - 1);
      hide Pow;
      PowAdd(2, 32, 32 * (n - 1));
      Pow2Word();
    }
  }

  // ---------- Values ----------

  lemma {:induction false} ValSame(x: seq<Word>, y: seq<Word>, n: nat)
    requires n <= |x| && n <= |y| && forall j :: 0 <= j < n ==> x[j] == y[j]
    ensures Val(x, n) == Val(y, n)
    decreases n
  {
    if n > 0 { ValSame(x, y, n - 1); }
  }

  lemma ValNext(x: seq<Word>, n: nat)
    requires n < |x|
    ensures Val(x, n + 1) == Val(x, n) + x[n] * Weight(n)
    ensures Weight(n + 1) == BASE * Weight(n)
  {
  }

  lemma MulMonotone(a: int, b: int, c: int)
    requires a <= b && c >= 0
    ensures a * c <= b * c
  {
  }

  lemma Distribute(a: int, b: int, c: int)
    ensures (a + b) * c == a * c + b * c
  {
  }

  lemma {:induction false} ValBound(x: seq<Word>, n: nat)
    requires n <= |x|
    ensures Val(x, n) < Weight(n)
    decreases n
  {
    if n > 0 {
      ValBound(x, n - 1);
      ValNext(x, n - 1);
      hide Val, Weight;
      var p := Weight(n - 1);
      MulMonotone(x[n - 1], BASE - 1, p);
      Distribute(BASE - 1, 1, p);
    }
  }

  /** Words above that are zero do not matter. */
  lemma {:induction false} ValZeros(x: seq<Word>, m: nat, n: nat)
    requires m <= n <= |x| && forall j :: m <= j < n ==> x[j] == 0
    ensures Val(x, n) == Val(x, m)
    decreases n
  {
    if m < n { ValZeros(x, m, n - 1); }
  }

  /** The top word alone says that the value is this large. */
  lemma ValTop(x: seq<Word>, n: nat)
    requires 0 < n <= |x|
    ensures x[n - 1] * Weight(n - 1) <= Val(x, n) < (x[n - 1] + 1) * Weight(n - 1)
  {
    hide Val, Weight;
    ValBound(x, n - 1);
    ValNext(x, n - 1);
    Distribute(x[n - 1], 1, Weight(n - 1));
  }

  /** A number with more words, the top one not zero, is larger. */
  lemma ValLonger(x: seq<Word>, m: nat, y: seq<Word>, n: nat)
    requires m < n <= |y| && m <= |x| && y[n - 1] != 0
    ensures Val(x, m) < Val(y, n)
  {
    hide Val, Pow;
    ValBound(x, m);
    ValTop(y, n);
    PowMonotone(BASE, m, n - 1);
    MulMonotone(1, y[n - 1], Weight(n - 1));
  }

  /** The highest word that differs decides. */
  lemma {:induction false} ValDecided(x: seq<Word>, y: seq<Word>, n: nat, j: nat)
    requires j < n <= |x| && n <= |y| && x[j] < y[j]
    requires forall i :: j < i < n ==> x[i] == y[i]
    ensures Val(x, n) < Val(y, n)
    decreases n
  {
    hide Val, Weight;
    if j == n - 1 {
      ValTop(x, n);
      ValTop(y, n);
      MulMonotone(x[j] + 1, y[j], Weight(n - 1));
    } else {
      ValDecided(x, y, n - 1, j);
      ValNext(x, n - 1);
      ValNext(y, n - 1);
    }
  }

  // ---------- Steps of loops ----------

  /** Writing word `i` leaves the value of the words below it. */
  lemma ValWrite(x: seq<Word>, i: nat, w: Word)
    requires i < |x|
    ensures Val(x[i := w], i) == Val(x, i)
    ensures Val(x[i := w], i + 1) == Val(x, i) + w * Weight(i)
  {
    ValSame(x[i := w], x, i);
  }

  /** One word of a multiplication with carry. */
  lemma CarryStep(done: int, carry: int, weight: int, word: int, m: int, total: int)
    requires done + carry * weight == total
    ensures var y := word * m + carry;
      done + (y % BASE) * weight + (y / BASE) * (BASE * weight) == total + word * m * weight
  {
    var y := word * m + carry;
    var q, r := y / BASE, y % BASE;
    assert y == q * BASE + r;
    calc {
      done + r * weight + q * (BASE * weight);
    == { Assoc(q, BASE, weight); }
      done + r * weight + (q * BASE) * weight;
    == { Distribute(r, q * BASE, weight); }
      done + y * weight;
    == { Distribute(word * m, carry, weight); }
      done + word * m * weight + carry * weight;
    }
  }
}
