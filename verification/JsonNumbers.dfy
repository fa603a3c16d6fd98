/** Whole numbers in decimal: a way of writing and reading numbers with which the round trip of Json holds. */
module JsonNumbers {
  import opened Common
  import opened Json

  function Digits(n: nat): (m: Text)
    ensures |m| > 0 && forall i :: 0 <= i < |m| ==> 48 <= m[i] <= 57
  {
    if n < 10 then [48 + n] else Digits(n / 10) + [48 + n % 10]
  }

  function Show(n: int): Text {
    if n < 0 then [45] + Digits(-n) else Digits(n)
  }

  /** Reads digits as far as there are any. */
  function ReadDigits(text: Text, p: nat, n: nat): (int, int)
    requires p <= |text|
    decreases |text| - p
  {
    if p < |text| && 48 <= text[p] <= 57 then ReadDigits(text, p + 1, 10 * n + (text[p] - 48)) else (n, p)
  }

  function Read(text: Text, p: int): Option<(int, int)> {
    if !(0 <= p < |text|) then None
    else if text[p] == 45 then
      var (n, q) := ReadDigits(text, p + 1, 0);
      if q == p + 1 then None else Some((-n, q))
    else
      var (n, q) := ReadDigits(text, p, 0);
      if q == p then None else Some((n, q))
  }

  const Decimal: Codec := Codec(Show, Read)

  /** Reading passes over the digits of a number and has it then. */
  lemma {:induction false} DigitsRead(a: Text, n: nat, b: Text)
    ensures var m := Digits(n); ReadDigits(a + m + b, |a|, 0) == ReadDigits(a + m + b, |a| + |m|, n)
    decreases n
  {
    var m := Digits(n);
    var text := a + m + b;
    if n < 10 {
      assert text[|a|] == 48 + n;
    } else {
      var head := Digits(n / 10);
      assert text == a + head + ([48 + n % 10] + b);
      DigitsRead(a, n / 10, [48 + n % 10] + b);
      assert text[|a| + |head|] == 48 + n % 10;
    }
  }

  /** What follows a number in a printed value is no digit, so decimals are read back wherever they stand. */
  lemma DecimalFaithful()
    ensures Faithful(Decimal)
  {
    forall n, a: Text, b: Text | Delimited(b) ensures ReadsBack(Decimal, n, a, b) {
      hide Digits, ReadDigits;
      DecimalRead(n, a, b);
    }
  }

  lemma DecimalRead(n: int, a: Text, b: Text)
    requires Delimited(b)
    ensures ReadsBack(Decimal, n, a, b)
  {
    var text := a + Show(n) + b;
    if n < 0 {
      assert text == a + [45] + Digits(-n) + b;
      DigitsRead(a + [45], -n, b);
    } else {
      DigitsRead(a, n, b);
    }
  }
}
