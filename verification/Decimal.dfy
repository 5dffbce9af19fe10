/** Decimal numerals. */
module Decimal {
  predicate IsDigit(c: char) {
    48 <= c as int <= 57
  }

  function Digit(n: nat): (c: char)
    requires n < 10
    ensures c as int == 48 + n
  {
    (48 + n) as char
  }

  function Digits(n: nat): (s: string)
    ensures s != [] && forall c :: c in s ==> IsDigit(c)
    ensures n > 0 ==> s[0] != '0'
  {
    (if n < 10 then "" else Digits(n / 10)) + [Digit(n % 10)]
  }

  /** The value of a string of digits. */
  function Value(s: string): nat
    requires forall c :: c in s ==> IsDigit(c)
  {
    if s == [] then 0
    else
      assert s[|s| - 1] in s && IsDigit(s[|s| - 1]);
      10 * Value(s[..|s| - 1]) + (s[|s| - 1] as int - 48)
  }

  lemma {:induction false} ValueOfDigits(n: nat)
    ensures Value(Digits(n)) == n
  {
    var s := Digits(n);
    if n >= 10 {
      ValueOfDigits(n / 10);
      assert s[..|s| - 1] == Digits(n / 10);
    } else {
      assert s == [Digit(n)] && s[..0] == [];
    }
  }

  function TenTo(n: nat): nat {
    if n == 0 then 1 else 10 * TenTo(n - 1)
  }

  predicate AllDigits(s: string) {
    forall c :: c in s ==> IsDigit(c)
  }

  lemma {:induction false} Shift(x: nat, p: nat, y: nat, d: nat)
    ensures 10 * (x * p + y) + d == x * (10 * p) + (10 * y + d)
  {
  }

  /** Each digit counts ten times as much as the one after it. */
  lemma {:induction false} ValueSplits(a: string, b: string)
    requires AllDigits(a) && AllDigits(b)
    ensures AllDigits(a + b) && Value(a + b) == Value(a) * TenTo(|b|) + Value(b)
  {
    if b == [] {
      assert a + b == a;
    } else {
      var front, last := b[..|b| - 1], b[|b| - 1];
      assert last in b && IsDigit(last);
      assert forall c :: c in front ==> c in b;
      ValueSplits(a, front);
      assert a + b == a + front + [last] && (a + b)[..|a + b| - 1] == a + front;
      Shift(Value(a), TenTo(|front|), Value(front), last as int - 48);
    }
  }
}
