/** Decimal notation: digits, powers of ten and the number a string of digits stands for. */
module Decimal {
  function Pow10(k: nat): (p: nat)
    ensures p > 0
  {
    if k == 0 then 1 else 10 * Pow10(k - 1)
  }

  lemma {:induction false} Pow10Values()
    ensures Pow10(1) == 10 && Pow10(2) == 100 && Pow10(4) == 1_0000 && Pow10(6) == 100_0000 && Pow10(8) == 1_0000_0000
  {
    assert Pow10(3) == 1000;
    assert Pow10(5) == 10_0000;
    assert Pow10(7) == 1000_0000;
  }

  lemma {:induction false} Pow10Sum(a: nat, b: nat)
    ensures Pow10(a + b) == Pow10(a) * Pow10(b)
  {
    if a > 0 {
      Pow10Sum(a - 1, b);
      Associate(10, Pow10(a - 1), Pow10(b));
    }
  }

  lemma {:induction false} Associate(a: int, b: int, c: int)
    ensures a * (b * c) == (a * b) * c
  {
  }

  lemma {:induction false} Distribute(a: int, b: int, c: int)
    ensures (a + b) * c == a * c + b * c
  {
  }

  lemma {:induction false} TenTimes(a: int, b: int)
    ensures 10 * (a * b) == a * (10 * b)
  {
  }

  function Digit(d: nat): char
    requires d < 10
  {
    ('0' as int + d) as char
  }

  predicate AllDigits(s: string) {
    forall i | 0 <= i < |s| :: '0' <= s[i] <= '9'
  }

  /** The number a string of digits stands for. */
  function Number(s: string): nat
    requires AllDigits(s)
  {
    if |s| == 0 then 0 else 10 * Number(s[..|s| - 1]) + (s[|s| - 1] as int - '0' as int)
  }

  lemma {:induction false} NumberOfBoth(a: string, b: string)
    requires AllDigits(a) && AllDigits(b)
    ensures AllDigits(a + b) && Number(a + b) == Number(a) * Pow10(|b|) + Number(b)
  {
    hide Number, Pow10;
    if |b| == 0 {
      assert a + b == a;
      PowZero();
      assert Number(b) == 0 by { NumberOfNone(b); }
    } else {
      var front, d := b[..|b| - 1], b[|b| - 1];
      NumberOfBoth(a, front);
      assert b == front + [d] && a + b == (a + front) + [d];
      NumberSnoc(front, d);
      NumberSnoc(a + front, d);
      PowStep(|front|);
      TenTimes(Number(a), Pow10(|front|));
    }
  }

  lemma {:induction false} NumberOfNone(s: string)
    requires |s| == 0
    ensures Number(s) == 0
  {
  }

  lemma {:induction false} NumberSnoc(s: string, c: char)
    requires AllDigits(s) && AllDigits([c])
    ensures AllDigits(s + [c]) && Number(s + [c]) == 10 * Number(s) + (c as int - '0' as int)
  {
    assert '0' <= [c][0] <= '9';
    assert (s + [c])[..|s|] == s;
  }

  lemma {:induction false} PowStep(k: nat)
    ensures Pow10(k + 1) == 10 * Pow10(k)
  {
  }

  lemma {:induction false} PowZero()
    ensures Pow10(0) == 1
  {
  }

  lemma {:induction false} DigitNumber(d: nat)
    requires d < 10
    ensures AllDigits([Digit(d)]) && Number([Digit(d)]) == d
  {
    assert [Digit(d)][..0] == "";
  }

  /** std::to_string */
  function ToString(n: nat): (s: string)
    ensures |s| > 0
  {
    if n < 10 then [Digit(n)] else ToString(n / 10) + [Digit(n % 10)]
  }

  /** Digits without a superfluous zero in front. */
  predicate NoLeadingZero(digits: string) {
    |digits| > 0 && AllDigits(digits) && (digits[0] == '0' ==> |digits| == 1)
  }

  lemma {:induction false} ToStringShort(n: nat)
    ensures NoLeadingZero(ToString(n)) && (n > 0 ==> ToString(n)[0] != '0')
  {
    if n >= 10 {
      ToStringShort(n / 10);
      assert ToString(n)[0] == ToString(n / 10)[0];
    }
  }

  lemma {:induction false} ToStringNumber(n: nat)
    ensures AllDigits(ToString(n)) && Number(ToString(n)) == n
  {
    if n < 10 {
      DigitNumber(n);
    } else {
      ToStringNumber(n / 10);
      assert '0' <= [Digit(n % 10)][0] <= '9';
      NumberSnoc(ToString(n / 10), Digit(n % 10));
    }
  }

  /** Different numbers are printed differently. */
  lemma {:induction false} ToStringInjective(m: nat, n: nat)
    requires ToString(m) == ToString(n)
    ensures m == n
  {
    ToStringNumber(m);
    ToStringNumber(n);
  }
}
