/** The bitwise operators of machine words, on unbounded numbers. */
module Bits {

  function Two(k: nat): (p: nat)
    ensures p > 0
  {
    if k == 0 then 1 else 2 * Two(k - 1)
  }

  /** a | b */
  function Or(a: nat, b: nat): nat
    decreases a + b
  {
    if a == 0 && b == 0 then 0 else (if a % 2 == 1 || b % 2 == 1 then 1 else 0) + 2 * Or(a / 2, b / 2)
  }

  lemma {:induction false} OrZero(a: nat)
    ensures Or(a, 0) == a
    decreases a
  {
    if a > 0 { OrZero(a / 2); }
  }

  lemma {:induction false} OrZeroLeft(b: nat)
    ensures Or(0, b) == b
    decreases b
  {
    if b > 0 { OrZeroLeft(b / 2); }
  }

  /** Or of a low part and a multiple of 2^k adds. */
  lemma {:induction false} OrAbove(low: nat, high: nat, k: nat)
    requires low < Two(k)
    ensures Or(low, high * Two(k)) == low + high * Two(k)
    decreases k
  {
    if k == 0 {
      OrZeroLeft(high * Two(0));
    } else if low == 0 && high * Two(k) == 0 {
    } else {
      var h := high * Two(k - 1);
      Twice(high, Two(k - 1));
      assert high * Two(k) == 2 * h;
      OrAbove(low / 2, high, k - 1);
    }
  }

  lemma {:induction false} Twice(a: nat, b: nat)
    ensures a * (2 * b) == 2 * (a * b)
  {
  }

  /** Setting bit k: below it nothing changes. */
  lemma {:induction false} OrSetsBit(v: nat, k: nat)
    ensures Or(v, Two(k)) % Two(k + 1) == v % Two(k) + Two(k)
    decreases k
  {
    hide Two, Or;
    if k == 0 {
      OrOne(v);
    } else {
      OrSetsBit(v / 2, k - 1);
      TwoStep(k);
      TwoStep(k + 1);
      OrTwo(v, k);
      SetBitAbove(v, Or(v / 2, Two(k - 1)), Two(k - 1));
    }
  }

  lemma {:induction false} TwoStep(k: nat)
    requires k > 0
    ensures Two(k) == 2 * Two(k - 1)
  {
  }

  lemma {:induction false} OrTwo(v: nat, k: nat)
    requires k > 0
    ensures Or(v, Two(k)) == v % 2 + 2 * Or(v / 2, Two(k - 1))
  {
  }

  lemma {:induction false} SetBitAbove(v: nat, w: nat, t: nat)
    requires t > 0 && w % (2 * t) == v / 2 % t + t
    ensures (v % 2 + 2 * w) % (2 * (2 * t)) == v % (2 * t) + 2 * t
  {
    HalfModulo(v % 2 + 2 * w, 2 * t);
    HalfModulo(v, t);
    assert (v % 2 + 2 * w) / 2 == w && (v % 2 + 2 * w) % 2 == v % 2;
  }

  lemma {:induction false} OrOne(v: nat)
    ensures Or(v, Two(0)) % Two(1) == v % Two(0) + Two(0)
  {
    assert Two(0) == 1 && Two(1) == 2;
    assert Or(v, 1) == 1 + 2 * Or(v / 2, 0);
  }

  lemma {:induction false} HalfModulo(v: nat, m: nat)
    requires m > 0
    ensures v % (2 * m) == v % 2 + 2 * (v / 2 % m)
  {
    var q, r := v / 2 / m, v / 2 % m;
    assert v == q * (2 * m) + (v % 2 + 2 * r) by { Twice(q, m); }
    QuotientUnique(v, 2 * m, q, v % 2 + 2 * r);
  }

  lemma {:induction false} QuotientUnique(k: nat, m: nat, q: nat, r: nat)
    requires m > 0 && r < m && k == q * m + r
    ensures k % m == r && k / m == q
  {
    var d := k / m - q;
    assert d * m == r - k % m by { Difference(k / m, q, m); }
    Far(d, m);
  }

  lemma {:induction false} Difference(a: int, b: int, m: int)
    ensures (a - b) * m == a * m - b * m
  {
  }

  lemma {:induction false} Far(d: int, m: nat)
    ensures d >= 1 ==> d * m >= m
    ensures d <= -1 ==> d * m <= 0 - m
  {
    if d >= 1 { Difference(d, 1, m); }
    if d <= -1 { Difference(d, -1, m); }
  }

  /** a ^ b */
  function Xor(a: nat, b: nat): nat
    decreases a + b
  {
    if a == 0 && b == 0 then 0 else (if a % 2 != b % 2 then 1 else 0) + 2 * Xor(a / 2, b / 2)
  }

  lemma {:induction false} XorZero(a: nat)
    ensures Xor(a, 0) == a
    decreases a
  {
    if a > 0 { XorZero(a / 2); }
  }

  /** Xor with k ones is the complement in k bits. */
  lemma {:induction false} XorOnes(a: nat, k: nat)
    requires a < Two(k)
    ensures Xor(a, Two(k) - 1) == Two(k) - 1 - a
  {
    if k > 0 {
      XorOnes(a / 2, k - 1);
      assert (Two(k) - 1) / 2 == Two(k - 1) - 1 && (Two(k) - 1) % 2 == 1;
    }
  }

  /** x & (1 << j) */
  predicate BitIn(x: nat, j: nat) {
    if j == 0 then x % 2 == 1 else BitIn(x / 2, j - 1)
  }

  /** Setting bit j changes no other bit. */
  lemma {:induction false} OrBit(x: nat, j: nat, k: nat)
    ensures BitIn(Or(x, Two(j)), k) <==> BitIn(x, k) || k == j
    decreases j
  {
    if j == 0 {
      OrZero(x / 2);
      assert Or(x, 1) == 1 + 2 * Or(x / 2, 0);
    } else {
      OrTwo(x, j);
      if k > 0 { OrBit(x / 2, j - 1, k - 1); }
    }
  }

  lemma {:induction false} OrBelow(x: nat, y: nat, k: nat)
    requires x < Two(k) && y < Two(k)
    ensures Or(x, y) < Two(k)
  {
    if k > 0 && (x > 0 || y > 0) { OrBelow(x / 2, y / 2, k - 1); }
  }

  lemma {:induction false} ZeroBits(k: nat)
    ensures !BitIn(0, k)
  {
    if k > 0 { ZeroBits(k - 1); }
  }
}
