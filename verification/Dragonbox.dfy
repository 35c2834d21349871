/** The exact integer routines of dragonbox.h: wide multiplication, division by powers of ten
    through multiplication, and removal of trailing zeros. */
module Dragonbox {
  import opened Bits
  import opened Bytes
  import opened Decimal

  // ---- wide multiplication ------------------------------------------------------------------

  datatype UInt128 = UInt128(high: nat, low: nat) {
    function Value(): nat { high * TWO_64 + low }
  }

  /** umul128 in four 32-bit halves, every intermediate cut to 64 bits. */
  function UMul128(x: nat, y: nat): UInt128 {
    var a, b := x / TWO_32, x % TWO_32;
    var c, d := y / TWO_32, y % TWO_32;
    Combine(a * c % TWO_64, b * c % TWO_64, a * d % TWO_64, b * d % TWO_64)
  }

  function Combine(ac: nat, bc: nat, ad: nat, bd: nat): UInt128 {
    var intermediate := (bd / TWO_32 + ad % TWO_32 + bc % TWO_32) % TWO_64;
    UInt128((ac + intermediate / TWO_32 + ad / TWO_32 + bc / TWO_32) % TWO_64,
            (intermediate * TWO_32 % TWO_64 + bd % TWO_32) % TWO_64)
  }

  lemma {:induction false} HalvesProduct(a: nat, b: nat, c: nat, d: nat)
    ensures (a * TWO_32 + b) * (c * TWO_32 + d) == a * c * TWO_64 + (a * d + b * c) * TWO_32 + b * d
  {
    var e := c * TWO_32 + d;
    assert (a * TWO_32 + b) * e == a * TWO_32 * e + b * e;
    assert b * e == b * c * TWO_32 + b * d;
    assert a * e == a * c * TWO_32 + a * d;
    assert a * TWO_32 * e == a * e * TWO_32;
  }

  lemma {:induction false} SmallProduct(x: nat, y: nat, bound: nat)
    requires x < bound && y < bound
    ensures x * y <= (bound - 1) * (bound - 1)
  {
    Monotone(x, bound - 1, y);
    Monotone(y, bound - 1, bound - 1);
  }

  lemma {:induction false} Monotone(x: nat, y: nat, z: nat)
    requires x <= y
    ensures x * z <= y * z && z * x <= z * y
  {
  }

  /** No carry is lost. */
  lemma {:induction false} CombineExact(ac: nat, bc: nat, ad: nat, bd: nat)
    requires bc < TWO_64 && ad < TWO_64 && bd < TWO_64
    requires ac * TWO_64 + (ad + bc) * TWO_32 + bd <= (TWO_64 - 1) * (TWO_64 - 1)
    ensures Combine(ac, bc, ad, bd).Value() == ac * TWO_64 + (ad + bc) * TWO_32 + bd
    ensures Combine(ac, bc, ad, bd).low < TWO_64 && Combine(ac, bc, ad, bd).high < TWO_64 - 1
  {
    var i := bd / TWO_32 + ad % TWO_32 + bc % TWO_32;
    var high := ac + i / TWO_32 + ad / TWO_32 + bc / TWO_32;
    assert i < TWO_64;
    MiddleWord(i);
    WordsAdd(ac, bc / TWO_32, bc % TWO_32, ad / TWO_32, ad % TWO_32, bd / TWO_32, bd % TWO_32, i / TWO_32, i % TWO_32);
    Uncut(i);
    Uncut(high);
    Uncut(i % TWO_32 * TWO_32 + bd % TWO_32);
  }

  lemma {:induction false} WordsAdd(ac: nat, bcHigh: nat, bcLow: nat, adHigh: nat, adLow: nat, bdHigh: nat, bdLow: nat,
                                    iHigh: nat, iLow: nat)
    requires bdHigh + adLow + bcLow == iHigh * TWO_32 + iLow
    ensures var high := ac + iHigh + adHigh + bcHigh;
            var total := ac * TWO_64 + (adHigh * TWO_32 + adLow + (bcHigh * TWO_32 + bcLow)) * TWO_32 + bdHigh * TWO_32 + bdLow;
            && high * TWO_64 + (iLow * TWO_32 + bdLow) == total
            && (total <= (TWO_64 - 1) * (TWO_64 - 1) ==> high < TWO_64 - 1)
  {
  }

  lemma {:induction false} Uncut(x: nat)
    ensures x < TWO_64 ==> x % TWO_64 == x
  {
  }

  lemma {:induction false} MiddleWord(i: nat)
    ensures i * TWO_32 % TWO_64 == i % TWO_32 * TWO_32
  {
    assert i * TWO_32 == i / TWO_32 * TWO_64 + i % TWO_32 * TWO_32;
  }

  /** The two words are exactly the product. */
  lemma {:induction false} UMul128Exact(x: nat, y: nat)
    requires x < TWO_64 && y < TWO_64
    ensures UMul128(x, y).Value() == x * y
    ensures UMul128(x, y).low < TWO_64 && UMul128(x, y).high < TWO_64 - 1
  {
    hide Combine;
    var a, b, c, d := x / TWO_32, x % TWO_32, y / TWO_32, y % TWO_32;
    SmallProduct(a, c, TWO_32);
    SmallProduct(a, d, TWO_32);
    SmallProduct(b, c, TWO_32);
    SmallProduct(b, d, TWO_32);
    SmallProduct(x, y, TWO_64);
    assert x * y == a * c * TWO_64 + (a * d + b * c) * TWO_32 + b * d by {
      HalvesProduct(a, b, c, d);
    }
    Uncut(a * c);
    Uncut(b * c);
    Uncut(a * d);
    Uncut(b * d);
    CombineExact(a * c, b * c, a * d, b * d);
  }

  /** uint128::operator+= */
  function Add(r: UInt128, n: nat): UInt128 {
    var sum := (r.low + n) % TWO_64;
    UInt128((r.high + (if sum < r.low then 1 else 0)) % TWO_64, sum)
  }

  lemma {:induction false} AddExact(r: UInt128, n: nat)
    requires r.low < TWO_64 && n < TWO_64 && r.high < TWO_64 - 1
    ensures Add(r, n).Value() == r.Value() + n
  {
    if r.low + n < TWO_64 {
      Uncut(r.low + n);
    } else {
      assert (r.low + n) % TWO_64 == r.low + n - TWO_64;
    }
    Uncut(r.high);
    Uncut(r.high + 1);
  }

  /** umul192_upper128 */
  function UMul192Upper128(x: nat, y: UInt128): UInt128 {
    Add(UMul128(x, y.high), UMul128(x, y.low).high)
  }

  /** The upper 128 bits of a 64 by 128 bit product. */
  lemma {:induction false} UMul192Upper128Exact(x: nat, y: UInt128)
    requires x < TWO_64 && y.high < TWO_64 && y.low < TWO_64
    ensures UMul192Upper128(x, y).Value() == x * y.Value() / TWO_64
  {
    hide UMul128;
    UMul128Exact(x, y.high);
    UMul128Exact(x, y.low);
    AddExact(UMul128(x, y.high), UMul128(x, y.low).high);
    assert x * y.Value() == x * y.high * TWO_64 + x * y.low by { ProductOfSum(x, y.high, y.low); }
    Quotient(x * y.Value(), UMul192Upper128(x, y).Value(), UMul128(x, y.low).low);
  }

  lemma {:induction false} ProductOfSum(x: nat, high: nat, low: nat)
    ensures x * (high * TWO_64 + low) == x * high * TWO_64 + x * low
  {
    assert x * (high * TWO_64) == x * high * TWO_64;
  }

  lemma {:induction false} Quotient(total: nat, q: nat, r: nat)
    requires total == q * TWO_64 + r && r < TWO_64
    ensures total / TWO_64 == q
  {
  }

  // ---- division by powers of ten ------------------------------------------------------------------

  /** divide_by_pow10<2> on 32 bits */
  function DivideBy100(n: nat): nat {
    n * 1374389535 / 0x20_0000_0000
  }

  lemma {:induction false} DivideBy100Exact(n: nat)
    requires n < TWO_32
    ensures DivideBy100(n) == n / 100
  {
    var q, r := n / 100, n % 100;
    assert n * 1374389535 == q * 0x20_0000_0000 + (q * 28 + r * 1374389535);
  }

  /** divide_by_pow10<3> on 64 bits */
  function DivideBy1000(n: nat): nat {
    UMul128(n, 2361183241434822607).high / 128
  }

  lemma {:induction false} DivideBy1000Floor(n: nat)
    requires n < TWO_64
    ensures DivideBy1000(n) == n * 2361183241434822607 / 0x80_0000_0000_0000_0000
  {
    hide UMul128;
    UMul128Exact(n, 2361183241434822607);
    var p := UMul128(n, 2361183241434822607);
    assert p.high == p.high / 128 * 128 + p.high % 128;
  }

  /** Exact up to the bound the library checks, and not one further. */
  lemma {:induction false} DivideBy1000Exact(n: nat)
    requires n <= 15534100272597517998
    ensures DivideBy1000(n) == n / 1000
    ensures DivideBy1000(15534100272597517999) != 15534100272597517999 / 1000
  {
    hide DivideBy1000;
    DivideBy1000Floor(n);
    var q, r := n / 1000, n % 1000;
    assert q * 152 + r * 2361183241434822607 < 0x80_0000_0000_0000_0000;
    Quotient71(n * 2361183241434822607, q, q * 152 + r * 2361183241434822607);
    DivideBy1000Floor(15534100272597517999);
    Quotient71(15534100272597517999 * 2361183241434822607, 15534100272597518,
               15534100272597517999 * 2361183241434822607 - 15534100272597518 * 0x80_0000_0000_0000_0000);
  }

  lemma {:induction false} Quotient71(x: nat, q: nat, r: nat)
    requires x == q * 0x80_0000_0000_0000_0000 + r && r < 0x80_0000_0000_0000_0000
    ensures x / 0x80_0000_0000_0000_0000 == q
  {
  }

  /** check_divisibility_and_divide_by_pow10: the result and the new n. */
  function CheckAndDivide(magic: nat, n: nat): (bool, nat) {
    var product := n * magic % TWO_32;
    (product % 0x1_0000 < magic, product / 0x1_0000)
  }

  lemma {:induction false} CheckAndDivideBy10(n: nat)
    requires n <= 100
    ensures CheckAndDivide(6554, n) == (n % 10 == 0, n / 10)
  {
    var q, r := n / 10, n % 10;
    CutProduct(n * 6554, q, q * 4 + r * 6554);
  }

  lemma {:induction false} CheckAndDivideBy100(n: nat)
    requires n <= 1000
    ensures CheckAndDivide(656, n) == (n % 100 == 0, n / 100)
  {
    var q, r := n / 100, n % 100;
    CutProduct(n * 656, q, q * 64 + r * 656);
  }

  lemma {:induction false} CutProduct(product: nat, q: nat, r: nat)
    requires product == q * 0x1_0000 + r && r < 0x1_0000 && q <= 100
    ensures product % TWO_32 == product && product / 0x1_0000 == q && product % 0x1_0000 == r
  {
  }

  // ---- trailing zeros -----------------------------------------------------------------------------

  /** bits::rotr on 32 bits for 0 < r < 32 */
  function Rotr32(n: nat, r: nat): nat
    requires 0 < r < 32
  {
    n / Two(r) + n % Two(r) * Two(32 - r)
  }

  /** bits::rotr on 64 bits for 0 < r < 64 */
  function Rotr64(n: nat, r: nat): nat
    requires 0 < r < 64
  {
    n / Two(r) + n % Two(r) * Two(64 - r)
  }

  lemma {:induction false} TwoValues()
    ensures Two(1) == 2 && Two(2) == 4 && Two(30) == 0x4000_0000 && Two(31) == 0x8000_0000
    ensures Two(62) == 0x4000_0000_0000_0000 && Two(63) == 0x8000_0000_0000_0000
  {
    assert Two(8) == 0x100;
    assert Two(16) == 0x1_0000;
    assert Two(24) == 0x100_0000;
    assert Two(32) == 0x1_0000_0000;
    assert Two(40) == 0x100_0000_0000;
    assert Two(48) == 0x1_0000_0000_0000;
    assert Two(56) == 0x100_0000_0000_0000;
  }

  const MOD_INV_5_32: nat := 0xcccc_cccd
  const MOD_INV_25_32: nat := MOD_INV_5_32 * MOD_INV_5_32 % TWO_32
  const MOD_INV_5_64: nat := 0xcccc_cccc_cccc_cccd
  const MOD_INV_25_64: nat := MOD_INV_5_64 * MOD_INV_5_64 % TWO_64

  function Candidate100In32(n: nat): nat { Rotr32(n * MOD_INV_25_32 % TWO_32, 2) }

  function Candidate10In32(n: nat): nat { Rotr32(n * MOD_INV_5_32 % TWO_32, 1) }

  function Candidate100In64(n: nat): nat { Rotr64(n * MOD_INV_25_64 % TWO_64, 2) }

  function Candidate10In64(n: nat): nat { Rotr64(n * MOD_INV_5_64 % TWO_64, 1) }

  lemma {:induction false} Residue32(x: nat, k: nat, r: nat)
    requires x == TWO_32 * k + r && r < TWO_32
    ensures x % TWO_32 == r
  {
  }

  lemma {:induction false} SameResidue32(a: nat, b: nat, k: int)
    requires a < TWO_32 && b < TWO_32 && a == b + TWO_32 * k
    ensures a == b
  {
  }

  lemma {:induction false} Residue64(x: nat, k: nat, r: nat)
    requires x == TWO_64 * k + r && r < TWO_64
    ensures x % TWO_64 == r
  {
  }

  lemma {:induction false} SameResidue64(a: nat, b: nat, k: int)
    requires a < TWO_64 && b < TWO_64 && a == b + TWO_64 * k
    ensures a == b
  {
  }

  /** The product with the inverse of 25, rotated by two places, is small exactly when 100
      divides n, and then it is the quotient. */
  lemma {:induction false} Hundreds32(n: nat)
    requires n < TWO_32
    ensures Candidate100In32(n) <= 0xFFFF_FFFF / 100 <==> n % 100 == 0
    ensures n % 100 == 0 ==> Candidate100In32(n) == n / 100
  {
    hide Two;
    TwoValues();
    var product := n * MOD_INV_25_32;
    var p := product % TWO_32;
    assert 25 * p == n + TWO_32 * (19 * n - 25 * (product / TWO_32));
    if n % 100 == 0 {
      Residue32(product, 76 * (n / 100), 4 * (n / 100));
    } else if Candidate100In32(n) <= 0xFFFF_FFFF / 100 {
      SameResidue32(100 * Candidate100In32(n), n, 19 * n - 25 * (product / TWO_32));
      assert false;
    }
  }

  /** The product with the inverse of 5, rotated by one place, is small exactly when 10
      divides n, and then it is the quotient. */
  lemma {:induction false} Tens32(n: nat)
    requires n < TWO_32
    ensures Candidate10In32(n) <= 0xFFFF_FFFF / 10 <==> n % 10 == 0
    ensures n % 10 == 0 ==> Candidate10In32(n) == n / 10
  {
    hide Two;
    TwoValues();
    var product := n * MOD_INV_5_32;
    var p := product % TWO_32;
    assert 5 * p == n + TWO_32 * (4 * n - 5 * (product / TWO_32));
    if n % 10 == 0 {
      Residue32(product, 8 * (n / 10), 2 * (n / 10));
    } else if Candidate10In32(n) <= 0xFFFF_FFFF / 10 {
      SameResidue32(10 * Candidate10In32(n), n, 4 * n - 5 * (product / TWO_32));
      assert false;
    }
  }

  lemma {:induction false} Hundreds64(n: nat)
    requires n < TWO_64
    ensures Candidate100In64(n) <= 0xFFFF_FFFF_FFFF_FFFF / 100 <==> n % 100 == 0
    ensures n % 100 == 0 ==> Candidate100In64(n) == n / 100
  {
    hide Two;
    TwoValues();
    var product := n * MOD_INV_25_64;
    var p := product % TWO_64;
    assert 25 * p == n + TWO_64 * (14 * n - 25 * (product / TWO_64));
    if n % 100 == 0 {
      Residue64(product, 56 * (n / 100), 4 * (n / 100));
    } else if Candidate100In64(n) <= 0xFFFF_FFFF_FFFF_FFFF / 100 {
      SameResidue64(100 * Candidate100In64(n), n, 14 * n - 25 * (product / TWO_64));
      assert false;
    }
  }

  lemma {:induction false} Tens64(n: nat)
    requires n < TWO_64
    ensures Candidate10In64(n) <= 0xFFFF_FFFF_FFFF_FFFF / 10 <==> n % 10 == 0
    ensures n % 10 == 0 ==> Candidate10In64(n) == n / 10
  {
    hide Two;
    TwoValues();
    var product := n * MOD_INV_5_64;
    var p := product % TWO_64;
    assert 5 * p == n + TWO_64 * (4 * n - 5 * (product / TWO_64));
    if n % 10 == 0 {
      Residue64(product, 8 * (n / 10), 2 * (n / 10));
    } else if Candidate10In64(n) <= 0xFFFF_FFFF_FFFF_FFFF / 10 {
      SameResidue64(10 * Candidate10In64(n), n, 4 * n - 5 * (product / TWO_64));
      assert false;
    }
  }

  /** n is m followed by s zeros, and m ends in no zero. */
  ghost predicate Stripped(n: nat, m: nat, s: nat) {
    m * Pow10(s) == n && m % 10 != 0
  }

  /** There is only one way to strip all trailing zeros. */
  lemma {:induction false} StrippedOnce(n: nat, m1: nat, s1: nat, m2: nat, s2: nat)
    requires Stripped(n, m1, s1) && Stripped(n, m2, s2) && s1 <= s2
    ensures m1 == m2 && s1 == s2
  {
    hide Pow10;
    Pow10Sum(s2 - s1, s1);
    Associate(m2, Pow10(s2 - s1), Pow10(s1));
    CancelFactor(m1, m2 * Pow10(s2 - s1), Pow10(s1));
    if s2 > s1 {
      PowStep(s2 - s1 - 1);
      TenTimes(m2, Pow10(s2 - s1 - 1));
      EndsInZero(m1, m2 * Pow10(s2 - s1 - 1));
    } else {
      PowZero();
    }
  }

  lemma {:induction false} EndsInZero(m: nat, k: nat)
    requires m == 10 * k
    ensures m % 10 == 0
  {
  }

  lemma {:induction false} CancelFactor(a: nat, b: nat, c: nat)
    requires a * c == b * c && c > 0
    ensures a == b
  {
    if a < b { Monotone(a + 1, b, c); Distribute(a, 1, c); }
    if b < a { Monotone(b + 1, a, c); Distribute(b, 1, c); }
  }

  lemma {:induction false} StripTwo(n: nat, m: nat, s: nat)
    requires m * Pow10(s) == n && m % 100 == 0
    ensures m / 100 * Pow10(s + 2) == n
  {
    hide Pow10;
    Pow10Sum(2, s);
    Pow10Values();
    Associate(m / 100, 100, Pow10(s));
  }

  lemma {:induction false} StripOne(n: nat, m: nat, s: nat)
    requires m * Pow10(s) == n && m % 10 == 0 && m % 100 != 0
    ensures Stripped(n, m / 10, s + 1)
  {
    hide Pow10;
    Pow10Sum(1, s);
    Pow10Values();
    Associate(m / 10, 10, Pow10(s));
    assert m == m / 10 / 10 * 100 + m / 10 % 10 * 10;
  }

  /** The loop on 32 bits, from s zeros that are known already. */
  method StripZeros32(n: nat, s0: nat) returns (m: nat, s: nat)
    requires 0 < n < TWO_32 && s0 % 2 == 0
    ensures m < TWO_32 && s >= s0 && Stripped(n * Pow10(s0), m, s)
  {
    hide Pow10, Candidate100In32, Candidate10In32;
    m, s := n, s0;
    while true
      invariant 0 < m < TWO_32 && s % 2 == 0 && s >= s0
      invariant m * Pow10(s) == n * Pow10(s0)
      decreases m
    {
      Hundreds32(m);
      var q := Candidate100In32(m);
      if q <= 0xFFFF_FFFF / 100 {
        StripTwo(n * Pow10(s0), m, s);
        m, s := q, s + 2;
      } else {
        break;
      }
    }
    Hundreds32(m);
    Tens32(m);
    var q := Candidate10In32(m);
    if q <= 0xFFFF_FFFF / 10 {
      StripOne(n * Pow10(s0), m, s);
      m, s := q, s + 1;
    }
  }

  /** remove_trailing_zeros for binary32 */
  method RemoveTrailingZeros32(n: nat) returns (m: nat, s: nat)
    requires 0 < n < TWO_32
    ensures Stripped(n, m, s)
  {
    PowZero();
    m, s := StripZeros32(n, 0);
  }

  method StripZeros64(n: nat) returns (m: nat, s: nat)
    requires 0 < n < TWO_64
    ensures Stripped(n, m, s)
  {
    hide Pow10, Candidate100In64, Candidate10In64;
    PowZero();
    m, s := n, 0;
    while true
      invariant 0 < m < TWO_64 && s % 2 == 0
      invariant m * Pow10(s) == n
      decreases m
    {
      Hundreds64(m);
      var q := Candidate100In64(m);
      if q <= 0xFFFF_FFFF_FFFF_FFFF / 100 {
        StripTwo(n, m, s);
        m, s := q, s + 2;
      } else {
        break;
      }
    }
    Hundreds64(m);
    Tens64(m);
    var q := Candidate10In64(m);
    if q <= 0xFFFF_FFFF_FFFF_FFFF / 10 {
      StripOne(n, m, s);
      m, s := q, s + 1;
    }
  }

  /** ceil(2^90 / 10^8) */
  const MAGIC: nat := 12379400392853802749

  const TWO_26: nat := 0x400_0000

  /** The test whether 10^8 divides n, on the two words of n * MAGIC. */
  predicate LooksDivisible(n: nat) {
    var nm := UMul128(n, MAGIC);
    nm.high % TWO_26 == 0 && nm.low < MAGIC
  }

  const TWO_90: nat := 0x400_0000_0000_0000_0000_0000

  lemma {:induction false} TestOnProduct(n: nat)
    requires n < TWO_64
    ensures LooksDivisible(n) <==> n * MAGIC % TWO_90 < MAGIC
    ensures UMul128(n, MAGIC).high / TWO_26 == n * MAGIC / TWO_90
  {
    hide UMul128;
    UMul128Exact(n, MAGIC);
    var nm := UMul128(n, MAGIC);
    WordsOfProduct(n * MAGIC, nm.high, nm.low);
  }

  lemma {:induction false} WordsOfProduct(x: nat, high: nat, low: nat)
    requires x == high * TWO_64 + low && low < TWO_64
    ensures x % TWO_90 == high % TWO_26 * TWO_64 + low && x / TWO_90 == high / TWO_26
  {
    var q, r := high / TWO_26, high % TWO_26;
    assert x == q * TWO_90 + (r * TWO_64 + low);
    Residue90(x, q, r * TWO_64 + low);
  }

  lemma {:induction false} Residue90(x: nat, k: nat, r: nat)
    requires x == TWO_90 * k + r && r < TWO_90
    ensures x % TWO_90 == r && x / TWO_90 == k
  {
  }

  /** For every 64-bit number the test is right and the upper bits are the quotient. */
  lemma {:induction false} MagicTest(n: nat)
    requires n < TWO_64
    ensures LooksDivisible(n) <==> n % 1_0000_0000 == 0
    ensures n % 1_0000_0000 == 0 ==> UMul128(n, MAGIC).high / TWO_26 == n / 1_0000_0000
  {
    hide LooksDivisible, UMul128;
    var a, b := n / 1_0000_0000, n % 1_0000_0000;
    TestOnProduct(n);
    assert n * MAGIC == a * TWO_90 + (a * 875776 + b * MAGIC);
    assert a * 875776 + b * MAGIC < TWO_90;
    Residue90(n * MAGIC, a, a * 875776 + b * MAGIC);
  }

  /** remove_trailing_zeros for binary64. A multiple of 10^8 continues on 32 bits, so its
      quotient must fit them: true for all numbers of up to 17 digits. */
  method RemoveTrailingZeros64(n: nat) returns (m: nat, s: nat)
    requires 0 < n < TWO_64
    requires n % 1_0000_0000 == 0 ==> n / 1_0000_0000 < TWO_32
    ensures Stripped(n, m, s)
  {
    hide UMul128, LooksDivisible, Pow10;
    MagicTest(n);
    if LooksDivisible(n) {
      var n32 := UMul128(n, MAGIC).high / TWO_26 % TWO_32;
      Pow10Values();
      m, s := StripZeros32(n32, 8);
    } else {
      m, s := StripZeros64(n);
    }
  }

  /** The 32-bit quotient is the right one exactly below 2^32 * 10^8, so up to 17 digits. */
  lemma {:induction false} QuotientKept(n: nat)
    requires n < TWO_64 && n % 1_0000_0000 == 0
    ensures UMul128(n, MAGIC).high / TWO_26 % TWO_32 == n / 1_0000_0000 <==> n < TWO_32 * 1_0000_0000
    ensures 1_0000_0000_0000_0000_0 < TWO_32 * 1_0000_0000
  {
    hide UMul128, LooksDivisible;
    MagicTest(n);
  }
}
