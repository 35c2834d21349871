/** Base-128 varints and zigzag numbers, the integer coding shared by struct_pack's
    varint.hpp and struct_pb's struct_pb_impl.hpp. */
module Leb128 {
  import opened Bits
  import opened Bytes

  /** No varint is longer than this: sizeof(uint64_t) * 8 / 7 + 1. */
  const MAX_VARINT_LENGTH: nat := 10

  function Pow128(i: nat): (p: nat)
    ensures p > 0
  {
    if i == 0 then 1 else 128 * Pow128(i - 1)
  }

  /** Seven bits a byte, least significant group first, the top bit set on all but the last. */
  function Leb(v: nat): (bs: bytes)
    ensures |bs| >= 1
  {
    if v < 128 then [v] else [v % 128 + 128] + Leb(v / 128)
  }

  lemma {:induction false} LebSteps(v: nat)
    ensures Leb(v) == if v < 128 then [v] else [v % 128 + 128] + Leb(v / 128)
  {
  }

  /** v | 0x80 as a byte */
  lemma {:induction false} TopBit(v: nat)
    ensures Or(v, 0x80) % 256 == v % 128 + 128
  {
    hide Or;
    OrSetsBit(v, 7);
    assert Two(7) == 128 && Two(8) == 256;
  }

  datatype Scan =
    | Value(total: nat, next: nat)   // the number read and the position behind it
    | Short                          // the buffer ends inside the number
    | Long                           // no last byte among the first `room`

  /** The mathematical base-128 decoder: the number that starts at `pos`, unreduced,
      using at most `room` bytes. */
  function ScanLeb(data: bytes, pos: nat, room: nat): (s: Scan)
    ensures s.Value? ==> pos < s.next <= |data| && s.next <= pos + room
    decreases room
  {
    if room == 0 then Long
    else if pos >= |data| then Short
    else if data[pos] < 128 then Value(data[pos], pos + 1)
    else
      match ScanLeb(data, pos + 1, room - 1)
      case Value(t, n) => Value(data[pos] - 128 + 128 * t, n)
      case e => e
  }

  /** No shorter one holds it. */
  lemma {:induction false} LebLeast(v: nat, room: nat)
    requires v >= Pow128(room)
    ensures |Leb(v)| > room
  {
    if room > 0 {
      assert Pow128(room) == 128 * Pow128(room - 1);
      LebLeast(v / 128, room - 1);
    }
  }

  /** calculate_varint_size, of struct_pack and of struct_pb */
  method CalculateVarintSize(v: nat) returns (ret: nat)
    ensures ret == |Leb(v)|
  {
    var rest: nat := v / 128;
    ret := 1;
    while rest != 0
      invariant ret + (if rest == 0 then 0 else |Leb(rest)|) == |Leb(v)|
      decreases rest
    {
      ret, rest := ret + 1, rest / 128;
    }
  }

  lemma {:induction false} LebFits(v: nat, room: nat)
    requires room > 0 && v < Pow128(room)
    ensures |Leb(v)| <= room
  {
    if v >= 128 {
      assert Pow128(room) == 128 * Pow128(room - 1);
      LebFits(v / 128, room - 1);
    }
  }

  lemma {:induction false} Pow128Ten()
    ensures Pow128(10) == 64 * TWO_64 && Pow128(9) == TWO_63 && Pow128(5) == 8 * TWO_32
  {
    assert Pow128(3) == 0x20_0000;
    assert Pow128(5) == 0x4000 * Pow128(3);
    assert Pow128(7) == 0x4000 * Pow128(5);
    assert Pow128(9) == 0x4000 * Pow128(7);
    assert Pow128(10) == 128 * Pow128(9);
  }

  /** Reading back what Leb wrote, whatever stands before and behind it. */
  lemma {:induction false} ScanOfLeb(data: bytes, pos: nat, v: nat, room: nat)
    requires At(data, pos, Leb(v)) && |Leb(v)| <= room
    ensures ScanLeb(data, pos, room) == Value(v, pos + |Leb(v)|)
    decreases room
  {
    assert data[pos] == data[pos..pos + |Leb(v)|][0] == Leb(v)[0];
    if v >= 128 {
      AtConcat(data, pos, [v % 128 + 128], Leb(v / 128));
      ScanOfLeb(data, pos + 1, v / 128, room - 1);
    }
  }

  /** A number cut off by the end of the buffer is reported as short. */
  lemma {:induction false} ScanOfCutLeb(data: bytes, pos: nat, v: nat, room: nat)
    requires pos <= |data| < pos + |Leb(v)|
    requires data[pos..] == Leb(v)[..|data| - pos] && |Leb(v)| <= room
    ensures ScanLeb(data, pos, room) == Short
    decreases room
  {
    if pos < |data| {
      assert data[pos] == data[pos..][0] == Leb(v)[0];
      var rest := Leb(v / 128);
      assert Leb(v) == [v % 128 + 128] + rest;
      assert data[pos + 1..] == data[pos..][1..] == rest[..|data| - (pos + 1)];
      ScanOfCutLeb(data, pos + 1, v / 128, room - 1);
    }
  }

  // ---- reading byte by byte ----------------------------------------------------------------

  /** What a varint decoder reports: success, the new position and the value. */
  datatype Decoded = Decoded(ok: bool, pos: nat, v: nat)

  /** The base-128 number at pos, modulo 2^64. Without success the value is of no account. */
  ghost predicate IsDecoded(data: bytes, pos: nat, r: Decoded)
    requires pos <= |data|
  {
    match ScanLeb(data, pos, MAX_VARINT_LENGTH)
    case Value(t, next) => r == Decoded(true, next, t % TWO_64)
    case Short => !r.ok && r.pos == |data|
    case Long => !r.ok && r.pos == pos + MAX_VARINT_LENGTH
  }

  /** The scan that continues behind i bytes worth `low`. */
  function Lift(s: Scan, low: nat, i: nat): Scan {
    match s
    case Value(t, n) => Value(low + Pow128(i) * t, n)
    case e => e
  }

  lemma {:induction false} LiftNothing(s: Scan)
    ensures Lift(s, 0, 0) == s
  {
  }

  /** One byte with its top bit set. */
  lemma {:induction false} LiftMore(data: bytes, pos: nat, low: nat, i: nat, room: nat)
    requires pos < |data| && data[pos] >= 128 && room > 0
    ensures Lift(ScanLeb(data, pos, room), low, i)
            == Lift(ScanLeb(data, pos + 1, room - 1), low + Pow128(i) * (data[pos] - 128), i + 1)
  {
    match ScanLeb(data, pos + 1, room - 1)
    case Value(t, n) =>
      GroupSum(Pow128(i), data[pos] - 128, 128 * t);
      GroupShift(Pow128(i), t);
    case _ =>
  }

  lemma {:induction false} GroupSum(a: int, b: int, c: int)
    ensures a * (b + c) == a * b + a * c
  {
  }

  lemma {:induction false} GroupShift(a: int, t: int)
    ensures a * (128 * t) == (128 * a) * t
  {
  }

  lemma {:induction false} LiftLast(data: bytes, pos: nat, low: nat, i: nat, room: nat)
    requires pos < |data| && data[pos] < 128 && room > 0
    ensures Lift(ScanLeb(data, pos, room), low, i) == Value(low + Pow128(i) * data[pos], pos + 1)
  {
  }

  lemma {:induction false} Pow128IsTwo(i: nat)
    ensures Pow128(i) == Two(7 * i)
  {
    if i > 0 {
      Pow128IsTwo(i - 1);
      var k := 7 * (i - 1);
      assert Two(k + 1) == 2 * Two(k) && Two(k + 2) == 2 * Two(k + 1) && Two(k + 3) == 2 * Two(k + 2)
          && Two(k + 4) == 2 * Two(k + 3) && Two(k + 5) == 2 * Two(k + 4) && Two(k + 6) == 2 * Two(k + 5)
          && Two(k + 7) == 2 * Two(k + 6);
    }
  }

  /** val | group << 7 * i */
  function OrGroup(val: nat, group: nat, i: nat): nat {
    Or(val, group * Two(7 * i))
  }

  lemma {:induction false} OrGroupAdds(val: nat, group: nat, i: nat)
    requires val < Pow128(i) && group < 128
    ensures OrGroup(val, group, i) == val + Pow128(i) * group < Pow128(i + 1)
  {
    Pow128IsTwo(i);
    OrAbove(val, group, 7 * i);
    GroupBelow(val, Pow128(i), group);
  }

  lemma {:induction false} GroupBelow(val: nat, p: nat, group: nat)
    requires val < p && group < 128
    ensures val + p * group < 128 * p && p * group == group * p
  {
    assert p * group <= p * 127 by { GroupMonotone(p, group, 127); }
  }

  lemma {:induction false} GroupMonotone(p: nat, a: nat, b: nat)
    requires a <= b
    ensures p * a <= p * b
  {
  }

  /** What has been read after i bytes with their top bit set. */
  ghost predicate Prefix(data: bytes, start: nat, i: nat, val: nat) {
    && i <= MAX_VARINT_LENGTH && start + i <= |data| && val < Pow128(i)
    && ScanLeb(data, start, MAX_VARINT_LENGTH) == Lift(ScanLeb(data, start + i, MAX_VARINT_LENGTH - i), val, i)
  }

  lemma {:induction false} PrefixStart(data: bytes, start: nat)
    requires start <= |data|
    ensures Prefix(data, start, 0, 0)
  {
    hide ScanLeb;
    LiftNothing(ScanLeb(data, start, MAX_VARINT_LENGTH));
  }

  lemma {:induction false} PrefixMore(data: bytes, start: nat, i: nat, val: nat)
    requires Prefix(data, start, i, val) && i < MAX_VARINT_LENGTH && start + i < |data| && data[start + i] >= 128
    ensures Prefix(data, start, i + 1, OrGroup(val, data[start + i] % 128, i))
  {
    hide ScanLeb, Pow128, OrGroup, Lift;
    LiftMore(data, start + i, val, i, MAX_VARINT_LENGTH - i);
    OrGroupAdds(val, data[start + i] % 128, i);
  }

  lemma {:induction false} PrefixLast(data: bytes, start: nat, i: nat, val: nat)
    requires Prefix(data, start, i, val) && i < MAX_VARINT_LENGTH && start + i < |data| && data[start + i] < 128
    ensures ScanLeb(data, start, MAX_VARINT_LENGTH) == Value(val + Pow128(i) * data[start + i], start + i + 1)
    ensures OrGroup(val, data[start + i], i) == val + Pow128(i) * data[start + i] < Pow128(i + 1)
  {
    hide ScanLeb, Pow128, OrGroup, Lift;
    LiftLast(data, start + i, val, i, MAX_VARINT_LENGTH - i);
    OrGroupAdds(val, data[start + i], i);
  }

  /** Nine groups of seven bits are less than 2^63. */
  lemma {:induction false} FitsSixtyThree(i: nat, x: nat)
    requires i <= 9 && x < Pow128(i)
    ensures x < TWO_63
    decreases 9 - i
  {
    hide Pow128;
    Pow128Ten();
    if i < 9 {
      Pow128Grows(i);
      FitsSixtyThree(i + 1, x);
    }
  }

  lemma {:induction false} Pow128Grows(i: nat)
    ensures Pow128(i) <= Pow128(i + 1)
  {
  }

  /** A last byte among the first nine. */
  lemma {:induction false} ShortNumber(data: bytes, start: nat, i: nat, val: nat)
    requires Prefix(data, start, i, val) && i < 9 && start + i < |data| && data[start + i] < 128
    ensures IsDecoded(data, start, Decoded(true, start + i + 1, OrGroup(val, data[start + i], i)))
    ensures data[start + i] % 128 == data[start + i]
  {
    hide ScanLeb, Pow128, OrGroup, Prefix;
    PrefixLast(data, start, i, val);
    FitsSixtyThree(i + 1, OrGroup(val, data[start + i], i));
  }

  /** Of the tenth byte only one bit is kept: the number modulo 2^64. */
  lemma {:induction false} TenthByte(data: bytes, start: nat, val: nat)
    requires Prefix(data, start, 9, val) && start + 9 < |data| && data[start + 9] < 128
    ensures IsDecoded(data, start, Decoded(true, start + 10, OrGroup(val, data[start + 9] % 2, 9)))
  {
    hide ScanLeb, Pow128, OrGroup;
    PrefixLast(data, start, 9, val);
    Pow128Ten();
    FitsSixtyThree(9, val);
    var b := data[start + 9];
    OrGroupAdds(val, b % 2, 9);
    assert val + TWO_63 * b == (val + TWO_63 * (b % 2)) + TWO_64 * (b / 2);
  }

  lemma {:induction false} NoLastByte(data: bytes, start: nat, val: nat, r: Decoded)
    requires Prefix(data, start, MAX_VARINT_LENGTH, val) && r == Decoded(false, start + MAX_VARINT_LENGTH, 0)
    ensures IsDecoded(data, start, r) && ScanLeb(data, start, MAX_VARINT_LENGTH) == Long
  {
  }

  lemma {:induction false} CutOff(data: bytes, start: nat, i: nat, val: nat)
    requires Prefix(data, start, i, val) && i < MAX_VARINT_LENGTH && start + i == |data|
    ensures IsDecoded(data, start, Decoded(false, |data|, 0)) && ScanLeb(data, start, MAX_VARINT_LENGTH) == Short
  {
  }

  // ---- zigzag: (u << 1) ^ (all ones if negative) -------------------------------------

  /** All ones in this many bytes, or zero. */
  function Mask(width: nat, ones: bool): nat {
    if ones then Span(width) - 1 else 0
  }

  function EncodeZigZag(width: nat, n: int): nat
    requires 0 - Span(width) <= n < Span(width)
  {
    var u := if n < 0 then n + Span(width) else n;
    Xor((2 * u) % Span(width), Mask(width, 2 * u >= Span(width)))
  }

  /** The 64-bit decoder; narrower values are cut down by the caller. */
  function DecodeZigZag(u: nat): int {
    Signed(8, Xor(u / 2, Mask(8, u % 2 == 1)))
  }

  lemma {:induction false} SpanIsTwo(width: nat)
    ensures Span(width) == Two(8 * width)
  {
    if width > 0 {
      SpanIsTwo(width - 1);
      var k := 8 * (width - 1);
      assert Two(k + 1) == 2 * Two(k) && Two(k + 2) == 2 * Two(k + 1) && Two(k + 3) == 2 * Two(k + 2)
          && Two(k + 4) == 2 * Two(k + 3) && Two(k + 5) == 2 * Two(k + 4) && Two(k + 6) == 2 * Two(k + 5)
          && Two(k + 7) == 2 * Two(k + 6) && Two(k + 8) == 2 * Two(k + 7);
    }
  }

  lemma {:induction false} XorMask(width: nat, x: nat, ones: bool)
    requires x < Span(width)
    ensures Xor(x, Mask(width, ones)) == if ones then Span(width) - 1 - x else x
  {
    hide Xor, Span, Two;
    SpanIsTwo(width);
    if ones { XorOnes(x, 8 * width); } else { XorZero(x); }
  }

  /** Zigzag folds the signed numbers onto the unsigned ones: 0, -1, 1, -2, 2, ... */
  lemma {:induction false} ZigZagMeaning(width: nat, n: int)
    requires width == 4 || width == 8
    requires 0 - Span(width) <= 2 * n < Span(width)
    ensures EncodeZigZag(width, n) == (if n >= 0 then 2 * n else -2 * n - 1)
    ensures EncodeZigZag(width, n) < Span(width)
    ensures DecodeZigZag(EncodeZigZag(width, n)) == n
  {
    hide Xor, Span, Mask, EncodeZigZag, DecodeZigZag;
    SpanValues();
    EncodeMeaning(width, n);
    DecodeMeaning(if n >= 0 then 2 * n else -2 * n - 1);
  }

  lemma {:induction false} EncodeMeaning(width: nat, n: int)
    requires width == 4 || width == 8
    requires 0 - Span(width) <= 2 * n < Span(width)
    ensures EncodeZigZag(width, n) == (if n >= 0 then 2 * n else -2 * n - 1)
  {
    hide Xor, Span, Mask;
    SpanValues();
    var u := if n < 0 then n + Span(width) else n;
    XorMask(width, (2 * u) % Span(width), 2 * u >= Span(width));
  }

  lemma {:induction false} DecodeMeaning(u: nat)
    requires u < TWO_64
    ensures DecodeZigZag(u) == (if u % 2 == 0 then u / 2 else 0 - u / 2 - 1)
  {
    hide Xor, Span, Mask;
    SpanValues();
    XorMask(8, u / 2, u % 2 == 1);
  }

  /** ... and onto all of them: decoding is injective too. */
  lemma {:induction false} ZigZagOnto(u: nat)
    requires u < TWO_64
    ensures 0 - TWO_63 <= DecodeZigZag(u) < TWO_63
    ensures Span(8) == TWO_64 && EncodeZigZag(8, DecodeZigZag(u)) == u
  {
    hide Xor, Span, Mask, EncodeZigZag, DecodeZigZag;
    SpanValues();
    DecodeMeaning(u);
    EncodeMeaning(8, DecodeZigZag(u));
  }
}
