/** Bytes, little-endian words and positions in a byte buffer: the little-endian
    branches of struct_pack's endian_wrapper.hpp. */
module Bytes {
  type byte = b: int | 0 <= b < 256
  type bytes = seq<byte>

  const TWO_7: int := 0x80
  const TWO_8: int := 0x100
  const TWO_15: int := 0x8000
  const TWO_16: int := 0x1_0000
  const TWO_31: int := 0x8000_0000
  const TWO_32: int := 0x1_0000_0000
  const TWO_63: int := 0x8000_0000_0000_0000
  const TWO_64: int := 0x1_0000_0000_0000_0000

  /** 2 to the power of 8 * width, for the word widths that occur. */
  function Span(width: nat): (s: int)
    ensures s > 0
  {
    if width == 0 then 1 else 256 * Span(width - 1)
  }

  lemma {:induction false} SpanValues()
    ensures Span(1) == TWO_8 && Span(2) == TWO_16 && Span(4) == TWO_32 && Span(8) == TWO_64
  {
    assert Span(2) == 256 * Span(1);
    assert Span(3) == 256 * Span(2);
    assert Span(4) == 256 * Span(3);
    assert Span(5) == 256 * Span(4);
    assert Span(6) == 256 * Span(5);
    assert Span(7) == 256 * Span(6);
    assert Span(8) == 256 * Span(7);
  }

  /** The low `width` bytes of x, least significant first. */
  function LE(width: nat, x: nat): (bs: bytes)
    ensures |bs| == width
  {
    if width == 0 then [] else [x % 256] + LE(width - 1, x / 256)
  }

  function FromLE(bs: bytes): (x: nat)
    ensures x < Span(|bs|)
  {
    if |bs| == 0 then 0 else bs[0] + 256 * FromLE(bs[1..])
  }

  lemma {:induction false} LERoundTrip(width: nat, x: nat)
    requires x < Span(width)
    ensures FromLE(LE(width, x)) == x
  {
    if width > 0 {
      LERoundTrip(width - 1, x / 256);
      assert LE(width, x)[1..] == LE(width - 1, x / 256);
    }
  }

  /** Only x modulo 2^(8*width) is written. */
  lemma {:induction false} LELowBytes(width: nat, x: nat, q: nat)
    ensures LE(width, x + q * Span(width)) == LE(width, x)
  {
    if width > 0 {
      var y := x + q * Span(width);
      var r := q * Span(width - 1);
      assert q * Span(width) == 256 * r by { MulSwap(q, Span(width - 1)); }
      assert y % 256 == x % 256 && y / 256 == x / 256 + r;
      LELowBytes(width - 1, x / 256, q);
    }
  }

  lemma {:induction false} MulSwap(q: nat, s: nat)
    ensures q * (256 * s) == 256 * (q * s)
  {
  }

  /** The bytes `bs` stand at position `pos` of `data`. */
  ghost predicate At(data: bytes, pos: nat, bs: bytes): (r: bool)
    ensures r ==> pos + |bs| <= |data|
  {
    pos + |bs| <= |data| && data[pos..pos + |bs|] == bs
  }

  lemma {:induction false} AtConcat(data: bytes, pos: nat, a: bytes, b: bytes)
    ensures At(data, pos, a + b) <==> At(data, pos, a) && At(data, pos + |a|, b)
  {
    if At(data, pos, a + b) {
      var s := data[pos..pos + |a + b|];
      assert data[pos..pos + |a|] == s[..|a|];
      assert data[pos + |a|..pos + |a| + |b|] == s[|a|..];
    }
    if At(data, pos, a) && At(data, pos + |a|, b) {
      assert data[pos..pos + |a + b|] == data[pos..pos + |a|] + data[pos + |a|..pos + |a| + |b|];
    }
  }

  lemma {:induction false} Regroup(a: bytes, b: bytes, c: bytes)
    ensures (a + b) + c == a + (b + c) && a + [] == a && [] + a == a
  {
  }

  /** Two's complement reading of a word of `width` bytes. */
  function Signed(width: nat, u: int): int {
    if 2 * u < Span(width) then u else u - Span(width)
  }

  /** The unsigned image of n in 64 bits, as a conversion to uint64_t gives it. */
  function Unsigned64(n: int): int {
    if n < 0 then n + TWO_64 else n
  }

  /** From pos on the buffer holds a proper prefix of bs and ends there. */
  ghost predicate CutAt(data: bytes, pos: nat, bs: bytes): (r: bool)
    ensures r ==> pos <= |data| < pos + |bs|
  {
    pos <= |data| < pos + |bs| && data[pos..] == bs[..|data| - pos]
  }

  /** The cut is in the first part or behind it. */
  lemma {:induction false} CutConcat(data: bytes, pos: nat, a: bytes, b: bytes)
    requires CutAt(data, pos, a + b)
    ensures CutAt(data, pos, a) || (At(data, pos, a) && CutAt(data, pos + |a|, b))
  {
    var n := |data| - pos;
    if n < |a| {
      assert (a + b)[..n] == a[..n];
    } else {
      assert data[pos..pos + |a|] == data[pos..][..|a|] == (a + b)[..n][..|a|] == a;
      assert data[pos + |a|..] == data[pos..][|a|..] == (a + b)[..n][|a|..] == b[..n - |a|];
    }
  }

  lemma {:induction false} CutNothing(data: bytes, pos: nat)
    ensures !CutAt(data, pos, [])
  {
  }
}
