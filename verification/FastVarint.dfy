/** The result codes of a read. */
module Status {
  /** BadAccess is no code of the library but an exception that leaves it: the value of an
      expected that holds an error has been asked for. */
  datatype Code = Ok | NoBufferSpace | InvalidBuffer | HashConflict | BadAccess

  /** What becomes of the code of a nested read whose result the library drops. */
  function Dropped(code: Code): Code {
    if code == BadAccess then BadAccess else Ok
  }
}

/** The fast-varint block of a struct: a bitmap that marks the non-zero integers and holds
    the width code, followed by the non-zero integers, all cut to one common width. */
module FastVarint {
  import opened Bits
  import opened Bytes
  import opened Schema
  import opened Status

  // ---- the writer's and the sizer's view of the fields -----------------------------------

  function VarCount(ts: seq<Ty>): nat {
    if |ts| == 0 then 0 else (if ts[0].Var? then 1 else 0) + VarCount(ts[1..])
  }

  predicate Has64(ts: seq<Ty>) {
    exists i | 0 <= i < |ts| :: ts[i].Var? && ts[i].kind.Wide()
  }

  predicate HasSigned(ts: seq<Ty>) {
    exists i | 0 <= i < |ts| :: ts[i].Var? && ts[i].kind.Signed()
  }

  predicate HasUnsigned(ts: seq<Ty>) {
    exists i | 0 <= i < |ts| :: ts[i].Var? && !ts[i].kind.Signed()
  }

  /** The largest non-zero unsigned field, 0 without one. */
  function UnsignedMax(ts: seq<Ty>, vs: seq<Val>): (m: int)
    requires HasTypes(ts, vs)
    ensures m >= 0
  {
    if |ts| == 0 then 0
    else
      var rest := UnsignedMax(ts[1..], vs[1..]);
      if ts[0].Var? && !ts[0].kind.Signed() && vs[0].n > rest then vs[0].n else rest
  }

  /** What a signed number needs: n itself, or -(n + 1) below zero. */
  function Magnitude(n: int): int {
    if n > 0 then n else -(n + 1)
  }

  function SignedMax(ts: seq<Ty>, vs: seq<Val>): (m: int)
    requires HasTypes(ts, vs)
    ensures m >= 0
  {
    if |ts| == 0 then 0
    else
      var rest := SignedMax(ts[1..], vs[1..]);
      if ts[0].Var? && ts[0].kind.Signed() && vs[0].n != 0 && Magnitude(vs[0].n) > rest
      then Magnitude(vs[0].n) else rest
  }

  function UnsignedCode(max: int): int {
    if max < TWO_8 then 0 else if max < TWO_16 then 1 else if max < TWO_32 then 2 else 3
  }

  function SignedCode(max: int): int {
    if max < 0x80 then 0 else if max < TWO_15 then 1 else if max < TWO_31 then 2 else 3
  }

  /** get_fast_varint_width_from_max: the width is 2 to the power of this code. */
  function WidthFromMax(ts: seq<Ty>, unsignedMax: int, signedMax: int): (c: int)
    ensures 0 <= c <= 3
  {
    var u := if HasUnsigned(ts) then UnsignedCode(unsignedMax) else 0;
    var s := if HasSigned(ts) then SignedCode(signedMax) else 0;
    if HasSigned(ts) && HasUnsigned(ts) then (if u > s then u else s)
    else if HasSigned(ts) then s
    else u
  }

  function WidthCode(ts: seq<Ty>, vs: seq<Val>): (c: int)
    requires HasTypes(ts, vs)
    ensures 0 <= c <= 3
  {
    WidthFromMax(ts, UnsignedMax(ts, vs), SignedMax(ts, vs))
  }

  function WordWidth(code: int): nat
    requires 0 <= code <= 3
  {
    if code == 0 then 1 else if code == 1 then 2 else if code == 2 then 4 else 8
  }

  /** min(width, sizeof(Arg)) */
  function RealWidth(k: VarKind, code: int): nat
    requires 0 <= code <= 3
  {
    if WordWidth(code) < k.Width() then WordWidth(code) else k.Width()
  }

  /** n is representable in a word of this many bytes. */
  predicate InWord(signed: bool, width: nat, n: int) {
    if signed then 0 - Span(width) <= 2 * n < Span(width) else 0 <= n < Span(width)
  }

  // ---- the bitmap ------------------------------------------------------------------------

  /** vec[i / 8] & (1 << i % 8) */
  predicate BitAt(vec: bytes, i: nat)
    requires i < 8 * |vec|
  {
    BitIn(vec[i / 8], i % 8)
  }

  function BitmapSize(cnt: nat): nat {
    (cnt + 2 + 7) / 8
  }

  function BitOf(bits: seq<bool>, i: nat): (b: nat)
    ensures b <= 1
  {
    if i < |bits| && bits[i] then 1 else 0
  }

  /** The number whose bits are bits[i .. i + n], the first one lowest. */
  function Pack(bits: seq<bool>, i: nat, n: nat): (x: nat)
    decreases n
  {
    if n == 0 then 0 else BitOf(bits, i) + 2 * Pack(bits, i + 1, n - 1)
  }

  lemma {:induction false} PackByte(bits: seq<bool>, i: nat)
    ensures Pack(bits, i, 8) < 256
  {
    assert Pack(bits, i + 7, 1) <= 1;
    assert Pack(bits, i + 6, 2) <= 3;
    assert Pack(bits, i + 5, 3) <= 7;
    assert Pack(bits, i + 4, 4) <= 15;
    assert Pack(bits, i + 3, 5) <= 31;
    assert Pack(bits, i + 2, 6) <= 63;
    assert Pack(bits, i + 1, 7) <= 127;
  }

  lemma {:induction false} PackBit(bits: seq<bool>, i: nat, n: nat, j: nat)
    requires j < n
    ensures BitIn(Pack(bits, i, n), j) == (BitOf(bits, i + j) == 1)
    decreases n
  {
    var rest := Pack(bits, i + 1, n - 1);
    assert Pack(bits, i, n) / 2 == rest && Pack(bits, i, n) % 2 == BitOf(bits, i);
    if j > 0 {
      PackBit(bits, i + 1, n - 1, j - 1);
      assert (i + 1) + (j - 1) == i + j;
    }
  }

  /** Bytes with the same eight bits are equal. */
  lemma {:induction false} SameBits(x: nat, y: nat, n: nat, span: nat)
    requires n <= 8 && span == Two(n) && x < span && y < span
    requires forall j | 0 <= j < n :: BitIn(x, j) == BitIn(y, j)
    ensures x == y
  {
    if n > 0 {
      assert BitIn(x, 0) == BitIn(y, 0);
      forall j | 0 <= j < n - 1 ensures BitIn(x / 2, j) == BitIn(y / 2, j) {
        assert BitIn(x, j + 1) == BitIn(y, j + 1);
      }
      SameBits(x / 2, y / 2, n - 1, span / 2);
    }
  }

  function Bitmap(bits: seq<bool>): (vec: bytes)
    ensures |vec| == (|bits| + 7) / 8
  {
    seq((|bits| + 7) / 8, (k: nat) => PackByte(bits, 8 * k); Pack(bits, 8 * k, 8))
  }

  lemma {:induction false} BitmapBits(bits: seq<bool>, i: nat)
    requires i < |bits|
    ensures i < 8 * |Bitmap(bits)|
    ensures BitAt(Bitmap(bits), i) == bits[i]
  {
    PackBit(bits, 8 * (i / 8), 8, i % 8);
  }

  function NonZero(ts: seq<Ty>, vs: seq<Val>): (bits: seq<bool>)
    requires HasTypes(ts, vs)
    ensures |bits| == VarCount(ts)
  {
    if |ts| == 0 then []
    else (if ts[0].Var? then [vs[0].n != 0] else []) + NonZero(ts[1..], vs[1..])
  }

  function BlockBits(ts: seq<Ty>, vs: seq<Val>): (bits: seq<bool>)
    requires HasTypes(ts, vs)
    ensures |bits| == VarCount(ts) + 2
  {
    var code := WidthCode(ts, vs);
    NonZero(ts, vs) + [code % 2 == 1, code / 2 == 1]
  }

  // ---- writing -----------------------------------------------------------------------------

  function EncodeWords(ts: seq<Ty>, vs: seq<Val>, code: int): bytes
    requires HasTypes(ts, vs) && 0 <= code <= 3
  {
    if |ts| == 0 then [] else FirstWord(ts, vs, code) + EncodeWords(ts[1..], vs[1..], code)
  }

  /** serialize_one_fast_varint: nothing for a zero and for a field that is no varint. */
  function FirstWord(ts: seq<Ty>, vs: seq<Val>, code: int): bytes
    requires HasTypes(ts, vs) && |ts| > 0 && 0 <= code <= 3
  {
    if ts[0].Var? && vs[0].n != 0 then LE(RealWidth(ts[0].kind, code), Word64(ts[0].kind, vs[0].n)) else []
  }

  /** The bits of a field, widened to 64. */
  function Word64(k: VarKind, n: int): nat
    requires k.Holds(n)
  {
    SpanValues();
    Unsigned64(n)
  }

  /** serialize_fast_varint */
  function EncodeBlock(ts: seq<Ty>, vs: seq<Val>): bytes
    requires HasTypes(ts, vs)
  {
    if VarCount(ts) == 0 then []
    else Bitmap(BlockBits(ts, vs)) + EncodeWords(ts, vs, WidthCode(ts, vs))
  }

  // ---- the sizer's separate computation --------------------------------------------------

  function NonZeroCount(ts: seq<Ty>, vs: seq<Val>, wide: bool): nat
    requires HasTypes(ts, vs)
  {
    if |ts| == 0 then 0
    else (if ts[0].Var? && ts[0].kind.Wide() == wide && vs[0].n != 0 then 1 else 0)
         + NonZeroCount(ts[1..], vs[1..], wide)
  }

  /** calculate_fast_varint_size */
  function BlockSize(ts: seq<Ty>, vs: seq<Val>): nat
    requires HasTypes(ts, vs)
  {
    if VarCount(ts) == 0 then 0
    else
      var width := WordWidth(WidthCode(ts, vs));
      width * NonZeroCount(ts, vs, true) + (if width > 4 then 4 else width) * NonZeroCount(ts, vs, false)
      + BitmapSize(VarCount(ts))
  }

  lemma {:induction false} WordsSize(ts: seq<Ty>, vs: seq<Val>, code: int)
    requires HasTypes(ts, vs) && 0 <= code <= 3
    ensures |EncodeWords(ts, vs, code)| ==
            WordWidth(code) * NonZeroCount(ts, vs, true)
            + (if WordWidth(code) > 4 then 4 else WordWidth(code)) * NonZeroCount(ts, vs, false)
  {
    hide LE;
    if |ts| > 0 {
      var wide, narrow := WordWidth(code), if WordWidth(code) > 4 then 4 else WordWidth(code);
      WordsSize(ts[1..], vs[1..], code);
      OneMoreWord(wide, NonZeroCount(ts[1..], vs[1..], true));
      OneMoreWord(narrow, NonZeroCount(ts[1..], vs[1..], false));
    }
  }

  lemma {:induction false} OneMoreWord(width: nat, n: nat)
    ensures width * (1 + n) == width + width * n
    ensures width * (0 + n) == width * n
  {
  }

  /** The sizer and the writer agree on the block. */
  lemma {:induction false} BlockSizeExact(ts: seq<Ty>, vs: seq<Val>)
    requires HasTypes(ts, vs)
    ensures |EncodeBlock(ts, vs)| == BlockSize(ts, vs)
  {
    if VarCount(ts) > 0 { WordsSize(ts, vs, WidthCode(ts, vs)); }
  }

  // ---- the chosen width ----------------------------------------------------------------------

  lemma {:induction false} MaxBounds(ts: seq<Ty>, vs: seq<Val>, limit: int)
    requires HasTypes(ts, vs) && limit > 0
    ensures UnsignedMax(ts, vs) < limit <==> forall i | 0 <= i < |ts| && ts[i].Var? && !ts[i].kind.Signed() :: vs[i].n < limit
    ensures SignedMax(ts, vs) < limit <==> forall i | 0 <= i < |ts| && ts[i].Var? && ts[i].kind.Signed() :: -limit <= vs[i].n < limit
  {
    if |ts| > 0 {
      MaxBounds(ts[1..], vs[1..], limit);
      assert forall i | 1 <= i < |ts| :: ts[i] == ts[1..][i - 1] && vs[i] == vs[1..][i - 1];
      assert forall i | 0 <= i < |ts[1..]| :: ts[1..][i] == ts[i + 1] && vs[1..][i] == vs[i + 1];
    }
  }

  lemma {:induction false} MaxZero(ts: seq<Ty>, vs: seq<Val>)
    requires HasTypes(ts, vs)
    ensures !HasUnsigned(ts) ==> UnsignedMax(ts, vs) == 0
    ensures !HasSigned(ts) ==> SignedMax(ts, vs) == 0
  {
    if |ts| > 0 {
      MaxZero(ts[1..], vs[1..]);
      assert forall i | 0 <= i < |ts[1..]| :: ts[1..][i] == ts[i + 1];
      assert ts[0] in ts;
    }
  }

  ghost predicate AllInWord(ts: seq<Ty>, vs: seq<Val>, width: nat)
    requires HasTypes(ts, vs)
  {
    forall i | 0 <= i < |ts| && ts[i].Var? :: InWord(ts[i].kind.Signed(), width, vs[i].n)
  }

  /** The width is the least of 1, 2, 4, 8 bytes that holds every field. */
  lemma {:induction false} LeastWidth(ts: seq<Ty>, vs: seq<Val>, code: int)
    requires HasTypes(ts, vs) && 0 <= code <= 3
    ensures AllInWord(ts, vs, WordWidth(code)) <==> WidthCode(ts, vs) <= code
  {
    hide Span, UnsignedMax, SignedMax, AllInWord, HasUnsigned, HasSigned, HasTypes;
    SpanValues();
    MaxInWord(ts, vs, WordWidth(code));
    MaxZero(ts, vs);
    if code == 3 { AllFitEight(ts, vs); }
  }

  /** The two maxima tell whether every field fits. */
  lemma {:induction false} MaxInWord(ts: seq<Ty>, vs: seq<Val>, width: nat)
    requires HasTypes(ts, vs) && Span(width) % 2 == 0
    ensures AllInWord(ts, vs, width) <==> UnsignedMax(ts, vs) < Span(width) && SignedMax(ts, vs) < Span(width) / 2
  {
    hide Span, UnsignedMax, SignedMax;
    var limit := Span(width);
    MaxBounds(ts, vs, limit);
    MaxBounds(ts, vs, limit / 2);
    forall i | 0 <= i < |ts| && ts[i].Var? && !ts[i].kind.Signed() ensures vs[i].n >= 0 {
      assert HasType(ts[i], vs[i]);
    }
  }

  lemma {:induction false} AllFitEight(ts: seq<Ty>, vs: seq<Val>)
    requires HasTypes(ts, vs)
    ensures AllInWord(ts, vs, 8)
  {
    SpanValues();
    forall i | 0 <= i < |ts| && ts[i].Var? ensures InWord(ts[i].kind.Signed(), 8, vs[i].n) {
      assert HasType(ts[i], vs[i]);
    }
  }

  /** Eight bytes are used only when a 64-bit field is there. */
  lemma {:induction false} EightNeeds64(ts: seq<Ty>, vs: seq<Val>)
    requires HasTypes(ts, vs) && !Has64(ts)
    ensures WidthCode(ts, vs) <= 2
  {
    SpanValues();
    forall i | 0 <= i < |ts| && ts[i].Var? ensures InWord(ts[i].kind.Signed(), 4, vs[i].n) {
      assert HasType(ts[i], vs[i]) && !ts[i].kind.Wide();
    }
    LeastWidth(ts, vs, 2);
  }

  // ---- reading ---------------------------------------------------------------------------------

  datatype ReadMany = ReadMany(code: Code, items: seq<Val>, pos: nat)

  /** deserialize_one_fast_varint on a marked field: unsigned words are zero-extended,
      signed words sign-extended. */
  function WordValue(k: VarKind, bs: bytes): int {
    if k.Signed() then Signed(|bs|, FromLE(bs)) else FromLE(bs)
  }

  lemma {:induction false} WordValueHolds(k: VarKind, code: int, bs: bytes)
    requires 0 <= code <= 3 && |bs| == RealWidth(k, code)
    ensures k.Holds(WordValue(k, bs))
  {
    SpanValues();
  }

  /** deserialize_fast_varint_helper: idx counts the varint fields met so far. */
  function ReadWords(ts: seq<Ty>, items: seq<Val>, vec: bytes, idx: nat, code: int, data: bytes, pos: nat): (r: ReadMany)
    requires HasTypes(ts, items) && 0 <= code <= 3
    requires idx + VarCount(ts) <= 8 * |vec|
    ensures HasTypes(ts, r.items)
    ensures pos <= r.pos && (pos <= |data| ==> r.pos <= |data|)
    ensures r.code == Ok || r.code == NoBufferSpace
  {
    if |ts| == 0 then ReadMany(Ok, items, pos)
    else if !ts[0].Var? then
      var r := ReadWords(ts[1..], items[1..], vec, idx, code, data, pos);
      ReadMany(r.code, [items[0]] + r.items, r.pos)
    else if !BitAt(vec, idx) then
      var r := ReadWords(ts[1..], items[1..], vec, idx + 1, code, data, pos);
      ReadMany(r.code, [items[0]] + r.items, r.pos)
    else
      var w := RealWidth(ts[0].kind, code);
      if pos + w > |data| then
        // an unsigned field is set to 0 before it is read
        ReadMany(NoBufferSpace, if ts[0].kind.Signed() then items else [Num(0)] + items[1..], pos)
      else
        WordValueHolds(ts[0].kind, code, data[pos..pos + w]);
        var r := ReadWords(ts[1..], items[1..], vec, idx + 1, code, data, pos + w);
        ReadMany(r.code, [Num(WordValue(ts[0].kind, data[pos..pos + w]))] + r.items, r.pos)
  }

  /** The width code stored behind the marks. */
  function CodeOf(vec: bytes, cnt: nat): (c: int)
    requires cnt + 2 <= 8 * |vec|
    ensures 0 <= c <= 3
  {
    (if BitAt(vec, cnt) then 1 else 0) + (if BitAt(vec, cnt + 1) then 2 else 0)
  }

  /** deserialize_fast_varint */
  function ReadBlock(ts: seq<Ty>, items: seq<Val>, data: bytes, pos: nat): (r: ReadMany)
    requires HasTypes(ts, items)
    ensures HasTypes(ts, r.items)
    ensures pos <= r.pos && (pos <= |data| ==> r.pos <= |data|)
  {
    var cnt := VarCount(ts);
    var size := BitmapSize(cnt);
    if pos + size > |data| then ReadMany(NoBufferSpace, items, pos)
    else
      var vec := data[pos..pos + size];
      var code := CodeOf(vec, cnt);
      if code == 3 && !Has64(ts) then ReadMany(InvalidBuffer, items, pos + size)
      else ReadWords(ts, items, vec, 0, code, data, pos + size)
  }

  // ---- round trip ---------------------------------------------------------------------------------

  lemma {:induction false} WordRoundTrip(k: VarKind, code: int, n: int)
    requires 0 <= code <= 3 && k.Holds(n) && InWord(k.Signed(), WordWidth(code), n)
    ensures WordValue(k, LE(RealWidth(k, code), Word64(k, n))) == n
  {
    hide LE, FromLE, Span;
    SpanValues();
    var w := RealWidth(k, code);
    if n >= 0 {
      LERoundTrip(w, n);
    } else {
      var q := if w == 8 then 0 else if w == 4 then TWO_32 - 1 else if w == 2 then 0x1_0000_0000_0000 - 1 else 0x100_0000_0000_0000 - 1;
      assert n + TWO_64 == (n + Span(w)) + q * Span(w);
      LELowBytes(w, n + Span(w), q);
      LERoundTrip(w, n + Span(w));
    }
  }

  /** items with the non-zero varints of vs: a zero is not in the block and leaves its target
      alone, and so do the fields that are no varints. */
  function Overlay(ts: seq<Ty>, vs: seq<Val>, items: seq<Val>): (r: seq<Val>)
    requires HasTypes(ts, vs) && HasTypes(ts, items)
    ensures HasTypes(ts, r)
  {
    if |ts| == 0 then [] else [if ts[0].Var? && vs[0].n != 0 then vs[0] else items[0]] + Overlay(ts[1..], vs[1..], items[1..])
  }

  /** The bits stand in the bitmap from place idx on. */
  ghost predicate Marks(vec: bytes, idx: nat, bits: seq<bool>) {
    idx + |bits| <= 8 * |vec| && forall i | idx <= i < idx + |bits| :: BitAt(vec, i) == bits[i - idx]
  }

  lemma {:induction false} MarksTail(vec: bytes, idx: nat, bit: bool, bits: seq<bool>)
    requires Marks(vec, idx, [bit] + bits)
    ensures BitAt(vec, idx) == bit && Marks(vec, idx + 1, bits)
  {
    assert ([bit] + bits)[0] == bit;
    assert BitAt(vec, idx) == ([bit] + bits)[idx - idx];
    forall i | idx + 1 <= i < idx + 1 + |bits| ensures BitAt(vec, i) == bits[i - (idx + 1)] {
      assert BitAt(vec, i) == ([bit] + bits)[i - idx];
    }
  }

  lemma {:induction false} InWordTail(ts: seq<Ty>, vs: seq<Val>, width: nat)
    requires HasTypes(ts, vs) && |ts| > 0 && AllInWord(ts, vs, width)
    ensures ts[0].Var? ==> InWord(ts[0].kind.Signed(), width, vs[0].n)
    ensures AllInWord(ts[1..], vs[1..], width)
  {
    assert forall i | 0 <= i < |ts[1..]| :: ts[1..][i] == ts[i + 1] && vs[1..][i] == vs[i + 1];
  }

  /** One field: given the rest reads back, the whole does. */
  lemma {:induction false} FieldStep(ts: seq<Ty>, vs: seq<Val>, items: seq<Val>, vec: bytes, idx: nat, code: int, data: bytes, pos: nat)
    requires HasTypes(ts, vs) && HasTypes(ts, items) && |ts| > 0 && 0 <= code <= 3
    requires ts[0].Var? ==> InWord(ts[0].kind.Signed(), WordWidth(code), vs[0].n)
    requires idx + VarCount(ts) <= 8 * |vec| && (ts[0].Var? ==> BitAt(vec, idx) == (vs[0].n != 0))
    requires At(data, pos, FirstWord(ts, vs, code))
    requires ReadWords(ts[1..], items[1..], vec, idx + (if ts[0].Var? then 1 else 0), code, data, pos + |FirstWord(ts, vs, code)|)
             == ReadMany(Ok, Overlay(ts[1..], vs[1..], items[1..]),
                         pos + |FirstWord(ts, vs, code)| + |EncodeWords(ts[1..], vs[1..], code)|)
    ensures ReadWords(ts, items, vec, idx, code, data, pos)
            == ReadMany(Ok, Overlay(ts, vs, items), pos + |EncodeWords(ts, vs, code)|)
  {
    hide ReadWords, Overlay, EncodeWords, FirstWord, BitAt, RealWidth, WordValue, WordWidth, InWord, HasType, VarCount, At;
    FirstTyped(ts, vs, items);
    WordsFirst(ts, items, vec, idx, code, data, pos);
    OverlayFirst(ts, vs, items);
    EncodeWordsFirst(ts, vs, code);
    FirstWordRead(ts, vs, code, data, pos);
  }

  lemma {:induction false} FirstTyped(ts: seq<Ty>, vs: seq<Val>, items: seq<Val>)
    requires HasTypes(ts, vs) && HasTypes(ts, items) && |ts| > 0
    ensures HasTypes(ts[1..], vs[1..]) && HasTypes(ts[1..], items[1..]) && (ts[0].Var? ==> vs[0].Num?)
  {
    assert HasType(ts[0], vs[0]);
  }

  /** What the reader does with the first field. */
  lemma {:induction false} WordsFirst(ts: seq<Ty>, items: seq<Val>, vec: bytes, idx: nat, code: int, data: bytes, pos: nat)
    requires |ts| > 0 && HasTypes(ts, items) && HasTypes(ts[1..], items[1..]) && 0 <= code <= 3 && idx + VarCount(ts) <= 8 * |vec|
    ensures ts[0].Var? ==> idx < 8 * |vec|
    ensures idx + (if ts[0].Var? then 1 else 0) + VarCount(ts[1..]) <= 8 * |vec|
    ensures var all := ReadWords(ts, items, vec, idx, code, data, pos);
            if !ts[0].Var? || !BitAt(vec, idx) then
              var r := ReadWords(ts[1..], items[1..], vec, idx + (if ts[0].Var? then 1 else 0), code, data, pos);
              all == ReadMany(r.code, [items[0]] + r.items, r.pos)
            else
              var next := pos + RealWidth(ts[0].kind, code);
              next <= |data| ==>
                var r := ReadWords(ts[1..], items[1..], vec, idx + 1, code, data, next);
                all == ReadMany(r.code, [Num(WordValue(ts[0].kind, data[pos..next]))] + r.items, r.pos)
  {
    hide BitAt, RealWidth, WordValue, HasType;
  }

  lemma {:induction false} OverlayFirst(ts: seq<Ty>, vs: seq<Val>, items: seq<Val>)
    requires HasTypes(ts, vs) && HasTypes(ts, items) && |ts| > 0
    requires HasTypes(ts[1..], vs[1..]) && HasTypes(ts[1..], items[1..]) && (ts[0].Var? ==> vs[0].Num?)
    ensures Overlay(ts, vs, items) == [if ts[0].Var? && vs[0].n != 0 then vs[0] else items[0]] + Overlay(ts[1..], vs[1..], items[1..])
  {
    hide HasType;
  }

  lemma {:induction false} EncodeWordsFirst(ts: seq<Ty>, vs: seq<Val>, code: int)
    requires |ts| > 0 && HasTypes(ts, vs) && HasTypes(ts[1..], vs[1..]) && 0 <= code <= 3
    ensures EncodeWords(ts, vs, code) == FirstWord(ts, vs, code) + EncodeWords(ts[1..], vs[1..], code)
  {
    hide FirstWord, HasType;
  }

  lemma {:induction false} FirstWordRead(ts: seq<Ty>, vs: seq<Val>, code: int, data: bytes, pos: nat)
    requires HasTypes(ts, vs) && |ts| > 0 && 0 <= code <= 3 && (ts[0].Var? ==> vs[0].Num?)
    requires ts[0].Var? ==> InWord(ts[0].kind.Signed(), WordWidth(code), vs[0].n)
    requires At(data, pos, FirstWord(ts, vs, code))
    ensures if ts[0].Var? && vs[0].n != 0 then
              var next := pos + RealWidth(ts[0].kind, code);
              && next <= |data| && next == pos + |FirstWord(ts, vs, code)|
              && WordValue(ts[0].kind, data[pos..next]) == vs[0].n
            else FirstWord(ts, vs, code) == []
  {
    hide LE, FromLE, Span, RealWidth, VarKind.Holds, Signed, Unsigned64, InWord, WordWidth, WordValue;
    assert HasType(ts[0], vs[0]);
    if ts[0].Var? && vs[0].n != 0 { WordRoundTrip(ts[0].kind, code, vs[0].n); }
  }

  ghost predicate Writable(ts: seq<Ty>, vs: seq<Val>, items: seq<Val>, vec: bytes, idx: nat, code: int) {
    && HasTypes(ts, vs) && HasTypes(ts, items)
    && 0 <= code <= 3 && AllInWord(ts, vs, WordWidth(code))
    && Marks(vec, idx, NonZero(ts, vs))
  }

  lemma {:induction false} WritableTail(ts: seq<Ty>, vs: seq<Val>, items: seq<Val>, vec: bytes, idx: nat, code: int)
    requires Writable(ts, vs, items, vec, idx, code) && |ts| > 0
    ensures Writable(ts[1..], vs[1..], items[1..], vec, idx + (if ts[0].Var? then 1 else 0), code)
    ensures ts[0].Var? ==> InWord(ts[0].kind.Signed(), WordWidth(code), vs[0].n) && BitAt(vec, idx) == (vs[0].n != 0)
    ensures |vs| == |ts| && |items| == |ts|
    ensures idx + VarCount(ts) <= 8 * |vec|
  {
    hide BitIn, BitAt, Span, WordWidth, VarKind.Holds;
    InWordTail(ts, vs, WordWidth(code));
    if ts[0].Var? {
      MarksTail(vec, idx, vs[0].n != 0, NonZero(ts[1..], vs[1..]));
    } else {
      assert NonZero(ts, vs) == NonZero(ts[1..], vs[1..]);
    }
  }

  lemma {:induction false} WordsSplit(ts: seq<Ty>, vs: seq<Val>, code: int, data: bytes, pos: nat)
    requires HasTypes(ts, vs) && |ts| > 0 && 0 <= code <= 3
    requires At(data, pos, EncodeWords(ts, vs, code))
    ensures At(data, pos, FirstWord(ts, vs, code))
    ensures At(data, pos + |FirstWord(ts, vs, code)|, EncodeWords(ts[1..], vs[1..], code))
  {
    AtConcat(data, pos, FirstWord(ts, vs, code), EncodeWords(ts[1..], vs[1..], code));
  }

  lemma {:induction false} WordsRoundTrip(ts: seq<Ty>, vs: seq<Val>, items: seq<Val>, vec: bytes, idx: nat, code: int,
                                          data: bytes, pos: nat)
    requires Writable(ts, vs, items, vec, idx, code)
    requires At(data, pos, EncodeWords(ts, vs, code))
    ensures ReadWords(ts, items, vec, idx, code, data, pos)
            == ReadMany(Ok, Overlay(ts, vs, items), pos + |EncodeWords(ts, vs, code)|)
    decreases |ts|
  {
    hide LE, FromLE, Span, BitIn, BitAt, RealWidth, VarKind.Holds, Signed, NonZero, Unsigned64, FirstWord, WordWidth,
         Marks, AllInWord, InWord, Word64, WordValue, EncodeWords, ReadWords, Overlay, HasType, HasTypes, VarCount;
    if |ts| == 0 {
      NoWords(ts, vs, items, vec, idx, code, data, pos);
    } else {
      WritableTail(ts, vs, items, vec, idx, code);
      WordsSplit(ts, vs, code, data, pos);
      var next := pos + |FirstWord(ts, vs, code)|;
      WordsRoundTrip(ts[1..], vs[1..], items[1..], vec, idx + (if ts[0].Var? then 1 else 0), code, data, next);
      FieldStep(ts, vs, items, vec, idx, code, data, pos);
    }
  }

  lemma {:induction false} NoWords(ts: seq<Ty>, vs: seq<Val>, items: seq<Val>, vec: bytes, idx: nat, code: int,
                                   data: bytes, pos: nat)
    requires Writable(ts, vs, items, vec, idx, code) && |ts| == 0
    ensures ReadWords(ts, items, vec, idx, code, data, pos)
            == ReadMany(Ok, Overlay(ts, vs, items), pos + |EncodeWords(ts, vs, code)|)
  {
    assert items == Overlay(ts, vs, items);
  }

  lemma {:induction false} BlockMarks(ts: seq<Ty>, vs: seq<Val>)
    requires HasTypes(ts, vs)
    ensures var vec := Bitmap(BlockBits(ts, vs));
            Marks(vec, 0, NonZero(ts, vs)) && |vec| == BitmapSize(VarCount(ts)) && CodeOf(vec, VarCount(ts)) == WidthCode(ts, vs)
  {
    var bits, cnt, code := BlockBits(ts, vs), VarCount(ts), WidthCode(ts, vs);
    forall i | 0 <= i < cnt ensures i < 8 * |Bitmap(bits)| && BitAt(Bitmap(bits), i) == NonZero(ts, vs)[i - 0] {
      BitmapBits(bits, i);
      assert bits[i] == NonZero(ts, vs)[i];
    }
    BitmapBits(bits, cnt);
    BitmapBits(bits, cnt + 1);
    CodeBits(code);
  }

  lemma {:induction false} CodeBits(code: int)
    requires 0 <= code <= 3
    ensures (if code % 2 == 1 then 1 else 0) + (if code / 2 == 1 then 2 else 0) == code
  {
  }

  lemma {:induction false} ReadBlockWords(ts: seq<Ty>, items: seq<Val>, vec: bytes, code: int, data: bytes, pos: nat)
    requires HasTypes(ts, items) && |vec| == BitmapSize(VarCount(ts)) && CodeOf(vec, VarCount(ts)) == code
    requires At(data, pos, vec) && (code == 3 ==> Has64(ts))
    ensures ReadBlock(ts, items, data, pos) == ReadWords(ts, items, vec, 0, code, data, pos + |vec|)
  {
    hide ReadWords, CodeOf, BitAt, BitIn, VarCount, HasTypes, HasType, Has64, BitmapSize;
  }

  /** The reader writes every non-zero varint of the struct into its target and touches nothing
      else, whatever the targets hold. */
  lemma {:induction false} BlockRoundTrip(ts: seq<Ty>, vs: seq<Val>, items: seq<Val>, data: bytes, pos: nat)
    requires HasTypes(ts, vs) && HasTypes(ts, items)
    requires VarCount(ts) > 0 && At(data, pos, EncodeBlock(ts, vs))
    ensures ReadBlock(ts, items, data, pos) == ReadMany(Ok, Overlay(ts, vs, items), pos + |EncodeBlock(ts, vs)|)
  {
    hide ReadBlock, ReadWords, EncodeWords, NonZero, Overlay, Bitmap, BlockBits, WidthCode, VarCount,
         CodeOf, BitAt, BitmapSize, Has64;
    var code := WidthCode(ts, vs);
    var vec := Bitmap(BlockBits(ts, vs));
    BlockMarks(ts, vs);
    AtConcat(data, pos, vec, EncodeWords(ts, vs, code));
    if code == 3 && !Has64(ts) { EightNeeds64(ts, vs); }
    ReadBlockWords(ts, items, vec, code, data, pos);
    LeastWidth(ts, vs, code);
    WordsRoundTrip(ts, vs, items, vec, 0, code, data, pos + |vec|);
  }
}
