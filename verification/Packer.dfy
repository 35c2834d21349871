/** The sizer and the packer as they run: loops over the elements, running totals, and a
    writer whose cursor moves through a buffer of the announced size. */
module Packer {
  import opened Bits
  import opened Bytes
  import opened Leb128
  import opened Schema
  import opened FastVarint
  import opened Encoding
  import opened Versions
  import opened Message

  // ---- sizes -----------------------------------------------------------------------------------

  /** size_info, with operator+= */
  datatype SizeInfo = SizeInfo(total: nat, count: nat, max: nat) {
    function Plus(other: SizeInfo): SizeInfo {
      SizeInfo(total + other.total, count + other.count, Larger(max, other.max))
    }
  }

  ghost predicate Sizes(t: Ty, v: Val, s: SizeInfo)
    requires Typed(t, v)
  {
    s == SizeInfo(Total(t, v), Count(t, v), MaxLength(t, v))
  }

  /** calculate_one_size */
  method CalculateOneSize(t: Ty, v: Val) returns (ret: SizeInfo)
    requires Typed(t, v)
    ensures Sizes(t, v, ret)
    decreases t, 0
  {
    hide TotalElems, TotalFields, CountElems, CountFields, MaxLengthElems, MaxLengthFields, BlockSize, Collect, EncodeVar;
    ret := SizeInfo(0, 0, 0);
    match t {
      case Fixed(w) => ret := SizeInfo(w, 0, 0);
      case Var(k) =>
        VarSize(k, v);
        var size := CalculateVarintSize(k.Wire(v.n));
        ret := SizeInfo(size, 0, 0);
      case Array(_, e) =>
        ret := CalculateElemsSize(e, v.items);
      case Container(shape, e) =>
        if shape.Contiguous? && e.Fixed? {
          BulkSize(e, v.items);
          BulkMax(e, v.items);
          ret := SizeInfo(|v.items| * e.width, 1, |v.items|);
        } else {
          var elems := CalculateElemsSize(e, v.items);
          ret := SizeInfo(0, 1, |v.items|).Plus(elems);
        }
      case Optional(e, _) =>
        ret := SizeInfo(1, 0, 0);
        if v.Some? {
          var inner := CalculateOneSize(e, v.value);
          ret := ret.Plus(inner);
        }
      case Expected(a, e) =>
        var inner := CalculateOneSize(if v.index == 1 then a else e, v.value);
        ret := SizeInfo(1, 0, 0).Plus(inner);
      case Variant(alts) =>
        var inner := CalculateOneSize(alts[v.index], v.value);
        ret := SizeInfo(1, 0, 0).Plus(inner);
      case Struct(fast, fs) =>
        var block := 0;
        if fast { block := CalculateFastVarintSize(fs, v.items); }
        var fields := CalculatePayloadSize(fast, fs, v.items);
        ret := SizeInfo(block, 0, 0).Plus(fields);
      case Compatible(_, e) =>
        ret := SizeInfo(1, 0, 0);
        if v.Some? {
          var inner := CalculateOneSize(e, v.value);
          ret := ret.Plus(inner);
        }
    }
  }

  lemma {:induction false} VarSize(k: VarKind, v: Val)
    requires Typed(Var(k), v)
    ensures k.Wire(v.n) >= 0 && |EncodeVar(k, v.n)| == |Leb(k.Wire(v.n))|
  {
    hide Leb;
    WireRoundTrip(k, v.n);
  }

  lemma {:induction false} BulkMax(t: Ty, vs: seq<Val>)
    requires t.Fixed? && AllHaveType(t, vs)
    ensures MaxLengthElems(t, vs) == 0
  {
    if |vs| > 0 { BulkMax(t, vs[1..]); }
  }

  /** What the elements from place i on need. */
  ghost function ElemsFrom(t: Ty, vs: seq<Val>, i: nat): SizeInfo
    requires WellFormed(t) && AllHaveType(t, vs) && i <= |vs|
  {
    SizeInfo(TotalElems(t, vs[i..]), CountElems(t, vs[i..]), MaxLengthElems(t, vs[i..]))
  }

  lemma {:induction false} ElemsStep(t: Ty, vs: seq<Val>, i: nat)
    requires WellFormed(t) && AllHaveType(t, vs) && i <= |vs|
    ensures i == |vs| ==> ElemsFrom(t, vs, i) == SizeInfo(0, 0, 0)
    ensures i < |vs| ==>
              ElemsFrom(t, vs, i) == SizeInfo(Total(t, vs[i]), Count(t, vs[i]), MaxLength(t, vs[i])).Plus(ElemsFrom(t, vs, i + 1))
  {
    hide Total, Count, MaxLength, HasType, WellFormed;
    if i < |vs| { assert vs[i..][0] == vs[i] && vs[i..][1..] == vs[i + 1..]; }
  }

  method CalculateElemsSize(t: Ty, vs: seq<Val>) returns (ret: SizeInfo)
    requires WellFormed(t) && AllHaveType(t, vs)
    ensures ret == SizeInfo(TotalElems(t, vs), CountElems(t, vs), MaxLengthElems(t, vs))
    decreases t, 1
  {
    hide ElemsFrom, TotalElems, CountElems, MaxLengthElems, Total, Count, MaxLength, HasType, WellFormed;
    ret := SizeInfo(0, 0, 0);
    var i := 0;
    WholeElems(t, vs);
    while i < |vs|
      invariant 0 <= i <= |vs|
      invariant ret.Plus(ElemsFrom(t, vs, i)) == ElemsFrom(t, vs, 0)
    {
      ElemsStep(t, vs, i);
      var one := CalculateOneSize(t, vs[i]);
      ret := ret.Plus(one);
      i := i + 1;
    }
    ElemsStep(t, vs, i);
  }

  lemma {:induction false} WholeElems(t: Ty, vs: seq<Val>)
    requires WellFormed(t) && AllHaveType(t, vs)
    ensures ElemsFrom(t, vs, 0) == SizeInfo(TotalElems(t, vs), CountElems(t, vs), MaxLengthElems(t, vs))
  {
    hide TotalElems, CountElems, MaxLengthElems, HasType, WellFormed;
    assert vs[0..] == vs;
  }

  /** What the fields from place i on need. */
  ghost function FieldsFrom(skip: bool, ts: seq<Ty>, vs: seq<Val>, i: nat): SizeInfo
    requires AllWellFormed(ts) && HasTypes(ts, vs) && i <= |ts|
  {
    SizeInfo(TotalFields(skip, ts[i..], vs[i..]), CountFields(ts[i..], vs[i..]), MaxLengthFields(ts[i..], vs[i..]))
  }

  lemma {:induction false} FieldsStep(skip: bool, ts: seq<Ty>, vs: seq<Val>, i: nat)
    requires AllWellFormed(ts) && HasTypes(ts, vs) && i <= |ts|
    ensures i == |ts| ==> FieldsFrom(skip, ts, vs, i) == SizeInfo(0, 0, 0)
    ensures i < |ts| && skip && ts[i].Var? ==> FieldsFrom(skip, ts, vs, i) == FieldsFrom(skip, ts, vs, i + 1)
    ensures i < |ts| && !(skip && ts[i].Var?) ==>
              FieldsFrom(skip, ts, vs, i)
              == SizeInfo(Total(ts[i], vs[i]), Count(ts[i], vs[i]), MaxLength(ts[i], vs[i])).Plus(FieldsFrom(skip, ts, vs, i + 1))
  {
    hide Total, HasType, WellFormed, CountElems, MaxLengthElems;
    if i < |ts| {
      assert ts[i..][0] == ts[i] && ts[i..][1..] == ts[i + 1..];
      assert vs[i..][0] == vs[i] && vs[i..][1..] == vs[i + 1..];
    }
  }

  lemma {:induction false} WholeFields(skip: bool, ts: seq<Ty>, vs: seq<Val>)
    requires AllWellFormed(ts) && HasTypes(ts, vs)
    ensures FieldsFrom(skip, ts, vs, 0) == SizeInfo(TotalFields(skip, ts, vs), CountFields(ts, vs), MaxLengthFields(ts, vs))
  {
    hide TotalFields, CountFields, MaxLengthFields, HasType, WellFormed;
    assert ts[0..] == ts && vs[0..] == vs;
  }

  /** calculate_payload_size */
  method CalculatePayloadSize(skip: bool, ts: seq<Ty>, vs: seq<Val>) returns (ret: SizeInfo)
    requires AllWellFormed(ts) && HasTypes(ts, vs)
    ensures ret == SizeInfo(TotalFields(skip, ts, vs), CountFields(ts, vs), MaxLengthFields(ts, vs))
    decreases ts, 1
  {
    hide FieldsFrom, TotalFields, CountFields, MaxLengthFields, Total, Count, MaxLength, HasType, WellFormed;
    ret := SizeInfo(0, 0, 0);
    var i := 0;
    WholeFields(skip, ts, vs);
    while i < |ts|
      invariant 0 <= i <= |ts|
      invariant ret.Plus(FieldsFrom(skip, ts, vs, i)) == FieldsFrom(skip, ts, vs, 0)
    {
      FieldsStep(skip, ts, vs, i);
      if !(skip && ts[i].Var?) {
        var one := CalculateOneSize(ts[i], vs[i]);
        ret := ret.Plus(one);
      }
      i := i + 1;
    }
    FieldsStep(skip, ts, vs, i);
  }

  // ---- the fast-varint block -----------------------------------------------------------------------

  /** What the fields up to place i leave for the others: the running counts and maxima. */
  ghost predicate Running(ts: seq<Ty>, vs: seq<Val>, i: nat, unsignedMax: int, signedMax: int)
    requires HasTypes(ts, vs) && i <= |ts|
  {
    && (if UnsignedMax(ts[i..], vs[i..]) > unsignedMax then UnsignedMax(ts[i..], vs[i..]) else unsignedMax) == UnsignedMax(ts, vs)
    && (if SignedMax(ts[i..], vs[i..]) > signedMax then SignedMax(ts[i..], vs[i..]) else signedMax) == SignedMax(ts, vs)
  }

  lemma {:induction false} MaxStep(ts: seq<Ty>, vs: seq<Val>, i: nat)
    requires HasTypes(ts, vs) && i < |ts|
    ensures ts[i..][0] == ts[i] && vs[i..][0] == vs[i]
    ensures ts[i..][1..] == ts[i + 1..] && vs[i..][1..] == vs[i + 1..]
    ensures HasTypes(ts[i..], vs[i..])
  {
    hide HasType;
  }

  /** get_fast_varint_width_impl for the maxima: one field. */
  function NextUnsigned(t: Ty, v: Val, max: int): int
    requires HasType(t, v)
  {
    if t.Var? && !t.kind.Signed() && v.n != 0 && v.n > max then v.n else max
  }

  function NextSigned(t: Ty, v: Val, max: int): int
    requires HasType(t, v)
  {
    if t.Var? && t.kind.Signed() && v.n != 0 && Magnitude(v.n) > max then Magnitude(v.n) else max
  }

  lemma {:induction false} RunningMore(ts: seq<Ty>, vs: seq<Val>, i: nat, unsignedMax: int, signedMax: int)
    requires HasTypes(ts, vs) && i < |ts| && Running(ts, vs, i, unsignedMax, signedMax)
    requires unsignedMax >= 0 && signedMax >= 0
    ensures HasType(ts[i], vs[i])
    ensures Running(ts, vs, i + 1, NextUnsigned(ts[i], vs[i], unsignedMax), NextSigned(ts[i], vs[i], signedMax))
  {
    hide HasType, Magnitude;
    MaxStep(ts, vs, i);
  }

  lemma {:induction false} RunningEnd(ts: seq<Ty>, vs: seq<Val>, unsignedMax: int, signedMax: int)
    requires HasTypes(ts, vs) && Running(ts, vs, |ts|, unsignedMax, signedMax) && unsignedMax >= 0 && signedMax >= 0
    ensures unsignedMax == UnsignedMax(ts, vs) && signedMax == SignedMax(ts, vs)
  {
    hide HasType;
  }

  lemma {:induction false} RunningStart(ts: seq<Ty>, vs: seq<Val>)
    requires HasTypes(ts, vs)
    ensures Running(ts, vs, 0, 0, 0)
  {
    hide HasType;
    assert ts[0..] == ts && vs[0..] == vs;
  }

  /** get_fast_varint_width_impl on the sizer's side */
  method CalculateFastVarintSize(ts: seq<Ty>, vs: seq<Val>) returns (size: nat)
    requires HasTypes(ts, vs)
    ensures size == BlockSize(ts, vs)
  {
    hide HasType, UnsignedMax, SignedMax, NonZeroCount, Running, NextUnsigned, NextSigned, WidthFromMax;
    var cnt := VarCount(ts);
    if cnt == 0 { return 0; }
    var unsignedMax, signedMax, no32, no64 := 0, 0, 0, 0;
    var i := 0;
    RunningStart(ts, vs);
    CountsStart(ts, vs);
    while i < |ts|
      invariant 0 <= i <= |ts| && unsignedMax >= 0 && signedMax >= 0 && no32 >= 0 && no64 >= 0
      invariant Running(ts, vs, i, unsignedMax, signedMax)
      invariant no64 + NonZeroCount(ts[i..], vs[i..], true) == NonZeroCount(ts, vs, true)
      invariant no32 + NonZeroCount(ts[i..], vs[i..], false) == NonZeroCount(ts, vs, false)
    {
      RunningMore(ts, vs, i, unsignedMax, signedMax);
      CountsStep(ts, vs, i);
      if ts[i].Var? && vs[i].n != 0 {
        if ts[i].kind.Wide() { no64 := no64 + 1; } else { no32 := no32 + 1; }
      }
      NextGrows(ts[i], vs[i], unsignedMax, signedMax);
      unsignedMax := NextUnsigned(ts[i], vs[i], unsignedMax);
      signedMax := NextSigned(ts[i], vs[i], signedMax);
      i := i + 1;
    }
    RunningEnd(ts, vs, unsignedMax, signedMax);
    CountsEnd(ts, vs);
    var width := WordWidth(WidthFromMax(ts, unsignedMax, signedMax));
    size := width * no64 + (if width > 4 then 4 else width) * no32 + BitmapSize(cnt);
  }

  lemma {:induction false} NextGrows(t: Ty, v: Val, unsignedMax: int, signedMax: int)
    requires HasType(t, v)
    ensures NextUnsigned(t, v, unsignedMax) >= unsignedMax && NextSigned(t, v, signedMax) >= signedMax
  {
    hide HasType;
  }

  lemma {:induction false} CountsStart(ts: seq<Ty>, vs: seq<Val>)
    requires HasTypes(ts, vs)
    ensures ts[0..] == ts && vs[0..] == vs
  {
  }

  lemma {:induction false} CountsStep(ts: seq<Ty>, vs: seq<Val>, i: nat)
    requires HasTypes(ts, vs) && i < |ts|
    ensures HasType(ts[i], vs[i]) && HasTypes(ts[i..], vs[i..]) && HasTypes(ts[i + 1..], vs[i + 1..])
    ensures ts[i].Var? ==> vs[i].Num?
    ensures forall wide ::
              NonZeroCount(ts[i..], vs[i..], wide)
              == (if ts[i].Var? && ts[i].kind.Wide() == wide && vs[i].n != 0 then 1 else 0)
                 + NonZeroCount(ts[i + 1..], vs[i + 1..], wide)
  {
    assert HasType(ts[i], vs[i]);
    MaxStep(ts, vs, i);
  }

  lemma {:induction false} CountsEnd(ts: seq<Ty>, vs: seq<Val>)
    requires HasTypes(ts, vs)
    ensures forall wide :: NonZeroCount(ts[|ts|..], vs[|ts|..], wide) == 0
  {
  }

  /** get_serialize_runtime_info */
  method GetSerializeRuntimeInfo(conf: Conf, t: Ty, v: Val) returns (info: BufferSize)
    requires Typed(t, v)
    ensures info == RuntimeInfo(conf, t, v)
  {
    hide Total, Count, MaxLength, HasType, WellFormed, InfoFor;
    var size := CalculateOneSize(t, v);
    info := RuntimeInfoOf(conf, t, size);
  }

  method RuntimeInfoOf(conf: Conf, t: Ty, size: SizeInfo) returns (info: BufferSize)
    ensures info == InfoFor(conf, t, size.total, size.count, size.max)
  {
    hide HasContainer, HasCompatible, HasMetainfo, WordWidth, LengthCode, TotalCode, LengthBytes;
    var len := if HasMetainfo(conf, t) then 1 else 0;
    var widthCode, lenCode := 0, 0;
    if !HasContainer(t) {
      len := len + size.total;
    } else {
      widthCode := LengthCode(size.max);
      len := len + size.total + LengthBytes(size.count, widthCode);
      if widthCode > 0 && !HasMetainfo(conf, t) {
        len := len + 1;
      }
    }
    var literal := false;
    if conf.Head? {
      len := len + 4;
      if conf.addLiteral {
        len := len + |conf.literal| + 1;
        literal := true;
      }
      if HasCompatible(t) {
        lenCode := TotalCode(len);
        len := len + WordWidth(lenCode);
      }
    }
    info := BufferSize(len, widthCode, literal, lenCode);
  }

  // ---- the packer -------------------------------------------------------------------------------------

  class Packer {
    const data: array<byte>
    const w: nat
    var pos: nat

    ghost predicate Valid()
      reads this
    {
      pos <= data.Length
    }

    ghost function Written(): bytes
      requires Valid()
      reads this, data
    {
      data[..pos]
    }

    /** There is room for n more bytes. */
    ghost predicate Room(n: nat)
      reads this
    {
      pos + n <= data.Length
    }

    /** Exactly these bytes have been written since, and the bytes behind them are untouched. */
    twostate predicate Appended(bs: bytes)
      requires old(Valid())
      reads this, data
    {
      Valid() && Written() == old(Written()) + bs && Kept(old(data[..]))
    }

    /** The bytes from the cursor on are those of the given buffer. */
    ghost predicate Kept(was: bytes)
      reads this, data
    {
      |was| == data.Length && forall k | pos <= k < data.Length :: data[k] == was[k]
    }

    lemma NothingLost()
      ensures Kept(data[..])
    {
    }

    twostate lemma KeptMore(was: bytes)
      requires old(Valid()) && Valid() && old(pos) <= pos && old(Kept(was)) && Kept(old(data[..]))
      ensures Kept(was)
    {
    }

    constructor (data: array<byte>, w: nat)
      ensures Valid() && this.data == data && this.w == w && pos == 0
    {
      this.data, this.w, pos := data, w, 0;
    }

    /** writer.write */
    method Write(bs: bytes)
      requires Valid() && Room(|bs|)
      modifies this`pos, data
      ensures Appended(bs)
    {
      forall k | 0 <= k < |bs| {
        data[pos + k] := bs[k];
      }
      pos := pos + |bs|;
    }

    /** serialize_varint */
    method SerializeVarint(k: VarKind, n: int)
      requires k.Holds(n) && Valid() && Room(|EncodeVar(k, n)|)
      modifies this`pos, data
      ensures Appended(EncodeVar(k, n))
    {
      hide Leb, Or, VarKind.Wire;
      WireRoundTrip(k, n);
      ghost var start, was := Written(), data[..];
      var v: nat := k.Wire(n);
      while v >= 0x80
        invariant Valid() && Room(|Leb(v)|)
        invariant Written() + Leb(v) == start + EncodeVar(k, n)
        invariant Kept(was)
        decreases v
      {
        LebSteps(v);
        TopBit(v);
        ghost var before := Written();
        Write([Or(v, 0x80) % 256]);
        Regroup(before, [v % 128 + 128], Leb(v / 128));
        v := v / 128;
      }
      LebSteps(v);
      Write([v]);
    }

    /** get_fast_varint_width: the marks and the width code. */
    method GetFastVarintWidth(vec: array<byte>, ts: seq<Ty>, vs: seq<Val>) returns (width: int)
      requires HasTypes(ts, vs) && vec.Length == BitmapSize(VarCount(ts)) && forall k | 0 <= k < vec.Length :: vec[k] == 0
      requires vec != data
      modifies vec
      ensures width == WidthCode(ts, vs)
      ensures MarkedTo(vec[..], NonZero(ts, vs))
    {
      hide HasType, UnsignedMax, SignedMax, Running, NextUnsigned, NextSigned, WidthFromMax, BitIn, MarkedTo, NonZero;
      var unsignedMax, signedMax, i, j := 0, 0, 0, 0;
      RunningStart(ts, vs);
      CountsStart(ts, vs);
      NothingMarked(vec[..]);
      ghost var bits: seq<bool> := [];
      while j < |ts|
        invariant 0 <= j <= |ts| && i == |bits| && unsignedMax >= 0 && signedMax >= 0
        invariant Running(ts, vs, j, unsignedMax, signedMax)
        invariant HasTypes(ts[j..], vs[j..]) && bits + NonZero(ts[j..], vs[j..]) == NonZero(ts, vs)
        invariant MarkedTo(vec[..], bits)
      {
        RunningMore(ts, vs, j, unsignedMax, signedMax);
        CountsStep(ts, vs, j);
        MarksStep(ts, vs, j, bits);
        if ts[j].Var? {
          PlaceInBitmap(i, VarCount(ts));
          MarkMore(vec[..], bits, vs[j].n != 0);
          if vs[j].n != 0 {
            vec[i / 8] := SetBit(vec[i / 8], i % 8);
          }
          bits := bits + [vs[j].n != 0];
          i := i + 1;
        }
        NextGrows(ts[j], vs[j], unsignedMax, signedMax);
        unsignedMax := NextUnsigned(ts[j], vs[j], unsignedMax);
        signedMax := NextSigned(ts[j], vs[j], signedMax);
        j := j + 1;
      }
      RunningEnd(ts, vs, unsignedMax, signedMax);
      MarksEnd(ts, vs);
      assert bits + [] == bits;
      width := WidthFromMax(ts, unsignedMax, signedMax);
    }

    /** The marks and the width code in a new array. */
    method FillBitmap(ts: seq<Ty>, vs: seq<Val>) returns (vec: array<byte>, width: int)
      requires HasTypes(ts, vs)
      ensures fresh(vec) && width == WidthCode(ts, vs) && vec[..] == Bitmap(BlockBits(ts, vs))
    {
      hide HasType, BitIn, MarkedTo, NonZero, WidthCode, Bitmap, BlockBits;
      var cnt := VarCount(ts);
      vec := new byte[BitmapSize(cnt)](_ => 0);
      width := GetFastVarintWidth(vec, ts, vs);
      ghost var bits := NonZero(ts, vs);
      PlaceInBitmap(cnt, cnt);
      MarkMore(vec[..], bits, width % 2 == 1);
      if width % 2 == 1 { vec[cnt / 8] := SetBit(vec[cnt / 8], cnt % 8); }
      bits := bits + [width % 2 == 1];
      MarkMore(vec[..], bits, width / 2 == 1);
      if width / 2 == 1 { vec[(cnt + 1) / 8] := SetBit(vec[(cnt + 1) / 8], (cnt + 1) % 8); }
      bits := bits + [width / 2 == 1];
      BlockBitsParts(ts, vs, bits, width);
      MarkedIsBitmap(vec[..], bits);
    }

    /** The non-zero integers at the common width. */
    method SerializeWords(ts: seq<Ty>, vs: seq<Val>, width: int)
      requires HasTypes(ts, vs) && 0 <= width <= 3 && Valid() && Room(|EncodeWords(ts, vs, width)|)
      modifies this`pos, data
      ensures Appended(EncodeWords(ts, vs, width))
    {
      hide HasType, EncodeWords, FirstWord, RealWidth, LE, VarKind.Holds;
      ghost var start, was := Written(), data[..];
      var i := 0;
      CountsStart(ts, vs);
      while i < |ts|
        invariant 0 <= i <= |ts| && Valid() && HasTypes(ts[i..], vs[i..])
        invariant Room(|EncodeWords(ts[i..], vs[i..], width)|)
        invariant Written() + EncodeWords(ts[i..], vs[i..], width) == start + EncodeWords(ts, vs, width)
        invariant Kept(was)
      {
        CountsStep(ts, vs, i);
        WordsStep(ts, vs, i, width);
        ghost var before := Written();
        if ts[i].Var? && vs[i].n != 0 {
          Write(LE(RealWidth(ts[i].kind, width), Word64(ts[i].kind, vs[i].n)));
        }
        Regroup(before, FirstWord(ts[i..], vs[i..], width), EncodeWords(ts[i + 1..], vs[i + 1..], width));
        i := i + 1;
      }
      NoWordsLeft(ts, vs, width);
    }

    /** serialize_fast_varint */
    method SerializeFastVarint(ts: seq<Ty>, vs: seq<Val>)
      requires HasTypes(ts, vs) && Valid() && Room(|EncodeBlock(ts, vs)|)
      modifies this`pos, data
      ensures Appended(EncodeBlock(ts, vs))
    {
      hide HasType, WidthCode, EncodeWords, Bitmap, BlockBits;
      ghost var start := Written();
      var cnt := VarCount(ts);
      if cnt == 0 { return; }
      var vec, width := FillBitmap(ts, vs);
      ghost var marks := vec[..];
      Write(vec[..]);
      SerializeWords(ts, vs, width);
      Regroup(start, marks, EncodeWords(ts, vs, width));
    }

    // ---- one pass over a value --------------------------------------------------------------------

    /** serialize_one */
    method SerializeOne(t: Ty, v: Val, pass: Pass)
      requires Typed(t, v) && Valid() && Room(|Encode(t, v, pass, w)|)
      modifies this`pos, data
      ensures Appended(Encode(t, v, pass, w))
      decreases t, 0
    {
      hide EncodeElems, EncodeFields, EncodeBlock, Collect, EncodeVar, LE;
      ghost var start := Written();
      if pass.Version? && !HasVersion(t, pass.n) { return; }
      match t {
        case Fixed(_) =>
          if pass.Plain? { Write(v.bytes); }
        case Var(k) =>
          if pass.Plain? { SerializeVarint(k, v.n); }
        case Array(_, e) =>
          SerializeElems(e, v.items, pass);
        case Container(_, e) =>
          if pass.Plain? { Write(LE(w, |v.items|)); }
          SerializeElems(e, v.items, pass);
          Regroup(start, if pass.Plain? then LE(w, |v.items|) else [], EncodeElems(e, v.items, pass, w));
        case Optional(e, _) =>
          SerializeOptional(e, v, pass);
        case Expected(a, e) =>
          if pass.Plain? { Write([v.index]); }
          SerializeOne(if v.index == 1 then a else e, v.value, pass);
          Regroup(start, if pass.Plain? then [v.index] else [], Encode(if v.index == 1 then a else e, v.value, pass, w));
        case Variant(alts) =>
          if pass.Plain? { Write([v.index]); }
          SerializeOne(alts[v.index], v.value, pass);
          Regroup(start, if pass.Plain? then [v.index] else [], Encode(alts[v.index], v.value, pass, w));
        case Struct(fast, fs) =>
          if pass.Plain? && fast { SerializeFastVarint(fs, v.items); }
          SerializeMany(pass.Plain? && fast, fs, v.items, pass);
          Regroup(start, if pass.Plain? && fast then EncodeBlock(fs, v.items) else [],
                  EncodeFields(pass.Plain? && fast, fs, v.items, pass, w));
        case Compatible(n, e) =>
          if pass == Version(n) { SerializeOptional(e, v, Plain); }
      }
    }

    /** The flag of an optional or compatible in the plain pass, and what it holds. */
    method SerializeOptional(e: Ty, v: Val, pass: Pass)
      requires Typed(Optional(e), v) && Valid() && Room(|OptionalBytes(e, v, pass, w)|)
      modifies this`pos, data
      ensures Appended(OptionalBytes(e, v, pass, w))
      decreases e, 3
    {
      hide Encode;
      ghost var start := Written();
      if pass.Plain? { Write([if v.Some? then 1 else 0]); }
      if v.Some? { SerializeOne(e, v.value, pass); }
      Regroup(start, if pass.Plain? then [if v.Some? then 1 else 0] else [], if v.Some? then Encode(e, v.value, pass, w) else []);
    }

    /** The elements of an array or container. */
    method SerializeElems(t: Ty, vs: seq<Val>, pass: Pass)
      requires WellFormed(t) && AllHaveType(t, vs) && Valid() && Room(|EncodeElems(t, vs, pass, w)|)
      modifies this`pos, data
      ensures Appended(EncodeElems(t, vs, pass, w))
      decreases t, 1
    {
      hide Encode, EncodeElems, HasType, WellFormed;
      ghost var start, was := Written(), data[..];
      var i := 0;
      assert vs[0..] == vs;
      while i < |vs|
        invariant 0 <= i <= |vs| && Valid() && Room(|EncodeElems(t, vs[i..], pass, w)|)
        invariant Written() + EncodeElems(t, vs[i..], pass, w) == start + EncodeElems(t, vs, pass, w)
        invariant Kept(was)
      {
        ElemBytes(t, vs, i, pass, w);
        ghost var before := Written();
        SerializeOne(t, vs[i], pass);
        Regroup(before, Encode(t, vs[i], pass, w), EncodeElems(t, vs[i + 1..], pass, w));
        i := i + 1;
      }
      ElemBytes(t, vs, i, pass, w);
    }

    /** serialize_many: the varints of a fast struct are left out. */
    method SerializeMany(skip: bool, ts: seq<Ty>, vs: seq<Val>, pass: Pass)
      requires AllWellFormed(ts) && HasTypes(ts, vs) && Valid() && Room(|EncodeFields(skip, ts, vs, pass, w)|)
      modifies this`pos, data
      ensures Appended(EncodeFields(skip, ts, vs, pass, w))
      decreases ts, 1
    {
      hide Encode, EncodeFields, HasType, WellFormed;
      ghost var start, was := Written(), data[..];
      var i := 0;
      assert ts[0..] == ts && vs[0..] == vs;
      while i < |ts|
        invariant 0 <= i <= |ts| && Valid() && Room(|EncodeFields(skip, ts[i..], vs[i..], pass, w)|)
        invariant Written() + EncodeFields(skip, ts[i..], vs[i..], pass, w) == start + EncodeFields(skip, ts, vs, pass, w)
        invariant Kept(was)
      {
        FieldBytes(skip, ts, vs, i, pass, w);
        if !(skip && ts[i].Var?) {
          ghost var before := Written();
          SerializeOne(ts[i], vs[i], pass);
          Regroup(before, Encode(ts[i], vs[i], pass, w), EncodeFields(skip, ts[i + 1..], vs[i + 1..], pass, w));
        }
        i := i + 1;
      }
      FieldBytes(skip, ts, vs, i, pass, w);
    }

    // ---- the whole message ------------------------------------------------------------------------

    /** serialize_metainfo */
    method SerializeMetainfo(conf: Conf, t: Ty, info: BufferSize)
      requires info.widthCode <= 3 && info.lenCode <= 3 && Valid() && Room(|EncodeHead(conf, t, info)|)
      requires info.Metainfo() < 256
      modifies this`pos, data
      ensures Appended(EncodeHead(conf, t, info))
    {
      hide HasMetainfo, HasCompatible, LE, BufferSize.Metainfo, WordWidth, MetainfoFollows, MetainfoBytes;
      HeadParts(conf, t, info);
      if conf.Head? { Write(LE(4, HashHead(conf, t, info))); }
      if MetainfoFollows(conf, t, info) { SerializeMoreMetainfo(conf, t, info); }
    }

    /** The byte behind the hash, the total length and the type literal. */
    method SerializeMoreMetainfo(conf: Conf, t: Ty, info: BufferSize)
      requires info.widthCode <= 3 && info.lenCode <= 3 && Valid() && Room(|MetainfoBytes(conf, t, info)|)
      requires info.Metainfo() < 256
      modifies this`pos, data
      ensures Appended(MetainfoBytes(conf, t, info))
    {
      hide HasMetainfo, HasCompatible, LE, BufferSize.Metainfo, WordWidth;
      Write([info.Metainfo()]);
      if HasCompatible(t) { Write(LE(WordWidth(info.lenCode), info.len)); }
      if conf.Head? && conf.addLiteral { Write(conf.literal + [0]); }
    }

    /** serialize: the head, the plain pass and one pass a version. */
    method Serialize(conf: Conf, t: Ty, v: Val, info: BufferSize)
      requires Legal(conf, t) && HasType(t, v) && info == RuntimeInfo(conf, t, v) && w == Width(info)
      requires Valid() && Room(info.len)
      modifies this`pos, data
      ensures Appended(Message.Serialize(conf, t, v))
    {
      hide Encode, EncodeVersions, EncodeHead, RuntimeInfo, HasType, WellFormed, HasCompatible, VersionsOf;
      ghost var start := Written();
      ghost var head, plain, rest := EncodeHead(conf, t, info), Encode(t, v, Plain, w), EncodeVersions(t, v, VersionsOf(t), w);
      AnnouncedSizeExact(conf, t, v);
      MetainfoIsByte(info);
      SerializeMetainfo(conf, t, info);
      SerializeOne(t, v, Plain);
      if HasCompatible(t) {
        SerializeVersions(t, v);
      } else {
        NoVersions(t, v, w);
      }
      assert Written() == start + (head + plain + rest);
    }

    /** serialize_expand_compatible_helper */
    method SerializeVersions(t: Ty, v: Val)
      requires Typed(t, v) && HasCompatible(t) && Valid() && Room(|EncodeVersions(t, v, VersionsOf(t), w)|)
      modifies this`pos, data
      ensures Appended(EncodeVersions(t, v, VersionsOf(t), w))
    {
      hide Encode, EncodeVersions, HasType, WellFormed, VersionsOf, Collect, Kept;
      ghost var start, was := Written(), data[..];
      var versions := CompatibleVersionNumbers(t);
      ghost var ns := versions[..];
      var i := 0;
      assert ns[0..] == ns;
      NothingLost();
      while i < versions.Length
        invariant 0 <= i <= versions.Length && versions[..] == ns && Valid()
        invariant Room(|EncodeVersions(t, v, ns[i..], w)|)
        invariant Written() + EncodeVersions(t, v, ns[i..], w) == start + EncodeVersions(t, v, ns, w)
        invariant Kept(was)
      {
        label passing:
        SerializeVersion(t, v, ns, i, versions[i]);
        KeptMore@passing(was);
        i := i + 1;
      }
      VersionBytes(t, v, ns, i, w);
    }

    /** The pass over the fields of version n, the next one of ns. */
    method SerializeVersion(t: Ty, v: Val, ghost ns: seq<nat>, ghost i: nat, n: nat)
      requires Typed(t, v) && i < |ns| && n == ns[i] && Valid() && Room(|EncodeVersions(t, v, ns[i..], w)|)
      modifies this`pos, data
      ensures Valid() && old(pos) <= pos && Kept(old(data[..])) && Room(|EncodeVersions(t, v, ns[i + 1..], w)|)
      ensures Written() + EncodeVersions(t, v, ns[i + 1..], w) == old(Written()) + EncodeVersions(t, v, ns[i..], w)
    {
      hide Encode, EncodeVersions, HasType, WellFormed, Kept;
      VersionBytes(t, v, ns, i, w);
      ghost var before := Written();
      SerializeOne(t, v, Version(n));
      assert |before| <= |Written()|;
      Regroup(before, Encode(t, v, Version(n), w), EncodeVersions(t, v, ns[i + 1..], w));
    }
  }

  /** serialize_to a buffer of exactly the announced size: it is filled to the last byte. */
  method SerializeToBuffer(conf: Conf, t: Ty, v: Val) returns (data: array<byte>)
    requires Legal(conf, t) && HasType(t, v)
    ensures data[..] == Message.Serialize(conf, t, v)
  {
    hide RuntimeInfo, HasType, WellFormed, Message.Serialize;
    var info := GetSerializeRuntimeInfo(conf, t, v);
    data := new byte[info.len];
    AnnouncedSizeExact(conf, t, v);
    var packer := new Packer(data, WordWidth(info.widthCode));
    packer.Serialize(conf, t, v, info);
    assert data[..packer.pos] == data[..];
  }

  function OptionalBytes(e: Ty, v: Val, pass: Pass, w: nat): bytes
    requires Typed(Optional(e), v)
  {
    (if pass.Plain? then [if v.Some? then 1 else 0] else []) + (if v.Some? then Encode(e, v.value, pass, w) else [])
  }

  lemma {:induction false} HeadParts(conf: Conf, t: Ty, info: BufferSize)
    requires info.widthCode <= 3 && info.lenCode <= 3 && info.Metainfo() < 256
    ensures EncodeHead(conf, t, info)
            == (if conf.Head? then LE(4, HashHead(conf, t, info)) else [])
               + (if MetainfoFollows(conf, t, info) then MetainfoBytes(conf, t, info) else [])
  {
  }

  lemma {:induction false} MetainfoIsByte(info: BufferSize)
    requires info.widthCode <= 3 && info.lenCode <= 3
    ensures info.Metainfo() < 256
  {
  }

  lemma {:induction false} ElemBytes(t: Ty, vs: seq<Val>, i: nat, pass: Pass, w: nat)
    requires WellFormed(t) && AllHaveType(t, vs) && i <= |vs|
    ensures EncodeElems(t, vs[i..], pass, w)
            == if i == |vs| then [] else Encode(t, vs[i], pass, w) + EncodeElems(t, vs[i + 1..], pass, w)
  {
    hide Encode, HasType, WellFormed;
    if i < |vs| { assert vs[i..][0] == vs[i] && vs[i..][1..] == vs[i + 1..]; }
  }

  lemma {:induction false} FieldBytes(skip: bool, ts: seq<Ty>, vs: seq<Val>, i: nat, pass: Pass, w: nat)
    requires AllWellFormed(ts) && HasTypes(ts, vs) && i <= |ts|
    ensures EncodeFields(skip, ts[i..], vs[i..], pass, w)
            == if i == |ts| then []
               else (if skip && ts[i].Var? then [] else Encode(ts[i], vs[i], pass, w))
                    + EncodeFields(skip, ts[i + 1..], vs[i + 1..], pass, w)
  {
    hide Encode, HasType, WellFormed;
    if i < |ts| {
      assert ts[i..][0] == ts[i] && ts[i..][1..] == ts[i + 1..];
      assert vs[i..][0] == vs[i] && vs[i..][1..] == vs[i + 1..];
    }
  }

  lemma {:induction false} VersionBytes(t: Ty, v: Val, ns: seq<nat>, i: nat, w: nat)
    requires Typed(t, v) && i <= |ns|
    ensures EncodeVersions(t, v, ns[i..], w)
            == if i == |ns| then [] else Encode(t, v, Version(ns[i]), w) + EncodeVersions(t, v, ns[i + 1..], w)
  {
    hide Encode, HasType, WellFormed;
    if i < |ns| { assert ns[i..][0] == ns[i] && ns[i..][1..] == ns[i + 1..]; }
  }

  // ---- the bitmap as it is filled --------------------------------------------------------------

  /** byte |= 1 << j */
  function SetBit(b: byte, j: nat): byte
    requires j < 8
  {
    TwoBelow(j);
    OrBelow(b, Two(j), 8);
    Or(b, Two(j))
  }

  lemma {:induction false} TwoBelow(j: nat)
    requires j < 8
    ensures Two(j) < Two(8) == 256
  {
    assert Two(1) == 2 && Two(2) == 4 && Two(3) == 8 && Two(4) == 16 && Two(5) == 32 && Two(6) == 64 && Two(7) == 128;
  }

  /** The bits stand at the start of the bitmap and all later ones are clear. */
  ghost predicate MarkedTo(vec: bytes, bits: seq<bool>) {
    && |bits| <= 8 * |vec|
    && forall i | 0 <= i < 8 * |vec| :: BitAt(vec, i) <==> i < |bits| && bits[i]
  }

  lemma {:induction false} NothingMarked(vec: bytes)
    requires forall k | 0 <= k < |vec| :: vec[k] == 0
    ensures MarkedTo(vec, [])
  {
    forall i | 0 <= i < 8 * |vec| ensures !BitAt(vec, i) { ZeroBits(i % 8); }
  }

  lemma {:induction false} PlaceInBitmap(i: nat, cnt: nat)
    requires i <= cnt
    ensures (i + 1) / 8 < BitmapSize(cnt) && i / 8 < BitmapSize(cnt)
  {
  }

  /** Setting the next bit, or leaving it clear. */
  lemma {:induction false} MarkMore(vec: bytes, bits: seq<bool>, bit: bool)
    requires MarkedTo(vec, bits) && |bits| / 8 < |vec|
    ensures MarkedTo(if bit then vec[|bits| / 8 := SetBit(vec[|bits| / 8], |bits| % 8)] else vec, bits + [bit])
  {
    hide BitIn, Or;
    var n := |bits|;
    var next := if bit then vec[n / 8 := SetBit(vec[n / 8], n % 8)] else vec;
    forall i | 0 <= i < 8 * |vec| ensures BitAt(next, i) <==> i < n + 1 && (bits + [bit])[i] {
      assert BitAt(vec, i) <==> i < n && bits[i];
      if bit && i / 8 == n / 8 { OrBit(vec[n / 8], n % 8, i % 8); }
    }
  }

  /** A bitmap is determined by its bits. */
  lemma {:induction false} MarkedIsBitmap(vec: bytes, bits: seq<bool>)
    requires MarkedTo(vec, bits) && |vec| == (|bits| + 7) / 8
    ensures vec == Bitmap(bits)
  {
    hide BitIn, Pack;
    TwoBelow(0);
    forall k | 0 <= k < |vec| ensures vec[k] == Bitmap(bits)[k] {
      PackByte(bits, 8 * k);
      forall j | 0 <= j < 8 ensures BitIn(vec[k], j) == BitIn(Bitmap(bits)[k], j) {
        PackBit(bits, 8 * k, 8, j);
        assert BitAt(vec, 8 * k + j) <==> 8 * k + j < |bits| && bits[8 * k + j];
        assert (8 * k + j) / 8 == k && (8 * k + j) % 8 == j;
      }
      SameBits(vec[k], Bitmap(bits)[k], 8, 256);
    }
  }

  lemma {:induction false} MarksStep(ts: seq<Ty>, vs: seq<Val>, i: nat, bits: seq<bool>)
    requires HasTypes(ts, vs) && i < |ts| && HasTypes(ts[i..], vs[i..]) && HasTypes(ts[i + 1..], vs[i + 1..])
    requires bits + NonZero(ts[i..], vs[i..]) == NonZero(ts, vs)
    ensures ts[i].Var? ==>
              vs[i].Num? && |bits| < VarCount(ts)
              && (bits + [vs[i].n != 0]) + NonZero(ts[i + 1..], vs[i + 1..]) == NonZero(ts, vs)
    ensures !ts[i].Var? ==> bits + NonZero(ts[i + 1..], vs[i + 1..]) == NonZero(ts, vs)
  {
    assert HasType(ts[i], vs[i]);
    MaxStep(ts, vs, i);
  }

  lemma {:induction false} MarksEnd(ts: seq<Ty>, vs: seq<Val>)
    requires HasTypes(ts, vs)
    ensures NonZero(ts[|ts|..], vs[|ts|..]) == []
  {
  }

  lemma {:induction false} BlockBitsParts(ts: seq<Ty>, vs: seq<Val>, bits: seq<bool>, width: int)
    requires HasTypes(ts, vs) && width == WidthCode(ts, vs)
    requires bits == (NonZero(ts, vs) + [width % 2 == 1]) + [width / 2 == 1]
    ensures bits == BlockBits(ts, vs)
  {
    hide HasType, NonZero, WidthCode;
  }

  lemma {:induction false} WordsStep(ts: seq<Ty>, vs: seq<Val>, i: nat, code: int)
    requires HasTypes(ts, vs) && i < |ts| && 0 <= code <= 3
    requires HasTypes(ts[i..], vs[i..]) && HasTypes(ts[i + 1..], vs[i + 1..])
    ensures EncodeWords(ts[i..], vs[i..], code) == FirstWord(ts[i..], vs[i..], code) + EncodeWords(ts[i + 1..], vs[i + 1..], code)
    ensures ts[i].Var? && vs[i].Num? && vs[i].n != 0 ==>
              ts[i].kind.Holds(vs[i].n)
              && FirstWord(ts[i..], vs[i..], code) == LE(RealWidth(ts[i].kind, code), Word64(ts[i].kind, vs[i].n))
    ensures !(ts[i].Var? && vs[i].Num? && vs[i].n != 0) ==> FirstWord(ts[i..], vs[i..], code) == []
  {
    hide LE;
    assert HasType(ts[i], vs[i]);
    MaxStep(ts, vs, i);
  }

  lemma {:induction false} NoWordsLeft(ts: seq<Ty>, vs: seq<Val>, code: int)
    requires HasTypes(ts, vs) && 0 <= code <= 3
    ensures EncodeWords(ts[|ts|..], vs[|ts|..], code) == []
  {
  }
}
