/** A buffer that ends too early is noticed, as long as no error code is dropped on the way. */
module Truncation {
  import opened Bits
  import opened Bytes
  import opened Leb128
  import opened Status
  import opened Schema
  import opened FastVarint
  import opened Encoding
  import opened Decoding
  import opened Restoring
  import opened RoundTrip
  import opened Versions
  import opened Message

  /** Integers, varints, arrays, containers and structs. An optional, a variant, an expected
      and a compatible drop the codes of what they hold. */
  predicate Solid(t: Ty)
    decreases t
  {
    match t
    case Fixed(_) => true
    case Var(_) => true
    case Array(_, e) => Solid(e)
    case Container(_, e) => Solid(e)
    case Struct(_, fs) => forall i | 0 <= i < |fs| :: Solid(fs[i])
    case Compatible(_, e) => !HasExpected(e)
    case _ => false
  }

  predicate AllSolid(ts: seq<Ty>) {
    forall i | 0 <= i < |ts| :: Solid(ts[i])
  }

  // ---- the fast-varint block -----------------------------------------------------------------------

  lemma {:induction false} CutWords(ts: seq<Ty>, vs: seq<Val>, items: seq<Val>, vec: bytes, idx: nat, code: int,
                                    data: bytes, pos: nat)
    requires Writable(ts, vs, items, vec, idx, code)
    requires CutAt(data, pos, EncodeWords(ts, vs, code))
    ensures ReadWords(ts, items, vec, idx, code, data, pos).code == NoBufferSpace
    decreases |ts|
  {
    hide LE, FromLE, Span, BitIn, BitAt, RealWidth, VarKind.Holds, Signed, NonZero, Unsigned64, FirstWord, WordWidth,
         Marks, AllInWord, InWord, Word64, WordValue, EncodeWords, ReadWords, Overlay, HasType, HasTypes, VarCount,
         CutAt;
    if |ts| == 0 {
      NoWordBytes(ts, vs, code);
      CutNothing(data, pos);
      assert false;
    } else {
      WritableTail(ts, vs, items, vec, idx, code);
      WordBytes(ts, vs, code);
      var first := FirstWord(ts, vs, code);
      CutConcat(data, pos, first, EncodeWords(ts[1..], vs[1..], code));
      if CutAt(data, pos, first) {
        CutFirstWord(ts, vs, items, vec, idx, code, data, pos);
      } else {
        CutWords(ts[1..], vs[1..], items[1..], vec, idx + (if ts[0].Var? then 1 else 0), code, data, pos + |first|);
        CutLaterWord(ts, vs, items, vec, idx, code, data, pos);
      }
    }
  }

  lemma {:induction false} NoWordBytes(ts: seq<Ty>, vs: seq<Val>, code: int)
    requires HasTypes(ts, vs) && |ts| == 0 && 0 <= code <= 3
    ensures EncodeWords(ts, vs, code) == []
  {
  }

  lemma {:induction false} WordBytes(ts: seq<Ty>, vs: seq<Val>, code: int)
    requires HasTypes(ts, vs) && |ts| > 0 && HasTypes(ts[1..], vs[1..]) && 0 <= code <= 3
    ensures EncodeWords(ts, vs, code) == FirstWord(ts, vs, code) + EncodeWords(ts[1..], vs[1..], code)
  {
    hide FirstWord, HasType;
  }

  lemma {:induction false} CutFirstWord(ts: seq<Ty>, vs: seq<Val>, items: seq<Val>, vec: bytes, idx: nat, code: int,
                                        data: bytes, pos: nat)
    requires HasTypes(ts, vs) && HasTypes(ts, items) && |ts| > 0 && 0 <= code <= 3
    requires idx + VarCount(ts) <= 8 * |vec| && (ts[0].Var? ==> BitAt(vec, idx) == (vs[0].n != 0))
    requires CutAt(data, pos, FirstWord(ts, vs, code))
    ensures ReadWords(ts, items, vec, idx, code, data, pos).code == NoBufferSpace
  {
    hide LE, FromLE, Span, BitIn, BitAt, RealWidth, VarKind.Holds, NonZero, Unsigned64;
  }

  lemma {:induction false} CutLaterWord(ts: seq<Ty>, vs: seq<Val>, items: seq<Val>, vec: bytes, idx: nat, code: int,
                                        data: bytes, pos: nat)
    requires HasTypes(ts, vs) && HasTypes(ts, items) && |ts| > 0 && 0 <= code <= 3
    requires idx + VarCount(ts) <= 8 * |vec| && (ts[0].Var? ==> BitAt(vec, idx) == (vs[0].n != 0))
    requires At(data, pos, FirstWord(ts, vs, code))
    requires ReadWords(ts[1..], items[1..], vec, idx + (if ts[0].Var? then 1 else 0), code, data,
                       pos + |FirstWord(ts, vs, code)|).code == NoBufferSpace
    ensures ReadWords(ts, items, vec, idx, code, data, pos).code == NoBufferSpace
  {
    hide LE, FromLE, Span, BitIn, BitAt, RealWidth, VarKind.Holds, NonZero, Unsigned64, WordValue;
  }

  /** The block's reader notices the end, in the bitmap and in the words. */
  lemma {:induction false} CutBlock(ts: seq<Ty>, vs: seq<Val>, items: seq<Val>, data: bytes, pos: nat)
    requires HasTypes(ts, vs) && HasTypes(ts, items)
    requires VarCount(ts) > 0 && CutAt(data, pos, EncodeBlock(ts, vs))
    ensures ReadBlock(ts, items, data, pos).code == NoBufferSpace
  {
    hide ReadBlock, ReadWords, EncodeWords, NonZero, Bitmap, BlockBits, WidthCode, VarCount, CodeOf, BitAt,
         BitmapSize, Has64, CutAt;
    var code := WidthCode(ts, vs);
    var vec := Bitmap(BlockBits(ts, vs));
    BlockMarks(ts, vs);
    CutConcat(data, pos, vec, EncodeWords(ts, vs, code));
    if CutAt(data, pos, vec) {
      CutBitmap(ts, items, vec, data, pos);
    } else {
      if code == 3 && !Has64(ts) { EightNeeds64(ts, vs); }
      ReadBlockWords(ts, items, vec, code, data, pos);
      LeastWidth(ts, vs, code);
      CutWords(ts, vs, items, vec, 0, code, data, pos + |vec|);
    }
  }

  lemma {:induction false} CutBitmap(ts: seq<Ty>, items: seq<Val>, vec: bytes, data: bytes, pos: nat)
    requires HasTypes(ts, items) && |vec| == BitmapSize(VarCount(ts)) && CutAt(data, pos, vec)
    ensures ReadBlock(ts, items, data, pos).code == NoBufferSpace
  {
    hide ReadWords, CodeOf, BitAt, BitIn, VarCount, HasTypes, HasType, Has64, BitmapSize;
  }

  // ---- the plain pass ---------------------------------------------------------------------------------

  lemma {:induction false} SolidCalm(t: Ty)
    requires Solid(t)
    ensures !HasExpected(t)
    decreases t
  {
    match t
    case Fixed(_) =>
    case Var(_) =>
    case Array(_, e) => SolidCalm(e);
    case Container(_, e) => SolidCalm(e);
    case Struct(_, fs) => forall i | 0 <= i < |fs| ensures !HasExpected(fs[i]) { SolidCalm(fs[i]); }
    case Compatible(_, _) =>
  }

  /** What stands in front of the cut is read without trouble. */
  lemma {:induction false} SolidRead(t: Ty, was: Val, v: Val, c: Context, pos: nat)
    requires Typed(t, v) && HasType(t, was) && Solid(t) && Fits(t, v, c.w)
    requires At(c.data, pos, Encode(t, v, Plain, c.w))
    ensures var o := Decode(t, was, Plain, c, pos); o.code == Ok && o.pos == pos + |Encode(t, v, Plain, c.w)|
  {
    hide At, Decode, Encode, HasType, WellFormed, Solid, HasExpected, Fits, PlainReads;
    SolidCalm(t);
    PlainInto(t, was, v, c, pos);
    PlainPos(t, was, v, c, pos);
  }

  /** Into whatever object. */
  lemma {:induction false} CutPlain(t: Ty, was: Val, v: Val, c: Context, pos: nat)
    requires Typed(t, v) && HasType(t, was) && Solid(t) && Fits(t, v, c.w)
    requires CutAt(c.data, pos, Encode(t, v, Plain, c.w))
    ensures Decode(t, was, Plain, c, pos).code == NoBufferSpace
    decreases t, 0
  {
    hide At, CutAt, DecodeElems, DecodeNew, DecodeFields, DecodeContainer, DecodeVar, DecodeStruct, EncodeElems, EncodeFields,
         MaxLengthElems, MaxLengthFields, EncodeBlock, HasVersion, EncodeVar, Span, Collect;
    match t
    case Fixed(_) => CutFixed(t, was, v, c, pos);
    case Var(k) => CutVar(k, was, v, c, pos);
    case Array(_, e) => CutArray(e, was.items, v.items, c, pos);
    case Container(shape, e) => CutContainer(shape, e, was, v, c, pos);
    case Struct(fast, fs) => CutStruct(fast, fs, was, v, c, pos);
    case Compatible(_, _) => CutNothing(c.data, pos);
  }

  lemma {:induction false} CutFixed(t: Ty, was: Val, v: Val, c: Context, pos: nat)
    requires Typed(t, v) && t.Fixed? && HasType(t, was) && CutAt(c.data, pos, v.bytes)
    ensures Decode(t, was, Plain, c, pos).code == NoBufferSpace
  {
  }

  lemma {:induction false} CutVar(k: VarKind, was: Val, v: Val, c: Context, pos: nat)
    requires HasType(Var(k), was) && HasType(Var(k), v) && CutAt(c.data, pos, EncodeVar(k, v.n))
    ensures DecodeVar(k, was, c, pos).code == NoBufferSpace
  {
    hide Leb, ScanLeb, EncodeZigZag, DecodeZigZag, Span, VarKind.Wire, VarKind.Unwire;
    WireRoundTrip(k, v.n);
    Pow128Ten();
    LebFits(k.Wire(v.n), MAX_VARINT_LENGTH);
    ScanOfCutLeb(c.data, pos, k.Wire(v.n), MAX_VARINT_LENGTH);
  }

  lemma {:induction false} CutArray(e: Ty, was: seq<Val>, vs: seq<Val>, c: Context, pos: nat)
    requires WellFormed(e) && Solid(e) && AllHaveType(e, was) && AllHaveType(e, vs) && |was| == |vs|
    requires MaxLengthElems(e, vs) < Span(c.w) && CutAt(c.data, pos, EncodeElems(e, vs, Plain, c.w))
    ensures DecodeElems(e, was, Plain, c, pos).code == NoBufferSpace
    decreases e, 1, |vs|
  {
    hide At, CutAt, Decode, DecodeElems, Encode, EncodeElems, MaxLength, MaxLengthElems, HasType, WellFormed, Solid, Span;
    ElemsBegin(e, vs, c.w);
    if |vs| == 0 {
      CutNothing(c.data, pos);
      assert false;
    } else {
      var first := Encode(e, vs[0], Plain, c.w);
      CutConcat(c.data, pos, first, EncodeElems(e, vs[1..], Plain, c.w));
      DecodeElemsFirst(e, was, Plain, c, pos);
      if CutAt(c.data, pos, first) {
        CutPlain(e, was[0], vs[0], c, pos);
      } else {
        SolidRead(e, was[0], vs[0], c, pos);
        CutArray(e, was[1..], vs[1..], c, pos + |first|);
      }
    }
  }

  lemma {:induction false} CutNew(shape: Shape, e: Ty, was: Val, vs: seq<Val>, c: Context, pos: nat)
    requires WellFormed(e) && Solid(e) && HasType(e, was) && AllHaveType(e, vs)
    requires MaxLengthElems(e, vs) < Span(c.w) && CutAt(c.data, pos, EncodeElems(e, vs, Plain, c.w))
    ensures DecodeNew(shape, e, was, |vs|, c, pos).code == NoBufferSpace
    decreases e, 1, |vs|
  {
    hide At, CutAt, Decode, DecodeNew, Encode, EncodeElems, MaxLength, MaxLengthElems, HasType, WellFormed, Solid, Span, Next;
    ElemsBegin(e, vs, c.w);
    if |vs| == 0 {
      CutNothing(c.data, pos);
      assert false;
    } else {
      var first := Encode(e, vs[0], Plain, c.w);
      CutConcat(c.data, pos, first, EncodeElems(e, vs[1..], Plain, c.w));
      DecodeNewFirst(shape, e, was, |vs|, c, pos);
      if CutAt(c.data, pos, first) {
        CutPlain(e, was, vs[0], c, pos);
      } else {
        SolidRead(e, was, vs[0], c, pos);
        CutNew(shape, e, Next(shape, e, Decode(e, was, Plain, c, pos).item), vs[1..], c, pos + |first|);
      }
    }
  }

  lemma {:induction false} CutContainer(shape: Shape, e: Ty, was: Val, v: Val, c: Context, pos: nat)
    requires Typed(Container(shape, e), v) && HasType(Container(shape, e), was) && Solid(e) && Fits(Container(shape, e), v, c.w)
    requires CutAt(c.data, pos, Encode(Container(shape, e), v, Plain, c.w))
    ensures DecodeContainer(shape, e, was, c, pos).code == NoBufferSpace
    decreases e, 4
  {
    hide CutAt, Decode, Default, DecodeNew, MaxLengthElems, LE, FromLE, Span, Solid, EncodeElems;
    var length, body := LE(c.w, |v.items|), EncodeElems(e, v.items, Plain, c.w);
    assert Encode(Container(shape, e), v, Plain, c.w) == length + body;
    CutConcat(c.data, pos, length, body);
    if !CutAt(c.data, pos, length) {
      LERoundTrip(c.w, |v.items|);
      if |v.items| == 0 {
        EmptyBody(e, v.items, c, pos + c.w);
        assert false;
      } else {
        CutNew(shape, e, Default(e), v.items, c, pos + c.w);
      }
    }
  }

  lemma {:induction false} EmptyBody(e: Ty, vs: seq<Val>, c: Context, pos: nat)
    requires WellFormed(e) && AllHaveType(e, vs) && |vs| == 0
    ensures !CutAt(c.data, pos, EncodeElems(e, vs, Plain, c.w))
  {
    CutNothing(c.data, pos);
  }

  lemma {:induction false} CutStruct(fast: bool, fs: seq<Ty>, was: Val, v: Val, c: Context, pos: nat)
    requires Typed(Struct(fast, fs), v) && HasType(Struct(fast, fs), was) && AllSolid(fs) && Fits(Struct(fast, fs), v, c.w)
    requires CutAt(c.data, pos, Encode(Struct(fast, fs), v, Plain, c.w))
    ensures DecodeStruct(fast, fs, was, Plain, c, pos).code == NoBufferSpace
    decreases fs, 4
  {
    hide At, CutAt, Encode, MaxLength, Known, HasType, WellFormed, DecodeFields, EncodeFields, KnownFields, MaxLengthFields,
         EncodeBlock, Defaults, Collect, ReadBlock, Overlay, VarCount, Span, Solid;
    StructParts(fast, fs, v, c.w);
    StructParts(fast, fs, was, c.w);
    var body := EncodeFields(fast, fs, v.items, Plain, c.w);
    if fast {
      var i :| 0 <= i < |fs| && fs[i].Var?;
      VarCountPositive(fs, i);
      CutConcat(c.data, pos, EncodeBlock(fs, v.items), body);
      if CutAt(c.data, pos, EncodeBlock(fs, v.items)) {
        CutBlock(fs, v.items, was.items, c.data, pos);
      } else {
        BlockRoundTrip(fs, v.items, was.items, c.data, pos);
        CutFields(true, fs, Overlay(fs, v.items, was.items), v.items, c, pos + |EncodeBlock(fs, v.items)|);
      }
    } else {
      assert Encode(Struct(fast, fs), v, Plain, c.w) == body;
      CutFields(false, fs, was.items, v.items, c, pos);
    }
  }

  lemma {:induction false} CutFields(skip: bool, ts: seq<Ty>, was: seq<Val>, vs: seq<Val>, c: Context, pos: nat)
    requires AllWellFormed(ts) && AllSolid(ts) && HasTypes(ts, was) && HasTypes(ts, vs) && MaxLengthFields(ts, vs) < Span(c.w)
    requires CutAt(c.data, pos, EncodeFields(skip, ts, vs, Plain, c.w))
    ensures DecodeFields(skip, ts, was, Plain, c, pos).code == NoBufferSpace
    decreases ts, 1
  {
    hide At, CutAt, Decode, DecodeFields, Encode, EncodeFields, MaxLength, MaxLengthFields, HasType, WellFormed, Solid, Span;
    if |ts| == 0 {
      NoFieldsCut(skip, ts, vs, c, pos);
      assert false;
    } else {
      FieldsBegin(skip, ts, vs, c.w);
      var first := if skip && ts[0].Var? then [] else Encode(ts[0], vs[0], Plain, c.w);
      CutConcat(c.data, pos, first, EncodeFields(skip, ts[1..], vs[1..], Plain, c.w));
      CutNothing(c.data, pos);
      DecodeFieldsFirst(skip, ts, was, Plain, c, pos);
      if CutAt(c.data, pos, first) {
        CutPlain(ts[0], was[0], vs[0], c, pos);
      } else {
        if !(skip && ts[0].Var?) { SolidRead(ts[0], was[0], vs[0], c, pos); }
        CutFields(skip, ts[1..], was[1..], vs[1..], c, pos + |first|);
      }
    }
  }

  lemma {:induction false} NoFieldsCut(skip: bool, ts: seq<Ty>, vs: seq<Val>, c: Context, pos: nat)
    requires AllWellFormed(ts) && HasTypes(ts, vs) && |ts| == 0
    ensures !CutAt(c.data, pos, EncodeFields(skip, ts, vs, Plain, c.w))
  {
    CutNothing(c.data, pos);
  }

  // ---- whole messages ---------------------------------------------------------------------------------

  /** The head's reader notices the end. */
  lemma {:induction false} CutHead(conf: Conf, t: Ty, info: BufferSize, data: bytes, pos: nat)
    requires Legal(conf, t) && Announced(conf, t, info)
    requires CutAt(data, pos, EncodeHead(conf, t, info))
    ensures DecodeHead(conf, t, data, pos).code == NoBufferSpace
  {
    hide HasContainer, WellFormed, HasCompatible, LE, FromLE, Span, CutAt, HashHead, MetainfoFollows;
    if conf.Head? {
      var hash := LE(4, HashHead(conf, t, info));
      if MetainfoFollows(conf, t, info) {
        assert EncodeHead(conf, t, info) == hash + MetainfoBytes(conf, t, info);
        CutConcat(data, pos, hash, MetainfoBytes(conf, t, info));
        if !CutAt(data, pos, hash) {
          HashRoundTrip(conf, t, info);
          CutMetainfo(conf, t, info, data, pos + 4);
          AtWord(data, pos, hash);
        }
      } else {
        assert EncodeHead(conf, t, info) == hash;
      }
    } else {
      CutNoHead(conf, t, info, data, pos);
    }
  }

  lemma {:induction false} AtWord(data: bytes, pos: nat, word: bytes)
    requires At(data, pos, word)
    ensures data[pos..pos + |word|] == word
  {
  }

  lemma {:induction false} CutNoHead(conf: Conf, t: Ty, info: BufferSize, data: bytes, pos: nat)
    requires Legal(conf, t) && Announced(conf, t, info) && !HasCompatible(t) && conf.NoHead?
    requires CutAt(data, pos, EncodeHead(conf, t, info))
    ensures DecodeHead(conf, t, data, pos).code == NoBufferSpace
  {
    hide HasContainer, WellFormed, HasCompatible, LE, FromLE, Span, CutAt, BufferSize.Metainfo;
    CutNothing(data, pos);
    MetainfoBits(info);
    assert MetainfoFollows(conf, t, info) && EncodeHead(conf, t, info) == [info.Metainfo()] by { NoHeadBytes(conf, t, info); }
    CutOne(data, pos, info.Metainfo());
  }

  lemma {:induction false} NoHeadBytes(conf: Conf, t: Ty, info: BufferSize)
    requires conf.NoHead? && info.widthCode <= 3 && info.lenCode <= 3 && !HasCompatible(t) && info.Metainfo() < 256
    ensures EncodeHead(conf, t, info) == if MetainfoFollows(conf, t, info) then [info.Metainfo()] else []
  {
    hide HasContainer, HasCompatible, LE, BufferSize.Metainfo;
  }

  lemma {:induction false} CutOne(data: bytes, pos: nat, b: byte)
    ensures CutAt(data, pos, [b]) ==> pos == |data|
  {
  }

  lemma {:induction false} CutMetainfo(conf: Conf, t: Ty, info: BufferSize, data: bytes, pos: nat)
    requires conf.Head? && Announced(conf, t, info)
    requires CutAt(data, pos, MetainfoBytes(conf, t, info))
    ensures DecodeMetainfo(conf, data, pos).code == NoBufferSpace
  {
    hide LE, FromLE, Span, HasCompatible, HasContainer, WordWidth, BufferSize.Metainfo, CutAt;
    var len := if HasCompatible(t) then LE(WordWidth(info.lenCode), info.len) else [];
    var lit := if conf.addLiteral then conf.literal + [0] else [];
    MetainfoBits(info);
    assert MetainfoBytes(conf, t, info) == ([info.Metainfo()] + len) + lit;
    CutConcat(data, pos, [info.Metainfo()] + len, lit);
    if CutAt(data, pos, [info.Metainfo()] + len) {
      CutConcat(data, pos, [info.Metainfo()], len);
      if CutAt(data, pos, [info.Metainfo()]) { CutOne(data, pos, info.Metainfo()); } else { CutLength(data, pos + 1, len); }
    } else {
      AtConcat(data, pos, [info.Metainfo()], len);
      CutNothing(data, pos + 1 + |len|);
      CutLength(data, pos + 1 + |len|, lit);
    }
    if pos < |data| {
      AtWord(data, pos, [info.Metainfo()]);
      assert data[pos] == data[pos..pos + 1][0];
    }
  }

  lemma {:induction false} CutLength(data: bytes, pos: nat, bs: bytes)
    ensures CutAt(data, pos, bs) ==> pos + |bs| > |data|
  {
  }

  /** What stands in front of the version passes. */
  function FirstPart(conf: Conf, t: Ty, v: Val): bytes
    requires Typed(t, v)
  {
    var info := RuntimeInfo(conf, t, v);
    EncodeHead(conf, t, info) + Encode(t, v, Plain, Width(info))
  }

  /** Every proper prefix of a serialised buffer is reported as too short; of a buffer with
      compatible fields every one that ends in the head or in the plain fields. */
  lemma {:induction false} TruncationDetected(conf: Conf, t: Ty, v: Val, data: bytes, pos: nat)
    requires Legal(conf, t) && Solid(t) && HasType(t, v) && Addressable(conf, t, v)
    requires CutAt(data, pos, if HasCompatible(t) then FirstPart(conf, t, v) else Serialize(conf, t, v))
    ensures Deserialize(conf, t, Default(t), data, pos).code == NoBufferSpace
  {
    hide CutAt, HasType, WellFormed, HasCompatible, Deserialize, Addressable, Serialize, FirstPart, Default, Solid;
    if !HasCompatible(t) { OnlyPart(conf, t, v); }
    CutFirstPart(conf, t, v, data, pos);
  }

  lemma {:induction false} OnlyPart(conf: Conf, t: Ty, v: Val)
    requires Typed(t, v) && !HasCompatible(t)
    ensures Serialize(conf, t, v) == FirstPart(conf, t, v)
  {
    hide Encode, HasType, WellFormed, HasCompatible, EncodeHead, EncodeVersions, RuntimeInfo, VersionsOf;
    NoVersions(t, v, Width(RuntimeInfo(conf, t, v)));
  }

  lemma {:induction false} CutFirstPart(conf: Conf, t: Ty, v: Val, data: bytes, pos: nat)
    requires Legal(conf, t) && Solid(t) && HasType(t, v) && Addressable(conf, t, v)
    requires CutAt(data, pos, FirstPart(conf, t, v))
    ensures Deserialize(conf, t, Default(t), data, pos).code == NoBufferSpace
  {
    hide At, CutAt, Encode, HasType, WellFormed, HasCompatible, DecodeHead, EncodeHead, RuntimeInfo, Addressable,
         InfoFor, WordWidth, HasContainer, Announced, Default, Solid, DecodeBody, Deserialize;
    var info := RuntimeInfo(conf, t, v);
    var head := EncodeHead(conf, t, info);
    CutConcat(data, pos, head, Encode(t, v, Plain, Width(info)));
    HeadThenBody(conf, t, data, pos);
    if CutAt(data, pos, head) {
      InfoShape(conf, t, v);
      CutHead(conf, t, info, data, pos);
    } else {
      HeadReads(conf, t, v, data, pos);
      CutBody(conf, t, v, data, pos);
    }
  }

  lemma {:induction false} CutBody(conf: Conf, t: Ty, v: Val, data: bytes, pos: nat)
    requires Legal(conf, t) && Solid(t) && HasType(t, v) && Addressable(conf, t, v)
    requires var info := RuntimeInfo(conf, t, v);
             CutAt(data, pos + |EncodeHead(conf, t, info)|, Encode(t, v, Plain, Width(info)))
    ensures DecodeBody(t, Default(t), ContextOf(conf, t, v, data, pos), pos + |EncodeHead(conf, t, RuntimeInfo(conf, t, v))|).code
            == NoBufferSpace
  {
    hide CutAt, Encode, HasType, WellFormed, HasCompatible, EncodeHead, Decode, RuntimeInfo, WordWidth, MaxLength, Default, Solid,
         DecodeVersions;
    WidthFits(conf, t, v);
    CutPlain(t, Default(t), v, ContextOf(conf, t, v, data, pos), pos + |EncodeHead(conf, t, RuntimeInfo(conf, t, v))|);
  }

  /** A compatible field that is cut off reports it exactly if not even its flag is there. */
  lemma {:induction false} CompatibleHidesTruncation(n: nat, e: Ty, v: Val, c: Context, pos: nat)
    requires Typed(Compatible(n, e), v) && pos < c.dataLen
    requires CutAt(c.data, pos, Encode(Compatible(n, e), v, Version(n), c.w))
    ensures var o := Decode(Compatible(n, e), Null, Version(n), c, pos);
            (o.code == NoBufferSpace && !o.missing <==> pos == |c.data|) && (pos < |c.data| ==> o.code == Ok || o.code == BadAccess)
  {
    hide Encode, Decode, Collect, CutAt;
    CutLength(c.data, pos, Encode(Compatible(n, e), v, Version(n), c.w));
    CompatibleUnfolds(n, e, c, pos);
  }

  lemma {:induction false} CompatibleUnfolds(n: nat, e: Ty, c: Context, pos: nat)
    requires WellFormed(Compatible(n, e)) && pos < c.dataLen && pos <= |c.data|
    ensures Decode(Compatible(n, e), Null, Version(n), c, pos) == DecodeOptional(e, Null, Plain, c, pos)
  {
    hide DecodeOptional;
  }

  // ---- different values, different bytes --------------------------------------------------------------

  /** Two values whose plain bytes stand at the same place are the same but for their
      compatible fields. */
  ghost predicate Alike(t: Ty, v1: Val, v2: Val, w: nat)
    requires Typed(t, v1) && Typed(t, v2)
  {
    Known(t, v1, {}) == Known(t, v2, {}) && |Encode(t, v1, Plain, w)| == |Encode(t, v2, Plain, w)|
  }

  lemma {:induction false} PlainInjective(t: Ty, v1: Val, v2: Val, c: Context, pos: nat)
    requires Typed(t, v1) && Typed(t, v2) && Fits(t, v1, c.w) && Fits(t, v2, c.w)
    requires At(c.data, pos, Encode(t, v1, Plain, c.w)) && At(c.data, pos, Encode(t, v2, Plain, c.w))
    ensures Alike(t, v1, v2, c.w)
    decreases t, 0
  {
    hide At, EncodeElems, EncodeFields, KnownElems, KnownFields, MaxLengthElems, MaxLengthFields, EncodeBlock, HasVersion,
         EncodeVar, Span, Collect;
    match t
    case Fixed(_) => assert v1.bytes == v2.bytes by { SameBytes(c.data, pos, v1.bytes, v2.bytes); }
    case Var(k) =>
      VarRoundTrip(k, Num(0), v1, c, pos);
      VarRoundTrip(k, Num(0), v2, c, pos);
    case Array(_, e) => ElemsInjective(e, v1.items, v2.items, c, pos);
    case Container(shape, e) => ContainerInjective(shape, e, v1, v2, c, pos);
    case Optional(e, _) => OptionalInjective(e, v1, v2, c, pos);
    case Expected(a, e) => ExpectedInjective(a, e, v1, v2, c, pos);
    case Variant(alts) => VariantInjective(alts, v1, v2, c, pos);
    case Struct(fast, fs) => StructInjective(fast, fs, v1, v2, c, pos);
    case Compatible(_, _) =>
  }

  lemma {:induction false} SameBytes(data: bytes, pos: nat, a: bytes, b: bytes)
    requires At(data, pos, a) && At(data, pos, b) && |a| == |b|
    ensures a == b
  {
  }

  lemma {:induction false} ElemsInjective(e: Ty, vs1: seq<Val>, vs2: seq<Val>, c: Context, pos: nat)
    requires WellFormed(e) && AllHaveType(e, vs1) && AllHaveType(e, vs2) && |vs1| == |vs2|
    requires MaxLengthElems(e, vs1) < Span(c.w) && MaxLengthElems(e, vs2) < Span(c.w)
    requires At(c.data, pos, EncodeElems(e, vs1, Plain, c.w)) && At(c.data, pos, EncodeElems(e, vs2, Plain, c.w))
    ensures KnownElems(e, vs1, {}) == KnownElems(e, vs2, {})
    ensures |EncodeElems(e, vs1, Plain, c.w)| == |EncodeElems(e, vs2, Plain, c.w)|
    decreases e, 1, |vs1|
  {
    hide At, Encode, EncodeElems, KnownElems, MaxLength, MaxLengthElems, Known, HasType, WellFormed, Span;
    ElemsBegin(e, vs1, c.w);
    ElemsBegin(e, vs2, c.w);
    if |vs1| > 0 {
      AtConcat(c.data, pos, Encode(e, vs1[0], Plain, c.w), EncodeElems(e, vs1[1..], Plain, c.w));
      AtConcat(c.data, pos, Encode(e, vs2[0], Plain, c.w), EncodeElems(e, vs2[1..], Plain, c.w));
      PlainInjective(e, vs1[0], vs2[0], c, pos);
      ElemsInjective(e, vs1[1..], vs2[1..], c, pos + |Encode(e, vs1[0], Plain, c.w)|);
    }
  }

  lemma {:induction false} ContainerInjective(shape: Shape, e: Ty, v1: Val, v2: Val, c: Context, pos: nat)
    requires var t := Container(shape, e); Typed(t, v1) && Typed(t, v2) && Fits(t, v1, c.w) && Fits(t, v2, c.w)
    requires At(c.data, pos, Encode(Container(shape, e), v1, Plain, c.w))
    requires At(c.data, pos, Encode(Container(shape, e), v2, Plain, c.w))
    ensures Alike(Container(shape, e), v1, v2, c.w)
    decreases e, 4
  {
    hide At, EncodeElems, KnownElems, MaxLengthElems, LE, FromLE, Span;
    AtConcat(c.data, pos, LE(c.w, |v1.items|), EncodeElems(e, v1.items, Plain, c.w));
    AtConcat(c.data, pos, LE(c.w, |v2.items|), EncodeElems(e, v2.items, Plain, c.w));
    SameBytes(c.data, pos, LE(c.w, |v1.items|), LE(c.w, |v2.items|));
    LERoundTrip(c.w, |v1.items|);
    LERoundTrip(c.w, |v2.items|);
    ElemsInjective(e, v1.items, v2.items, c, pos + c.w);
  }

  lemma {:induction false} OptionalInjective(e: Ty, v1: Val, v2: Val, c: Context, pos: nat)
    requires var t := Optional(e); Typed(t, v1) && Typed(t, v2) && Fits(t, v1, c.w) && Fits(t, v2, c.w)
    requires At(c.data, pos, Encode(Optional(e), v1, Plain, c.w)) && At(c.data, pos, Encode(Optional(e), v2, Plain, c.w))
    ensures Alike(Optional(e), v1, v2, c.w)
    decreases e, 4
  {
    hide EncodeElems, EncodeFields, KnownElems, KnownFields, MaxLengthElems, MaxLengthFields, Collect, Span;
    FlagAndRest(c.data, pos, if v1.Some? then 1 else 0, if v1.Some? then Encode(e, v1.value, Plain, c.w) else []);
    FlagAndRest(c.data, pos, if v2.Some? then 1 else 0, if v2.Some? then Encode(e, v2.value, Plain, c.w) else []);
    if v1.Some? { PlainInjective(e, v1.value, v2.value, c, pos + 1); }
  }

  lemma {:induction false} FlagAndRest(data: bytes, pos: nat, flag: byte, rest: bytes)
    requires At(data, pos, [flag] + rest)
    ensures data[pos] == flag && At(data, pos + 1, rest)
  {
    AtConcat(data, pos, [flag], rest);
    assert data[pos] == data[pos..pos + 1][0];
  }

  lemma {:induction false} ExpectedInjective(a: Ty, e: Ty, v1: Val, v2: Val, c: Context, pos: nat)
    requires var t := Expected(a, e); Typed(t, v1) && Typed(t, v2) && Fits(t, v1, c.w) && Fits(t, v2, c.w)
    requires At(c.data, pos, Encode(Expected(a, e), v1, Plain, c.w)) && At(c.data, pos, Encode(Expected(a, e), v2, Plain, c.w))
    ensures Alike(Expected(a, e), v1, v2, c.w)
    decreases Expected(a, e), -1
  {
    hide EncodeElems, EncodeFields, KnownElems, KnownFields, MaxLengthElems, MaxLengthFields, Collect, Span;
    FlagAndRest(c.data, pos, v1.index, Encode(if v1.index == 1 then a else e, v1.value, Plain, c.w));
    FlagAndRest(c.data, pos, v2.index, Encode(if v2.index == 1 then a else e, v2.value, Plain, c.w));
    PlainInjective(if v1.index == 1 then a else e, v1.value, v2.value, c, pos + 1);
  }

  lemma {:induction false} VariantInjective(alts: seq<Ty>, v1: Val, v2: Val, c: Context, pos: nat)
    requires var t := Variant(alts); Typed(t, v1) && Typed(t, v2) && Fits(t, v1, c.w) && Fits(t, v2, c.w)
    requires At(c.data, pos, Encode(Variant(alts), v1, Plain, c.w)) && At(c.data, pos, Encode(Variant(alts), v2, Plain, c.w))
    ensures Alike(Variant(alts), v1, v2, c.w)
    decreases alts, 4
  {
    hide EncodeElems, EncodeFields, KnownElems, KnownFields, MaxLengthElems, MaxLengthFields, Collect, Span;
    FlagAndRest(c.data, pos, v1.index, Encode(alts[v1.index], v1.value, Plain, c.w));
    FlagAndRest(c.data, pos, v2.index, Encode(alts[v2.index], v2.value, Plain, c.w));
    PlainInjective(alts[v1.index], v1.value, v2.value, c, pos + 1);
  }

  /** Equal integers in the block. */
  ghost predicate SameVars(ts: seq<Ty>, vs1: seq<Val>, vs2: seq<Val>)
    requires HasTypes(ts, vs1) && HasTypes(ts, vs2)
  {
    forall i | 0 <= i < |ts| && ts[i].Var? :: vs1[i] == vs2[i]
  }

  /** The integers show in what the block makes of fresh fields. */
  lemma {:induction false} OverlayShows(ts: seq<Ty>, vs: seq<Val>, i: nat)
    requires AllWellFormed(ts) && HasTypes(ts, vs) && i < |ts| && ts[i].Var?
    ensures Overlay(ts, vs, Defaults(ts))[i] == vs[i]
  {
    hide WellFormed;
    if i > 0 {
      OverlayShows(ts[1..], vs[1..], i - 1);
    } else {
      assert HasType(ts[0], vs[0]) && Defaults(ts)[0] == Num(0);
    }
  }

  lemma {:induction false} StructInjective(fast: bool, fs: seq<Ty>, v1: Val, v2: Val, c: Context, pos: nat)
    requires var t := Struct(fast, fs); Typed(t, v1) && Typed(t, v2) && Fits(t, v1, c.w) && Fits(t, v2, c.w)
    requires At(c.data, pos, Encode(Struct(fast, fs), v1, Plain, c.w))
    requires At(c.data, pos, Encode(Struct(fast, fs), v2, Plain, c.w))
    ensures Alike(Struct(fast, fs), v1, v2, c.w)
    decreases fs, 4
  {
    hide At, Encode, MaxLength, Known, HasType, WellFormed, EncodeFields, KnownFields, MaxLengthFields, EncodeBlock, Defaults,
         Collect, ReadBlock, Overlay, VarCount, Span;
    StructParts(fast, fs, v1, c.w);
    StructParts(fast, fs, v2, c.w);
    if fast {
      var i :| 0 <= i < |fs| && fs[i].Var?;
      VarCountPositive(fs, i);
      AtConcat(c.data, pos, EncodeBlock(fs, v1.items), EncodeFields(fast, fs, v1.items, Plain, c.w));
      AtConcat(c.data, pos, EncodeBlock(fs, v2.items), EncodeFields(fast, fs, v2.items, Plain, c.w));
      BlockRoundTrip(fs, v1.items, Defaults(fs), c.data, pos);
      BlockRoundTrip(fs, v2.items, Defaults(fs), c.data, pos);
      forall i | 0 <= i < |fs| && fs[i].Var? ensures v1.items[i] == v2.items[i] {
        OverlayShows(fs, v1.items, i);
        OverlayShows(fs, v2.items, i);
      }
      FieldsInjective(true, fs, v1.items, v2.items, c, pos + |EncodeBlock(fs, v1.items)|);
    } else {
      assert Encode(Struct(fast, fs), v1, Plain, c.w) == EncodeFields(fast, fs, v1.items, Plain, c.w);
      assert Encode(Struct(fast, fs), v2, Plain, c.w) == EncodeFields(fast, fs, v2.items, Plain, c.w);
      FieldsInjective(false, fs, v1.items, v2.items, c, pos);
    }
  }

  lemma {:induction false} FieldsInjective(skip: bool, ts: seq<Ty>, vs1: seq<Val>, vs2: seq<Val>, c: Context, pos: nat)
    requires AllWellFormed(ts) && HasTypes(ts, vs1) && HasTypes(ts, vs2) && (skip ==> SameVars(ts, vs1, vs2))
    requires MaxLengthFields(ts, vs1) < Span(c.w) && MaxLengthFields(ts, vs2) < Span(c.w)
    requires At(c.data, pos, EncodeFields(skip, ts, vs1, Plain, c.w)) && At(c.data, pos, EncodeFields(skip, ts, vs2, Plain, c.w))
    ensures KnownFields(ts, vs1, {}) == KnownFields(ts, vs2, {})
    ensures |EncodeFields(skip, ts, vs1, Plain, c.w)| == |EncodeFields(skip, ts, vs2, Plain, c.w)|
    decreases ts, 1
  {
    hide At, Encode, EncodeFields, KnownFields, MaxLength, MaxLengthFields, Known, HasType, WellFormed, Span;
    if |ts| == 0 {
      assert vs1 == vs2;
    } else {
      FieldsBegin(skip, ts, vs1, c.w);
      FieldsBegin(skip, ts, vs2, c.w);
      KnownFirstField(ts, vs1, {});
      KnownFirstField(ts, vs2, {});
      var first1 := if skip && ts[0].Var? then [] else Encode(ts[0], vs1[0], Plain, c.w);
      var first2 := if skip && ts[0].Var? then [] else Encode(ts[0], vs2[0], Plain, c.w);
      AtConcat(c.data, pos, first1, EncodeFields(skip, ts[1..], vs1[1..], Plain, c.w));
      AtConcat(c.data, pos, first2, EncodeFields(skip, ts[1..], vs2[1..], Plain, c.w));
      if !(skip && ts[0].Var?) { PlainInjective(ts[0], vs1[0], vs2[0], c, pos); }
      assert forall i | 0 <= i < |ts[1..]| :: ts[1..][i] == ts[i + 1] && vs1[1..][i] == vs1[i + 1] && vs2[1..][i] == vs2[i + 1];
      FieldsInjective(skip, ts[1..], vs1[1..], vs2[1..], c, pos + |first1|);
    }
  }

  /** The plain bytes stand where the head says, at the width the head says. */
  lemma {:induction false} PlainStands(conf: Conf, t: Ty, v: Val, data: bytes, pos: nat)
    requires Legal(conf, t) && HasType(t, v) && Addressable(conf, t, v) && At(data, pos, Serialize(conf, t, v))
    ensures var h := DecodeHead(conf, t, data, pos);
            At(data, h.pos, Encode(t, v, Plain, WordWidth(h.widthCode))) && Fits(t, v, WordWidth(h.widthCode))
  {
    hide At, Serialize, HasType, WellFormed, HasCompatible, Encode, EncodeHead, EncodeVersions, VersionsOf, RuntimeInfo,
         DecodeHead, WordWidth, Fits, MaxLength;
    PartsAt(conf, t, v, data, pos);
    HeadReads(conf, t, v, data, pos);
    WidthFits(conf, t, v);
  }

  /** No serialised value is a proper prefix of another one of its type, and equal bytes mean
      equal values: for all types without compatible fields, optionals and keyed containers too. */
  lemma {:induction false} PrefixFree(conf: Conf, t: Ty, v1: Val, v2: Val)
    requires Legal(conf, t) && !HasCompatible(t) && HasType(t, v1) && HasType(t, v2)
    requires Addressable(conf, t, v1) && Addressable(conf, t, v2)
    requires Serialize(conf, t, v1) <= Serialize(conf, t, v2)
    ensures v1 == v2
  {
    hide At, Serialize, HasType, WellFormed, HasCompatible, Addressable;
    var data := Serialize(conf, t, v2);
    PrefixAt(data, Serialize(conf, t, v1));
    PrefixAt(data, data);
    OneValue(conf, t, v1, v2, data, 0);
  }

  /** Serialised at the same place. */
  lemma {:induction false} OneValue(conf: Conf, t: Ty, v1: Val, v2: Val, data: bytes, pos: nat)
    requires Legal(conf, t) && !HasCompatible(t) && HasType(t, v1) && HasType(t, v2)
    requires Addressable(conf, t, v1) && Addressable(conf, t, v2)
    requires At(data, pos, Serialize(conf, t, v1)) && At(data, pos, Serialize(conf, t, v2))
    ensures v1 == v2
  {
    hide At, Serialize, HasType, WellFormed, HasCompatible, Encode, VersionsOf, DecodeHead, WordWidth, Fits, Known, Addressable;
    PlainStands(conf, t, v1, data, pos);
    PlainStands(conf, t, v2, data, pos);
    var h := DecodeHead(conf, t, data, pos);
    PlainInjective(t, v1, v2, Context(data, WordWidth(h.widthCode), 0), h.pos);
    AllPlain(t, v1);
    AllPlain(t, v2);
  }

  lemma {:induction false} AllPlain(t: Ty, v: Val)
    requires Typed(t, v) && !HasCompatible(t)
    ensures Known(t, v, {}) == v
  {
    hide Known, HasType, WellFormed, HasCompatible, VersionsOf, Encode;
    NoVersions(t, v, 1);
    KnownAll(t, v, {});
  }

  lemma {:induction false} PrefixAt(data: bytes, part: bytes)
    requires part <= data
    ensures At(data, 0, part)
  {
    assert data[0..|part|] == part;
  }

  // ---- cuts that go unnoticed ----------------------------------------------------------------------------

  /** With an optional a cut goes unnoticed wherever it falls inside the content: its code is
      dropped. Only the missing flag is reported. */
  lemma {:induction false} OptionalHidesTruncation(e: Ty, pointer: bool, x: Val, c: Context, pos: nat)
    requires WellFormed(e) && HasType(e, x)
    requires CutAt(c.data, pos, Encode(Optional(e, pointer), Some(x), Plain, c.w))
    ensures var o := Decode(Optional(e, pointer), Null, Plain, c, pos);
            (o.code == NoBufferSpace <==> pos == |c.data|) && (pos < |c.data| ==> o.code == Ok || o.code == BadAccess)
  {
    hide Encode, Default, HasType, WellFormed, Collect;
  }

  lemma {:induction false} ExpectedHidesTruncation(a: Ty, e: Ty, v: Val, c: Context, pos: nat)
    requires Typed(Expected(a, e), v) && CutAt(c.data, pos, Encode(Expected(a, e), v, Plain, c.w))
    ensures var o := Decode(Expected(a, e), Default(Expected(a, e)), Plain, c, pos);
            (o.code == NoBufferSpace <==> pos == |c.data|) && (pos < |c.data| ==> o.code == Ok || o.code == BadAccess)
  {
    hide HasType, Collect, HasVersion, WellFormed, Encode, Default, CutAt;
    ExpectedParts(a, e, v, c.w);
    ExpectedBytes(a, e, v, c.w);
    CutFlag(c.data, pos, v.index, Encode(if v.index == 1 then a else e, v.value, Plain, c.w));
  }

  lemma {:induction false} ExpectedBytes(a: Ty, e: Ty, v: Val, w: nat)
    requires Typed(Expected(a, e), v) && Typed(if v.index == 1 then a else e, v.value)
    ensures Encode(Expected(a, e), v, Plain, w) == [v.index] + Encode(if v.index == 1 then a else e, v.value, Plain, w)
    ensures HasType(Expected(a, e), Default(Expected(a, e))) && Default(Expected(a, e)) == Alt(1, Default(a))
  {
  }

  lemma {:induction false} VariantHidesTruncation(alts: seq<Ty>, v: Val, c: Context, pos: nat)
    requires Typed(Variant(alts), v) && CutAt(c.data, pos, Encode(Variant(alts), v, Plain, c.w))
    ensures var o := Decode(Variant(alts), Default(Variant(alts)), Plain, c, pos);
            (o.code == NoBufferSpace <==> pos == |c.data|) && (pos < |c.data| ==> o.code == Ok || o.code == BadAccess)
  {
    hide EncodeElems, EncodeFields, Collect, HasVersion, CutAt;
    CutFlag(c.data, pos, v.index, Encode(alts[v.index], v.value, Plain, c.w));
  }

  lemma {:induction false} CutFlag(data: bytes, pos: nat, flag: byte, rest: bytes)
    requires CutAt(data, pos, [flag] + rest)
    ensures pos <= |data| && (pos < |data| ==> data[pos] == flag)
  {
    if pos < |data| { assert data[pos] == data[pos..][0] == ([flag] + rest)[..|data| - pos][0]; }
  }
}
