/** A whole serialised buffer: head, plain pass, one pass for every version. */
module Message {
  import opened Bytes
  import opened Status
  import opened Schema
  import opened FastVarint
  import opened Encoding
  import opened Decoding
  import opened Restoring
  import opened RoundTrip
  import opened Versions

  /** The configuration of a type: without head (DISABLE_ALL_META_INFO), or with the type
      hash and, if wanted, the type literal. Hash and literal leave compatible fields out. */
  datatype Conf =
    | NoHead
    | Head(hash: nat, literal: bytes, addLiteral: bool)

  predicate Legal(conf: Conf, t: Ty) {
    && WellFormed(t)
    && (conf.NoHead? ==> !HasCompatible(t))
    && (conf.Head? ==> conf.hash % 2 == 0 && conf.hash < TWO_32)
  }

  predicate HasCompatible(t: Ty) {
    Collect(t) != []
  }

  /** check_if_has_container */
  predicate HasContainer(t: Ty)
    decreases t
  {
    match t
    case Fixed(_) => false
    case Var(_) => false
    case Array(_, e) => HasContainer(e)
    case Container(_, _) => true
    case Optional(e, _) => HasContainer(e)
    case Expected(a, e) => HasContainer(a) || HasContainer(e)
    case Variant(alts) => exists i | 0 <= i < |alts| :: HasContainer(alts[i])
    case Struct(_, fs) => exists i | 0 <= i < |fs| :: HasContainer(fs[i])
    case Compatible(_, e) => HasContainer(e)
  }

  /** check_has_metainfo */
  predicate HasMetainfo(conf: Conf, t: Ty) {
    HasCompatible(t) || (conf.Head? && conf.addLiteral) || (conf.NoHead? && HasContainer(t))
  }

  // ---- sizes -------------------------------------------------------------------------------------

  /** serialize_buffer_size: len and the three parts of metainfo. */
  datatype BufferSize = BufferSize(len: nat, widthCode: nat, literal: bool, lenCode: nat) {
    function Metainfo(): nat { 8 * widthCode + (if literal then 4 else 0) + lenCode }
  }

  /** The least of the four widths for container lengths. */
  function LengthCode(max: nat): (c: nat)
    ensures c <= 3
  {
    if max < TWO_8 then 0 else if max < TWO_16 then 1 else if max < TWO_32 then 2 else 3
  }

  /** The width of the field for the total length, which counts itself. */
  function TotalCode(len: nat): (c: nat)
    ensures 1 <= c <= 3
  {
    if len + 2 < TWO_16 then 1 else if len + 4 < TWO_32 then 2 else 3
  }

  /** The bytes of all container lengths. */
  function LengthBytes(count: nat, code: nat): nat
    requires code <= 3
  {
    count * WordWidth(code)
  }

  /** get_serialize_runtime_info, given what the sizer found */
  function InfoFor(conf: Conf, t: Ty, total: nat, count: nat, max: nat): (b: BufferSize)
    ensures b.widthCode <= 3 && b.lenCode <= 3
  {
    var base := if HasMetainfo(conf, t) then 1 else 0;
    var code := if HasContainer(t) then LengthCode(max) else 0;
    var len1 := base + total + (if HasContainer(t) then LengthBytes(count, code) else 0)
                + (if code > 0 && !HasMetainfo(conf, t) then 1 else 0);
    if conf.NoHead? then BufferSize(len1, code, false, 0)
    else
      var len2 := len1 + 4 + (if conf.addLiteral then |conf.literal| + 1 else 0);
      if HasCompatible(t) then BufferSize(len2 + WordWidth(TotalCode(len2)), code, conf.addLiteral, TotalCode(len2))
      else BufferSize(len2, code, conf.addLiteral, 0)
  }

  function RuntimeInfo(conf: Conf, t: Ty, v: Val): (b: BufferSize)
    requires WellFormed(t) && HasType(t, v)
    ensures b.widthCode <= 3 && b.lenCode <= 3
  {
    InfoFor(conf, t, Total(t, v), Count(t, v), MaxLength(t, v))
  }

  // ---- writing -----------------------------------------------------------------------------------

  /** The low bit of the head: more metainfo follows. */
  predicate MetainfoFollows(conf: Conf, t: Ty, info: BufferSize) {
    HasMetainfo(conf, t) || info.widthCode != 0
  }

  function HashHead(conf: Conf, t: Ty, info: BufferSize): nat
    requires conf.Head?
  {
    if MetainfoFollows(conf, t, info) then conf.hash + 1 else conf.hash
  }

  /** serialize_metainfo */
  function EncodeHead(conf: Conf, t: Ty, info: BufferSize): bytes
    requires info.widthCode <= 3 && info.lenCode <= 3
  {
    (if conf.Head? then LE(4, HashHead(conf, t, info)) else [])
    + (if MetainfoFollows(conf, t, info) then
         [info.Metainfo()]
         + (if HasCompatible(t) then LE(WordWidth(info.lenCode), info.len) else [])
         + (if conf.Head? && conf.addLiteral then conf.literal + [0] else [])
       else [])
  }

  function Width(info: BufferSize): nat
    requires info.widthCode <= 3
  {
    WordWidth(info.widthCode)
  }

  /** serialize_to with the runtime info of the same value */
  function Serialize(conf: Conf, t: Ty, v: Val): bytes
    requires WellFormed(t) && HasType(t, v)
  {
    var info := RuntimeInfo(conf, t, v);
    EncodeHead(conf, t, info) + Encode(t, v, Plain, Width(info)) + EncodeVersions(t, v, VersionsOf(t), Width(info))
  }

  // ---- the announced size is exact ------------------------------------------------------------------

  lemma {:induction false} NoContainer(t: Ty, v: Val)
    requires Typed(t, v) && !HasContainer(t)
    ensures Count(t, v) == 0 && MaxLength(t, v) == 0
    decreases t, 0
  {
    match t
    case Fixed(_) =>
    case Var(_) =>
    case Array(_, e) => NoContainerElems(e, v.items);
    case Container(_, _) =>
    case Optional(e, _) => if v.Some? { NoContainer(e, v.value); }
    case Expected(a, e) => NoContainer(if v.index == 1 then a else e, v.value);
    case Variant(alts) => NoContainer(alts[v.index], v.value);
    case Struct(_, fs) => NoContainerFields(fs, v.items);
    case Compatible(_, e) => if v.Some? { NoContainer(e, v.value); }
  }

  lemma {:induction false} NoContainerElems(t: Ty, vs: seq<Val>)
    requires WellFormed(t) && AllHaveType(t, vs) && !HasContainer(t)
    ensures CountElems(t, vs) == 0 && MaxLengthElems(t, vs) == 0
    decreases t, 1, |vs|
  {
    hide Total, Count, MaxLength, HasType, WellFormed, HasContainer;
    if |vs| > 0 {
      NoContainer(t, vs[0]);
      NoContainerElems(t, vs[1..]);
    }
  }

  lemma {:induction false} NoContainerFields(ts: seq<Ty>, vs: seq<Val>)
    requires AllWellFormed(ts) && HasTypes(ts, vs) && forall i | 0 <= i < |ts| :: !HasContainer(ts[i])
    ensures CountFields(ts, vs) == 0 && MaxLengthFields(ts, vs) == 0
    decreases ts, 1
  {
    if |ts| > 0 {
      NoContainer(ts[0], vs[0]);
      NoContainerFields(ts[1..], vs[1..]);
    }
  }

  lemma {:induction false} VersionsCover(t: Ty)
    ensures Pending(VersionsOf(t), {})
    ensures forall n :: HasVersion(t, n) <==> n in VersionsOf(t)
  {
    SortedUniqueIncreasing(Collect(t));
    forall n ensures HasVersion(t, n) <==> n in VersionsOf(t) { CollectFindsVersions(t, n); }
  }

  /** The bytes of the head, given the two width codes. */
  function HeadBytes(conf: Conf, t: Ty, widthCode: nat, lenCode: nat): nat
    requires lenCode <= 3
  {
    (if conf.Head? then 4 else 0)
    + (if HasMetainfo(conf, t) || widthCode != 0 then
         1 + (if HasCompatible(t) then WordWidth(lenCode) else 0)
         + (if conf.Head? && conf.addLiteral then |conf.literal| + 1 else 0)
       else 0)
  }

  lemma {:induction false} HeadSizeExact(conf: Conf, t: Ty, info: BufferSize)
    requires info.widthCode <= 3 && info.lenCode <= 3
    ensures |EncodeHead(conf, t, info)| == HeadBytes(conf, t, info.widthCode, info.lenCode)
  {
    hide HasMetainfo, HasCompatible, WordWidth, LE, HashHead, BufferSize.Metainfo;
  }

  lemma {:induction false} InfoLength(conf: Conf, t: Ty, v: Val)
    requires Legal(conf, t) && HasType(t, v)
    ensures var info := RuntimeInfo(conf, t, v);
            info.len == HeadBytes(conf, t, info.widthCode, info.lenCode) + Cost(t, v, Width(info))
  {
    hide HasCompatible, HasContainer, WordWidth, LengthCode, TotalCode, Total, Count, MaxLength, HasType, WellFormed;
    if !HasContainer(t) {
      NoContainer(t, v);
      assert Count(t, v) * Width(RuntimeInfo(conf, t, v)) == 0;
    }
  }

  /** The packer writes exactly as many bytes as get_serialize_runtime_info announces. */
  lemma {:induction false} AnnouncedSizeExact(conf: Conf, t: Ty, v: Val)
    requires Legal(conf, t) && HasType(t, v)
    ensures |Serialize(conf, t, v)| == RuntimeInfo(conf, t, v).len
  {
    hide Encode, EncodeVersions, EncodeHead, RuntimeInfo, Cost, HeadBytes, HasType, HasVersion, VersionsOf, WordWidth,
         HasMetainfo, HasCompatible, Pending, WellFormed, HasContainer, MaxLength;
    var info := RuntimeInfo(conf, t, v);
    VersionsCover(t);
    SizeExact(t, v, VersionsOf(t), Width(info));
    HeadSizeExact(conf, t, info);
    InfoLength(conf, t, v);
  }

  lemma {:induction false} LengthCodeLeast(max: nat, code: nat)
    requires max < TWO_64 && code <= 3
    ensures max < Span(WordWidth(code)) <==> LengthCode(max) <= code
  {
    hide Span;
    SpanValues();
  }

  lemma {:induction false} WidthChosen(conf: Conf, t: Ty, v: Val)
    requires Legal(conf, t) && HasType(t, v)
    ensures RuntimeInfo(conf, t, v).widthCode == LengthCode(MaxLength(t, v))
    ensures RuntimeInfo(conf, t, v).widthCode != 0 ==> HasContainer(t)
  {
    hide Total, Count, MaxLength, HasType, WellFormed, HasCompatible, HasContainer, HasMetainfo, WordWidth, TotalCode;
    if !HasContainer(t) { NoContainer(t, v); }
  }

  /** Every container length fits the chosen width, and no smaller width would do. */
  lemma {:induction false} WidthFits(conf: Conf, t: Ty, v: Val)
    requires Legal(conf, t) && HasType(t, v) && MaxLength(t, v) < TWO_64
    ensures Fits(t, v, Width(RuntimeInfo(conf, t, v)))
    ensures forall code | 0 <= code <= 3 ::
              MaxLength(t, v) < Span(WordWidth(code)) <==> RuntimeInfo(conf, t, v).widthCode <= code
  {
    hide RuntimeInfo, Span, WordWidth, LengthCode, MaxLength, HasType, WellFormed, HasCompatible;
    WidthChosen(conf, t, v);
    forall code | 0 <= code <= 3
      ensures MaxLength(t, v) < Span(WordWidth(code)) <==> RuntimeInfo(conf, t, v).widthCode <= code
    {
      LengthCodeLeast(MaxLength(t, v), code);
    }
  }

  /** The same in terms of the lengths themselves. */
  lemma {:induction false} WidthHoldsLengths(conf: Conf, t: Ty, v: Val)
    requires Legal(conf, t) && HasType(t, v) && MaxLength(t, v) < TWO_64
    ensures forall code | 0 <= code <= 3 :: LengthsBelow(t, v, Span(WordWidth(code))) <==> RuntimeInfo(conf, t, v).widthCode <= code
  {
    hide RuntimeInfo, Span, WordWidth, MaxLength, LengthsBelow, HasType, WellFormed, HasCompatible;
    WidthFits(conf, t, v);
    forall code | 0 <= code <= 3
      ensures LengthsBelow(t, v, Span(WordWidth(code))) <==> RuntimeInfo(conf, t, v).widthCode <= code
    {
      SpanAbove(WordWidth(code));
      BelowExactly(t, v, Span(WordWidth(code)));
    }
  }

  /** Every container in v has fewer elements. */
  ghost predicate LengthsBelow(t: Ty, v: Val, bound: nat)
    requires Typed(t, v)
  {
    forall n: nat | HasLength(t, v, n) :: n < bound
  }

  lemma {:induction false} BelowExactly(t: Ty, v: Val, bound: nat)
    requires Typed(t, v) && bound > 0
    ensures LengthsBelow(t, v, bound) <==> MaxLength(t, v) < bound
  {
    hide MaxLength, HasLength, HasType, WellFormed;
    MaxLengthExact(t, v);
  }

  lemma {:induction false} SpanAbove(w: nat)
    ensures Span(w) > 0
  {
    if w > 0 { SpanAbove(w - 1); }
  }

  // ---- reading -------------------------------------------------------------------------------------

  datatype HeadResult = HeadResult(code: Code, widthCode: nat, bufferLen: nat, pos: nat)

  /** deserialize_metainfo */
  function DecodeHead(conf: Conf, t: Ty, data: bytes, pos: nat): (r: HeadResult)
    requires pos <= |data|
    ensures r.widthCode <= 3 && pos <= r.pos <= |data|
  {
    if conf.NoHead? then
      if !HasContainer(t) then HeadResult(Ok, 0, 0, pos)
      else if pos >= |data| then HeadResult(NoBufferSpace, 0, 0, pos)
      else HeadResult(Ok, (data[pos] / 8) % 4, 0, pos + 1)
    else if pos + 4 > |data| then HeadResult(NoBufferSpace, 0, 0, pos)
    else
      var head := FromLE(data[pos..pos + 4]);
      if head / 2 != conf.hash / 2 then HeadResult(InvalidBuffer, 0, 0, pos + 4)
      else if head % 2 == 0 then HeadResult(Ok, 0, 0, pos + 4)
      else DecodeMetainfo(conf, data, pos + 4)
  }

  function DecodeMetainfo(conf: Conf, data: bytes, pos: nat): (r: HeadResult)
    requires conf.Head? && pos <= |data|
    ensures r.widthCode <= 3 && pos <= r.pos <= |data|
  {
    if pos >= |data| then HeadResult(NoBufferSpace, 0, 0, pos)
    else
      var meta := data[pos];
      var lenCode := meta % 4;
      var lenWidth := if lenCode == 0 then 0 else WordWidth(lenCode);
      if pos + 1 + lenWidth > |data| then HeadResult(NoBufferSpace, 0, 0, pos + 1)
      else
        var bufferLen := FromLE(data[pos + 1..pos + 1 + lenWidth]);
        CheckLiteral(conf, (meta / 4) % 2 == 1, (meta / 8) % 4, bufferLen, data, pos + 1 + lenWidth)
  }

  /** The type literal, if the metainfo says that one follows. */
  function CheckLiteral(conf: Conf, follows: bool, widthCode: nat, bufferLen: nat, data: bytes, pos: nat): (r: HeadResult)
    requires conf.Head? && pos <= |data| && widthCode <= 3
    ensures r.widthCode <= 3 && pos <= r.pos <= |data|
  {
    if !follows then HeadResult(Ok, widthCode, bufferLen, pos)
    else if pos + |conf.literal| + 1 > |data| then HeadResult(NoBufferSpace, 0, 0, pos)
    else if data[pos..pos + |conf.literal| + 1] != conf.literal + [0] then
      HeadResult(HashConflict, 0, 0, pos + |conf.literal| + 1)
    else HeadResult(Ok, widthCode, bufferLen, pos + |conf.literal| + 1)
  }

  /** The version passes of deserialize_compatibles, up to the first error. */
  function DecodeVersions(t: Ty, item: Val, ns: seq<nat>, c: Context, pos: nat): (r: Outcome)
    requires WellFormed(t) && HasType(t, item) && pos <= |c.data|
    ensures HasType(t, r.item) && pos <= r.pos <= |c.data|
    decreases |ns|
  {
    if |ns| == 0 then Outcome(Ok, item, pos, false)
    else
      var h := Decode(t, item, Version(ns[0]), c, pos);
      if h.code != Ok then h
      else
        var r := DecodeVersions(t, h.item, ns[1..], c, h.pos);
        Outcome(r.code, r.item, r.pos, h.missing || r.missing)
  }

  datatype Result = Result(code: Code, item: Val, pos: nat)

  /** The passes behind the head. A buffer that lacks compatible fields is no error; an exception
      remains one. */
  function DecodeBody(t: Ty, item: Val, c: Context, pos: nat): (r: Result)
    requires WellFormed(t) && HasType(t, item) && pos <= |c.data|
    ensures HasType(t, r.item) && pos <= r.pos <= |c.data|
  {
    var p := Decode(t, item, Plain, c, pos);
    if !HasCompatible(t) || p.code != Ok then Result(p.code, p.item, p.pos)
    else
      var r := DecodeVersions(t, p.item, VersionsOf(t), c, p.pos);
      Result(if r.missing then Dropped(r.code) else r.code, r.item, r.pos)
  }

  /** deserialize into an object */
  function Deserialize(conf: Conf, t: Ty, item: Val, data: bytes, pos: nat): (r: Result)
    requires WellFormed(t) && HasType(t, item) && pos <= |data|
    ensures HasType(t, r.item) && pos <= r.pos <= |data|
  {
    var h := DecodeHead(conf, t, data, pos);
    if h.code != Ok then Result(h.code, item, h.pos)
    else DecodeBody(t, item, Context(data, WordWidth(h.widthCode), pos + h.bufferLen), h.pos)
  }

  // ---- round trip ------------------------------------------------------------------------------------

  /** What the head of a value of type t may hold. */
  ghost predicate Announced(conf: Conf, t: Ty, info: BufferSize) {
    && info.widthCode <= 3 && info.lenCode <= 3
    && info.literal == (conf.Head? && conf.addLiteral)
    && (info.lenCode == 0 <==> !HasCompatible(t))
    && (HasCompatible(t) ==> info.len < Span(WordWidth(info.lenCode)))
    && (info.widthCode != 0 ==> HasContainer(t))
  }

  /** The head as the reader of a type t2 with the same hash and literal sees it. */
  lemma {:induction false} HeadRoundTrip(conf: Conf, t: Ty, info: BufferSize, t2: Ty, data: bytes, pos: nat)
    requires Legal(conf, t) && Announced(conf, t, info)
    requires conf.NoHead? ==> HasContainer(t) == HasContainer(t2)
    requires At(data, pos, EncodeHead(conf, t, info))
    ensures DecodeHead(conf, t2, data, pos)
            == HeadResult(Ok, info.widthCode, if HasCompatible(t) then info.len else 0, pos + |EncodeHead(conf, t, info)|)
  {
    hide HasContainer, WellFormed, Collect, LE, FromLE, Span;
    if conf.Head? {
      var head := LE(4, HashHead(conf, t, info));
      if MetainfoFollows(conf, t, info) {
        AtConcat(data, pos, head, MetainfoBytes(conf, t, info));
        HashRoundTrip(conf, t, info);
        MetainfoRoundTrip(conf, t, info, data, pos + 4);
      } else {
        assert EncodeHead(conf, t, info) == head;
        HashRoundTrip(conf, t, info);
      }
    } else if MetainfoFollows(conf, t, info) {
      assert EncodeHead(conf, t, info) == [info.Metainfo()];
      assert data[pos] == data[pos..pos + 1][0];
    }
  }

  function MetainfoBytes(conf: Conf, t: Ty, info: BufferSize): bytes
    requires info.widthCode <= 3 && info.lenCode <= 3
  {
    [info.Metainfo()]
    + (if HasCompatible(t) then LE(WordWidth(info.lenCode), info.len) else [])
    + (if conf.Head? && conf.addLiteral then conf.literal + [0] else [])
  }

  lemma {:induction false} HashRoundTrip(conf: Conf, t: Ty, info: BufferSize)
    requires Legal(conf, t) && conf.Head?
    ensures var h := FromLE(LE(4, HashHead(conf, t, info)));
            h / 2 == conf.hash / 2 && h % 2 == (if MetainfoFollows(conf, t, info) then 1 else 0)
  {
    SpanValues();
    LERoundTrip(4, HashHead(conf, t, info));
  }

  lemma {:induction false} MetainfoRoundTrip(conf: Conf, t: Ty, info: BufferSize, data: bytes, pos: nat)
    requires conf.Head? && Announced(conf, t, info)
    requires At(data, pos, MetainfoBytes(conf, t, info))
    ensures DecodeMetainfo(conf, data, pos)
            == HeadResult(Ok, info.widthCode, if HasCompatible(t) then info.len else 0, pos + |MetainfoBytes(conf, t, info)|)
  {
    hide LE, FromLE, Span, Collect, HasCompatible, HasContainer, WordWidth, BufferSize.Metainfo, CheckLiteral;
    var len := if HasCompatible(t) then LE(WordWidth(info.lenCode), info.len) else [];
    var lit := if conf.addLiteral then conf.literal + [0] else [];
    MetainfoBits(info);
    AtConcat(data, pos, [info.Metainfo()] + len, lit);
    AtConcat(data, pos, [info.Metainfo()], len);
    assert data[pos] == data[pos..pos + 1][0];
    LengthRoundTrip(t, info);
    LiteralRoundTrip(conf, info.widthCode, if HasCompatible(t) then info.len else 0, data, pos + 1 + |len|);
  }

  lemma {:induction false} MetainfoBits(info: BufferSize)
    requires info.widthCode <= 3 && info.lenCode <= 3
    ensures var m := info.Metainfo();
            m < 256 && m % 4 == info.lenCode && (m / 8) % 4 == info.widthCode && ((m / 4) % 2 == 1 <==> info.literal)
  {
  }

  lemma {:induction false} LengthRoundTrip(t: Ty, info: BufferSize)
    requires info.lenCode <= 3 && (HasCompatible(t) ==> info.len < Span(WordWidth(info.lenCode)))
    ensures FromLE(if HasCompatible(t) then LE(WordWidth(info.lenCode), info.len) else [])
            == (if HasCompatible(t) then info.len else 0)
  {
    hide Span, WordWidth, LE, HasCompatible;
    if HasCompatible(t) { LERoundTrip(WordWidth(info.lenCode), info.len); }
  }

  lemma {:induction false} LiteralRoundTrip(conf: Conf, widthCode: nat, bufferLen: nat, data: bytes, pos: nat)
    requires conf.Head? && widthCode <= 3
    requires At(data, pos, if conf.addLiteral then conf.literal + [0] else [])
    ensures CheckLiteral(conf, conf.addLiteral, widthCode, bufferLen, data, pos)
            == HeadResult(Ok, widthCode, bufferLen, pos + (if conf.addLiteral then |conf.literal| + 1 else 0))
  {
  }

  /** Sizes are size_t values. */
  predicate Addressable(conf: Conf, t: Ty, v: Val)
    requires WellFormed(t) && HasType(t, v)
  {
    MaxLength(t, v) < TWO_64 && RuntimeInfo(conf, t, v).len < TWO_64
  }

  ghost predicate VersionsAt(t: Ty, v: Val, ns: seq<nat>, c: Context, pos: nat)
    requires Typed(t, v)
  {
    && At(c.data, pos, EncodeVersions(t, v, ns, c.w))
    && pos + |EncodeVersions(t, v, ns, c.w)| <= c.dataLen
  }

  /** All compatible fields of these versions hold restorable values. */
  ghost predicate AllHeldIn(t: Ty, v: Val, ns: seq<nat>)
    requires Typed(t, v)
  {
    forall n | n in ns :: Held(t, v, n)
  }

  ghost predicate VersionsRead(t: Ty, v: Val, ns: seq<nat>, s: set<nat>, c: Context, pos: nat)
    requires Typed(t, v) && pos <= |c.data|
  {
    var o := DecodeVersions(t, Known(t, v, s), ns, c, pos);
    if AllHeldIn(t, v, ns) then o == Outcome(Ok, Known(t, v, s + Elements(ns)), pos + |EncodeVersions(t, v, ns, c.w)|, false)
    else o.code == BadAccess || Known(t, o.item, s + Elements(ns)) != Known(t, v, s + Elements(ns))
  }

  lemma {:induction false} VersionsRoundTrip(t: Ty, v: Val, ns: seq<nat>, s: set<nat>, c: Context, pos: nat)
    requires Typed(t, v) && Fits(t, v, c.w) && VersionsAt(t, v, ns, c, pos)
    requires Pending(ns, s)
    ensures VersionsRead(t, v, ns, s, c, pos)
    decreases |ns|
  {
    hide At, Decode, Encode, Known, HasType, WellFormed, MaxLength, Span, Pending, Fits, HasVersion, Elements, Held,
         VersionsRead, PassReads, DecodeVersions;
    if |ns| == 0 {
      NoVersionsRead(t, v, ns, s, c, pos);
    } else {
      var next := pos + |Encode(t, v, Version(ns[0]), c.w)|;
      PendingStep(ns, s);
      AtConcat(c.data, pos, Encode(t, v, Version(ns[0]), c.w), EncodeVersions(t, v, ns[1..], c.w));
      VersionRoundTrip(t, v, s, ns[0], c, pos);
      if Held(t, v, ns[0]) {
        VersionsRoundTrip(t, v, ns[1..], s + {ns[0]}, c, next);
        VersionsStep(t, v, ns, s, c, pos);
      } else {
        VersionsSpoilt(t, v, ns, s, c, pos);
      }
    }
  }

  lemma {:induction false} NoVersionsRead(t: Ty, v: Val, ns: seq<nat>, s: set<nat>, c: Context, pos: nat)
    requires Typed(t, v) && pos <= |c.data| && |ns| == 0
    ensures VersionsRead(t, v, ns, s, c, pos)
  {
    hide Decode, Encode, Known, HasType, WellFormed;
    assert s + Elements(ns) == s;
  }

  lemma {:induction false} VersionsStep(t: Ty, v: Val, ns: seq<nat>, s: set<nat>, c: Context, pos: nat)
    requires Typed(t, v) && |ns| > 0 && Pending(ns, s) && Held(t, v, ns[0])
    requires pos + |Encode(t, v, Version(ns[0]), c.w)| <= |c.data|
    requires PassReads(t, v, s, ns[0], c, pos)
    requires VersionsRead(t, v, ns[1..], s + {ns[0]}, c, pos + |Encode(t, v, Version(ns[0]), c.w)|)
    ensures VersionsRead(t, v, ns, s, c, pos)
  {
    hide Decode, Encode, Known, HasType, WellFormed, Elements, Pending, Held;
    PendingStep(ns, s);
    assert ns == [ns[0]] + ns[1..];
  }

  /** A pass that does not restore its fields: no later one does. */
  lemma {:induction false} VersionsSpoilt(t: Ty, v: Val, ns: seq<nat>, s: set<nat>, c: Context, pos: nat)
    requires Typed(t, v) && |ns| > 0 && Pending(ns, s) && !Held(t, v, ns[0]) && pos <= |c.data|
    requires PassReads(t, v, s, ns[0], c, pos)
    ensures VersionsRead(t, v, ns, s, c, pos)
  {
    hide Decode, Encode, Known, HasType, WellFormed, Elements, Held;
    var h := Decode(t, Known(t, v, s), Version(ns[0]), c, pos);
    if h.code == Ok {
      var o := DecodeVersions(t, Known(t, v, s), ns, c, pos);
      VersionsKeep(t, h.item, ns[1..], s + {ns[0]}, c, h.pos);
      assert ns[0] in Elements(ns) by { FirstElement(ns); }
      KnownWithin(t, o.item, s + {ns[0]}, s + Elements(ns));
      KnownWithin(t, v, s + {ns[0]}, s + Elements(ns));
    }
  }

  lemma {:induction false} FirstElement(ns: seq<nat>)
    requires |ns| > 0
    ensures ns[0] in Elements(ns)
  {
  }

  lemma {:induction false} VersionsKeep(t: Ty, item: Val, ns: seq<nat>, s: set<nat>, c: Context, pos: nat)
    requires Typed(t, item) && (forall i | 0 <= i < |ns| :: ns[i] !in s) && pos <= |c.data|
    ensures Known(t, DecodeVersions(t, item, ns, c, pos).item, s) == Known(t, item, s)
    decreases |ns|
  {
    hide Decode, Known, HasType, WellFormed;
    if |ns| > 0 {
      var h := Decode(t, item, Version(ns[0]), c, pos);
      VersionKeeps(t, item, ns[0], s, c, pos);
      if h.code == Ok { VersionsKeep(t, h.item, ns[1..], s, c, h.pos); }
    }
  }

  /** The passes behind the head. */
  ghost predicate BodyAt(t: Ty, v: Val, ns: seq<nat>, c: Context, pos: nat)
    requires Typed(t, v)
  {
    && At(c.data, pos, Encode(t, v, Plain, c.w))
    && VersionsAt(t, v, ns, c, pos + |Encode(t, v, Plain, c.w)|)
  }

  /** The whole body is read: exactly a recoverable value is the result. */
  ghost predicate BodyReads(t: Ty, v: Val, c: Context, pos: nat)
    requires Typed(t, v) && pos <= |c.data|
  {
    var r := DecodeBody(t, Default(t), c, pos);
    if Recoverable(t, v) then r == Result(Ok, v, pos + |Encode(t, v, Plain, c.w)| + |EncodeVersions(t, v, VersionsOf(t), c.w)|)
    else r.code != Ok || r.item != v
  }

  lemma {:induction false} BodyRoundTrip(t: Ty, v: Val, c: Context, pos: nat)
    requires Typed(t, v) && Fits(t, v, c.w) && PassesAt(t, v, c, pos)
    ensures BodyReads(t, v, c, pos)
  {
    hide At, Decode, DecodeBody, Encode, Known, HasType, WellFormed, HasCompatible, EncodeVersions, VersionsOf, Fits, VersionsAt,
         Restorable, Recoverable;
    if !HasCompatible(t) {
      PlainBody(t, v, c, pos);
    } else if Restorable(t, v) {
      VersionsBody(t, v, c, pos);
    } else {
      SpoiltBody(t, v, c, pos);
    }
  }

  lemma {:induction false} PlainBody(t: Ty, v: Val, c: Context, pos: nat)
    requires Typed(t, v) && Fits(t, v, c.w) && !HasCompatible(t) && At(c.data, pos, Encode(t, v, Plain, c.w))
    ensures BodyReads(t, v, c, pos)
  {
    hide At, Decode, Encode, Known, HasType, WellFormed, Default, HasCompatible, EncodeVersions, VersionsOf, Fits, Restorable,
         Held, Collect;
    PlainRoundTrip(t, v, c, pos);
    NoVersions(t, v, c.w);
    KnownAll(t, v, {});
    NoneCollected(t);
  }

  lemma {:induction false} VersionsBody(t: Ty, v: Val, c: Context, pos: nat)
    requires Typed(t, v) && Fits(t, v, c.w) && HasCompatible(t) && BodyAt(t, v, VersionsOf(t), c, pos) && Restorable(t, v)
    ensures BodyReads(t, v, c, pos)
  {
    hide At, Decode, Encode, Known, HasType, WellFormed, Default, HasCompatible, EncodeVersions, DecodeVersions, VersionsOf,
         Fits, VersionsAt, Restorable, Held, Collect;
    PlainRoundTrip(t, v, c, pos);
    VersionsRestore(t, v, c, pos);
    VersionsCover(t);
    forall n ensures n in Collect(t) <==> n in VersionsOf(t) { CollectFindsVersions(t, n); }
  }

  /** Plain fields that were not restored: no version pass restores them. */
  lemma {:induction false} SpoiltBody(t: Ty, v: Val, c: Context, pos: nat)
    requires Typed(t, v) && Fits(t, v, c.w) && !Restorable(t, v)
    requires At(c.data, pos, Encode(t, v, Plain, c.w))
    ensures !Recoverable(t, v)
    ensures var r := DecodeBody(t, Default(t), c, pos); r.code != Ok || r.item != v
  {
    hide At, Decode, Encode, Known, HasType, WellFormed, Default, HasCompatible, VersionsOf, DecodeVersions, Fits, Restorable,
         Held, Collect;
    PlainRoundTrip(t, v, c, pos);
    var p := Decode(t, Default(t), Plain, c, pos);
    if p.code == Ok { VersionsKeep(t, p.item, VersionsOf(t), {}, c, p.pos); }
  }

  lemma {:induction false} NoneCollected(t: Ty)
    requires !HasCompatible(t)
    ensures Collect(t) == []
  {
  }

  /** All version passes together. */
  lemma {:induction false} VersionsRestore(t: Ty, v: Val, c: Context, pos: nat)
    requires Typed(t, v) && Fits(t, v, c.w) && BodyAt(t, v, VersionsOf(t), c, pos)
    ensures var next := pos + |Encode(t, v, Plain, c.w)|;
            next <= |c.data|
            && var o := DecodeVersions(t, Known(t, v, {}), VersionsOf(t), c, next);
               if AllHeldIn(t, v, VersionsOf(t)) then o == Outcome(Ok, v, next + |EncodeVersions(t, v, VersionsOf(t), c.w)|, false)
               else o.code == BadAccess || o.item != v
  {
    hide At, Decode, Encode, Known, HasType, WellFormed, EncodeVersions, DecodeVersions, VersionsOf, Fits, HasVersion,
         VersionsAt, Pending, Held;
    VersionsCover(t);
    VersionsRoundTrip(t, v, VersionsOf(t), {}, c, pos + |Encode(t, v, Plain, c.w)|);
    KnownAll(t, v, {} + Elements(VersionsOf(t)));
  }

  /** Where the parts of a serialised buffer stand. */
  lemma {:induction false} PartsAt(conf: Conf, t: Ty, v: Val, data: bytes, pos: nat)
    requires Typed(t, v) && At(data, pos, Serialize(conf, t, v))
    ensures var info := RuntimeInfo(conf, t, v);
            var head := |EncodeHead(conf, t, info)|;
            && At(data, pos, EncodeHead(conf, t, info))
            && At(data, pos + head, Encode(t, v, Plain, Width(info)))
            && At(data, pos + head + |Encode(t, v, Plain, Width(info))|, EncodeVersions(t, v, VersionsOf(t), Width(info)))
  {
    hide At, Encode, HasType, WellFormed, Total, Count, Collect, HasContainer, EncodeHead, EncodeVersions, SortedUnique, RuntimeInfo, Span;
    var info := RuntimeInfo(conf, t, v);
    var head, plain := EncodeHead(conf, t, info), Encode(t, v, Plain, Width(info));
    AtConcat(data, pos, head + plain, EncodeVersions(t, v, VersionsOf(t), Width(info)));
    AtConcat(data, pos, head, plain);
  }

  lemma {:induction false} TotalCodeFits(len: nat)
    requires len + WordWidth(TotalCode(len)) < TWO_64
    ensures len + WordWidth(TotalCode(len)) < Span(WordWidth(TotalCode(len)))
  {
    hide Span;
    SpanValues();
  }

  /** The field for the total length holds it although it counts itself. */
  lemma {:induction false} InfoShape(conf: Conf, t: Ty, v: Val)
    requires Legal(conf, t) && HasType(t, v) && Addressable(conf, t, v)
    ensures Announced(conf, t, RuntimeInfo(conf, t, v))
  {
    hide Total, Count, MaxLength, HasType, WellFormed, HasContainer, Span, TotalCode, HasMetainfo, LengthCode, WordWidth,
         HasCompatible;
    SpanValues();
    WidthChosen(conf, t, v);
    var info := RuntimeInfo(conf, t, v);
    if HasCompatible(t) {
      var len2 := info.len - WordWidth(info.lenCode);
      TotalCodeFits(len2);
    }
  }

  /** And it has the least of the widths 2, 4 and 8 that holds the length of everything, itself
      included. */
  lemma {:induction false} TotalFieldLeast(conf: Conf, t: Ty, v: Val)
    requires Legal(conf, t) && HasType(t, v) && HasCompatible(t) && RuntimeInfo(conf, t, v).len < TWO_64
    ensures var info := RuntimeInfo(conf, t, v);
            var rest := info.len - WordWidth(info.lenCode);
            && info.lenCode >= 1 && rest >= 0
            && forall code | 1 <= code <= 3 :: rest + WordWidth(code) < Span(WordWidth(code)) <==> info.lenCode <= code
  {
    hide Total, Count, MaxLength, HasType, WellFormed, HasContainer, Span, HasMetainfo, LengthCode, HasCompatible;
    SpanValues();
  }

  // ---- nothing superfluous in the head --------------------------------------------------------------

  /** A type has a container exactly if some value of it has a length to write. */
  lemma {:induction false} ContainerMeans(t: Ty)
    requires WellFormed(t)
    ensures HasContainer(t) <==> exists v :: HasType(t, v) && Count(t, v) > 0
  {
    hide HasContainer, HasType, WellFormed, Count;
    if HasContainer(t) {
      var v := WithContainer(t);
    } else {
      forall v | HasType(t, v) ensures Count(t, v) == 0 { NoContainer(t, v); }
    }
  }

  /** A value that holds a container. */
  lemma {:induction false} WithContainer(t: Ty) returns (v: Val)
    requires WellFormed(t) && HasContainer(t)
    ensures HasType(t, v) && Count(t, v) > 0
    decreases t, 0
  {
    hide CountElems, CountFields, Defaults, Collect;
    match t
    case Array(n, e) =>
      var x := WithContainer(e);
      v := Items([x] + Repeat(Default(e), n - 1));
      CountFirst(e, v.items);
    case Container(_, _) => v := Items([]);
    case Optional(e, _) => var x := WithContainer(e); v := Some(x);
    case Expected(a, e) =>
      if HasContainer(a) {
        var x := WithContainer(a);
        v := Alt(1, x);
      } else {
        var x := WithContainer(e);
        v := Alt(0, x);
      }
    case Variant(alts) =>
      var i :| 0 <= i < |alts| && HasContainer(alts[i]);
      var x := WithContainer(alts[i]);
      v := Alt(i, x);
    case Struct(_, fs) =>
      var i :| 0 <= i < |fs| && HasContainer(fs[i]);
      var x := WithContainer(fs[i]);
      v := Items(Defaults(fs)[i := x]);
      CountField(fs, v.items, i);
    case Compatible(_, e) => var x := WithContainer(e); v := Some(x);
  }

  lemma {:induction false} CountFirst(t: Ty, vs: seq<Val>)
    requires WellFormed(t) && AllHaveType(t, vs) && |vs| > 0
    ensures CountElems(t, vs) >= Count(t, vs[0])
  {
    hide HasType, WellFormed, Count;
  }

  lemma {:induction false} CountField(ts: seq<Ty>, vs: seq<Val>, i: nat)
    requires AllWellFormed(ts) && HasTypes(ts, vs) && i < |ts|
    ensures CountFields(ts, vs) >= Count(ts[i], vs[i])
    decreases i
  {
    hide HasType, WellFormed, Count;
    if i > 0 { CountField(ts[1..], vs[1..], i - 1); }
  }

  /** The bytes of the buffer: four of the hash, one of metainfo only when something calls for it, the
      total length only with compatible fields, the literal only when wanted, and the value. */
  lemma {:induction false} NothingSuperfluous(conf: Conf, t: Ty, v: Val)
    requires Legal(conf, t) && HasType(t, v)
    ensures var info := RuntimeInfo(conf, t, v);
            var called := || (exists n :: HasVersion(t, n))
                          || info.widthCode > 0
                          || (if conf.Head? then conf.addLiteral else exists u :: HasType(t, u) && Count(t, u) > 0);
            |Serialize(conf, t, v)|
            == (if conf.Head? then 4 else 0) + (if called then 1 else 0)
               + (if exists n :: HasVersion(t, n) then WordWidth(info.lenCode) else 0)
               + (if conf.Head? && conf.addLiteral then |conf.literal| + 1 else 0)
               + Cost(t, v, Width(info))
  {
    hide RuntimeInfo, Cost, HasType, WellFormed, HasContainer, Count, Serialize, HasVersion, HasCompatible, WordWidth, Width;
    AnnouncedSizeExact(conf, t, v);
    InfoLength(conf, t, v);
    ContainerMeans(t);
    CompatibleMeans(t);
  }

  lemma {:induction false} CompatibleMeans(t: Ty)
    ensures HasCompatible(t) <==> exists n :: HasVersion(t, n)
  {
    hide HasVersion, Collect;
    if HasCompatible(t) {
      CollectFindsVersions(t, Collect(t)[0]);
    }
    forall n: nat ensures HasVersion(t, n) ==> HasCompatible(t) { CollectFindsVersions(t, n); }
  }

  // ---- the parts of a buffer ------------------------------------------------------------------------

  /** The reader's surroundings once the head of v has been read. */
  function ContextOf(conf: Conf, t: Ty, v: Val, data: bytes, pos: nat): Context
    requires WellFormed(t) && HasType(t, v)
  {
    var info := RuntimeInfo(conf, t, v);
    Context(data, Width(info), pos + (if HasCompatible(t) then info.len else 0))
  }

  ghost predicate PassesAt(t: Ty, v: Val, c: Context, pos: nat)
    requires Typed(t, v)
  {
    if HasCompatible(t) then BodyAt(t, v, VersionsOf(t), c, pos) else At(c.data, pos, Encode(t, v, Plain, c.w))
  }

  lemma {:induction false} PassesStand(conf: Conf, t: Ty, v: Val, data: bytes, pos: nat)
    requires Legal(conf, t) && HasType(t, v) && At(data, pos, Serialize(conf, t, v))
    ensures PassesAt(t, v, ContextOf(conf, t, v, data, pos), pos + |EncodeHead(conf, t, RuntimeInfo(conf, t, v))|)
  {
    hide At, Encode, HasType, WellFormed, HasCompatible, EncodeHead, EncodeVersions, RuntimeInfo, VersionsOf, WordWidth;
    PartsAt(conf, t, v, data, pos);
    AnnouncedSizeExact(conf, t, v);
  }

  lemma {:induction false} HeadReads(conf: Conf, t: Ty, v: Val, data: bytes, pos: nat)
    requires Legal(conf, t) && HasType(t, v) && Addressable(conf, t, v)
    requires At(data, pos, EncodeHead(conf, t, RuntimeInfo(conf, t, v)))
    ensures var h := DecodeHead(conf, t, data, pos);
            && h.code == Ok && h.pos == pos + |EncodeHead(conf, t, RuntimeInfo(conf, t, v))|
            && Context(data, WordWidth(h.widthCode), pos + h.bufferLen) == ContextOf(conf, t, v, data, pos)
  {
    hide At, HasType, WellFormed, HasCompatible, HasContainer, DecodeHead, EncodeHead, RuntimeInfo, Announced, WordWidth;
    InfoShape(conf, t, v);
    HeadRoundTrip(conf, t, RuntimeInfo(conf, t, v), t, data, pos);
  }

  lemma {:induction false} HeadThenBody(conf: Conf, t: Ty, data: bytes, pos: nat)
    requires WellFormed(t) && pos <= |data|
    ensures var h := DecodeHead(conf, t, data, pos);
            Deserialize(conf, t, Default(t), data, pos)
            == if h.code != Ok then Result(h.code, Default(t), h.pos)
               else DecodeBody(t, Default(t), Context(data, WordWidth(h.widthCode), pos + h.bufferLen), h.pos)
  {
    hide DecodeHead, DecodeBody, WellFormed, Default, WordWidth;
  }

  /** What Serialize writes, Deserialize reads back into a fresh object, completely and no
      further, whatever stands before and behind it in the buffer: exactly the recoverable values. */
  lemma {:induction false} SerializeRoundTrip(conf: Conf, t: Ty, v: Val, data: bytes, pos: nat)
    requires Legal(conf, t) && HasType(t, v) && Addressable(conf, t, v)
    requires At(data, pos, Serialize(conf, t, v))
    ensures var r := Deserialize(conf, t, Default(t), data, pos);
            if Recoverable(t, v) then r == Result(Ok, v, pos + |Serialize(conf, t, v)|) else r.code != Ok || r.item != v
  {
    hide At, Encode, HasType, WellFormed, Default, HasCompatible, DecodeHead, EncodeHead, EncodeVersions, DecodeBody,
         RuntimeInfo, Fits, WordWidth, VersionsOf, PassesAt, MaxLength, Recoverable, Deserialize;
    PartsAt(conf, t, v, data, pos);
    HeadReads(conf, t, v, data, pos);
    HeadThenBody(conf, t, data, pos);
    PassesStand(conf, t, v, data, pos);
    WidthFits(conf, t, v);
    BodyRoundTrip(t, v, ContextOf(conf, t, v, data, pos), pos + |EncodeHead(conf, t, RuntimeInfo(conf, t, v))|);
  }

  /** Without keyed containers whose entries remember what they held, every value comes back. */
  lemma {:induction false} SafeRoundTrip(conf: Conf, t: Ty, v: Val, data: bytes, pos: nat)
    requires Legal(conf, t) && HasType(t, v) && Addressable(conf, t, v) && Safe(t)
    requires At(data, pos, Serialize(conf, t, v))
    ensures Deserialize(conf, t, Default(t), data, pos) == Result(Ok, v, pos + |Serialize(conf, t, v)|)
  {
    hide At, HasType, WellFormed, Default, Serialize, Deserialize, Addressable, Safe, Recoverable, HasCompatible;
    SafeRecoverable(t, v);
    SerializeRoundTrip(conf, t, v, data, pos);
  }

  lemma {:induction false} NoVersions(t: Ty, v: Val, w: nat)
    requires Typed(t, v) && !HasCompatible(t)
    ensures VersionsOf(t) == [] && EncodeVersions(t, v, VersionsOf(t), w) == []
    ensures forall n :: !HasVersion(t, n)
  {
    forall n ensures !HasVersion(t, n) { CollectFindsVersions(t, n); }
  }
}
