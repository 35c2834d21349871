/** Each pass reads back what the same pass wrote. */
module RoundTrip {
  import opened Bytes
  import opened Leb128
  import opened Status
  import opened Schema
  import opened FastVarint
  import opened Encoding
  import opened Decoding
  import opened Restoring

  /** Every container length of v fits the width in use. */
  predicate Fits(t: Ty, v: Val, w: nat)
    requires WellFormed(t) && HasType(t, v)
  {
    MaxLength(t, v) < Span(w)
  }

  // ---- the plain pass ------------------------------------------------------------------------

  /** What is to be shown of a read: code and tag, the cursor at `end` unless an exception was
      thrown, and that the item is the exact one if and only if nothing of what it was shows. */
  predicate Reads(code: Code, missing: bool, pos: nat, end: nat, throws: bool, bare: bool, covers: bool, exact: bool, plain: bool) {
    && (code == Ok || (code == BadAccess && throws)) && !missing && (code == Ok ==> pos == end)
    && (bare ==> if covers then code == Ok && exact else code == BadAccess || !plain)
  }

  ghost predicate PlainReads(t: Ty, was: Val, v: Val, c: Context, pos: nat)
    requires Typed(t, v) && HasType(t, was) && pos <= |c.data|
  {
    var o := Decode(t, was, Plain, c, pos);
    Reads(o.code, o.missing, o.pos, pos + |Encode(t, v, Plain, c.w)|, HasExpected(t), Bare(t, was), Covers(t, was, v),
          o.item == Known(t, v, {}), Known(t, o.item, {}) == Known(t, v, {}))
  }

  /** Into any object: the cursor ends behind the bytes of v, and the object is v without its
      compatible fields exactly if v covers what the object was. */
  lemma {:induction false} PlainInto(t: Ty, was: Val, v: Val, c: Context, pos: nat)
    requires Typed(t, v) && HasType(t, was) && Fits(t, v, c.w)
    requires At(c.data, pos, Encode(t, v, Plain, c.w))
    ensures PlainReads(t, was, v, c, pos)
    decreases t, 0
  {
    hide At, DecodeElems, DecodeNew, DecodeFields, DecodeContainer, DecodeOptional, DecodeExpected, DecodeVariant,
         DecodeStruct, EncodeElems, EncodeFields, KnownElems, KnownFields, MaxLengthElems, MaxLengthFields, EncodeBlock,
         HasVersion, Default, Collect, EncodeVar, Span, AllCover, Chain, FieldsCover, DecodeVar;
    match t
    case Fixed(_) => FixedInto(t, was, v, c, pos);
    case Var(k) => VarRoundTrip(k, was, v, c, pos);
    case Array(_, e) => PlainArray(e, was.items, v.items, c, pos);
    case Container(shape, e) => PlainContainer(shape, e, was, v, c, pos);
    case Optional(e, _) => PlainOptional(e, was, v, c, pos);
    case Expected(a, e) => PlainExpected(a, e, was, v, c, pos);
    case Variant(alts) => PlainVariant(alts, was, v, c, pos);
    case Struct(fast, fs) => PlainStruct(fast, fs, was, v, c, pos);
    case Compatible(_, _) =>
  }

  lemma {:induction false} FixedInto(t: Ty, was: Val, v: Val, c: Context, pos: nat)
    requires Typed(t, v) && t.Fixed? && HasType(t, was) && At(c.data, pos, v.bytes)
    ensures Decode(t, was, Plain, c, pos) == Outcome(Ok, v, pos + |v.bytes|, false)
  {
  }

  lemma {:induction false} VarRoundTrip(k: VarKind, was: Val, v: Val, c: Context, pos: nat)
    requires HasType(Var(k), was) && HasType(Var(k), v) && At(c.data, pos, EncodeVar(k, v.n))
    ensures DecodeVar(k, was, c, pos) == Outcome(Ok, v, pos + |EncodeVar(k, v.n)|, false)
  {
    hide Leb, ScanLeb, EncodeZigZag, DecodeZigZag, Span, VarKind.Wire, VarKind.Unwire;
    WireRoundTrip(k, v.n);
    Pow128Ten();
    LebFits(k.Wire(v.n), MAX_VARINT_LENGTH);
    ScanOfLeb(c.data, pos, k.Wire(v.n), MAX_VARINT_LENGTH);
  }

  // -- elements that are there

  ghost predicate ArrayReads(e: Ty, was: seq<Val>, vs: seq<Val>, c: Context, pos: nat)
    requires WellFormed(e) && AllHaveType(e, was) && AllHaveType(e, vs) && |was| == |vs| && pos <= |c.data|
  {
    var o := DecodeElems(e, was, Plain, c, pos);
    Reads(o.code, o.missing, o.pos, pos + |EncodeElems(e, vs, Plain, c.w)|, HasExpected(e), KnownElems(e, was, {}) == was,
          AllCover(e, was, vs), o.items == KnownElems(e, vs, {}), KnownElems(e, o.items, {}) == KnownElems(e, vs, {}))
  }

  lemma {:induction false} PlainArray(e: Ty, was: seq<Val>, vs: seq<Val>, c: Context, pos: nat)
    requires WellFormed(e) && AllHaveType(e, was) && AllHaveType(e, vs) && |was| == |vs| && MaxLengthElems(e, vs) < Span(c.w)
    requires At(c.data, pos, EncodeElems(e, vs, Plain, c.w))
    ensures ArrayReads(e, was, vs, c, pos)
    decreases e, 1, |vs|
  {
    hide At, Decode, Encode, MaxLength, Known, HasType, WellFormed, EncodeElems, MaxLengthElems, KnownElems, Span,
         ArrayReads, PlainReads, HasExpected;
    ElemsBegin(e, vs, c.w);
    if |vs| == 0 {
      NoArray(e, was, vs, c, pos);
    } else {
      var first := Encode(e, vs[0], Plain, c.w);
      AtConcat(c.data, pos, first, EncodeElems(e, vs[1..], Plain, c.w));
      PlainInto(e, was[0], vs[0], c, pos);
      if Decode(e, was[0], Plain, c, pos).code == Ok {
        PlainPos(e, was[0], vs[0], c, pos);
        PlainArray(e, was[1..], vs[1..], c, pos + |first|);
      }
      ArrayStep(e, was, vs, c, pos);
    }
  }

  lemma {:induction false} PlainPos(t: Ty, was: Val, v: Val, c: Context, pos: nat)
    requires Typed(t, v) && HasType(t, was) && pos <= |c.data| && PlainReads(t, was, v, c, pos)
    ensures var o := Decode(t, was, Plain, c, pos);
            (o.code == Ok || (o.code == BadAccess && HasExpected(t))) && (o.code == Ok ==> o.pos == pos + |Encode(t, v, Plain, c.w)|)
  {
    hide Decode, Encode, Known, HasType, WellFormed, Covers, HasExpected;
  }

  lemma {:induction false} NoArray(e: Ty, was: seq<Val>, vs: seq<Val>, c: Context, pos: nat)
    requires WellFormed(e) && AllHaveType(e, was) && AllHaveType(e, vs) && |was| == |vs| == 0 && pos <= |c.data|
    ensures ArrayReads(e, was, vs, c, pos)
  {
    hide Decode, Encode, Known, HasType, WellFormed, HasExpected;
  }

  lemma {:induction false} SameCons(a: Val, x: seq<Val>, b: Val, y: seq<Val>)
    ensures [a] + x == [b] + y <==> a == b && x == y
  {
    assert ([a] + x)[0] == a && ([a] + x)[1..] == x;
    assert ([b] + y)[0] == b && ([b] + y)[1..] == y;
  }

  lemma {:induction false} DecodeElemsFirst(t: Ty, items: seq<Val>, pass: Pass, c: Context, pos: nat)
    requires WellFormed(t) && AllHaveType(t, items) && |items| > 0 && pos <= |c.data|
    ensures var h := Decode(t, items[0], pass, c, pos);
            var o := DecodeElems(t, items, pass, c, pos);
            if h.code != Ok then o == Outcomes(h.code, [h.item] + items[1..], h.pos, h.missing)
            else
              var r := DecodeElems(t, items[1..], pass, c, h.pos);
              o == Outcomes(r.code, [h.item] + r.items, r.pos, h.missing || r.missing) && o.items[1..] == r.items
  {
    hide Decode, HasType, WellFormed;
  }

  lemma {:induction false} ArrayStep(e: Ty, was: seq<Val>, vs: seq<Val>, c: Context, pos: nat)
    requires WellFormed(e) && AllHaveType(e, was) && AllHaveType(e, vs) && |was| == |vs| > 0 && pos <= |c.data|
    requires PlainReads(e, was[0], vs[0], c, pos)
    requires var h := Decode(e, was[0], Plain, c, pos); h.code == Ok ==> ArrayReads(e, was[1..], vs[1..], c, h.pos)
    ensures ArrayReads(e, was, vs, c, pos)
  {
    hide Decode, Encode, Known, HasType, WellFormed, Covers, HasExpected, DecodeElems, EncodeElems, KnownElems;
    ElemsBegin(e, vs, c.w);
    KnownFirst(e, was, {});
    SameCons(Known(e, was[0], {}), KnownElems(e, was[1..], {}), was[0], was[1..]);
    assert was == [was[0]] + was[1..];
    DecodeElemsFirst(e, was, Plain, c, pos);
    var h := Decode(e, was[0], Plain, c, pos);
    if h.code == Ok {
      var r := DecodeElems(e, was[1..], Plain, c, h.pos);
      KnownFirst(e, DecodeElems(e, was, Plain, c, pos).items, {});
      SameCons(h.item, r.items, Known(e, vs[0], {}), KnownElems(e, vs[1..], {}));
      SameCons(Known(e, h.item, {}), KnownElems(e, r.items, {}), Known(e, vs[0], {}), KnownElems(e, vs[1..], {}));
    }
  }

  lemma {:induction false} KnownFirst(e: Ty, vs: seq<Val>, s: set<nat>)
    requires AllHaveType(e, vs) && |vs| > 0
    ensures KnownElems(e, vs, s) == [Known(e, vs[0], s)] + KnownElems(e, vs[1..], s)
  {
    hide Known, HasType;
  }

  lemma {:induction false} ElemsBegin(e: Ty, vs: seq<Val>, w: nat)
    requires WellFormed(e) && AllHaveType(e, vs)
    ensures |vs| == 0 ==> EncodeElems(e, vs, Plain, w) == [] && KnownElems(e, vs, {}) == []
    ensures |vs| > 0 ==> EncodeElems(e, vs, Plain, w) == Encode(e, vs[0], Plain, w) + EncodeElems(e, vs[1..], Plain, w)
    ensures |vs| > 0 ==> KnownElems(e, vs, {}) == [Known(e, vs[0], {})] + KnownElems(e, vs[1..], {})
    ensures |vs| > 0 ==> MaxLengthElems(e, vs) >= MaxLength(e, vs[0]) && MaxLengthElems(e, vs) >= MaxLengthElems(e, vs[1..])
  {
    hide Encode, MaxLength, Known, HasType, WellFormed;
  }

  // -- new elements

  ghost predicate NewReads(shape: Shape, e: Ty, was: Val, vs: seq<Val>, c: Context, pos: nat)
    requires WellFormed(e) && HasType(e, was) && AllHaveType(e, vs) && pos <= |c.data|
  {
    var o := DecodeNew(shape, e, was, |vs|, c, pos);
    Reads(o.code, o.missing, o.pos, pos + |EncodeElems(e, vs, Plain, c.w)|, HasExpected(e), Bare(e, was),
          Chain(shape, e, was, vs), o.items == KnownElems(e, vs, {}), KnownElems(e, o.items, {}) == KnownElems(e, vs, {}))
  }

  lemma {:induction false} PlainNew(shape: Shape, e: Ty, was: Val, vs: seq<Val>, c: Context, pos: nat)
    requires WellFormed(e) && HasType(e, was) && AllHaveType(e, vs) && MaxLengthElems(e, vs) < Span(c.w)
    requires At(c.data, pos, EncodeElems(e, vs, Plain, c.w))
    ensures NewReads(shape, e, was, vs, c, pos)
    decreases e, 1, |vs|
  {
    hide At, Decode, EncodeElems, KnownElems, MaxLengthElems, Encode, MaxLength, Known, HasType, WellFormed, Span,
         NewReads, PlainReads, HasExpected, Next;
    ElemsBegin(e, vs, c.w);
    if |vs| == 0 {
      NoneNew(shape, e, was, vs, c, pos);
    } else {
      var first := Encode(e, vs[0], Plain, c.w);
      AtConcat(c.data, pos, first, EncodeElems(e, vs[1..], Plain, c.w));
      PlainInto(e, was, vs[0], c, pos);
      var h := Decode(e, was, Plain, c, pos);
      if h.code == Ok {
        PlainPos(e, was, vs[0], c, pos);
        PlainNew(shape, e, Next(shape, e, h.item), vs[1..], c, pos + |first|);
      }
      NewStep(shape, e, was, vs, c, pos);
    }
  }

  lemma {:induction false} NoneNew(shape: Shape, e: Ty, was: Val, vs: seq<Val>, c: Context, pos: nat)
    requires WellFormed(e) && HasType(e, was) && AllHaveType(e, vs) && |vs| == 0 && pos <= |c.data|
    ensures NewReads(shape, e, was, vs, c, pos)
  {
    hide Decode, Encode, Known, HasType, WellFormed, HasExpected, Next;
  }

  lemma {:induction false} DecodeNewFirst(shape: Shape, t: Ty, item: Val, n: nat, c: Context, pos: nat)
    requires WellFormed(t) && HasType(t, item) && n > 0 && pos <= |c.data|
    ensures var h := Decode(t, item, Plain, c, pos);
            var o := DecodeNew(shape, t, item, n, c, pos);
            if h.code != Ok then o == Outcomes(h.code, if shape.Keyed? then [] else [h.item], h.pos, h.missing)
            else
              var r := DecodeNew(shape, t, Next(shape, t, h.item), n - 1, c, h.pos);
              o == Outcomes(r.code, [h.item] + r.items, r.pos, h.missing || r.missing) && o.items[1..] == r.items
  {
    hide Decode, HasType, WellFormed, Next;
  }

  lemma {:induction false} NewStep(shape: Shape, e: Ty, was: Val, vs: seq<Val>, c: Context, pos: nat)
    requires WellFormed(e) && HasType(e, was) && AllHaveType(e, vs) && |vs| > 0 && pos <= |c.data|
    requires PlainReads(e, was, vs[0], c, pos)
    requires var h := Decode(e, was, Plain, c, pos); h.code == Ok ==> NewReads(shape, e, Next(shape, e, h.item), vs[1..], c, h.pos)
    ensures NewReads(shape, e, was, vs, c, pos)
  {
    hide Decode, Encode, Known, HasType, WellFormed, Covers, HasExpected, Next, Bare, DecodeNew, EncodeElems, KnownElems;
    ElemsBegin(e, vs, c.w);
    DecodeNewFirst(shape, e, was, |vs|, c, pos);
    KnownBare(e, vs[0]);
    NextBare(shape, e, Known(e, vs[0], {}));
    var h := Decode(e, was, Plain, c, pos);
    if h.code == Ok {
      var r := DecodeNew(shape, e, Next(shape, e, h.item), |vs| - 1, c, h.pos);
      KnownFirst(e, DecodeNew(shape, e, was, |vs|, c, pos).items, {});
      SameCons(h.item, r.items, Known(e, vs[0], {}), KnownElems(e, vs[1..], {}));
      SameCons(Known(e, h.item, {}), KnownElems(e, r.items, {}), Known(e, vs[0], {}), KnownElems(e, vs[1..], {}));
    }
  }

  ghost predicate ContainerReads(shape: Shape, e: Ty, was: Val, v: Val, c: Context, pos: nat)
    requires Typed(Container(shape, e), v) && HasType(Container(shape, e), was) && pos <= |c.data|
  {
    var o := DecodeContainer(shape, e, was, c, pos);
    Reads(o.code, o.missing, o.pos, pos + |Encode(Container(shape, e), v, Plain, c.w)|, HasExpected(e),
          Bare(Container(shape, e), was), Covers(Container(shape, e), was, v),
          o.item == Known(Container(shape, e), v, {}), Known(Container(shape, e), o.item, {}) == Known(Container(shape, e), v, {}))
  }

  lemma {:induction false} PlainContainer(shape: Shape, e: Ty, was: Val, v: Val, c: Context, pos: nat)
    requires Typed(Container(shape, e), v) && HasType(Container(shape, e), was) && Fits(Container(shape, e), v, c.w)
    requires At(c.data, pos, Encode(Container(shape, e), v, Plain, c.w))
    ensures ContainerReads(shape, e, was, v, c, pos)
    decreases e, 4
  {
    hide Decode, DecodeNew, MaxLengthElems, LE, FromLE, Span, NewReads, Chain, EncodeElems, Default, Next, HasExpected;
    var body := EncodeElems(e, v.items, Plain, c.w);
    AtConcat(c.data, pos, LE(c.w, |v.items|), body);
    LERoundTrip(c.w, |v.items|);
    if e.Fixed? { BulkBytes(e, v.items, c.w); }
    PlainNew(shape, e, Default(e), v.items, c, pos + c.w);
    DefaultBare(e);
    ContainerStep(shape, e, was, v, c, pos);
  }

  lemma {:induction false} ContainerStep(shape: Shape, e: Ty, was: Val, v: Val, c: Context, pos: nat)
    requires Typed(Container(shape, e), v) && HasType(Container(shape, e), was) && pos + c.w <= |c.data|
    requires FromLE(c.data[pos..pos + c.w]) == |v.items| && Bare(e, Default(e))
    requires e.Fixed? ==> pos + c.w + |v.items| * e.width <= |c.data|
    requires NewReads(shape, e, Default(e), v.items, c, pos + c.w)
    ensures ContainerReads(shape, e, was, v, c, pos)
  {
    hide Decode, DecodeNew, LE, FromLE, Chain, Default, Next, HasExpected, Covers, Known, Encode, EncodeElems, KnownElems, Bare,
         Collect;
    var t := Container(shape, e);
    ContainerCovers(shape, e, was, v, c.w);
    ItemsKnown(t, v, {});
    ItemsKnown(t, DecodeContainer(shape, e, was, c, pos).item, {});
    if |v.items| == 0 { NoElems(e, v.items, c.w); }
  }

  lemma {:induction false} ContainerCovers(shape: Shape, e: Ty, was: Val, v: Val, w: nat)
    requires Typed(Container(shape, e), v) && HasType(Container(shape, e), was)
    ensures Covers(Container(shape, e), was, v) == ((|v.items| == 0 ==> |was.items| == 0) && Chain(shape, e, Default(e), v.items))
    ensures |v.items| == 0 ==> Chain(shape, e, Default(e), v.items)
    ensures |Encode(Container(shape, e), v, Plain, w)| == w + |EncodeElems(e, v.items, Plain, w)|
    ensures |was.items| == 0 ==> was == Items([])
  {
    hide EncodeElems, LE;
  }

  lemma {:induction false} NoElems(e: Ty, vs: seq<Val>, w: nat)
    requires WellFormed(e) && AllHaveType(e, vs) && |vs| == 0
    ensures EncodeElems(e, vs, Plain, w) == [] && KnownElems(e, vs, {}) == []
  {
  }

  lemma {:induction false} BulkBytes(e: Ty, vs: seq<Val>, w: nat)
    requires e.Fixed? && AllHaveType(e, vs)
    ensures |EncodeElems(e, vs, Plain, w)| == |vs| * e.width
  {
    if |vs| > 0 {
      BulkBytes(e, vs[1..], w);
      OneMore(|vs[1..]|, e.width);
    }
  }

  // -- optional, expected, variant

  ghost predicate OptionalReads(e: Ty, was: Val, v: Val, c: Context, pos: nat)
    requires Typed(Optional(e), v) && HasType(Optional(e), was) && pos <= |c.data|
  {
    var o := DecodeOptional(e, was, Plain, c, pos);
    Reads(o.code, o.missing, o.pos, pos + 1 + (if v.Some? then |Encode(e, v.value, Plain, c.w)| else 0), HasExpected(e),
          Bare(Optional(e), was), if v.Null? then was.Null? else Restorable(e, v.value),
          o.item == Known(Optional(e), v, {}), Known(Optional(e), o.item, {}) == Known(Optional(e), v, {}))
  }

  lemma {:induction false} OptionalParts(e: Ty, v: Val, w: nat)
    requires Typed(Optional(e), v)
    ensures WellFormed(e) && (v.Null? || (v.Some? && HasType(e, v.value)))
    ensures v.Some? && Fits(Optional(e), v, w) ==> Fits(e, v.value, w)
    ensures Known(Optional(e), v, {}) == (if v.Null? then Null else Some(Known(e, v.value, {})))
  {
    hide Collect, HasVersion, Span;
  }

  lemma {:induction false} PlainOptional(e: Ty, was: Val, v: Val, c: Context, pos: nat)
    requires Typed(Optional(e), v) && HasType(Optional(e), was) && Fits(Optional(e), v, c.w)
    requires At(c.data, pos, [if v.Some? then 1 else 0] + (if v.Some? then Encode(e, v.value, Plain, c.w) else []))
    ensures OptionalReads(e, was, v, c, pos)
    decreases e, 4
  {
    hide Decode, Encode, MaxLength, Default, HasType, Covers, HasExpected, Span, Collect;
    OptionalParts(e, v, c.w);
    var flag: byte := if v.Some? then 1 else 0;
    AtConcat(c.data, pos, [flag], if v.Some? then Encode(e, v.value, Plain, c.w) else []);
    assert c.data[pos] == c.data[pos..pos + 1][0];
    if v.Some? {
      PlainInto(e, Default(e), v.value, c, pos + 1);
      DefaultBare(e);
    }
  }

  ghost predicate ExpectedReads(a: Ty, e: Ty, was: Val, v: Val, c: Context, pos: nat)
    requires Typed(Expected(a, e), v) && HasType(Expected(a, e), was) && pos <= |c.data|
    requires Typed(if v.index == 1 then a else e, v.value)
  {
    var o := DecodeExpected(a, e, was, Plain, c, pos);
    Reads(o.code, o.missing, o.pos, pos + 1 + |Encode(if v.index == 1 then a else e, v.value, Plain, c.w)|, true,
          Bare(Expected(a, e), was), Covers(Expected(a, e), was, v),
          o.item == Known(Expected(a, e), v, {}), Known(Expected(a, e), o.item, {}) == Known(Expected(a, e), v, {}))
  }

  lemma {:induction false} ExpectedParts(a: Ty, e: Ty, v: Val, w: nat)
    requires Typed(Expected(a, e), v)
    ensures v.Alt? && v.index < 2 && Typed(if v.index == 1 then a else e, v.value)
    ensures Fits(Expected(a, e), v, w) ==> Fits(if v.index == 1 then a else e, v.value, w)
    ensures Known(Expected(a, e), v, {}) == Alt(v.index, Known(if v.index == 1 then a else e, v.value, {}))
  {
    hide Collect, HasVersion, Span;
  }

  lemma {:induction false} PlainExpected(a: Ty, e: Ty, was: Val, v: Val, c: Context, pos: nat)
    requires Typed(Expected(a, e), v) && HasType(Expected(a, e), was) && Fits(Expected(a, e), v, c.w)
    requires At(c.data, pos, [v.index] + Encode(if v.index == 1 then a else e, v.value, Plain, c.w))
    ensures ExpectedReads(a, e, was, v, c, pos)
    decreases Expected(a, e), -1
  {
    hide Decode, Encode, MaxLength, Default, HasExpected, Span, Collect;
    ExpectedParts(a, e, v, c.w);
    AtConcat(c.data, pos, [v.index], Encode(if v.index == 1 then a else e, v.value, Plain, c.w));
    assert c.data[pos] == c.data[pos..pos + 1][0];
    if v.index == 0 {
      PlainInto(e, Default(e), v.value, c, pos + 1);
      DefaultBare(e);
    } else if was.index == 1 {
      PlainInto(a, was.value, v.value, c, pos + 1);
    }
  }

  ghost predicate VariantReads(alts: seq<Ty>, was: Val, v: Val, c: Context, pos: nat)
    requires Typed(Variant(alts), v) && HasType(Variant(alts), was) && pos <= |c.data|
  {
    var o := DecodeVariant(alts, was, Plain, c, pos);
    Reads(o.code, o.missing, o.pos, pos + |Encode(Variant(alts), v, Plain, c.w)|, AnyExpected(alts),
          Bare(Variant(alts), was), Restorable(alts[v.index], v.value),
          o.item == Known(Variant(alts), v, {}), Known(Variant(alts), o.item, {}) == Known(Variant(alts), v, {}))
  }

  lemma {:induction false} PlainVariant(alts: seq<Ty>, was: Val, v: Val, c: Context, pos: nat)
    requires Typed(Variant(alts), v) && HasType(Variant(alts), was) && Fits(Variant(alts), v, c.w)
    requires At(c.data, pos, Encode(Variant(alts), v, Plain, c.w))
    ensures VariantReads(alts, was, v, c, pos)
    decreases alts, 4
  {
    hide Decode, EncodeElems, EncodeFields, KnownElems, KnownFields, MaxLengthElems, MaxLengthFields, EncodeBlock, Collect,
         Default, HasVersion, Covers, HasExpected, Span;
    AtConcat(c.data, pos, [v.index], Encode(alts[v.index], v.value, Plain, c.w));
    PlainInto(alts[v.index], Default(alts[v.index]), v.value, c, pos + 1);
    DefaultBare(alts[v.index]);
    assert c.data[pos] == c.data[pos..pos + 1][0];
  }

  // -- structs

  /** The object that the fields behind the block are read into. */
  function Start(skipVars: bool, ts: seq<Ty>, was: seq<Val>, vs: seq<Val>): (r: seq<Val>)
    requires HasTypes(ts, was) && HasTypes(ts, vs)
    ensures HasTypes(ts, r)
  {
    if skipVars then Overlay(ts, vs, was) else was
  }

  lemma {:induction false} VarCountPositive(ts: seq<Ty>, i: nat)
    requires i < |ts| && ts[i].Var?
    ensures VarCount(ts) > 0
  {
    if i > 0 { VarCountPositive(ts[1..], i - 1); }
  }

  ghost predicate FieldsReads(skip: bool, ts: seq<Ty>, was: seq<Val>, vs: seq<Val>, c: Context, pos: nat)
    requires AllWellFormed(ts) && HasTypes(ts, was) && HasTypes(ts, vs) && pos <= |c.data|
  {
    var o := DecodeFields(skip, ts, Start(skip, ts, was, vs), Plain, c, pos);
    Reads(o.code, o.missing, o.pos, pos + |EncodeFields(skip, ts, vs, Plain, c.w)|, AnyExpected(ts),
          KnownFields(ts, was, {}) == was, FieldsCover(skip, ts, was, vs),
          o.items == KnownFields(ts, vs, {}), KnownFields(ts, o.items, {}) == KnownFields(ts, vs, {}))
  }

  lemma {:induction false} StructParts(fast: bool, fs: seq<Ty>, v: Val, w: nat)
    requires Typed(Struct(fast, fs), v)
    ensures AllWellFormed(fs) && (fast ==> exists i | 0 <= i < |fs| :: fs[i].Var?)
    ensures v.Items? && HasTypes(fs, v.items)
    ensures Fits(Struct(fast, fs), v, w) ==> MaxLengthFields(fs, v.items) < Span(w)
    ensures Known(Struct(fast, fs), v, {}) == Items(KnownFields(fs, v.items, {}))
    ensures Encode(Struct(fast, fs), v, Plain, w)
            == (if fast then EncodeBlock(fs, v.items) else []) + EncodeFields(fast, fs, v.items, Plain, w)
    ensures HasType(Struct(fast, fs), Items(Defaults(fs)))
  {
    hide EncodeFields, KnownFields, MaxLengthFields, EncodeBlock, Collect, HasVersion, Span;
  }

  ghost predicate StructReads(fast: bool, fs: seq<Ty>, was: Val, v: Val, c: Context, pos: nat)
    requires Typed(Struct(fast, fs), v) && HasType(Struct(fast, fs), was) && pos <= |c.data|
    requires AllWellFormed(fs) && HasTypes(fs, was.items) && HasTypes(fs, v.items)
  {
    var o := DecodeStruct(fast, fs, was, Plain, c, pos);
    Reads(o.code, o.missing, o.pos, pos + |Encode(Struct(fast, fs), v, Plain, c.w)|, AnyExpected(fs),
          Bare(Struct(fast, fs), was), FieldsCover(fast, fs, was.items, v.items),
          o.item == Known(Struct(fast, fs), v, {}), Known(Struct(fast, fs), o.item, {}) == Known(Struct(fast, fs), v, {}))
  }

  lemma {:induction false} PlainStruct(fast: bool, fs: seq<Ty>, was: Val, v: Val, c: Context, pos: nat)
    requires Typed(Struct(fast, fs), v) && HasType(Struct(fast, fs), was) && Fits(Struct(fast, fs), v, c.w)
    requires At(c.data, pos, Encode(Struct(fast, fs), v, Plain, c.w))
    ensures AllWellFormed(fs) && HasTypes(fs, was.items) && HasTypes(fs, v.items)
    ensures StructReads(fast, fs, was, v, c, pos)
    decreases fs, 4
  {
    hide At, Encode, MaxLength, HasType, WellFormed, DecodeFields, EncodeFields, KnownFields, MaxLengthFields, EncodeBlock,
         Defaults, Collect, ReadBlock, Overlay, VarCount, Span, FieldsCover, Known, AnyExpected;
    StructParts(fast, fs, v, c.w);
    StructParts(fast, fs, was, c.w);
    var body := EncodeFields(fast, fs, v.items, Plain, c.w);
    if fast {
      var i :| 0 <= i < |fs| && fs[i].Var?;
      VarCountPositive(fs, i);
      AtConcat(c.data, pos, EncodeBlock(fs, v.items), body);
      BlockRoundTrip(fs, v.items, was.items, c.data, pos);
      PlainFields(true, fs, was.items, v.items, c, pos + |EncodeBlock(fs, v.items)|);
    } else {
      assert Encode(Struct(fast, fs), v, Plain, c.w) == body;
      PlainFields(false, fs, was.items, v.items, c, pos);
    }
    StructKnown(fast, fs, DecodeStruct(fast, fs, was, Plain, c, pos).item);
  }

  lemma {:induction false} StructKnown(fast: bool, fs: seq<Ty>, v: Val)
    requires HasType(Struct(fast, fs), v)
    ensures v.Items? && HasTypes(fs, v.items) && Known(Struct(fast, fs), v, {}) == Items(KnownFields(fs, v.items, {}))
  {
    hide KnownFields;
  }

  lemma {:induction false} PlainFields(skip: bool, ts: seq<Ty>, was: seq<Val>, vs: seq<Val>, c: Context, pos: nat)
    requires AllWellFormed(ts) && HasTypes(ts, was) && HasTypes(ts, vs) && MaxLengthFields(ts, vs) < Span(c.w)
    requires At(c.data, pos, EncodeFields(skip, ts, vs, Plain, c.w))
    ensures FieldsReads(skip, ts, was, vs, c, pos)
    decreases ts, 1
  {
    hide At, Decode, Encode, MaxLength, Known, HasType, WellFormed, EncodeFields, MaxLengthFields, KnownFields, Span,
         FieldsReads, PlainReads, HasExpected, Overlay;
    if |ts| == 0 {
      NoFields(skip, ts, was, vs, c, pos);
    } else {
      FieldsBegin(skip, ts, vs, c.w);
      var first := if skip && ts[0].Var? then [] else Encode(ts[0], vs[0], Plain, c.w);
      AtConcat(c.data, pos, first, EncodeFields(skip, ts[1..], vs[1..], Plain, c.w));
      if skip && ts[0].Var? {
        PlainFields(skip, ts[1..], was[1..], vs[1..], c, pos);
        FieldsVarStep(ts, was, vs, c, pos);
      } else {
        PlainInto(ts[0], was[0], vs[0], c, pos);
        if Decode(ts[0], was[0], Plain, c, pos).code == Ok {
          PlainPos(ts[0], was[0], vs[0], c, pos);
          PlainFields(skip, ts[1..], was[1..], vs[1..], c, pos + |first|);
        }
        FieldsStep(skip, ts, was, vs, c, pos);
      }
    }
  }

  lemma {:induction false} FieldsBegin(skip: bool, ts: seq<Ty>, vs: seq<Val>, w: nat)
    requires AllWellFormed(ts) && HasTypes(ts, vs) && |ts| > 0
    ensures EncodeFields(skip, ts, vs, Plain, w)
            == (if skip && ts[0].Var? then [] else Encode(ts[0], vs[0], Plain, w)) + EncodeFields(skip, ts[1..], vs[1..], Plain, w)
    ensures MaxLengthFields(ts, vs) >= MaxLength(ts[0], vs[0]) && MaxLengthFields(ts, vs) >= MaxLengthFields(ts[1..], vs[1..])
  {
    hide Encode, MaxLength, HasType, WellFormed;
  }

  lemma {:induction false} NoFields(skip: bool, ts: seq<Ty>, was: seq<Val>, vs: seq<Val>, c: Context, pos: nat)
    requires AllWellFormed(ts) && HasTypes(ts, was) && HasTypes(ts, vs) && |ts| == 0 && pos <= |c.data|
    ensures FieldsReads(skip, ts, was, vs, c, pos)
  {
    hide Decode, Encode, Known;
  }

  lemma {:induction false} KnownFirstField(ts: seq<Ty>, vs: seq<Val>, s: set<nat>)
    requires HasTypes(ts, vs) && |ts| > 0
    ensures KnownFields(ts, vs, s) == [Known(ts[0], vs[0], s)] + KnownFields(ts[1..], vs[1..], s)
  {
    hide Known, HasType;
  }

  lemma {:induction false} ExpectedFirst(ts: seq<Ty>)
    requires |ts| > 0
    ensures AnyExpected(ts) <==> HasExpected(ts[0]) || AnyExpected(ts[1..])
  {
    hide HasExpected;
    assert forall i | 1 <= i < |ts| :: ts[i] == ts[1..][i - 1];
    assert forall i | 0 <= i < |ts[1..]| :: ts[1..][i] == ts[i + 1];
  }

  lemma {:induction false} DecodeFieldsFirst(skip: bool, ts: seq<Ty>, items: seq<Val>, pass: Pass, c: Context, pos: nat)
    requires AllWellFormed(ts) && HasTypes(ts, items) && |ts| > 0 && pos <= |c.data|
    ensures var h := if skip && ts[0].Var? then Outcome(Ok, items[0], pos, false) else Decode(ts[0], items[0], pass, c, pos);
            var o := DecodeFields(skip, ts, items, pass, c, pos);
            if h.code != Ok then o == Outcomes(h.code, [h.item] + items[1..], h.pos, h.missing)
            else
              var r := DecodeFields(skip, ts[1..], items[1..], pass, c, h.pos);
              o == Outcomes(r.code, [h.item] + r.items, r.pos, h.missing || r.missing) && o.items[1..] == r.items
  {
    hide Decode, HasType, WellFormed;
  }

  lemma {:induction false} StartFirst(skip: bool, ts: seq<Ty>, was: seq<Val>, vs: seq<Val>)
    requires HasTypes(ts, was) && HasTypes(ts, vs) && |ts| > 0
    ensures Start(skip, ts, was, vs)[0] == if skip && ts[0].Var? && vs[0].n != 0 then vs[0] else was[0]
    ensures Start(skip, ts, was, vs)[1..] == Start(skip, ts[1..], was[1..], vs[1..])
  {
    hide HasType;
  }

  lemma {:induction false} FieldsStep(skip: bool, ts: seq<Ty>, was: seq<Val>, vs: seq<Val>, c: Context, pos: nat)
    requires AllWellFormed(ts) && HasTypes(ts, was) && HasTypes(ts, vs) && |ts| > 0 && !(skip && ts[0].Var?) && pos <= |c.data|
    requires PlainReads(ts[0], was[0], vs[0], c, pos)
    requires var h := Decode(ts[0], was[0], Plain, c, pos);
             h.code == Ok ==> FieldsReads(skip, ts[1..], was[1..], vs[1..], c, h.pos)
    ensures FieldsReads(skip, ts, was, vs, c, pos)
  {
    hide Decode, Encode, Known, HasType, WellFormed, Covers, HasExpected, AnyExpected, DecodeFields, EncodeFields, KnownFields,
         Start;
    FieldsBegin(skip, ts, vs, c.w);
    ExpectedFirst(ts);
    KnownFirstField(ts, was, {});
    KnownFirstField(ts, vs, {});
    SameCons(Known(ts[0], was[0], {}), KnownFields(ts[1..], was[1..], {}), was[0], was[1..]);
    assert was == [was[0]] + was[1..];
    var start := Start(skip, ts, was, vs);
    StartFirst(skip, ts, was, vs);
    DecodeFieldsFirst(skip, ts, start, Plain, c, pos);
    var h := Decode(ts[0], was[0], Plain, c, pos);
    if h.code == Ok {
      var r := DecodeFields(skip, ts[1..], start[1..], Plain, c, h.pos);
      KnownFirstField(ts, DecodeFields(skip, ts, start, Plain, c, pos).items, {});
      SameCons(h.item, r.items, Known(ts[0], vs[0], {}), KnownFields(ts[1..], vs[1..], {}));
      SameCons(Known(ts[0], h.item, {}), KnownFields(ts[1..], r.items, {}), Known(ts[0], vs[0], {}), KnownFields(ts[1..], vs[1..], {}));
    }
  }

  lemma {:induction false} FieldsVarStep(ts: seq<Ty>, was: seq<Val>, vs: seq<Val>, c: Context, pos: nat)
    requires AllWellFormed(ts) && HasTypes(ts, was) && HasTypes(ts, vs) && |ts| > 0 && ts[0].Var? && pos <= |c.data|
    requires FieldsReads(true, ts[1..], was[1..], vs[1..], c, pos)
    ensures FieldsReads(true, ts, was, vs, c, pos)
  {
    hide Decode, Encode, WellFormed, Covers, HasExpected, AnyExpected, DecodeFields, EncodeFields, KnownFields, Start, HasType, Known;
    FieldsBegin(true, ts, vs, c.w);
    ExpectedFirst(ts);
    KnownFirstField(ts, was, {});
    KnownFirstField(ts, vs, {});
    SameCons(Known(ts[0], was[0], {}), KnownFields(ts[1..], was[1..], {}), was[0], was[1..]);
    assert was == [was[0]] + was[1..];
    VarParts(ts[0], was[0], vs[0]);
    var start := Start(true, ts, was, vs);
    StartFirst(true, ts, was, vs);
    DecodeFieldsFirst(true, ts, start, Plain, c, pos);
    var r := DecodeFields(true, ts[1..], start[1..], Plain, c, pos);
    KnownFirstField(ts, DecodeFields(true, ts, start, Plain, c, pos).items, {});
    SameCons(start[0], r.items, vs[0], KnownFields(ts[1..], vs[1..], {}));
    SameCons(start[0], KnownFields(ts[1..], r.items, {}), vs[0], KnownFields(ts[1..], vs[1..], {}));
  }

  /** Varints are equal if their numbers are, and have no compatible fields. */
  lemma {:induction false} VarParts(t: Ty, was: Val, v: Val)
    requires t.Var? && HasType(t, was) && HasType(t, v)
    ensures was.Num? && v.Num? && Known(t, was, {}) == was && Known(t, v, {}) == v && !HasExpected(t)
  {
  }

  // -- from a fresh object

  /** From a fresh object the plain pass restores everything but the compatible fields, exactly if
      the value is restorable. */
  lemma {:induction false} PlainRoundTrip(t: Ty, v: Val, c: Context, pos: nat)
    requires Typed(t, v) && Fits(t, v, c.w)
    requires At(c.data, pos, Encode(t, v, Plain, c.w))
    ensures var o := Decode(t, Default(t), Plain, c, pos);
            && (Restorable(t, v) ==> o == Outcome(Ok, Known(t, v, {}), pos + |Encode(t, v, Plain, c.w)|, false))
            && (!Restorable(t, v) ==> o.code == BadAccess || (o.code == Ok && Known(t, o.item, {}) != Known(t, v, {})))
  {
    hide At, Decode, Encode, Known, HasType, WellFormed, Covers, Default, HasExpected, Bare, Fits;
    PlainInto(t, Default(t), v, c, pos);
    DefaultBare(t);
  }

  // ---- a version pass ------------------------------------------------------------------------

  /** The bytes of the pass for version n stand at pos, inside the stored length. */
  ghost predicate PassAt(t: Ty, v: Val, n: nat, c: Context, pos: nat)
    requires Typed(t, v)
  {
    && At(c.data, pos, Encode(t, v, Version(n), c.w))
    && pos + |Encode(t, v, Version(n), c.w)| <= c.dataLen
  }

  /** Reading that pass adds the compatible fields of version n to those known already, exactly
      if what they hold is restorable. */
  ghost predicate PassReads(t: Ty, v: Val, s: set<nat>, n: nat, c: Context, pos: nat)
    requires Typed(t, v) && pos <= |c.data|
  {
    var o := Decode(t, Known(t, v, s), Version(n), c, pos);
    Reads(o.code, o.missing, o.pos, pos + |Encode(t, v, Version(n), c.w)|, true, true, Held(t, v, n),
          o.item == Known(t, v, s + {n}), Known(t, o.item, s + {n}) == Known(t, v, s + {n}))
  }

  ghost predicate ElemsAt(e: Ty, vs: seq<Val>, n: nat, c: Context, pos: nat)
    requires WellFormed(e) && AllHaveType(e, vs)
  {
    && At(c.data, pos, EncodeElems(e, vs, Version(n), c.w))
    && pos + |EncodeElems(e, vs, Version(n), c.w)| <= c.dataLen
  }

  ghost predicate ElemsRead(e: Ty, vs: seq<Val>, s: set<nat>, n: nat, c: Context, pos: nat)
    requires WellFormed(e) && AllHaveType(e, vs) && pos <= |c.data|
  {
    var o := DecodeElems(e, KnownElems(e, vs, s), Version(n), c, pos);
    Reads(o.code, o.missing, o.pos, pos + |EncodeElems(e, vs, Version(n), c.w)|, true, true, AllHeld(e, vs, n),
          o.items == KnownElems(e, vs, s + {n}), KnownElems(e, o.items, s + {n}) == KnownElems(e, vs, s + {n}))
  }

  ghost predicate FieldsAt(ts: seq<Ty>, vs: seq<Val>, n: nat, c: Context, pos: nat)
    requires AllWellFormed(ts) && HasTypes(ts, vs)
  {
    && At(c.data, pos, EncodeFields(false, ts, vs, Version(n), c.w))
    && pos + |EncodeFields(false, ts, vs, Version(n), c.w)| <= c.dataLen
  }

  ghost predicate FieldsRead(ts: seq<Ty>, vs: seq<Val>, s: set<nat>, n: nat, c: Context, pos: nat)
    requires AllWellFormed(ts) && HasTypes(ts, vs) && pos <= |c.data|
  {
    var o := DecodeFields(false, ts, KnownFields(ts, vs, s), Version(n), c, pos);
    Reads(o.code, o.missing, o.pos, pos + |EncodeFields(false, ts, vs, Version(n), c.w)|, true, true, FieldsHeld(ts, vs, n),
          o.items == KnownFields(ts, vs, s + {n}), KnownFields(ts, o.items, s + {n}) == KnownFields(ts, vs, s + {n}))
  }

  /** A version pass adds the compatible fields of its version to what is known already. */
  lemma {:induction false} VersionRoundTrip(t: Ty, v: Val, s: set<nat>, n: nat, c: Context, pos: nat)
    requires Typed(t, v) && Fits(t, v, c.w) && n !in s && PassAt(t, v, n, c, pos)
    ensures PassReads(t, v, s, n, c, pos)
    decreases t, 0
  {
    hide At, Decode, Encode, MaxLength, Known, Default, HasType, WellFormed, HasVersion, DecodeContainer, DecodeOptional,
         DecodeExpected, DecodeVariant, DecodeStruct, DecodeVar, DecodeElems, DecodeNew, DecodeFields, EncodeElems,
         EncodeFields, KnownElems, KnownFields, MaxLengthElems, MaxLengthFields, EncodeBlock, BlockSize, Defaults,
         Repeat, CollectAll, Collect, FromLE, LE, Span;
    if !HasVersion(t, n) {
      VersionAbsent(t, v, s, n, c, pos);
    } else {
      match t
      case Fixed(_) => VersionAbsent(t, v, s, n, c, pos);
      case Var(_) => VersionAbsent(t, v, s, n, c, pos);
      case Array(_, _) => VersionItems(t, v, s, n, c, pos);
      case Container(_, _) => VersionItems(t, v, s, n, c, pos);
      case Optional(_, _) => VersionOptional(t, v, s, n, c, pos);
      case Expected(_, _) => VersionExpected(t, v, s, n, c, pos);
      case Variant(_) => VersionVariant(t, v, s, n, c, pos);
      case Struct(_, _) => VersionStruct(t, v, s, n, c, pos);
      case Compatible(_, _) => VersionCompatible(t, v, s, n, c, pos);
    }
  }

  lemma {:induction false} VersionAbsent(t: Ty, v: Val, s: set<nat>, n: nat, c: Context, pos: nat)
    requires Typed(t, v) && PassAt(t, v, n, c, pos)
    requires !HasVersion(t, n) || t.Fixed? || t.Var?
    ensures PassReads(t, v, s, n, c, pos)
  {
    hide At, DecodeElems, DecodeFields, EncodeElems, EncodeFields, KnownElems, KnownFields, Collect, Held,
         DecodeContainer, DecodeOptional, DecodeExpected, DecodeVariant, DecodeStruct, DecodeVar;
    assert !HasVersion(t, n);
    KnownUnchanged(t, v, s, n);
    HeldAbsent(t, v, n);
    assert Encode(t, v, Version(n), c.w) == [];
  }

  lemma {:induction false} HeldAbsent(t: Ty, v: Val, n: nat)
    requires Typed(t, v) && !HasVersion(t, n)
    ensures Held(t, v, n)
    decreases t, 0
  {
    hide Restorable, AllHeld, FieldsHeld, Collect;
    match t
    case Fixed(_) =>
    case Var(_) =>
    case Array(_, e) => HeldAbsentElems(e, v.items, n);
    case Container(_, e) => HeldAbsentElems(e, v.items, n);
    case Optional(e, _) => if v.Some? { HeldAbsent(e, v.value, n); }
    case Expected(a, e) => HeldAbsent(if v.index == 1 then a else e, v.value, n);
    case Variant(alts) => HeldAbsent(alts[v.index], v.value, n);
    case Struct(_, fs) => HeldAbsentFields(fs, v.items, n);
    case Compatible(_, _) =>
  }

  lemma {:induction false} HeldAbsentElems(t: Ty, vs: seq<Val>, n: nat)
    requires WellFormed(t) && AllHaveType(t, vs) && !HasVersion(t, n)
    ensures AllHeld(t, vs, n)
    decreases t, 1, |vs|
  {
    hide Held, WellFormed, HasType, HasVersion;
    if |vs| > 0 {
      HeldAbsent(t, vs[0], n);
      HeldAbsentElems(t, vs[1..], n);
    }
  }

  lemma {:induction false} HeldAbsentFields(ts: seq<Ty>, vs: seq<Val>, n: nat)
    requires AllWellFormed(ts) && HasTypes(ts, vs) && forall i | 0 <= i < |ts| :: !HasVersion(ts[i], n)
    ensures FieldsHeld(ts, vs, n)
    decreases ts, 1
  {
    hide Held, WellFormed, HasType, HasVersion;
    if |ts| > 0 {
      HeldAbsent(ts[0], vs[0], n);
      HeldAbsentFields(ts[1..], vs[1..], n);
    }
  }

  lemma {:induction false} VersionItems(t: Ty, v: Val, s: set<nat>, n: nat, c: Context, pos: nat)
    requires (t.Array? || t.Container?) && HasVersion(t, n)
    requires Typed(t, v) && Fits(t, v, c.w) && n !in s && PassAt(t, v, n, c, pos)
    ensures PassReads(t, v, s, n, c, pos)
    decreases t, -1
  {
    hide At, DecodeContainer, DecodeElems, EncodeElems, KnownElems, MaxLengthElems, Collect, LE, Span, AllHeld;
    assert HasVersion(t.elem, n);
    assert !t.elem.Fixed?;
    assert Encode(t, v, Version(n), c.w) == EncodeElems(t.elem, v.items, Version(n), c.w);
    assert Known(t, v, s) == Items(KnownElems(t.elem, v.items, s));
    assert Known(t, v, s + {n}) == Items(KnownElems(t.elem, v.items, s + {n}));
    VersionElems(t.elem, v.items, s, n, c, pos);
    ItemsKnown(t, Decode(t, Known(t, v, s), Version(n), c, pos).item, s + {n});
  }

  lemma {:induction false} ItemsKnown(t: Ty, v: Val, s: set<nat>)
    requires (t.Array? || t.Container?) && HasType(t, v)
    ensures AllHaveType(t.elem, v.items) && Known(t, v, s) == Items(KnownElems(t.elem, v.items, s))
  {
    hide KnownElems;
  }

  lemma {:induction false} VersionOptional(t: Ty, v: Val, s: set<nat>, n: nat, c: Context, pos: nat)
    requires t.Optional? && HasVersion(t, n)
    requires Typed(t, v) && Fits(t, v, c.w) && n !in s && PassAt(t, v, n, c, pos)
    ensures PassReads(t, v, s, n, c, pos)
    decreases t, -1
  {
    hide At, DecodeElems, DecodeFields, EncodeElems, EncodeFields, KnownElems, KnownFields, MaxLengthElems, MaxLengthFields,
         EncodeBlock, Collect, Span, AllHeld, FieldsHeld;
    var item := Known(t, v, s);
    assert Decode(t, item, Version(n), c, pos) == DecodeOptional(t.elem, item, Version(n), c, pos);
    if v.Some? {
      assert Encode(t, v, Version(n), c.w) == Encode(t.elem, v.value, Version(n), c.w);
      VersionRoundTrip(t.elem, v.value, s, n, c, pos);
      assert item == Some(Known(t.elem, v.value, s));
      assert Known(t, v, s + {n}) == Some(Known(t.elem, v.value, s + {n}));
    } else {
      assert item == Null && Known(t, v, s + {n}) == Null;
      assert Encode(t, v, Version(n), c.w) == [];
    }
  }

  lemma {:induction false} VersionExpected(t: Ty, v: Val, s: set<nat>, n: nat, c: Context, pos: nat)
    requires t.Expected? && HasVersion(t, n)
    requires Typed(t, v) && Fits(t, v, c.w) && n !in s && PassAt(t, v, n, c, pos)
    ensures PassReads(t, v, s, n, c, pos)
    decreases t, -1
  {
    hide At, DecodeElems, DecodeFields, EncodeElems, EncodeFields, KnownElems, KnownFields, MaxLengthElems, MaxLengthFields,
         EncodeBlock, Collect, Span, AllHeld, FieldsHeld;
    var u := if v.index == 1 then t.value else t.error;
    var item := Known(t, v, s);
    assert Decode(t, item, Version(n), c, pos) == DecodeExpected(t.value, t.error, item, Version(n), c, pos);
    assert Encode(t, v, Version(n), c.w) == Encode(u, v.value, Version(n), c.w);
    VersionRoundTrip(u, v.value, s, n, c, pos);
    assert item == Alt(v.index, Known(u, v.value, s));
    assert Known(t, v, s + {n}) == Alt(v.index, Known(u, v.value, s + {n}));
  }

  lemma {:induction false} VersionVariant(t: Ty, v: Val, s: set<nat>, n: nat, c: Context, pos: nat)
    requires t.Variant? && HasVersion(t, n)
    requires Typed(t, v) && Fits(t, v, c.w) && n !in s && PassAt(t, v, n, c, pos)
    ensures PassReads(t, v, s, n, c, pos)
    decreases t, -1
  {
    hide At, DecodeElems, DecodeFields, EncodeElems, EncodeFields, KnownElems, KnownFields, MaxLengthElems, MaxLengthFields,
         EncodeBlock, Collect, Span, AllHeld, FieldsHeld;
    var u := t.alts[v.index];
    var item := Known(t, v, s);
    assert Decode(t, item, Version(n), c, pos) == DecodeVariant(t.alts, item, Version(n), c, pos);
    assert Encode(t, v, Version(n), c.w) == Encode(u, v.value, Version(n), c.w);
    VersionRoundTrip(u, v.value, s, n, c, pos);
    assert item == Alt(v.index, Known(u, v.value, s));
    assert Known(t, v, s + {n}) == Alt(v.index, Known(u, v.value, s + {n}));
  }

  lemma {:induction false} VersionStruct(t: Ty, v: Val, s: set<nat>, n: nat, c: Context, pos: nat)
    requires t.Struct? && HasVersion(t, n)
    requires Typed(t, v) && Fits(t, v, c.w) && n !in s && PassAt(t, v, n, c, pos)
    ensures PassReads(t, v, s, n, c, pos)
    decreases t, -1
  {
    hide At, DecodeElems, DecodeFields, EncodeElems, EncodeFields, KnownElems, KnownFields, MaxLengthElems, MaxLengthFields,
         EncodeBlock, Collect, Span, AllHeld, FieldsHeld;
    var item := Known(t, v, s);
    assert Decode(t, item, Version(n), c, pos) == DecodeStruct(t.fast, t.fields, item, Version(n), c, pos);
    assert Encode(t, v, Version(n), c.w) == EncodeFields(false, t.fields, v.items, Version(n), c.w);
    VersionFields(t.fields, v.items, s, n, c, pos);
    assert item == Items(KnownFields(t.fields, v.items, s));
    assert Known(t, v, s + {n}) == Items(KnownFields(t.fields, v.items, s + {n}));
  }

  /** A compatible field holds no compatible fields itself. */
  lemma {:induction false} CompatibleKnown(e: Ty, v: Val)
    requires WellFormed(e) && Collect(e) == [] && HasType(Optional(e), v)
    ensures Known(Optional(e), v, {}) == v
  {
    if v.Some? {
      forall m ensures !HasVersion(e, m) { CollectFindsVersions(e, m); }
      KnownAll(e, v.value, {});
    }
  }

  /** One compatible field. */
  lemma {:induction false} VersionCompatible(t: Ty, v: Val, s: set<nat>, n: nat, c: Context, pos: nat)
    requires t.Compatible? && HasVersion(t, n)
    requires Typed(t, v) && Fits(t, v, c.w) && n !in s && PassAt(t, v, n, c, pos)
    ensures PassReads(t, v, s, n, c, pos)
    decreases t, -1
  {
    hide At, DecodeOptional, DecodeElems, DecodeFields, EncodeElems, EncodeFields, KnownElems, KnownFields, MaxLengthElems,
         MaxLengthFields, EncodeBlock, Collect, Span, Covers;
    assert t.version == n && HasType(Optional(t.elem), v);
    assert Known(t, v, s) == Null && Known(t, v, s + {n}) == v;
    assert pos < c.dataLen;
    assert Decode(t, Null, Version(n), c, pos) == DecodeOptional(t.elem, Null, Plain, c, pos);
    assert Encode(t, v, Version(n), c.w)
           == [if v.Some? then 1 else 0] + (if v.Some? then Encode(t.elem, v.value, Plain, c.w) else []);
    CompatibleKnown(t.elem, v);
    PlainOptional(t.elem, Null, v, c, pos);
  }

  lemma {:induction false} VersionElems(e: Ty, vs: seq<Val>, s: set<nat>, n: nat, c: Context, pos: nat)
    requires WellFormed(e) && AllHaveType(e, vs) && MaxLengthElems(e, vs) < Span(c.w)
    requires n !in s && ElemsAt(e, vs, n, c, pos)
    ensures ElemsRead(e, vs, s, n, c, pos)
    decreases e, 1, |vs|
  {
    hide At, Decode, Encode, MaxLength, Known, HasType, WellFormed, Held, Span, PassReads, ElemsRead, KnownElems;
    if |vs| == 0 {
      NoVersionElems(e, vs, s, n, c, pos);
    } else {
      var first := Encode(e, vs[0], Version(n), c.w);
      AtConcat(c.data, pos, first, EncodeElems(e, vs[1..], Version(n), c.w));
      VersionRoundTrip(e, vs[0], s, n, c, pos);
      if Decode(e, Known(e, vs[0], s), Version(n), c, pos).code == Ok {
        PassPos(e, vs[0], s, n, c, pos);
        VersionElems(e, vs[1..], s, n, c, pos + |first|);
      }
      VersionElemsStep(e, vs, s, n, c, pos);
    }
  }

  lemma {:induction false} PassPos(t: Ty, v: Val, s: set<nat>, n: nat, c: Context, pos: nat)
    requires Typed(t, v) && pos <= |c.data| && PassReads(t, v, s, n, c, pos)
    ensures var o := Decode(t, Known(t, v, s), Version(n), c, pos);
            o.code == Ok ==> o.pos == pos + |Encode(t, v, Version(n), c.w)|
  {
    hide Decode, Encode, Known, HasType, WellFormed, Held;
  }

  lemma {:induction false} NoVersionElems(e: Ty, vs: seq<Val>, s: set<nat>, n: nat, c: Context, pos: nat)
    requires WellFormed(e) && AllHaveType(e, vs) && |vs| == 0 && pos <= |c.data|
    ensures ElemsRead(e, vs, s, n, c, pos)
  {
    hide Decode, Encode, Known, HasType, WellFormed, Held;
  }

  lemma {:induction false} VersionElemsStep(e: Ty, vs: seq<Val>, s: set<nat>, n: nat, c: Context, pos: nat)
    requires WellFormed(e) && AllHaveType(e, vs) && |vs| > 0 && pos <= |c.data|
    requires PassReads(e, vs[0], s, n, c, pos)
    requires var h := Decode(e, Known(e, vs[0], s), Version(n), c, pos); h.code == Ok ==> ElemsRead(e, vs[1..], s, n, c, h.pos)
    ensures ElemsRead(e, vs, s, n, c, pos)
  {
    hide Decode, Encode, Known, HasType, WellFormed, Held, KnownElems, DecodeElems;
    KnownFirst(e, vs, s);
    KnownFirst(e, vs, s + {n});
    var all := DecodeElems(e, KnownElems(e, vs, s), Version(n), c, pos);
    DecodeElemsFirst(e, KnownElems(e, vs, s), Version(n), c, pos);
    assert KnownElems(e, vs, s)[1..] == KnownElems(e, vs[1..], s);
    var h := Decode(e, Known(e, vs[0], s), Version(n), c, pos);
    if h.code == Ok {
      var r := DecodeElems(e, KnownElems(e, vs[1..], s), Version(n), c, h.pos);
      KnownFirst(e, all.items, s + {n});
      SameCons(h.item, r.items, Known(e, vs[0], s + {n}), KnownElems(e, vs[1..], s + {n}));
      SameCons(Known(e, h.item, s + {n}), KnownElems(e, r.items, s + {n}), Known(e, vs[0], s + {n}), KnownElems(e, vs[1..], s + {n}));
    }
  }

  lemma {:induction false} VersionFields(ts: seq<Ty>, vs: seq<Val>, s: set<nat>, n: nat, c: Context, pos: nat)
    requires AllWellFormed(ts) && HasTypes(ts, vs) && MaxLengthFields(ts, vs) < Span(c.w)
    requires n !in s && FieldsAt(ts, vs, n, c, pos)
    ensures FieldsRead(ts, vs, s, n, c, pos)
    decreases ts, 1
  {
    hide At, Decode, Encode, MaxLength, Known, HasType, WellFormed, Held, Span, PassReads, FieldsRead, KnownFields;
    if |ts| == 0 {
      NoVersionFields(ts, vs, s, n, c, pos);
    } else {
      var first := Encode(ts[0], vs[0], Version(n), c.w);
      AtConcat(c.data, pos, first, EncodeFields(false, ts[1..], vs[1..], Version(n), c.w));
      VersionRoundTrip(ts[0], vs[0], s, n, c, pos);
      if Decode(ts[0], Known(ts[0], vs[0], s), Version(n), c, pos).code == Ok {
        PassPos(ts[0], vs[0], s, n, c, pos);
        VersionFields(ts[1..], vs[1..], s, n, c, pos + |first|);
      }
      VersionFieldsStep(ts, vs, s, n, c, pos);
    }
  }

  lemma {:induction false} NoVersionFields(ts: seq<Ty>, vs: seq<Val>, s: set<nat>, n: nat, c: Context, pos: nat)
    requires AllWellFormed(ts) && HasTypes(ts, vs) && |ts| == 0 && pos <= |c.data|
    ensures FieldsRead(ts, vs, s, n, c, pos)
  {
    hide Decode, Encode, Known, Held;
  }

  lemma {:induction false} VersionFieldsStep(ts: seq<Ty>, vs: seq<Val>, s: set<nat>, n: nat, c: Context, pos: nat)
    requires AllWellFormed(ts) && HasTypes(ts, vs) && |ts| > 0 && pos <= |c.data|
    requires PassReads(ts[0], vs[0], s, n, c, pos)
    requires var h := Decode(ts[0], Known(ts[0], vs[0], s), Version(n), c, pos);
             h.code == Ok ==> FieldsRead(ts[1..], vs[1..], s, n, c, h.pos)
    ensures FieldsRead(ts, vs, s, n, c, pos)
  {
    hide Decode, Encode, Known, HasType, WellFormed, Held, KnownFields, DecodeFields;
    KnownFirstField(ts, vs, s);
    KnownFirstField(ts, vs, s + {n});
    var all := DecodeFields(false, ts, KnownFields(ts, vs, s), Version(n), c, pos);
    DecodeFieldsFirst(false, ts, KnownFields(ts, vs, s), Version(n), c, pos);
    assert KnownFields(ts, vs, s)[1..] == KnownFields(ts[1..], vs[1..], s);
    var h := Decode(ts[0], Known(ts[0], vs[0], s), Version(n), c, pos);
    if h.code == Ok {
      var r := DecodeFields(false, ts[1..], KnownFields(ts[1..], vs[1..], s), Version(n), c, h.pos);
      KnownFirstField(ts, all.items, s + {n});
      SameCons(h.item, r.items, Known(ts[0], vs[0], s + {n}), KnownFields(ts[1..], vs[1..], s + {n}));
      SameCons(Known(ts[0], h.item, s + {n}), KnownFields(ts[1..], r.items, s + {n}), Known(ts[0], vs[0], s + {n}),
               KnownFields(ts[1..], vs[1..], s + {n}));
    }
  }

  // ---- what a version pass cannot change ---------------------------------------------------------

  /** On any bytes a pass leaves the plain fields and the compatible fields of other versions alone. */
  lemma {:induction false} VersionKeeps(t: Ty, item: Val, n: nat, s: set<nat>, c: Context, pos: nat)
    requires Typed(t, item) && n !in s && pos <= |c.data|
    ensures Known(t, Decode(t, item, Version(n), c, pos).item, s) == Known(t, item, s)
    decreases t, 0
  {
    hide DecodeElems, DecodeFields, DecodeVar, DecodeContainer, KnownElems, KnownFields, Collect, Default, ReadBlock, HasVersion;
    if HasVersion(t, n) {
      match t
      case Fixed(_) =>
      case Var(_) =>
      case Array(_, e) => VersionKeepsElems(e, item.items, n, s, c, pos);
      case Container(_, e) => VersionKeepsElems(e, item.items, n, s, c, pos);
      case Optional(e, _) => if item.Some? { VersionKeeps(e, item.value, n, s, c, pos); }
      case Expected(a, e) => VersionKeeps(if item.index == 1 then a else e, item.value, n, s, c, pos);
      case Variant(alts) => VersionKeeps(alts[item.index], item.value, n, s, c, pos);
      case Struct(_, fs) => VersionKeepsFields(fs, item.items, n, s, c, pos);
      case Compatible(_, _) =>
    }
  }

  lemma {:induction false} VersionKeepsElems(t: Ty, items: seq<Val>, n: nat, s: set<nat>, c: Context, pos: nat)
    requires WellFormed(t) && AllHaveType(t, items) && n !in s && pos <= |c.data|
    ensures KnownElems(t, DecodeElems(t, items, Version(n), c, pos).items, s) == KnownElems(t, items, s)
    decreases t, 1, |items|
  {
    hide Decode, Known, HasType, WellFormed, KnownElems;
    if |items| > 0 {
      var h := Decode(t, items[0], Version(n), c, pos);
      var all := DecodeElems(t, items, Version(n), c, pos);
      VersionKeeps(t, items[0], n, s, c, pos);
      VersionKeepsElems(t, items[1..], n, s, c, h.pos);
      KnownFirst(t, items, s);
      KnownFirst(t, all.items, s);
    }
  }

  lemma {:induction false} VersionKeepsFields(ts: seq<Ty>, items: seq<Val>, n: nat, s: set<nat>, c: Context, pos: nat)
    requires AllWellFormed(ts) && HasTypes(ts, items) && n !in s && pos <= |c.data|
    ensures KnownFields(ts, DecodeFields(false, ts, items, Version(n), c, pos).items, s) == KnownFields(ts, items, s)
    decreases ts, 1
  {
    hide Decode, Known, HasType, WellFormed, KnownFields;
    if |ts| > 0 {
      var h := Decode(ts[0], items[0], Version(n), c, pos);
      var all := DecodeFields(false, ts, items, Version(n), c, pos);
      VersionKeeps(ts[0], items[0], n, s, c, pos);
      VersionKeepsFields(ts[1..], items[1..], n, s, c, h.pos);
      KnownFirstField(ts, items, s);
      KnownFirstField(ts, all.items, s);
    }
  }
}
