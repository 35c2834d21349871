/** What a reader that starts at a fast-varint block takes for the first field behind it: for every
    type that takes bytes at all there is a value that cannot come out. */
module Misreading {
  import opened Bytes
  import opened Leb128
  import opened Status
  import opened Schema
  import opened FastVarint
  import opened Encoding
  import opened Decoding
  import opened Restoring
  import opened RoundTrip
  import opened Message
  import opened Skipping

  /** Nothing is written for values of this type in the pass over the plain fields. */
  predicate TakesNothing(t: Ty)
    decreases t
  {
    match t
    case Fixed(w) => w == 0
    case Array(_, e) => TakesNothing(e)
    case Struct(fast, fs) => !fast && forall i | 0 <= i < |fs| :: TakesNothing(fs[i])
    case Compatible(_, _) => true
    case _ => false
  }

  lemma {:induction false} NothingRead(t: Ty, item: Val, c: Context, pos: nat)
    requires WellFormed(t) && HasType(t, item) && TakesNothing(t) && pos <= |c.data|
    ensures Decode(t, item, Plain, c, pos) == Outcome(Ok, item, pos, false)
    decreases t, 0
  {
    hide DecodeElems, DecodeFields;
    match t
    case Fixed(_) => assert c.data[pos..pos] == item.bytes;
    case Array(_, e) => NothingReadElems(e, item.items, c, pos);
    case Struct(_, fs) => NothingReadFields(fs, item.items, c, pos);
    case Compatible(_, _) =>
  }

  lemma {:induction false} NothingReadElems(t: Ty, items: seq<Val>, c: Context, pos: nat)
    requires WellFormed(t) && AllHaveType(t, items) && TakesNothing(t) && pos <= |c.data|
    ensures DecodeElems(t, items, Plain, c, pos) == Outcomes(Ok, items, pos, false)
    decreases t, 1, |items|
  {
    hide Decode, HasType, WellFormed, TakesNothing;
    if |items| > 0 {
      NothingRead(t, items[0], c, pos);
      NothingReadElems(t, items[1..], c, pos);
    }
  }

  lemma {:induction false} NothingReadFields(ts: seq<Ty>, items: seq<Val>, c: Context, pos: nat)
    requires AllWellFormed(ts) && HasTypes(ts, items) && (forall i | 0 <= i < |ts| :: TakesNothing(ts[i])) && pos <= |c.data|
    ensures DecodeFields(false, ts, items, Plain, c, pos) == Outcomes(Ok, items, pos, false)
    decreases ts, 1
  {
    hide Decode, HasType, WellFormed, TakesNothing;
    if |ts| > 0 {
      NothingRead(ts[0], items[0], c, pos);
      NothingReadFields(ts[1..], items[1..], c, pos);
    }
  }

  lemma {:induction false} NothingSkipped(t: Ty, item: Val, c: Context, pos: nat)
    requires WellFormed(t) && HasType(t, item) && TakesNothing(t) && pos <= |c.data|
    ensures Skip(t, item, c, pos) == SkipOutcome(Ok, item, pos)
    decreases t, 0
  {
    hide SkipItems, SkipFields;
    match t
    case Fixed(_) =>
    case Array(_, e) => NothingSkippedItems(e, item.items, c, pos);
    case Struct(_, fs) => NothingSkippedFields(fs, item.items, c, pos);
    case Compatible(_, _) =>
  }

  lemma {:induction false} NothingSkippedItems(t: Ty, items: seq<Val>, c: Context, pos: nat)
    requires WellFormed(t) && AllHaveType(t, items) && TakesNothing(t) && pos <= |c.data|
    ensures SkipItems(t, items, c, pos) == SkipOutcomes(Ok, items, pos)
    decreases t, 1, |items|
  {
    hide Skip, HasType, WellFormed, TakesNothing;
    if |items| > 0 {
      NothingSkipped(t, items[0], c, pos);
      NothingSkippedItems(t, items[1..], c, pos);
    }
  }

  lemma {:induction false} NothingSkippedFields(ts: seq<Ty>, items: seq<Val>, c: Context, pos: nat)
    requires AllWellFormed(ts) && HasTypes(ts, items) && (forall i | 0 <= i < |ts| :: TakesNothing(ts[i])) && pos <= |c.data|
    ensures SkipFields(false, ts, items, c, pos) == SkipOutcomes(Ok, items, pos)
    decreases ts, 1
  {
    hide Skip, HasType, WellFormed, TakesNothing;
    if |ts| > 0 {
      NothingSkipped(ts[0], items[0], c, pos);
      NothingSkippedFields(ts[1..], items[1..], c, pos);
    }
  }

  /** Without compatible fields such a type has one value. */
  lemma {:induction false} OnlyValue(t: Ty, x: Val, y: Val)
    requires TakesNothing(t) && Collect(t) == [] && HasType(t, x) && HasType(t, y)
    ensures x == y
    decreases t
  {
    match t
    case Fixed(_) =>
    case Array(_, e) =>
      forall i | 0 <= i < |x.items| ensures x.items[i] == y.items[i] { OnlyValue(e, x.items[i], y.items[i]); }
    case Struct(_, fs) =>
      forall i | 0 <= i < |fs| ensures x.items[i] == y.items[i] {
        NoneIn(fs, i);
        OnlyValue(fs[i], x.items[i], y.items[i]);
      }
  }

  lemma {:induction false} NoneIn(ts: seq<Ty>, i: nat)
    requires CollectAll(ts) == [] && i < |ts|
    ensures Collect(ts[i]) == []
  {
    hide Collect;
    if i > 0 { NoneIn(ts[1..], i - 1); }
  }

  // ---- the first integer of a struct ---------------------------------------------------------

  /** The place of the first varint. */
  function FirstVar(ts: seq<Ty>): (m: nat)
    ensures m <= |ts| && (m < |ts| ==> ts[m].Var?) && forall j | 0 <= j < m :: !ts[j].Var?
  {
    if |ts| == 0 || ts[0].Var? then 0 else 1 + FirstVar(ts[1..])
  }

  lemma {:induction false} FastHasVar(fs: seq<Ty>)
    requires WellFormed(Struct(true, fs))
    ensures FirstVar(fs) < |fs| && VarCount(fs) > 0
  {
    var i :| 0 <= i < |fs| && fs[i].Var?;
    VarCountPositive(fs, i);
  }

  /** Of the integers at most the first one is not zero, and that one is small. */
  ghost predicate OneSmall(ts: seq<Ty>, vs: seq<Val>, n: nat)
    requires HasTypes(ts, vs)
  {
    n <= 2 && forall j | 0 <= j < |ts| && ts[j].Var? :: vs[j] == Num(if j == FirstVar(ts) then n else 0)
  }

  ghost predicate AllZero(ts: seq<Ty>, vs: seq<Val>)
    requires HasTypes(ts, vs)
  {
    forall j | 0 <= j < |ts| && ts[j].Var? :: vs[j] == Num(0)
  }

  lemma {:induction false} ZeroBlock(ts: seq<Ty>, vs: seq<Val>)
    requires HasTypes(ts, vs) && AllZero(ts, vs)
    ensures UnsignedMax(ts, vs) == 0 && SignedMax(ts, vs) == 0
    ensures forall i | 0 <= i < |NonZero(ts, vs)| :: !NonZero(ts, vs)[i]
  {
    hide HasType;
    if |ts| > 0 {
      assert HasTypes(ts[1..], vs[1..]);
      forall j | 0 <= j < |ts[1..]| && ts[1..][j].Var? ensures vs[1..][j] == Num(0) { assert ts[j + 1].Var?; }
      ZeroBlock(ts[1..], vs[1..]);
    }
  }

  lemma {:induction false} SmallBlock(ts: seq<Ty>, vs: seq<Val>, n: nat)
    requires HasTypes(ts, vs) && OneSmall(ts, vs, n) && FirstVar(ts) < |ts|
    ensures UnsignedMax(ts, vs) <= 2 && SignedMax(ts, vs) <= 2
    ensures |NonZero(ts, vs)| > 0
    ensures forall i | 0 <= i < |NonZero(ts, vs)| :: NonZero(ts, vs)[i] <==> i == 0 && n > 0
    decreases ts
  {
    hide HasType;
    var rest, others := ts[1..], vs[1..];
    assert HasTypes(rest, others);
    if ts[0].Var? {
      forall j | 0 <= j < |rest| && rest[j].Var? ensures others[j] == Num(0) { assert ts[j + 1].Var?; }
      ZeroBlock(rest, others);
      assert vs[0] == Num(n);
    } else {
      forall j | 0 <= j < |rest| && rest[j].Var? ensures others[j] == Num(if j == FirstVar(rest) then n else 0) {
        assert ts[j + 1].Var?;
      }
      SmallBlock(rest, others, n);
    }
  }

  /** Then the block starts with 1 or 0. */
  lemma {:induction false} BlockStart(ts: seq<Ty>, vs: seq<Val>, n: nat)
    requires HasTypes(ts, vs) && OneSmall(ts, vs, n) && FirstVar(ts) < |ts|
    ensures |EncodeBlock(ts, vs)| > 0 && EncodeBlock(ts, vs)[0] == if n > 0 then 1 else 0
  {
    hide HasType, EncodeWords, UnsignedMax, SignedMax, NonZero;
    SmallBlock(ts, vs, n);
    var bits := BlockBits(ts, vs);
    assert WidthCode(ts, vs) == 0;
    assert forall i | 0 <= i < |bits| :: bits[i] <==> i == 0 && n > 0;
    PackFalse(bits, 1, 7);
    assert Bitmap(bits)[0] == Pack(bits, 0, 8) == BitOf(bits, 0) + 2 * Pack(bits, 1, 7);
    VarCountPositive(ts, FirstVar(ts));
  }

  lemma {:induction false} PackFalse(bits: seq<bool>, i: nat, n: nat)
    requires forall j | i <= j < |bits| :: !bits[j]
    ensures Pack(bits, i, n) == 0
    decreases n
  {
    if n > 0 { PackFalse(bits, i + 1, n - 1); }
  }

  // ---- a value that does not come out ----------------------------------------------------------

  /** A value of type t that is never read where the byte Marker(t) stands. */
  function Confusing(t: Ty): (v: Val)
    requires WellFormed(t)
    ensures HasType(t, v)
    decreases t, 0
  {
    match t
    case Array(n, e) => Items([Confusing(e)] + Repeat(Default(e), n - 1))
    case Expected(_, e) => Alt(0, Default(e))
    case Struct(fast, fs) => if fast then FirstIsOne(fs) else Items(ConfusingFields(fs))
    case _ => Default(t)
  }

  function FirstIsOne(fs: seq<Ty>): (v: Val)
    requires WellFormed(Struct(true, fs))
    ensures HasType(Struct(true, fs), v)
  {
    FastHasVar(fs);
    SpanValues();
    Items(Defaults(fs)[FirstVar(fs) := Num(1)])
  }

  /** The first field that takes bytes is confusing, the others are fresh. */
  function ConfusingFields(ts: seq<Ty>): (vs: seq<Val>)
    requires AllWellFormed(ts)
    ensures HasTypes(ts, vs)
    decreases ts, 1
  {
    if |ts| == 0 then []
    else if TakesNothing(ts[0]) then [Default(ts[0])] + ConfusingFields(ts[1..])
    else [Confusing(ts[0])] + Defaults(ts[1..])
  }

  /** The first bytes of a value are a fast-varint block. */
  predicate BlockFirst(t: Ty)
    decreases t, 0
  {
    match t
    case Array(_, e) => BlockFirst(e)
    case Struct(fast, fs) => fast || BlockFirstIn(fs)
    case _ => false
  }

  predicate BlockFirstIn(ts: seq<Ty>)
    decreases ts, 1
  {
    |ts| > 0 && if TakesNothing(ts[0]) then BlockFirstIn(ts[1..]) else BlockFirst(ts[0])
  }

  function Marker(t: Ty): nat {
    if BlockFirst(t) then 0 else 1
  }

  lemma {:induction false} Confuses(t: Ty, c: Context, pos: nat)
    requires WellFormed(t) && !TakesNothing(t) && c.w > 0 && pos < |c.data| && c.data[pos] == Marker(t)
    ensures var o := Decode(t, Default(t), Plain, c, pos); o.code == Ok ==> o.item != Confusing(t)
    decreases t, 0
  {
    hide DecodeElems, DecodeFields, DecodeVar, DecodeContainer, DecodeStruct, FirstIsOne, ConfusingFields, Defaults, FromLE;
    match t
    case Fixed(w) => if pos + w <= |c.data| { assert c.data[pos..pos + w][0] == 1; }
    case Var(k) => ConfusedVar(k, 0, c, pos);
    case Array(n, e) => ConfusedArray(n, e, c, pos);
    case Container(shape, e) => ConfusedContainer(shape, e, c, pos);
    case Optional(e, _) =>
    case Expected(a, e) =>
    case Variant(alts) =>
    case Struct(fast, fs) => if fast { ConfusedBlock(fs, c, pos); } else { ConfusedStruct(fs, c, pos); }
  }

  /** Where a one stands, neither zero nor two is read as a varint. */
  lemma {:induction false} ConfusedVar(k: VarKind, n: nat, c: Context, pos: nat)
    requires pos < |c.data| && c.data[pos] == 1 && (n == 0 || n == 2)
    ensures var o := DecodeVar(k, Num(0), c, pos); o.code == Ok && o.item != Num(n)
  {
    hide Span;
    SpanValues();
    assert ScanLeb(c.data, pos, MAX_VARINT_LENGTH) == Value(1, pos + 1);
    OneUnwired(k);
  }

  lemma {:induction false} OneUnwired(k: VarKind)
    ensures k.Unwire(1) == if k.ZigZag() then -1 else 1
  {
    hide Span, EncodeZigZag, DecodeZigZag;
    SpanValues();
    if k.ZigZag() {
      ZigZagMeaning(k.Width(), -1);
      WireRoundTrip(k, -1);
    } else {
      WireRoundTrip(k, 1);
    }
  }

  lemma {:induction false} ConfusedArray(n: nat, e: Ty, c: Context, pos: nat)
    requires WellFormed(Array(n, e)) && !TakesNothing(e) && c.w > 0 && pos < |c.data| && c.data[pos] == Marker(e)
    ensures var o := Decode(Array(n, e), Default(Array(n, e)), Plain, c, pos); o.code == Ok ==> o.item != Confusing(Array(n, e))
    decreases e, 1
  {
    hide DecodeElems, Default, Confusing, TakesNothing, Marker;
    var items := Repeat(Default(e), n);
    ArrayParts(n, e);
    Confuses(e, c, pos);
    DecodeElemsFirst(e, items, Plain, c, pos);
  }

  lemma {:induction false} ArrayParts(n: nat, e: Ty)
    requires WellFormed(Array(n, e))
    ensures Default(Array(n, e)) == Items(Repeat(Default(e), n))
    ensures Confusing(Array(n, e)) == Items([Confusing(e)] + Repeat(Default(e), n - 1))
  {
  }

  lemma {:induction false} ConfusedContainer(shape: Shape, e: Ty, c: Context, pos: nat)
    requires WellFormed(e) && c.w > 0 && pos < |c.data| && c.data[pos] == 1
    ensures var o := DecodeContainer(shape, e, Items([]), c, pos); o.code == Ok ==> o.item != Items([])
  {
    hide Decode, WellFormed, Default, Next;
    if pos + c.w <= |c.data| {
      var length := c.data[pos..pos + c.w];
      assert FromLE(length) == length[0] + 256 * FromLE(length[1..]);
      DecodeNewFirst(shape, e, Default(e), FromLE(length), c, pos + c.w);
    }
  }

  lemma {:induction false} ConfusedStruct(fs: seq<Ty>, c: Context, pos: nat)
    requires WellFormed(Struct(false, fs)) && !TakesNothing(Struct(false, fs))
    requires c.w > 0 && pos < |c.data| && c.data[pos] == Marker(Struct(false, fs))
    ensures var o := Decode(Struct(false, fs), Default(Struct(false, fs)), Plain, c, pos);
            o.code == Ok ==> o.item != Items(ConfusingFields(fs))
    decreases fs, 2
  {
    hide DecodeFields, ConfusingFields, Defaults;
    ConfusedFields(fs, c, pos);
  }

  lemma {:induction false} ConfusedFields(ts: seq<Ty>, c: Context, pos: nat)
    requires AllWellFormed(ts) && (exists i | 0 <= i < |ts| :: !TakesNothing(ts[i]))
    requires c.w > 0 && pos < |c.data| && c.data[pos] == if BlockFirstIn(ts) then 0 else 1
    ensures var o := DecodeFields(false, ts, Defaults(ts), Plain, c, pos); o.code == Ok ==> o.items != ConfusingFields(ts)
    decreases ts, 1
  {
    hide Decode, Default, Confusing, WellFormed, HasType, TakesNothing, BlockFirst;
    assert Defaults(ts) == [Default(ts[0])] + Defaults(ts[1..]);
    DecodeFieldsFirst(false, ts, Defaults(ts), Plain, c, pos);
    if TakesNothing(ts[0]) {
      NothingRead(ts[0], Default(ts[0]), c, pos);
      var i :| 0 <= i < |ts| && !TakesNothing(ts[i]);
      assert !TakesNothing(ts[1..][i - 1]);
      ConfusedFields(ts[1..], c, pos);
      var o := DecodeFields(false, ts[1..], Defaults(ts[1..]), Plain, c, pos);
      if o.code == Ok { OtherTail(Default(ts[0]), o.items, ConfusingFields(ts[1..])); }
    } else {
      Confuses(ts[0], c, pos);
    }
  }

  lemma {:induction false} OtherTail(x: Val, xs: seq<Val>, ys: seq<Val>)
    requires xs != ys
    ensures [x] + xs != [x] + ys
  {
    assert ([x] + xs)[1..] == xs && ([x] + ys)[1..] == ys;
  }

  /** The first integer of a block that is not marked keeps its value. */
  lemma {:induction false} ConfusedBlock(fs: seq<Ty>, c: Context, pos: nat)
    requires WellFormed(Struct(true, fs)) && pos < |c.data| && c.data[pos] == 0
    ensures var o := Decode(Struct(true, fs), Default(Struct(true, fs)), Plain, c, pos);
            o.code == Ok ==> o.item != FirstIsOne(fs)
  {
    hide ReadBlock, DecodeFields, Defaults;
    var items := Defaults(fs);
    FastHasVar(fs);
    DefaultAt(fs, FirstVar(fs));
    UnmarkedFirst(fs, items, c.data, pos);
    var b := ReadBlock(fs, items, c.data, pos);
    if b.code == Ok { VarsStay(fs, b.items, c, b.pos, FirstVar(fs)); }
  }

  lemma {:induction false} DefaultAt(ts: seq<Ty>, j: nat)
    requires AllWellFormed(ts) && j < |ts|
    ensures Defaults(ts)[j] == Default(ts[j])
  {
    hide WellFormed, Default;
    if j > 0 { DefaultAt(ts[1..], j - 1); }
  }

  lemma {:induction false} UnmarkedFirst(ts: seq<Ty>, items: seq<Val>, data: bytes, pos: nat)
    requires HasTypes(ts, items) && FirstVar(ts) < |ts| && pos < |data| && data[pos] == 0
    ensures var b := ReadBlock(ts, items, data, pos); |b.items| == |items| && b.items[FirstVar(ts)] == items[FirstVar(ts)]
  {
    hide ReadWords, HasType, Has64, CodeOf;
    var size := BitmapSize(VarCount(ts));
    if pos + size <= |data| {
      var vec := data[pos..pos + size];
      assert vec[0] == 0;
      assert !BitAt(vec, 0);
      UnmarkedWord(ts, items, vec, 0, CodeOf(vec, VarCount(ts)), data, pos + size);
    }
  }

  lemma {:induction false} UnmarkedWord(ts: seq<Ty>, items: seq<Val>, vec: bytes, idx: nat, code: int, data: bytes, pos: nat)
    requires HasTypes(ts, items) && FirstVar(ts) < |ts| && 0 <= code <= 3
    requires idx + VarCount(ts) <= 8 * |vec| && idx < 8 * |vec| && !BitAt(vec, idx)
    ensures var r := ReadWords(ts, items, vec, idx, code, data, pos);
            |r.items| == |items| && r.items[FirstVar(ts)] == items[FirstVar(ts)]
    decreases ts
  {
    hide HasType, BitAt;
    if !ts[0].Var? { UnmarkedWord(ts[1..], items[1..], vec, idx, code, data, pos); }
  }

  lemma {:induction false} VarsStay(ts: seq<Ty>, items: seq<Val>, c: Context, pos: nat, j: nat)
    requires AllWellFormed(ts) && HasTypes(ts, items) && pos <= |c.data| && j < |ts| && ts[j].Var?
    ensures var r := DecodeFields(true, ts, items, Plain, c, pos); |r.items| == |items| && r.items[j] == items[j]
    decreases j
  {
    hide Decode, HasType, WellFormed;
    DecodeFieldsFirst(true, ts, items, Plain, c, pos);
    var h := if ts[0].Var? then Outcome(Ok, items[0], pos, false) else Decode(ts[0], items[0], Plain, c, pos);
    if j > 0 && h.code == Ok { VarsStay(ts[1..], items[1..], c, h.pos, j - 1); }
  }

  // ---- it can be written and would be restored --------------------------------------------------

  lemma {:induction false} DefaultRestorable(t: Ty)
    requires WellFormed(t)
    ensures Restorable(t, Default(t)) && MaxLength(t, Default(t)) == 0
    decreases t, 0
  {
    hide Collect, AllCover, FieldsCover, MaxLengthElems, MaxLengthFields, Defaults, Repeat;
    match t
    case Fixed(_) =>
    case Var(_) =>
    case Array(n, e) => ArrayParts(n, e); DefaultRestorable(e); RepeatRestorable(e, n);
    case Container(shape, e) => EmptyRestorable(shape, e);
    case Optional(_, _) =>
    case Expected(a, _) => DefaultRestorable(a);
    case Variant(alts) => DefaultRestorable(alts[0]);
    case Struct(fast, fs) => DefaultsRestorable(fast, fs);
    case Compatible(_, _) =>
  }

  lemma {:induction false} EmptyRestorable(shape: Shape, e: Ty)
    requires WellFormed(Container(shape, e))
    ensures Restorable(Container(shape, e), Default(Container(shape, e)))
    ensures MaxLength(Container(shape, e), Default(Container(shape, e))) == 0
  {
  }

  lemma {:induction false} RepeatRestorable(t: Ty, n: nat)
    requires WellFormed(t) && Restorable(t, Default(t)) && MaxLength(t, Default(t)) == 0
    ensures var vs := Repeat(Default(t), n); AllCover(t, vs, vs) && MaxLengthElems(t, vs) == 0
    decreases n
  {
    hide WellFormed, HasType, Covers, Default, MaxLength;
    if n > 0 {
      RepeatRestorable(t, n - 1);
      assert Repeat(Default(t), n)[1..] == Repeat(Default(t), n - 1);
    }
  }

  lemma {:induction false} DefaultsRestorable(fast: bool, ts: seq<Ty>)
    requires AllWellFormed(ts)
    ensures FieldsCover(fast, ts, Defaults(ts), Defaults(ts)) && MaxLengthFields(ts, Defaults(ts)) == 0
    decreases ts, 1
  {
    hide WellFormed, HasType, Covers, MaxLength;
    if |ts| > 0 {
      DefaultRestorable(ts[0]);
      DefaultsRestorable(fast, ts[1..]);
      assert Defaults(ts)[1..] == Defaults(ts[1..]);
    }
  }

  lemma {:induction false} ConfusingRestorable(t: Ty)
    requires WellFormed(t)
    ensures Restorable(t, Confusing(t)) && MaxLength(t, Confusing(t)) == 0
    decreases t, 0
  {
    hide Collect, FirstIsOne, ConfusingFields, Defaults, AllCover, FieldsCover, MaxLengthElems, MaxLengthFields;
    match t
    case Array(n, e) => ConfusingItems(n, e);
    case Expected(_, e) => DefaultRestorable(e);
    case Struct(fast, fs) => if fast { OneRestorable(fs); } else { ConfusingFieldsRestorable(fs); }
    case _ => DefaultRestorable(t);
  }

  lemma {:induction false} ConfusingItems(n: nat, e: Ty)
    requires WellFormed(Array(n, e))
    ensures var olds, vs := Repeat(Default(e), n), [Confusing(e)] + Repeat(Default(e), n - 1);
            AllCover(e, olds, vs) && MaxLengthElems(e, vs) == 0
    decreases e, 1
  {
    hide HasType, Covers, Default, MaxLength, Confusing;
    var olds, vs := Repeat(Default(e), n), [Confusing(e)] + Repeat(Default(e), n - 1);
    ConfusingRestorable(e);
    DefaultRestorable(e);
    RepeatRestorable(e, n - 1);
    assert olds[1..] == Repeat(Default(e), n - 1) && vs[1..] == Repeat(Default(e), n - 1);
  }

  lemma {:induction false} ConfusingFieldsRestorable(ts: seq<Ty>)
    requires AllWellFormed(ts)
    ensures FieldsCover(false, ts, Defaults(ts), ConfusingFields(ts)) && MaxLengthFields(ts, ConfusingFields(ts)) == 0
    decreases ts, 1
  {
    hide WellFormed, HasType, Covers, MaxLength, Confusing, TakesNothing;
    if |ts| > 0 {
      DefaultRestorable(ts[0]);
      ConfusingRestorable(ts[0]);
      DefaultsRestorable(false, ts[1..]);
      ConfusingFieldsRestorable(ts[1..]);
      assert Defaults(ts)[1..] == Defaults(ts[1..]);
      assert ConfusingFields(ts)[1..] == if TakesNothing(ts[0]) then ConfusingFields(ts[1..]) else Defaults(ts[1..]);
    }
  }

  lemma {:induction false} OneRestorable(fs: seq<Ty>)
    requires WellFormed(Struct(true, fs))
    ensures FieldsCover(true, fs, Defaults(fs), FirstIsOne(fs).items) && MaxLengthFields(fs, FirstIsOne(fs).items) == 0
  {
    hide Covers, MaxLength;
    FastHasVar(fs);
    SpanValues();
    NumAmongDefaults(fs, FirstVar(fs), 1);
  }

  lemma {:induction false} DefaultOfVar(t: Ty)
    requires t.Var?
    ensures Default(t) == Num(0)
  {
  }

  /** An integer among fresh fields. */
  lemma {:induction false} NumAmongDefaults(ts: seq<Ty>, m: nat, n: nat)
    requires AllWellFormed(ts) && m < |ts| && ts[m].Var? && HasType(ts[m], Num(n)) && n > 0
    ensures HasTypes(ts, Defaults(ts)[m := Num(n)])
    ensures FieldsCover(true, ts, Defaults(ts), Defaults(ts)[m := Num(n)]) && MaxLengthFields(ts, Defaults(ts)[m := Num(n)]) == 0
    decreases m
  {
    hide WellFormed, Covers, Default;
    var vs := Defaults(ts)[m := Num(n)];
    assert Defaults(ts)[1..] == Defaults(ts[1..]);
    if m == 0 {
      DefaultsRestorable(true, ts[1..]);
      assert vs[1..] == Defaults(ts[1..]);
      assert MaxLength(ts[0], vs[0]) == 0;
    } else {
      DefaultRestorable(ts[0]);
      NumAmongDefaults(ts[1..], m - 1, n);
      assert vs[1..] == Defaults(ts[1..])[m - 1 := Num(n)];
      if ts[0].Var? { DefaultOfVar(ts[0]); }
    }
  }
}
