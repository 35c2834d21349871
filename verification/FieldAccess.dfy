/** Skipping ends where reading ends, and so one field of a struct can be read by itself. */
module FieldAccess {
  import opened Bytes
  import opened Leb128
  import opened Status
  import opened Schema
  import opened FastVarint
  import opened Encoding
  import opened Decoding
  import opened Restoring
  import opened RoundTrip
  import opened Versions
  import opened Message
  import opened Skipping
  import opened Misreading

  // ---- skipping against reading ------------------------------------------------------------------------

  /** No map or set of bulk-copied entries anywhere. */
  predicate Stepwise(t: Ty)
    decreases t
  {
    match t
    case Fixed(_) => true
    case Var(_) => true
    case Array(_, e) => Stepwise(e)
    case Container(shape, e) => !(shape.Keyed? && e.Fixed?) && Stepwise(e)
    case Optional(e, _) => Stepwise(e)
    case Expected(a, e) => Stepwise(a) && Stepwise(e)
    case Variant(alts) => forall i | 0 <= i < |alts| :: Stepwise(alts[i])
    case Struct(_, fs) => forall i | 0 <= i < |fs| :: Stepwise(fs[i])
    case Compatible(_, _) => true
  }

  /** No such container where its code is dropped. */
  predicate Followable(t: Ty)
    decreases t
  {
    match t
    case Fixed(_) => true
    case Var(_) => true
    case Array(_, e) => Followable(e)
    case Container(_, e) => Followable(e)
    case Optional(e, _) => Stepwise(e)
    case Expected(a, e) => Stepwise(a) && Stepwise(e)
    case Variant(alts) => forall i | 0 <= i < |alts| :: Stepwise(alts[i])
    case Struct(_, fs) => forall i | 0 <= i < |fs| :: Followable(fs[i])
    case Compatible(_, _) => true
  }

  predicate AllStepwise(ts: seq<Ty>) {
    forall i | 0 <= i < |ts| :: Stepwise(ts[i])
  }

  predicate AllFollowable(ts: seq<Ty>) {
    forall i | 0 <= i < |ts| :: Followable(ts[i])
  }

  /** No expected is read in place: an object of this type can be skipped into again and again. */
  predicate Reusable(t: Ty)
    decreases t
  {
    match t
    case Fixed(_) => true
    case Var(_) => true
    case Array(_, e) => Reusable(e)
    case Container(_, _) => true
    case Optional(_, _) => true
    case Expected(_, _) => false
    case Variant(_) => true
    case Struct(_, fs) => forall i | 0 <= i < |fs| :: Reusable(fs[i])
    case Compatible(_, _) => true
  }

  /** Every container has reusable elements. */
  predicate Steady(t: Ty)
    decreases t
  {
    match t
    case Fixed(_) => true
    case Var(_) => true
    case Array(_, e) => Steady(e)
    case Container(_, e) => Reusable(e) && Steady(e)
    case Optional(e, _) => Steady(e)
    case Expected(a, e) => Steady(a) && Steady(e)
    case Variant(alts) => forall i | 0 <= i < |alts| :: Steady(alts[i])
    case Struct(_, fs) => forall i | 0 <= i < |fs| :: Steady(fs[i])
    case Compatible(_, _) => true
  }

  predicate AllSteady(ts: seq<Ty>) {
    forall i | 0 <= i < |ts| :: Steady(ts[i])
  }

  /** Where an expected is read in place, both objects hold a value or both an error. */
  predicate Agree(t: Ty, x: Val, y: Val)
    requires HasType(t, x) && HasType(t, y)
    decreases t, 0
  {
    match t
    case Fixed(_) => true
    case Var(_) => true
    case Array(_, e) => AllAgree(e, x.items, y.items)
    case Container(_, _) => true
    case Optional(_, _) => true
    case Expected(a, _) => x.index == y.index && (x.index == 1 ==> Agree(a, x.value, y.value))
    case Variant(_) => true
    case Struct(_, fs) => FieldsAgree(fs, x.items, y.items)
    case Compatible(_, _) => true
  }

  predicate AllAgree(t: Ty, xs: seq<Val>, ys: seq<Val>)
    requires AllHaveType(t, xs) && AllHaveType(t, ys) && |xs| == |ys|
    decreases t, 1, |xs|
  {
    |xs| == 0 || (Agree(t, xs[0], ys[0]) && AllAgree(t, xs[1..], ys[1..]))
  }

  predicate FieldsAgree(ts: seq<Ty>, xs: seq<Val>, ys: seq<Val>)
    requires HasTypes(ts, xs) && HasTypes(ts, ys)
    decreases ts, 1
  {
    |ts| == 0 || (Agree(ts[0], xs[0], ys[0]) && FieldsAgree(ts[1..], xs[1..], ys[1..]))
  }

  lemma {:induction false} ReusableAgree(t: Ty, x: Val, y: Val)
    requires HasType(t, x) && HasType(t, y) && Reusable(t)
    ensures Agree(t, x, y)
    decreases t, 0
  {
    match t
    case Fixed(_) =>
    case Var(_) =>
    case Array(_, e) => ReusableAllAgree(e, x.items, y.items);
    case Container(_, _) =>
    case Optional(_, _) =>
    case Variant(_) =>
    case Struct(_, fs) => ReusableFieldsAgree(fs, x.items, y.items);
    case Compatible(_, _) =>
  }

  lemma {:induction false} ReusableAllAgree(t: Ty, xs: seq<Val>, ys: seq<Val>)
    requires AllHaveType(t, xs) && AllHaveType(t, ys) && |xs| == |ys| && Reusable(t)
    ensures AllAgree(t, xs, ys)
    decreases t, 1, |xs|
  {
    hide Agree, HasType, Reusable;
    if |xs| > 0 {
      ReusableAgree(t, xs[0], ys[0]);
      ReusableAllAgree(t, xs[1..], ys[1..]);
    }
  }

  lemma {:induction false} ReusableFieldsAgree(ts: seq<Ty>, xs: seq<Val>, ys: seq<Val>)
    requires HasTypes(ts, xs) && HasTypes(ts, ys) && forall i | 0 <= i < |ts| :: Reusable(ts[i])
    ensures FieldsAgree(ts, xs, ys)
    decreases ts, 1
  {
    hide Agree, HasType, Reusable;
    if |ts| > 0 {
      ReusableAgree(ts[0], xs[0], ys[0]);
      ReusableFieldsAgree(ts[1..], xs[1..], ys[1..]);
    }
  }

  lemma {:induction false} AgreeSelf(t: Ty, x: Val)
    requires HasType(t, x)
    ensures Agree(t, x, x)
    decreases t, 0
  {
    match t
    case Fixed(_) =>
    case Var(_) =>
    case Array(_, e) => AllAgreeSelf(e, x.items);
    case Container(_, _) =>
    case Optional(_, _) =>
    case Expected(a, _) => if x.index == 1 { AgreeSelf(a, x.value); }
    case Variant(_) =>
    case Struct(_, fs) => FieldsAgreeSelf(fs, x.items);
    case Compatible(_, _) =>
  }

  lemma {:induction false} AllAgreeSelf(t: Ty, xs: seq<Val>)
    requires AllHaveType(t, xs)
    ensures AllAgree(t, xs, xs)
    decreases t, 1, |xs|
  {
    hide Agree, HasType;
    if |xs| > 0 {
      AgreeSelf(t, xs[0]);
      AllAgreeSelf(t, xs[1..]);
    }
  }

  lemma {:induction false} FieldsAgreeSelf(ts: seq<Ty>, xs: seq<Val>)
    requires HasTypes(ts, xs)
    ensures FieldsAgree(ts, xs, xs)
    decreases ts, 1
  {
    hide Agree, HasType;
    if |ts| > 0 {
      AgreeSelf(ts[0], xs[0]);
      FieldsAgreeSelf(ts[1..], xs[1..]);
    }
  }

  /** How skipping compares with reading the same bytes. */
  ghost predicate Follows(stepwise: bool, followable: bool, code: Code, pos: nat, readCode: Code, readPos: nat) {
    && (stepwise ==> code == readCode && pos == readPos)
    && (followable && readCode == Ok ==> code == Ok && pos == readPos)
  }

  /** On any bytes at all, skipping ends where reading ends whenever reading succeeds; for
      stepwise types the code and the cursor agree in the error cases too. */
  lemma {:induction false} SkipEqualsRead(t: Ty, s: Val, item: Val, c: Context, pos: nat)
    requires WellFormed(t) && HasType(t, s) && HasType(t, item) && Steady(t) && Agree(t, s, item) && pos <= |c.data|
    ensures var r, o := Skip(t, s, c, pos), Decode(t, item, Plain, c, pos);
            Follows(Stepwise(t), Followable(t), r.code, r.pos, o.code, o.pos)
    decreases t, 0
  {
    hide DecodeElems, DecodeFields, DecodeNew, DecodeContainer, DecodeVar, DecodeStruct, SkipItems, SkipContainer, SkipStruct,
         SkipVar, Default, HasVersion, Collect, AllAgree, FieldsAgree, DecodeOptional, DecodeExpected, DecodeVariant;
    match t
    case Fixed(_) =>
    case Var(k) => SkipVarEqualsRead(k, item, c, pos);
    case Array(_, e) => SkipItemsEqualsRead(e, s.items, item.items, c, pos);
    case Container(shape, e) => SkipContainerEqualsRead(shape, e, s, item, c, pos);
    case Optional(_, _) => SkipOptionalEqualsRead(t, s, item, c, pos);
    case Expected(a, e) => SkipExpectedEqualsRead(a, e, s, item, c, pos);
    case Variant(alts) => SkipVariantEqualsRead(alts, s, item, c, pos);
    case Struct(fast, fs) => SkipStructEqualsRead(fast, fs, s, item, c, pos);
    case Compatible(_, _) =>
  }

  lemma {:induction false} SkipVarEqualsRead(k: VarKind, item: Val, c: Context, pos: nat)
    requires HasType(Var(k), item) && pos <= |c.data|
    ensures var r := DecodeVar(k, item, c, pos); SkipVar(c, pos) == Skipped(r.code, r.pos)
  {
    hide ScanLeb, VarKind.Unwire;
  }

  lemma {:induction false} SkipOptionalEqualsRead(t: Ty, s: Val, item: Val, c: Context, pos: nat)
    requires t.Optional? && WellFormed(t) && HasType(t, s) && HasType(t, item) && Steady(t) && pos <= |c.data|
    ensures var r, o := Skip(t, s, c, pos), Decode(t, item, Plain, c, pos);
            Follows(Stepwise(t), Followable(t), r.code, r.pos, o.code, o.pos)
    decreases t, -1
  {
    hide DecodeElems, DecodeFields, DecodeNew, DecodeContainer, SkipItems, SkipContainer, SkipStruct, Default, HasVersion,
         Collect, Agree;
    if pos < |c.data| {
      AgreeSelf(t.elem, Default(t.elem));
      SkipEqualsRead(t.elem, Default(t.elem), Default(t.elem), c, pos + 1);
    }
  }

  lemma {:induction false} SkipVariantEqualsRead(alts: seq<Ty>, s: Val, item: Val, c: Context, pos: nat)
    requires WellFormed(Variant(alts)) && HasType(Variant(alts), s) && HasType(Variant(alts), item) && Steady(Variant(alts))
    requires pos <= |c.data|
    ensures var r, o := Skip(Variant(alts), s, c, pos), DecodeVariant(alts, item, Plain, c, pos);
            Follows(Stepwise(Variant(alts)), Followable(Variant(alts)), r.code, r.pos, o.code, o.pos)
    decreases alts, 4
  {
    hide Decode, Default, HasVersion, Collect, Agree, SkipItems, SkipContainer, SkipStruct;
    if pos < |c.data| && c.data[pos] < |alts| {
      var u := alts[c.data[pos]];
      AgreeSelf(u, Default(u));
      SkipEqualsRead(u, Default(u), Default(u), c, pos + 1);
    }
  }

  lemma {:induction false} SkipExpectedEqualsRead(a: Ty, e: Ty, s: Val, item: Val, c: Context, pos: nat)
    requires WellFormed(a) && WellFormed(e) && HasType(Expected(a, e), s) && HasType(Expected(a, e), item)
    requires Steady(Expected(a, e)) && Agree(Expected(a, e), s, item) && pos <= |c.data|
    ensures var r, o := Skip(Expected(a, e), s, c, pos), DecodeExpected(a, e, item, Plain, c, pos);
            Follows(Stepwise(Expected(a, e)), Followable(Expected(a, e)), r.code, r.pos, o.code, o.pos)
    decreases Expected(a, e), -1
  {
    hide Decode, Default, WellFormed;
    if pos < |c.data| {
      AgreeSelf(e, Default(e));
      SkipEqualsRead(e, Default(e), Default(e), c, pos + 1);
      if s.index == 1 { SkipEqualsRead(a, s.value, item.value, c, pos + 1); }
    }
  }

  lemma {:induction false} SkipItemsEqualsRead(t: Ty, ss: seq<Val>, items: seq<Val>, c: Context, pos: nat)
    requires WellFormed(t) && AllHaveType(t, ss) && AllHaveType(t, items) && |ss| == |items| && pos <= |c.data|
    requires Steady(t) && AllAgree(t, ss, items)
    ensures var r, o := SkipItems(t, ss, c, pos), DecodeElems(t, items, Plain, c, pos);
            Follows(Stepwise(t), Followable(t), r.code, r.pos, o.code, o.pos)
    decreases t, 1, |items|
  {
    hide Decode, HasType, WellFormed, Skip, Stepwise, Followable, Steady, Agree;
    if |items| > 0 {
      SkipEqualsRead(t, ss[0], items[0], c, pos);
      SkipItemsEqualsRead(t, ss[1..], items[1..], c, Decode(t, items[0], Plain, c, pos).pos);
    }
  }

  lemma {:induction false} SkipNewEqualsRead(shape: Shape, t: Ty, s: Val, item: Val, n: nat, c: Context, pos: nat)
    requires WellFormed(t) && HasType(t, s) && HasType(t, item) && Steady(t) && Reusable(t) && pos <= |c.data|
    ensures var r, o := SkipRun(t, s, n, c, pos), DecodeNew(shape, t, item, n, c, pos);
            Follows(Stepwise(t), Followable(t), r.code, r.pos, o.code, o.pos)
    decreases t, 1, n
  {
    hide Decode, HasType, WellFormed, Skip, Next, Stepwise, Followable, Steady, Reusable, Agree;
    if n > 0 {
      ReusableAgree(t, s, item);
      SkipEqualsRead(t, s, item, c, pos);
      var h := Decode(t, item, Plain, c, pos);
      SkipNewEqualsRead(shape, t, Skip(t, s, c, pos).item, Next(shape, t, h.item), n - 1, c, h.pos);
    }
  }

  lemma {:induction false} SkipContainerEqualsRead(shape: Shape, e: Ty, s: Val, item: Val, c: Context, pos: nat)
    requires WellFormed(e) && HasType(Container(shape, e), s) && HasType(Container(shape, e), item) && pos <= |c.data|
    requires Steady(e) && Reusable(e)
    ensures var r, o := SkipContainer(shape, e, s, c, pos), DecodeContainer(shape, e, item, c, pos);
            Follows(!(shape.Keyed? && e.Fixed?) && Stepwise(e), Followable(e), r.code, r.pos, o.code, o.pos)
    decreases e, 4
  {
    hide DecodeNew, SkipRun, FromLE, WellFormed, Stepwise, Followable, Steady, Reusable, Default;
    if pos + c.w <= |c.data| {
      var n := FromLE(c.data[pos..pos + c.w]);
      if n > 0 {
        SkipNewEqualsRead(shape, e, Default(e), Default(e), n, c, pos + c.w);
        if e.Fixed? { WholeElements(shape, e, Default(e), n, c, pos + c.w); }
      }
    }
  }

  /** Bulk-copied elements read one by one: all of them, or as many as are whole. */
  lemma {:induction false} WholeElements(shape: Shape, e: Ty, item: Val, n: nat, c: Context, pos: nat)
    requires e.Fixed? && HasType(e, item) && pos <= |c.data|
    ensures var r := DecodeNew(shape, e, item, n, c, pos);
            if pos + n * e.width <= |c.data| then r.code == Ok && r.pos == pos + n * e.width
            else r.code == NoBufferSpace && r.pos > |c.data| - e.width && (r.pos == pos <==> pos + e.width > |c.data|)
    decreases n
  {
    hide Next;
    if n > 0 {
      OneMore(n - 1, e.width);
      if pos + e.width <= |c.data| {
        WholeElements(shape, e, Next(shape, e, Decode(e, item, Plain, c, pos).item), n - 1, c, pos + e.width);
      } else {
        AtLeastOne(n, e.width);
      }
    }
  }

  lemma {:induction false} AtLeastOne(n: nat, width: nat)
    requires n > 0
    ensures n * width >= width
  {
  }

  lemma {:induction false} SkipStructEqualsRead(fast: bool, fs: seq<Ty>, s: Val, item: Val, c: Context, pos: nat)
    requires AllWellFormed(fs) && HasType(Struct(fast, fs), s) && HasType(Struct(fast, fs), item) && pos <= |c.data|
    requires HasTypes(fs, s.items) && HasTypes(fs, item.items) && AllSteady(fs) && FieldsAgree(fs, s.items, item.items)
    ensures var r, o := SkipStruct(fast, fs, s, c, pos), DecodeStruct(fast, fs, item, Plain, c, pos);
            Follows(AllStepwise(fs), AllFollowable(fs), r.code, r.pos, o.code, o.pos)
    decreases fs, 4
  {
    hide DecodeFields, ReadBlock, WellFormed, SkipFields, SkipBlock, Stepwise, Followable, Steady, Agree, FieldsAgree;
    if fast {
      var b := ReadBlock(fs, item.items, c.data, pos);
      SkipBlockEqualsRead(fs, item.items, c, pos);
      if b.code == Ok {
        BlockAgrees(fs, s.items, item.items, c.data, pos);
        SkipFieldsEqualsRead(true, fs, s.items, b.items, c, b.pos);
      }
    } else {
      SkipFieldsEqualsRead(false, fs, s.items, item.items, c, pos);
    }
  }

  /** The block only changes integers. */
  lemma {:induction false} BlockAgrees(ts: seq<Ty>, ss: seq<Val>, items: seq<Val>, data: bytes, pos: nat)
    requires HasTypes(ts, ss) && HasTypes(ts, items) && FieldsAgree(ts, ss, items) && pos <= |data|
    ensures FieldsAgree(ts, ss, ReadBlock(ts, items, data, pos).items)
  {
    hide ReadWords, CodeOf, Has64, VarCount, HasType, FieldsAgree;
    var cnt := VarCount(ts);
    if pos + BitmapSize(cnt) <= |data| {
      var vec := data[pos..pos + BitmapSize(cnt)];
      WordsAgree(ts, ss, items, vec, 0, CodeOf(vec, cnt), data, pos + BitmapSize(cnt));
    }
  }

  lemma {:induction false} WordsAgree(ts: seq<Ty>, ss: seq<Val>, items: seq<Val>, vec: bytes, idx: nat, code: int, data: bytes, pos: nat)
    requires HasTypes(ts, ss) && HasTypes(ts, items) && FieldsAgree(ts, ss, items)
    requires 0 <= code <= 3 && idx + VarCount(ts) <= 8 * |vec| && pos <= |data|
    ensures FieldsAgree(ts, ss, ReadWords(ts, items, vec, idx, code, data, pos).items)
    decreases |ts|
  {
    hide HasType, BitAt, RealWidth, WordValue, Agree;
    if |ts| > 0 {
      var all := ReadWords(ts, items, vec, idx, code, data, pos).items;
      FirstAgrees(ts[0], ss[0], items[0], all[0]);
      if !ts[0].Var? {
        WordsAgree(ts[1..], ss[1..], items[1..], vec, idx, code, data, pos);
      } else if !BitAt(vec, idx) {
        WordsAgree(ts[1..], ss[1..], items[1..], vec, idx + 1, code, data, pos);
      } else if pos + RealWidth(ts[0].kind, code) <= |data| {
        WordsAgree(ts[1..], ss[1..], items[1..], vec, idx + 1, code, data, pos + RealWidth(ts[0].kind, code));
      } else {
        assert all[1..] == items[1..];
      }
    }
  }

  lemma {:induction false} FirstAgrees(t: Ty, s: Val, item: Val, next: Val)
    requires HasType(t, s) && HasType(t, item) && HasType(t, next) && Agree(t, s, item) && (t.Var? || next == item)
    ensures Agree(t, s, next)
  {
  }

  lemma {:induction false} SkipFieldsEqualsRead(skip: bool, ts: seq<Ty>, ss: seq<Val>, items: seq<Val>, c: Context, pos: nat)
    requires AllWellFormed(ts) && HasTypes(ts, ss) && HasTypes(ts, items) && pos <= |c.data|
    requires AllSteady(ts) && FieldsAgree(ts, ss, items)
    ensures var r, o := SkipFields(skip, ts, ss, c, pos), DecodeFields(skip, ts, items, Plain, c, pos);
            Follows(AllStepwise(ts), AllFollowable(ts), r.code, r.pos, o.code, o.pos)
    decreases ts, 1
  {
    hide Decode, HasType, WellFormed, Skip, Stepwise, Followable, Steady, Agree;
    if |ts| > 0 {
      SkipEqualsRead(ts[0], ss[0], items[0], c, pos);
      var next := if skip && ts[0].Var? then pos else Decode(ts[0], items[0], Plain, c, pos).pos;
      SkipFieldsEqualsRead(skip, ts[1..], ss[1..], items[1..], c, next);
    }
  }

  lemma {:induction false} SkipBlockEqualsRead(ts: seq<Ty>, items: seq<Val>, c: Context, pos: nat)
    requires HasTypes(ts, items) && pos <= |c.data|
    ensures var r := ReadBlock(ts, items, c.data, pos); SkipBlock(ts, c, pos) == Skipped(r.code, r.pos)
  {
    hide ReadWords, SkipWords, CodeOf, Has64, VarCount, HasType;
    var cnt := VarCount(ts);
    if pos + BitmapSize(cnt) <= |c.data| {
      var vec := c.data[pos..pos + BitmapSize(cnt)];
      SkipWordsEqualsRead(ts, items, vec, 0, CodeOf(vec, cnt), c, pos + BitmapSize(cnt));
    }
  }

  lemma {:induction false} SkipWordsEqualsRead(ts: seq<Ty>, items: seq<Val>, vec: bytes, idx: nat, code: int, c: Context, pos: nat)
    requires HasTypes(ts, items) && 0 <= code <= 3 && idx + VarCount(ts) <= 8 * |vec| && pos <= |c.data|
    ensures var r := ReadWords(ts, items, vec, idx, code, c.data, pos);
            SkipWords(ts, vec, idx, code, c, pos) == Skipped(r.code, r.pos)
    decreases |ts|
  {
    hide HasType, BitAt, RealWidth, WordValue;
    if |ts| > 0 {
      if !ts[0].Var? {
        SkipWordsEqualsRead(ts[1..], items[1..], vec, idx, code, c, pos);
      } else if !BitAt(vec, idx) {
        SkipWordsEqualsRead(ts[1..], items[1..], vec, idx + 1, code, c, pos);
      } else if pos + RealWidth(ts[0].kind, code) <= |c.data| {
        SkipWordsEqualsRead(ts[1..], items[1..], vec, idx + 1, code, c, pos + RealWidth(ts[0].kind, code));
      }
    }
  }

  function OptionalSet(width: nat): (t: Ty)
    ensures WellFormed(t) && HasType(t, Null)
  {
    var e := Container(Keyed, Fixed(width));
    assert WellFormed(Fixed(width)) && WellFormed(e);
    Optional(e)
  }

  /** An optional set of bulk-copied elements drops the code of the set, so reading succeeds on
      any bytes. Skipping then agrees exactly if the announced elements are all there or not
      even one of them is. */
  lemma {:induction false} OptionalSetSkipped(width: nat, c: Context, pos: nat)
    requires pos + 1 + c.w <= |c.data| && c.data[pos] != 0
    ensures var n, room := FromLE(c.data[pos + 1..pos + 1 + c.w]), |c.data| - (pos + 1 + c.w);
            var r, o := Skip(OptionalSet(width), Null, c, pos), Decode(OptionalSet(width), Null, Plain, c, pos);
            o.code == Ok && r.code == Ok && (r.pos == o.pos <==> n * width <= room || room < width)
  {
    hide FromLE, DecodeNew, DecodeContainer, SkipContainer, Collect, Span;
    var e := Container(Keyed, Fixed(width));
    assert WellFormed(Fixed(width)) && WellFormed(e) && Default(e) == Items([]) && HasType(e, Items([]));
    SetSkipped(width, c, pos + 1);
    assert Skip(e, Items([]), c, pos + 1) == SkipContainer(Keyed, Fixed(width), Items([]), c, pos + 1);
    assert Decode(e, Items([]), Plain, c, pos + 1) == DecodeContainer(Keyed, Fixed(width), Items([]), c, pos + 1);
  }

  lemma {:induction false} SetSkipped(width: nat, c: Context, pos: nat)
    requires pos + c.w <= |c.data|
    ensures HasType(Container(Keyed, Fixed(width)), Items([]))
    ensures var n, room := FromLE(c.data[pos..pos + c.w]), |c.data| - (pos + c.w);
            var r, o := SkipContainer(Keyed, Fixed(width), Items([]), c, pos), DecodeContainer(Keyed, Fixed(width), Items([]), c, pos);
            && r.code != BadAccess && o.code != BadAccess
            && (r.pos == o.pos <==> n * width <= room || room < width)
  {
    hide FromLE, DecodeNew, SkipRun;
    var n := FromLE(c.data[pos..pos + c.w]);
    if n > 0 { WholeElements(Keyed, Fixed(width), Default(Fixed(width)), n, c, pos + c.w); }
  }

  // ---- skipping what was serialised ----------------------------------------------------------------------

  /** What is left in the object when v has been skipped over it without an exception. */
  function After(t: Ty, s: Val, v: Val): (r: Val)
    requires WellFormed(t) && HasType(t, s) && HasType(t, v)
    ensures HasType(t, r)
    decreases t, 0
  {
    match t
    case Fixed(_) => s
    case Var(_) => s
    case Array(_, e) => Items(AfterAll(e, s.items, v.items))
    case Container(shape, e) => if |v.items| > 0 && shape.Keyed? && !e.Fixed? then Items([]) else s
    case Optional(e, _) => if v.Null? then s else Some(After(e, Default(e), v.value))
    case Expected(a, e) =>
      if v.index == 0 then Alt(0, After(e, Default(e), v.value))
      else if s.index == 1 then Alt(1, After(a, s.value, v.value)) else s
    case Variant(alts) => Alt(v.index, After(alts[v.index], Default(alts[v.index]), v.value))
    case Struct(fast, fs) => Items(AfterFields(fast, fs, s.items, v.items))
    case Compatible(_, _) => s
  }

  function AfterAll(t: Ty, ss: seq<Val>, vs: seq<Val>): (r: seq<Val>)
    requires WellFormed(t) && AllHaveType(t, ss) && AllHaveType(t, vs) && |ss| == |vs|
    ensures |r| == |ss| && AllHaveType(t, r)
    decreases t, 1, |vs|
  {
    if |vs| == 0 then [] else [After(t, ss[0], vs[0])] + AfterAll(t, ss[1..], vs[1..])
  }

  function AfterFields(skip: bool, ts: seq<Ty>, ss: seq<Val>, vs: seq<Val>): (r: seq<Val>)
    requires AllWellFormed(ts) && HasTypes(ts, ss) && HasTypes(ts, vs)
    ensures HasTypes(ts, r)
    decreases ts, 1
  {
    if |ts| == 0 then []
    else [if skip && ts[0].Var? then ss[0] else After(ts[0], ss[0], vs[0])] + AfterFields(skip, ts[1..], ss[1..], vs[1..])
  }

  /** Skipping v over the object s throws no exception: no value of an expected is asked for
      after an error has been skipped into the same place. */
  predicate Skippable(t: Ty, s: Val, v: Val)
    requires WellFormed(t) && HasType(t, s) && HasType(t, v)
    decreases t, 0
  {
    match t
    case Fixed(_) => true
    case Var(_) => true
    case Array(_, e) => AllSkippable(e, s.items, v.items)
    case Container(shape, e) => (e.Fixed? && !shape.List?) || RunSkippable(e, Default(e), v.items)
    case Optional(e, _) => v.Null? || Skippable(e, Default(e), v.value)
    case Expected(a, e) =>
      if v.index == 0 then Skippable(e, Default(e), v.value) else s.index == 1 && Skippable(a, s.value, v.value)
    case Variant(alts) => Skippable(alts[v.index], Default(alts[v.index]), v.value)
    case Struct(fast, fs) => FieldsSkippable(fast, fs, s.items, v.items)
    case Compatible(_, _) => true
  }

  predicate AllSkippable(t: Ty, ss: seq<Val>, vs: seq<Val>)
    requires WellFormed(t) && AllHaveType(t, ss) && AllHaveType(t, vs) && |ss| == |vs|
    decreases t, 1, |vs|
  {
    |vs| == 0 || (Skippable(t, ss[0], vs[0]) && AllSkippable(t, ss[1..], vs[1..]))
  }

  predicate RunSkippable(t: Ty, s: Val, vs: seq<Val>)
    requires WellFormed(t) && HasType(t, s) && AllHaveType(t, vs)
    decreases t, 1, |vs|
  {
    |vs| == 0 || (Skippable(t, s, vs[0]) && RunSkippable(t, After(t, s, vs[0]), vs[1..]))
  }

  predicate FieldsSkippable(skip: bool, ts: seq<Ty>, ss: seq<Val>, vs: seq<Val>)
    requires AllWellFormed(ts) && HasTypes(ts, ss) && HasTypes(ts, vs)
    decreases ts, 1
  {
    |ts| == 0
    || (((skip && ts[0].Var?) || Skippable(ts[0], ss[0], vs[0])) && FieldsSkippable(skip, ts[1..], ss[1..], vs[1..]))
  }

  /** What is to be shown of a skip. */
  predicate Skips(code: Code, pos: nat, end: nat, throws: bool, skippable: bool, exact: bool) {
    if skippable then code == Ok && pos == end && exact else code == BadAccess && throws
  }

  ghost predicate SkipsOver(t: Ty, s: Val, v: Val, c: Context, pos: nat)
    requires Typed(t, v) && HasType(t, s) && pos <= |c.data|
  {
    var r := Skip(t, s, c, pos);
    Skips(r.code, r.pos, pos + |Encode(t, v, Plain, c.w)|, HasExpected(t), Skippable(t, s, v), r.item == After(t, s, v))
  }

  /** Where a value was serialised, skipping goes to its end, whatever its type, exactly if no
      value of an expected is asked for where an error stands. */
  lemma {:induction false} SkipSerialized(t: Ty, s: Val, v: Val, c: Context, pos: nat)
    requires Typed(t, v) && HasType(t, s) && Fits(t, v, c.w)
    requires At(c.data, pos, Encode(t, v, Plain, c.w))
    ensures SkipsOver(t, s, v, c, pos)
    decreases t, 0
  {
    hide At, EncodeElems, EncodeFields, SkipItems, SkipContainer, SkipStruct, SkipVar, MaxLengthElems, MaxLengthFields,
         EncodeBlock, HasVersion, EncodeVar, Span, Collect, Default, AllSkippable, RunSkippable, FieldsSkippable, AfterAll,
         AfterFields;
    match t
    case Fixed(_) =>
    case Var(k) => SkipSerializedVar(k, v, c, pos);
    case Array(_, e) => SkipSerializedItems(e, s.items, v.items, c, pos);
    case Container(shape, e) => SkipSerializedContainer(shape, e, s, v, c, pos);
    case Optional(e, _) => SkipSerializedOptional(e, s, v, c, pos);
    case Expected(a, e) => SkipSerializedExpected(a, e, s, v, c, pos);
    case Variant(alts) => SkipSerializedVariant(alts, s, v, c, pos);
    case Struct(fast, fs) => SkipSerializedStruct(fast, fs, s, v, c, pos);
    case Compatible(_, _) =>
  }

  lemma {:induction false} SkipSerializedVar(k: VarKind, v: Val, c: Context, pos: nat)
    requires HasType(Var(k), v) && At(c.data, pos, EncodeVar(k, v.n))
    ensures SkipVar(c, pos) == Skipped(Ok, pos + |EncodeVar(k, v.n)|)
  {
    hide EncodeVar, DecodeVar, SkipVar, At;
    VarRoundTrip(k, Num(0), v, c, pos);
    SkipVarEqualsRead(k, Num(0), c, pos);
  }

  ghost predicate SkipsItems(e: Ty, ss: seq<Val>, vs: seq<Val>, c: Context, pos: nat)
    requires WellFormed(e) && AllHaveType(e, ss) && AllHaveType(e, vs) && |ss| == |vs| && pos <= |c.data|
  {
    var r := SkipItems(e, ss, c, pos);
    Skips(r.code, r.pos, pos + |EncodeElems(e, vs, Plain, c.w)|, HasExpected(e), AllSkippable(e, ss, vs),
          r.items == AfterAll(e, ss, vs))
  }

  lemma {:induction false} SkipItemsFirst(t: Ty, items: seq<Val>, c: Context, pos: nat)
    requires WellFormed(t) && AllHaveType(t, items) && |items| > 0 && pos <= |c.data|
    ensures var h := Skip(t, items[0], c, pos);
            var o := SkipItems(t, items, c, pos);
            if h.code != Ok then o.code == h.code && o.pos == h.pos
            else
              var r := SkipItems(t, items[1..], c, h.pos);
              o == SkipOutcomes(r.code, [h.item] + r.items, r.pos)
  {
    hide Skip, HasType, WellFormed;
  }

  lemma {:induction false} SkipSerializedItems(e: Ty, ss: seq<Val>, vs: seq<Val>, c: Context, pos: nat)
    requires WellFormed(e) && AllHaveType(e, ss) && AllHaveType(e, vs) && |ss| == |vs| && MaxLengthElems(e, vs) < Span(c.w)
    requires At(c.data, pos, EncodeElems(e, vs, Plain, c.w))
    ensures SkipsItems(e, ss, vs, c, pos)
    decreases e, 1, |vs|
  {
    hide At, Skip, SkipItems, Encode, EncodeElems, MaxLength, MaxLengthElems, HasType, WellFormed, Span, After, Skippable,
         HasExpected;
    ElemsBegin(e, vs, c.w);
    if |vs| == 0 {
      NoItemsToSkip(e, ss, c, pos);
    } else {
      var first := Encode(e, vs[0], Plain, c.w);
      AtConcat(c.data, pos, first, EncodeElems(e, vs[1..], Plain, c.w));
      SkipItemsFirst(e, ss, c, pos);
      SkipSerialized(e, ss[0], vs[0], c, pos);
      if Skippable(e, ss[0], vs[0]) { SkipSerializedItems(e, ss[1..], vs[1..], c, pos + |first|); }
    }
  }

  lemma {:induction false} NoItemsToSkip(t: Ty, items: seq<Val>, c: Context, pos: nat)
    requires WellFormed(t) && AllHaveType(t, items) && |items| == 0 && pos <= |c.data|
    ensures SkipItems(t, items, c, pos) == SkipOutcomes(Ok, [], pos)
  {
    hide Skip, HasType, WellFormed;
  }

  ghost predicate SkipsRun(e: Ty, s: Val, vs: seq<Val>, c: Context, pos: nat)
    requires WellFormed(e) && HasType(e, s) && AllHaveType(e, vs) && pos <= |c.data|
  {
    var r := SkipRun(e, s, |vs|, c, pos);
    Skips(r.code, r.pos, pos + |EncodeElems(e, vs, Plain, c.w)|, HasExpected(e), RunSkippable(e, s, vs), true)
  }

  lemma {:induction false} SkipRunFirst(t: Ty, item: Val, n: nat, c: Context, pos: nat)
    requires WellFormed(t) && HasType(t, item) && pos <= |c.data|
    ensures n == 0 ==> SkipRun(t, item, n, c, pos) == Skipped(Ok, pos)
    ensures n > 0 ==>
              var h := Skip(t, item, c, pos);
              SkipRun(t, item, n, c, pos) == if h.code != Ok then Skipped(h.code, h.pos) else SkipRun(t, h.item, n - 1, c, h.pos)
  {
    hide Skip, HasType, WellFormed;
  }

  lemma {:induction false} RunSkippableFirst(e: Ty, s: Val, vs: seq<Val>)
    requires WellFormed(e) && HasType(e, s) && AllHaveType(e, vs) && |vs| > 0
    ensures RunSkippable(e, s, vs) <==> Skippable(e, s, vs[0]) && RunSkippable(e, After(e, s, vs[0]), vs[1..])
  {
    hide After, Skippable, HasType, WellFormed;
  }

  lemma {:induction false} SkipSerializedRun(e: Ty, s: Val, vs: seq<Val>, c: Context, pos: nat)
    requires WellFormed(e) && HasType(e, s) && AllHaveType(e, vs) && MaxLengthElems(e, vs) < Span(c.w)
    requires At(c.data, pos, EncodeElems(e, vs, Plain, c.w))
    ensures SkipsRun(e, s, vs, c, pos)
    decreases e, 1, |vs|
  {
    hide At, Skip, SkipRun, Encode, EncodeElems, MaxLength, MaxLengthElems, HasType, WellFormed, Span, After, Skippable,
         HasExpected, RunSkippable;
    if |vs| > 0 { RunSkippableFirst(e, s, vs); } else { NothingToSkipIn(e, s, vs); }
    ElemsBegin(e, vs, c.w);
    SkipRunFirst(e, s, |vs|, c, pos);
    if |vs| > 0 {
      var first := Encode(e, vs[0], Plain, c.w);
      AtConcat(c.data, pos, first, EncodeElems(e, vs[1..], Plain, c.w));
      SkipSerialized(e, s, vs[0], c, pos);
      if Skippable(e, s, vs[0]) { SkipSerializedRun(e, After(e, s, vs[0]), vs[1..], c, pos + |first|); }
    }
  }

  lemma {:induction false} NothingToSkipIn(e: Ty, s: Val, vs: seq<Val>)
    requires WellFormed(e) && HasType(e, s) && AllHaveType(e, vs) && |vs| == 0
    ensures RunSkippable(e, s, vs)
  {
  }

  ghost predicate SkipsContainer(shape: Shape, e: Ty, s: Val, v: Val, c: Context, pos: nat)
    requires Typed(Container(shape, e), v) && HasType(Container(shape, e), s) && pos <= |c.data|
  {
    var r := SkipContainer(shape, e, s, c, pos);
    Skips(r.code, r.pos, pos + |Encode(Container(shape, e), v, Plain, c.w)|, HasExpected(e),
          Skippable(Container(shape, e), s, v), r.item == After(Container(shape, e), s, v))
  }

  lemma {:induction false} SkipSerializedContainer(shape: Shape, e: Ty, s: Val, v: Val, c: Context, pos: nat)
    requires Typed(Container(shape, e), v) && HasType(Container(shape, e), s) && Fits(Container(shape, e), v, c.w)
    requires At(c.data, pos, Encode(Container(shape, e), v, Plain, c.w))
    ensures SkipsContainer(shape, e, s, v, c, pos)
    decreases e, 4
  {
    hide Skip, SkipRun, MaxLengthElems, LE, FromLE, Span, EncodeElems, RunSkippable, HasExpected, Default;
    var length, body := LE(c.w, |v.items|), EncodeElems(e, v.items, Plain, c.w);
    AtConcat(c.data, pos, length, body);
    LERoundTrip(c.w, |v.items|);
    SkipSerializedRun(e, Default(e), v.items, c, pos + c.w);
    if e.Fixed? { BulkBytes(e, v.items, c.w); }
    if |v.items| == 0 { NothingToSkip(e, v.items, c.w); }
  }

  lemma {:induction false} NothingToSkip(e: Ty, vs: seq<Val>, w: nat)
    requires WellFormed(e) && AllHaveType(e, vs) && |vs| == 0
    ensures EncodeElems(e, vs, Plain, w) == [] && RunSkippable(e, Default(e), vs)
  {
  }

  ghost predicate SkipsOptional(e: Ty, s: Val, v: Val, c: Context, pos: nat)
    requires Typed(Optional(e), v) && HasType(Optional(e), s) && pos <= |c.data|
  {
    var r := Skip(Optional(e), s, c, pos);
    Skips(r.code, r.pos, pos + 1 + (if v.Some? then |Encode(e, v.value, Plain, c.w)| else 0), HasExpected(e),
          Skippable(Optional(e), s, v), r.item == After(Optional(e), s, v))
  }

  lemma {:induction false} SkipSerializedOptional(e: Ty, s: Val, v: Val, c: Context, pos: nat)
    requires Typed(Optional(e), v) && HasType(Optional(e), s) && Fits(Optional(e), v, c.w)
    requires At(c.data, pos, [if v.Some? then 1 else 0] + (if v.Some? then Encode(e, v.value, Plain, c.w) else []))
    ensures SkipsOptional(e, s, v, c, pos)
    decreases e, 4
  {
    hide Encode, MaxLength, Known, Default, HasType, Span, HasExpected;
    OptionalParts(e, v, c.w);
    var flag: byte := if v.Some? then 1 else 0;
    AtConcat(c.data, pos, [flag], if v.Some? then Encode(e, v.value, Plain, c.w) else []);
    assert c.data[pos] == c.data[pos..pos + 1][0];
    if v.Some? { SkipSerialized(e, Default(e), v.value, c, pos + 1); }
  }

  ghost predicate SkipsExpected(a: Ty, e: Ty, s: Val, v: Val, c: Context, pos: nat)
    requires Typed(Expected(a, e), v) && HasType(Expected(a, e), s) && pos <= |c.data|
    requires Typed(if v.index == 1 then a else e, v.value)
  {
    var r := Skip(Expected(a, e), s, c, pos);
    Skips(r.code, r.pos, pos + 1 + |Encode(if v.index == 1 then a else e, v.value, Plain, c.w)|, true,
          Skippable(Expected(a, e), s, v), r.item == After(Expected(a, e), s, v))
  }

  lemma {:induction false} SkipSerializedExpected(a: Ty, e: Ty, s: Val, v: Val, c: Context, pos: nat)
    requires Typed(Expected(a, e), v) && HasType(Expected(a, e), s) && Fits(Expected(a, e), v, c.w)
    requires At(c.data, pos, [v.index] + Encode(if v.index == 1 then a else e, v.value, Plain, c.w))
    ensures SkipsExpected(a, e, s, v, c, pos)
    decreases Expected(a, e), -1
  {
    hide Encode, MaxLength, Known, Default, Span, HasExpected, Collect;
    ExpectedParts(a, e, v, c.w);
    AtConcat(c.data, pos, [v.index], Encode(if v.index == 1 then a else e, v.value, Plain, c.w));
    assert c.data[pos] == c.data[pos..pos + 1][0];
    if v.index == 0 {
      SkipSerialized(e, Default(e), v.value, c, pos + 1);
    } else if s.index == 1 {
      SkipSerialized(a, s.value, v.value, c, pos + 1);
    }
  }

  ghost predicate SkipsVariant(alts: seq<Ty>, s: Val, v: Val, c: Context, pos: nat)
    requires Typed(Variant(alts), v) && HasType(Variant(alts), s) && pos <= |c.data|
  {
    var r := Skip(Variant(alts), s, c, pos);
    Skips(r.code, r.pos, pos + |Encode(Variant(alts), v, Plain, c.w)|, AnyExpected(alts),
          Skippable(Variant(alts), s, v), r.item == After(Variant(alts), s, v))
  }

  lemma {:induction false} SkipSerializedVariant(alts: seq<Ty>, s: Val, v: Val, c: Context, pos: nat)
    requires Typed(Variant(alts), v) && HasType(Variant(alts), s) && Fits(Variant(alts), v, c.w)
    requires At(c.data, pos, Encode(Variant(alts), v, Plain, c.w))
    ensures SkipsVariant(alts, s, v, c, pos)
    decreases alts, 4
  {
    hide EncodeElems, EncodeFields, SkipItems, SkipFields, MaxLengthElems, MaxLengthFields, EncodeBlock, Collect, Span, Default,
         HasExpected, HasVersion;
    AtConcat(c.data, pos, [v.index], Encode(alts[v.index], v.value, Plain, c.w));
    assert c.data[pos] == c.data[pos..pos + 1][0];
    SkipSerialized(alts[v.index], Default(alts[v.index]), v.value, c, pos + 1);
  }

  ghost predicate SkipsStruct(fast: bool, fs: seq<Ty>, s: Val, v: Val, c: Context, pos: nat)
    requires Typed(Struct(fast, fs), v) && HasType(Struct(fast, fs), s) && pos <= |c.data|
    requires AllWellFormed(fs) && HasTypes(fs, s.items) && HasTypes(fs, v.items)
  {
    var r := SkipStruct(fast, fs, s, c, pos);
    Skips(r.code, r.pos, pos + |Encode(Struct(fast, fs), v, Plain, c.w)|, AnyExpected(fs),
          FieldsSkippable(fast, fs, s.items, v.items), r.item == Items(AfterFields(fast, fs, s.items, v.items)))
  }

  lemma {:induction false} SkipSerializedStruct(fast: bool, fs: seq<Ty>, s: Val, v: Val, c: Context, pos: nat)
    requires Typed(Struct(fast, fs), v) && HasType(Struct(fast, fs), s) && Fits(Struct(fast, fs), v, c.w)
    requires At(c.data, pos, Encode(Struct(fast, fs), v, Plain, c.w))
    ensures AllWellFormed(fs) && HasTypes(fs, s.items) && HasTypes(fs, v.items)
    ensures SkipsStruct(fast, fs, s, v, c, pos)
    decreases fs, 4
  {
    hide At, Encode, MaxLength, Known, HasType, WellFormed, EncodeFields, KnownFields, MaxLengthFields, EncodeBlock,
         Defaults, Collect, ReadBlock, SkipBlock, SkipFields, Overlay, VarCount, Span, FieldsSkippable, AfterFields, AnyExpected;
    StructParts(fast, fs, v, c.w);
    StructParts(fast, fs, s, c.w);
    var body := EncodeFields(fast, fs, v.items, Plain, c.w);
    if fast {
      var i :| 0 <= i < |fs| && fs[i].Var?;
      VarCountPositive(fs, i);
      AtConcat(c.data, pos, EncodeBlock(fs, v.items), body);
      BlockRoundTrip(fs, v.items, s.items, c.data, pos);
      SkipBlockEqualsRead(fs, s.items, c, pos);
      SkipSerializedFields(true, fs, s.items, v.items, c, pos + |EncodeBlock(fs, v.items)|);
    } else {
      assert Encode(Struct(fast, fs), v, Plain, c.w) == body;
      SkipSerializedFields(false, fs, s.items, v.items, c, pos);
    }
  }

  ghost predicate SkipsFields(skip: bool, ts: seq<Ty>, ss: seq<Val>, vs: seq<Val>, c: Context, pos: nat)
    requires AllWellFormed(ts) && HasTypes(ts, ss) && HasTypes(ts, vs) && pos <= |c.data|
  {
    var r := SkipFields(skip, ts, ss, c, pos);
    Skips(r.code, r.pos, pos + |EncodeFields(skip, ts, vs, Plain, c.w)|, AnyExpected(ts), FieldsSkippable(skip, ts, ss, vs),
          r.items == AfterFields(skip, ts, ss, vs))
  }

  lemma {:induction false} SkipSerializedFields(skip: bool, ts: seq<Ty>, ss: seq<Val>, vs: seq<Val>, c: Context, pos: nat)
    requires AllWellFormed(ts) && HasTypes(ts, ss) && HasTypes(ts, vs) && MaxLengthFields(ts, vs) < Span(c.w)
    requires At(c.data, pos, EncodeFields(skip, ts, vs, Plain, c.w))
    ensures SkipsFields(skip, ts, ss, vs, c, pos)
    decreases ts, 1
  {
    hide At, Skip, Encode, EncodeFields, MaxLength, MaxLengthFields, HasType, WellFormed, Span, After, Skippable, HasExpected,
         AnyExpected;
    if |ts| == 0 {
      NoFieldBytes(skip, ts, vs, c.w);
    } else {
      FieldsBegin(skip, ts, vs, c.w);
      ExpectedFirst(ts);
      var first := if skip && ts[0].Var? then [] else Encode(ts[0], vs[0], Plain, c.w);
      AtConcat(c.data, pos, first, EncodeFields(skip, ts[1..], vs[1..], Plain, c.w));
      if skip && ts[0].Var? {
        SkipSerializedFields(skip, ts[1..], ss[1..], vs[1..], c, pos);
      } else {
        SkipSerialized(ts[0], ss[0], vs[0], c, pos);
        if Skippable(ts[0], ss[0], vs[0]) { SkipSerializedFields(skip, ts[1..], ss[1..], vs[1..], c, pos + |first|); }
      }
    }
  }

  lemma {:induction false} NoFieldBytes(skip: bool, ts: seq<Ty>, vs: seq<Val>, w: nat)
    requires AllWellFormed(ts) && HasTypes(ts, vs) && |ts| == 0
    ensures EncodeFields(skip, ts, vs, Plain, w) == []
  {
  }

  /** A list of expecteds with a value behind an error: reading gives it back if its elements can
      be restored, skipping throws an exception. */
  lemma {:induction false} ErrorThenValue(a: Ty, e: Ty, x: Val, y: Val)
    requires Typed(a, y) && Typed(e, x) && Skippable(e, Default(e), x)
    ensures WellFormed(Container(List, Expected(a, e))) && HasType(Container(List, Expected(a, e)), Items([Alt(0, x), Alt(1, y)]))
    ensures !Skippable(Container(List, Expected(a, e)), Items([]), Items([Alt(0, x), Alt(1, y)]))
    ensures Restorable(e, x) && Restorable(a, y) ==> Restorable(Container(List, Expected(a, e)), Items([Alt(0, x), Alt(1, y)]))
  {
    hide Collect;
    var t, vs := Expected(a, e), [Alt(0, x), Alt(1, y)];
    assert WellFormed(t) && HasType(t, vs[0]) && HasType(t, vs[1]);
    assert vs[1..] == [Alt(1, y)] && vs[1..][1..] == [];
    assert After(t, Default(t), vs[0]).index == 0;
    assert !RunSkippable(t, After(t, Default(t), vs[0]), vs[1..]);
    if Restorable(e, x) && Restorable(a, y) {
      assert Covers(t, Default(t), vs[1]);
      assert Chain(List, t, Default(t), vs[1..]);
      assert Chain(List, t, Default(t), vs);
    }
  }

  // ---- reading one field ----------------------------------------------------------------------------------

  /** Field i can be reached and restored. */
  predicate Reachable(ts: seq<Ty>, vs: seq<Val>, i: nat)
    requires AllWellFormed(ts) && HasTypes(ts, vs) && i < |ts|
  {
    if i == 0 then Restorable(ts[0], vs[0]) else Skippable(ts[0], Default(ts[0]), vs[0]) && Reachable(ts[1..], vs[1..], i - 1)
  }

  lemma {:induction false} NthOfSerialized(ts: seq<Ty>, vs: seq<Val>, i: nat, c: Context, pos: nat)
    requires AllWellFormed(ts) && HasTypes(ts, vs) && MaxLengthFields(ts, vs) < Span(c.w) && i < |ts|
    requires At(c.data, pos, EncodeFields(false, ts, vs, Plain, c.w))
    ensures var r := ReadNth(ts, i, c, pos);
            if Reachable(ts, vs, i) then r.code == Ok && r.item == Known(ts[i], vs[i], {})
            else r.code == BadAccess || Known(ts[i], r.item, {}) != Known(ts[i], vs[i], {})
    decreases ts
  {
    hide At, Skip, Decode, Encode, MaxLength, Known, HasType, WellFormed, Span, EncodeFields, MaxLengthFields, Default, Restorable,
         Skippable, After, HasExpected;
    var first := Encode(ts[0], vs[0], Plain, c.w);
    FieldsBegin(false, ts, vs, c.w);
    AtConcat(c.data, pos, first, EncodeFields(false, ts[1..], vs[1..], Plain, c.w));
    if i == 0 {
      PlainRoundTrip(ts[0], vs[0], c, pos);
    } else {
      SkipSerialized(ts[0], Default(ts[0]), vs[0], c, pos);
      if Skippable(ts[0], Default(ts[0]), vs[0]) { NthOfSerialized(ts[1..], vs[1..], i - 1, c, pos + |first|); }
    }
  }

  /** Field i of a serialised struct that is coded field by field comes back exactly if it can be
      reached and restored. */
  lemma {:induction false} FieldOfSerialized(conf: Conf, fs: seq<Ty>, v: Val, i: nat, data: bytes, pos: nat)
    requires Legal(conf, Struct(false, fs)) && !HasCompatible(Struct(false, fs)) && AllWellFormed(fs)
    requires HasType(Struct(false, fs), v) && HasTypes(fs, v.items) && i < |fs| && Addressable(conf, Struct(false, fs), v)
    requires At(data, pos, Serialize(conf, Struct(false, fs), v))
    ensures var r := GetField(conf, Struct(false, fs), fs, i, data, pos);
            r.code == Ok && r.item == v.items[i] <==> Reachable(fs, v.items, i)
  {
    var t := Struct(false, fs);
    hide At, Encode, HasType, WellFormed, HasCompatible, DecodeHead, EncodeHead, EncodeVersions, ReadNth, RuntimeInfo, Fits,
         WordWidth, VersionsOf, MaxLength, MaxLengthFields, Default, EncodeFields, Known, KnownFields, EncodeBlock, Span, Reachable;
    PartsAt(conf, t, v, data, pos);
    HeadReads(conf, t, v, data, pos);
    WidthFits(conf, t, v);
    var c := ContextOf(conf, t, v, data, pos);
    StructParts(false, fs, v, c.w);
    assert Encode(t, v, Plain, c.w) == EncodeFields(false, fs, v.items, Plain, c.w);
    NthOfSerialized(fs, v.items, i, c, pos + |EncodeHead(conf, t, RuntimeInfo(conf, t, v))|);
    FieldKnown(fs, v, i);
  }

  lemma {:induction false} FieldKnown(fs: seq<Ty>, v: Val, i: nat)
    requires Typed(Struct(false, fs), v) && !HasCompatible(Struct(false, fs)) && i < |fs|
    ensures Known(fs[i], v.items[i], {}) == v.items[i]
  {
    hide Collect, Known;
    forall n ensures !HasVersion(fs[i], n) {
      CollectFindsVersions(Struct(false, fs), n);
      assert HasVersion(fs[i], n) ==> HasVersion(Struct(false, fs), n);
    }
    KnownAll(fs[i], v.items[i], {});
  }

  // ---- fields that are seen otherwise than they were written ---------------------------------------------

  /** The item shows the value: it is that value, or a plain integer with the same bits. */
  predicate Shows(item: Val, v: Val) {
    item == v || (item.Blob? && v.Num? && FromLE(item.bytes) == v.n % Span(|item.bytes|))
  }

  /** What a struct's tag makes a varint is a plain integer outside of it. */
  predicate SeenAs(t: Ty, u: Ty) {
    u == t || (t.Var? && !t.kind.ZigZag() && u == Fixed(t.kind.Width()))
  }

  predicate AllSeenAs(ts: seq<Ty>, us: seq<Ty>) {
    |us| == |ts| && forall i | 0 <= i < |ts| :: SeenAs(ts[i], us[i])
  }

  lemma {:induction false} LowBitOfScan(data: bytes, pos: nat, room: nat)
    requires pos < |data| && ScanLeb(data, pos, room).Value?
    ensures ScanLeb(data, pos, room).total % 2 == data[pos] % 2
  {
  }

  /** Narrowing keeps the low bit. */
  lemma {:induction false} LowBitOfUnwire(k: VarKind, u: nat)
    requires !k.ZigZag()
    ensures k.Unwire(u % TWO_64) % 2 == u % 2
  {
    hide Span, Signed;
    SpanValues();
    EvenModulus(u, 0x8000_0000_0000_0000);
    var x := u % TWO_64;
    LowBitOfNarrow(k, x);
    LowBitOfSigned(k.Width(), x % Span(k.Width()));
  }

  lemma {:induction false} LowBitOfNarrow(k: VarKind, x: nat)
    ensures 0 < Span(k.Width()) && x % Span(k.Width()) % 2 == x % 2
  {
    hide Span;
    SpanValues();
    EvenModulus(x, if k.Wide() then 0x8000_0000_0000_0000 else 0x8000_0000);
  }

  lemma {:induction false} LowBitOfSigned(width: nat, x: nat)
    requires width == 4 || width == 8
    ensures Signed(width, x) % 2 == x % 2
  {
    hide Span;
    SpanValues();
    if 2 * x >= Span(width) { EvenShift(x, if width == 4 then 0x8000_0000 else 0x8000_0000_0000_0000); }
  }

  lemma {:induction false} EvenShift(x: int, half: int)
    ensures (x - 2 * half) % 2 == x % 2
  {
  }

  lemma {:induction false} EvenModulus(x: nat, half: nat)
    requires half > 0
    ensures x % (2 * half) % 2 == x % 2
  {
    var q, r := x / (2 * half), x % (2 * half);
    assert x == 2 * half * q + r;
    assert 2 * half * q == 2 * (half * q);
  }

  /** The block starts with the mark of the first integer. */
  lemma {:induction false} BlockStartsOdd(ts: seq<Ty>, vs: seq<Val>)
    requires HasTypes(ts, vs) && |ts| > 0 && ts[0].Var? && vs[0].n != 0
    ensures |EncodeBlock(ts, vs)| > 0 && EncodeBlock(ts, vs)[0] % 2 == 1
  {
    hide EncodeWords, WidthCode, BlockBits, Bitmap, CodeOf, HasType;
    var vec := Bitmap(BlockBits(ts, vs));
    BlockMarks(ts, vs);
    assert BitAt(vec, 0) == NonZero(ts, vs)[0 - 0];
  }

  /** Read where a number stands whose lowest bit is set, an even number does not come back. */
  lemma {:induction false} OddMisread(k: VarKind, u: Ty, n: int, c: Context, pos: nat)
    requires !k.ZigZag() && SeenAs(Var(k), u)
    requires pos < |c.data| && c.data[pos] % 2 == 1 && n % 2 == 0
    ensures WellFormed(u)
    ensures var r := Decode(u, Default(u), Plain, c, pos); r.code == Ok ==> !Shows(r.item, Num(n))
  {
    hide ScanLeb, VarKind.Unwire, Span;
    match ScanLeb(c.data, pos, MAX_VARINT_LENGTH)
    case Value(total, _) =>
      LowBitOfScan(c.data, pos, MAX_VARINT_LENGTH);
      LowBitOfUnwire(k, total);
      if u.Fixed? && pos + u.width <= |c.data| { LowBitOfBytes(c.data[pos..pos + u.width], n); }
    case _ =>
      if u.Fixed? && pos + u.width <= |c.data| { LowBitOfBytes(c.data[pos..pos + u.width], n); }
  }

  lemma {:induction false} LowBitOfBytes(bs: bytes, n: int)
    requires |bs| == 4 || |bs| == 8
    ensures FromLE(bs) % 2 == bs[0] % 2 && n % Span(|bs|) % 2 == n % 2
  {
    SpanValues();
    EvenModulusOf(n, if |bs| == 4 then 0x8000_0000 else 0x8000_0000_0000_0000);
  }

  lemma {:induction false} EvenModulusOf(x: int, half: nat)
    requires half > 0
    ensures x % (2 * half) % 2 == x % 2
  {
    var q, r := x / (2 * half), x % (2 * half);
    assert x == 2 * half * q + r;
    assert 2 * half * q == 2 * (half * q);
  }

  /** With a block in front, the first field is read from the bitmap: an even number other than
      zero never comes back, whether the field is taken for a varint or for a plain integer. */
  lemma {:induction false} FastFieldMisread(fs: seq<Ty>, v: Val, us: seq<Ty>, c: Context, pos: nat)
    requires Typed(Struct(true, fs), v) && |fs| > 0 && fs[0].Var? && !fs[0].kind.ZigZag()
    requires v.items[0].Num? && v.items[0].n != 0 && v.items[0].n % 2 == 0
    requires AllWellFormed(us) && |us| > 0 && SeenAs(fs[0], us[0])
    requires At(c.data, pos, Encode(Struct(true, fs), v, Plain, c.w))
    ensures var r := ReadNth(us, 0, c, pos); r.code == Ok ==> !Shows(r.item, v.items[0])
  {
    hide At, Encode, EncodeBlock, EncodeFields, Decode, HasVersion, KnownFields, MaxLengthFields, Defaults, Collect, Shows;
    StructParts(true, fs, v, c.w);
    var block := EncodeBlock(fs, v.items);
    AtConcat(c.data, pos, block, EncodeFields(true, fs, v.items, Plain, c.w));
    BlockStartsOdd(fs, v.items);
    FirstByte(c.data, pos, block);
    OddMisread(fs[0].kind, us[0], v.items[0].n, c, pos);
  }

  lemma {:induction false} FirstByte(data: bytes, pos: nat, bs: bytes)
    requires At(data, pos, bs) && |bs| > 0
    ensures data[pos] == bs[0]
  {
    assert data[pos] == data[pos..pos + |bs|][0];
  }

  /** The varint of 128 is two bytes that as a plain integer are no 128. */
  lemma {:induction false} TaggedMisread(k: VarKind, c: Context, pos: nat)
    requires !k.ZigZag() && k.Holds(128) && At(c.data, pos, EncodeVar(k, 128))
    ensures var u := Fixed(k.Width());
            var r := Decode(u, Default(u), Plain, c, pos); r.code == Ok ==> !Shows(r.item, Num(128))
  {
    hide At, Span, Collect;
    SpanValues();
    assert EncodeVar(k, 128) == [128, 1] by { LebSteps(128); LebSteps(1); }
    AtConcat(c.data, pos, [128], [1]);
    FirstByte(c.data, pos, [128]);
    FirstByte(c.data, pos + 1, [1]);
    var w := k.Width();
    if pos + w <= |c.data| { TwoBytesAndMore(c.data[pos..pos + w]); }
  }

  lemma {:induction false} TwoBytesAndMore(bs: bytes)
    requires |bs| >= 2 && bs[0] == 128 && bs[1] == 1
    ensures FromLE(bs) > 128
  {
    assert FromLE(bs) == bs[0] + 256 * FromLE(bs[1..]);
    assert FromLE(bs[1..]) == bs[1..][0] + 256 * FromLE(bs[1..][1..]);
  }

  // -- the exact condition

  /** Every field up to i that can be reached and restored shows its value. */
  ghost predicate GetsFields(fast: bool, fs: seq<Ty>, us: seq<Ty>, i: nat)
    requires WellFormed(Struct(fast, fs)) && AllWellFormed(fs) && AllWellFormed(us) && i < |fs| && |us| == |fs|
  {
    forall v, c: Context, pos: nat, j: nat ::
      Stands(fast, fs, v, c, pos) && j <= i && Reachable(fs, v.items, j) ==> NthShows(us, j, v, c, pos)
  }

  /** v is serialised here, with one of the widths that a container length can have. */
  ghost predicate Stands(fast: bool, fs: seq<Ty>, v: Val, c: Context, pos: nat): (stands: bool)
    requires WellFormed(Struct(fast, fs))
    ensures stands ==> v.Items? && HasTypes(fs, v.items) && pos <= |c.data|
  {
    HasType(Struct(fast, fs), v) && HasTypes(fs, v.items) && Fits(Struct(fast, fs), v, c.w)
    && (c.w == 1 || c.w == 2 || c.w == 4 || c.w == 8)
    && At(c.data, pos, Encode(Struct(fast, fs), v, Plain, c.w))
  }

  ghost predicate NthShows(us: seq<Ty>, j: nat, v: Val, c: Context, pos: nat)
    requires AllWellFormed(us) && j < |us| && pos <= |c.data| && v.Items? && j < |v.items|
  {
    var r := ReadNth(us, j, c, pos); r.code == Ok && Shows(r.item, v.items[j])
  }

  /** get_field is right for all values and the fields up to i exactly if none of these fields is
      a varint through the struct's tag only and, when the struct has a block, none of them takes
      any bytes. No field has compatible fields. */
  lemma {:induction false} FieldsExactly(fast: bool, fs: seq<Ty>, us: seq<Ty>, i: nat)
    requires WellFormed(Struct(fast, fs)) && AllWellFormed(fs) && AllWellFormed(us) && AllSeenAs(fs, us) && i < |fs|
    requires CollectAll(fs) == []
    ensures GetsFields(fast, fs, us, i)
            <==> if fast then forall j | 0 <= j <= i :: TakesNothing(fs[j]) else us[..i + 1] == fs[..i + 1]
  {
    hide WellFormed, Stands, NthShows, Reachable, CollectAll, SeenAs, TakesNothing;
    if fast && forall j | 0 <= j <= i :: TakesNothing(fs[j]) {
      forall v, c: Context, pos: nat, j: nat | Stands(true, fs, v, c, pos) && j <= i && Reachable(fs, v.items, j)
        ensures NthShows(us, j, v, c, pos)
      {
        NothingShown(fs, us, j, v, c, pos);
      }
    } else if fast {
      var k := FirstTaking(fs, i);
      FastNot(fs, us, i, k);
    } else if us[..i + 1] == fs[..i + 1] {
      forall v, c: Context, pos: nat, j: nat | Stands(false, fs, v, c, pos) && j <= i && Reachable(fs, v.items, j)
        ensures NthShows(us, j, v, c, pos)
      {
        SeenRight(fs, us, j, v, c, pos);
      }
    } else {
      var k := FirstDifferent(fs, us, i);
      TaggedNot(fs, us, i, k);
    }
  }

  lemma {:induction false} FirstTaking(fs: seq<Ty>, i: nat) returns (k: nat)
    requires i < |fs| && exists j :: 0 <= j <= i && !TakesNothing(fs[j])
    ensures k <= i && !TakesNothing(fs[k]) && forall j | 0 <= j < k :: TakesNothing(fs[j])
    decreases i
  {
    hide TakesNothing;
    k := i;
    if i > 0 && exists j :: 0 <= j <= i - 1 && !TakesNothing(fs[j]) { k := FirstTaking(fs, i - 1); }
  }

  lemma {:induction false} FirstDifferent(fs: seq<Ty>, us: seq<Ty>, i: nat) returns (k: nat)
    requires i < |fs| == |us| && us[..i + 1] != fs[..i + 1]
    ensures k <= i && us[..k] == fs[..k] && us[k] != fs[k]
    decreases i
  {
    if us[..i] == fs[..i] {
      k := i;
      assert us[..i + 1] == us[..i] + [us[i]] && fs[..i + 1] == fs[..i] + [fs[i]];
    } else {
      k := FirstDifferent(fs, us, i - 1);
    }
  }

  lemma {:induction false} SeenRight(fs: seq<Ty>, us: seq<Ty>, j: nat, v: Val, c: Context, pos: nat)
    requires WellFormed(Struct(false, fs)) && AllWellFormed(fs) && AllWellFormed(us) && |us| == |fs| && j < |fs|
    requires us[..j + 1] == fs[..j + 1] && CollectAll(fs) == []
    requires Stands(false, fs, v, c, pos) && Reachable(fs, v.items, j)
    ensures NthShows(us, j, v, c, pos)
  {
    hide At, Encode, EncodeFields, ReadNth, MaxLengthFields, KnownFields, Collect, CollectAll, Reachable, Known, HasType, WellFormed, Fits;
    StructParts(false, fs, v, c.w);
    assert Encode(Struct(false, fs), v, Plain, c.w) == EncodeFields(false, fs, v.items, Plain, c.w);
    NthOfSerialized(fs, v.items, j, c, pos);
    SeenSame(fs, us, j, c, pos);
    assert !HasCompatible(Struct(false, fs)) by { StructPlain(fs); }
    FieldKnown(fs, v, j);
  }

  lemma {:induction false} StructPlain(fs: seq<Ty>)
    requires CollectAll(fs) == []
    ensures !HasCompatible(Struct(false, fs))
  {
  }

  lemma {:induction false} SeenSame(fs: seq<Ty>, us: seq<Ty>, j: nat, c: Context, pos: nat)
    requires AllWellFormed(fs) && AllWellFormed(us) && |us| == |fs| && j < |fs| && us[..j + 1] == fs[..j + 1] && pos <= |c.data|
    ensures ReadNth(us, j, c, pos) == ReadNth(fs, j, c, pos)
    decreases j
  {
    hide Decode, Skip, WellFormed, Default;
    assert us[0] == us[..j + 1][0] == fs[0] && us[j] == us[..j + 1][j] == fs[j];
    if j > 0 {
      assert us[1..][..j] == us[..j + 1][1..] && fs[1..][..j] == fs[..j + 1][1..];
      SeenSame(fs[1..], us[1..], j - 1, c, Skip(fs[0], Default(fs[0]), c, pos).pos);
    }
  }

  /** Fields that take no bytes are read as they are, wherever the cursor stands. */
  lemma {:induction false} NothingShown(fs: seq<Ty>, us: seq<Ty>, j: nat, v: Val, c: Context, pos: nat)
    requires WellFormed(Struct(true, fs)) && AllWellFormed(fs) && AllWellFormed(us) && AllSeenAs(fs, us) && j < |fs|
    requires CollectAll(fs) == [] && (forall i | 0 <= i <= j :: TakesNothing(fs[i])) && Stands(true, fs, v, c, pos)
    ensures NthShows(us, j, v, c, pos)
  {
    hide At, Encode, Fits, ReadNth, WellFormed, CollectAll, HasType, TakesNothing, Collect;
    SeenUpTo(fs, us, j);
    NothingInFront(us, j, c, pos);
    SeenAlike(fs[j], us[j]);
    NothingRead(us[j], Default(us[j]), c, pos);
    NoneIn(fs, j);
    OnlyValue(fs[j], Default(us[j]), v.items[j]);
  }

  lemma {:induction false} SeenAlike(t: Ty, u: Ty)
    requires SeenAs(t, u) && !t.Var?
    ensures u == t
  {
  }

  lemma {:induction false} SeenUpTo(fs: seq<Ty>, us: seq<Ty>, k: nat)
    requires AllSeenAs(fs, us) && k < |fs| && (forall i | 0 <= i < k :: TakesNothing(fs[i]))
    ensures forall i | 0 <= i < k :: us[i] == fs[i] && TakesNothing(us[i])
    ensures TakesNothing(fs[k]) ==> !fs[k].Var?
  {
    forall i | 0 <= i < k ensures us[i] == fs[i] && TakesNothing(us[i]) {
      assert TakesNothing(fs[i]) && SeenAs(fs[i], us[i]);
    }
  }

  /** Fields that take no bytes do not move the cursor when they are skipped. */
  lemma {:induction false} NothingInFront(us: seq<Ty>, k: nat, c: Context, pos: nat)
    requires AllWellFormed(us) && k < |us| && pos <= |c.data| && forall i | 0 <= i < k :: TakesNothing(us[i])
    ensures ReadNth(us, k, c, pos) == Decode(us[k], Default(us[k]), Plain, c, pos)
    decreases k
  {
    hide Decode, Skip, WellFormed, Default, TakesNothing;
    if k > 0 {
      NothingSkipped(us[0], Default(us[0]), c, pos);
      forall i | 0 <= i < k - 1 ensures TakesNothing(us[1..][i]) { assert TakesNothing(us[i + 1]); }
      NothingInFront(us[1..], k - 1, c, pos);
    }
  }

  /** Values of a struct with a block such that the reader that stands before the block does not
      take it for what field k, the first one with bytes, holds. */
  function Misleading(fs: seq<Ty>, k: nat): (vs: seq<Val>)
    requires WellFormed(Struct(true, fs)) && AllWellFormed(fs) && k < |fs|
    ensures HasTypes(fs, vs)
  {
    FastHasVar(fs);
    SpanValues();
    var m := FirstVar(fs);
    if m == k then Defaults(fs)[k := Num(2)]
    else Defaults(fs)[k := Confusing(fs[k])][m := Num(Marker(fs[k]))]
  }

  lemma {:induction false} FastNot(fs: seq<Ty>, us: seq<Ty>, i: nat, k: nat)
    requires WellFormed(Struct(true, fs)) && AllWellFormed(fs) && AllWellFormed(us) && AllSeenAs(fs, us) && i < |fs|
    requires k <= i && !TakesNothing(fs[k]) && forall j | 0 <= j < k :: TakesNothing(fs[j])
    ensures !GetsFields(true, fs, us, i)
  {
    hide At, Encode, EncodeBlock, EncodeFields, Fits, ReadNth, Decode, WellFormed, HasType, Collect, Shows, SeenAs, Reachable,
         Misleading, TakesNothing, MaxLengthFields, KnownFields, Defaults, Stands;
    var vs := Misleading(fs, k);
    var v := Items(vs);
    MisleadingParts(fs, k);
    var c := Witness(true, fs, vs);
    FreshReachable(fs, vs, k);
    SeenUpTo(fs, us, k);
    NothingInFront(us, k, c, 0);
    WitnessStart(fs, vs, c);
    assert SeenAs(fs[k], us[k]);
    if fs[k].Var? {
      TwoMisread(fs[k].kind, us[k], c, 0);
    } else {
      SeenAlike(fs[k], us[k]);
      Confuses(fs[k], c, 0);
      ShowsItself(fs[k], Decode(fs[k], Default(fs[k]), Plain, c, 0).item, vs[k]);
    }
    assert !NthShows(us, k, v, c, 0);
  }

  lemma {:induction false} ShowsItself(t: Ty, item: Val, v: Val)
    requires !t.Var? && HasType(t, item) && HasType(t, v)
    ensures Shows(item, v) <==> item == v
  {
  }

  lemma {:induction false} TwoMisread(k: VarKind, u: Ty, c: Context, pos: nat)
    requires SeenAs(Var(k), u) && pos < |c.data| && c.data[pos] == 1
    ensures WellFormed(u)
    ensures var r := Decode(u, Default(u), Plain, c, pos); r.code == Ok ==> !Shows(r.item, Num(2))
  {
    hide DecodeVar, Span;
    if u.Fixed? { OddMisread(k, u, 2, c, pos); } else { ConfusedVar(k, 2, c, pos); }
  }

  /** The block of misleading values starts with the byte that they need. */
  lemma {:induction false} MisleadingParts(fs: seq<Ty>, k: nat)
    requires WellFormed(Struct(true, fs)) && AllWellFormed(fs) && k < |fs|
    requires !TakesNothing(fs[k]) && forall j | 0 <= j < k :: TakesNothing(fs[j])
    ensures var vs := Misleading(fs, k);
            && MaxLengthFields(fs, vs) == 0 && FreshUpTo(fs, vs, k) && Restorable(fs[k], vs[k])
            && (if fs[k].Var? then vs[k] == Num(2) else vs[k] == Confusing(fs[k]))
            && |EncodeBlock(fs, vs)| > 0 && EncodeBlock(fs, vs)[0] == if fs[k].Var? then 1 else Marker(fs[k])
  {
    hide EncodeBlock, HasType, WellFormed, Covers, MaxLength, MaxLengthFields, Confusing, Default, Misleading, BlockFirst, TakesNothing;
    var vs := Misleading(fs, k);
    MisleadingAt(fs, k);
    FirstVarBehind(fs, k);
    FastHasVar(fs);
    var n := if fs[k].Var? then 2 else Marker(fs[k]);
    assert OneSmall(fs, vs, n);
    BlockStart(fs, vs, n);
    forall j | 0 <= j < |fs| ensures MaxLength(fs[j], vs[j]) == 0 && Restorable(fs[j], vs[j]) {
      if fs[j].Var? { VarRestorable(fs[j], vs[j]); } else { DefaultRestorable(fs[j]); ConfusingRestorable(fs[j]); }
    }
    NoLengths(fs, vs);
  }

  lemma {:induction false} MisleadingAt(fs: seq<Ty>, k: nat)
    requires WellFormed(Struct(true, fs)) && AllWellFormed(fs) && k < |fs|
    requires forall j | 0 <= j < k :: TakesNothing(fs[j])
    ensures var vs, m := Misleading(fs, k), FirstVar(fs);
            && m < |fs| && vs[m] == Num(if fs[k].Var? then 2 else Marker(fs[k]))
            && (!fs[k].Var? ==> vs[k] == Confusing(fs[k]))
            && (forall j | 0 <= j < |fs| && j != m && j != k :: vs[j] == Default(fs[j]))
            && (forall j | 0 <= j < |fs| && j != m && fs[j].Var? :: vs[j] == Num(0))
  {
    hide HasType, WellFormed, Confusing, Default, Defaults, BlockFirst, TakesNothing;
    FastHasVar(fs);
    FirstVarBehind(fs, k);
    forall j | 0 <= j < |fs| ensures Defaults(fs)[j] == Default(fs[j]) { DefaultAt(fs, j); }
    forall j | 0 <= j < |fs| && fs[j].Var? ensures Default(fs[j]) == Num(0) { DefaultOfVar(fs[j]); }
  }

  lemma {:induction false} FirstVarBehind(fs: seq<Ty>, k: nat)
    requires k < |fs| && FirstVar(fs) < |fs| && forall j | 0 <= j < k :: TakesNothing(fs[j])
    ensures FirstVar(fs) >= k && (fs[k].Var? <==> FirstVar(fs) == k)
  {
    forall j | 0 <= j < k ensures !fs[j].Var? { assert TakesNothing(fs[j]); }
  }

  lemma {:induction false} NoLengths(ts: seq<Ty>, vs: seq<Val>)
    requires AllWellFormed(ts) && HasTypes(ts, vs) && forall j | 0 <= j < |ts| :: MaxLength(ts[j], vs[j]) == 0
    ensures MaxLengthFields(ts, vs) == 0
    decreases ts
  {
    hide WellFormed, HasType, MaxLength;
    if |ts| > 0 {
      forall j | 0 <= j < |ts[1..]| ensures MaxLength(ts[1..][j], vs[1..][j]) == 0 { assert MaxLength(ts[j + 1], vs[j + 1]) == 0; }
      NoLengths(ts[1..], vs[1..]);
    }
  }

  /** The fields of a struct without long containers, serialised with the least width. */
  lemma {:induction false} Witness(fast: bool, fs: seq<Ty>, vs: seq<Val>) returns (c: Context)
    requires WellFormed(Struct(fast, fs)) && AllWellFormed(fs) && HasTypes(fs, vs) && MaxLengthFields(fs, vs) == 0
    ensures Stands(fast, fs, Items(vs), c, 0) && c.w == 1
    ensures c.data == Encode(Struct(fast, fs), Items(vs), Plain, 1)
  {
    hide Encode, MaxLengthFields, WellFormed, Span;
    var v := Items(vs);
    StructTyped(fast, fs, vs);
    c := Context(Encode(Struct(fast, fs), v, Plain, 1), 1, 0);
    assert c.data[0..|c.data|] == c.data;
    assert Span(1) > 0;
  }

  lemma {:induction false} StructTyped(fast: bool, fs: seq<Ty>, vs: seq<Val>)
    requires WellFormed(Struct(fast, fs)) && AllWellFormed(fs) && HasTypes(fs, vs) && MaxLengthFields(fs, vs) == 0
    ensures HasType(Struct(fast, fs), Items(vs)) && MaxLength(Struct(fast, fs), Items(vs)) == 0
  {
    hide MaxLengthFields;
  }

  lemma {:induction false} WitnessStart(fs: seq<Ty>, vs: seq<Val>, c: Context)
    requires WellFormed(Struct(true, fs)) && Stands(true, fs, Items(vs), c, 0) && |EncodeBlock(fs, vs)| > 0
    requires c.data == Encode(Struct(true, fs), Items(vs), Plain, c.w)
    ensures |c.data| > 0 && c.data[0] == EncodeBlock(fs, vs)[0]
  {
    hide At, Encode, EncodeBlock, EncodeFields, Fits, WellFormed, HasType, KnownFields, MaxLengthFields, Defaults;
    StructParts(true, fs, Items(vs), c.w);
  }

  lemma {:induction false} TaggedNot(fs: seq<Ty>, us: seq<Ty>, i: nat, k: nat)
    requires WellFormed(Struct(false, fs)) && AllWellFormed(fs) && AllWellFormed(us) && AllSeenAs(fs, us) && i < |fs|
    requires k <= i && us[..k] == fs[..k] && us[k] != fs[k]
    ensures !GetsFields(false, fs, us, i)
  {
    hide At, Encode, Fits, ReadNth, WellFormed, Collect, Shows, Reachable, HasType, EncodeFields, KnownFields, Skippable, Defaults;
    assert SeenAs(fs[k], us[k]);
    TaggedKind(fs[k]);
    NumAmongDefaults(fs, k, 128);
    var v := Items(Defaults(fs)[k := Num(128)]);
    var c := Witness(false, fs, v.items);
    StructParts(false, fs, v, c.w);
    assert Encode(Struct(false, fs), v, Plain, c.w) == EncodeFields(false, fs, v.items, Plain, c.w);
    DefaultsReachable(fs, v.items, k);
    ReadUpTo(fs, us, k, v.items, c, 0);
    assert Stands(false, fs, v, c, 0);
    assert !NthShows(us, k, v, c, 0);
  }

  lemma {:induction false} TaggedKind(t: Ty)
    requires t.Var?
    ensures HasType(t, Num(128))
  {
    SpanValues();
  }

  /** The fields in front of field k are fresh. */
  ghost predicate FreshUpTo(ts: seq<Ty>, vs: seq<Val>, k: nat)
    requires AllWellFormed(ts) && HasTypes(ts, vs)
  {
    k < |ts| && forall j | 0 <= j < k :: vs[j] == Default(ts[j])
  }

  lemma {:induction false} DefaultsReachable(fs: seq<Ty>, vs: seq<Val>, k: nat)
    requires AllWellFormed(fs) && HasTypes(fs, vs) && k < |fs| && fs[k].Var? && HasType(fs[k], Num(128))
    requires vs == Defaults(fs)[k := Num(128)]
    ensures FreshUpTo(fs, vs, k) && Reachable(fs, vs, k)
  {
    hide WellFormed, HasType, Default, Reachable;
    forall j | 0 <= j < k ensures vs[j] == Default(fs[j]) { DefaultAt(fs, j); }
    VarRestorable(fs[k], vs[k]);
    FreshReachable(fs, vs, k);
  }

  lemma {:induction false} FreshReachable(ts: seq<Ty>, vs: seq<Val>, k: nat)
    requires AllWellFormed(ts) && HasTypes(ts, vs) && FreshUpTo(ts, vs, k) && Restorable(ts[k], vs[k])
    ensures Reachable(ts, vs, k)
    decreases k
  {
    hide WellFormed, HasType, Default, Skippable, Restorable;
    if k > 0 {
      DefaultSkippable(ts[0]);
      FreshReachable(ts[1..], vs[1..], k - 1);
    }
  }

  lemma {:induction false} VarRestorable(t: Ty, v: Val)
    requires Typed(t, v) && t.Var?
    ensures Restorable(t, v) && MaxLength(t, v) == 0
  {
  }

  lemma {:induction false} DefaultSkippable(t: Ty)
    requires WellFormed(t)
    ensures Skippable(t, Default(t), Default(t))
    decreases t, 0
  {
    hide Collect;
    match t
    case Fixed(_) =>
    case Var(_) =>
    case Array(n, e) => DefaultSkippable(e); RepeatSkippable(e, Default(e), n);
    case Container(_, _) =>
    case Optional(_, _) =>
    case Expected(a, _) => DefaultSkippable(a);
    case Variant(alts) => DefaultSkippable(alts[0]);
    case Struct(fast, fs) => DefaultsSkippable(fast, fs);
    case Compatible(_, _) =>
  }

  lemma {:induction false} RepeatSkippable(t: Ty, v: Val, n: nat)
    requires Typed(t, v) && Skippable(t, v, v)
    ensures AllSkippable(t, Repeat(v, n), Repeat(v, n))
    decreases n
  {
    hide WellFormed, HasType, Skippable;
    if n > 0 {
      RepeatSkippable(t, v, n - 1);
      assert Repeat(v, n)[1..] == Repeat(v, n - 1);
    }
  }

  lemma {:induction false} DefaultsSkippable(fast: bool, ts: seq<Ty>)
    requires AllWellFormed(ts)
    ensures FieldsSkippable(fast, ts, Defaults(ts), Defaults(ts))
    decreases ts, 1
  {
    hide WellFormed, HasType, Skippable, Default;
    if |ts| > 0 {
      DefaultSkippable(ts[0]);
      DefaultsSkippable(fast, ts[1..]);
      assert Defaults(ts)[1..] == Defaults(ts[1..]);
    }
  }

  /** Up to the field that is seen otherwise everything is skipped right; that field is misread. */
  lemma {:induction false} ReadUpTo(fs: seq<Ty>, us: seq<Ty>, k: nat, vs: seq<Val>, c: Context, pos: nat)
    requires AllWellFormed(fs) && AllWellFormed(us) && |us| == |fs| && HasTypes(fs, vs) && FreshUpTo(fs, vs, k)
    requires us[..k] == fs[..k] && us[k] != fs[k] && SeenAs(fs[k], us[k]) && fs[k].Var? && vs[k] == Num(128)
    requires MaxLengthFields(fs, vs) < Span(c.w) && At(c.data, pos, EncodeFields(false, fs, vs, Plain, c.w))
    ensures var r := ReadNth(us, k, c, pos); r.code == Ok ==> !Shows(r.item, Num(128))
    decreases k
  {
    hide At, Skip, Decode, Encode, EncodeFields, MaxLength, MaxLengthFields, HasType, WellFormed, Span, Default, Skippable, Shows,
         After, HasExpected;
    var first := Encode(fs[0], vs[0], Plain, c.w);
    FieldsBegin(false, fs, vs, c.w);
    AtConcat(c.data, pos, first, EncodeFields(false, fs[1..], vs[1..], Plain, c.w));
    if k == 0 {
      VarBytes(fs[0], vs[0], c.w);
      TaggedMisread(fs[0].kind, c, pos);
    } else {
      assert us[0] == us[..k][0] == fs[0];
      DefaultSkippable(fs[0]);
      SkipSerialized(fs[0], Default(fs[0]), vs[0], c, pos);
      assert us[1..][..k - 1] == us[..k][1..] && fs[1..][..k - 1] == fs[..k][1..];
      ReadUpTo(fs[1..], us[1..], k - 1, vs[1..], c, pos + |first|);
    }
  }

  lemma {:induction false} VarBytes(t: Ty, v: Val, w: nat)
    requires t.Var? && HasType(t, v)
    ensures t.kind.Holds(v.n) && Encode(t, v, Plain, w) == EncodeVar(t.kind, v.n)
  {
  }
}
