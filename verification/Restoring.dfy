/** When reading a value over an object gives that value. An absent content, an empty container
    and a zero in a fast-varint block leave their target alone, and an expected that holds an error
    has no value to read into; so it matters what the object holds, and a keyed container reads
    its entries into what is left of the entry before. */
module Restoring {
  import opened Status
  import opened Schema
  import opened Encoding
  import opened Decoding

  /** Nothing of what the object was shows once the plain fields of v have been read over it. */
  predicate Covers(t: Ty, was: Val, v: Val)
    requires WellFormed(t) && HasType(t, was) && HasType(t, v)
    decreases t, 0
  {
    match t
    case Fixed(_) => true
    case Var(_) => true
    case Array(_, e) => AllCover(e, was.items, v.items)
    case Container(shape, e) => (|v.items| == 0 ==> |was.items| == 0) && Chain(shape, e, Default(e), v.items)
    case Optional(e, _) => if v.Null? then was.Null? else Covers(e, Default(e), v.value)
    case Expected(a, e) =>
      if v.index == 0 then Covers(e, Default(e), v.value) else was.index == 1 && Covers(a, was.value, v.value)
    case Variant(alts) => Covers(alts[v.index], Default(alts[v.index]), v.value)
    case Struct(fast, fs) => FieldsCover(fast, fs, was.items, v.items)
    case Compatible(_, _) => true
  }

  predicate AllCover(t: Ty, olds: seq<Val>, vs: seq<Val>)
    requires WellFormed(t) && AllHaveType(t, olds) && AllHaveType(t, vs) && |olds| == |vs|
    decreases t, 1, |vs|
  {
    |vs| == 0 || (Covers(t, olds[0], vs[0]) && AllCover(t, olds[1..], vs[1..]))
  }

  /** Each element covers what the one before has left. */
  predicate Chain(shape: Shape, t: Ty, was: Val, vs: seq<Val>)
    requires WellFormed(t) && HasType(t, was) && AllHaveType(t, vs)
    decreases t, 1, |vs|
  {
    |vs| == 0 || (Covers(t, was, vs[0]) && Chain(shape, t, Next(shape, t, Known(t, vs[0], {})), vs[1..]))
  }

  predicate FieldsCover(fast: bool, ts: seq<Ty>, olds: seq<Val>, vs: seq<Val>)
    requires AllWellFormed(ts) && HasTypes(ts, olds) && HasTypes(ts, vs)
    decreases ts, 1
  {
    |ts| == 0
    || ((if fast && ts[0].Var? then vs[0].n != 0 || olds[0].n == 0 else Covers(ts[0], olds[0], vs[0]))
        && FieldsCover(fast, ts[1..], olds[1..], vs[1..]))
  }

  predicate Restorable(t: Ty, v: Val)
    requires WellFormed(t) && HasType(t, v)
  {
    Covers(t, Default(t), v)
  }

  /** What the compatible fields of version n hold is restorable. */
  predicate Held(t: Ty, v: Val, n: nat)
    requires WellFormed(t) && HasType(t, v)
    decreases t, 0
  {
    match t
    case Fixed(_) => true
    case Var(_) => true
    case Array(_, e) => AllHeld(e, v.items, n)
    case Container(_, e) => AllHeld(e, v.items, n)
    case Optional(e, _) => v.Some? ==> Held(e, v.value, n)
    case Expected(a, e) => Held(if v.index == 1 then a else e, v.value, n)
    case Variant(alts) => Held(alts[v.index], v.value, n)
    case Struct(_, fs) => FieldsHeld(fs, v.items, n)
    case Compatible(m, e) => m == n && v.Some? ==> Restorable(e, v.value)
  }

  predicate AllHeld(t: Ty, vs: seq<Val>, n: nat)
    requires WellFormed(t) && AllHaveType(t, vs)
    decreases t, 1, |vs|
  {
    |vs| == 0 || (Held(t, vs[0], n) && AllHeld(t, vs[1..], n))
  }

  predicate FieldsHeld(ts: seq<Ty>, vs: seq<Val>, n: nat)
    requires AllWellFormed(ts) && HasTypes(ts, vs)
    decreases ts, 1
  {
    |ts| == 0 || (Held(ts[0], vs[0], n) && FieldsHeld(ts[1..], vs[1..], n))
  }

  /** The plain fields and what the compatible fields hold. */
  predicate Recoverable(t: Ty, v: Val)
    requires WellFormed(t) && HasType(t, v)
  {
    Restorable(t, v) && forall n | n in Collect(t) :: Held(t, v, n)
  }

  /** An expected may be met. */
  predicate HasExpected(t: Ty)
    decreases t
  {
    match t
    case Fixed(_) => false
    case Var(_) => false
    case Array(_, e) => HasExpected(e)
    case Container(_, e) => HasExpected(e)
    case Optional(e, _) => HasExpected(e)
    case Expected(_, _) => true
    case Variant(alts) => exists i | 0 <= i < |alts| :: HasExpected(alts[i])
    case Struct(_, fs) => exists i | 0 <= i < |fs| :: HasExpected(fs[i])
    case Compatible(_, e) => HasExpected(e)
  }

  predicate AnyExpected(ts: seq<Ty>) {
    exists i | 0 <= i < |ts| :: HasExpected(ts[i])
  }

  // ---- objects without compatible fields set ---------------------------------------------------------

  ghost predicate Bare(t: Ty, v: Val)
    requires HasType(t, v)
  {
    Known(t, v, {}) == v
  }

  lemma {:induction false} DefaultBare(t: Ty)
    requires WellFormed(t)
    ensures Bare(t, Default(t))
    decreases t, 0
  {
    match t
    case Fixed(_) =>
    case Var(_) =>
    case Array(n, e) => DefaultBare(e); RepeatBare(e, Default(e), n);
    case Container(_, _) =>
    case Optional(_, _) =>
    case Expected(a, _) => DefaultBare(a);
    case Variant(alts) => DefaultBare(alts[0]);
    case Struct(_, fs) => DefaultsBare(fs);
    case Compatible(_, _) =>
  }

  lemma {:induction false} RepeatBare(t: Ty, v: Val, n: nat)
    requires HasType(t, v) && Bare(t, v)
    ensures KnownElems(t, Repeat(v, n), {}) == Repeat(v, n)
    decreases n
  {
    hide HasType, Known;
    if n > 0 {
      RepeatBare(t, v, n - 1);
      assert Repeat(v, n)[1..] == Repeat(v, n - 1);
    }
  }

  lemma {:induction false} DefaultsBare(ts: seq<Ty>)
    requires AllWellFormed(ts)
    ensures KnownFields(ts, Defaults(ts), {}) == Defaults(ts)
    decreases ts, 1
  {
    hide Known, Default, WellFormed, HasType;
    if |ts| > 0 {
      DefaultBare(ts[0]);
      DefaultsBare(ts[1..]);
      assert Defaults(ts)[1..] == Defaults(ts[1..]);
    }
  }

  lemma {:induction false} MovedBare(t: Ty, v: Val)
    requires HasType(t, v) && Bare(t, v)
    ensures Bare(t, Moved(t, v))
    decreases t, 0
  {
    match t
    case Fixed(_) =>
    case Var(_) =>
    case Array(_, e) => MovedElemsBare(e, v.items);
    case Container(_, _) =>
    case Optional(e, _) => if v.Some? { MovedBare(e, v.value); }
    case Expected(a, e) => MovedBare(if v.index == 1 then a else e, v.value);
    case Variant(alts) => MovedBare(alts[v.index], v.value);
    case Struct(_, fs) => MovedFieldsBare(fs, v.items);
    case Compatible(_, _) =>
  }

  lemma {:induction false} MovedElemsBare(t: Ty, vs: seq<Val>)
    requires AllHaveType(t, vs) && KnownElems(t, vs, {}) == vs
    ensures KnownElems(t, MovedElems(t, vs), {}) == MovedElems(t, vs)
    decreases t, 1, |vs|
  {
    hide Known, Moved, HasType;
    if |vs| > 0 {
      assert vs == [Known(t, vs[0], {})] + KnownElems(t, vs[1..], {});
      MovedBare(t, vs[0]);
      MovedElemsBare(t, vs[1..]);
      assert MovedElems(t, vs)[1..] == MovedElems(t, vs[1..]);
    }
  }

  lemma {:induction false} MovedFieldsBare(ts: seq<Ty>, vs: seq<Val>)
    requires HasTypes(ts, vs) && KnownFields(ts, vs, {}) == vs
    ensures KnownFields(ts, MovedFields(ts, vs), {}) == MovedFields(ts, vs)
    decreases ts, 1
  {
    hide Known, Moved, HasType;
    if |ts| > 0 {
      assert vs == [Known(ts[0], vs[0], {})] + KnownFields(ts[1..], vs[1..], {});
      MovedBare(ts[0], vs[0]);
      MovedFieldsBare(ts[1..], vs[1..]);
      assert MovedFields(ts, vs)[1..] == MovedFields(ts[1..], vs[1..]);
    }
  }

  lemma {:induction false} KnownBare(t: Ty, v: Val)
    requires HasType(t, v)
    ensures Bare(t, Known(t, v, {}))
  {
    KnownWithin(t, v, {}, {});
  }

  /** What the next element is read into is bare if the last one was. */
  lemma {:induction false} NextBare(shape: Shape, t: Ty, v: Val)
    requires WellFormed(t) && HasType(t, v) && Bare(t, v)
    ensures Bare(t, Next(shape, t, v))
  {
    hide Known, Moved, Default, WellFormed, HasType;
    DefaultBare(t);
    MovedBare(t, v);
  }

  // ---- types whose values are all recoverable ----------------------------------------------------------

  /** Once moved from, an object of this type shows nothing of what it held. */
  predicate Forgets(t: Ty)
    decreases t
  {
    match t
    case Fixed(_) => true
    case Var(_) => true
    case Array(_, e) => Forgets(e)
    case Container(_, _) => true
    case Optional(_, pointer) => pointer
    case Expected(_, _) => false
    case Variant(_) => true
    case Struct(fast, fs) => !fast && forall i | 0 <= i < |fs| :: Forgets(fs[i])
    case Compatible(_, _) => true
  }

  /** Every keyed container has entries that forget. */
  predicate Safe(t: Ty)
    decreases t
  {
    match t
    case Fixed(_) => true
    case Var(_) => true
    case Array(_, e) => Safe(e)
    case Container(shape, e) => (shape.Keyed? ==> Forgets(e)) && Safe(e)
    case Optional(e, _) => Safe(e)
    case Expected(a, e) => Safe(a) && Safe(e)
    case Variant(alts) => forall i | 0 <= i < |alts| :: Safe(alts[i])
    case Struct(_, fs) => forall i | 0 <= i < |fs| :: Safe(fs[i])
    case Compatible(_, e) => Safe(e)
  }

  predicate AllSafe(ts: seq<Ty>) {
    forall i | 0 <= i < |ts| :: Safe(ts[i])
  }

  /** An object that shows nothing. */
  predicate Blank(t: Ty, v: Val)
    requires HasType(t, v)
    decreases t, 0
  {
    match t
    case Fixed(_) => true
    case Var(_) => true
    case Array(_, e) => forall i | 0 <= i < |v.items| :: Blank(e, v.items[i])
    case Container(_, _) => |v.items| == 0
    case Optional(_, _) => v.Null?
    case Expected(a, _) => v.index == 1 && Blank(a, v.value)
    case Variant(_) => true
    case Struct(fast, fs) => FieldsBlank(fast, fs, v.items)
    case Compatible(_, _) => true
  }

  predicate AllBlank(t: Ty, vs: seq<Val>)
    requires AllHaveType(t, vs)
  {
    forall i | 0 <= i < |vs| :: Blank(t, vs[i])
  }

  predicate FieldsBlank(fast: bool, ts: seq<Ty>, vs: seq<Val>)
    requires HasTypes(ts, vs)
    decreases ts, 1
  {
    |ts| == 0
    || ((if fast && ts[0].Var? then vs[0].n == 0 else Blank(ts[0], vs[0])) && FieldsBlank(fast, ts[1..], vs[1..]))
  }

  lemma {:induction false} DefaultBlank(t: Ty)
    requires WellFormed(t)
    ensures Blank(t, Default(t))
    decreases t, 0
  {
    hide Collect;
    match t
    case Fixed(_) =>
    case Var(_) =>
    case Array(_, e) => DefaultBlank(e);
    case Container(_, _) =>
    case Optional(_, _) =>
    case Expected(a, _) => DefaultBlank(a);
    case Variant(_) =>
    case Struct(fast, fs) => DefaultsBlank(fast, fs);
    case Compatible(_, _) =>
  }

  lemma {:induction false} DefaultsBlank(fast: bool, ts: seq<Ty>)
    requires AllWellFormed(ts)
    ensures FieldsBlank(fast, ts, Defaults(ts))
    decreases ts, 1
  {
    hide Blank, WellFormed, HasType;
    if |ts| > 0 {
      DefaultBlank(ts[0]);
      DefaultsBlank(fast, ts[1..]);
      assert Defaults(ts)[1..] == Defaults(ts[1..]);
    }
  }

  lemma {:induction false} MovedBlank(t: Ty, v: Val)
    requires HasType(t, v) && Forgets(t)
    ensures Blank(t, Moved(t, v))
    decreases t, 0
  {
    match t
    case Fixed(_) =>
    case Var(_) =>
    case Array(_, e) => MovedElemsBlank(e, v.items);
    case Container(_, _) =>
    case Optional(_, _) =>
    case Variant(_) =>
    case Struct(_, fs) => MovedFieldsBlank(fs, v.items);
    case Compatible(_, _) =>
  }

  lemma {:induction false} MovedElemsBlank(t: Ty, vs: seq<Val>)
    requires AllHaveType(t, vs) && Forgets(t)
    ensures AllBlank(t, MovedElems(t, vs))
    decreases t, 1, |vs|
  {
    hide Blank, Moved, HasType, Forgets;
    if |vs| > 0 {
      MovedBlank(t, vs[0]);
      MovedElemsBlank(t, vs[1..]);
    }
  }

  lemma {:induction false} MovedFieldsBlank(ts: seq<Ty>, vs: seq<Val>)
    requires HasTypes(ts, vs) && forall i | 0 <= i < |ts| :: Forgets(ts[i])
    ensures FieldsBlank(false, ts, MovedFields(ts, vs))
    decreases ts, 1
  {
    hide Blank, Moved, HasType, Forgets;
    if |ts| > 0 {
      MovedBlank(ts[0], vs[0]);
      MovedFieldsBlank(ts[1..], vs[1..]);
      assert MovedFields(ts, vs)[1..] == MovedFields(ts[1..], vs[1..]);
    }
  }

  /** Over a blank object every value of a safe type comes out as it is. */
  lemma {:induction false} SafeCovers(t: Ty, was: Val, v: Val)
    requires Typed(t, v) && HasType(t, was) && Safe(t) && Blank(t, was)
    ensures Covers(t, was, v)
    decreases t, 0
  {
    hide Default, AllCover, Chain, FieldsCover, Collect;
    match t
    case Fixed(_) =>
    case Var(_) =>
    case Array(_, e) => SafeElems(e, was.items, v.items);
    case Container(shape, e) => DefaultBlank(e); SafeChain(shape, e, Default(e), v.items);
    case Optional(e, _) => if v.Some? { SafeRestorable(e, v.value); }
    case Expected(a, e) => if v.index == 0 { SafeRestorable(e, v.value); } else { SafeCovers(a, was.value, v.value); }
    case Variant(alts) => SafeRestorable(alts[v.index], v.value);
    case Struct(fast, fs) => SafeFields(fast, fs, was.items, v.items);
    case Compatible(_, _) =>
  }

  lemma {:induction false} SafeRestorable(t: Ty, v: Val)
    requires Typed(t, v) && Safe(t)
    ensures Restorable(t, v)
    decreases t, 1
  {
    hide Default, Covers, Blank, WellFormed, HasType, Safe;
    DefaultBlank(t);
    SafeCovers(t, Default(t), v);
  }

  lemma {:induction false} SafeElems(t: Ty, olds: seq<Val>, vs: seq<Val>)
    requires WellFormed(t) && AllHaveType(t, olds) && AllHaveType(t, vs) && |olds| == |vs| && Safe(t) && AllBlank(t, olds)
    ensures AllCover(t, olds, vs)
    decreases t, 2, |vs|
  {
    hide Covers, Blank, WellFormed, HasType, Safe;
    if |vs| > 0 {
      SafeCovers(t, olds[0], vs[0]);
      SafeElems(t, olds[1..], vs[1..]);
    }
  }

  lemma {:induction false} SafeChain(shape: Shape, t: Ty, was: Val, vs: seq<Val>)
    requires WellFormed(t) && HasType(t, was) && AllHaveType(t, vs) && Safe(t) && (shape.Keyed? ==> Forgets(t)) && Blank(t, was)
    ensures Chain(shape, t, was, vs)
    decreases t, 2, |vs|
  {
    hide Covers, Blank, WellFormed, HasType, Safe, Forgets, Known, Moved, Default;
    if |vs| > 0 {
      SafeCovers(t, was, vs[0]);
      if shape.Keyed? { MovedBlank(t, Known(t, vs[0], {})); } else { DefaultBlank(t); }
      SafeChain(shape, t, Next(shape, t, Known(t, vs[0], {})), vs[1..]);
    }
  }

  lemma {:induction false} SafeFields(fast: bool, ts: seq<Ty>, olds: seq<Val>, vs: seq<Val>)
    requires AllWellFormed(ts) && HasTypes(ts, olds) && HasTypes(ts, vs) && AllSafe(ts) && FieldsBlank(fast, ts, olds)
    ensures FieldsCover(fast, ts, olds, vs)
    decreases ts, 2
  {
    hide Covers, Blank, WellFormed, HasType, Safe;
    if |ts| > 0 {
      if !(fast && ts[0].Var?) { SafeCovers(ts[0], olds[0], vs[0]); }
      SafeFields(fast, ts[1..], olds[1..], vs[1..]);
    }
  }

  /** Every value of a safe type is recoverable. */
  lemma {:induction false} SafeRecoverable(t: Ty, v: Val)
    requires Typed(t, v) && Safe(t)
    ensures Recoverable(t, v)
  {
    hide Restorable, Held, WellFormed, HasType, Safe, Collect;
    SafeRestorable(t, v);
    forall n | n in Collect(t) ensures Held(t, v, n) { SafeHeld(t, v, n); }
  }

  lemma {:induction false} SafeHeld(t: Ty, v: Val, n: nat)
    requires Typed(t, v) && Safe(t)
    ensures Held(t, v, n)
    decreases t, 0
  {
    hide Restorable, AllHeld, FieldsHeld, Collect;
    match t
    case Fixed(_) =>
    case Var(_) =>
    case Array(_, e) => SafeElemsHeld(e, v.items, n);
    case Container(_, e) => SafeElemsHeld(e, v.items, n);
    case Optional(e, _) => if v.Some? { SafeHeld(e, v.value, n); }
    case Expected(a, e) => SafeHeld(if v.index == 1 then a else e, v.value, n);
    case Variant(alts) => SafeHeld(alts[v.index], v.value, n);
    case Struct(_, fs) => SafeFieldsHeld(fs, v.items, n);
    case Compatible(_, e) => if v.Some? { SafeRestorable(e, v.value); }
  }

  lemma {:induction false} SafeElemsHeld(t: Ty, vs: seq<Val>, n: nat)
    requires WellFormed(t) && AllHaveType(t, vs) && Safe(t)
    ensures AllHeld(t, vs, n)
    decreases t, 1, |vs|
  {
    hide Held, WellFormed, HasType, Safe;
    if |vs| > 0 {
      SafeHeld(t, vs[0], n);
      SafeElemsHeld(t, vs[1..], n);
    }
  }

  lemma {:induction false} SafeFieldsHeld(ts: seq<Ty>, vs: seq<Val>, n: nat)
    requires AllWellFormed(ts) && HasTypes(ts, vs) && AllSafe(ts)
    ensures FieldsHeld(ts, vs, n)
    decreases ts, 1
  {
    hide Held, WellFormed, HasType, Safe;
    if |ts| > 0 {
      SafeHeld(ts[0], vs[0], n);
      SafeFieldsHeld(ts[1..], vs[1..], n);
    }
  }
}
