/** The types struct_pack serialises and the values they hold. Struct reflection and
    concept dispatch on C++ types become a match on `Ty`. */
module Schema {
  import opened Bytes
  import opened Leb128

  /** The integer types that are written with variable width. The plain ones are so inside a
      struct configured for it; a VarInt is a var_int32_t or var_int64_t. */
  datatype VarKind = UInt32 | UInt64 | Int32 | Int64 | VarInt32 | VarInt64 {
    predicate Wide() { this == UInt64 || this == Int64 || this == VarInt64 }

    predicate Signed() { this != UInt32 && this != UInt64 }

    predicate ZigZag() { this == VarInt32 || this == VarInt64 }

    function Width(): nat { if Wide() then 8 else 4 }

    /** n is a value of this integer type. */
    predicate Holds(n: int) {
      if Signed() then 0 - Span(Width()) <= 2 * n < Span(Width()) else 0 <= n < Span(Width())
    }

    /** The uint64_t that serialize_varint writes. */
    function Wire(n: int): int
      requires Holds(n)
    {
      if ZigZag() then EncodeZigZag(Width(), n) else Unsigned64(n)
    }

    /** The value stored back from the uint64_t that was read: a narrowing conversion. */
    function Unwire(u: nat): int {
      var x := if ZigZag() then DecodeZigZag(u) else u;
      if Signed() then Bytes.Signed(Width(), x % Span(Width())) else x % Span(Width())
    }
  }

  /** A number of this width survives the way through a wider word and back. */
  lemma {:induction false} CutAndSign(width: nat, n: int)
    requires width == 4 || width == 8
    requires 0 - Span(width) <= 2 * n < Span(width)
    ensures Signed(width, n % Span(width)) == n
  {
    hide Span;
    SpanValues();
  }

  lemma {:induction false} CutOfWord(width: nat, n: int)
    requires width == 4 || width == 8
    ensures Unsigned64(n) % Span(width) == n % Span(width)
  {
    hide Span;
    SpanValues();
    if width == 4 {
      assert n + TWO_64 == n + TWO_32 * TWO_32;
    }
  }

  lemma {:induction false} WireRoundTrip(k: VarKind, n: int)
    requires k.Holds(n)
    ensures 0 <= k.Wire(n) < TWO_64
    ensures k.Unwire(k.Wire(n)) == n
  {
    hide Span, EncodeZigZag, DecodeZigZag, Signed;
    SpanValues();
    if k.Signed() { CutAndSign(k.Width(), n); }
    if k.ZigZag() {
      ZigZagMeaning(k.Width(), n);
    } else {
      CutOfWord(k.Width(), n);
    }
  }

  lemma {:induction false} UnwireHolds(k: VarKind, u: nat)
    ensures k.Holds(k.Unwire(u))
  {
    SpanValues();
  }

  /** vector and string; list and deque; map (of pairs) and set. A keyed container is filled
      from one object that is read into and moved from again and again. */
  datatype Shape = Contiguous | List | Keyed

  datatype Ty =
    | Fixed(width: nat)                       // whatever is copied in bulk: integers, floats, enums, bitsets, and the
                                              // structs and arrays that consist of such things
    | Var(kind: VarKind)                      // varints
    | Array(count: nat, elem: Ty)             // of elements that are not copied in bulk
    | Container(shape: Shape, elem: Ty)
    | Optional(elem: Ty, pointer: bool := false)   // optional, or unique_ptr
    | Expected(value: Ty, error: Ty)
    | Variant(alts: seq<Ty>)
    | Struct(fast: bool, fields: seq<Ty>)     // aggregates, pairs and tuples; fast: USE_FAST_VARINT
    | Compatible(version: nat, elem: Ty)

  datatype Val =
    | Blob(bytes: bytes)
    | Num(n: int)
    | Items(items: seq<Val>)                  // array, container, struct
    | Null                                    // empty optional or compatible
    | Some(value: Val)
    | Alt(index: nat, value: Val)             // variant; expected: 1 holds a value, 0 an error

  /** One pass over a value: the plain fields, or the compatible fields of one version. */
  datatype Pass = Plain | Version(n: nat)

  const UINT64_MAX: nat := 0xFFFF_FFFF_FFFF_FFFF

  predicate HasType(t: Ty, v: Val)
    decreases t
  {
    match t
    case Fixed(w) => v.Blob? && |v.bytes| == w
    case Var(k) => v.Num? && k.Holds(v.n)
    case Array(c, e) => v.Items? && |v.items| == c && forall i | 0 <= i < |v.items| :: HasType(e, v.items[i])
    case Container(_, e) => v.Items? && forall i | 0 <= i < |v.items| :: HasType(e, v.items[i])
    case Optional(e, _) => v.Null? || (v.Some? && HasType(e, v.value))
    case Expected(a, e) => v.Alt? && v.index < 2 && HasType(if v.index == 1 then a else e, v.value)
    case Variant(alts) => v.Alt? && v.index < |alts| && HasType(alts[v.index], v.value)
    case Struct(_, fs) => v.Items? && |v.items| == |fs| && forall i | 0 <= i < |fs| :: HasType(fs[i], v.items[i])
    case Compatible(_, e) => v.Null? || (v.Some? && HasType(e, v.value))
  }

  predicate HasTypes(ts: seq<Ty>, vs: seq<Val>) {
    |vs| == |ts| && forall i | 0 <= i < |ts| :: HasType(ts[i], vs[i])
  }

  predicate AllHaveType(t: Ty, vs: seq<Val>) {
    forall i | 0 <= i < |vs| :: HasType(t, vs[i])
  }

  /** The version numbers of the compatible fields in t, in the order and with the
      repetitions of get_compatible_version_numbers. */
  function Collect(t: Ty): seq<nat>
    decreases t, 0
  {
    match t
    case Fixed(_) => []
    case Var(_) => []
    case Array(_, e) => Collect(e)
    case Container(_, e) => Collect(e)
    case Optional(e, _) => Collect(e)
    case Expected(a, e) => Collect(a) + Collect(e)
    case Variant(alts) => CollectAll(alts)
    case Struct(_, fs) => CollectAll(fs)
    case Compatible(n, _) => [n]
  }

  function CollectAll(ts: seq<Ty>): seq<nat>
    decreases ts, 1
  {
    if |ts| == 0 then [] else Collect(ts[0]) + CollectAll(ts[1..])
  }

  /** exist_compatible_member: does t hold a compatible field of version n? */
  predicate HasVersion(t: Ty, n: nat)
    decreases t
  {
    match t
    case Fixed(_) => false
    case Var(_) => false
    case Array(_, e) => HasVersion(e, n)
    case Container(_, e) => HasVersion(e, n)
    case Optional(e, _) => HasVersion(e, n)
    case Expected(a, e) => HasVersion(a, n) || HasVersion(e, n)
    case Variant(alts) => exists i | 0 <= i < |alts| :: HasVersion(alts[i], n)
    case Struct(_, fs) => exists i | 0 <= i < |fs| :: HasVersion(fs[i], n)
    case Compatible(m, _) => m == n
  }

  lemma {:induction false} CollectFindsVersions(t: Ty, n: nat)
    ensures n in Collect(t) <==> HasVersion(t, n)
    decreases t, 0
  {
    match t
    case Fixed(_) =>
    case Var(_) =>
    case Array(_, e) => CollectFindsVersions(e, n);
    case Container(_, e) => CollectFindsVersions(e, n);
    case Optional(e, _) => CollectFindsVersions(e, n);
    case Expected(a, e) => CollectFindsVersions(a, n); CollectFindsVersions(e, n);
    case Variant(alts) => CollectAllFindsVersions(alts, n);
    case Struct(_, fs) => CollectAllFindsVersions(fs, n);
    case Compatible(_, _) =>
  }

  lemma {:induction false} CollectAllFindsVersions(ts: seq<Ty>, n: nat)
    ensures n in CollectAll(ts) <==> exists i | 0 <= i < |ts| :: HasVersion(ts[i], n)
    decreases ts, 1
  {
    if |ts| > 0 {
      CollectFindsVersions(ts[0], n);
      CollectAllFindsVersions(ts[1..], n);
      assert forall i | 0 <= i < |ts| :: i > 0 ==> ts[i] == ts[1..][i - 1];
      assert forall i | 0 <= i < |ts[1..]| :: ts[1..][i] == ts[i + 1];
    }
  }

  /** What the library's static assertions demand of a type. */
  predicate WellFormed(t: Ty)
    decreases t
  {
    match t
    case Fixed(_) => true
    case Var(_) => true
    case Array(c, e) => c > 0 && !e.Fixed? && WellFormed(e)
    case Container(_, e) => WellFormed(e)
    case Optional(e, _) => WellFormed(e)
    case Expected(a, e) => WellFormed(a) && WellFormed(e)
    case Variant(alts) => 0 < |alts| < 256 && forall i | 0 <= i < |alts| :: WellFormed(alts[i])
    case Struct(fast, fs) =>
      && (fast ==> exists i | 0 <= i < |fs| :: fs[i].Var?)
      && (forall i | 0 <= i < |fs| :: WellFormed(fs[i]))
    case Compatible(n, e) => n < UINT64_MAX && WellFormed(e) && Collect(e) == []
  }

  predicate AllWellFormed(ts: seq<Ty>) {
    forall i | 0 <= i < |ts| :: WellFormed(ts[i])
  }

  function Repeat(x: Val, n: nat): (r: seq<Val>)
    ensures |r| == n && forall i | 0 <= i < n :: r[i] == x
  {
    if n == 0 then [] else [x] + Repeat(x, n - 1)
  }

  /** The value-initialised object that deserialisation starts from. */
  function Default(t: Ty): (v: Val)
    requires WellFormed(t)
    ensures HasType(t, v)
    decreases t, 0
  {
    match t
    case Fixed(w) => Blob(seq(w, _ => 0))
    case Var(k) => Num(0)
    case Array(c, e) => Items(Repeat(Default(e), c))
    case Container(_, _) => Items([])
    case Optional(_, _) => Null
    case Expected(a, e) => Alt(1, Default(a))
    case Variant(alts) => Alt(0, Default(alts[0]))
    case Struct(_, fs) => Items(Defaults(fs))
    case Compatible(_, _) => Null
  }

  function Defaults(ts: seq<Ty>): (vs: seq<Val>)
    requires AllWellFormed(ts)
    ensures HasTypes(ts, vs)
    decreases ts, 1
  {
    if |ts| == 0 then [] else [Default(ts[0])] + Defaults(ts[1..])
  }

  /** What is left of v when it has been moved from: an optional keeps its place filled, a
      pointer and a container are empty, everything that is only copied is as before. */
  function Moved(t: Ty, v: Val): (r: Val)
    requires HasType(t, v)
    ensures HasType(t, r)
    decreases t, 0
  {
    match t
    case Fixed(_) => v
    case Var(_) => v
    case Array(_, e) => Items(MovedElems(e, v.items))
    case Container(_, _) => Items([])
    case Optional(e, pointer) => if v.Null? || pointer then Null else Some(Moved(e, v.value))
    case Expected(a, e) => Alt(v.index, Moved(if v.index == 1 then a else e, v.value))
    case Variant(alts) => Alt(v.index, Moved(alts[v.index], v.value))
    case Struct(_, fs) => Items(MovedFields(fs, v.items))
    case Compatible(_, e) => if v.Null? then Null else Some(Moved(e, v.value))
  }

  function MovedElems(t: Ty, vs: seq<Val>): (r: seq<Val>)
    requires AllHaveType(t, vs)
    ensures |r| == |vs| && AllHaveType(t, r)
    decreases t, 1, |vs|
  {
    if |vs| == 0 then [] else [Moved(t, vs[0])] + MovedElems(t, vs[1..])
  }

  function MovedFields(ts: seq<Ty>, vs: seq<Val>): (r: seq<Val>)
    requires HasTypes(ts, vs)
    ensures HasTypes(ts, r)
    decreases ts, 1
  {
    if |ts| == 0 then [] else [Moved(ts[0], vs[0])] + MovedFields(ts[1..], vs[1..])
  }

  // ---- what a reader knows after some version passes -----------------------------------

  /** v with every compatible field whose version is not in s set to null. */
  function Known(t: Ty, v: Val, s: set<nat>): (r: Val)
    requires HasType(t, v)
    ensures HasType(t, r)
    decreases t, 0
  {
    match t
    case Fixed(_) => v
    case Var(_) => v
    case Array(_, e) => Items(KnownElems(e, v.items, s))
    case Container(_, e) => Items(KnownElems(e, v.items, s))
    case Optional(e, _) => if v.Null? then Null else Some(Known(e, v.value, s))
    case Expected(a, e) => Alt(v.index, Known(if v.index == 1 then a else e, v.value, s))
    case Variant(alts) => Alt(v.index, Known(alts[v.index], v.value, s))
    case Struct(_, fs) => Items(KnownFields(fs, v.items, s))
    case Compatible(n, _) => if n in s then v else Null
  }

  function KnownElems(t: Ty, vs: seq<Val>, s: set<nat>): (r: seq<Val>)
    requires AllHaveType(t, vs)
    ensures |r| == |vs| && AllHaveType(t, r)
    decreases t, 1, |vs|
  {
    if |vs| == 0 then [] else [Known(t, vs[0], s)] + KnownElems(t, vs[1..], s)
  }

  function KnownFields(ts: seq<Ty>, vs: seq<Val>, s: set<nat>): (r: seq<Val>)
    requires HasTypes(ts, vs)
    ensures HasTypes(ts, r)
    decreases ts, 1
  {
    if |ts| == 0 then [] else [Known(ts[0], vs[0], s)] + KnownFields(ts[1..], vs[1..], s)
  }

  lemma {:induction false} KnownUnchanged(t: Ty, v: Val, s: set<nat>, n: nat)
    requires HasType(t, v) && !HasVersion(t, n)
    ensures Known(t, v, s + {n}) == Known(t, v, s)
    decreases t, 0
  {
    match t
    case Fixed(_) =>
    case Var(_) =>
    case Array(_, e) => KnownElemsUnchanged(e, v.items, s, n);
    case Container(_, e) => KnownElemsUnchanged(e, v.items, s, n);
    case Optional(e, _) => if v.Some? { KnownUnchanged(e, v.value, s, n); }
    case Expected(a, e) => KnownUnchanged(if v.index == 1 then a else e, v.value, s, n);
    case Variant(alts) => KnownUnchanged(alts[v.index], v.value, s, n);
    case Struct(_, fs) => KnownFieldsUnchanged(fs, v.items, s, n);
    case Compatible(_, _) =>
  }

  lemma {:induction false} KnownElemsUnchanged(t: Ty, vs: seq<Val>, s: set<nat>, n: nat)
    requires AllHaveType(t, vs) && !HasVersion(t, n)
    ensures KnownElems(t, vs, s + {n}) == KnownElems(t, vs, s)
    decreases t, 1, |vs|
  {
    if |vs| > 0 {
      KnownUnchanged(t, vs[0], s, n);
      KnownElemsUnchanged(t, vs[1..], s, n);
    }
  }

  lemma {:induction false} KnownFieldsUnchanged(ts: seq<Ty>, vs: seq<Val>, s: set<nat>, n: nat)
    requires HasTypes(ts, vs) && forall i | 0 <= i < |ts| :: !HasVersion(ts[i], n)
    ensures KnownFields(ts, vs, s + {n}) == KnownFields(ts, vs, s)
    decreases ts, 1
  {
    if |ts| > 0 {
      KnownUnchanged(ts[0], vs[0], s, n);
      KnownFieldsUnchanged(ts[1..], vs[1..], s, n);
    }
  }

  /** Knowing less of what is known. */
  lemma {:induction false} KnownWithin(t: Ty, v: Val, s: set<nat>, u: set<nat>)
    requires HasType(t, v) && s <= u
    ensures Known(t, Known(t, v, u), s) == Known(t, v, s)
    decreases t, 0
  {
    hide KnownElems, KnownFields;
    match t
    case Fixed(_) =>
    case Var(_) =>
    case Array(_, e) => KnownWithinElems(e, v.items, s, u);
    case Container(_, e) => KnownWithinElems(e, v.items, s, u);
    case Optional(e, _) => if v.Some? { KnownWithin(e, v.value, s, u); }
    case Expected(a, e) => KnownWithin(if v.index == 1 then a else e, v.value, s, u);
    case Variant(alts) => KnownWithin(alts[v.index], v.value, s, u);
    case Struct(_, fs) => KnownWithinFields(fs, v.items, s, u);
    case Compatible(_, _) =>
  }

  lemma {:induction false} KnownWithinElems(t: Ty, vs: seq<Val>, s: set<nat>, u: set<nat>)
    requires AllHaveType(t, vs) && s <= u
    ensures KnownElems(t, KnownElems(t, vs, u), s) == KnownElems(t, vs, s)
    decreases t, 1, |vs|
  {
    hide Known, HasType;
    if |vs| > 0 {
      KnownWithin(t, vs[0], s, u);
      KnownWithinElems(t, vs[1..], s, u);
      assert KnownElems(t, vs, u)[1..] == KnownElems(t, vs[1..], u);
    }
  }

  lemma {:induction false} KnownWithinFields(ts: seq<Ty>, vs: seq<Val>, s: set<nat>, u: set<nat>)
    requires HasTypes(ts, vs) && s <= u
    ensures KnownFields(ts, KnownFields(ts, vs, u), s) == KnownFields(ts, vs, s)
    decreases ts, 1
  {
    hide Known, HasType;
    if |ts| > 0 {
      KnownWithin(ts[0], vs[0], s, u);
      KnownWithinFields(ts[1..], vs[1..], s, u);
      assert KnownFields(ts, vs, u)[1..] == KnownFields(ts[1..], vs[1..], u);
    }
  }

  lemma {:induction false} KnownAll(t: Ty, v: Val, s: set<nat>)
    requires HasType(t, v)
    requires forall n :: HasVersion(t, n) ==> n in s
    ensures Known(t, v, s) == v
    decreases t, 0
  {
    match t
    case Fixed(_) =>
    case Var(_) =>
    case Array(_, e) => KnownAllElems(e, v.items, s);
    case Container(_, e) => KnownAllElems(e, v.items, s);
    case Optional(e, _) => if v.Some? { KnownAll(e, v.value, s); }
    case Expected(a, e) => KnownAll(if v.index == 1 then a else e, v.value, s);
    case Variant(alts) =>
      forall n | HasVersion(alts[v.index], n) ensures n in s { assert HasVersion(t, n); }
      KnownAll(alts[v.index], v.value, s);
    case Struct(_, fs) =>
      forall i, n | 0 <= i < |fs| && HasVersion(fs[i], n) ensures n in s { assert HasVersion(t, n); }
      KnownAllFields(fs, v.items, s);
    case Compatible(n, _) => assert HasVersion(t, n);
  }

  lemma {:induction false} KnownAllElems(t: Ty, vs: seq<Val>, s: set<nat>)
    requires AllHaveType(t, vs)
    requires forall n :: HasVersion(t, n) ==> n in s
    ensures KnownElems(t, vs, s) == vs
    decreases t, 1, |vs|
  {
    if |vs| > 0 {
      KnownAll(t, vs[0], s);
      KnownAllElems(t, vs[1..], s);
    }
  }

  lemma {:induction false} KnownAllFields(ts: seq<Ty>, vs: seq<Val>, s: set<nat>)
    requires HasTypes(ts, vs)
    requires forall i, n :: 0 <= i < |ts| && HasVersion(ts[i], n) ==> n in s
    ensures KnownFields(ts, vs, s) == vs
    decreases ts, 1
  {
    if |ts| > 0 {
      KnownAll(ts[0], vs[0], s);
      KnownAllFields(ts[1..], vs[1..], s);
    }
  }
}
