/** What the packer writes in each pass over a value, and what the sizer announces. */
module Encoding {
  import opened Bytes
  import opened Leb128
  import opened Schema
  import opened FastVarint

  ghost predicate Typed(t: Ty, v: Val) {
    WellFormed(t) && HasType(t, v)
  }

  /** serialize_one: the bytes of one pass; w is the width of a container length. */
  function Encode(t: Ty, v: Val, pass: Pass, w: nat): bytes
    requires WellFormed(t) && HasType(t, v)
    decreases t, 0
  {
    if pass.Version? && !HasVersion(t, pass.n) then []
    else
      match t
      case Fixed(_) => if pass.Plain? then v.bytes else []
      case Var(k) => if pass.Plain? then EncodeVar(k, v.n) else []
      case Array(_, e) => EncodeElems(e, v.items, pass, w)
      case Container(_, e) => (if pass.Plain? then LE(w, |v.items|) else []) + EncodeElems(e, v.items, pass, w)
      case Optional(e, _) =>
        (if pass.Plain? then [if v.Some? then 1 else 0] else [])
        + (if v.Some? then Encode(e, v.value, pass, w) else [])
      case Expected(a, e) =>
        (if pass.Plain? then [v.index] else []) + Encode(if v.index == 1 then a else e, v.value, pass, w)
      case Variant(alts) =>
        (if pass.Plain? then [v.index] else []) + Encode(alts[v.index], v.value, pass, w)
      case Struct(fast, fs) =>
        (if pass.Plain? && fast then EncodeBlock(fs, v.items) else [])
        + EncodeFields(pass.Plain? && fast, fs, v.items, pass, w)
      case Compatible(n, e) =>
        if pass != Version(n) then []
        else [if v.Some? then 1 else 0] + (if v.Some? then Encode(e, v.value, Plain, w) else [])
  }

  /** serialize_varint */
  function EncodeVar(k: VarKind, n: int): bytes
    requires k.Holds(n)
  {
    WireRoundTrip(k, n);
    Leb(k.Wire(n))
  }

  /** A negative integer without zigzag is widened to 64 bits first: it takes ten bytes. */
  lemma {:induction false} NegativeTakesTen(k: VarKind, n: int)
    requires k.Holds(n) && n < 0 && !k.ZigZag()
    ensures |EncodeVar(k, n)| == 10
  {
    hide Span;
    SpanValues();
    WireRoundTrip(k, n);
    Pow128Ten();
    LebLeast(k.Wire(n), 9);
    LebFits(k.Wire(n), 10);
  }

  function EncodeElems(t: Ty, vs: seq<Val>, pass: Pass, w: nat): bytes
    requires WellFormed(t) && AllHaveType(t, vs)
    decreases t, 1, |vs|
  {
    if |vs| == 0 then [] else Encode(t, vs[0], pass, w) + EncodeElems(t, vs[1..], pass, w)
  }

  /** serialize_many: the varints of a fast struct stand in its block, not here. */
  function EncodeFields(skipVars: bool, ts: seq<Ty>, vs: seq<Val>, pass: Pass, w: nat): bytes
    requires AllWellFormed(ts) && HasTypes(ts, vs)
    decreases ts, 1
  {
    if |ts| == 0 then []
    else (if skipVars && ts[0].Var? then [] else Encode(ts[0], vs[0], pass, w))
         + EncodeFields(skipVars, ts[1..], vs[1..], pass, w)
  }

  /** The passes for the given versions, one behind the other. */
  function EncodeVersions(t: Ty, v: Val, ns: seq<nat>, w: nat): bytes
    requires WellFormed(t) && HasType(t, v)
  {
    if |ns| == 0 then [] else Encode(t, v, Version(ns[0]), w) + EncodeVersions(t, v, ns[1..], w)
  }

  // ---- the sizer -----------------------------------------------------------------------------

  /** size_info.total: the bytes of v without its container lengths; compatible fields are
      counted in the same pass as the others. */
  function Total(t: Ty, v: Val): nat
    requires WellFormed(t) && HasType(t, v)
    decreases t, 0
  {
    match t
    case Fixed(w) => w
    case Var(k) => |EncodeVar(k, v.n)|
    case Array(_, e) => TotalElems(e, v.items)
    case Container(shape, e) => if shape.Contiguous? && e.Fixed? then |v.items| * e.width else TotalElems(e, v.items)
    case Optional(e, _) => 1 + (if v.Some? then Total(e, v.value) else 0)
    case Expected(a, e) => 1 + Total(if v.index == 1 then a else e, v.value)
    case Variant(alts) => 1 + Total(alts[v.index], v.value)
    case Struct(fast, fs) => (if fast then BlockSize(fs, v.items) else 0) + TotalFields(fast, fs, v.items)
    case Compatible(_, e) => 1 + (if v.Some? then Total(e, v.value) else 0)
  }

  function TotalElems(t: Ty, vs: seq<Val>): nat
    requires WellFormed(t) && AllHaveType(t, vs)
    decreases t, 1, |vs|
  {
    if |vs| == 0 then 0 else Total(t, vs[0]) + TotalElems(t, vs[1..])
  }

  function TotalFields(skipVars: bool, ts: seq<Ty>, vs: seq<Val>): nat
    requires AllWellFormed(ts) && HasTypes(ts, vs)
    decreases ts, 1
  {
    if |ts| == 0 then 0
    else (if skipVars && ts[0].Var? then 0 else Total(ts[0], vs[0])) + TotalFields(skipVars, ts[1..], vs[1..])
  }

  /** size_info.size_cnt: the number of container lengths in v. */
  function Count(t: Ty, v: Val): nat
    requires WellFormed(t) && HasType(t, v)
    decreases t, 0
  {
    match t
    case Fixed(_) => 0
    case Var(_) => 0
    case Array(_, e) => CountElems(e, v.items)
    case Container(_, e) => 1 + CountElems(e, v.items)
    case Optional(e, _) => if v.Some? then Count(e, v.value) else 0
    case Expected(a, e) => Count(if v.index == 1 then a else e, v.value)
    case Variant(alts) => Count(alts[v.index], v.value)
    case Struct(_, fs) => CountFields(fs, v.items)
    case Compatible(_, e) => if v.Some? then Count(e, v.value) else 0
  }

  function CountElems(t: Ty, vs: seq<Val>): nat
    requires WellFormed(t) && AllHaveType(t, vs)
    decreases t, 1, |vs|
  {
    if |vs| == 0 then 0 else Count(t, vs[0]) + CountElems(t, vs[1..])
  }

  function CountFields(ts: seq<Ty>, vs: seq<Val>): nat
    requires AllWellFormed(ts) && HasTypes(ts, vs)
    decreases ts, 1
  {
    if |ts| == 0 then 0 else Count(ts[0], vs[0]) + CountFields(ts[1..], vs[1..])
  }

  /** size_info.max_size: the largest container length in v. */
  function MaxLength(t: Ty, v: Val): nat
    requires WellFormed(t) && HasType(t, v)
    decreases t, 0
  {
    match t
    case Fixed(_) => 0
    case Var(_) => 0
    case Array(_, e) => MaxLengthElems(e, v.items)
    case Container(_, e) => Larger(|v.items|, MaxLengthElems(e, v.items))
    case Optional(e, _) => if v.Some? then MaxLength(e, v.value) else 0
    case Expected(a, e) => MaxLength(if v.index == 1 then a else e, v.value)
    case Variant(alts) => MaxLength(alts[v.index], v.value)
    case Struct(_, fs) => MaxLengthFields(fs, v.items)
    case Compatible(_, e) => if v.Some? then MaxLength(e, v.value) else 0
  }

  function Larger(a: nat, b: nat): nat {
    if a > b then a else b
  }

  function MaxLengthElems(t: Ty, vs: seq<Val>): nat
    requires WellFormed(t) && AllHaveType(t, vs)
    decreases t, 1, |vs|
  {
    if |vs| == 0 then 0 else Larger(MaxLength(t, vs[0]), MaxLengthElems(t, vs[1..]))
  }

  function MaxLengthFields(ts: seq<Ty>, vs: seq<Val>): nat
    requires AllWellFormed(ts) && HasTypes(ts, vs)
    decreases ts, 1
  {
    if |ts| == 0 then 0 else Larger(MaxLength(ts[0], vs[0]), MaxLengthFields(ts[1..], vs[1..]))
  }

  /** Somewhere in v there is a container of n elements. */
  predicate HasLength(t: Ty, v: Val, n: nat)
    requires WellFormed(t) && HasType(t, v)
    decreases t
  {
    match t
    case Fixed(_) => false
    case Var(_) => false
    case Array(_, e) => exists i | 0 <= i < |v.items| :: HasLength(e, v.items[i], n)
    case Container(_, e) => n == |v.items| || exists i | 0 <= i < |v.items| :: HasLength(e, v.items[i], n)
    case Optional(e, _) => v.Some? && HasLength(e, v.value, n)
    case Expected(a, e) => HasLength(if v.index == 1 then a else e, v.value, n)
    case Variant(alts) => HasLength(alts[v.index], v.value, n)
    case Struct(_, fs) => exists i | 0 <= i < |fs| :: HasLength(fs[i], v.items[i], n)
    case Compatible(_, e) => v.Some? && HasLength(e, v.value, n)
  }

  /** What the sizer finds is the greatest length in v, 0 without a container. */
  lemma {:induction false} MaxLengthExact(t: Ty, v: Val)
    requires Typed(t, v)
    ensures forall n: nat | HasLength(t, v, n) :: n <= MaxLength(t, v)
    ensures MaxLength(t, v) > 0 ==> HasLength(t, v, MaxLength(t, v))
    decreases t, 0
  {
    hide MaxLengthElems, MaxLengthFields, Collect;
    match t
    case Fixed(_) =>
    case Var(_) =>
    case Array(_, e) => MaxLengthOfElems(e, v.items);
    case Container(_, e) => MaxLengthOfElems(e, v.items);
    case Optional(e, _) => if v.Some? { MaxLengthExact(e, v.value); }
    case Expected(a, e) => MaxLengthExact(if v.index == 1 then a else e, v.value);
    case Variant(alts) => MaxLengthExact(alts[v.index], v.value);
    case Struct(_, fs) => MaxLengthOfFields(fs, v.items);
    case Compatible(_, e) => if v.Some? { MaxLengthExact(e, v.value); }
  }

  lemma {:induction false} MaxLengthOfElems(t: Ty, vs: seq<Val>)
    requires WellFormed(t) && AllHaveType(t, vs)
    ensures forall i, n: nat | 0 <= i < |vs| && HasLength(t, vs[i], n) :: n <= MaxLengthElems(t, vs)
    ensures MaxLengthElems(t, vs) > 0 ==> exists i | 0 <= i < |vs| :: HasLength(t, vs[i], MaxLengthElems(t, vs))
    decreases t, 1, |vs|
  {
    hide MaxLength, HasLength, HasType, WellFormed;
    if |vs| > 0 {
      var rest := vs[1..];
      MaxLengthExact(t, vs[0]);
      MaxLengthOfElems(t, rest);
      var max := MaxLengthElems(t, vs);
      assert max == Larger(MaxLength(t, vs[0]), MaxLengthElems(t, rest));
      forall i, n: nat | 0 <= i < |vs| && HasLength(t, vs[i], n) ensures n <= max {
        if i > 0 { assert HasLength(t, rest[i - 1], n); }
      }
      if max > 0 {
        if max == MaxLength(t, vs[0]) {
          assert HasLength(t, vs[0], max);
        } else {
          var i :| 0 <= i < |rest| && HasLength(t, rest[i], max);
          assert HasLength(t, vs[i + 1], max);
        }
      }
    }
  }

  lemma {:induction false} MaxLengthOfFields(ts: seq<Ty>, vs: seq<Val>)
    requires AllWellFormed(ts) && HasTypes(ts, vs)
    ensures forall i, n: nat | 0 <= i < |ts| && HasLength(ts[i], vs[i], n) :: n <= MaxLengthFields(ts, vs)
    ensures MaxLengthFields(ts, vs) > 0 ==> exists i | 0 <= i < |ts| :: HasLength(ts[i], vs[i], MaxLengthFields(ts, vs))
    decreases ts, 1
  {
    hide MaxLength, HasLength, HasType, WellFormed;
    if |ts| > 0 {
      var restT, rest := ts[1..], vs[1..];
      MaxLengthExact(ts[0], vs[0]);
      MaxLengthOfFields(restT, rest);
      var max := MaxLengthFields(ts, vs);
      assert max == Larger(MaxLength(ts[0], vs[0]), MaxLengthFields(restT, rest));
      forall i, n: nat | 0 <= i < |ts| && HasLength(ts[i], vs[i], n) ensures n <= max {
        if i > 0 { assert HasLength(restT[i - 1], rest[i - 1], n); }
      }
      if max > 0 {
        if max == MaxLength(ts[0], vs[0]) {
          assert HasLength(ts[0], vs[0], max);
        } else {
          var i :| 0 <= i < |restT| && HasLength(restT[i], rest[i], max);
          assert HasLength(ts[i + 1], vs[i + 1], max);
        }
      }
    }
  }

  /** The bytes of v when every container length takes w of them. */
  function Cost(t: Ty, v: Val, w: nat): int
    requires WellFormed(t) && HasType(t, v)
  {
    Total(t, v) + Count(t, v) * w
  }

  lemma {:induction false} Distribute(a: int, b: int, w: int)
    ensures (a + b) * w == a * w + b * w
  {
  }

  // ---- the sizer against the writer -------------------------------------------------------------

  /** What the sizer counts for the compatible fields whose version is in s. */
  function CompatBytes(t: Ty, v: Val, s: set<nat>, w: nat): int
    requires WellFormed(t) && HasType(t, v)
    decreases t, 0
  {
    match t
    case Fixed(_) => 0
    case Var(_) => 0
    case Array(_, e) => CompatBytesElems(e, v.items, s, w)
    case Container(_, e) => CompatBytesElems(e, v.items, s, w)
    case Optional(e, _) => if v.Some? then CompatBytes(e, v.value, s, w) else 0
    case Expected(a, e) => CompatBytes(if v.index == 1 then a else e, v.value, s, w)
    case Variant(alts) => CompatBytes(alts[v.index], v.value, s, w)
    case Struct(_, fs) => CompatBytesFields(fs, v.items, s, w)
    case Compatible(n, e) => if n !in s then 0 else 1 + (if v.Some? then Cost(e, v.value, w) else 0)
  }

  function CompatBytesElems(t: Ty, vs: seq<Val>, s: set<nat>, w: nat): int
    requires WellFormed(t) && AllHaveType(t, vs)
    decreases t, 1, |vs|
  {
    if |vs| == 0 then 0 else CompatBytes(t, vs[0], s, w) + CompatBytesElems(t, vs[1..], s, w)
  }

  function CompatBytesFields(ts: seq<Ty>, vs: seq<Val>, s: set<nat>, w: nat): int
    requires AllWellFormed(ts) && HasTypes(ts, vs)
    decreases ts, 1
  {
    if |ts| == 0 then 0 else CompatBytes(ts[0], vs[0], s, w) + CompatBytesFields(ts[1..], vs[1..], s, w)
  }

  /** A pass writes as many bytes as the sizer counts for the compatible fields of its version. */
  lemma {:induction false} PassBytes(t: Ty, v: Val, s: set<nat>, n: nat, w: nat)
    requires Typed(t, v) && n !in s
    ensures CompatBytes(t, v, s + {n}, w) == CompatBytes(t, v, s, w) + |Encode(t, v, Version(n), w)|
    decreases t, 0
  {
    if !HasVersion(t, n) {
      NoVersionBytes(t, v, s, n, w);
    } else {
      match t
      case Fixed(_) =>
      case Var(_) =>
      case Array(_, e) => PassBytesElems(e, v.items, s, n, w);
      case Container(_, e) => PassBytesElems(e, v.items, s, n, w);
      case Optional(e, _) => if v.Some? { PassBytes(e, v.value, s, n, w); }
      case Expected(a, e) => PassBytes(if v.index == 1 then a else e, v.value, s, n, w);
      case Variant(alts) => PassBytes(alts[v.index], v.value, s, n, w);
      case Struct(_, fs) => PassBytesFields(fs, v.items, s, n, w);
      case Compatible(_, e) => if v.Some? { ContentBytes(e, v.value, w); }
    }
  }

  /** What a compatible field holds has no compatible fields itself. */
  lemma {:induction false} ContentBytes(e: Ty, v: Val, w: nat)
    requires Typed(e, v) && Collect(e) == []
    ensures Cost(e, v, w) == |Encode(e, v, Plain, w)|
  {
    hide CompatBytes, Encode, Total, Count, HasType, WellFormed;
    forall m ensures !HasVersion(e, m) { CollectFindsVersions(e, m); }
    SizeSplits(e, v, {}, w);
    NoCompatBytes(e, v, w);
  }

  lemma {:induction false} PassBytesElems(t: Ty, vs: seq<Val>, s: set<nat>, n: nat, w: nat)
    requires WellFormed(t) && AllHaveType(t, vs) && n !in s
    ensures CompatBytesElems(t, vs, s + {n}, w) == CompatBytesElems(t, vs, s, w) + |EncodeElems(t, vs, Version(n), w)|
    decreases t, 1, |vs|
  {
    if |vs| > 0 {
      PassBytes(t, vs[0], s, n, w);
      PassBytesElems(t, vs[1..], s, n, w);
    }
  }

  lemma {:induction false} PassBytesFields(ts: seq<Ty>, vs: seq<Val>, s: set<nat>, n: nat, w: nat)
    requires AllWellFormed(ts) && HasTypes(ts, vs) && n !in s
    ensures CompatBytesFields(ts, vs, s + {n}, w) == CompatBytesFields(ts, vs, s, w) + |EncodeFields(false, ts, vs, Version(n), w)|
    decreases ts, 1
  {
    if |ts| > 0 {
      PassBytes(ts[0], vs[0], s, n, w);
      PassBytesFields(ts[1..], vs[1..], s, n, w);
    }
  }

  lemma {:induction false} NoVersionBytes(t: Ty, v: Val, s: set<nat>, n: nat, w: nat)
    requires Typed(t, v) && !HasVersion(t, n)
    ensures CompatBytes(t, v, s + {n}, w) == CompatBytes(t, v, s, w)
    decreases t, 0
  {
    match t
    case Fixed(_) =>
    case Var(_) =>
    case Array(_, e) => NoVersionBytesElems(e, v.items, s, n, w);
    case Container(_, e) => NoVersionBytesElems(e, v.items, s, n, w);
    case Optional(e, _) => if v.Some? { NoVersionBytes(e, v.value, s, n, w); }
    case Expected(a, e) => NoVersionBytes(if v.index == 1 then a else e, v.value, s, n, w);
    case Variant(alts) => NoVersionBytes(alts[v.index], v.value, s, n, w);
    case Struct(_, fs) => NoVersionBytesFields(fs, v.items, s, n, w);
    case Compatible(_, _) =>
  }

  lemma {:induction false} NoVersionBytesElems(t: Ty, vs: seq<Val>, s: set<nat>, n: nat, w: nat)
    requires WellFormed(t) && AllHaveType(t, vs) && !HasVersion(t, n)
    ensures CompatBytesElems(t, vs, s + {n}, w) == CompatBytesElems(t, vs, s, w)
    decreases t, 1, |vs|
  {
    if |vs| > 0 {
      NoVersionBytes(t, vs[0], s, n, w);
      NoVersionBytesElems(t, vs[1..], s, n, w);
    }
  }

  lemma {:induction false} NoVersionBytesFields(ts: seq<Ty>, vs: seq<Val>, s: set<nat>, n: nat, w: nat)
    requires AllWellFormed(ts) && HasTypes(ts, vs) && forall i | 0 <= i < |ts| :: !HasVersion(ts[i], n)
    ensures CompatBytesFields(ts, vs, s + {n}, w) == CompatBytesFields(ts, vs, s, w)
    decreases ts, 1
  {
    if |ts| > 0 {
      NoVersionBytes(ts[0], vs[0], s, n, w);
      NoVersionBytesFields(ts[1..], vs[1..], s, n, w);
    }
  }

  /** The sizer counts the plain pass and all compatible fields. */
  lemma {:induction false} SizeSplits(t: Ty, v: Val, s: set<nat>, w: nat)
    requires Typed(t, v)
    requires forall n :: HasVersion(t, n) ==> n in s
    ensures Cost(t, v, w) == |Encode(t, v, Plain, w)| + CompatBytes(t, v, s, w)
    decreases t, 0
  {
    hide EncodeElems, EncodeFields, TotalElems, TotalFields, CountElems, CountFields, CompatBytesElems,
         CompatBytesFields, BlockSize, EncodeBlock, LE, CollectAll, EncodeVar;
    match t
    case Fixed(_) =>
    case Var(_) =>
    case Array(_, e) => SizeSplitsElems(e, v.items, s, w);
    case Container(shape, e) =>
      SizeSplitsElems(e, v.items, s, w);
      if shape.Contiguous? && e.Fixed? { BulkSize(e, v.items); }
      Distribute(1, CountElems(e, v.items), w);
    case Optional(e, _) => if v.Some? { SizeSplits(e, v.value, s, w); }
    case Expected(a, e) => SizeSplits(if v.index == 1 then a else e, v.value, s, w);
    case Variant(alts) =>
      forall n | HasVersion(alts[v.index], n) ensures n in s { assert HasVersion(t, n); }
      SizeSplits(alts[v.index], v.value, s, w);
    case Struct(fast, fs) =>
      forall i, n: nat | 0 <= i < |fs| && HasVersion(fs[i], n) ensures n in s { assert HasVersion(t, n); }
      SizeSplitsFields(fast, fs, v.items, s, w);
      BlockSizeExact(fs, v.items);
    case Compatible(n, _) => assert HasVersion(t, n);
  }

  lemma {:induction false} SizeSplitsElems(t: Ty, vs: seq<Val>, s: set<nat>, w: nat)
    requires WellFormed(t) && AllHaveType(t, vs)
    requires forall n :: HasVersion(t, n) ==> n in s
    ensures TotalElems(t, vs) + CountElems(t, vs) * w == |EncodeElems(t, vs, Plain, w)| + CompatBytesElems(t, vs, s, w)
    decreases t, 1, |vs|
  {
    hide CompatBytes, Encode, Total, Count, HasType, WellFormed, HasVersion;
    if |vs| > 0 {
      SizeSplits(t, vs[0], s, w);
      SizeSplitsElems(t, vs[1..], s, w);
      Distribute(Count(t, vs[0]), CountElems(t, vs[1..]), w);
    }
  }

  lemma {:induction false} SizeSplitsFields(skip: bool, ts: seq<Ty>, vs: seq<Val>, s: set<nat>, w: nat)
    requires AllWellFormed(ts) && HasTypes(ts, vs)
    requires forall i, n :: 0 <= i < |ts| && HasVersion(ts[i], n) ==> n in s
    ensures TotalFields(skip, ts, vs) + CountFields(ts, vs) * w
            == |EncodeFields(skip, ts, vs, Plain, w)| + CompatBytesFields(ts, vs, s, w)
    decreases ts, 1
  {
    hide CompatBytes, Total, Count, HasType, WellFormed, HasVersion, Encode;
    if |ts| > 0 {
      if ts[0].Var? { VarHasNoParts(ts[0], vs[0], s, w); }
      SizeSplits(ts[0], vs[0], s, w);
      SizeSplitsFields(skip, ts[1..], vs[1..], s, w);
      Distribute(Count(ts[0], vs[0]), CountFields(ts[1..], vs[1..]), w);
    }
  }

  lemma {:induction false} VarHasNoParts(t: Ty, v: Val, s: set<nat>, w: nat)
    requires Typed(t, v) && t.Var?
    ensures Count(t, v) == 0 && CompatBytes(t, v, s, w) == 0
  {
  }

  lemma {:induction false} OneMore(n: nat, width: nat)
    ensures (n + 1) * width == n * width + width
  {
  }

  /** Trivially copied elements are counted by multiplication. */
  lemma {:induction false} BulkSize(t: Ty, vs: seq<Val>)
    requires t.Fixed? && AllHaveType(t, vs)
    ensures TotalElems(t, vs) == |vs| * t.width && CountElems(t, vs) == 0
  {
    if |vs| > 0 {
      BulkSize(t, vs[1..]);
      OneMore(|vs[1..]|, t.width);
    }
  }

  lemma {:induction false} NoCompatBytes(t: Ty, v: Val, w: nat)
    requires Typed(t, v)
    ensures CompatBytes(t, v, {}, w) == 0
    decreases t, 0
  {
    match t
    case Fixed(_) =>
    case Var(_) =>
    case Array(_, e) => NoCompatBytesElems(e, v.items, w);
    case Container(_, e) => NoCompatBytesElems(e, v.items, w);
    case Optional(e, _) => if v.Some? { NoCompatBytes(e, v.value, w); }
    case Expected(a, e) => NoCompatBytes(if v.index == 1 then a else e, v.value, w);
    case Variant(alts) => NoCompatBytes(alts[v.index], v.value, w);
    case Struct(_, fs) => NoCompatBytesFields(fs, v.items, w);
    case Compatible(_, _) =>
  }

  lemma {:induction false} NoCompatBytesElems(t: Ty, vs: seq<Val>, w: nat)
    requires WellFormed(t) && AllHaveType(t, vs)
    ensures CompatBytesElems(t, vs, {}, w) == 0
    decreases t, 1, |vs|
  {
    if |vs| > 0 {
      NoCompatBytes(t, vs[0], w);
      NoCompatBytesElems(t, vs[1..], w);
    }
  }

  lemma {:induction false} NoCompatBytesFields(ts: seq<Ty>, vs: seq<Val>, w: nat)
    requires AllWellFormed(ts) && HasTypes(ts, vs)
    ensures CompatBytesFields(ts, vs, {}, w) == 0
    decreases ts, 1
  {
    if |ts| > 0 {
      NoCompatBytes(ts[0], vs[0], w);
      NoCompatBytesFields(ts[1..], vs[1..], w);
    }
  }

  /** No version occurs twice, and none of them has been passed already. */
  ghost predicate Pending(ns: seq<nat>, done: set<nat>) {
    && (forall i, j | 0 <= i < j < |ns| :: ns[i] != ns[j])
    && (forall i | 0 <= i < |ns| :: ns[i] !in done)
  }

  function Elements(ns: seq<nat>): set<nat> {
    set n | n in ns
  }

  lemma {:induction false} PendingStep(ns: seq<nat>, done: set<nat>)
    requires Pending(ns, done) && |ns| > 0
    ensures ns[0] !in done && Pending(ns[1..], done + {ns[0]})
    ensures done + {ns[0]} + Elements(ns[1..]) == done + Elements(ns)
  {
    assert ns == [ns[0]] + ns[1..];
  }

  lemma {:induction false} VersionsBytes(t: Ty, v: Val, ns: seq<nat>, done: set<nat>, w: nat)
    requires Typed(t, v) && Pending(ns, done)
    ensures CompatBytes(t, v, done + Elements(ns), w) == CompatBytes(t, v, done, w) + |EncodeVersions(t, v, ns, w)|
    decreases |ns|
  {
    hide CompatBytes, Encode, HasType, WellFormed, Pending;
    if |ns| == 0 {
      assert done + Elements(ns) == done;
    } else {
      PendingStep(ns, done);
      PassBytes(t, v, done, ns[0], w);
      VersionsBytes(t, v, ns[1..], done + {ns[0]}, w);
    }
  }

  /** One sizing pass announces exactly the bytes of all writing passes together. */
  lemma {:induction false} SizeExact(t: Ty, v: Val, ns: seq<nat>, w: nat)
    requires Typed(t, v) && Pending(ns, {})
    requires forall n :: HasVersion(t, n) ==> n in ns
    ensures Cost(t, v, w) == |Encode(t, v, Plain, w)| + |EncodeVersions(t, v, ns, w)|
  {
    hide CompatBytes, Encode, EncodeVersions, Total, Count, HasType, WellFormed, Pending;
    SizeSplits(t, v, Elements(ns), w);
    VersionsBytes(t, v, ns, {}, w);
    NoCompatBytes(t, v, w);
    assert {} + Elements(ns) == Elements(ns);
  }
}
