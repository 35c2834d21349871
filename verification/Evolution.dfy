/** Schema evolution: a type and the same type before compatible fields of later versions were
    added read each other's bytes. */
module Evolution {
  import opened Bytes
  import opened Status
  import opened Schema
  import opened FastVarint
  import opened Encoding
  import opened Decoding
  import opened Restoring
  import opened RoundTrip
  import opened Versions
  import opened Message

  // ---- the older type --------------------------------------------------------------------------

  /** A compatible field that did not exist before version m. */
  predicate IsNew(t: Ty, m: nat) {
    t.Compatible? && t.version >= m
  }

  /** Compatible fields of version m and later stand directly in structs, as fields. */
  predicate Placed(t: Ty, m: nat)
    decreases t
  {
    match t
    case Fixed(_) => true
    case Var(_) => true
    case Array(_, e) => !IsNew(e, m) && Placed(e, m)
    case Container(_, e) => !IsNew(e, m) && Placed(e, m)
    case Optional(e, _) => !IsNew(e, m) && Placed(e, m)
    case Expected(a, e) => !IsNew(a, m) && Placed(a, m) && !IsNew(e, m) && Placed(e, m)
    case Variant(alts) => forall i | 0 <= i < |alts| :: !IsNew(alts[i], m) && Placed(alts[i], m)
    case Struct(_, fs) => forall i | 0 <= i < |fs| :: IsNew(fs[i], m) || Placed(fs[i], m)
    case Compatible(n, _) => n < m
  }

  predicate AllPlaced(ts: seq<Ty>, m: nat) {
    forall i | 0 <= i < |ts| :: !IsNew(ts[i], m) && Placed(ts[i], m)
  }

  predicate FieldsPlaced(ts: seq<Ty>, m: nat) {
    forall i | 0 <= i < |ts| :: IsNew(ts[i], m) || Placed(ts[i], m)
  }

  /** The type as it was before version m. */
  function Before(t: Ty, m: nat): Ty
    requires Placed(t, m)
    decreases t, 0
  {
    match t
    case Fixed(_) => t
    case Var(_) => t
    case Array(c, e) => Array(c, Before(e, m))
    case Container(shape, e) => Container(shape, Before(e, m))
    case Optional(e, pointer) => Optional(Before(e, m), pointer)
    case Expected(a, e) => Expected(Before(a, m), Before(e, m))
    case Variant(alts) => Variant(BeforeAlts(alts, m))
    case Struct(fast, fs) => Struct(fast, BeforeFields(fs, m))
    case Compatible(_, _) => t
  }

  function BeforeAlts(ts: seq<Ty>, m: nat): (r: seq<Ty>)
    requires AllPlaced(ts, m)
    ensures |r| == |ts| && forall i | 0 <= i < |ts| :: r[i] == Before(ts[i], m)
    decreases ts, 1
  {
    if |ts| == 0 then [] else [Before(ts[0], m)] + BeforeAlts(ts[1..], m)
  }

  function BeforeFields(ts: seq<Ty>, m: nat): seq<Ty>
    requires FieldsPlaced(ts, m)
    decreases ts, 1
  {
    if |ts| == 0 then []
    else (if IsNew(ts[0], m) then [] else [Before(ts[0], m)]) + BeforeFields(ts[1..], m)
  }

  /** What a value of the newer type is in the older one: without the new fields. */
  function Project(t: Ty, v: Val, m: nat): Val
    requires Placed(t, m) && HasType(t, v)
    decreases t, 0
  {
    match t
    case Fixed(_) => v
    case Var(_) => v
    case Array(_, e) => Items(ProjectElems(e, v.items, m))
    case Container(_, e) => Items(ProjectElems(e, v.items, m))
    case Optional(e, _) => if v.Null? then Null else Some(Project(e, v.value, m))
    case Expected(a, e) => Alt(v.index, Project(if v.index == 1 then a else e, v.value, m))
    case Variant(alts) => Alt(v.index, Project(alts[v.index], v.value, m))
    case Struct(_, fs) => Items(ProjectFields(fs, v.items, m))
    case Compatible(_, _) => v
  }

  function ProjectElems(t: Ty, vs: seq<Val>, m: nat): (r: seq<Val>)
    requires Placed(t, m) && AllHaveType(t, vs)
    ensures |r| == |vs|
    decreases t, 1, |vs|
  {
    if |vs| == 0 then [] else [Project(t, vs[0], m)] + ProjectElems(t, vs[1..], m)
  }

  function ProjectFields(ts: seq<Ty>, vs: seq<Val>, m: nat): seq<Val>
    requires FieldsPlaced(ts, m) && HasTypes(ts, vs)
    decreases ts, 1
  {
    if |ts| == 0 then []
    else (if IsNew(ts[0], m) then [] else [Project(ts[0], vs[0], m)]) + ProjectFields(ts[1..], vs[1..], m)
  }

  // ---- the older type is a type, and its values are values ---------------------------------------

  lemma {:induction false} BeforeSound(t: Ty, m: nat)
    requires WellFormed(t) && Placed(t, m)
    ensures WellFormed(Before(t, m)) && (Before(t, m).Var? <==> t.Var?) && (t.Var? || t.Fixed? ==> Before(t, m) == t)
    ensures Before(t, m).Fixed? <==> t.Fixed?
    decreases t, 0
  {
    hide Collect, BeforeFields;
    match t
    case Fixed(_) =>
    case Var(_) =>
    case Array(_, e) => BeforeSound(e, m);
    case Container(_, e) => BeforeSound(e, m);
    case Optional(e, _) => BeforeSound(e, m);
    case Expected(a, e) => BeforeSound(a, m); BeforeSound(e, m);
    case Variant(alts) => BeforeAltsSound(alts, m);
    case Struct(fast, fs) => BeforeStructSound(fast, fs, m);
    case Compatible(_, _) =>
  }

  lemma {:induction false} BeforeAltsSound(ts: seq<Ty>, m: nat)
    requires AllWellFormed(ts) && AllPlaced(ts, m)
    ensures AllWellFormed(BeforeAlts(ts, m))
    decreases ts, 1
  {
    hide Collect, WellFormed, Before, Placed;
    forall i | 0 <= i < |ts| ensures WellFormed(BeforeAlts(ts, m)[i]) { BeforeSound(ts[i], m); }
  }

  lemma {:induction false} BeforeStructSound(fast: bool, fs: seq<Ty>, m: nat)
    requires AllWellFormed(fs) && FieldsPlaced(fs, m) && (fast ==> exists i | 0 <= i < |fs| :: fs[i].Var?)
    ensures WellFormed(Struct(fast, BeforeFields(fs, m)))
    decreases fs, 4
  {
    hide Collect, Before, BeforeFields, Placed;
    BeforeFieldsSound(fs, m);
  }

  lemma {:induction false} BeforeFieldsSound(ts: seq<Ty>, m: nat)
    requires AllWellFormed(ts) && FieldsPlaced(ts, m)
    ensures AllWellFormed(BeforeFields(ts, m))
    ensures (exists i | 0 <= i < |ts| :: ts[i].Var?) ==> exists i | 0 <= i < |BeforeFields(ts, m)| :: BeforeFields(ts, m)[i].Var?
    decreases ts, 1
  {
    hide Collect, WellFormed, Before, Placed;
    if |ts| > 0 {
      BeforeFieldsSound(ts[1..], m);
      if !IsNew(ts[0], m) { BeforeSound(ts[0], m); }
      var rest := BeforeFields(ts[1..], m);
      var all := BeforeFields(ts, m);
      if i :| 0 <= i < |ts| && ts[i].Var? {
        if i == 0 {
          assert all[0].Var?;
        } else {
          assert ts[1..][i - 1].Var?;
          var j :| 0 <= j < |rest| && rest[j].Var?;
          assert all[if IsNew(ts[0], m) then j else j + 1].Var?;
        }
      }
    }
  }

  lemma {:induction false} ProjectTyped(t: Ty, v: Val, m: nat)
    requires Typed(t, v) && Placed(t, m)
    ensures HasType(Before(t, m), Project(t, v, m))
    decreases t, 0
  {
    hide Collect, BeforeFields, ProjectFields, ProjectElems, WellFormed;
    assert WellFormed(t);
    TypedParts(t, v);
    match t
    case Fixed(_) =>
    case Var(_) =>
    case Array(_, e) => ProjectElemsTyped(e, v.items, m);
    case Container(_, e) => ProjectElemsTyped(e, v.items, m);
    case Optional(e, _) => if v.Some? { ProjectTyped(e, v.value, m); }
    case Expected(a, e) => ProjectTyped(if v.index == 1 then a else e, v.value, m);
    case Variant(alts) => ProjectTyped(alts[v.index], v.value, m);
    case Struct(_, fs) => ProjectFieldsTyped(fs, v.items, m);
    case Compatible(_, _) =>
  }

  /** The parts of a well-formed type are well-formed. */
  lemma {:induction false} TypedParts(t: Ty, v: Val)
    requires Typed(t, v)
    ensures match t
            case Fixed(_) => true
            case Var(_) => true
            case Array(_, e) => WellFormed(e)
            case Container(_, e) => WellFormed(e)
            case Optional(e, _) => WellFormed(e)
            case Expected(a, e) => WellFormed(a) && WellFormed(e)
            case Variant(alts) => AllWellFormed(alts)
            case Struct(_, fs) => AllWellFormed(fs)
            case Compatible(_, e) => WellFormed(e)
  {
  }

  lemma {:induction false} ProjectElemsTyped(t: Ty, vs: seq<Val>, m: nat)
    requires WellFormed(t) && AllHaveType(t, vs) && Placed(t, m)
    ensures AllHaveType(Before(t, m), ProjectElems(t, vs, m))
    decreases t, 1, |vs|
  {
    hide HasType, WellFormed, Before, Project, Placed;
    if |vs| > 0 {
      ProjectTyped(t, vs[0], m);
      ProjectElemsTyped(t, vs[1..], m);
    }
  }

  lemma {:induction false} ProjectFieldsTyped(ts: seq<Ty>, vs: seq<Val>, m: nat)
    requires AllWellFormed(ts) && HasTypes(ts, vs) && FieldsPlaced(ts, m)
    ensures HasTypes(BeforeFields(ts, m), ProjectFields(ts, vs, m))
    decreases ts, 1
  {
    hide HasType, WellFormed, Before, Project, Placed;
    if |ts| > 0 {
      if !IsNew(ts[0], m) { ProjectTyped(ts[0], vs[0], m); }
      ProjectFieldsTyped(ts[1..], vs[1..], m);
    }
  }

  // ---- versions ------------------------------------------------------------------------------------

  function Below(ns: seq<nat>, m: nat): seq<nat> {
    if |ns| == 0 then [] else (if ns[0] < m then [ns[0]] else []) + Below(ns[1..], m)
  }

  lemma {:induction false} BelowBoth(a: seq<nat>, b: seq<nat>, m: nat)
    ensures Below(a + b, m) == Below(a, m) + Below(b, m)
  {
    if |a| == 0 {
      assert a + b == b;
    } else {
      assert (a + b)[0] == a[0] && (a + b)[1..] == a[1..] + b;
      BelowBoth(a[1..], b, m);
    }
  }

  lemma {:induction false} BelowElements(ns: seq<nat>, m: nat, n: nat)
    ensures n in Below(ns, m) <==> n in ns && n < m
  {
    if |ns| > 0 {
      BelowElements(ns[1..], m, n);
      assert ns == [ns[0]] + ns[1..];
    }
  }

  /** The older type has exactly the versions below m. */
  lemma {:induction false} CollectBefore(t: Ty, m: nat)
    requires WellFormed(t) && Placed(t, m)
    ensures Collect(Before(t, m)) == Below(Collect(t), m)
    decreases t, 0
  {
    hide BeforeFields, CollectAll, Below, WellFormed;
    NoneBelow(m);
    assert Typed(t, Default(t));
    TypedParts(t, Default(t));
    match t
    case Fixed(_) =>
    case Var(_) =>
    case Array(_, e) => CollectBefore(e, m);
    case Container(_, e) => CollectBefore(e, m);
    case Optional(e, _) => CollectBefore(e, m);
    case Expected(a, e) => CollectBefore(a, m); CollectBefore(e, m); BelowBoth(Collect(a), Collect(e), m);
    case Variant(alts) => CollectBeforeAlts(alts, m);
    case Struct(_, fs) => CollectBeforeFields(fs, m);
    case Compatible(n, _) => OneBelow(n, m);
  }

  lemma {:induction false} NoneBelow(m: nat)
    ensures Below([], m) == []
  {
  }

  lemma {:induction false} OneBelow(n: nat, m: nat)
    ensures Below([n], m) == if n < m then [n] else []
  {
    assert [n][1..] == [];
    NoneBelow(m);
  }

  lemma {:induction false} CollectBeforeAlts(ts: seq<Ty>, m: nat)
    requires AllWellFormed(ts) && AllPlaced(ts, m)
    ensures CollectAll(BeforeAlts(ts, m)) == Below(CollectAll(ts), m)
    decreases ts, 1
  {
    hide Before, Below, WellFormed, Placed, Collect;
    NoneBelow(m);
    if |ts| > 0 {
      CollectBefore(ts[0], m);
      CollectBeforeAlts(ts[1..], m);
      BelowBoth(Collect(ts[0]), CollectAll(ts[1..]), m);
      assert BeforeAlts(ts, m)[1..] == BeforeAlts(ts[1..], m);
    }
  }

  lemma {:induction false} CollectBeforeFields(ts: seq<Ty>, m: nat)
    requires AllWellFormed(ts) && FieldsPlaced(ts, m)
    ensures CollectAll(BeforeFields(ts, m)) == Below(CollectAll(ts), m)
    decreases ts, 1
  {
    hide Before, Below, WellFormed, Placed;
    NoneBelow(m);
    if |ts| > 0 {
      CollectBeforeFields(ts[1..], m);
      BelowBoth(Collect(ts[0]), CollectAll(ts[1..]), m);
      if IsNew(ts[0], m) {
        OneBelow(ts[0].version, m);
        assert BeforeFields(ts, m) == BeforeFields(ts[1..], m);
      } else {
        CollectBefore(ts[0], m);
        assert BeforeFields(ts, m)[0] == Before(ts[0], m) && BeforeFields(ts, m)[1..] == BeforeFields(ts[1..], m);
      }
    }
  }

  lemma {:induction false} HasVersionBefore(t: Ty, m: nat, n: nat)
    requires WellFormed(t) && Placed(t, m)
    ensures HasVersion(Before(t, m), n) <==> HasVersion(t, n) && n < m
  {
    hide Collect, Before, WellFormed, HasVersion, Placed;
    CollectBefore(t, m);
    CollectFindsVersions(t, n);
    CollectFindsVersions(Before(t, m), n);
    BelowElements(Collect(t), m, n);
  }

  // ---- the same bytes --------------------------------------------------------------------------------

  lemma {:induction false} ExistsVar(ts: seq<Ty>)
    requires |ts| > 0
    ensures Has64(ts) <==> (ts[0].Var? && ts[0].kind.Wide()) || Has64(ts[1..])
    ensures HasSigned(ts) <==> (ts[0].Var? && ts[0].kind.Signed()) || HasSigned(ts[1..])
    ensures HasUnsigned(ts) <==> (ts[0].Var? && !ts[0].kind.Signed()) || HasUnsigned(ts[1..])
  {
    assert forall i | 0 <= i < |ts[1..]| :: ts[1..][i] == ts[i + 1];
    assert forall i | 1 <= i < |ts| :: ts[i] == ts[1..][i - 1];
  }

  /** Everything the fast-varint block is made of. */
  ghost predicate SameBlock(ts: seq<Ty>, vs: seq<Val>, us: seq<Ty>, xs: seq<Val>)
    requires HasTypes(ts, vs) && HasTypes(us, xs)
  {
    && VarCount(ts) == VarCount(us) && NonZero(ts, vs) == NonZero(us, xs)
    && (Has64(ts) <==> Has64(us)) && (HasSigned(ts) <==> HasSigned(us)) && (HasUnsigned(ts) <==> HasUnsigned(us))
    && UnsignedMax(ts, vs) == UnsignedMax(us, xs) && SignedMax(ts, vs) == SignedMax(us, xs)
    && forall code | 0 <= code <= 3 :: EncodeWords(ts, vs, code) == EncodeWords(us, xs, code)
  }

  /** A field that is no varint does not reach the block. */
  lemma {:induction false} OtherField(ts: seq<Ty>, vs: seq<Val>)
    requires HasTypes(ts, vs) && |ts| > 0 && !ts[0].Var?
    ensures HasTypes(ts[1..], vs[1..]) && SameBlock(ts, vs, ts[1..], vs[1..])
  {
    hide LE, HasType;
    ExistsVar(ts);
  }

  /** The same varint in front. */
  lemma {:induction false} SameFirst(ts: seq<Ty>, vs: seq<Val>, us: seq<Ty>, xs: seq<Val>)
    requires HasTypes(ts, vs) && HasTypes(us, xs) && |ts| > 0 && |us| > 0
    requires ts[0].Var? && us[0] == ts[0] && xs[0] == vs[0]
    requires HasTypes(ts[1..], vs[1..]) && HasTypes(us[1..], xs[1..]) && SameBlock(ts[1..], vs[1..], us[1..], xs[1..])
    ensures SameBlock(ts, vs, us, xs)
  {
    hide LE;
    assert HasType(ts[0], vs[0]);
    ExistsVar(ts);
    ExistsVar(us);
    forall code | 0 <= code <= 3 ensures EncodeWords(ts, vs, code) == EncodeWords(us, xs, code) {
      assert FirstWord(ts, vs, code) == FirstWord(us, xs, code);
    }
  }

  lemma {:induction false} SameBlockChain(ts: seq<Ty>, vs: seq<Val>, us: seq<Ty>, xs: seq<Val>, ws: seq<Ty>, ys: seq<Val>)
    requires HasTypes(ts, vs) && HasTypes(us, xs) && HasTypes(ws, ys)
    requires SameBlock(ts, vs, us, xs) && SameBlock(us, xs, ws, ys)
    ensures SameBlock(ts, vs, ws, ys)
  {
    hide HasType, VarCount, NonZero, UnsignedMax, SignedMax, EncodeWords, Has64, HasSigned, HasUnsigned;
  }

  lemma {:induction false} SameBlockBack(ts: seq<Ty>, vs: seq<Val>, us: seq<Ty>, xs: seq<Val>)
    requires HasTypes(ts, vs) && HasTypes(us, xs) && SameBlock(ts, vs, us, xs)
    ensures SameBlock(us, xs, ts, vs)
  {
    hide HasType, VarCount, NonZero, UnsignedMax, SignedMax, EncodeWords, Has64, HasSigned, HasUnsigned;
  }

  lemma {:induction false} BlockBefore(ts: seq<Ty>, vs: seq<Val>, m: nat)
    requires AllWellFormed(ts) && HasTypes(ts, vs) && FieldsPlaced(ts, m)
    ensures HasTypes(BeforeFields(ts, m), ProjectFields(ts, vs, m))
    ensures SameBlock(ts, vs, BeforeFields(ts, m), ProjectFields(ts, vs, m))
    decreases |ts|
  {
    hide HasType, WellFormed, Before, Project, Placed, SameBlock;
    ProjectFieldsTyped(ts, vs, m);
    var us, xs := BeforeFields(ts, m), ProjectFields(ts, vs, m);
    if |ts| == 0 {
      NoBlock(ts, vs, us, xs);
    } else {
      BlockBefore(ts[1..], vs[1..], m);
      if IsNew(ts[0], m) {
        OtherField(ts, vs);
        assert us == BeforeFields(ts[1..], m) && xs == ProjectFields(ts[1..], vs[1..], m);
        SameBlockChain(ts, vs, ts[1..], vs[1..], us, xs);
      } else {
        BeforeSound(ts[0], m);
        assert us[0] == Before(ts[0], m) && us[1..] == BeforeFields(ts[1..], m);
        assert xs[0] == Project(ts[0], vs[0], m) && xs[1..] == ProjectFields(ts[1..], vs[1..], m);
        if ts[0].Var? {
          VarBefore(ts[0], vs[0], m);
          SameFirst(ts, vs, us, xs);
        } else {
          OtherField(ts, vs);
          OtherField(us, xs);
          SameBlockBack(us, xs, us[1..], xs[1..]);
          SameBlockChain(ts, vs, ts[1..], vs[1..], us[1..], xs[1..]);
          SameBlockChain(ts, vs, us[1..], xs[1..], us, xs);
        }
      }
    }
  }

  lemma {:induction false} NoBlock(ts: seq<Ty>, vs: seq<Val>, us: seq<Ty>, xs: seq<Val>)
    requires HasTypes(ts, vs) && HasTypes(us, xs) && |ts| == 0 && |us| == 0
    ensures SameBlock(ts, vs, us, xs)
  {
  }

  lemma {:induction false} VarBefore(t: Ty, v: Val, m: nat)
    requires t.Var? && Placed(t, m) && HasType(t, v)
    ensures Before(t, m) == t && Project(t, v, m) == v
  {
  }

  lemma {:induction false} BlockBytes(ts: seq<Ty>, vs: seq<Val>, us: seq<Ty>, xs: seq<Val>)
    requires HasTypes(ts, vs) && HasTypes(us, xs) && SameBlock(ts, vs, us, xs)
    ensures EncodeBlock(ts, vs) == EncodeBlock(us, xs)
  {
    hide HasType, VarCount, NonZero, UnsignedMax, SignedMax, EncodeWords, Has64, HasSigned, HasUnsigned, Bitmap;
  }

  /** A pass that the older type has too. */
  predicate OldPass(pass: Pass, m: nat) {
    pass.Plain? || pass.n < m
  }

  /** The passes that both types have write the same bytes. */
  lemma {:induction false} BytesBefore(t: Ty, v: Val, m: nat, pass: Pass, w: nat)
    requires Typed(t, v) && Placed(t, m) && OldPass(pass, m)
    ensures Typed(Before(t, m), Project(t, v, m))
    ensures Encode(t, v, pass, w) == Encode(Before(t, m), Project(t, v, m), pass, w)
    decreases t, 2
  {
    hide Before, Project, Encode, HasType, WellFormed, Placed, HasVersion;
    BeforeSound(t, m);
    ProjectTyped(t, v, m);
    if pass.Version? { HasVersionBefore(t, m, pass.n); }
    if pass.Version? && !HasVersion(t, pass.n) {
      NoBytes(t, v, pass, w);
      NoBytes(Before(t, m), Project(t, v, m), pass, w);
    } else {
      BytesBeforeCase(t, v, m, pass, w);
    }
  }

  lemma {:induction false} NoBytes(t: Ty, v: Val, pass: Pass, w: nat)
    requires Typed(t, v) && pass.Version? && !HasVersion(t, pass.n)
    ensures Encode(t, v, pass, w) == []
  {
    hide EncodeElems, EncodeFields;
  }

  lemma {:induction false} BytesBeforeCase(t: Ty, v: Val, m: nat, pass: Pass, w: nat)
    requires Typed(t, v) && Placed(t, m) && OldPass(pass, m) && (pass.Version? ==> HasVersion(t, pass.n))
    requires Typed(Before(t, m), Project(t, v, m)) && (pass.Version? ==> HasVersion(Before(t, m), pass.n))
    ensures Encode(t, v, pass, w) == Encode(Before(t, m), Project(t, v, m), pass, w)
    decreases t, 1
  {
    hide HasVersion, EncodeElems, EncodeFields, EncodeBlock, BeforeFields, ProjectFields, ProjectElems, Collect, LE, EncodeVar,
         Leb128.Leb;
    TypedParts(t, v);
    match t
    case Fixed(_) =>
    case Var(_) =>
    case Array(_, e) => ElemBytesBefore(e, v.items, m, pass, w);
    case Container(_, e) => ElemBytesBefore(e, v.items, m, pass, w);
    case Optional(e, _) => if v.Some? { BytesBefore(e, v.value, m, pass, w); }
    case Expected(a, e) => BytesBefore(if v.index == 1 then a else e, v.value, m, pass, w);
    case Variant(alts) => BytesBefore(alts[v.index], v.value, m, pass, w);
    case Struct(fast, fs) =>
      FieldBytesBefore(pass.Plain? && fast, fs, v.items, m, pass, w);
      BlockBefore(fs, v.items, m);
      BlockBytes(fs, v.items, BeforeFields(fs, m), ProjectFields(fs, v.items, m));
    case Compatible(_, _) =>
  }

  lemma {:induction false} ElemBytesBefore(t: Ty, vs: seq<Val>, m: nat, pass: Pass, w: nat)
    requires WellFormed(t) && AllHaveType(t, vs) && Placed(t, m) && OldPass(pass, m)
    ensures WellFormed(Before(t, m)) && AllHaveType(Before(t, m), ProjectElems(t, vs, m))
    ensures EncodeElems(t, vs, pass, w) == EncodeElems(Before(t, m), ProjectElems(t, vs, m), pass, w)
    decreases t, 3, |vs|
  {
    hide Before, Project, Encode, HasType, WellFormed, Placed;
    BeforeSound(t, m);
    ProjectElemsTyped(t, vs, m);
    if |vs| > 0 {
      BytesBefore(t, vs[0], m, pass, w);
      ElemBytesBefore(t, vs[1..], m, pass, w);
      assert ProjectElems(t, vs, m)[1..] == ProjectElems(t, vs[1..], m);
    }
  }

  lemma {:induction false} FieldBytesBefore(skip: bool, ts: seq<Ty>, vs: seq<Val>, m: nat, pass: Pass, w: nat)
    requires AllWellFormed(ts) && HasTypes(ts, vs) && FieldsPlaced(ts, m) && OldPass(pass, m)
    ensures AllWellFormed(BeforeFields(ts, m)) && HasTypes(BeforeFields(ts, m), ProjectFields(ts, vs, m))
    ensures EncodeFields(skip, ts, vs, pass, w) == EncodeFields(skip, BeforeFields(ts, m), ProjectFields(ts, vs, m), pass, w)
    decreases ts, 3
  {
    hide Before, Project, Encode, HasType, WellFormed, Placed;
    BeforeFieldsSound(ts, m);
    ProjectFieldsTyped(ts, vs, m);
    var us, xs := BeforeFields(ts, m), ProjectFields(ts, vs, m);
    if |ts| > 0 {
      FieldBytesBefore(skip, ts[1..], vs[1..], m, pass, w);
      if IsNew(ts[0], m) {
        NewFieldBytes(ts[0], vs[0], m, pass, w);
        assert us == BeforeFields(ts[1..], m) && xs == ProjectFields(ts[1..], vs[1..], m);
      } else {
        BeforeSound(ts[0], m);
        BytesBefore(ts[0], vs[0], m, pass, w);
        assert us[0] == Before(ts[0], m) && us[1..] == BeforeFields(ts[1..], m);
        assert xs[0] == Project(ts[0], vs[0], m) && xs[1..] == ProjectFields(ts[1..], vs[1..], m);
      }
    }
  }

  lemma {:induction false} NewFieldBytes(t: Ty, v: Val, m: nat, pass: Pass, w: nat)
    requires Typed(t, v) && IsNew(t, m) && OldPass(pass, m)
    ensures Encode(t, v, pass, w) == []
  {
  }

  // ---- lengths ------------------------------------------------------------------------------------------

  lemma {:induction false} LengthBefore(t: Ty, v: Val, m: nat)
    requires Typed(t, v) && Placed(t, m)
    ensures Typed(Before(t, m), Project(t, v, m)) && MaxLength(Before(t, m), Project(t, v, m)) <= MaxLength(t, v)
    decreases t, 2
  {
    hide MaxLengthElems, MaxLengthFields, BeforeFields, ProjectFields, ProjectElems, Collect, HasType, WellFormed;
    BeforeSound(t, m);
    ProjectTyped(t, v, m);
    TypedParts(t, v);
    TypedParts(Before(t, m), Project(t, v, m));
    HasParts(t, v);
    HasParts(Before(t, m), Project(t, v, m));
    match t
    case Fixed(_) =>
    case Var(_) =>
    case Array(_, e) => ElemLengthBefore(e, v.items, m);
    case Container(_, e) => ElemLengthBefore(e, v.items, m);
    case Optional(e, _) => if v.Some? { LengthBefore(e, v.value, m); }
    case Expected(a, e) => LengthBefore(if v.index == 1 then a else e, v.value, m);
    case Variant(alts) => LengthBefore(alts[v.index], v.value, m);
    case Struct(_, fs) => FieldLengthBefore(fs, v.items, m);
    case Compatible(_, _) =>
  }

  lemma {:induction false} HasParts(t: Ty, v: Val)
    requires HasType(t, v)
    ensures match t
            case Fixed(_) => v.Blob?
            case Var(_) => v.Num?
            case Array(_, e) => v.Items? && AllHaveType(e, v.items)
            case Container(_, e) => v.Items? && AllHaveType(e, v.items)
            case Optional(e, _) => v.Null? || (v.Some? && HasType(e, v.value))
            case Expected(a, e) => v.Alt? && v.index < 2 && HasType(if v.index == 1 then a else e, v.value)
            case Variant(alts) => v.Alt? && v.index < |alts| && HasType(alts[v.index], v.value)
            case Struct(_, fs) => v.Items? && HasTypes(fs, v.items)
            case Compatible(_, e) => v.Null? || (v.Some? && HasType(e, v.value))
  {
  }

  lemma {:induction false} ElemLengthBefore(t: Ty, vs: seq<Val>, m: nat)
    requires WellFormed(t) && AllHaveType(t, vs) && Placed(t, m)
    ensures WellFormed(Before(t, m)) && AllHaveType(Before(t, m), ProjectElems(t, vs, m))
    ensures MaxLengthElems(Before(t, m), ProjectElems(t, vs, m)) <= MaxLengthElems(t, vs)
    decreases t, 3, |vs|
  {
    hide Before, Project, MaxLength, HasType, WellFormed, Placed;
    BeforeSound(t, m);
    ProjectElemsTyped(t, vs, m);
    if |vs| > 0 {
      LengthBefore(t, vs[0], m);
      ElemLengthBefore(t, vs[1..], m);
      assert ProjectElems(t, vs, m)[1..] == ProjectElems(t, vs[1..], m);
    }
  }

  lemma {:induction false} FieldLengthBefore(ts: seq<Ty>, vs: seq<Val>, m: nat)
    requires AllWellFormed(ts) && HasTypes(ts, vs) && FieldsPlaced(ts, m)
    ensures AllWellFormed(BeforeFields(ts, m)) && HasTypes(BeforeFields(ts, m), ProjectFields(ts, vs, m))
    ensures MaxLengthFields(BeforeFields(ts, m), ProjectFields(ts, vs, m)) <= MaxLengthFields(ts, vs)
    decreases ts, 3
  {
    hide Before, Project, MaxLength, HasType, WellFormed, Placed;
    BeforeFieldsSound(ts, m);
    ProjectFieldsTyped(ts, vs, m);
    var us, xs := BeforeFields(ts, m), ProjectFields(ts, vs, m);
    if |ts| > 0 {
      FieldLengthBefore(ts[1..], vs[1..], m);
      if IsNew(ts[0], m) {
        assert us == BeforeFields(ts[1..], m) && xs == ProjectFields(ts[1..], vs[1..], m);
      } else {
        LengthBefore(ts[0], vs[0], m);
        assert us[0] == Before(ts[0], m) && us[1..] == BeforeFields(ts[1..], m);
        assert xs[0] == Project(ts[0], vs[0], m) && xs[1..] == ProjectFields(ts[1..], vs[1..], m);
      }
    }
  }

  // ---- the version passes of both types ---------------------------------------------------------------

  function AtLeast(ns: seq<nat>, m: nat): seq<nat> {
    if |ns| == 0 then [] else (if ns[0] >= m then [ns[0]] else []) + AtLeast(ns[1..], m)
  }

  lemma {:induction false} AtLeastElements(ns: seq<nat>, m: nat, n: nat)
    ensures n in AtLeast(ns, m) <==> n in ns && n >= m
  {
    if |ns| > 0 {
      AtLeastElements(ns[1..], m, n);
      assert ns == [ns[0]] + ns[1..];
    }
  }

  lemma {:induction false} NoneBelowM(ns: seq<nat>, m: nat)
    requires forall i | 0 <= i < |ns| :: ns[i] >= m
    ensures Below(ns, m) == [] && AtLeast(ns, m) == ns
  {
    if |ns| > 0 {
      forall i | 0 <= i < |ns[1..]| ensures ns[1..][i] >= m { assert ns[1..][i] == ns[i + 1]; }
      NoneBelowM(ns[1..], m);
    }
  }

  lemma {:induction false} TailAbove(ns: seq<nat>, n: nat)
    requires Increasing(ns) && |ns| > 0 && n in ns[1..]
    ensures ns[0] < n
  {
    var k :| 0 <= k < |ns[1..]| && ns[1..][k] == n;
    assert ns[k + 1] == n;
  }

  lemma {:induction false} IncreasingCons(x: nat, low: seq<nat>)
    requires Increasing(low) && forall j | 0 <= j < |low| :: x < low[j]
    ensures Increasing([x] + low)
  {
  }

  lemma {:induction false} IncreasingTail(ns: seq<nat>)
    requires Increasing(ns) && |ns| > 0
    ensures Increasing(ns[1..])
  {
  }

  /** Increasing versions: the old ones first. */
  lemma {:induction false} IncreasingSplits(ns: seq<nat>, m: nat)
    requires Increasing(ns)
    ensures ns == Below(ns, m) + AtLeast(ns, m) && Increasing(Below(ns, m))
  {
    hide Increasing;
    if |ns| == 0 {
      IncreasingNothing();
    } else if ns[0] >= m {
      forall i | 0 <= i < |ns| ensures ns[i] >= m {
        if i > 0 {
          assert ns[1..][i - 1] == ns[i];
          TailAbove(ns, ns[i]);
        }
      }
      NoneBelowM(ns, m);
      IncreasingNothing();
    } else {
      IncreasingTail(ns);
      IncreasingSplits(ns[1..], m);
      var low, high := Below(ns[1..], m), AtLeast(ns[1..], m);
      forall j | 0 <= j < |low| ensures ns[0] < low[j] {
        BelowElements(ns[1..], m, low[j]);
        TailAbove(ns, low[j]);
      }
      IncreasingCons(ns[0], low);
      assert ns == [ns[0]] + ns[1..];
      assert [ns[0]] + (low + high) == ([ns[0]] + low) + high;
    }
  }

  lemma {:induction false} IncreasingNothing()
    ensures Increasing([])
  {
  }

  /** The passes of the newer type are those of the older one and then the new ones. */
  lemma {:induction false} VersionsBefore(t: Ty, m: nat)
    requires WellFormed(t) && Placed(t, m)
    ensures VersionsOf(t) == VersionsOf(Before(t, m)) + AtLeast(VersionsOf(t), m)
  {
    hide Collect, SortedUnique, Before, Below, AtLeast, WellFormed, Placed;
    var ns := VersionsOf(t);
    var us := VersionsOf(Before(t, m));
    SortedUniqueIncreasing(Collect(t));
    SortedUniqueIncreasing(Collect(Before(t, m)));
    IncreasingSplits(ns, m);
    CollectBefore(t, m);
    forall n ensures n in Below(ns, m) <==> n in us {
      BelowElements(ns, m, n);
      BelowElements(Collect(t), m, n);
    }
    IncreasingUnique(Below(ns, m), us);
  }

  // ---- the value as the newer type has it ----------------------------------------------------------

  lemma {:induction false} BeforeHead(ts: seq<Ty>, m: nat)
    requires FieldsPlaced(ts, m) && |ts| > 0
    ensures IsNew(ts[0], m) ==> BeforeFields(ts, m) == BeforeFields(ts[1..], m)
    ensures !IsNew(ts[0], m) ==>
              |BeforeFields(ts, m)| > 0 && BeforeFields(ts, m)[0] == Before(ts[0], m)
              && BeforeFields(ts, m)[1..] == BeforeFields(ts[1..], m)
  {
    hide Before, Placed;
  }

  /** A value of the older type with every new field null. */
  function Inject(t: Ty, u: Val, m: nat): Val
    requires Placed(t, m) && HasType(Before(t, m), u)
    decreases t, 0
  {
    match t
    case Fixed(_) => u
    case Var(_) => u
    case Array(_, e) => Items(InjectElems(e, u.items, m))
    case Container(_, e) => Items(InjectElems(e, u.items, m))
    case Optional(e, _) => if u.Null? then Null else Some(Inject(e, u.value, m))
    case Expected(a, e) => Alt(u.index, Inject(if u.index == 1 then a else e, u.value, m))
    case Variant(alts) => Alt(u.index, Inject(alts[u.index], u.value, m))
    case Struct(_, fs) => Items(InjectFields(fs, u.items, m))
    case Compatible(_, _) => u
  }

  function InjectElems(t: Ty, us: seq<Val>, m: nat): (r: seq<Val>)
    requires Placed(t, m) && AllHaveType(Before(t, m), us)
    ensures |r| == |us|
    decreases t, 1, |us|
  {
    if |us| == 0 then [] else [Inject(t, us[0], m)] + InjectElems(t, us[1..], m)
  }

  function InjectFields(ts: seq<Ty>, us: seq<Val>, m: nat): (r: seq<Val>)
    requires FieldsPlaced(ts, m) && HasTypes(BeforeFields(ts, m), us)
    ensures |r| == |ts|
    decreases ts, 1
  {
    if |ts| == 0 then []
    else
      BeforeHead(ts, m);
      if IsNew(ts[0], m) then [Null] + InjectFields(ts[1..], us, m)
      else
        TypesHead(BeforeFields(ts, m), us);
        [Inject(ts[0], us[0], m)] + InjectFields(ts[1..], us[1..], m)
  }

  lemma {:induction false} TypesHead(ts: seq<Ty>, us: seq<Val>)
    requires HasTypes(ts, us) && |ts| > 0
    ensures |us| > 0 && HasType(ts[0], us[0]) && HasTypes(ts[1..], us[1..])
  {
    hide HasType;
  }

  /** Everything about the injected value: it is one, projecting it gives the old value, no
      container has grown, and its new fields are those a reader does not know. */
  ghost predicate Injected(t: Ty, u: Val, m: nat, v: Val, s: set<nat>)
    requires WellFormed(t) && Placed(t, m) && Typed(Before(t, m), u)
  {
    && HasType(t, v) && Project(t, v, m) == u && MaxLength(t, v) <= MaxLength(Before(t, m), u) && Known(t, v, s) == v
  }

  lemma {:induction false} InjectSound(t: Ty, u: Val, m: nat, s: set<nat>)
    requires WellFormed(t) && Placed(t, m) && HasType(Before(t, m), u)
    requires forall n: nat :: HasVersion(t, n) && n < m ==> n in s
    ensures WellFormed(Before(t, m)) && Injected(t, u, m, Inject(t, u, m), s)
    decreases t, 2
  {
    hide MaxLengthElems, MaxLengthFields, BeforeFields, ProjectFields, ProjectElems, InjectElems, InjectFields, KnownElems,
         KnownFields, Collect, WellFormed;
    BeforeSound(t, m);
    TypedParts(t, Default(t));
    TypedParts(Before(t, m), u);
    match t
    case Fixed(_) =>
    case Var(_) =>
    case Array(_, e) => InjectElemsSound(e, u.items, m, s);
    case Container(_, e) => InjectElemsSound(e, u.items, m, s);
    case Optional(e, _) => if u.Some? { InjectSound(e, u.value, m, s); }
    case Expected(a, e) => InjectSound(if u.index == 1 then a else e, u.value, m, s);
    case Variant(alts) =>
      forall n: nat | HasVersion(alts[u.index], n) && n < m ensures n in s { assert HasVersion(t, n); }
      InjectSound(alts[u.index], u.value, m, s);
    case Struct(_, fs) =>
      forall i, n: nat | 0 <= i < |fs| && HasVersion(fs[i], n) && n < m ensures n in s { assert HasVersion(t, n); }
      InjectFieldsSound(fs, u.items, m, s);
      assert FieldsInjected(fs, u.items, m, InjectFields(fs, u.items, m), s);
    case Compatible(n, _) => assert HasVersion(t, n);
  }

  lemma {:induction false} InjectElemsSound(t: Ty, us: seq<Val>, m: nat, s: set<nat>)
    requires WellFormed(t) && Placed(t, m) && AllHaveType(Before(t, m), us)
    requires forall n: nat :: HasVersion(t, n) && n < m ==> n in s
    ensures WellFormed(Before(t, m))
    ensures var vs := InjectElems(t, us, m);
            && AllHaveType(t, vs) && ProjectElems(t, vs, m) == us && KnownElems(t, vs, s) == vs
            && MaxLengthElems(t, vs) <= MaxLengthElems(Before(t, m), us)
    decreases t, 3, |us|
  {
    hide Before, Project, Inject, Known, MaxLength, HasType, WellFormed, Placed, HasVersion;
    BeforeSound(t, m);
    if |us| > 0 {
      InjectSound(t, us[0], m, s);
      InjectElemsSound(t, us[1..], m, s);
      assert us == [us[0]] + us[1..];
      assert InjectElems(t, us, m)[1..] == InjectElems(t, us[1..], m);
    }
  }

  ghost predicate FieldsInjected(ts: seq<Ty>, us: seq<Val>, m: nat, vs: seq<Val>, s: set<nat>)
    requires AllWellFormed(ts) && FieldsPlaced(ts, m)
    requires AllWellFormed(BeforeFields(ts, m)) && HasTypes(BeforeFields(ts, m), us)
  {
    && HasTypes(ts, vs) && ProjectFields(ts, vs, m) == us && KnownFields(ts, vs, s) == vs
    && MaxLengthFields(ts, vs) <= MaxLengthFields(BeforeFields(ts, m), us)
  }

  lemma {:induction false} InjectFieldsSound(ts: seq<Ty>, us: seq<Val>, m: nat, s: set<nat>)
    requires AllWellFormed(ts) && FieldsPlaced(ts, m) && HasTypes(BeforeFields(ts, m), us)
    requires forall i, n: nat :: 0 <= i < |ts| && HasVersion(ts[i], n) && n < m ==> n in s
    ensures AllWellFormed(BeforeFields(ts, m))
    ensures FieldsInjected(ts, us, m, InjectFields(ts, us, m), s)
    decreases ts, 3
  {
    hide Before, Project, Inject, MaxLength, WellFormed, Placed, HasVersion, FieldsInjected, HasType, InjectFields, Injected,
         BeforeFields;
    BeforeFieldsSound(ts, m);
    if |ts| == 0 {
      NoFieldsInjected(ts, us, m, s);
    } else {
      BeforeHead(ts, m);
      if IsNew(ts[0], m) {
        InjectFieldsSound(ts[1..], us, m, s);
        NewFieldInjected(ts, us, m, s);
      } else {
        TypesHead(BeforeFields(ts, m), us);
        InjectSound(ts[0], us[0], m, s);
        InjectFieldsSound(ts[1..], us[1..], m, s);
        OldFieldInjected(ts, us, m, s);
      }
    }
  }

  lemma {:induction false} NoFieldsInjected(ts: seq<Ty>, us: seq<Val>, m: nat, s: set<nat>)
    requires |ts| == 0 && HasTypes(BeforeFields(ts, m), us)
    ensures FieldsInjected(ts, us, m, InjectFields(ts, us, m), s)
  {
  }

  lemma {:induction false} NewFieldInjected(ts: seq<Ty>, us: seq<Val>, m: nat, s: set<nat>)
    requires AllWellFormed(ts) && FieldsPlaced(ts, m) && |ts| > 0 && IsNew(ts[0], m)
    requires BeforeFields(ts, m) == BeforeFields(ts[1..], m)
    requires AllWellFormed(BeforeFields(ts, m)) && HasTypes(BeforeFields(ts, m), us)
    requires FieldsInjected(ts[1..], us, m, InjectFields(ts[1..], us, m), s)
    ensures FieldsInjected(ts, us, m, InjectFields(ts, us, m), s)
  {
    hide Before, Project, Inject, MaxLength, WellFormed, Placed, BeforeFields;
    var vs := InjectFields(ts, us, m);
    assert vs[0] == Null && vs[1..] == InjectFields(ts[1..], us, m);
    NewFieldLength(ts[0]);
    assert HasTypes(ts, vs) by { TypesCons(ts, vs); }
    assert Known(ts[0], Null, s) == Null;
  }

  lemma {:induction false} OldFieldInjected(ts: seq<Ty>, us: seq<Val>, m: nat, s: set<nat>)
    requires AllWellFormed(ts) && FieldsPlaced(ts, m) && |ts| > 0 && !IsNew(ts[0], m) && |us| > 0
    requires |BeforeFields(ts, m)| > 0 && BeforeFields(ts, m)[0] == Before(ts[0], m)
    requires BeforeFields(ts, m)[1..] == BeforeFields(ts[1..], m)
    requires AllWellFormed(BeforeFields(ts, m)) && HasTypes(BeforeFields(ts, m), us)
    requires AllWellFormed(BeforeFields(ts[1..], m)) && HasTypes(BeforeFields(ts[1..], m), us[1..])
    requires WellFormed(Before(ts[0], m)) && HasType(Before(ts[0], m), us[0])
    requires Injected(ts[0], us[0], m, Inject(ts[0], us[0], m), s)
    requires FieldsInjected(ts[1..], us[1..], m, InjectFields(ts[1..], us[1..], m), s)
    ensures FieldsInjected(ts, us, m, InjectFields(ts, us, m), s)
  {
    hide Before, Project, Inject, MaxLength, WellFormed, Placed, BeforeFields, Known, HasType;
    var vs := InjectFields(ts, us, m);
    assert vs[0] == Inject(ts[0], us[0], m) && vs[1..] == InjectFields(ts[1..], us[1..], m);
    assert HasTypes(ts, vs) by { TypesCons(ts, vs); }
    assert us == [us[0]] + us[1..];
  }

  lemma {:induction false} TypesCons(ts: seq<Ty>, vs: seq<Val>)
    requires |ts| > 0 && |vs| == |ts| && HasType(ts[0], vs[0]) && HasTypes(ts[1..], vs[1..])
    ensures HasTypes(ts, vs)
  {
    hide HasType;
    forall i | 0 <= i < |ts| ensures HasType(ts[i], vs[i]) {
      if i > 0 { assert HasType(ts[1..][i - 1], vs[1..][i - 1]); }
    }
  }

  lemma {:induction false} NewFieldLength(t: Ty)
    requires WellFormed(t) && t.Compatible?
    ensures HasType(t, Null) && MaxLength(t, Null) == 0
  {
  }

  // ---- passes that find nothing ------------------------------------------------------------------------

  /** The item and the cursor are as before, and an error is the one that is no error. */
  predicate Silent(o: Outcome, item: Val, pos: nat) {
    o.item == item && o.pos == pos && (o.code == Ok || (o.missing && o.code != BadAccess))
  }

  predicate AllSilent(o: Outcomes, items: seq<Val>, pos: nat) {
    o.items == items && o.pos == pos && (o.code == Ok || (o.missing && o.code != BadAccess))
  }

  /** Behind the stored length a version pass changes nothing. */
  lemma {:induction false} NothingLeft(t: Ty, item: Val, n: nat, c: Context, pos: nat)
    requires Typed(t, item) && c.dataLen <= pos <= |c.data|
    ensures Silent(Decode(t, item, Version(n), c, pos), item, pos)
    decreases t, 2
  {
    hide DecodeElems, DecodeFields, DecodeNew, DecodeContainer, DecodeVar, ReadBlock, Collect, HasType, WellFormed, Default;
    TypedParts(t, item);
    HasParts(t, item);
    match t
    case Fixed(_) =>
    case Var(_) =>
    case Array(_, e) => NothingLeftElems(e, item.items, n, c, pos);
    case Container(_, e) => NothingLeftElems(e, item.items, n, c, pos);
    case Optional(e, _) => if item.Some? { NothingLeft(e, item.value, n, c, pos); }
    case Expected(a, e) => NothingLeft(if item.index == 1 then a else e, item.value, n, c, pos);
    case Variant(alts) => NothingLeft(alts[item.index], item.value, n, c, pos);
    case Struct(_, fs) => NothingLeftFields(fs, item.items, n, c, pos);
    case Compatible(_, _) =>
  }

  lemma {:induction false} NothingLeftElems(t: Ty, items: seq<Val>, n: nat, c: Context, pos: nat)
    requires WellFormed(t) && AllHaveType(t, items) && c.dataLen <= pos <= |c.data|
    ensures AllSilent(DecodeElems(t, items, Version(n), c, pos), items, pos)
    decreases t, 3, |items|
  {
    hide Decode, HasType, WellFormed;
    if |items| > 0 {
      NothingLeft(t, items[0], n, c, pos);
      NothingLeftElems(t, items[1..], n, c, pos);
      assert items == [items[0]] + items[1..];
    }
  }

  lemma {:induction false} NothingLeftFields(ts: seq<Ty>, items: seq<Val>, n: nat, c: Context, pos: nat)
    requires AllWellFormed(ts) && HasTypes(ts, items) && c.dataLen <= pos <= |c.data|
    ensures AllSilent(DecodeFields(false, ts, items, Version(n), c, pos), items, pos)
    decreases ts, 3
  {
    hide Decode, HasType, WellFormed;
    if |ts| > 0 {
      NothingLeft(ts[0], items[0], n, c, pos);
      NothingLeftFields(ts[1..], items[1..], n, c, pos);
      assert items == [items[0]] + items[1..];
    }
  }

  lemma {:induction false} NothingLeftVersions(t: Ty, item: Val, ns: seq<nat>, c: Context, pos: nat)
    requires Typed(t, item) && c.dataLen <= pos <= |c.data|
    ensures Silent(DecodeVersions(t, item, ns, c, pos), item, pos)
    decreases |ns|
  {
    hide Decode, HasType, WellFormed;
    if |ns| > 0 {
      NothingLeft(t, item, ns[0], c, pos);
      NothingLeftVersions(t, item, ns[1..], c, pos);
    }
  }

  /** Some versions, then others. */
  lemma {:induction false} VersionsThen(t: Ty, item: Val, ns: seq<nat>, more: seq<nat>, c: Context, pos: nat)
    requires Typed(t, item) && pos <= |c.data|
    ensures var o := DecodeVersions(t, item, ns, c, pos);
            DecodeVersions(t, item, ns + more, c, pos)
            == if o.code != Ok then o
               else
                 var r := DecodeVersions(t, o.item, more, c, o.pos);
                 Outcome(r.code, r.item, r.pos, o.missing || r.missing)
    decreases |ns|
  {
    hide Decode, HasType, WellFormed;
    if |ns| == 0 {
      assert ns + more == more;
    } else {
      assert (ns + more)[0] == ns[0] && (ns + more)[1..] == ns[1..] + more;
      var h := Decode(t, item, Version(ns[0]), c, pos);
      VersionsThen(t, h.item, ns[1..], more, c, h.pos);
    }
  }

  lemma {:induction false} VersionBytesThen(t: Ty, v: Val, ns: seq<nat>, more: seq<nat>, w: nat)
    requires Typed(t, v)
    ensures EncodeVersions(t, v, ns + more, w) == EncodeVersions(t, v, ns, w) + EncodeVersions(t, v, more, w)
    decreases |ns|
  {
    hide Encode, HasType, WellFormed;
    if |ns| == 0 {
      assert ns + more == more;
    } else {
      assert (ns + more)[0] == ns[0] && (ns + more)[1..] == ns[1..] + more;
      VersionBytesThen(t, v, ns[1..], more, w);
    }
  }

  lemma {:induction false} VersionBytesBefore(t: Ty, v: Val, m: nat, ns: seq<nat>, w: nat)
    requires Typed(t, v) && Placed(t, m) && forall i | 0 <= i < |ns| :: ns[i] < m
    ensures Typed(Before(t, m), Project(t, v, m))
    ensures EncodeVersions(t, v, ns, w) == EncodeVersions(Before(t, m), Project(t, v, m), ns, w)
    decreases |ns|
  {
    hide Encode, HasType, WellFormed, Before, Project, Placed;
    BytesBefore(t, v, m, Plain, w);
    if |ns| > 0 {
      BytesBefore(t, v, m, Version(ns[0]), w);
      VersionBytesBefore(t, v, m, ns[1..], w);
    }
  }

  lemma {:induction false} OldVersionsBelow(t: Ty, m: nat)
    requires WellFormed(t) && Placed(t, m)
    ensures forall i | 0 <= i < |VersionsOf(Before(t, m))| :: VersionsOf(Before(t, m))[i] < m
  {
    hide Collect, SortedUnique, Before, Below, WellFormed, Placed;
    var us := VersionsOf(Before(t, m));
    SortedUniqueIncreasing(Collect(Before(t, m)));
    CollectBefore(t, m);
    forall i | 0 <= i < |us| ensures us[i] < m {
      assert us[i] in us;
      BelowElements(Collect(t), m, us[i]);
    }
  }

  // ---- types without compatible fields --------------------------------------------------------------------

  /** Without compatible fields nothing is older. */
  lemma {:induction false} BeforeSame(t: Ty, m: nat)
    requires WellFormed(t) && Placed(t, m) && Collect(t) == []
    ensures Before(t, m) == t
    decreases t, 2
  {
    hide CollectAll, BeforeFields, WellFormed;
    TypedParts(t, Default(t));
    match t
    case Fixed(_) =>
    case Var(_) =>
    case Array(_, e) => BeforeSame(e, m);
    case Container(_, e) => BeforeSame(e, m);
    case Optional(e, _) => BeforeSame(e, m);
    case Expected(a, e) => BeforeSame(a, m); BeforeSame(e, m);
    case Variant(alts) => BeforeAltsSame(alts, m);
    case Struct(_, fs) => BeforeFieldsSame(fs, m);
    case Compatible(_, _) =>
  }

  lemma {:induction false} BeforeAltsSame(ts: seq<Ty>, m: nat)
    requires AllWellFormed(ts) && AllPlaced(ts, m) && CollectAll(ts) == []
    ensures BeforeAlts(ts, m) == ts
    decreases ts, 3
  {
    hide Before, WellFormed, Placed, Collect;
    if |ts| > 0 {
      BeforeSame(ts[0], m);
      BeforeAltsSame(ts[1..], m);
      assert ts == [ts[0]] + ts[1..];
    }
  }

  lemma {:induction false} BeforeFieldsSame(ts: seq<Ty>, m: nat)
    requires AllWellFormed(ts) && FieldsPlaced(ts, m) && CollectAll(ts) == []
    ensures BeforeFields(ts, m) == ts
    decreases ts, 3
  {
    hide Before, WellFormed, Placed;
    if |ts| > 0 {
      assert Collect(ts[0]) == [] && !IsNew(ts[0], m);
      BeforeSame(ts[0], m);
      BeforeFieldsSame(ts[1..], m);
      assert ts == [ts[0]] + ts[1..];
    }
  }

  /** The older type is legal under the same configuration. */
  lemma {:induction false} BeforeLegal(conf: Conf, t: Ty, m: nat)
    requires Legal(conf, t) && Placed(t, m)
    ensures Legal(conf, Before(t, m))
    ensures HasCompatible(Before(t, m)) ==> HasCompatible(t)
    ensures conf.NoHead? ==> HasContainer(Before(t, m)) == HasContainer(t)
  {
    hide Before, WellFormed, Placed, HasContainer, Collect;
    BeforeSound(t, m);
    CollectBefore(t, m);
    NoneBelow(m);
    if conf.NoHead? { BeforeSame(t, m); }
  }

  // ---- evolution ------------------------------------------------------------------------------------------

  /** The passes of the older type as they stand in the newer type's buffer. */
  lemma {:induction false} OldPassesStand(conf: Conf, t: Ty, v: Val, m: nat, data: bytes, pos: nat)
    requires Legal(conf, t) && HasType(t, v) && Placed(t, m) && At(data, pos, Message.Serialize(conf, t, v))
    ensures Typed(Before(t, m), Project(t, v, m))
    ensures PassesAt(Before(t, m), Project(t, v, m), ContextOf(conf, t, v, data, pos),
                     pos + |EncodeHead(conf, t, RuntimeInfo(conf, t, v))|)
  {
    hide At, Encode, HasType, WellFormed, HasCompatible, EncodeHead, EncodeVersions, RuntimeInfo, VersionsOf, WordWidth,
         Before, Project, Placed, AtLeast;
    var info := RuntimeInfo(conf, t, v);
    var a, u := Before(t, m), Project(t, v, m);
    var w := Width(info);
    BytesBefore(t, v, m, Plain, w);
    PartsAt(conf, t, v, data, pos);
    AnnouncedSizeExact(conf, t, v);
    BeforeLegal(conf, t, m);
    VersionsBefore(t, m);
    OldVersionsBelow(t, m);
    VersionBytesBefore(t, v, m, VersionsOf(a), w);
    VersionBytesThen(t, v, VersionsOf(a), AtLeast(VersionsOf(t), m), w);
    var next := pos + |EncodeHead(conf, t, info)| + |Encode(t, v, Plain, w)|;
    AtConcat(data, next, EncodeVersions(a, u, VersionsOf(a), w), EncodeVersions(t, v, AtLeast(VersionsOf(t), m), w));
  }

  /** What the passes of version m and later write, at the end of the buffer. */
  function NewBytes(conf: Conf, t: Ty, v: Val, m: nat): bytes
    requires Typed(t, v)
  {
    EncodeVersions(t, v, AtLeast(VersionsOf(t), m), Width(RuntimeInfo(conf, t, v)))
  }

  /** A program that knows only the older type reads the newer type's bytes: it gets the older
      part and no error, whatever the newer fields hold, and stops in front of them, exactly if
      that part is recoverable. */
  lemma {:induction false} OldReadsNew(conf: Conf, t: Ty, v: Val, m: nat, data: bytes, pos: nat)
    requires Legal(conf, t) && HasType(t, v) && Placed(t, m) && Addressable(conf, t, v)
    requires At(data, pos, Message.Serialize(conf, t, v))
    ensures Legal(conf, Before(t, m)) && HasType(Before(t, m), Project(t, v, m))
    ensures var r := Deserialize(conf, Before(t, m), Default(Before(t, m)), data, pos);
            if Recoverable(Before(t, m), Project(t, v, m)) then
              && r.code == Ok && r.item == Project(t, v, m)
              && r.pos + |NewBytes(conf, t, v, m)| == pos + |Message.Serialize(conf, t, v)|
            else r.code != Ok || r.item != Project(t, v, m)
  {
    hide At, Encode, HasType, WellFormed, HasCompatible, DecodeHead, EncodeHead, EncodeVersions, DecodeBody, RuntimeInfo,
         Fits, WordWidth, VersionsOf, PassesAt, MaxLength, Before, Project, Placed, HasContainer, Announced, Default, InfoFor,
         Recoverable, NewBytes;
    var a, u := Before(t, m), Project(t, v, m);
    var info := RuntimeInfo(conf, t, v);
    var c := ContextOf(conf, t, v, data, pos);
    var next := pos + |EncodeHead(conf, t, info)|;
    BeforeLegal(conf, t, m);
    OldPassesStand(conf, t, v, m, data, pos);
    PartsAt(conf, t, v, data, pos);
    InfoShape(conf, t, v);
    HeadRoundTrip(conf, t, info, a, data, pos);
    OldFits(conf, t, v, m);
    BodyRoundTrip(a, u, c, next);
    OldLength(conf, t, v, m);
  }

  lemma {:induction false} OldFits(conf: Conf, t: Ty, v: Val, m: nat)
    requires Legal(conf, t) && HasType(t, v) && Placed(t, m) && MaxLength(t, v) < TWO_64
    ensures Typed(Before(t, m), Project(t, v, m))
    ensures Fits(Before(t, m), Project(t, v, m), Width(RuntimeInfo(conf, t, v)))
  {
    hide HasType, WellFormed, HasCompatible, RuntimeInfo, WordWidth, MaxLength, Before, Project, Placed, Span;
    LengthBefore(t, v, m);
    WidthFits(conf, t, v);
  }

  lemma {:induction false} OldLength(conf: Conf, t: Ty, v: Val, m: nat)
    requires Legal(conf, t) && HasType(t, v) && Placed(t, m)
    ensures Typed(Before(t, m), Project(t, v, m))
    ensures var info := RuntimeInfo(conf, t, v);
            var a, u := Before(t, m), Project(t, v, m);
            |EncodeHead(conf, t, info)| + |Encode(a, u, Plain, Width(info))| + |EncodeVersions(a, u, VersionsOf(a), Width(info))|
               + |NewBytes(conf, t, v, m)|
            == |Message.Serialize(conf, t, v)|
  {
    hide Encode, HasType, WellFormed, HasCompatible, EncodeHead, EncodeVersions, RuntimeInfo, VersionsOf, WordWidth,
         Before, Project, Placed, AtLeast, InfoFor;
    PassLengths(t, v, m, Width(RuntimeInfo(conf, t, v)));
  }

  lemma {:induction false} PassLengths(t: Ty, v: Val, m: nat, w: nat)
    requires WellFormed(t) && HasType(t, v) && Placed(t, m)
    ensures Typed(Before(t, m), Project(t, v, m))
    ensures var a, u := Before(t, m), Project(t, v, m);
            && |Encode(a, u, Plain, w)| == |Encode(t, v, Plain, w)|
            && |EncodeVersions(a, u, VersionsOf(a), w)| + |EncodeVersions(t, v, AtLeast(VersionsOf(t), m), w)|
               == |EncodeVersions(t, v, VersionsOf(t), w)|
  {
    hide Encode, HasType, WellFormed, EncodeVersions, VersionsOf, Before, Project, Placed, AtLeast;
    var a := Before(t, m);
    BytesBefore(t, v, m, Plain, w);
    VersionsBefore(t, m);
    OldVersionsBelow(t, m);
    VersionBytesBefore(t, v, m, VersionsOf(a), w);
    VersionBytesThen(t, v, VersionsOf(a), AtLeast(VersionsOf(t), m), w);
  }

  lemma {:induction false} InjectTyped(t: Ty, u: Val, m: nat)
    requires WellFormed(t) && Placed(t, m) && HasType(Before(t, m), u)
    ensures WellFormed(Before(t, m)) && HasType(t, Inject(t, u, m)) && Project(t, Inject(t, u, m), m) == u
    ensures MaxLength(t, Inject(t, u, m)) <= MaxLength(Before(t, m), u)
  {
    hide HasType, WellFormed, MaxLength, Before, Project, Inject, Placed, Known, HasVersion, Collect;
    var s := Elements(Collect(t));
    forall n: nat | HasVersion(t, n) && n < m ensures n in s { CollectFindsVersions(t, n); }
    InjectSound(t, u, m, s);
  }

  /** The bytes of an old value are those of the injected one, as far as they go. */
  lemma {:induction false} InjectBytes(t: Ty, u: Val, m: nat, w: nat)
    requires WellFormed(t) && Placed(t, m) && HasType(Before(t, m), u)
    ensures Typed(Before(t, m), u) && Typed(t, Inject(t, u, m))
    ensures Encode(t, Inject(t, u, m), Plain, w) == Encode(Before(t, m), u, Plain, w)
    ensures EncodeVersions(t, Inject(t, u, m), VersionsOf(Before(t, m)), w)
            == EncodeVersions(Before(t, m), u, VersionsOf(Before(t, m)), w)
  {
    hide Encode, HasType, WellFormed, Before, Project, Inject, Placed, VersionsOf, EncodeVersions, HasVersion, MaxLength, Known;
    InjectTyped(t, u, m);
    BytesBefore(t, Inject(t, u, m), m, Plain, w);
    OldVersionsBelow(t, m);
    VersionBytesBefore(t, Inject(t, u, m), m, VersionsOf(Before(t, m)), w);
  }

  /** The set of all versions of t, and that nothing is unknown once it is known. */
  lemma {:induction false} InjectKnown(t: Ty, u: Val, m: nat, s: set<nat>)
    requires WellFormed(t) && Placed(t, m) && HasType(Before(t, m), u)
    requires s == Elements(VersionsOf(Before(t, m)))
    ensures HasType(t, Inject(t, u, m)) && Known(t, Inject(t, u, m), s) == Inject(t, u, m)
  {
    hide HasType, WellFormed, Before, Project, Inject, Placed, VersionsOf, HasVersion, MaxLength, Known;
    BeforeSound(t, m);
    VersionsCover(Before(t, m));
    forall n: nat | HasVersion(t, n) && n < m ensures n in s { HasVersionBefore(t, m, n); }
    InjectSound(t, u, m, s);
  }

  /** The passes of the newer type over an older type's bytes: the old ones restore what was
      written if it can be restored, the new ones find nothing. */
  lemma {:induction false} NewPasses(t: Ty, u: Val, m: nat, c: Context, pos: nat)
    requires WellFormed(t) && Placed(t, m) && Typed(Before(t, m), u) && HasType(t, Inject(t, u, m))
    requires Fits(t, Inject(t, u, m), c.w) && pos <= |c.data|
    requires At(c.data, pos, EncodeVersions(t, Inject(t, u, m), VersionsOf(Before(t, m)), c.w))
    requires c.dataLen <= pos + |EncodeVersions(t, Inject(t, u, m), VersionsOf(Before(t, m)), c.w)|
    requires HasCompatible(Before(t, m)) ==> c.dataLen == pos + |EncodeVersions(t, Inject(t, u, m), VersionsOf(Before(t, m)), c.w)|
    ensures var v, ns := Inject(t, u, m), VersionsOf(Before(t, m));
            var o := DecodeVersions(t, Known(t, v, {}), VersionsOf(t), c, pos);
            if AllHeldIn(t, v, ns) then Silent(o, v, pos + |EncodeVersions(t, v, ns, c.w)|)
            else o.code == BadAccess || o.item != v
  {
    hide At, Encode, HasType, WellFormed, Before, Inject, Placed, VersionsOf, EncodeVersions, DecodeVersions, HasVersion, Known,
         Fits, AtLeast, Pending, HasCompatible, AllHeldIn, Elements;
    var v := Inject(t, u, m);
    var ns := VersionsOf(Before(t, m));
    InjectKnown(t, u, m, Elements(ns));
    OldVersionsRead(t, u, m, c, pos);
    VersionsBefore(t, m);
    VersionsThen(t, Known(t, v, {}), ns, AtLeast(VersionsOf(t), m), c, pos);
    var o := DecodeVersions(t, Known(t, v, {}), ns, c, pos);
    if AllHeldIn(t, v, ns) {
      NothingLeftVersions(t, v, AtLeast(VersionsOf(t), m), c, o.pos);
    } else if o.code == Ok {
      NewAmongOld(t, m);
      VersionsKeep(t, o.item, AtLeast(VersionsOf(t), m), Elements(ns), c, o.pos);
    }
  }

  /** No new version is an old one. */
  lemma {:induction false} NewAmongOld(t: Ty, m: nat)
    requires WellFormed(t) && Placed(t, m)
    ensures var more := AtLeast(VersionsOf(t), m);
            forall i | 0 <= i < |more| :: more[i] !in Elements(VersionsOf(Before(t, m)))
  {
    hide Before, WellFormed, Placed, VersionsOf, AtLeast;
    var more := AtLeast(VersionsOf(t), m);
    OldVersionsBelow(t, m);
    forall i | 0 <= i < |more| ensures more[i] !in Elements(VersionsOf(Before(t, m))) {
      AtLeastElements(VersionsOf(t), m, more[i]);
    }
  }

  lemma {:induction false} OldVersionsRead(t: Ty, u: Val, m: nat, c: Context, pos: nat)
    requires WellFormed(t) && Placed(t, m) && Typed(Before(t, m), u) && HasType(t, Inject(t, u, m))
    requires Fits(t, Inject(t, u, m), c.w) && pos <= |c.data|
    requires At(c.data, pos, EncodeVersions(t, Inject(t, u, m), VersionsOf(Before(t, m)), c.w))
    requires HasCompatible(Before(t, m)) ==> c.dataLen == pos + |EncodeVersions(t, Inject(t, u, m), VersionsOf(Before(t, m)), c.w)|
    ensures var v, ns := Inject(t, u, m), VersionsOf(Before(t, m));
            var o := DecodeVersions(t, Known(t, v, {}), ns, c, pos);
            if AllHeldIn(t, v, ns) then o == Outcome(Ok, Known(t, v, Elements(ns)), pos + |EncodeVersions(t, v, ns, c.w)|, false)
            else o.code == BadAccess || Known(t, o.item, Elements(ns)) != Known(t, v, Elements(ns))
  {
    hide At, Encode, HasType, WellFormed, Before, Inject, Placed, VersionsOf, HasVersion, Known, Fits, Pending, HasCompatible,
         Elements;
    var v, ns := Inject(t, u, m), VersionsOf(Before(t, m));
    VersionsCover(Before(t, m));
    assert {} + Elements(ns) == Elements(ns) by { NoneAnd(ns); }
    if HasCompatible(Before(t, m)) {
      VersionsRoundTrip(t, v, ns, {}, c, pos);
    } else {
      NoVersions(Before(t, m), u, c.w);
      assert Elements(ns) == {} by { NoneAnd(ns); }
    }
  }

  lemma {:induction false} NoneAnd(ns: seq<nat>)
    ensures {} + Elements(ns) == Elements(ns) && (ns == [] ==> Elements(ns) == {})
  {
  }

  /** The passes behind the head. */
  lemma {:induction false} NewBody(t: Ty, u: Val, m: nat, c: Context, pos: nat)
    requires WellFormed(t) && Placed(t, m) && Typed(Before(t, m), u) && HasType(t, Inject(t, u, m))
    requires Fits(t, Inject(t, u, m), c.w)
    requires At(c.data, pos, Encode(Before(t, m), u, Plain, c.w))
    requires At(c.data, pos + |Encode(Before(t, m), u, Plain, c.w)|, EncodeVersions(Before(t, m), u, VersionsOf(Before(t, m)), c.w))
    requires var end := pos + |Encode(Before(t, m), u, Plain, c.w)| + |EncodeVersions(Before(t, m), u, VersionsOf(Before(t, m)), c.w)|;
             c.dataLen <= end && (HasCompatible(Before(t, m)) ==> c.dataLen == end)
    ensures var r := DecodeBody(t, Default(t), c, pos);
            if Recoverable(t, Inject(t, u, m)) then
              r == Result(Ok, Inject(t, u, m), pos + |Encode(Before(t, m), u, Plain, c.w)|
                                               + |EncodeVersions(Before(t, m), u, VersionsOf(Before(t, m)), c.w)|)
            else r.code != Ok || r.item != Inject(t, u, m)
  {
    hide At, Encode, HasType, WellFormed, Before, Inject, Placed, VersionsOf, EncodeVersions, Decode, DecodeVersions, Known, Fits,
         HasCompatible, Default, Restorable, AllHeldIn, Recoverable;
    var v := Inject(t, u, m);
    InjectBytes(t, u, m, c.w);
    if !Restorable(t, v) {
      SpoiltBody(t, v, c, pos);
    } else {
      PlainRoundTrip(t, v, c, pos);
      NewHeld(t, u, m);
      if HasCompatible(t) {
        NewPasses(t, u, m, c, pos + |Encode(t, v, Plain, c.w)|);
      } else {
        NoNewVersions(t, u, m, c.w);
        NoOldVersions(t, u, m);
      }
    }
  }

  lemma {:induction false} NoOldVersions(t: Ty, u: Val, m: nat)
    requires WellFormed(t) && Placed(t, m) && Typed(Before(t, m), u) && HasType(t, Inject(t, u, m)) && !HasCompatible(t)
    ensures AllHeldIn(t, Inject(t, u, m), VersionsOf(Before(t, m)))
  {
    hide Before, Inject, HasType, WellFormed, Placed, VersionsOf, Collect, Below, Held;
    CollectBefore(t, m);
    NoneBelow(m);
    NoVersions(Before(t, m), u, 0);
  }

  /** The new fields are null, so they hold nothing that could not be restored. */
  lemma {:induction false} NewHeld(t: Ty, u: Val, m: nat)
    requires WellFormed(t) && Placed(t, m) && Typed(Before(t, m), u) && HasType(t, Inject(t, u, m))
    ensures Recoverable(t, Inject(t, u, m))
            <==> Restorable(t, Inject(t, u, m)) && AllHeldIn(t, Inject(t, u, m), VersionsOf(Before(t, m)))
  {
    hide Before, Inject, HasType, WellFormed, Placed, VersionsOf, Collect, Held, Restorable, Known, HasVersion;
    var v, ns := Inject(t, u, m), VersionsOf(Before(t, m));
    BeforeSound(t, m);
    VersionsCover(Before(t, m));
    InjectKnown(t, u, m, Elements(ns));
    forall n: nat ensures n in ns <==> n in Collect(t) && n < m {
      CollectFindsVersions(t, n);
      HasVersionBefore(t, m, n);
    }
    forall n: nat | n in Collect(t) && n !in ns ensures Held(t, v, n) { UnknownHeld(t, v, n, Elements(ns)); }
  }

  lemma {:induction false} UnknownHeld(t: Ty, v: Val, n: nat, s: set<nat>)
    requires Typed(t, v) && Known(t, v, s) == v && n !in s
    ensures Held(t, v, n)
    decreases t, 0
  {
    hide Restorable, AllHeld, FieldsHeld, Collect, KnownElems, KnownFields;
    match t
    case Fixed(_) =>
    case Var(_) =>
    case Array(_, e) => UnknownHeldElems(e, v.items, n, s);
    case Container(_, e) => UnknownHeldElems(e, v.items, n, s);
    case Optional(e, _) => if v.Some? { UnknownHeld(e, v.value, n, s); }
    case Expected(a, e) => UnknownHeld(if v.index == 1 then a else e, v.value, n, s);
    case Variant(alts) => UnknownHeld(alts[v.index], v.value, n, s);
    case Struct(_, fs) => UnknownHeldFields(fs, v.items, n, s);
    case Compatible(_, _) =>
  }

  lemma {:induction false} UnknownHeldElems(t: Ty, vs: seq<Val>, n: nat, s: set<nat>)
    requires WellFormed(t) && AllHaveType(t, vs) && KnownElems(t, vs, s) == vs && n !in s
    ensures AllHeld(t, vs, n)
    decreases t, 1, |vs|
  {
    hide Held, WellFormed, HasType, Known;
    if |vs| > 0 {
      assert vs == [Known(t, vs[0], s)] + KnownElems(t, vs[1..], s);
      UnknownHeld(t, vs[0], n, s);
      UnknownHeldElems(t, vs[1..], n, s);
    }
  }

  lemma {:induction false} UnknownHeldFields(ts: seq<Ty>, vs: seq<Val>, n: nat, s: set<nat>)
    requires AllWellFormed(ts) && HasTypes(ts, vs) && KnownFields(ts, vs, s) == vs && n !in s
    ensures FieldsHeld(ts, vs, n)
    decreases ts, 1
  {
    hide Held, WellFormed, HasType, Known;
    if |ts| > 0 {
      assert vs == [Known(ts[0], vs[0], s)] + KnownFields(ts[1..], vs[1..], s);
      UnknownHeld(ts[0], vs[0], n, s);
      UnknownHeldFields(ts[1..], vs[1..], n, s);
    }
  }

  lemma {:induction false} NoNewVersions(t: Ty, u: Val, m: nat, w: nat)
    requires WellFormed(t) && Placed(t, m) && Typed(Before(t, m), u) && !HasCompatible(t)
    ensures HasType(t, Inject(t, u, m)) && Known(t, Inject(t, u, m), {}) == Inject(t, u, m)
    ensures EncodeVersions(Before(t, m), u, VersionsOf(Before(t, m)), w) == []
  {
    hide Encode, HasType, WellFormed, Before, Inject, Placed, VersionsOf, Known, Collect, Below;
    CollectBefore(t, m);
    NoneBelow(m);
    NoVersions(Before(t, m), u, w);
    NoneAnd(VersionsOf(Before(t, m)));
    InjectKnown(t, u, m, Elements(VersionsOf(Before(t, m))));
  }

  /** A program that knows the newer type reads the older type's bytes: it gets the old value
      with every new field null, without an error, and stops at the end; exactly if that value is
      recoverable. */
  lemma {:induction false} NewReadsOld(conf: Conf, t: Ty, u: Val, m: nat, data: bytes, pos: nat)
    requires Legal(conf, t) && Placed(t, m) && Typed(Before(t, m), u) && Addressable(conf, Before(t, m), u)
    requires At(data, pos, Message.Serialize(conf, Before(t, m), u))
    ensures HasType(t, Inject(t, u, m)) && Project(t, Inject(t, u, m), m) == u
    ensures var r := Deserialize(conf, t, Default(t), data, pos);
            if Recoverable(t, Inject(t, u, m)) then
              r == Result(Ok, Inject(t, u, m), pos + |Message.Serialize(conf, Before(t, m), u)|)
            else r.code != Ok || r.item != Inject(t, u, m)
  {
    hide At, Encode, HasType, WellFormed, HasCompatible, DecodeHead, EncodeHead, EncodeVersions, DecodeBody, RuntimeInfo, InfoFor,
         Fits, WordWidth, VersionsOf, MaxLength, Before, Project, Inject, Placed, HasContainer, Announced, Default, Known,
         HasVersion, Recoverable;
    var a := Before(t, m);
    var info := RuntimeInfo(conf, a, u);
    var c := ContextOf(conf, a, u, data, pos);
    var next := pos + |EncodeHead(conf, a, info)|;
    BeforeLegal(conf, t, m);
    InjectTyped(t, u, m);
    PartsAt(conf, a, u, data, pos);
    InfoShape(conf, a, u);
    HeadRoundTrip(conf, a, info, t, data, pos);
    NewFits(conf, t, u, m);
    AnnouncedSizeExact(conf, a, u);
    NewBody(t, u, m, c, next);
  }

  lemma {:induction false} NewFits(conf: Conf, t: Ty, u: Val, m: nat)
    requires Legal(conf, t) && Placed(t, m) && Typed(Before(t, m), u) && MaxLength(Before(t, m), u) < TWO_64
    ensures Legal(conf, Before(t, m)) && HasType(t, Inject(t, u, m))
    ensures Fits(t, Inject(t, u, m), Width(RuntimeInfo(conf, Before(t, m), u)))
  {
    hide HasType, WellFormed, HasCompatible, RuntimeInfo, WordWidth, MaxLength, Before, Project, Inject, Placed, Span, Known,
         HasContainer, HasVersion, Collect;
    BeforeLegal(conf, t, m);
    InjectTyped(t, u, m);
    WidthFits(conf, Before(t, m), u);
  }
}
