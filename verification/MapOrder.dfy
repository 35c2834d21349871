/** The version passes meet the entries of a map in the order in which each side iterates. If the
    reader's map iterates differently, the compatible fields of the mapped values go astray. */
module MapOrder {
  import opened Bytes
  import opened Status
  import opened Schema
  import opened Encoding
  import opened Decoding
  import opened Restoring
  import opened RoundTrip

  /** A map from keys to structs with a plain part and a compatible field. */
  datatype MapType = MapType(key: Ty, plain: Ty, version: nat, elem: Ty) {
    predicate Sound() {
      && WellFormed(key) && WellFormed(plain) && WellFormed(elem) && version < UINT64_MAX
      && Collect(key) == [] && Collect(plain) == [] && Collect(elem) == []
    }

    function Content(): Ty { Compatible(version, elem) }

    function Mapped(): Ty { Struct(false, [plain, Content()]) }

    function Entry(): Ty { Struct(false, [key, Mapped()]) }

    function Map(): Ty { Container(Keyed, Entry()) }
  }

  datatype Row = Row(key: Val, plain: Val, content: Val) {
    function Mapped(): Val { Items([plain, content]) }

    function Entry(): Val { Items([key, Mapped()]) }

    predicate Typed(m: MapType) {
      HasType(m.key, key) && HasType(m.plain, plain) && HasType(m.Content(), content)
    }

    /** As it is when the plain fields have been read. */
    function Unknown(): Row { this.(content := Null) }
  }

  predicate AllTyped(m: MapType, rows: seq<Row>) {
    forall i | 0 <= i < |rows| :: rows[i].Typed(m)
  }

  function Entries(rows: seq<Row>): (vs: seq<Val>)
    ensures |vs| == |rows|
  {
    if |rows| == 0 then [] else [rows[0].Entry()] + Entries(rows[1..])
  }

  function AllUnknown(rows: seq<Row>): seq<Row> {
    if |rows| == 0 then [] else [rows[0].Unknown()] + AllUnknown(rows[1..])
  }

  /** The keys and plain parts of one list with the compatible fields of another one. */
  function Mixed(rows: seq<Row>, others: seq<Row>): (r: seq<Row>)
    requires |rows| == |others|
    ensures |r| == |rows| && forall i | 0 <= i < |r| :: r[i] == rows[i].(content := others[i].content)
  {
    if |rows| == 0 then [] else [rows[0].(content := others[0].content)] + Mixed(rows[1..], others[1..])
  }

  /** The rows in another order. */
  function Arranged(rows: seq<Row>, order: seq<nat>): (r: seq<Row>)
    requires forall j | 0 <= j < |order| :: order[j] < |rows|
    ensures |r| == |order| && forall j | 0 <= j < |r| :: r[j] == rows[order[j]]
  {
    seq(|order|, j requires 0 <= j < |order| => rows[order[j]])
  }

  // ---- one entry --------------------------------------------------------------------------------

  lemma {:induction false} PairTyped(a: Ty, b: Ty, x: Val, y: Val)
    requires WellFormed(a) && WellFormed(b) && HasType(a, x) && HasType(b, y)
    ensures WellFormed(Struct(false, [a, b])) && HasType(Struct(false, [a, b]), Items([x, y]))
  {
  }

  lemma {:induction false} EntryTyped(m: MapType, r: Row)
    requires m.Sound() && r.Typed(m)
    ensures WellFormed(m.Content()) && WellFormed(m.Mapped()) && WellFormed(m.Entry())
    ensures HasType(m.Mapped(), r.Mapped()) && HasType(m.Entry(), r.Entry()) && HasType(m.Content(), r.content)
  {
    hide HasType, WellFormed, Collect;
    MappedWellFormed(m);
    PairTyped(m.plain, m.Content(), r.plain, r.content);
    PairTyped(m.key, m.Mapped(), r.key, r.Mapped());
  }

  /** A version pass goes through a pair to the part that has the version. */
  lemma {:induction false} PairPass(a: Ty, b: Ty, x: Val, y: Val, n: nat, c: Context, pos: nat)
    requires Typed(a, x) && Typed(b, y) && Collect(a) == [] && HasVersion(b, n) && pos <= |c.data|
    ensures Typed(Struct(false, [a, b]), Items([x, y])) && HasVersion(Struct(false, [a, b]), n)
    ensures Encode(Struct(false, [a, b]), Items([x, y]), Version(n), c.w) == Encode(b, y, Version(n), c.w)
    ensures var h := Decode(b, y, Version(n), c, pos);
            Decode(Struct(false, [a, b]), Items([x, y]), Version(n), c, pos) == Outcome(h.code, Items([x, h.item]), h.pos, h.missing)
  {
    hide HasType, WellFormed, Encode, Decode, HasVersion, EncodeFields, DecodeFields;
    var ts, vs := [a, b], [x, y];
    PairTyped(a, b, x, y);
    PairVersion(a, b, n);
    PairFields(a, b, x, y);
    NoVersionIn(a, x, n, c, pos);
    assert ts[1..] == [b] && vs[1..] == [y] && ts[1..][1..] == [] && vs[1..][1..] == [];
    DecodeFieldsFirst(false, ts, vs, Version(n), c, pos);
    DecodeFieldsFirst(false, ts[1..], vs[1..], Version(n), c, pos);
    PairUnfolds(ts, vs, n, c, pos);
    NoFieldsLeft(n, c, Decode(b, y, Version(n), c, pos).pos);
    EncodeFieldsFirst(ts, vs, n, c.w);
    EncodeFieldsFirst(ts[1..], vs[1..], n, c.w);
    var h := Decode(b, y, Version(n), c, pos);
    assert [x] + ([h.item] + []) == [x, h.item];
    assert [] + (Encode(b, y, Version(n), c.w) + []) == Encode(b, y, Version(n), c.w);
  }

  lemma {:induction false} PairFields(a: Ty, b: Ty, x: Val, y: Val)
    requires Typed(a, x) && Typed(b, y)
    ensures AllWellFormed([a, b]) && HasTypes([a, b], [x, y]) && AllWellFormed([b]) && HasTypes([b], [y])
  {
    hide HasType, WellFormed;
  }

  lemma {:induction false} PairVersion(a: Ty, b: Ty, n: nat)
    requires HasVersion(b, n)
    ensures HasVersion(Struct(false, [a, b]), n)
  {
    assert HasVersion([a, b][1], n);
  }

  lemma {:induction false} NoVersionIn(a: Ty, x: Val, n: nat, c: Context, pos: nat)
    requires Typed(a, x) && Collect(a) == [] && pos <= |c.data|
    ensures !HasVersion(a, n) && Encode(a, x, Version(n), c.w) == [] && Decode(a, x, Version(n), c, pos) == Outcome(Ok, x, pos, false)
  {
    hide HasVersion, Collect;
    CollectFindsVersions(a, n);
  }

  lemma {:induction false} PairUnfolds(ts: seq<Ty>, vs: seq<Val>, n: nat, c: Context, pos: nat)
    requires Typed(Struct(false, ts), Items(vs)) && HasVersion(Struct(false, ts), n) && pos <= |c.data|
    ensures AllWellFormed(ts) && HasTypes(ts, vs)
    ensures Encode(Struct(false, ts), Items(vs), Version(n), c.w) == EncodeFields(false, ts, vs, Version(n), c.w)
    ensures var r := DecodeFields(false, ts, vs, Version(n), c, pos);
            Decode(Struct(false, ts), Items(vs), Version(n), c, pos) == Outcome(r.code, Items(r.items), r.pos, r.missing)
  {
    hide EncodeFields, DecodeFields;
  }

  lemma {:induction false} NoFieldsLeft(n: nat, c: Context, pos: nat)
    requires pos <= |c.data|
    ensures DecodeFields(false, [], [], Version(n), c, pos) == Outcomes(Ok, [], pos, false)
    ensures EncodeFields(false, [], [], Version(n), c.w) == []
  {
  }

  lemma {:induction false} EncodeFieldsFirst(ts: seq<Ty>, vs: seq<Val>, n: nat, w: nat)
    requires AllWellFormed(ts) && HasTypes(ts, vs) && |ts| > 0
    ensures EncodeFields(false, ts, vs, Version(n), w)
            == Encode(ts[0], vs[0], Version(n), w) + EncodeFields(false, ts[1..], vs[1..], Version(n), w)
  {
    hide Encode, HasType, WellFormed;
  }

  /** The content can be written and read back. */
  predicate Readable(m: MapType, r: Row, w: nat)
    requires m.Sound() && r.Typed(m)
  {
    EntryTyped(m, r);
    Fits(m.Content(), r.content, w) && Held(m.Content(), r.content, m.version)
  }

  /** Reading the content of one entry into another one. */
  lemma {:induction false} EntryPass(m: MapType, was: Row, r: Row, c: Context, pos: nat)
    requires m.Sound() && was.Typed(m) && r.Typed(m) && Readable(m, r, c.w)
    requires Typed(m.Entry(), r.Entry())
    requires At(c.data, pos, Encode(m.Entry(), r.Entry(), Version(m.version), c.w))
    requires pos + |Encode(m.Entry(), r.Entry(), Version(m.version), c.w)| <= c.dataLen
    ensures Typed(m.Entry(), was.Unknown().Entry())
    ensures Decode(m.Entry(), was.Unknown().Entry(), Version(m.version), c, pos)
            == Outcome(Ok, was.(content := r.content).Entry(), pos + |Encode(m.Entry(), r.Entry(), Version(m.version), c.w)|, false)
  {
    hide HasType, WellFormed, Encode, Decode, HasVersion, Known, Collect, At, Held, Covers, MaxLength;
    var n, t := m.version, m.Content();
    EntryTyped(m, r);
    ContentVersion(m);
    NullContent(m);
    EntryTyped(m, was.Unknown());
    PairVersion(m.plain, t, n);
    PairPass(m.plain, t, r.plain, r.content, n, c, pos);
    PairPass(m.key, m.Mapped(), r.key, r.Mapped(), n, c, pos);
    PairPass(m.plain, t, was.plain, Null, n, c, pos);
    PairPass(m.key, m.Mapped(), was.key, was.Unknown().Mapped(), n, c, pos);
    VersionCompatible(t, r.content, {}, n, c, pos);
    ContentKnown(m, r.content);
  }

  lemma {:induction false} ContentVersion(m: MapType)
    ensures HasVersion(m.Content(), m.version)
  {
  }

  lemma {:induction false} NullContent(m: MapType)
    ensures HasType(m.Content(), Null)
  {
  }

  lemma {:induction false} ContentKnown(m: MapType, content: Val)
    requires HasType(m.Content(), content)
    ensures Known(m.Content(), content, {}) == Null && Known(m.Content(), content, {} + {m.version}) == content
  {
  }

  // ---- all entries --------------------------------------------------------------------------------

  lemma {:induction false} MapTyped(m: MapType, rows: seq<Row>)
    requires m.Sound() && AllTyped(m, rows)
    ensures WellFormed(m.Entry()) && AllHaveType(m.Entry(), Entries(rows))
    ensures WellFormed(m.Map()) && HasType(m.Map(), Items(Entries(rows)))
  {
    hide HasType, WellFormed;
    MappedWellFormed(m);
    EntriesTyped(m, rows);
    ItemsTyped(m, Entries(rows));
  }

  lemma {:induction false} MappedWellFormed(m: MapType)
    requires m.Sound()
    ensures WellFormed(m.Content()) && WellFormed(m.Mapped()) && WellFormed(m.Entry()) && WellFormed(m.Map())
  {
    assert WellFormed(m.Content());
    assert WellFormed(m.Mapped());
    assert WellFormed(m.Entry());
  }

  lemma {:induction false} ItemsTyped(m: MapType, vs: seq<Val>)
    requires AllHaveType(m.Entry(), vs)
    ensures HasType(m.Map(), Items(vs))
  {
  }

  lemma {:induction false} EntriesTyped(m: MapType, rows: seq<Row>)
    requires m.Sound() && AllTyped(m, rows)
    ensures AllHaveType(m.Entry(), Entries(rows))
    decreases |rows|
  {
    hide HasType, WellFormed, Row.Typed;
    if |rows| > 0 {
      EntryTyped(m, rows[0]);
      EntriesTyped(m, rows[1..]);
    }
  }

  lemma {:induction false} UnknownTyped(m: MapType, rows: seq<Row>)
    requires AllTyped(m, rows)
    ensures AllTyped(m, AllUnknown(rows))
    decreases |rows|
  {
    if |rows| > 0 { UnknownTyped(m, rows[1..]); }
  }

  /** Every content can be written and read back. */
  predicate AllReadable(m: MapType, rows: seq<Row>, w: nat)
    requires m.Sound() && AllTyped(m, rows)
  {
    forall i | 0 <= i < |rows| :: Readable(m, rows[i], w)
  }

  /** The pass of the version written for one list of rows and read into another one. */
  lemma {:induction false} MapPass(m: MapType, rows: seq<Row>, others: seq<Row>, c: Context, pos: nat)
    requires m.Sound() && AllTyped(m, rows) && AllTyped(m, others) && |rows| == |others| && AllReadable(m, others, c.w)
    requires WellFormed(m.Entry()) && AllHaveType(m.Entry(), Entries(others)) && AllHaveType(m.Entry(), Entries(AllUnknown(rows)))
    requires At(c.data, pos, EncodeElems(m.Entry(), Entries(others), Version(m.version), c.w))
    requires pos + |EncodeElems(m.Entry(), Entries(others), Version(m.version), c.w)| <= c.dataLen
    ensures DecodeElems(m.Entry(), Entries(AllUnknown(rows)), Version(m.version), c, pos)
            == Outcomes(Ok, Entries(Mixed(rows, others)),
                        pos + |EncodeElems(m.Entry(), Entries(others), Version(m.version), c.w)|, false)
    decreases |rows|
  {
    hide HasType, WellFormed, Encode, Decode, Collect, At, Readable, Row.Typed, EncodeElems, DecodeElems;
    var e, n := m.Entry(), m.version;
    if |rows| == 0 {
      NoEntries(e, n, c, pos);
    } else {
      assert Typed(e, others[0].Entry()) by { EntryTyped(m, others[0]); }
      ElemsFirst(e, Entries(others), n, c.w);
      var first := Encode(e, others[0].Entry(), Version(n), c.w);
      AtConcat(c.data, pos, first, EncodeElems(e, Entries(others[1..]), Version(n), c.w));
      EntryPass(m, rows[0], others[0], c, pos);
      DecodeElemsFirst(e, Entries(AllUnknown(rows)), Version(n), c, pos);
      assert Entries(AllUnknown(rows))[1..] == Entries(AllUnknown(rows[1..]));
      MapPass(m, rows[1..], others[1..], c, pos + |first|);
      MixedFirst(rows, others);
    }
  }

  lemma {:induction false} NoEntries(e: Ty, n: nat, c: Context, pos: nat)
    requires WellFormed(e) && pos <= |c.data|
    ensures EncodeElems(e, [], Version(n), c.w) == [] && DecodeElems(e, [], Version(n), c, pos) == Outcomes(Ok, [], pos, false)
  {
  }

  lemma {:induction false} ElemsFirst(e: Ty, vs: seq<Val>, n: nat, w: nat)
    requires WellFormed(e) && AllHaveType(e, vs) && |vs| > 0
    ensures EncodeElems(e, vs, Version(n), w) == Encode(e, vs[0], Version(n), w) + EncodeElems(e, vs[1..], Version(n), w)
  {
    hide Encode, HasType, WellFormed;
  }

  lemma {:induction false} MixedFirst(rows: seq<Row>, others: seq<Row>)
    requires |rows| == |others| > 0
    ensures Entries(Mixed(rows, others)) == [rows[0].(content := others[0].content).Entry()] + Entries(Mixed(rows[1..], others[1..]))
  {
    var all := Mixed(rows, others);
    assert all[0] == rows[0].(content := others[0].content) && all[1..] == Mixed(rows[1..], others[1..]);
  }

  lemma {:induction false} EntriesInjective(a: seq<Row>, b: seq<Row>)
    requires Entries(a) == Entries(b)
    ensures a == b
    decreases |a|
  {
    if |a| > 0 {
      assert Entries(a)[0] == Entries(b)[0] && Entries(a)[1..] == Entries(b)[1..];
      assert a[0].Entry().items[0] == b[0].Entry().items[0] && a[0].Entry().items[1] == b[0].Entry().items[1];
      assert a[0].Mapped().items[0] == b[0].Mapped().items[0] && a[0].Mapped().items[1] == b[0].Mapped().items[1];
      EntriesInjective(a[1..], b[1..]);
      assert a == [a[0]] + a[1..] && b == [b[0]] + b[1..];
    }
  }

  /** The writer's map iterates over the rows as they stand, the reader's map, which has the plain
      fields already, in another order. The version pass succeeds, but it gives each of the
      reader's entries the compatible field of the writer's entry in that place: the map is the
      written one exactly if in every place the two compatible fields are the same. */
  lemma {:induction false} ContentsKeepTheirPlace(m: MapType, rows: seq<Row>, order: seq<nat>, c: Context, pos: nat)
    requires m.Sound() && AllTyped(m, rows) && AllReadable(m, rows, c.w)
    requires |order| == |rows| && forall j | 0 <= j < |order| :: order[j] < |rows|
    requires Typed(m.Map(), Items(Entries(rows)))
    requires PassAt(m.Map(), Items(Entries(rows)), m.version, c, pos)
    ensures var was := Items(Entries(AllUnknown(Arranged(rows, order))));
            && HasType(m.Map(), was)
            && var o := Decode(m.Map(), was, Version(m.version), c, pos);
            && o.code == Ok && !o.missing
            && o.item == Items(Entries(Mixed(Arranged(rows, order), rows)))
            && (o.item == Items(Entries(Arranged(rows, order)))
                <==> forall j | 0 <= j < |rows| :: rows[order[j]].content == rows[j].content)
  {
    hide HasType, WellFormed, EncodeElems, DecodeElems, Collect, At, Row.Typed, Readable, Arranged, Mixed, Entries, AllUnknown;
    var reader := Arranged(rows, order);
    assert AllTyped(m, reader);
    UnknownTyped(m, reader);
    MapTyped(m, AllUnknown(reader));
    MapTyped(m, rows);
    MapUnfolds(m, Entries(rows), Entries(AllUnknown(reader)), c, pos);
    MapPass(m, reader, rows, c, pos);
    var mixed := Mixed(reader, rows);
    if Entries(mixed) == Entries(reader) {
      EntriesInjective(mixed, reader);
      forall j | 0 <= j < |rows| ensures rows[order[j]].content == rows[j].content {
        assert mixed[j] == reader[j] == rows[order[j]];
      }
    }
    if forall j | 0 <= j < |rows| :: rows[order[j]].content == rows[j].content {
      assert mixed == reader;
    }
  }

  lemma {:induction false} MapUnfolds(m: MapType, written: seq<Val>, was: seq<Val>, c: Context, pos: nat)
    requires Typed(m.Map(), Items(written)) && Typed(m.Map(), Items(was)) && pos <= |c.data|
    requires WellFormed(m.Entry()) && AllHaveType(m.Entry(), written) && AllHaveType(m.Entry(), was)
    ensures Encode(m.Map(), Items(written), Version(m.version), c.w) == EncodeElems(m.Entry(), written, Version(m.version), c.w)
    ensures var r := DecodeElems(m.Entry(), was, Version(m.version), c, pos);
            Decode(m.Map(), Items(was), Version(m.version), c, pos) == Outcome(r.code, Items(r.items), r.pos, r.missing)
  {
    hide EncodeElems, DecodeElems;
    assert HasVersion(m.Content(), m.version);
    assert HasVersion([m.plain, m.Content()][1], m.version) && HasVersion(m.Mapped(), m.version);
    assert HasVersion([m.key, m.Mapped()][1], m.version) && HasVersion(m.Entry(), m.version);
    assert HasVersion(m.Map(), m.version);
  }
}
