/** What the unpacker refuses, on any bytes and into any object: other types, and bytes that no
    packer has written. */
module Rejection {
  import opened Bytes
  import opened Leb128
  import opened Status
  import opened Schema
  import opened FastVarint
  import opened Encoding
  import opened Decoding
  import opened Versions
  import opened RoundTrip
  import opened Message
  import opened Skipping
  import opened Misreading

  // ---- other types -------------------------------------------------------------------------------

  /** The first four bytes are not the hash of this type, whatever their lowest bit. */
  predicate OtherHash(conf: Conf, data: bytes, pos: nat) {
    conf.Head? && pos + 4 <= |data| && FromLE(data[pos..pos + 4]) / 2 != conf.hash / 2
  }

  /** A buffer of another type is refused behind the hash, and the object is left alone. */
  lemma {:induction false} ForeignRefused(conf: Conf, t: Ty, item: Val, data: bytes, pos: nat)
    requires WellFormed(t) && HasType(t, item) && OtherHash(conf, data, pos)
    ensures Deserialize(conf, t, item, data, pos) == Result(InvalidBuffer, item, pos + 4)
  {
    hide FromLE, DecodeBody, WellFormed, HasType, DecodeMetainfo;
  }

  lemma {:induction false} ForeignFieldRefused(conf: Conf, t: Ty, ts: seq<Ty>, i: nat, data: bytes, pos: nat)
    requires AllWellFormed(ts) && i < |ts| && OtherHash(conf, data, pos)
    ensures GetField(conf, t, ts, i, data, pos) == Result(InvalidBuffer, Default(ts[i]), pos + 4)
  {
    hide FromLE, ReadNth, WellFormed, HasType, DecodeMetainfo, Default;
  }

  /** What was written with one hash is foreign to the reader of another one. */
  lemma {:induction false} WrittenHash(conf: Conf, t: Ty, v: Val, conf2: Conf, data: bytes, pos: nat)
    requires Legal(conf, t) && HasType(t, v) && conf.Head? && conf2.Head? && conf2.hash % 2 == 0 && conf2.hash != conf.hash
    requires At(data, pos, Serialize(conf, t, v))
    ensures OtherHash(conf2, data, pos)
  {
    hide At, Encode, EncodeVersions, RuntimeInfo, HasType, WellFormed, HasCompatible, LE, FromLE, MetainfoFollows, VersionsOf,
         MetainfoBytes;
    var info := RuntimeInfo(conf, t, v);
    PartsAt(conf, t, v, data, pos);
    HashFirst(conf, t, info, data, pos);
    HashRoundTrip(conf, t, info);
    assert conf.hash / 2 != conf2.hash / 2;
  }

  lemma {:induction false} HashFirst(conf: Conf, t: Ty, info: BufferSize, data: bytes, pos: nat)
    requires conf.Head? && info.widthCode <= 3 && info.lenCode <= 3 && At(data, pos, EncodeHead(conf, t, info))
    ensures pos + 4 <= |data| && data[pos..pos + 4] == LE(4, HashHead(conf, t, info))
    ensures MetainfoFollows(conf, t, info) ==> At(data, pos + 4, MetainfoBytes(conf, t, info))
  {
    hide At, HasCompatible, LE, FromLE, HashHead, MetainfoFollows;
    var hash := LE(4, HashHead(conf, t, info));
    var rest := if MetainfoFollows(conf, t, info) then MetainfoBytes(conf, t, info) else [];
    assert EncodeHead(conf, t, info) == hash + rest;
    AtConcat(data, pos, hash, rest);
    WordAt(data, pos, hash);
  }

  lemma {:induction false} WordAt(data: bytes, pos: nat, word: bytes)
    requires At(data, pos, word)
    ensures pos + |word| <= |data| && data[pos..pos + |word|] == word
  {
  }

  /** Neither of the two literals, with the zero behind it, begins the other one. So it is for
      different literals of the same length, and for different literals without zeros. */
  predicate Apart(a: bytes, b: bytes) {
    !(a + [0] <= b + [0]) && !(b + [0] <= a + [0])
  }

  lemma {:induction false} SameLengthApart(a: bytes, b: bytes)
    requires |a| == |b| && a != b
    ensures Apart(a, b)
  {
    assert (a + [0])[..|a|] == a && (b + [0])[..|b|] == b;
  }

  /** Where the type literal of a value stands, counted from its first byte. */
  function LiteralPlace(conf: Conf, t: Ty, v: Val): int
    requires Typed(t, v)
  {
    |EncodeHead(conf, t, RuntimeInfo(conf, t, v))| - (if conf.Head? then |conf.literal| else 0) - 1
  }

  /** The head's reader meets another literal. */
  ghost predicate Collides(conf2: Conf, data: bytes, pos: nat, start: int, code: Code, next: int)
    requires conf2.Head?
  {
    if start + |conf2.literal| + 1 <= |data| then code == HashConflict && next == start + |conf2.literal| + 1
    else code == NoBufferSpace && next == start
  }

  /** A value with its literal stands here, and the reader has the same hash but another literal. */
  ghost predicate Collision(conf: Conf, t: Ty, v: Val, conf2: Conf, data: bytes, pos: nat): (r: bool)
    ensures r ==> Typed(t, v) && conf2.Head? && pos <= |data|
  {
    && Legal(conf, t) && HasType(t, v) && Addressable(conf, t, v) && At(data, pos, Serialize(conf, t, v))
    && conf.Head? && conf.addLiteral && conf2.Head? && conf2.hash == conf.hash && Apart(conf.literal, conf2.literal)
  }

  /** The same hash, but another type literal: the collision of hashes is noticed. */
  lemma {:induction false} CollisionRefused(conf: Conf, t: Ty, v: Val, conf2: Conf, t2: Ty, item: Val, data: bytes, pos: nat)
    requires Collision(conf, t, v, conf2, data, pos) && WellFormed(t2) && HasType(t2, item)
    ensures var r := Deserialize(conf2, t2, item, data, pos);
            r.item == item && Collides(conf2, data, pos, pos + LiteralPlace(conf, t, v), r.code, r.pos)
  {
    hide At, Encode, EncodeVersions, EncodeHead, RuntimeInfo, HasType, WellFormed, DecodeHead, VersionsOf, Announced, Addressable,
         DecodeBody, Apart, Serialize, Width;
    PartsAt(conf, t, v, data, pos);
    InfoShape(conf, t, v);
    HeadCollides(conf, t, RuntimeInfo(conf, t, v), conf2, t2, data, pos);
  }

  lemma {:induction false} HeadCollides(conf: Conf, t: Ty, info: BufferSize, conf2: Conf, t2: Ty, data: bytes, pos: nat)
    requires Legal(conf, t) && Announced(conf, t, info) && At(data, pos, EncodeHead(conf, t, info))
    requires conf.Head? && conf.addLiteral && conf2.Head? && conf2.hash == conf.hash && Apart(conf.literal, conf2.literal)
    ensures var h := DecodeHead(conf2, t2, data, pos);
            Collides(conf2, data, pos, pos + |EncodeHead(conf, t, info)| - |conf.literal| - 1, h.code, h.pos)
  {
    hide At, EncodeHead, WellFormed, HasCompatible, HasContainer, LE, FromLE, DecodeMetainfo, MetainfoBytes, Announced, Apart,
         HashHead;
    assert MetainfoFollows(conf, t, info) && info.widthCode <= 3 && info.lenCode <= 3 by { LiteralFollows(conf, t, info); }
    HashFirst(conf, t, info, data, pos);
    HashRoundTrip(conf, t, info);
    HeadSplit(conf, t, info);
    OtherLiteral(conf, t, info, conf2, data, pos + 4);
  }

  lemma {:induction false} LiteralFollows(conf: Conf, t: Ty, info: BufferSize)
    requires conf.Head? && conf.addLiteral && Announced(conf, t, info)
    ensures MetainfoFollows(conf, t, info) && info.widthCode <= 3 && info.lenCode <= 3
  {
  }

  lemma {:induction false} HeadSplit(conf: Conf, t: Ty, info: BufferSize)
    requires conf.Head? && conf.addLiteral && info.widthCode <= 3 && info.lenCode <= 3
    ensures |EncodeHead(conf, t, info)| == 4 + |MetainfoBytes(conf, t, info)|
  {
    hide HasCompatible, LE, HashHead, BufferSize.Metainfo, HasContainer;
  }

  lemma {:induction false} OtherLiteral(conf: Conf, t: Ty, info: BufferSize, conf2: Conf, data: bytes, pos: nat)
    requires conf.Head? && conf.addLiteral && conf2.Head? && Announced(conf, t, info) && Apart(conf.literal, conf2.literal)
    requires At(data, pos, MetainfoBytes(conf, t, info))
    ensures var start, h := pos + |MetainfoBytes(conf, t, info)| - |conf.literal| - 1, DecodeMetainfo(conf2, data, pos);
            if start + |conf2.literal| + 1 <= |data| then h.code == HashConflict && h.pos == start + |conf2.literal| + 1
            else h.code == NoBufferSpace && h.pos == start
  {
    hide LE, FromLE, Span, HasCompatible, HasContainer, WordWidth, BufferSize.Metainfo, Apart;
    var len := if HasCompatible(t) then LE(WordWidth(info.lenCode), info.len) else [];
    var lit := conf.literal + [0];
    MetainfoBits(info);
    assert MetainfoBytes(conf, t, info) == ([info.Metainfo()] + len) + lit;
    AtConcat(data, pos, [info.Metainfo()] + len, lit);
    AtConcat(data, pos, [info.Metainfo()], len);
    assert data[pos] == data[pos..pos + 1][0];
    LiteralDiffers(conf.literal, conf2.literal, data, pos + 1 + |len|);
  }

  lemma {:induction false} LiteralDiffers(a: bytes, b: bytes, data: bytes, pos: nat)
    requires Apart(a, b) && At(data, pos, a + [0])
    ensures pos + |b| + 1 <= |data| ==> data[pos..pos + |b| + 1] != b + [0]
  {
    hide Apart;
    if pos + |b| + 1 <= |data| && data[pos..pos + |b| + 1] == b + [0] { OneBeginsOther(a, b, data, pos); }
  }

  lemma {:induction false} OneBeginsOther(a: bytes, b: bytes, data: bytes, pos: nat)
    requires At(data, pos, a + [0]) && At(data, pos, b + [0])
    ensures !Apart(a, b)
  {
    if |a| <= |b| {
      assert (b + [0])[..|a| + 1] == data[pos..pos + |a| + 1] == a + [0];
    } else {
      assert (a + [0])[..|b| + 1] == data[pos..pos + |b| + 1] == b + [0];
    }
  }

  // ---- bytes that nobody writes ------------------------------------------------------------------

  /** An index beyond the alternatives is refused and leaves the object alone, and only that is
      refused there. */
  lemma {:induction false} BadIndexRefused(alts: seq<Ty>, item: Val, c: Context, pos: nat)
    requires WellFormed(Variant(alts)) && HasType(Variant(alts), item) && pos < |c.data|
    ensures var o := Decode(Variant(alts), item, Plain, c, pos);
            && (o.code == InvalidBuffer <==> c.data[pos] >= |alts|)
            && (o.code == InvalidBuffer ==> o.item == item && o.pos == pos + 1)
            && (o.code != InvalidBuffer ==> o.item.index == c.data[pos])
  {
    hide Default;
  }

  /** Any flag but 0 says that there is a content. */
  lemma {:induction false} AnyFlagCounts(e: Ty, pointer: bool, item: Val, c: Context, pos: nat)
    requires WellFormed(e) && HasType(Optional(e, pointer), item) && pos < |c.data|
    ensures var o := Decode(Optional(e, pointer), item, Plain, c, pos);
            if c.data[pos] == 0 then o == Outcome(Ok, item, pos + 1, false) else o.item.Some?
  {
    hide Default;
  }

  /** The same for an expected: any flag but 0 says that there is a value. */
  lemma {:induction false} AnyFlagIsValue(a: Ty, e: Ty, item: Val, c: Context, pos: nat)
    requires WellFormed(Expected(a, e)) && HasType(Expected(a, e), item) && pos < |c.data|
    ensures var o := Decode(Expected(a, e), item, Plain, c, pos);
            if c.data[pos] == 0 then o.item.index == 0
            else if item.index == 0 then o == Outcome(BadAccess, item, pos + 1, false) else o.item.index == 1
  {
    hide Default;
  }

  /** n bytes that all say that the number goes on. */
  ghost predicate GoesOn(data: bytes, pos: nat, n: nat) {
    pos + n <= |data| && forall k | pos <= k < pos + n :: data[k] >= 128
  }

  /** Ten bytes with their top bit set are no number; the integer keeps its value. */
  lemma {:induction false} LongVarintRefused(k: VarKind, item: Val, c: Context, pos: nat)
    requires HasType(Var(k), item) && GoesOn(c.data, pos, 10)
    ensures Decode(Var(k), item, Plain, c, pos) == Outcome(InvalidBuffer, item, pos + 10, false)
  {
    hide VarKind.Unwire, ScanLeb;
    AllMarked(c.data, pos, 10);
  }

  lemma {:induction false} AllMarked(data: bytes, pos: nat, room: nat)
    requires GoesOn(data, pos, room)
    ensures ScanLeb(data, pos, room) == Long
    decreases room
  {
    if room > 0 { AllMarked(data, pos + 1, room - 1); }
  }

  /** A block that claims eight-byte words in a struct without 64-bit integers is refused, and no
      field is touched. */
  lemma {:induction false} WideBlockRefused(fs: seq<Ty>, items: seq<Val>, c: Context, pos: nat)
    requires WellFormed(Struct(true, fs)) && AllWellFormed(fs) && HasTypes(fs, items) && HasType(Struct(true, fs), Items(items))
    requires pos + BitmapSize(VarCount(fs)) <= |c.data| && (forall i | 0 <= i < |fs| && fs[i].Var? :: fs[i].kind.Width() == 4)
    requires var vec := c.data[pos..pos + BitmapSize(VarCount(fs))];
             BitAt(vec, VarCount(fs)) && BitAt(vec, VarCount(fs) + 1)
    ensures Decode(Struct(true, fs), Items(items), Plain, c, pos)
            == Outcome(InvalidBuffer, Items(items), pos + BitmapSize(VarCount(fs)), false)
  {
    hide BitAt, VarCount, DecodeFields, ReadWords, HasType, WellFormed;
    assert !Has64(fs);
  }

  /** A vector of bulk-copied elements that announces more than there is leaves the object alone,
      however large the number. */
  lemma {:induction false} LongVectorRefused(w: nat, item: Val, c: Context, pos: nat)
    requires HasType(Container(Contiguous, Fixed(w)), item) && pos + c.w <= |c.data|
    requires var n := FromLE(c.data[pos..pos + c.w]); n > 0 && n * w > |c.data| - pos - c.w
    ensures Decode(Container(Contiguous, Fixed(w)), item, Plain, c, pos) == Outcome(NoBufferSpace, item, pos + c.w, false)
  {
    hide FromLE, DecodeNew;
  }

  /** At the end of the buffer every type that takes bytes is refused, and the object is left alone. */
  lemma {:induction false} EmptyRefused(t: Ty, item: Val, c: Context)
    requires WellFormed(t) && HasType(t, item) && !TakesNothing(t) && c.w > 0
    ensures Decode(t, item, Plain, c, |c.data|) == Outcome(NoBufferSpace, item, |c.data|, false)
    decreases t, 0
  {
    hide DecodeElems, DecodeFields, VarKind.Unwire, FromLE, Default, Collect;
    match t
    case Array(_, e) => EmptyRefusedElems(e, item.items, c);
    case Struct(fast, fs) =>
      assert AllWellFormed(fs) && HasTypes(fs, item.items) && item == Items(item.items);
      if !fast { EmptyRefusedFields(fs, item.items, c); }
    case _ =>
  }

  lemma {:induction false} EmptyRefusedElems(t: Ty, items: seq<Val>, c: Context)
    requires WellFormed(t) && AllHaveType(t, items) && !TakesNothing(t) && |items| > 0 && c.w > 0
    ensures DecodeElems(t, items, Plain, c, |c.data|) == Outcomes(NoBufferSpace, items, |c.data|, false)
    decreases t, 1
  {
    hide Decode, HasType, WellFormed, TakesNothing;
    EmptyRefused(t, items[0], c);
    DecodeElemsFirst(t, items, Plain, c, |c.data|);
    assert [items[0]] + items[1..] == items;
  }

  lemma {:induction false} EmptyRefusedFields(ts: seq<Ty>, items: seq<Val>, c: Context)
    requires AllWellFormed(ts) && HasTypes(ts, items) && (exists i | 0 <= i < |ts| :: !TakesNothing(ts[i])) && c.w > 0
    ensures DecodeFields(false, ts, items, Plain, c, |c.data|) == Outcomes(NoBufferSpace, items, |c.data|, false)
    decreases ts, 1
  {
    hide Decode, HasType, WellFormed, TakesNothing;
    DecodeFieldsFirst(false, ts, items, Plain, c, |c.data|);
    assert [items[0]] + items[1..] == items;
    if TakesNothing(ts[0]) {
      NothingRead(ts[0], items[0], c, |c.data|);
      var i :| 0 <= i < |ts| && !TakesNothing(ts[i]);
      assert !TakesNothing(ts[1..][i - 1]);
      EmptyRefusedFields(ts[1..], items[1..], c);
    } else {
      EmptyRefused(ts[0], items[0], c);
    }
  }

  /** A varint that the buffer's end cuts off leaves the integer alone. */
  lemma {:induction false} ShortVarintRefused(k: VarKind, item: Val, c: Context, pos: nat)
    requires HasType(Var(k), item) && pos <= |c.data| && |c.data| - pos < 10 && GoesOn(c.data, pos, |c.data| - pos)
    ensures Decode(Var(k), item, Plain, c, pos) == Outcome(NoBufferSpace, item, |c.data|, false)
  {
    hide VarKind.Unwire, ScanLeb;
    AllMarkedShort(c.data, pos, 10);
  }

  lemma {:induction false} AllMarkedShort(data: bytes, pos: nat, room: nat)
    requires pos <= |data| && |data| - pos < room && GoesOn(data, pos, |data| - pos)
    ensures ScanLeb(data, pos, room) == Short
    decreases room
  {
    if pos < |data| { AllMarkedShort(data, pos + 1, room - 1); }
  }

  // ---- where a read stops ----------------------------------------------------------------------

  /** A read of fields that fails has failed at one field: those behind it are as they were, and code and
      cursor are the ones of that field. */
  lemma {:induction false} FailsAtField(skip: bool, ts: seq<Ty>, items: seq<Val>, pass: Pass, c: Context, pos: nat) returns (k: nat, p: nat)
    requires AllWellFormed(ts) && HasTypes(ts, items) && pos <= |c.data| && DecodeFields(skip, ts, items, pass, c, pos).code != Ok
    ensures k < |ts| && p <= |c.data|
    ensures var r, h := DecodeFields(skip, ts, items, pass, c, pos), Decode(ts[k], items[k], pass, c, p);
            && |r.items| == |items| && r.items[k + 1..] == items[k + 1..] && r.items[k] == h.item
            && r.code == h.code && r.pos == h.pos
    decreases ts
  {
    hide Decode, HasType, WellFormed;
    DecodeFieldsFirst(skip, ts, items, pass, c, pos);
    var h := if skip && ts[0].Var? then Outcome(Ok, items[0], pos, false) else Decode(ts[0], items[0], pass, c, pos);
    if h.code != Ok {
      k, p := 0, pos;
    } else {
      k, p := FailsAtField(skip, ts[1..], items[1..], pass, c, h.pos);
      k := k + 1;
      assert items[1..][k..] == items[k + 1..];
      assert DecodeFields(skip, ts, items, pass, c, pos).items[1..][k..] == DecodeFields(skip, ts, items, pass, c, pos).items[k + 1..];
    }
  }

  /** So has a read of the elements of a container: it keeps those before, and the failing one too unless
      the container is a map or a set. */
  lemma {:induction false} FailsAtElement(shape: Shape, t: Ty, item: Val, n: nat, c: Context, pos: nat) returns (was: Val, p: nat)
    requires WellFormed(t) && HasType(t, item) && pos <= |c.data| && DecodeNew(shape, t, item, n, c, pos).code != Ok
    ensures HasType(t, was) && p <= |c.data|
    ensures var r, h := DecodeNew(shape, t, item, n, c, pos), Decode(t, was, Plain, c, p);
            && r.code == h.code && r.pos == h.pos
            && (if shape.Keyed? then |r.items| < n else 0 < |r.items| <= n && r.items[|r.items| - 1] == h.item)
    decreases n
  {
    hide Decode, HasType, WellFormed, Next;
    DecodeNewFirst(shape, t, item, n, c, pos);
    var h := Decode(t, item, Plain, c, pos);
    if h.code != Ok {
      was, p := item, pos;
    } else {
      was, p := FailsAtElement(shape, t, Next(shape, t, h.item), n - 1, c, h.pos);
    }
  }

  /** And so has a read of elements that are there already. */
  lemma {:induction false} FailsAtItem(t: Ty, items: seq<Val>, pass: Pass, c: Context, pos: nat) returns (k: nat, p: nat)
    requires WellFormed(t) && AllHaveType(t, items) && pos <= |c.data| && DecodeElems(t, items, pass, c, pos).code != Ok
    ensures k < |items| && p <= |c.data|
    ensures var r, h := DecodeElems(t, items, pass, c, pos), Decode(t, items[k], pass, c, p);
            && |r.items| == |items| && r.items[k + 1..] == items[k + 1..] && r.items[k] == h.item
            && r.code == h.code && r.pos == h.pos
    decreases |items|
  {
    hide Decode, HasType, WellFormed;
    DecodeElemsFirst(t, items, pass, c, pos);
    var h := Decode(t, items[0], pass, c, pos);
    if h.code != Ok {
      k, p := 0, pos;
    } else {
      k, p := FailsAtItem(t, items[1..], pass, c, h.pos);
      k := k + 1;
      assert items[1..][k..] == items[k + 1..];
      assert DecodeElems(t, items, pass, c, pos).items[1..][k..] == DecodeElems(t, items, pass, c, pos).items[k + 1..];
    }
  }

  /** A block whose words end too early: the integer whose word is missing becomes 0 if it is unsigned and
      stays as it was otherwise, and so do all fields behind it. */
  lemma {:induction false} FailsAtWord(ts: seq<Ty>, items: seq<Val>, vec: bytes, idx: nat, code: int, data: bytes, pos: nat) returns (k: nat)
    requires HasTypes(ts, items) && 0 <= code <= 3 && idx + VarCount(ts) <= 8 * |vec|
    requires ReadWords(ts, items, vec, idx, code, data, pos).code != Ok
    ensures k < |ts| && ts[k].Var?
    ensures var r := ReadWords(ts, items, vec, idx, code, data, pos);
            && |r.items| == |items| && r.items[k + 1..] == items[k + 1..]
            && r.items[k] == (if ts[k].kind.Signed() then items[k] else Num(0))
            && r.code == NoBufferSpace && r.pos + RealWidth(ts[k].kind, code) > |data|
    decreases ts
  {
    hide HasType, BitAt, RealWidth, WordValue;
    if ts[0].Var? && BitAt(vec, idx) && pos + RealWidth(ts[0].kind, code) > |data| {
      k := 0;
      assert items[1..] == ([Num(0)] + items[1..])[1..];
    } else {
      var next := pos + (if ts[0].Var? && BitAt(vec, idx) then RealWidth(ts[0].kind, code) else 0);
      k := FailsAtWord(ts[1..], items[1..], vec, idx + (if ts[0].Var? then 1 else 0), code, data, next);
      k := k + 1;
      var r := ReadWords(ts, items, vec, idx, code, data, pos);
      assert items[1..][k..] == items[k + 1..] && r.items[1..][k..] == r.items[k + 1..];
    }
  }

  /** get_field goes on behind a field that could not be skipped: here ten bytes that are no number. */
  lemma {:induction false} SkipErrorIgnored(k: VarKind, w: nat, c: Context, pos: nat)
    requires GoesOn(c.data, pos, 10) && pos + 10 + w <= |c.data|
    ensures WellFormed(Var(k)) && WellFormed(Fixed(w))
    ensures ReadNth([Var(k), Fixed(w)], 1, c, pos) == Outcome(Ok, Blob(c.data[pos + 10..pos + 10 + w]), pos + 10 + w, false)
  {
    hide ScanLeb;
    AllMarked(c.data, pos, 10);
    var ts := [Var(k), Fixed(w)];
    assert ts[1..] == [Fixed(w)];
    assert Skip(Var(k), Default(Var(k)), c, pos) == SkipOutcome(InvalidBuffer, Default(Var(k)), pos + 10);
    assert ReadNth(ts[1..], 0, c, pos + 10) == Decode(Fixed(w), Default(Fixed(w)), Plain, c, pos + 10);
  }
}
