/** The unpacker as it runs: a cursor that moves through the buffer, items filled one after
    the other, and a tag for buffers that lack compatible fields. */
module Unpacker {
  import opened Bytes
  import opened Leb128
  import opened Status
  import opened Schema
  import opened FastVarint
  import opened Decoding
  import opened Versions
  import opened Message
  import opened Skipping

  class Unpacker {
    const data: bytes
    var now: nat
    var w: nat
    var dataLen: nat
    var missing: bool

    ghost predicate Valid()
      reads this
    {
      now <= |data|
    }

    ghost function Surroundings(): Context
      reads this
    {
      Context(data, w, dataLen)
    }

    constructor (data: bytes)
      ensures Valid() && this.data == data && now == 0 && !missing
    {
      this.data, now, w, dataLen, missing := data, 0, 1, 0, false;
    }

    /** What a read of one item must have done: code, item, cursor and tag are those of the
        function, and the surroundings are untouched. */
    twostate predicate Did(o: Outcome, code: Code, item: Val)
      reads this
    {
      && code == o.code && item == o.item && now == o.pos && missing == (old(missing) || o.missing)
      && w == old(w) && dataLen == old(dataLen)
    }

    twostate predicate DidAll(o: Outcomes, code: Code, items: seq<Val>)
      reads this
    {
      && code == o.code && items == o.items && now == o.pos && missing == (old(missing) || o.missing)
      && w == old(w) && dataLen == old(dataLen)
    }

    /** memory_reader::read */
    method Read(len: nat) returns (ok: bool, bs: bytes)
      requires Valid()
      modifies this`now
      ensures Valid() && (ok <==> old(now) + len <= |data|)
      ensures if ok then now == old(now) + len && bs == data[old(now)..old(now) + len] else now == old(now)
    {
      if |data| - now < len {
        return false, [];
      }
      ok, bs := true, data[now..now + len];
      now := now + len;
    }

    // ---- varints ------------------------------------------------------------------------------------

    /** deserialize_varint_impl */
    method DeserializeVarintImpl() returns (code: Code, v: nat)
      requires Valid()
      modifies this`now
      ensures Valid()
      ensures match ScanLeb(data, old(now), MAX_VARINT_LENGTH)
              case Value(t, next) => code == Ok && now == next && v == t % TWO_64
              case Short => code == NoBufferSpace && now == |data|
              case Long => code == InvalidBuffer && now == old(now) + MAX_VARINT_LENGTH
    {
      hide ScanLeb, Pow128, OrGroup, Prefix;
      ghost var start := now;
      v := 0;
      var i := 0;
      PrefixStart(data, start);
      while i < MAX_VARINT_LENGTH
        invariant 0 <= i <= MAX_VARINT_LENGTH && Valid() && now == start + i
        invariant Prefix(data, start, i, v)
      {
        var ok, b := Read(1);
        if !ok {
          CutOff(data, start, i, v);
          return NoBufferSpace, 0;
        }
        if b[0] < 128 {
          if i < 9 {
            ShortNumber(data, start, i, v);
          } else {
            TenthByte(data, start, v);
          }
          v := OrGroup(v, if i < 9 then b[0] % 128 else b[0] % 2, i);
          return Ok, v;
        }
        PrefixMore(data, start, i, v);
        v := OrGroup(v, b[0] % 128, i);
        i := i + 1;
      }
      NoLastByte(data, start, v, Decoded(false, start + MAX_VARINT_LENGTH, 0));
      code := InvalidBuffer;
    }

    /** deserialize_varint */
    method DeserializeVarint(k: VarKind, item: Val) returns (code: Code, r: Val)
      requires Valid() && HasType(Var(k), item)
      modifies this`now
      ensures Did(DecodeVar(k, item, Surroundings(), old(now)), code, r)
    {
      hide ScanLeb, VarKind.Unwire, VarKind.Holds;
      var v;
      code, v := DeserializeVarintImpl();
      r := item;
      if code == Ok { r := Num(k.Unwire(v)); }
    }

    /** deserialize_fast_varint_helper on all fields */
    method DeserializeFastVarintHelper(ts: seq<Ty>, items: seq<Val>, vec: bytes, width: int) returns (code: Code, rs: seq<Val>)
      requires Valid() && HasTypes(ts, items) && 0 <= width <= 3 && VarCount(ts) <= 8 * |vec|
      modifies this`now
      ensures Valid() && ReadMany(code, rs, now) == ReadWords(ts, items, vec, 0, width, data, old(now))
    {
      hide ReadWords, HasType, HasTypes, VarCount, BitAt, RealWidth, WordValue;
      ghost var start := now;
      rs := items;
      var i, j := 0, 0;
      WordsBegin(ts, items);
      while j < |ts|
        invariant 0 <= j <= |ts| == |rs| && Valid() && |items| == |ts|
        invariant rs[j..] == items[j..] && HasTypes(ts[j..], items[j..])
        invariant i + VarCount(ts[j..]) <= 8 * |vec|
        invariant Continued(rs[..j], ReadWords(ts[j..], items[j..], vec, i, width, data, now))
                  == ReadWords(ts, items, vec, 0, width, data, start)
      {
        WordsGo(ts, items, vec, i, width, data, now, j);
        if ts[j].Var? {
          i := i + 1;
          if BitAt(vec, i - 1) {
            var ok, bs := Read(RealWidth(ts[j].kind, width));
            if !ok {
              FieldFails(rs, items, j, now);
              return NoBufferSpace, if ts[j].kind.Signed() then rs else rs[j := Num(0)];
            }
            rs := rs[j := Num(WordValue(ts[j].kind, bs))];
          }
        }
        FieldPlaced(rs, items, j);
        ContinueWith(rs[..j], rs[j], ReadWords(ts[j + 1..], items[j + 1..], vec, i, width, data, now));
        j := j + 1;
      }
      WordsOver(ts, items, vec, i, width, data, now);
      assert rs[..j] == rs && rs + [] == rs;
      code := Ok;
    }

    /** deserialize_fast_varint */
    method DeserializeFastVarint(ts: seq<Ty>, items: seq<Val>) returns (code: Code, rs: seq<Val>)
      requires Valid() && HasTypes(ts, items)
      modifies this`now
      ensures Valid() && ReadMany(code, rs, now) == ReadBlock(ts, items, data, old(now))
    {
      hide ReadWords, HasType, BitAt, Has64;
      var cnt := VarCount(ts);
      var ok, vec := Read(BitmapSize(cnt));
      if !ok { return NoBufferSpace, items; }
      var width := (if BitAt(vec, cnt) then 1 else 0) + (if BitAt(vec, cnt + 1) then 2 else 0);
      if width == 3 && !Has64(ts) { return InvalidBuffer, items; }
      code, rs := DeserializeFastVarintHelper(ts, items, vec, width);
    }

    // ---- one pass over an item ----------------------------------------------------------------------

    /** deserialize_one */
    method DeserializeOne(t: Ty, item: Val, pass: Pass) returns (code: Code, r: Val)
      requires Valid() && WellFormed(t) && HasType(t, item)
      modifies this`now, this`missing
      ensures Valid() && Did(Decode(t, item, pass, Surroundings(), old(now)), code, r)
      decreases t, 0
    {
      hide DecodeElems, DecodeFields, DecodeNew, DecodeOptional, DecodeExpected, DecodeVariant, DecodeStruct, DecodeContainer,
           DecodeVar, Collect, HasType, WellFormed;
      code, r := Ok, item;
      TypeParts(t, item);
      if pass.Version? && !HasVersion(t, pass.n) { return; }
      match t {
        case Fixed(width) =>
          if pass.Plain? {
            var ok, bs := Read(width);
            if !ok { return NoBufferSpace, item; }
            r := Blob(bs);
          }
        case Var(k) =>
          if pass.Plain? { code, r := DeserializeVarint(k, item); }
        case Array(_, e) =>
          var items;
          code, items := DeserializeElems(e, item.items, pass);
          r := Items(items);
        case Container(shape, e) =>
          if pass.Plain? {
            code, r := DeserializeContainer(shape, e, item);
          } else {
            var items;
            code, items := DeserializeElems(e, item.items, pass);
            r := Items(items);
          }
        case Optional(e, _) =>
          code, r := DeserializeOptional(e, item, pass);
        case Expected(a, e) =>
          code, r := DeserializeExpected(a, e, item, pass);
        case Variant(alts) =>
          code, r := DeserializeVariant(alts, item, pass);
        case Struct(fast, fs) =>
          code, r := DeserializeStruct(fast, fs, item, pass);
        case Compatible(n, e) =>
          if pass == Version(n) {
            if now >= dataLen {
              missing := true;
              return NoBufferSpace, item;
            }
            code, r := DeserializeOptional(e, item, Plain);
          }
      }
    }

    method DeserializeOptional(e: Ty, item: Val, pass: Pass) returns (code: Code, r: Val)
      requires Valid() && WellFormed(e) && HasType(Optional(e), item)
      modifies this`now, this`missing
      ensures Valid() && Did(DecodeOptional(e, item, pass, Surroundings(), old(now)), code, r)
      decreases e, 3
    {
      hide Decode, Default, WellFormed;
      code, r := Ok, item;
      var inner;
      if pass.Plain? {
        var ok, hasValue := Read(1);
        if !ok { return NoBufferSpace, item; }
        if hasValue[0] == 0 { return; }
        code, inner := DeserializeOne(e, Default(e), pass);
      } else {
        if item.Null? { return; }
        code, inner := DeserializeOne(e, item.value, pass);
      }
      code, r := Dropped(code), Some(inner);
    }

    method DeserializeExpected(a: Ty, e: Ty, item: Val, pass: Pass) returns (code: Code, r: Val)
      requires Valid() && WellFormed(a) && WellFormed(e) && HasType(Expected(a, e), item)
      modifies this`now, this`missing
      ensures Valid() && Did(DecodeExpected(a, e, item, pass, Surroundings(), old(now)), code, r)
      decreases Expected(a, e), -1
    {
      hide Decode, Default, WellFormed;
      code, r := Ok, item;
      var inner;
      if pass.Plain? {
        var ok, hasValue := Read(1);
        if !ok { return NoBufferSpace, item; }
        if hasValue[0] == 0 {
          code, inner := DeserializeOne(e, Default(e), pass);
          r := Alt(0, inner);
        } else {
          if item.index == 0 { return BadAccess, item; }
          code, inner := DeserializeOne(a, item.value, pass);
          r := Alt(1, inner);
        }
      } else {
        code, inner := DeserializeOne(if item.index == 1 then a else e, item.value, pass);
        r := Alt(item.index, inner);
      }
      code := Dropped(code);
    }

    method DeserializeVariant(alts: seq<Ty>, item: Val, pass: Pass) returns (code: Code, r: Val)
      requires Valid() && AllWellFormed(alts) && HasType(Variant(alts), item)
      modifies this`now, this`missing
      ensures Valid() && Did(DecodeVariant(alts, item, pass, Surroundings(), old(now)), code, r)
      decreases alts, 3
    {
      hide Decode, Default, WellFormed;
      var inner;
      if pass.Plain? {
        var ok, index := Read(1);
        if !ok { return NoBufferSpace, item; }
        if index[0] >= |alts| { return InvalidBuffer, item; }
        code, inner := DeserializeOne(alts[index[0]], Default(alts[index[0]]), pass);
        r := Alt(index[0], inner);
      } else {
        code, inner := DeserializeOne(alts[item.index], item.value, pass);
        r := Alt(item.index, inner);
      }
      code := Dropped(code);
    }

    method DeserializeStruct(fast: bool, fs: seq<Ty>, item: Val, pass: Pass) returns (code: Code, r: Val)
      requires Valid() && AllWellFormed(fs) && HasType(Struct(fast, fs), item)
      modifies this`now, this`missing
      ensures Valid() && Did(DecodeStruct(fast, fs, item, pass, Surroundings(), old(now)), code, r)
      decreases fs, 3
    {
      hide DecodeFields, ReadBlock, WellFormed;
      var items;
      if pass.Plain? && fast {
        code, items := DeserializeFastVarint(fs, item.items);
        if code != Ok { return code, Items(items); }
        code, items := DeserializeMany(true, fs, items, pass);
      } else {
        code, items := DeserializeMany(false, fs, item.items, pass);
      }
      r := Items(items);
    }

    method DeserializeContainer(shape: Shape, e: Ty, item: Val) returns (code: Code, r: Val)
      requires Valid() && WellFormed(e) && HasType(Container(shape, e), item)
      modifies this`now, this`missing
      ensures Valid() && Did(DecodeContainer(shape, e, item, Surroundings(), old(now)), code, r)
      decreases e, 3
    {
      hide DecodeNew, FromLE, WellFormed, Default;
      var ok, length := Read(w);
      if !ok { return NoBufferSpace, item; }
      var size := FromLE(length);
      if size == 0 { return Ok, item; }
      if shape.Contiguous? && e.Fixed? && now + size * e.width > |data| {
        return NoBufferSpace, item;
      }
      var items;
      code, items := DeserializeNew(shape, e, size);
      r := Items(items);
    }

    /** The elements that are there already, up to the first one that fails. */
    method DeserializeElems(t: Ty, items: seq<Val>, pass: Pass) returns (code: Code, rs: seq<Val>)
      requires Valid() && WellFormed(t) && AllHaveType(t, items)
      modifies this`now, this`missing
      ensures Valid() && DidAll(DecodeElems(t, items, pass, Surroundings(), old(now)), code, rs)
      decreases t, 1
    {
      hide Decode, DecodeElems, HasType, WellFormed, Joined;
      ghost var start, before := now, missing;
      ghost var c := Surroundings();
      code, rs := Ok, [];
      var i := 0;
      assert items[0..] == items;
      ghost var tag := false;
      JoinNothing(DecodeElems(t, items, pass, c, now));
      while i < |items|
        invariant 0 <= i <= |items| && Valid() && Surroundings() == c && missing == (before || tag) && code == Ok
        invariant AllHaveType(t, items[i..])
        invariant Joined(rs, tag, DecodeElems(t, items[i..], pass, c, now)) == DecodeElems(t, items, pass, c, start)
      {
        ElemGo(t, items, pass, c, now, i);
        ghost var h := Decode(t, items[i], pass, c, now);
        JoinFailed(rs, tag, h, items[i + 1..]);
        var one;
        code, one := DeserializeOne(t, items[i], pass);
        if code != Ok {
          rs := rs + ([one] + items[i + 1..]);
          return;
        }
        JoinMore(rs, tag, h, DecodeElems(t, items[i + 1..], pass, c, now));
        tag := tag || h.missing;
        rs := rs + [one];
        i := i + 1;
      }
      ElemOver(t, items, pass, c, now);
      JoinOver(rs, tag, now);
    }

    /** Elements added to a cleared container: to a keyed one from one object that they all are
        read into and moved out of, to the others each in its place. */
    method DeserializeNew(shape: Shape, t: Ty, n: nat) returns (code: Code, rs: seq<Val>)
      requires Valid() && WellFormed(t)
      modifies this`now, this`missing
      ensures Valid() && DidAll(DecodeNew(shape, t, Default(t), n, Surroundings(), old(now)), code, rs)
      decreases t, 1
    {
      hide Decode, DecodeNew, HasType, WellFormed, Default, Next, Joined;
      ghost var start, before := now, missing;
      ghost var c := Surroundings();
      code, rs := Ok, [];
      var item := Default(t);
      var i := 0;
      ghost var tag := false;
      JoinNothing(DecodeNew(shape, t, item, n, c, now));
      while i < n
        invariant 0 <= i <= n && Valid() && Surroundings() == c && missing == (before || tag) && code == Ok && HasType(t, item)
        invariant Joined(rs, tag, DecodeNew(shape, t, item, n - i, c, now)) == DecodeNew(shape, t, Default(t), n, c, start)
      {
        NewGo(shape, t, item, n - i, c, now);
        ghost var h := Decode(t, item, Plain, c, now);
        JoinLost(rs, tag, h);
        var one;
        code, one := DeserializeOne(t, item, Plain);
        if code != Ok {
          if !shape.Keyed? { rs := rs + [one]; }
          return;
        }
        JoinMore(rs, tag, h, DecodeNew(shape, t, Next(shape, t, one), n - i - 1, c, now));
        tag := tag || h.missing;
        rs, item := rs + [one], Next(shape, t, one);
        i := i + 1;
      }
      NewGo(shape, t, item, 0, c, now);
      JoinOver(rs, tag, now);
    }

    /** deserialize_many */
    method DeserializeMany(skip: bool, ts: seq<Ty>, items: seq<Val>, pass: Pass) returns (code: Code, rs: seq<Val>)
      requires Valid() && AllWellFormed(ts) && HasTypes(ts, items)
      modifies this`now, this`missing
      ensures Valid() && DidAll(DecodeFields(skip, ts, items, pass, Surroundings(), old(now)), code, rs)
      decreases ts, 1
    {
      hide Decode, DecodeFields, HasType, WellFormed;
      ghost var start, before := now, missing;
      ghost var c := Surroundings();
      code, rs := Ok, [];
      var i := 0;
      assert ts[0..] == ts && items[0..] == items;
      ghost var tag := false;
      JoinNothing(DecodeFields(skip, ts, items, pass, c, now));
      while i < |ts|
        invariant 0 <= i <= |ts| && Valid() && Surroundings() == c && missing == (before || tag) && code == Ok
        invariant AllWellFormed(ts[i..]) && HasTypes(ts[i..], items[i..])
        invariant Joined(rs, tag, DecodeFields(skip, ts[i..], items[i..], pass, c, now))
                  == DecodeFields(skip, ts, items, pass, c, start)
      {
        FieldGo(skip, ts, items, pass, c, now, i);
        ghost var h := FieldOutcome(skip, ts[i], items[i], pass, c, now);
        JoinFailed(rs, tag, h, items[i + 1..]);
        var one := items[i];
        if !(skip && ts[i].Var?) {
          code, one := DeserializeOne(ts[i], items[i], pass);
          if code != Ok {
            rs := rs + ([one] + items[i + 1..]);
            return;
          }
        }
        JoinMore(rs, tag, h, DecodeFields(skip, ts[i + 1..], items[i + 1..], pass, c, now));
        tag := tag || h.missing;
        rs := rs + [one];
        i := i + 1;
      }
      FieldOver(skip, ts, items, pass, c, now);
      assert rs + [] == rs;
    }

    // ---- skip mode --------------------------------------------------------------------------------------

    /** memory_reader::ignore, with the code its callers make of it */
    method Ignore(len: nat) returns (code: Code)
      requires Valid()
      modifies this`now
      ensures Valid() && Skipped(code, now) == SkipBytes(len, Surroundings(), old(now))
    {
      if |data| - now < len {
        return NoBufferSpace;
      }
      now := now + len;
      code := Ok;
    }

    /** deserialize_one in skip mode */
    method SkipOne(t: Ty, item: Val) returns (code: Code, r: Val)
      requires Valid() && WellFormed(t) && HasType(t, item)
      modifies this`now
      ensures Valid() && SkipOutcome(code, r, now) == Skip(t, item, Surroundings(), old(now))
      decreases t, 0
    {
      hide ScanLeb, Skipping.SkipItems, Skipping.SkipContainer, Skipping.SkipStruct, SkipFields, FromLE, Collect, Default,
           HasType, WellFormed;
      code, r := Ok, item;
      TypeParts(t, item);
      match t {
        case Fixed(width) =>
          code := Ignore(width);
        case Var(_) =>
          var v;
          code, v := DeserializeVarintImpl();
        case Array(_, e) =>
          var items;
          code, items := SkipItems(e, item.items);
          r := Items(items);
        case Container(shape, e) =>
          code, r := SkipContainer(shape, e, item);
        case Optional(e, _) =>
          code, r := SkipOptional(e, item);
        case Expected(a, e) =>
          code, r := SkipExpected(a, e, item);
        case Variant(alts) =>
          code, r := SkipVariant(alts, item);
        case Struct(fast, fs) =>
          code, r := SkipStruct(fast, fs, item);
        case Compatible(_, _) =>
      }
    }

    method SkipOptional(e: Ty, item: Val) returns (code: Code, r: Val)
      requires Valid() && WellFormed(Optional(e)) && HasType(Optional(e), item)
      modifies this`now
      ensures Valid() && SkipOutcome(code, r, now) == Skip(Optional(e), item, Surroundings(), old(now))
      decreases e, 3
    {
      hide Default, Collect, HasType;
      code, r := Ok, item;
      var ok, hasValue := Read(1);
      if !ok { return NoBufferSpace, item; }
      if hasValue[0] == 0 { return; }
      var inner;
      code, inner := SkipOne(e, Default(e));
      code, r := Dropped(code), Some(inner);
    }

    method SkipExpected(a: Ty, e: Ty, item: Val) returns (code: Code, r: Val)
      requires Valid() && WellFormed(Expected(a, e)) && HasType(Expected(a, e), item)
      modifies this`now
      ensures Valid() && SkipOutcome(code, r, now) == Skip(Expected(a, e), item, Surroundings(), old(now))
      decreases Expected(a, e), -1
    {
      hide Default, Collect;
      var ok, hasValue := Read(1);
      if !ok { return NoBufferSpace, item; }
      var inner;
      if hasValue[0] == 0 {
        code, inner := SkipOne(e, Default(e));
        return Dropped(code), Alt(0, inner);
      }
      if item.index == 0 { return BadAccess, item; }
      code, inner := SkipOne(a, item.value);
      code, r := Dropped(code), Alt(1, inner);
    }

    method SkipVariant(alts: seq<Ty>, item: Val) returns (code: Code, r: Val)
      requires Valid() && WellFormed(Variant(alts)) && AllWellFormed(alts) && HasType(Variant(alts), item)
      modifies this`now
      ensures Valid() && SkipOutcome(code, r, now) == Skip(Variant(alts), item, Surroundings(), old(now))
      decreases alts, 3
    {
      hide Default, Collect;
      var ok, index := Read(1);
      if !ok { return NoBufferSpace, item; }
      if index[0] >= |alts| { return InvalidBuffer, item; }
      var inner;
      code, inner := SkipOne(alts[index[0]], Default(alts[index[0]]));
      code, r := Dropped(code), Alt(index[0], inner);
    }

    method SkipStruct(fast: bool, fs: seq<Ty>, item: Val) returns (code: Code, r: Val)
      requires Valid() && AllWellFormed(fs) && HasType(Struct(fast, fs), item)
      modifies this`now
      ensures Valid() && SkipOutcome(code, r, now) == Skipping.SkipStruct(fast, fs, item, Surroundings(), old(now))
      decreases fs, 3
    {
      hide SkipFields, SkipBlock, WellFormed;
      if fast {
        code := SkipFastVarint(fs);
        if code != Ok { return code, item; }
      }
      var items;
      code, items := SkipMany(fast, fs, item.items);
      r := Items(items);
    }

    method SkipContainer(shape: Shape, e: Ty, item: Val) returns (code: Code, r: Val)
      requires Valid() && WellFormed(e) && HasType(Container(shape, e), item)
      modifies this`now
      ensures Valid() && SkipOutcome(code, r, now) == Skipping.SkipContainer(shape, e, item, Surroundings(), old(now))
      decreases e, 3
    {
      hide FromLE, WellFormed, Default, Skipping.SkipRun;
      r := item;
      var ok, length := Read(w);
      if !ok { return NoBufferSpace, item; }
      var size := FromLE(length);
      if size == 0 { return Ok, item; }
      if e.Fixed? && !shape.List? {
        code := Ignore(size * e.width);
      } else {
        if shape.Keyed? { r := Items([]); }
        code := SkipRun(e, size);
      }
    }

    /** The elements of a container into one object, up to the first one that fails. */
    method SkipRun(t: Ty, n: nat) returns (code: Code)
      requires Valid() && WellFormed(t)
      modifies this`now
      ensures Valid() && Skipped(code, now) == Skipping.SkipRun(t, Default(t), n, Surroundings(), old(now))
      decreases t, 1
    {
      hide WellFormed, HasType, Default, Skip;
      ghost var start := now;
      ghost var c := Surroundings();
      var item := Default(t);
      var i := 0;
      while i < n
        invariant 0 <= i <= n && Valid() && Surroundings() == c && HasType(t, item)
        invariant Skipping.SkipRun(t, item, n - i, c, now) == Skipping.SkipRun(t, Default(t), n, c, start)
      {
        code, item := SkipOne(t, item);
        if code != Ok { return; }
        i := i + 1;
      }
      code := Ok;
    }

    /** The elements of an array, each into its own object. */
    method SkipItems(t: Ty, items: seq<Val>) returns (code: Code, rs: seq<Val>)
      requires Valid() && WellFormed(t) && AllHaveType(t, items)
      modifies this`now
      ensures Valid() && SkipOutcomes(code, rs, now) == Skipping.SkipItems(t, items, Surroundings(), old(now))
      decreases t, 1
    {
      hide Skip, Skipping.SkipItems, HasType, WellFormed;
      ghost var start := now;
      ghost var c := Surroundings();
      code, rs := Ok, [];
      var i := 0;
      assert items[0..] == items;
      PassNothing(Skipping.SkipItems(t, items, c, now));
      while i < |items|
        invariant 0 <= i <= |items| && Valid() && Surroundings() == c && code == Ok && AllHaveType(t, items[i..])
        invariant Passed(rs, Skipping.SkipItems(t, items[i..], c, now)) == Skipping.SkipItems(t, items, c, start)
      {
        SkipItemGo(t, items, c, now, i);
        var one;
        code, one := SkipOne(t, items[i]);
        if code != Ok {
          rs := rs + ([one] + items[i + 1..]);
          return;
        }
        PassMore(rs, one, Skipping.SkipItems(t, items[i + 1..], c, now));
        rs := rs + [one];
        i := i + 1;
      }
      SkipItemsOver(t, items, c, now);
      assert rs + [] == rs;
    }

    /** deserialize_many in skip mode */
    method SkipMany(skip: bool, ts: seq<Ty>, items: seq<Val>) returns (code: Code, rs: seq<Val>)
      requires Valid() && AllWellFormed(ts) && HasTypes(ts, items)
      modifies this`now
      ensures Valid() && SkipOutcomes(code, rs, now) == SkipFields(skip, ts, items, Surroundings(), old(now))
      decreases ts, 1
    {
      hide Skip, SkipFields, HasType, WellFormed;
      ghost var start := now;
      ghost var c := Surroundings();
      code, rs := Ok, [];
      var i := 0;
      assert ts[0..] == ts && items[0..] == items;
      PassNothing(SkipFields(skip, ts, items, c, now));
      while i < |ts|
        invariant 0 <= i <= |ts| && Valid() && Surroundings() == c && code == Ok
        invariant AllWellFormed(ts[i..]) && HasTypes(ts[i..], items[i..])
        invariant Passed(rs, SkipFields(skip, ts[i..], items[i..], c, now)) == SkipFields(skip, ts, items, c, start)
      {
        SkipFieldGo(skip, ts, items, c, now, i);
        var one := items[i];
        if !(skip && ts[i].Var?) {
          code, one := SkipOne(ts[i], items[i]);
          if code != Ok {
            rs := rs + ([one] + items[i + 1..]);
            return;
          }
        }
        PassMore(rs, one, SkipFields(skip, ts[i + 1..], items[i + 1..], c, now));
        rs := rs + [one];
        i := i + 1;
      }
      SkipFieldsOver(skip, ts, items, c, now);
      assert rs + [] == rs;
    }

    /** deserialize_fast_varint in skip mode */
    method SkipFastVarint(ts: seq<Ty>) returns (code: Code)
      requires Valid()
      modifies this`now
      ensures Valid() && Skipped(code, now) == SkipBlock(ts, Surroundings(), old(now))
    {
      hide BitAt, Has64, RealWidth, SkipWords;
      var cnt := VarCount(ts);
      var ok, vec := Read(BitmapSize(cnt));
      if !ok { return NoBufferSpace; }
      var width := (if BitAt(vec, cnt) then 1 else 0) + (if BitAt(vec, cnt + 1) then 2 else 0);
      if width == 3 && !Has64(ts) { return InvalidBuffer; }
      code := SkipFastVarintHelper(ts, vec, width);
    }

    method SkipFastVarintHelper(ts: seq<Ty>, vec: bytes, width: int) returns (code: Code)
      requires Valid() && 0 <= width <= 3 && VarCount(ts) <= 8 * |vec|
      modifies this`now
      ensures Valid() && Skipped(code, now) == SkipWords(ts, vec, 0, width, Surroundings(), old(now))
    {
      hide BitAt, RealWidth;
      ghost var start := now;
      ghost var c := Surroundings();
      var i, j := 0, 0;
      assert ts[0..] == ts;
      while j < |ts|
        invariant 0 <= j <= |ts| && Valid() && Surroundings() == c && i + VarCount(ts[j..]) <= 8 * |vec|
        invariant SkipWords(ts[j..], vec, i, width, c, now) == SkipWords(ts, vec, 0, width, c, start)
      {
        assert ts[j..][0] == ts[j] && ts[j..][1..] == ts[j + 1..];
        if ts[j].Var? {
          i := i + 1;
          if BitAt(vec, i - 1) {
            code := Ignore(RealWidth(ts[j].kind, width));
            if code != Ok { return; }
          }
        }
        j := j + 1;
      }
      code := Ok;
    }

    /** get_field: skips the fields in front, drops their codes and reads field i. */
    method GetField(conf: Conf, t: Ty, ts: seq<Ty>, i: nat) returns (code: Code, r: Val)
      requires Valid() && AllWellFormed(ts) && i < |ts| && !missing
      modifies this
      ensures Valid() && Result(code, r, now) == Skipping.GetField(conf, t, ts, i, data, old(now))
    {
      hide Decode, DecodeHead, HasType, WellFormed, WordWidth, Skip, Did, Default;
      r := Default(ts[i]);
      dataLen := now;
      var bufferLen;
      code, bufferLen := DeserializeMetainfo(conf, t);
      if code != Ok { return; }
      dataLen := dataLen + bufferLen;
      code, r := ForEach(ts, i);
    }

    /** for_each */
    method ForEach(ts: seq<Ty>, i: nat) returns (code: Code, r: Val)
      requires Valid() && AllWellFormed(ts) && i < |ts| && !missing
      modifies this`now, this`missing
      ensures Valid() && var o := ReadNth(ts, i, Surroundings(), old(now)); code == o.code && r == o.item && now == o.pos
      ensures w == old(w) && dataLen == old(dataLen)
    {
      hide Decode, HasType, WellFormed, Skip, Default;
      ghost var start := now;
      ghost var c := Surroundings();
      var j := 0;
      assert ts[0..] == ts;
      while j < i
        invariant 0 <= j <= i && Valid() && Surroundings() == c && !missing
        invariant ReadNth(ts[j..], i - j, c, now) == ReadNth(ts, i, c, start)
      {
        assert ts[j..][0] == ts[j] && ts[j..][1..] == ts[j + 1..] && ts[j..][i - j] == ts[i];
        var left;
        code, left := SkipOne(ts[j], Default(ts[j]));
        if code == BadAccess { return code, Default(ts[i]); }
        j := j + 1;
      }
      assert ts[i..][0] == ts[i];
      code, r := DeserializePlain(ts[i], Default(ts[i]));
    }

    // ---- the whole message --------------------------------------------------------------------------

    /** deserialize_metainfo; the width of a container length goes to the field. */
    method DeserializeMetainfo(conf: Conf, t: Ty) returns (code: Code, bufferLen: nat)
      requires Valid()
      modifies this`now, this`w
      ensures Valid()
      ensures var h := DecodeHead(conf, t, data, old(now));
              && code == h.code && now == h.pos
              && (if code == Ok then w == WordWidth(h.widthCode) && bufferLen == h.bufferLen else w == old(w))
    {
      hide HasContainer, FromLE, WordWidth, DecodeMetainfo;
      code, bufferLen := Ok, 0;
      var ok, bs;
      if conf.NoHead? {
        if !HasContainer(t) {
          w := WordWidth(0);
          return;
        }
        ok, bs := Read(1);
        if !ok { return NoBufferSpace, 0; }
        w := WordWidth(bs[0] / 8 % 4);
        return;
      }
      ok, bs := Read(4);
      if !ok { return NoBufferSpace, 0; }
      var typesCode := FromLE(bs);
      if typesCode / 2 != conf.hash / 2 { return InvalidBuffer, 0; }
      if typesCode % 2 == 0 {
        w := WordWidth(0);
        return;
      }
      code, bufferLen := DeserializeMoreMetainfo(conf);
    }

    /** The byte behind the hash, the total length and the type literal. */
    method DeserializeMoreMetainfo(conf: Conf) returns (code: Code, bufferLen: nat)
      requires Valid() && conf.Head?
      modifies this`now, this`w
      ensures Valid()
      ensures var h := DecodeMetainfo(conf, data, old(now));
              && code == h.code && now == h.pos
              && (if code == Ok then w == WordWidth(h.widthCode) && bufferLen == h.bufferLen else w == old(w))
    {
      hide FromLE, WordWidth;
      code, bufferLen := Ok, 0;
      var ok, bs := Read(1);
      if !ok { return NoBufferSpace, 0; }
      var metainfo := bs[0];
      var lenCode := metainfo % 4;
      ok, bs := Read(if lenCode == 0 then 0 else WordWidth(lenCode));
      if !ok { return NoBufferSpace, 0; }
      bufferLen := FromLE(bs);
      if metainfo / 4 % 2 == 1 {
        ok, bs := Read(|conf.literal| + 1);
        if !ok { return NoBufferSpace, 0; }
        if bs != conf.literal + [0] { return HashConflict, 0; }
      }
      w := WordWidth(metainfo / 8 % 4);
    }

    /** deserialize_compatibles: missing fields at the end are no error. */
    method DeserializeCompatibles(t: Ty, item: Val) returns (code: Code, r: Val)
      requires Valid() && WellFormed(t) && HasType(t, item) && HasCompatible(t) && !missing
      modifies this`now, this`missing
      ensures Valid() && HasType(t, r)
      ensures var o := DecodeVersions(t, item, VersionsOf(t), old(Surroundings()), old(now));
              code == (if o.missing then Dropped(o.code) else o.code) && r == o.item && now == o.pos
    {
      hide Decode, DecodeVersions, HasType, WellFormed, VersionsOf, Collect;
      ghost var start := now;
      ghost var c := Surroundings();
      var versions := CompatibleVersionNumbers(t);
      ghost var ns := versions[..];
      code, r := Ok, item;
      var i := 0;
      assert ns[0..] == ns;
      while i < versions.Length && code == Ok
        invariant 0 <= i <= versions.Length && versions[..] == ns && Valid() && Surroundings() == c && HasType(t, r)
        invariant var o := DecodeVersions(t, item, ns, c, start);
                  if code == Ok then
                    var n := DecodeVersions(t, r, ns[i..], c, now);
                    o == Outcome(n.code, n.item, n.pos, missing || n.missing)
                  else o == Outcome(code, r, now, missing)
        decreases versions.Length - i
      {
        VersionGo(t, r, ns, i, c, now);
        code, r := DeserializeOne(t, r, Version(versions[i]));
        i := i + 1;
      }
      if code == Ok { VersionGo(t, r, ns, i, c, now); }
      if missing { code := Dropped(code); }
    }

    /** deserialize into the given item */
    method Deserialize(conf: Conf, t: Ty, item: Val) returns (code: Code, r: Val)
      requires Valid() && WellFormed(t) && HasType(t, item) && !missing
      modifies this
      ensures Valid() && Result(code, r, now) == Message.Deserialize(conf, t, item, data, old(now))
    {
      hide DecodeBody, DecodeHead, HasType, WellFormed, WordWidth;
      r := item;
      dataLen := now;
      var bufferLen;
      code, bufferLen := DeserializeMetainfo(conf, t);
      if code != Ok { return; }
      dataLen := dataLen + bufferLen;
      code, r := DeserializeBody(t, item);
    }

    /** The passes behind the head. */
    method DeserializeBody(t: Ty, item: Val) returns (code: Code, r: Val)
      requires Valid() && WellFormed(t) && HasType(t, item) && !missing
      modifies this`now, this`missing
      ensures Valid() && Result(code, r, now) == DecodeBody(t, item, old(Surroundings()), old(now))
    {
      hide Decode, DecodeVersions, HasType, WellFormed, VersionsOf, HasCompatible, Did;
      code, r := DeserializePlain(t, item);
      if !HasCompatible(t) || code != Ok { return; }
      code, r := DeserializeCompatibles(t, r);
    }

    /** The plain pass never meets the end of the compatible fields. */
    method DeserializePlain(t: Ty, item: Val) returns (code: Code, r: Val)
      requires Valid() && WellFormed(t) && HasType(t, item) && !missing
      modifies this`now, this`missing
      ensures Valid() && HasType(t, r) && !missing
      ensures var o := Decode(t, item, Plain, Surroundings(), old(now)); code == o.code && r == o.item && now == o.pos
    {
      hide Decode, HasType, WellFormed;
      PlainNotMissing(t, item, Surroundings(), now);
      code, r := DeserializeOne(t, item, Plain);
    }
  }

  lemma {:induction false} VersionGo(t: Ty, item: Val, ns: seq<nat>, i: nat, c: Context, pos: nat)
    requires WellFormed(t) && HasType(t, item) && i <= |ns| && pos <= |c.data|
    ensures i == |ns| ==> DecodeVersions(t, item, ns[i..], c, pos) == Outcome(Ok, item, pos, false)
    ensures i < |ns| ==>
              var h := Decode(t, item, Version(ns[i]), c, pos);
              DecodeVersions(t, item, ns[i..], c, pos)
              == if h.code != Ok then h
                 else
                   var r := DecodeVersions(t, h.item, ns[i + 1..], c, h.pos);
                   Outcome(r.code, r.item, r.pos, h.missing || r.missing)
  {
    hide Decode, HasType, WellFormed;
    if i < |ns| { assert ns[i..][0] == ns[i] && ns[i..][1..] == ns[i + 1..]; }
  }

  // ---- the plain pass sets no tag -------------------------------------------------------------------------

  lemma {:induction false} PlainNotMissing(t: Ty, item: Val, c: Context, pos: nat)
    requires WellFormed(t) && HasType(t, item) && pos <= |c.data|
    ensures !Decode(t, item, Plain, c, pos).missing
    decreases t, 0
  {
    hide DecodeElems, DecodeFields, DecodeNew, DecodeVar, Default, HasType, WellFormed, ReadBlock, FromLE;
    TypeParts(t, item);
    match t
    case Fixed(_) =>
    case Var(k) => VarNotMissing(k, item, c, pos);
    case Array(_, e) => PlainElemsNotMissing(e, item.items, c, pos);
    case Container(shape, e) =>
      if pos + c.w <= |c.data| { PlainNewNotMissing(shape, e, Default(e), FromLE(c.data[pos..pos + c.w]), c, pos + c.w); }
    case Optional(e, _) => if pos < |c.data| { PlainNotMissing(e, Default(e), c, pos + 1); }
    case Expected(a, e) => PlainExpectedNotMissing(a, e, item, c, pos);
    case Variant(alts) =>
      if pos < |c.data| && c.data[pos] < |alts| { PlainNotMissing(alts[c.data[pos]], Default(alts[c.data[pos]]), c, pos + 1); }
    case Struct(fast, fs) => PlainStructNotMissing(fast, fs, item, c, pos);
    case Compatible(_, _) =>
  }

  lemma {:induction false} VarNotMissing(k: VarKind, item: Val, c: Context, pos: nat)
    requires HasType(Var(k), item) && pos <= |c.data|
    ensures !DecodeVar(k, item, c, pos).missing
  {
    hide ScanLeb;
  }

  lemma {:induction false} PlainExpectedNotMissing(a: Ty, e: Ty, item: Val, c: Context, pos: nat)
    requires WellFormed(a) && WellFormed(e) && HasType(Expected(a, e), item) && pos <= |c.data|
    ensures !DecodeExpected(a, e, item, Plain, c, pos).missing
    decreases Expected(a, e), -1
  {
    hide Decode, Default, WellFormed;
    if pos < |c.data| {
      PlainNotMissing(e, Default(e), c, pos + 1);
      if item.index == 1 { PlainNotMissing(a, item.value, c, pos + 1); }
    }
  }

  lemma {:induction false} PlainStructNotMissing(fast: bool, fs: seq<Ty>, item: Val, c: Context, pos: nat)
    requires AllWellFormed(fs) && HasType(Struct(fast, fs), item) && pos <= |c.data|
    ensures !DecodeStruct(fast, fs, item, Plain, c, pos).missing
    decreases fs, 3
  {
    hide DecodeFields, ReadBlock, WellFormed;
    if fast {
      var b := ReadBlock(fs, item.items, c.data, pos);
      PlainFieldsNotMissing(true, fs, b.items, c, b.pos);
    } else {
      PlainFieldsNotMissing(false, fs, item.items, c, pos);
    }
  }

  lemma {:induction false} PlainElemsNotMissing(t: Ty, items: seq<Val>, c: Context, pos: nat)
    requires WellFormed(t) && AllHaveType(t, items) && pos <= |c.data|
    ensures !DecodeElems(t, items, Plain, c, pos).missing
    decreases t, 1, |items|
  {
    hide Decode, HasType, WellFormed;
    if |items| > 0 {
      PlainNotMissing(t, items[0], c, pos);
      PlainElemsNotMissing(t, items[1..], c, Decode(t, items[0], Plain, c, pos).pos);
    }
  }

  lemma {:induction false} PlainNewNotMissing(shape: Shape, t: Ty, item: Val, n: nat, c: Context, pos: nat)
    requires WellFormed(t) && HasType(t, item) && pos <= |c.data|
    ensures !DecodeNew(shape, t, item, n, c, pos).missing
    decreases t, 1, n
  {
    hide Decode, HasType, WellFormed, Next;
    if n > 0 {
      var h := Decode(t, item, Plain, c, pos);
      PlainNotMissing(t, item, c, pos);
      PlainNewNotMissing(shape, t, Next(shape, t, h.item), n - 1, c, h.pos);
    }
  }

  lemma {:induction false} PlainFieldsNotMissing(skip: bool, ts: seq<Ty>, items: seq<Val>, c: Context, pos: nat)
    requires AllWellFormed(ts) && HasTypes(ts, items) && pos <= |c.data|
    ensures !DecodeFields(skip, ts, items, Plain, c, pos).missing
    decreases ts, 1
  {
    hide Decode, HasType, WellFormed;
    if |ts| > 0 {
      PlainNotMissing(ts[0], items[0], c, pos);
      PlainFieldsNotMissing(skip, ts[1..], items[1..], c, if skip && ts[0].Var? then pos else Decode(ts[0], items[0], Plain, c, pos).pos);
    }
  }

  // ---- one item after the other ---------------------------------------------------------------------------

  /** The items done, whether the tag was set, and the result for the others. */
  function Joined(done: seq<Val>, tag: bool, r: Outcomes): Outcomes {
    Outcomes(r.code, done + r.items, r.pos, tag || r.missing)
  }

  lemma {:induction false} JoinNothing(r: Outcomes)
    ensures Joined([], false, r) == r
  {
    assert [] + r.items == r.items;
  }

  lemma {:induction false} JoinMore(done: seq<Val>, tag: bool, h: Outcome, r: Outcomes)
    ensures Joined(done, tag, Outcomes(r.code, [h.item] + r.items, r.pos, h.missing || r.missing))
            == Joined(done + [h.item], tag || h.missing, r)
  {
    assert done + ([h.item] + r.items) == (done + [h.item]) + r.items;
  }

  lemma {:induction false} JoinFailed(done: seq<Val>, tag: bool, h: Outcome, others: seq<Val>)
    ensures Joined(done, tag, Outcomes(h.code, [h.item] + others, h.pos, h.missing))
            == Outcomes(h.code, done + ([h.item] + others), h.pos, tag || h.missing)
  {
  }

  lemma {:induction false} JoinOver(done: seq<Val>, tag: bool, pos: nat)
    ensures Joined(done, tag, Outcomes(Ok, [], pos, false)) == Outcomes(Ok, done, pos, tag)
  {
  }

  lemma {:induction false} JoinLost(done: seq<Val>, tag: bool, h: Outcome)
    ensures Joined(done, tag, Outcomes(h.code, [h.item], h.pos, h.missing)) == Outcomes(h.code, done + [h.item], h.pos, tag || h.missing)
    ensures Joined(done, tag, Outcomes(h.code, [], h.pos, h.missing)) == Outcomes(h.code, done, h.pos, tag || h.missing)
  {
  }

  /** The objects done and the result for the others, in skip mode. */
  function Passed(done: seq<Val>, r: SkipOutcomes): SkipOutcomes {
    SkipOutcomes(r.code, done + r.items, r.pos)
  }

  lemma {:induction false} PassNothing(r: SkipOutcomes)
    ensures Passed([], r) == r
  {
    assert [] + r.items == r.items;
  }

  lemma {:induction false} PassMore(done: seq<Val>, item: Val, r: SkipOutcomes)
    ensures Passed(done, SkipOutcomes(r.code, [item] + r.items, r.pos)) == Passed(done + [item], r)
  {
    assert done + ([item] + r.items) == (done + [item]) + r.items;
  }

  lemma {:induction false} SkipItemGo(t: Ty, items: seq<Val>, c: Context, pos: nat, i: nat)
    requires WellFormed(t) && i < |items| && AllHaveType(t, items[i..]) && pos <= |c.data|
    ensures HasType(t, items[i]) && AllHaveType(t, items[i + 1..])
    ensures var h := Skip(t, items[i], c, pos);
            SkipItems(t, items[i..], c, pos)
            == if h.code != Ok then SkipOutcomes(h.code, [h.item] + items[i + 1..], h.pos)
               else
                 var r := SkipItems(t, items[i + 1..], c, h.pos);
                 SkipOutcomes(r.code, [h.item] + r.items, r.pos)
  {
    hide Skip, HasType, WellFormed;
    assert items[i..][0] == items[i] && items[i..][1..] == items[i + 1..];
  }

  lemma {:induction false} SkipItemsOver(t: Ty, items: seq<Val>, c: Context, pos: nat)
    requires WellFormed(t) && AllHaveType(t, items[|items|..]) && pos <= |c.data|
    ensures SkipItems(t, items[|items|..], c, pos) == SkipOutcomes(Ok, [], pos)
  {
    hide Skip, HasType, WellFormed;
  }

  lemma {:induction false} SkipFieldGo(skip: bool, ts: seq<Ty>, items: seq<Val>, c: Context, pos: nat, i: nat)
    requires |items| == |ts| && i < |ts| && AllWellFormed(ts[i..]) && HasTypes(ts[i..], items[i..]) && pos <= |c.data|
    ensures WellFormed(ts[i]) && HasType(ts[i], items[i])
    ensures AllWellFormed(ts[i + 1..]) && HasTypes(ts[i + 1..], items[i + 1..])
    ensures var h := if skip && ts[i].Var? then SkipOutcome(Ok, items[i], pos) else Skip(ts[i], items[i], c, pos);
            SkipFields(skip, ts[i..], items[i..], c, pos)
            == if h.code != Ok then SkipOutcomes(h.code, [h.item] + items[i + 1..], h.pos)
               else
                 var r := SkipFields(skip, ts[i + 1..], items[i + 1..], c, h.pos);
                 SkipOutcomes(r.code, [h.item] + r.items, r.pos)
  {
    hide Skip, HasType, WellFormed;
    assert ts[i..][0] == ts[i] && ts[i..][1..] == ts[i + 1..];
    assert items[i..][0] == items[i] && items[i..][1..] == items[i + 1..];
  }

  lemma {:induction false} SkipFieldsOver(skip: bool, ts: seq<Ty>, items: seq<Val>, c: Context, pos: nat)
    requires |items| == |ts| && AllWellFormed(ts[|ts|..]) && HasTypes(ts[|ts|..], items[|ts|..]) && pos <= |c.data|
    ensures SkipFields(skip, ts[|ts|..], items[|ts|..], c, pos) == SkipOutcomes(Ok, [], pos)
  {
    hide Skip, HasType, WellFormed;
  }

  /** The parts of a typed item are typed. */
  lemma {:induction false} TypeParts(t: Ty, item: Val)
    requires WellFormed(t) && HasType(t, item)
    ensures match t
            case Fixed(_) => true
            case Var(_) => item.Num?
            case Array(_, e) => WellFormed(e) && item.Items? && AllHaveType(e, item.items)
            case Container(_, e) => WellFormed(e) && item.Items? && AllHaveType(e, item.items)
            case Optional(e, _) => WellFormed(e) && WellFormed(Optional(e)) && HasType(Optional(e), item)
            case Expected(a, e) => WellFormed(a) && WellFormed(e)
            case Variant(alts) => AllWellFormed(alts)
            case Struct(_, fs) => AllWellFormed(fs)
            case Compatible(_, e) => WellFormed(e) && HasType(Optional(e), item)
  {
  }

  lemma {:induction false} ElemGo(t: Ty, items: seq<Val>, pass: Pass, c: Context, pos: nat, i: nat)
    requires WellFormed(t) && i < |items| && AllHaveType(t, items[i..]) && pos <= |c.data|
    ensures HasType(t, items[i]) && AllHaveType(t, items[i + 1..])
    ensures var h := Decode(t, items[i], pass, c, pos);
            DecodeElems(t, items[i..], pass, c, pos)
            == if h.code != Ok then Outcomes(h.code, [h.item] + items[i + 1..], h.pos, h.missing)
               else
                 var r := DecodeElems(t, items[i + 1..], pass, c, h.pos);
                 Outcomes(r.code, [h.item] + r.items, r.pos, h.missing || r.missing)
  {
    hide Decode, HasType, WellFormed;
    assert items[i..][0] == items[i] && items[i..][1..] == items[i + 1..];
  }

  lemma {:induction false} ElemOver(t: Ty, items: seq<Val>, pass: Pass, c: Context, pos: nat)
    requires WellFormed(t) && AllHaveType(t, items[|items|..]) && pos <= |c.data|
    ensures DecodeElems(t, items[|items|..], pass, c, pos) == Outcomes(Ok, [], pos, false)
  {
    hide Decode, HasType, WellFormed;
  }

  lemma {:induction false} NewGo(shape: Shape, t: Ty, item: Val, n: nat, c: Context, pos: nat)
    requires WellFormed(t) && HasType(t, item) && pos <= |c.data|
    ensures n == 0 ==> DecodeNew(shape, t, item, n, c, pos) == Outcomes(Ok, [], pos, false)
    ensures n > 0 ==>
              var h := Decode(t, item, Plain, c, pos);
              DecodeNew(shape, t, item, n, c, pos)
              == if h.code != Ok then Outcomes(h.code, if shape.Keyed? then [] else [h.item], h.pos, h.missing)
                 else
                   var r := DecodeNew(shape, t, Next(shape, t, h.item), n - 1, c, h.pos);
                   Outcomes(r.code, [h.item] + r.items, r.pos, h.missing || r.missing)
  {
    hide Decode, HasType, WellFormed, Next;
  }

  /** What a field gives: nothing happens to the varints that the block has read. */
  function FieldOutcome(skip: bool, t: Ty, item: Val, pass: Pass, c: Context, pos: nat): Outcome
    requires WellFormed(t) && HasType(t, item) && pos <= |c.data|
  {
    if skip && t.Var? then Outcome(Ok, item, pos, false) else Decode(t, item, pass, c, pos)
  }

  lemma {:induction false} FieldGo(skip: bool, ts: seq<Ty>, items: seq<Val>, pass: Pass, c: Context, pos: nat, i: nat)
    requires |items| == |ts| && i < |ts| && AllWellFormed(ts[i..]) && HasTypes(ts[i..], items[i..]) && pos <= |c.data|
    ensures WellFormed(ts[i]) && HasType(ts[i], items[i])
    ensures AllWellFormed(ts[i + 1..]) && HasTypes(ts[i + 1..], items[i + 1..])
    ensures var h := FieldOutcome(skip, ts[i], items[i], pass, c, pos);
            DecodeFields(skip, ts[i..], items[i..], pass, c, pos)
            == if h.code != Ok then Outcomes(h.code, [h.item] + items[i + 1..], h.pos, h.missing)
               else
                 var r := DecodeFields(skip, ts[i + 1..], items[i + 1..], pass, c, h.pos);
                 Outcomes(r.code, [h.item] + r.items, r.pos, h.missing || r.missing)
  {
    hide Decode, HasType, WellFormed;
    assert ts[i..][0] == ts[i] && ts[i..][1..] == ts[i + 1..];
    assert items[i..][0] == items[i] && items[i..][1..] == items[i + 1..];
  }

  lemma {:induction false} FieldOver(skip: bool, ts: seq<Ty>, items: seq<Val>, pass: Pass, c: Context, pos: nat)
    requires |items| == |ts| && AllWellFormed(ts[|ts|..]) && HasTypes(ts[|ts|..], items[|ts|..]) && pos <= |c.data|
    ensures DecodeFields(skip, ts[|ts|..], items[|ts|..], pass, c, pos) == Outcomes(Ok, [], pos, false)
  {
    hide Decode, HasType, WellFormed;
  }

  // ---- one field after the other in the fast-varint block ---------------------------------------------

  /** The fields done and the result for the others. */
  function Continued(done: seq<Val>, r: ReadMany): ReadMany {
    ReadMany(r.code, done + r.items, r.pos)
  }

  lemma {:induction false} ContinueWith(done: seq<Val>, item: Val, r: ReadMany)
    ensures Continued(done, ReadMany(r.code, [item] + r.items, r.pos)) == Continued(done + [item], r)
  {
    assert done + ([item] + r.items) == (done + [item]) + r.items;
  }

  lemma {:induction false} FieldFails(rs: seq<Val>, items: seq<Val>, j: nat, pos: nat)
    requires j < |rs| == |items| && rs[j..] == items[j..]
    ensures Continued(rs[..j], ReadMany(NoBufferSpace, items[j..], pos)) == ReadMany(NoBufferSpace, rs, pos)
    ensures Continued(rs[..j], ReadMany(NoBufferSpace, [Num(0)] + items[j + 1..], pos)) == ReadMany(NoBufferSpace, rs[j := Num(0)], pos)
  {
    assert rs[..j] + rs[j..] == rs;
    assert rs[j..][1..] == items[j..][1..];
    assert rs[..j] + ([Num(0)] + items[j + 1..]) == rs[j := Num(0)];
  }

  lemma {:induction false} FieldPlaced(rs: seq<Val>, items: seq<Val>, j: nat)
    requires j < |rs| == |items|
    ensures rs[..j + 1] == rs[..j] + [rs[j]] && rs[j..][1..] == rs[j + 1..] && items[j..][1..] == items[j + 1..]
  {
  }

  lemma {:induction false} WordsBegin(ts: seq<Ty>, items: seq<Val>)
    requires HasTypes(ts, items)
    ensures ts[0..] == ts && items[0..] == items && |items| == |ts|
  {
    hide HasType;
  }

  /** What the block's reader does with field j. */
  lemma {:induction false} WordsGo(ts: seq<Ty>, items: seq<Val>, vec: bytes, i: nat, width: int, data: bytes, pos: nat, j: nat)
    requires |items| == |ts| && j < |ts| && HasTypes(ts[j..], items[j..]) && 0 <= width <= 3
    requires i + VarCount(ts[j..]) <= 8 * |vec|
    ensures HasTypes(ts[j + 1..], items[j + 1..])
    ensures ts[j].Var? ==> i < 8 * |vec| && i + 1 + VarCount(ts[j + 1..]) <= 8 * |vec|
    ensures !ts[j].Var? ==> i + VarCount(ts[j + 1..]) <= 8 * |vec|
    ensures var all := ReadWords(ts[j..], items[j..], vec, i, width, data, pos);
            if !ts[j].Var? then
              var r := ReadWords(ts[j + 1..], items[j + 1..], vec, i, width, data, pos);
              all == ReadMany(r.code, [items[j]] + r.items, r.pos)
            else if !BitAt(vec, i) then
              var r := ReadWords(ts[j + 1..], items[j + 1..], vec, i + 1, width, data, pos);
              all == ReadMany(r.code, [items[j]] + r.items, r.pos)
            else if pos + RealWidth(ts[j].kind, width) > |data| then
              all == ReadMany(NoBufferSpace, if ts[j].kind.Signed() then items[j..] else [Num(0)] + items[j + 1..], pos)
            else
              var next := pos + RealWidth(ts[j].kind, width);
              var r := ReadWords(ts[j + 1..], items[j + 1..], vec, i + 1, width, data, next);
              all == ReadMany(r.code, [Num(WordValue(ts[j].kind, data[pos..next]))] + r.items, r.pos)
  {
    hide BitAt, RealWidth, WordValue;
    assert ts[j..][0] == ts[j] && ts[j..][1..] == ts[j + 1..];
    assert items[j..][0] == items[j] && items[j..][1..] == items[j + 1..];
    TypesTail(ts[j..], items[j..]);
  }

  lemma {:induction false} TypesTail(ts: seq<Ty>, items: seq<Val>)
    requires HasTypes(ts, items) && |ts| > 0
    ensures HasTypes(ts[1..], items[1..])
  {
    hide HasType;
  }

  lemma {:induction false} WordsOver(ts: seq<Ty>, items: seq<Val>, vec: bytes, i: nat, width: int, data: bytes, pos: nat)
    requires |items| == |ts| && HasTypes(ts[|ts|..], items[|ts|..]) && 0 <= width <= 3 && i + VarCount(ts[|ts|..]) <= 8 * |vec|
    ensures ReadWords(ts[|ts|..], items[|ts|..], vec, i, width, data, pos) == ReadMany(Ok, [], pos)
  {
  }
}
