/** What the unpacker makes of a buffer: in every pass it fills the object in place, in the
    error cases too. */
module Decoding {
  import opened Bytes
  import opened Leb128
  import opened Status
  import opened Schema
  import opened FastVarint

  /** The reader's surroundings: the buffer, the width of a container length and data_len_,
      the position where the serialised value ends as far as its length was stored. */
  datatype Context = Context(data: bytes, w: nat, dataLen: nat)

  /** The code, the object afterwards, the cursor, and whether the buffer turned out to hold
      no more compatible fields (the tag UCHAR_MAX in size_type_). */
  datatype Outcome = Outcome(code: Code, item: Val, pos: nat, missing: bool)

  datatype Outcomes = Outcomes(code: Code, items: seq<Val>, pos: nat, missing: bool)

  /** deserialize_one with NotSkip. The codes of what an optional, a variant, an expected or
      a compatible field holds are dropped, as the library drops them; an exception is not. */
  function Decode(t: Ty, item: Val, pass: Pass, c: Context, pos: nat): (r: Outcome)
    requires WellFormed(t) && HasType(t, item) && pos <= |c.data|
    ensures HasType(t, r.item)
    ensures pos <= r.pos <= |c.data|
    decreases t, 0
  {
    if pass.Version? && !HasVersion(t, pass.n) then Outcome(Ok, item, pos, false)
    else
      match t
      case Fixed(w) =>
        if pass.Plain? then
          if pos + w > |c.data| then Outcome(NoBufferSpace, item, pos, false)
          else Outcome(Ok, Blob(c.data[pos..pos + w]), pos + w, false)
        else Outcome(Ok, item, pos, false)
      case Var(k) => if pass.Plain? then DecodeVar(k, item, c, pos) else Outcome(Ok, item, pos, false)
      case Array(_, e) =>
        var r := DecodeElems(e, item.items, pass, c, pos);
        Outcome(r.code, Items(r.items), r.pos, r.missing)
      case Container(shape, e) =>
        if pass.Plain? then DecodeContainer(shape, e, item, c, pos)
        else
          var r := DecodeElems(e, item.items, pass, c, pos);
          Outcome(r.code, Items(r.items), r.pos, r.missing)
      case Optional(e, _) => DecodeOptional(e, item, pass, c, pos)
      case Expected(a, e) => DecodeExpected(a, e, item, pass, c, pos)
      case Variant(alts) => DecodeVariant(alts, item, pass, c, pos)
      case Struct(fast, fs) => DecodeStruct(fast, fs, item, pass, c, pos)
      case Compatible(n, e) =>
        if pass != Version(n) then Outcome(Ok, item, pos, false)
        else if pos >= c.dataLen then Outcome(NoBufferSpace, item, pos, true)
        else DecodeOptional(e, item, Plain, c, pos)
  }

  function DecodeOptional(e: Ty, item: Val, pass: Pass, c: Context, pos: nat): (r: Outcome)
    requires WellFormed(e) && HasType(Optional(e), item) && pos <= |c.data|
    ensures HasType(Optional(e), r.item)
    ensures pos <= r.pos <= |c.data|
    decreases e, 4
  {
    if pass.Plain? then
      if pos >= |c.data| then Outcome(NoBufferSpace, item, pos, false)
      else if c.data[pos] == 0 then Outcome(Ok, item, pos + 1, false)
      else
        var r := Decode(e, Default(e), pass, c, pos + 1);
        Outcome(Dropped(r.code), Some(r.item), r.pos, r.missing)
    else if item.Null? then Outcome(Ok, item, pos, false)
    else
      var r := Decode(e, item.value, pass, c, pos);
      Outcome(Dropped(r.code), Some(r.item), r.pos, r.missing)
  }

  function DecodeExpected(a: Ty, e: Ty, item: Val, pass: Pass, c: Context, pos: nat): (r: Outcome)
    requires WellFormed(a) && WellFormed(e) && HasType(Expected(a, e), item) && pos <= |c.data|
    ensures HasType(Expected(a, e), r.item)
    ensures pos <= r.pos <= |c.data|
    decreases Expected(a, e), -1
  {
    if pass.Plain? then
      if pos >= |c.data| then Outcome(NoBufferSpace, item, pos, false)
      else if c.data[pos] == 0 then
        var r := Decode(e, Default(e), pass, c, pos + 1);
        Outcome(Dropped(r.code), Alt(0, r.item), r.pos, r.missing)
      else if item.index == 0 then Outcome(BadAccess, item, pos + 1, false)
      else
        var r := Decode(a, item.value, pass, c, pos + 1);
        Outcome(Dropped(r.code), Alt(1, r.item), r.pos, r.missing)
    else
      var r := Decode(if item.index == 1 then a else e, item.value, pass, c, pos);
      Outcome(Dropped(r.code), Alt(item.index, r.item), r.pos, r.missing)
  }

  function DecodeVariant(alts: seq<Ty>, item: Val, pass: Pass, c: Context, pos: nat): (r: Outcome)
    requires AllWellFormed(alts) && HasType(Variant(alts), item) && pos <= |c.data|
    ensures HasType(Variant(alts), r.item)
    ensures pos <= r.pos <= |c.data|
    decreases alts, 4
  {
    if pass.Plain? then
      if pos >= |c.data| then Outcome(NoBufferSpace, item, pos, false)
      else if c.data[pos] >= |alts| then Outcome(InvalidBuffer, item, pos + 1, false)
      else
        var r := Decode(alts[c.data[pos]], Default(alts[c.data[pos]]), pass, c, pos + 1);
        Outcome(Dropped(r.code), Alt(c.data[pos], r.item), r.pos, r.missing)
    else
      var r := Decode(alts[item.index], item.value, pass, c, pos);
      Outcome(Dropped(r.code), Alt(item.index, r.item), r.pos, r.missing)
  }

  function DecodeStruct(fast: bool, fs: seq<Ty>, item: Val, pass: Pass, c: Context, pos: nat): (r: Outcome)
    requires AllWellFormed(fs) && HasType(Struct(fast, fs), item) && pos <= |c.data|
    ensures HasType(Struct(fast, fs), r.item)
    ensures pos <= r.pos <= |c.data|
    decreases fs, 4
  {
    if pass.Plain? && fast then
      var b := ReadBlock(fs, item.items, c.data, pos);
      if b.code != Ok then Outcome(b.code, Items(b.items), b.pos, false)
      else
        var r := DecodeFields(true, fs, b.items, pass, c, b.pos);
        Outcome(r.code, Items(r.items), r.pos, r.missing)
    else
      var r := DecodeFields(false, fs, item.items, pass, c, pos);
      Outcome(r.code, Items(r.items), r.pos, r.missing)
  }

  /** deserialize_varint */
  function DecodeVar(k: VarKind, item: Val, c: Context, pos: nat): (r: Outcome)
    requires HasType(Var(k), item) && pos <= |c.data|
    ensures HasType(Var(k), r.item)
    ensures pos <= r.pos <= |c.data|
  {
    ScanStops(c.data, pos, MAX_VARINT_LENGTH);
    match ScanLeb(c.data, pos, MAX_VARINT_LENGTH)
    case Value(u, next) =>
      UnwireHolds(k, u % TWO_64);
      Outcome(Ok, Num(k.Unwire(u % TWO_64)), next, false)
    case Short => Outcome(NoBufferSpace, item, |c.data|, false)
    case Long => Outcome(InvalidBuffer, item, pos + MAX_VARINT_LENGTH, false)
  }

  lemma {:induction false} ScanStops(data: bytes, pos: nat, room: nat)
    requires pos <= |data|
    ensures ScanLeb(data, pos, room).Long? ==> pos + room <= |data|
    decreases room
  {
    if room > 0 && pos < |data| { ScanStops(data, pos + 1, room - 1); }
  }

  function DecodeContainer(shape: Shape, e: Ty, item: Val, c: Context, pos: nat): (r: Outcome)
    requires WellFormed(e) && HasType(Container(shape, e), item) && pos <= |c.data|
    ensures HasType(Container(shape, e), r.item)
    ensures pos <= r.pos <= |c.data|
    decreases e, 4
  {
    if pos + c.w > |c.data| then Outcome(NoBufferSpace, item, pos, false)
    else
      var n := FromLE(c.data[pos..pos + c.w]);
      if n == 0 then Outcome(Ok, item, pos + c.w, false)
      else if shape.Contiguous? && e.Fixed? && pos + c.w + n * e.width > |c.data| then
        Outcome(NoBufferSpace, item, pos + c.w, false)
      else
        var r := DecodeNew(shape, e, Default(e), n, c, pos + c.w);
        Outcome(r.code, Items(r.items), r.pos, r.missing)
  }

  /** Elements that are there already. */
  function DecodeElems(t: Ty, items: seq<Val>, pass: Pass, c: Context, pos: nat): (r: Outcomes)
    requires WellFormed(t) && AllHaveType(t, items) && pos <= |c.data|
    ensures |r.items| == |items| && AllHaveType(t, r.items)
    ensures pos <= r.pos <= |c.data|
    decreases t, 1, |items|
  {
    if |items| == 0 then Outcomes(Ok, items, pos, false)
    else
      var h := Decode(t, items[0], pass, c, pos);
      if h.code != Ok then Outcomes(h.code, [h.item] + items[1..], h.pos, h.missing)
      else
        var r := DecodeElems(t, items[1..], pass, c, h.pos);
        Outcomes(r.code, [h.item] + r.items, r.pos, h.missing || r.missing)
  }

  /** The object that the next element is read into: a new one, or in a keyed container the
      one that the last element has been moved out of. */
  function Next(shape: Shape, t: Ty, item: Val): (r: Val)
    requires WellFormed(t) && HasType(t, item)
    ensures HasType(t, r)
  {
    if shape.Keyed? then Moved(t, item) else Default(t)
  }

  /** Elements added to a cleared container, the first one read into the given object. An element
      that fails ends the reading; it is in the container unless that is a keyed one. */
  function DecodeNew(shape: Shape, t: Ty, item: Val, n: nat, c: Context, pos: nat): (r: Outcomes)
    requires WellFormed(t) && HasType(t, item) && pos <= |c.data|
    ensures AllHaveType(t, r.items)
    ensures pos <= r.pos <= |c.data|
    decreases t, 1, n
  {
    if n == 0 then Outcomes(Ok, [], pos, false)
    else
      var h := Decode(t, item, Plain, c, pos);
      if h.code != Ok then Outcomes(h.code, if shape.Keyed? then [] else [h.item], h.pos, h.missing)
      else
        var r := DecodeNew(shape, t, Next(shape, t, h.item), n - 1, c, h.pos);
        Outcomes(r.code, [h.item] + r.items, r.pos, h.missing || r.missing)
  }

  /** deserialize_many */
  function DecodeFields(skipVars: bool, ts: seq<Ty>, items: seq<Val>, pass: Pass, c: Context, pos: nat): (r: Outcomes)
    requires AllWellFormed(ts) && HasTypes(ts, items) && pos <= |c.data|
    ensures HasTypes(ts, r.items)
    ensures pos <= r.pos <= |c.data|
    decreases ts, 1
  {
    if |ts| == 0 then Outcomes(Ok, items, pos, false)
    else
      var h := if skipVars && ts[0].Var? then Outcome(Ok, items[0], pos, false)
               else Decode(ts[0], items[0], pass, c, pos);
      if h.code != Ok then Outcomes(h.code, [h.item] + items[1..], h.pos, h.missing)
      else
        var r := DecodeFields(skipVars, ts[1..], items[1..], pass, c, h.pos);
        Outcomes(r.code, [h.item] + r.items, r.pos, h.missing || r.missing)
  }
}
