/** Reading one field of a struct: what stands in front of it is skipped, not read. */
module Skipping {
  import opened Bytes
  import opened Leb128
  import opened Status
  import opened Schema
  import opened FastVarint
  import opened Decoding
  import opened Message

  /** The code, what skipping leaves in the object that it works with, and the cursor. */
  datatype SkipOutcome = SkipOutcome(code: Code, item: Val, pos: nat)

  datatype SkipOutcomes = SkipOutcomes(code: Code, items: seq<Val>, pos: nat)

  datatype Skipped = Skipped(code: Code, pos: nat)

  /** deserialize_one in skip mode, in the pass over the plain fields. The object matters because
      the presence of contents is recorded in it: an expected that was skipped as an error holds
      an error from then on. */
  function Skip(t: Ty, item: Val, c: Context, pos: nat): (r: SkipOutcome)
    requires WellFormed(t) && HasType(t, item) && pos <= |c.data|
    ensures HasType(t, r.item) && pos <= r.pos <= |c.data|
    decreases t, 0
  {
    match t
    case Fixed(w) => var r := SkipBytes(w, c, pos); SkipOutcome(r.code, item, r.pos)
    case Var(_) => var r := SkipVar(c, pos); SkipOutcome(r.code, item, r.pos)
    case Array(_, e) => var r := SkipItems(e, item.items, c, pos); SkipOutcome(r.code, Items(r.items), r.pos)
    case Container(shape, e) => SkipContainer(shape, e, item, c, pos)
    case Optional(e, _) =>
      if pos >= |c.data| then SkipOutcome(NoBufferSpace, item, pos)
      else if c.data[pos] == 0 then SkipOutcome(Ok, item, pos + 1)
      else
        var r := Skip(e, Default(e), c, pos + 1);
        SkipOutcome(Dropped(r.code), Some(r.item), r.pos)
    case Expected(a, e) =>
      if pos >= |c.data| then SkipOutcome(NoBufferSpace, item, pos)
      else if c.data[pos] == 0 then
        var r := Skip(e, Default(e), c, pos + 1);
        SkipOutcome(Dropped(r.code), Alt(0, r.item), r.pos)
      else if item.index == 0 then SkipOutcome(BadAccess, item, pos + 1)
      else
        var r := Skip(a, item.value, c, pos + 1);
        SkipOutcome(Dropped(r.code), Alt(1, r.item), r.pos)
    case Variant(alts) =>
      if pos >= |c.data| then SkipOutcome(NoBufferSpace, item, pos)
      else if c.data[pos] >= |alts| then SkipOutcome(InvalidBuffer, item, pos + 1)
      else
        var r := Skip(alts[c.data[pos]], Default(alts[c.data[pos]]), c, pos + 1);
        SkipOutcome(Dropped(r.code), Alt(c.data[pos], r.item), r.pos)
    case Struct(fast, fs) => SkipStruct(fast, fs, item, c, pos)
    case Compatible(_, _) => SkipOutcome(Ok, item, pos)
  }

  /** memory_reader::ignore */
  function SkipBytes(n: nat, c: Context, pos: nat): (r: Skipped)
    requires pos <= |c.data|
    ensures pos <= r.pos <= |c.data|
  {
    if pos + n > |c.data| then Skipped(NoBufferSpace, pos) else Skipped(Ok, pos + n)
  }

  function SkipVar(c: Context, pos: nat): (r: Skipped)
    requires pos <= |c.data|
    ensures pos <= r.pos <= |c.data|
  {
    ScanStops(c.data, pos, MAX_VARINT_LENGTH);
    match ScanLeb(c.data, pos, MAX_VARINT_LENGTH)
    case Value(_, next) => Skipped(Ok, next)
    case Short => Skipped(NoBufferSpace, |c.data|)
    case Long => Skipped(InvalidBuffer, pos + MAX_VARINT_LENGTH)
  }

  /** Elements that are copied in bulk are skipped in one step, except those of a list; all others
      are skipped into one and the same object. */
  function SkipContainer(shape: Shape, e: Ty, item: Val, c: Context, pos: nat): (r: SkipOutcome)
    requires WellFormed(e) && HasType(Container(shape, e), item) && pos <= |c.data|
    ensures HasType(Container(shape, e), r.item) && pos <= r.pos <= |c.data|
    decreases e, 3
  {
    if pos + c.w > |c.data| then SkipOutcome(NoBufferSpace, item, pos)
    else
      var n := FromLE(c.data[pos..pos + c.w]);
      if n == 0 then SkipOutcome(Ok, item, pos + c.w)
      else if e.Fixed? && !shape.List? then
        var r := SkipBytes(n * e.width, c, pos + c.w);
        SkipOutcome(r.code, item, r.pos)
      else
        var r := SkipRun(e, Default(e), n, c, pos + c.w);
        SkipOutcome(r.code, if shape.Keyed? then Items([]) else item, r.pos)
  }

  function SkipRun(t: Ty, item: Val, n: nat, c: Context, pos: nat): (r: Skipped)
    requires WellFormed(t) && HasType(t, item) && pos <= |c.data|
    ensures pos <= r.pos <= |c.data|
    decreases t, 1, n
  {
    if n == 0 then Skipped(Ok, pos)
    else
      var h := Skip(t, item, c, pos);
      if h.code != Ok then Skipped(h.code, h.pos) else SkipRun(t, h.item, n - 1, c, h.pos)
  }

  /** The elements of an array, each into its own object. */
  function SkipItems(t: Ty, items: seq<Val>, c: Context, pos: nat): (r: SkipOutcomes)
    requires WellFormed(t) && AllHaveType(t, items) && pos <= |c.data|
    ensures |r.items| == |items| && AllHaveType(t, r.items) && pos <= r.pos <= |c.data|
    decreases t, 1, |items|
  {
    if |items| == 0 then SkipOutcomes(Ok, items, pos)
    else
      var h := Skip(t, items[0], c, pos);
      if h.code != Ok then SkipOutcomes(h.code, [h.item] + items[1..], h.pos)
      else
        var r := SkipItems(t, items[1..], c, h.pos);
        SkipOutcomes(r.code, [h.item] + r.items, r.pos)
  }

  function SkipStruct(fast: bool, fs: seq<Ty>, item: Val, c: Context, pos: nat): (r: SkipOutcome)
    requires AllWellFormed(fs) && HasType(Struct(fast, fs), item) && pos <= |c.data|
    ensures HasType(Struct(fast, fs), r.item) && pos <= r.pos <= |c.data|
    decreases fs, 4
  {
    var b := if fast then SkipBlock(fs, c, pos) else Skipped(Ok, pos);
    if b.code != Ok then SkipOutcome(b.code, item, b.pos)
    else
      var r := SkipFields(fast, fs, item.items, c, b.pos);
      SkipOutcome(r.code, Items(r.items), r.pos)
  }

  /** deserialize_many in skip mode */
  function SkipFields(skipVars: bool, ts: seq<Ty>, items: seq<Val>, c: Context, pos: nat): (r: SkipOutcomes)
    requires AllWellFormed(ts) && HasTypes(ts, items) && pos <= |c.data|
    ensures HasTypes(ts, r.items) && pos <= r.pos <= |c.data|
    decreases ts, 1
  {
    if |ts| == 0 then SkipOutcomes(Ok, items, pos)
    else
      var h := if skipVars && ts[0].Var? then SkipOutcome(Ok, items[0], pos) else Skip(ts[0], items[0], c, pos);
      if h.code != Ok then SkipOutcomes(h.code, [h.item] + items[1..], h.pos)
      else
        var r := SkipFields(skipVars, ts[1..], items[1..], c, h.pos);
        SkipOutcomes(r.code, [h.item] + r.items, r.pos)
  }

  /** deserialize_fast_varint in skip mode */
  function SkipBlock(ts: seq<Ty>, c: Context, pos: nat): (r: Skipped)
    requires pos <= |c.data|
    ensures pos <= r.pos <= |c.data|
  {
    var cnt := VarCount(ts);
    var size := BitmapSize(cnt);
    if pos + size > |c.data| then Skipped(NoBufferSpace, pos)
    else
      var vec := c.data[pos..pos + size];
      var code := CodeOf(vec, cnt);
      if code == 3 && !Has64(ts) then Skipped(InvalidBuffer, pos + size)
      else SkipWords(ts, vec, 0, code, c, pos + size)
  }

  function SkipWords(ts: seq<Ty>, vec: bytes, idx: nat, code: int, c: Context, pos: nat): (r: Skipped)
    requires 0 <= code <= 3 && idx + VarCount(ts) <= 8 * |vec| && pos <= |c.data|
    ensures pos <= r.pos <= |c.data|
  {
    if |ts| == 0 then Skipped(Ok, pos)
    else if !ts[0].Var? then SkipWords(ts[1..], vec, idx, code, c, pos)
    else if !BitAt(vec, idx) then SkipWords(ts[1..], vec, idx + 1, code, c, pos)
    else
      var h := SkipBytes(RealWidth(ts[0].kind, code), c, pos);
      if h.code != Ok then h else SkipWords(ts[1..], vec, idx + 1, code, c, h.pos)
  }

  // ---- reading one field ----------------------------------------------------------------------------------

  /** for_each: skip the fields in front, whatever their codes, and read field i. An exception
      ends it. The types are those the fields have outside their struct. */
  function ReadNth(ts: seq<Ty>, i: nat, c: Context, pos: nat): (r: Outcome)
    requires AllWellFormed(ts) && i < |ts| && pos <= |c.data|
    ensures HasType(ts[i], r.item) && pos <= r.pos <= |c.data|
  {
    if i == 0 then Decode(ts[0], Default(ts[0]), Plain, c, pos)
    else
      var h := Skip(ts[0], Default(ts[0]), c, pos);
      if h.code == BadAccess then Outcome(BadAccess, Default(ts[i]), h.pos, false) else ReadNth(ts[1..], i - 1, c, h.pos)
  }

  /** get_field on a struct t without compatible fields, whose fields are seen as ts */
  function GetField(conf: Conf, t: Ty, ts: seq<Ty>, i: nat, data: bytes, pos: nat): (r: Result)
    requires AllWellFormed(ts) && i < |ts| && pos <= |data|
    ensures HasType(ts[i], r.item) && pos <= r.pos <= |data|
  {
    var h := DecodeHead(conf, t, data, pos);
    if h.code != Ok then Result(h.code, Default(ts[i]), h.pos)
    else
      var r := ReadNth(ts, i, Context(data, WordWidth(h.widthCode), pos + h.bufferLen), h.pos);
      Result(r.code, r.item, r.pos)
  }
}
