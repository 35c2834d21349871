/** The protobuf wire primitives of struct_pb: base-128 varints and unknown fields. */
module Protobuf {
  import opened Bits
  import opened Bytes
  import opened Leb128

  // ---- varints --------------------------------------------------------------------------------

  /** decode_varint: one byte; at least ten bytes ahead; fewer. */
  method DecodeVarint(data: bytes, start: nat) returns (r: Decoded)
    requires start <= |data|
    ensures IsDecoded(data, start, r)
  {
    PrefixStart(data, start);
    if start < |data| && data[start] < 128 {
      ShortNumber(data, start, 0, 0);
      assert OrGroup(0, data[start], 0) == data[start] by { OneByte(data[start]); }
      r := Decoded(true, start + 1, data[start]);
    } else if |data| - start >= MAX_VARINT_LENGTH {
      r := DecodeUnrolled(data, start);
    } else {
      r := DecodeLoop(data, start);
    }
  }

  lemma {:induction false} OneByte(b: byte)
    ensures OrGroup(0, b, 0) == b
  {
    OrZeroLeft(b);
  }

  /** The loop over the last bytes of a buffer. */
  method DecodeLoop(data: bytes, start: nat) returns (r: Decoded)
    requires start <= |data| < start + MAX_VARINT_LENGTH
    ensures IsDecoded(data, start, r)
  {
    hide ScanLeb, Pow128, OrGroup, Prefix, IsDecoded;
    var pos, shift, val := start, 0, 0;
    PrefixStart(data, start);
    while pos != |data| && data[pos] >= 128
      invariant start <= pos <= |data| && shift == 7 * (pos - start)
      invariant Prefix(data, start, pos - start, val)
    {
      PrefixMore(data, start, pos - start, val);
      val := OrGroup(val, data[pos] % 128, shift / 7);
      pos, shift := pos + 1, shift + 7;
    }
    if pos == |data| {
      CutOff(data, start, pos - start, val);
      return Decoded(false, pos, 0);
    }
    ShortNumber(data, start, pos - start, val);
    val := OrGroup(val, data[pos], shift / 7);
    r := Decoded(true, pos + 1, val);
  }

  /** The ten unrolled steps. */
  method DecodeUnrolled(data: bytes, start: nat) returns (r: Decoded)
    requires start + MAX_VARINT_LENGTH <= |data|
    ensures IsDecoded(data, start, r)
  {
    hide ScanLeb, Pow128, OrGroup, Prefix, IsDecoded;
    PrefixStart(data, start);
    var val := OrGroup(0, data[start] % 128, 0);
    if data[start] < 128 { ShortNumber(data, start, 0, 0); return Decoded(true, start + 1, val); }
    PrefixMore(data, start, 0, 0);
    var val1 := OrGroup(val, data[start + 1] % 128, 1);
    if data[start + 1] < 128 { ShortNumber(data, start, 1, val); return Decoded(true, start + 2, val1); }
    PrefixMore(data, start, 1, val);
    var val2 := OrGroup(val1, data[start + 2] % 128, 2);
    if data[start + 2] < 128 { ShortNumber(data, start, 2, val1); return Decoded(true, start + 3, val2); }
    PrefixMore(data, start, 2, val1);
    var val3 := OrGroup(val2, data[start + 3] % 128, 3);
    if data[start + 3] < 128 { ShortNumber(data, start, 3, val2); return Decoded(true, start + 4, val3); }
    PrefixMore(data, start, 3, val2);
    var val4 := OrGroup(val3, data[start + 4] % 128, 4);
    if data[start + 4] < 128 { ShortNumber(data, start, 4, val3); return Decoded(true, start + 5, val4); }
    PrefixMore(data, start, 4, val3);
    var val5 := OrGroup(val4, data[start + 5] % 128, 5);
    if data[start + 5] < 128 { ShortNumber(data, start, 5, val4); return Decoded(true, start + 6, val5); }
    PrefixMore(data, start, 5, val4);
    var val6 := OrGroup(val5, data[start + 6] % 128, 6);
    if data[start + 6] < 128 { ShortNumber(data, start, 6, val5); return Decoded(true, start + 7, val6); }
    PrefixMore(data, start, 6, val5);
    var val7 := OrGroup(val6, data[start + 7] % 128, 7);
    if data[start + 7] < 128 { ShortNumber(data, start, 7, val6); return Decoded(true, start + 8, val7); }
    PrefixMore(data, start, 7, val6);
    var val8 := OrGroup(val7, data[start + 8] % 128, 8);
    if data[start + 8] < 128 { ShortNumber(data, start, 8, val7); return Decoded(true, start + 9, val8); }
    PrefixMore(data, start, 8, val7);
    if data[start + 9] < 128 {
      TenthByte(data, start, val8);
      return Decoded(true, start + 10, OrGroup(val8, data[start + 9] % 2, 9));
    }
    PrefixMore(data, start, 9, val8);
    NoLastByte(data, start, OrGroup(val8, data[start + 9] % 128, 9), Decoded(false, start + 10, 0));
    return Decoded(false, start + 10, 0);
  }

  /** Nothing but data[at..end] may have changed. */
  twostate predicate Untouched(data: array<byte>, at: nat, end: nat)
    reads data
  {
    at <= end <= data.Length
    && forall k | 0 <= k < data.Length && !(at <= k < end) :: data[k] == old(data[k])
  }

  /** serialize_varint; the caller provides room. */
  method SerializeVarint(data: array<byte>, at: nat, v: nat) returns (end: nat)
    requires at + |Leb(v)| <= data.Length
    modifies data
    ensures end == at + |Leb(v)| && Untouched(data, at, end)
    ensures data[at..end] == Leb(v)
  {
    hide Or, Two, Leb;
    var rest: nat := v;
    end := at;
    while rest >= 128
      invariant at <= end && end + |Leb(rest)| == at + |Leb(v)|
      invariant Untouched(data, at, end)
      invariant data[at..end] + Leb(rest) == Leb(v)
      decreases rest
    {
      TopBit(rest);
      LebSteps(rest);
      ghost var written := data[at..end];
      data[end] := Or(rest, 0x80) % 256;
      end := end + 1;
      assert data[at..end] == written + [rest % 128 + 128];
      Regroup(written, [rest % 128 + 128], Leb(rest / 128));
      rest := rest / 128;
    }
    LebSteps(rest);
    ghost var written := data[at..end];
    data[end] := rest;
    end := end + 1;
    assert data[at..end] == written + [rest];
  }

  /** Every 64-bit number comes back from its varint, whatever follows. */
  lemma {:induction false} VarintRoundTrip(data: bytes, start: nat, v: nat)
    requires v < TWO_64 && At(data, start, Leb(v))
    ensures |Leb(v)| <= MAX_VARINT_LENGTH
    ensures forall r :: IsDecoded(data, start, r) <==> r == Decoded(true, start + |Leb(v)|, v)
  {
    hide Leb, ScanLeb, Pow128, At;
    Pow128Ten();
    LebFits(v, MAX_VARINT_LENGTH);
    ScanOfLeb(data, start, v, MAX_VARINT_LENGTH);
  }

  // ---- unknown fields -------------------------------------------------------------------------------

  /** UnknownFields::Field: `len` bytes of the buffer from `start` on. */
  datatype Field = Field(data: bytes, start: nat, len: nat) {
    ghost predicate Inside() { start + len <= |data| }

    ghost function Content(): bytes
      requires Inside()
    {
      data[start..start + len]
    }
  }

  ghost predicate AllInside(fields: seq<Field>) {
    forall i | 0 <= i < |fields| :: fields[i].Inside()
  }

  ghost function Contents(fields: seq<Field>): bytes
    requires AllInside(fields)
  {
    if |fields| == 0 then [] else Contents(fields[..|fields| - 1]) + fields[|fields| - 1].Content()
  }

  class UnknownFields {
    var fields: seq<Field>

    constructor ()
      ensures fields == []
    {
      fields := [];
    }

    method AddField(data: bytes, start: nat, end: int)
      requires 0 <= end < TWO_64 && start < TWO_64
      modifies this
      ensures fields == old(fields) + [Field(data, start, (end - start) % TWO_64)]
    {
      fields := fields + [Field(data, start, (end - start) % TWO_64)];
    }

    method TotalSize() returns (total: nat)
      requires AllInside(fields)
      ensures total == |Contents(fields)|
    {
      total := 0;
      var i := 0;
      while i < |fields|
        invariant 0 <= i <= |fields|
        invariant total == |Contents(fields[..i])|
      {
        assert fields[..i + 1][..i] == fields[..i];
        total := total + fields[i].len;
        i := i + 1;
      }
      assert fields[..i] == fields;
    }

    method SerializeTo(out: array<byte>, at: nat) returns (end: nat)
      requires AllInside(fields) && at + |Contents(fields)| <= out.Length
      modifies out
      ensures Untouched(out, at, end)
      ensures out[at..end] == Contents(fields)
    {
      end := at;
      var i := 0;
      while i < |fields|
        invariant 0 <= i <= |fields| && at <= end && end - at == |Contents(fields[..i])|
        invariant Untouched(out, at, end)
        invariant out[at..end] == Contents(fields[..i])
      {
        assert fields[..i + 1][..i] == fields[..i];
        ContentsGrow(fields, i + 1);
        CopyField(out, at, end, fields[i]);
        end := end + fields[i].len;
        i := i + 1;
      }
      assert fields[..i] == fields;
    }
  }

  /** memcpy of one field behind what stands from `at` to `end` already. */
  method CopyField(out: array<byte>, ghost at: nat, end: nat, f: Field)
    requires f.Inside() && at <= end && end + f.len <= out.Length
    modifies out
    ensures Untouched(out, end, end + f.len)
    ensures out[at..end + f.len] == old(out[at..end]) + f.Content()
  {
    forall k | 0 <= k < f.len {
      out[end + k] := f.data[f.start + k];
    }
  }

  lemma {:induction false} ContentsGrow(fields: seq<Field>, i: nat)
    requires AllInside(fields) && i <= |fields|
    ensures |Contents(fields[..i])| <= |Contents(fields)|
    decreases |fields| - i
  {
    if i < |fields| {
      assert fields[..i + 1][..i] == fields[..i];
      ContentsGrow(fields, i + 1);
    } else {
      assert fields[..i] == fields;
    }
  }

  datatype Option<T> = None | Some(value: T)

  /** Where the payload of a field ends: the four cases of deserialize_unknown, positions
      taken modulo 2^64. A wire type that is none of them ends where it begins. */
  function PayloadEnd(data: bytes, pos: nat, wire: nat): Option<nat>
    requires pos <= |data|
  {
    if wire == 0 then
      match ScanLeb(data, pos, MAX_VARINT_LENGTH)
      case Value(_, next) => Some(next)
      case _ => None
    else if wire == 1 then (if pos + 8 > |data| then None else Some(pos + 8))
    else if wire == 2 then
      match ScanLeb(data, pos, MAX_VARINT_LENGTH)
      case Value(t, next) => if (next + t % TWO_64) % TWO_64 > |data| then None else Some((next + t % TWO_64) % TWO_64)
      case _ => None
    else if wire == 5 then (if pos + 4 > |data| then None else Some(pos + 4))
    else Some(pos)
  }

  /** The length test of wire type 2 is exact unless the addition overflows. */
  lemma {:induction false} LengthTest(data: bytes, next: nat, len: nat)
    requires next <= |data| < TWO_63 && len < TWO_64
    ensures (next + len) % TWO_64 <= |data| <==> next + len <= |data| || next + len >= TWO_64
  {
    if next + len < TWO_64 {
      assert (next + len) % TWO_64 == next + len;
    } else {
      assert (next + len) % TWO_64 == next + len - TWO_64;
    }
  }

  predicate KnownWire(wire: nat) {
    wire == 0 || wire == 1 || wire == 2 || wire == 5
  }

  /** deserialize_unknown: pos stands behind the tag. */
  method DeserializeUnknown(data: bytes, pos: nat, tag: nat, unknown: UnknownFields) returns (ok: bool, next: nat)
    requires pos <= |data| < TWO_63 && tag < TWO_32
    modifies unknown
    ensures ok <==> tag / 8 != 0 && PayloadEnd(data, pos, tag % 8).Some?
    ensures ok ==> next == PayloadEnd(data, pos, tag % 8).value
    ensures tag / 8 != 0 && !KnownWire(tag % 8) ==> ok && next == pos
    ensures if ok && KnownWire(tag % 8)
            then var start := (pos - |Leb(tag)|) % TWO_64;
                 unknown.fields == old(unknown.fields) + [Field(data, start, (next - start) % TWO_64)]
            else unknown.fields == old(unknown.fields)
  {
    hide ScanLeb, Leb;
    ok, next := false, pos;
    var fieldNumber := tag / 8;
    if fieldNumber == 0 {
      return;
    }
    var offset := CalculateVarintSize(tag);
    var start := (pos - offset) % TWO_64;
    var wireType := tag % 8;
    if wireType == 0 {
      var r := DecodeVarint(data, pos);
      if !r.ok { return; }
      next := r.pos;
      unknown.AddField(data, start, next);
    } else if wireType == 1 {
      if pos + 8 > |data| { return; }
      next := pos + 8;
      unknown.AddField(data, start, next);
    } else if wireType == 2 {
      var r := DecodeVarint(data, pos);
      if !r.ok { return; }
      if (r.pos + r.v) % TWO_64 > |data| { return; }
      next := (r.pos + r.v) % TWO_64;
      unknown.AddField(data, start, next);
    } else if wireType == 5 {
      if pos + 4 > |data| { return; }
      next := pos + 4;
      unknown.AddField(data, start, next);
    }
    ok := true;
  }

  // ---- unknown fields survive ---------------------------------------------------------------------

  /** A well-formed field: its number and the bytes behind the tag. */
  datatype Piece = Piece(number: nat, payload: Payload)

  datatype Payload =
    | Varint(code: bytes)
    | Fixed64(word: bytes)
    | Block(code: bytes, content: bytes)
    | Fixed32(word: bytes)

  /** A base-128 number, not necessarily the shortest one, and nothing behind it. */
  ghost predicate IsVarint(code: bytes, v: nat) {
    exists t: nat :: ScanLeb(code, 0, MAX_VARINT_LENGTH) == Value(t, |code|) && t % TWO_64 == v
  }

  ghost predicate IsPiece(p: Piece) {
    && 0 < p.number < 0x2000_0000
    && match p.payload
       case Varint(code) => exists v :: IsVarint(code, v)
       case Fixed64(word) => |word| == 8
       case Block(code, content) => IsVarint(code, |content|)
       case Fixed32(word) => |word| == 4
  }

  function WireType(p: Payload): nat {
    match p
    case Varint(_) => 0
    case Fixed64(_) => 1
    case Block(_, _) => 2
    case Fixed32(_) => 5
  }

  function Tag(p: Piece): nat { 8 * p.number + WireType(p.payload) }

  function PayloadBytes(p: Payload): bytes {
    match p
    case Varint(code) => code
    case Fixed64(word) => word
    case Block(code, content) => code + content
    case Fixed32(word) => word
  }

  function PieceBytes(p: Piece): bytes { Leb(Tag(p)) + PayloadBytes(p.payload) }

  function AllBytes(ps: seq<Piece>): bytes {
    if |ps| == 0 then [] else PieceBytes(ps[0]) + AllBytes(ps[1..])
  }

  /** A number is read the same wherever it stands. */
  lemma {:induction false} ScanAnywhere(data: bytes, pos: nat, code: bytes, k: nat, room: nat)
    requires At(data, pos, code) && k <= |code| && ScanLeb(code, k, room).Value?
    ensures ScanLeb(data, pos + k, room)
            == Value(ScanLeb(code, k, room).total, pos + ScanLeb(code, k, room).next)
    decreases room
  {
    assert k < |code| && data[pos + k] == data[pos..pos + |code|][k];
    if code[k] >= 128 { ScanAnywhere(data, pos, code, k + 1, room - 1); }
  }

  lemma {:induction false} VarintEnds(data: bytes, pos: nat, code: bytes, v: nat)
    requires At(data, pos, code) && IsVarint(code, v)
    ensures ScanLeb(data, pos, MAX_VARINT_LENGTH).Value?
    ensures ScanLeb(data, pos, MAX_VARINT_LENGTH).next == pos + |code|
    ensures ScanLeb(data, pos, MAX_VARINT_LENGTH).total % TWO_64 == v
  {
    hide ScanLeb;
    ScanAnywhere(data, pos, code, 0, MAX_VARINT_LENGTH);
  }

  lemma {:induction false} PayloadEnds(data: bytes, pos: nat, p: Piece)
    requires |data| < TWO_63 && IsPiece(p) && At(data, pos, PayloadBytes(p.payload))
    ensures PayloadEnd(data, pos, WireType(p.payload)) == Some(pos + |PayloadBytes(p.payload)|)
  {
    hide ScanLeb, IsVarint, At;
    match p.payload
    case Varint(code) =>
      var v :| IsVarint(code, v);
      VarintEnds(data, pos, code, v);
    case Block(code, content) =>
      AtConcat(data, pos, code, content);
      VarintEnds(data, pos, code, |content|);
    case _ =>
  }

  lemma {:induction false} CutScan(data: bytes, pos: nat, code: bytes, k: nat, room: nat)
    requires CutAt(data, pos, code) && k <= |code| && pos + k <= |data|
    requires ScanLeb(code, k, room).Value? && ScanLeb(code, k, room).next == |code|
    ensures ScanLeb(data, pos + k, room).Short?
    decreases room
  {
    if pos + k < |data| {
      assert data[pos + k] == data[pos..][k] == code[k];
      CutScan(data, pos, code, k + 1, room - 1);
    }
  }

  lemma {:induction false} CutVarint(data: bytes, pos: nat, code: bytes, v: nat)
    requires CutAt(data, pos, code) && IsVarint(code, v)
    ensures ScanLeb(data, pos, MAX_VARINT_LENGTH).Short?
  {
    hide ScanLeb;
    CutScan(data, pos, code, 0, MAX_VARINT_LENGTH);
  }

  /** A payload that is cut off anywhere has no end, whatever its wire type. */
  lemma {:induction false} CutPayload(data: bytes, pos: nat, p: Piece)
    requires |data| < TWO_63 && |PayloadBytes(p.payload)| < TWO_63 && IsPiece(p) && CutAt(data, pos, PayloadBytes(p.payload))
    ensures PayloadEnd(data, pos, WireType(p.payload)) == None
  {
    hide ScanLeb, IsVarint, CutAt;
    CutShort(data, pos, PayloadBytes(p.payload));
    match p.payload
    case Varint(code) =>
      var v :| IsVarint(code, v);
      CutVarint(data, pos, code, v);
    case Block(code, content) =>
      CutConcat(data, pos, code, content);
      if CutAt(data, pos, code) { CutVarint(data, pos, code, |content|); } else { VarintEnds(data, pos, code, |content|); }
    case _ =>
  }

  lemma {:induction false} CutShort(data: bytes, pos: nat, bs: bytes)
    requires CutAt(data, pos, bs)
    ensures pos <= |data| < pos + |bs|
  {
  }

  /** An unknown field whose payload is cut off is refused, and nothing of it is kept. */
  method RefuseCut(data: bytes, pos: nat, unknown: UnknownFields, ghost p: Piece) returns (ok: bool)
    requires |data| < TWO_63 && |PayloadBytes(p.payload)| < TWO_63 && IsPiece(p)
    requires At(data, pos, Leb(Tag(p))) && CutAt(data, pos + |Leb(Tag(p))|, PayloadBytes(p.payload))
    modifies unknown
    ensures !ok && unknown.fields == old(unknown.fields)
  {
    hide ScanLeb, Leb, At, CutAt, PayloadEnd, IsDecoded, PayloadBytes, IsPiece, Tag, WireType;
    TagParts(p);
    VarintRoundTrip(data, pos, Tag(p));
    var tag := DecodeVarint(data, pos);
    assert tag == Decoded(true, pos + |Leb(Tag(p))|, Tag(p));
    CutPayload(data, tag.pos, p);
    var next;
    ok, next := DeserializeUnknown(data, tag.pos, tag.v % TWO_32, unknown);
  }

  /** One unknown field is kept byte for byte. */
  method KeepOne(data: bytes, pos: nat, unknown: UnknownFields, ghost p: Piece) returns (ok: bool, next: nat)
    requires |data| < TWO_63 && IsPiece(p) && At(data, pos, PieceBytes(p)) && AllInside(unknown.fields)
    modifies unknown
    ensures ok && next == pos + |PieceBytes(p)| && AllInside(unknown.fields)
    ensures Contents(unknown.fields) == old(Contents(unknown.fields)) + PieceBytes(p)
  {
    hide ScanLeb, Leb, At, PayloadEnd, IsDecoded, PayloadBytes, Contents, IsPiece, Tag, WireType, AllInside, Field.Inside, Field.Content;
    TagParts(p);
    AtConcat(data, pos, Leb(Tag(p)), PayloadBytes(p.payload));
    VarintRoundTrip(data, pos, Tag(p));
    var tag := DecodeVarint(data, pos);
    assert tag == Decoded(true, pos + |Leb(Tag(p))|, Tag(p));
    PayloadEnds(data, tag.pos, p);
    ghost var before := unknown.fields;
    ok, next := DeserializeUnknown(data, tag.pos, tag.v % TWO_32, unknown);
    PieceAt(data, pos, PieceBytes(p));
    SmallPlaces(pos, next - pos);
    AppendField(before, Field(data, pos, next - pos));
  }

  lemma {:induction false} TagParts(p: Piece)
    requires IsPiece(p)
    ensures 0 < Tag(p) < TWO_32 && Tag(p) / 8 != 0 && Tag(p) % 8 == WireType(p.payload) && KnownWire(Tag(p) % 8)
  {
  }

  lemma {:induction false} SmallPlaces(pos: nat, len: nat)
    ensures pos < TWO_64 ==> pos % TWO_64 == pos
    ensures len < TWO_64 ==> len % TWO_64 == len
  {
  }

  lemma {:induction false} PieceAt(data: bytes, pos: nat, piece: bytes)
    requires At(data, pos, piece)
    ensures Field(data, pos, |piece|).Inside() && Field(data, pos, |piece|).Content() == piece
  {
  }

  lemma {:induction false} AppendField(fields: seq<Field>, f: Field)
    requires AllInside(fields) && f.Inside()
    ensures AllInside(fields + [f]) && Contents(fields + [f]) == Contents(fields) + f.Content()
  {
    assert (fields + [f])[..|fields|] == fields;
  }

  /** The first k fields have been read and kept. */
  ghost predicate Keeping(data: bytes, pos: nat, unknown: UnknownFields, ps: seq<Piece>, k: nat)
    reads unknown
  {
    && k <= |ps| && (forall i | 0 <= i < |ps| :: IsPiece(ps[i]))
    && At(data, pos, AllBytes(ps[k..])) && pos + |AllBytes(ps[k..])| == |data|
    && AllInside(unknown.fields) && Contents(unknown.fields) == data[..pos]
  }

  method KeepNext(data: bytes, pos: nat, unknown: UnknownFields, ghost ps: seq<Piece>, ghost k: nat)
    returns (ok: bool, next: nat)
    requires pos < |data| < TWO_63 && Keeping(data, pos, unknown, ps, k)
    modifies unknown
    ensures ok && pos < next <= |data| && Keeping(data, next, unknown, ps, k + 1)
  {
    hide At, PieceBytes, Contents, IsPiece, AllBytes, Field.Inside;
    RestOfPieces(ps, k);
    AtConcat(data, pos, PieceBytes(ps[k]), AllBytes(ps[k + 1..]));
    PieceLength(ps[k]);
    PrefixGrows(data, pos, PieceBytes(ps[k]));
    ok, next := KeepOne(data, pos, unknown, ps[k]);
  }

  /** Whatever sequence of well-formed unknown fields a buffer holds, reading consumes it all
      and writing gives the same bytes back. */
  method KeepUnknown(data: bytes, ghost ps: seq<Piece>) returns (ok: bool, total: nat, out: array<byte>)
    requires |data| < TWO_63 && data == AllBytes(ps) && forall i | 0 <= i < |ps| :: IsPiece(ps[i])
    ensures ok && total == |data| && out[..] == data
  {
    hide PieceBytes, IsPiece, AllBytes, Contents;
    var unknown := new UnknownFields();
    var pos := 0;
    ok := true;
    ghost var k := 0;
    assert Keeping(data, 0, unknown, ps, 0) by { KeepingNothing(data, unknown, ps); }
    while pos < |data| && ok
      invariant ok && pos <= |data| && Keeping(data, pos, unknown, ps, k)
      decreases |data| - pos
    {
      ok, pos := KeepNext(data, pos, unknown, ps, k);
      k := k + 1;
    }
    assert data[..pos] == data;
    total := unknown.TotalSize();
    out := new byte[total];
    var end := unknown.SerializeTo(out, 0);
    assert out[0..end] == out[..];
  }

  lemma {:induction false} KeepingNothing(data: bytes, unknown: UnknownFields, ps: seq<Piece>)
    requires data == AllBytes(ps) && unknown.fields == [] && forall i | 0 <= i < |ps| :: IsPiece(ps[i])
    ensures Keeping(data, 0, unknown, ps, 0)
  {
    hide PieceBytes, IsPiece, AllBytes;
    assert ps[0..] == ps;
  }

  lemma {:induction false} RestOfPieces(ps: seq<Piece>, k: nat)
    requires k <= |ps| && |AllBytes(ps[k..])| > 0
    ensures k < |ps| && AllBytes(ps[k..]) == PieceBytes(ps[k]) + AllBytes(ps[k + 1..])
  {
    hide PieceBytes;
    if k < |ps| { assert ps[k..][0] == ps[k] && ps[k..][1..] == ps[k + 1..]; }
  }

  lemma {:induction false} PieceLength(p: Piece)
    ensures |PieceBytes(p)| > 0
  {
    hide Leb;
  }

  lemma {:induction false} PrefixGrows(data: bytes, pos: nat, piece: bytes)
    requires At(data, pos, piece)
    ensures data[..pos] + piece == data[..pos + |piece|]
  {
  }
}
