/** A value through the packer and back through the unpacker. */
module Exchange {
  import opened Bytes
  import opened Status
  import opened Schema
  import opened Encoding
  import opened Restoring
  import opened Message
  import opened FieldAccess
  import opened Rejection
  import Packer
  import Skipping
  import Unpacker

  /** serialize, then deserialize from the whole buffer: the code, what is there, how much of the
      buffer has been read and how long it is. */
  method SerializeDeserialize(conf: Conf, t: Ty, v: Val) returns (code: Code, r: Val, now: nat, size: nat)
    requires Legal(conf, t) && HasType(t, v) && Addressable(conf, t, v)
    ensures if Recoverable(t, v) then code == Ok && r == v && now == size else code != Ok || r != v
    ensures size == RuntimeInfo(conf, t, v).len
    ensures Safe(t) ==> Recoverable(t, v)
  {
    hide HasType, WellFormed, Addressable, Recoverable, Serialize, Deserialize, Default, RuntimeInfo, HasCompatible, Safe;
    var buffer := Packer.SerializeToBuffer(conf, t, v);
    AnnouncedSizeExact(conf, t, v);
    var unpacker := new Unpacker.Unpacker(buffer[..]);
    WholeBuffer(buffer[..]);
    SerializeRoundTrip(conf, t, v, buffer[..], 0);
    code, r := unpacker.Deserialize(conf, t, Default(t));
    now, size := unpacker.now, buffer.Length;
    if Safe(t) { SafeRecoverable(t, v); }
  }

  /** serialize, then get_field from the whole buffer */
  method SerializeGetField(conf: Conf, fs: seq<Ty>, v: Val, i: nat) returns (code: Code, r: Val)
    requires Legal(conf, Struct(false, fs)) && !HasCompatible(Struct(false, fs)) && AllWellFormed(fs)
    requires HasType(Struct(false, fs), v) && HasTypes(fs, v.items) && i < |fs| && Addressable(conf, Struct(false, fs), v)
    ensures code == Ok && r == v.items[i] <==> Reachable(fs, v.items, i)
  {
    var t := Struct(false, fs);
    hide HasType, WellFormed, Addressable, Reachable, Serialize, Skipping.GetField, Default, HasCompatible;
    var buffer := Packer.SerializeToBuffer(conf, t, v);
    var unpacker := new Unpacker.Unpacker(buffer[..]);
    WholeBuffer(buffer[..]);
    FieldOfSerialized(conf, fs, v, i, buffer[..], 0);
    code, r := unpacker.GetField(conf, t, fs, i);
  }

  /** serialize with one type, deserialize into an object of any other type: another hash is refused
      behind the hash, the same hash with another literal behind the literal. */
  method SerializeDeserializeAs(conf: Conf, t: Ty, v: Val, conf2: Conf, t2: Ty, item: Val) returns (code: Code, r: Val, now: nat)
    requires Legal(conf, t) && HasType(t, v) && Addressable(conf, t, v) && conf.Head?
    requires conf2.Head? && conf2.hash % 2 == 0 && WellFormed(t2) && HasType(t2, item)
    ensures conf2.hash != conf.hash ==> code == InvalidBuffer && r == item && now == 4
    ensures conf2.hash == conf.hash && conf.addLiteral && |conf2.literal| == |conf.literal| && conf2.literal != conf.literal ==>
              code == HashConflict && r == item && now == LiteralPlace(conf, t, v) + |conf.literal| + 1
  {
    hide HasType, WellFormed, Addressable, Serialize, Deserialize, RuntimeInfo, HasCompatible, OtherHash, Apart, LiteralPlace;
    var buffer := Packer.SerializeToBuffer(conf, t, v);
    var unpacker := new Unpacker.Unpacker(buffer[..]);
    WholeBuffer(buffer[..]);
    if conf2.hash != conf.hash {
      WrittenHash(conf, t, v, conf2, buffer[..], 0);
      ForeignRefused(conf2, t2, item, buffer[..], 0);
    } else if conf.addLiteral && |conf2.literal| == |conf.literal| && conf2.literal != conf.literal {
      SameLengthApart(conf.literal, conf2.literal);
      CollisionRefused(conf, t, v, conf2, t2, item, buffer[..], 0);
      LiteralInside(conf, t, v);
    }
    code, r := unpacker.Deserialize(conf2, t2, item);
    now := unpacker.now;
  }

  /** The literal stands inside the buffer. */
  lemma {:induction false} LiteralInside(conf: Conf, t: Ty, v: Val)
    requires Legal(conf, t) && HasType(t, v) && conf.Head? && conf.addLiteral
    ensures LiteralPlace(conf, t, v) + |conf.literal| + 1 <= |Serialize(conf, t, v)|
  {
    hide HasType, WellFormed, RuntimeInfo, EncodeHead, Encode, EncodeVersions;
  }

  /** Deserializing any bytes whose first four are not the type's hash */
  method DeserializeForeign(conf: Conf, t: Ty, item: Val, data: bytes) returns (code: Code, r: Val, now: nat)
    requires WellFormed(t) && HasType(t, item) && OtherHash(conf, data, 0)
    ensures code == InvalidBuffer && r == item && now == 4
  {
    hide HasType, WellFormed, Deserialize, OtherHash;
    var unpacker := new Unpacker.Unpacker(data);
    ForeignRefused(conf, t, item, data, 0);
    code, r := unpacker.Deserialize(conf, t, item);
    now := unpacker.now;
  }

  /** get_field on such bytes */
  method GetForeignField(conf: Conf, t: Ty, ts: seq<Ty>, i: nat, data: bytes) returns (code: Code, r: Val, now: nat)
    requires AllWellFormed(ts) && i < |ts| && OtherHash(conf, data, 0)
    ensures code == InvalidBuffer && r == Default(ts[i]) && now == 4
  {
    hide HasType, WellFormed, Skipping.GetField, Default, OtherHash;
    var unpacker := new Unpacker.Unpacker(data);
    ForeignFieldRefused(conf, t, ts, i, data, 0);
    code, r := unpacker.GetField(conf, t, ts, i);
    now := unpacker.now;
  }

  lemma {:induction false} WholeBuffer(data: bytes)
    ensures At(data, 0, data)
  {
    assert data[..|data|] == data;
  }
}
