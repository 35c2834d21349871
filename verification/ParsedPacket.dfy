/** From a captured IPv4 packet to its flow key and its blob: parsed_packet.cpp and
    parsed_packet.hpp. */
module ParsedPacket {
  import opened Bytes
  import opened Decimal

  const IPPROTO_TCP: nat := 6
  const IPPROTO_UDP: nat := 17

  // ---- header fields (section 3.1 of RFC 791, RFC 793 and RFC 768) ---------------------------

  /** A 16-bit field in network byte order. */
  function Field16(data: bytes, at: nat): nat
    requires at + 2 <= |data|
  {
    256 * data[at] as int + data[at + 1] as int
  }

  /** The same field as a little-endian machine loads it. */
  function Raw16(data: bytes, at: nat): nat
    requires at + 2 <= |data|
  {
    FromLE(data[at..at + 2])
  }

  /** ip_hl * 4 */
  function HeaderLength(ip: bytes): nat
    requires |ip| >= 20
  {
    ip[0] % 16 * 4
  }

  function Protocol(ip: bytes): nat
    requires |ip| >= 20
  {
    ip[9]
  }

  function Source(ip: bytes): (a: bytes)
    requires |ip| >= 20
    ensures |a| == 4
  {
    ip[12..16]
  }

  function Destination(ip: bytes): (a: bytes)
    requires |ip| >= 20
    ensures |a| == 4
  {
    ip[16..20]
  }

  predicate IsTransport(protocol: nat) {
    protocol == IPPROTO_TCP || protocol == IPPROTO_UDP
  }

  /** The fixed part of the transport header is present: 20 bytes for TCP, 8 for UDP. */
  predicate HasHeader(ip: bytes) {
    |ip| >= 20 && |ip| >= HeaderLength(ip) + (if Protocol(ip) == IPPROTO_TCP then 20 else 8)
  }

  /** doff * 4, or the fixed length of a UDP header. */
  function TransportLength(ip: bytes): nat
    requires HasHeader(ip)
  {
    if Protocol(ip) == IPPROTO_TCP then ip[HeaderLength(ip) + 12] / 16 * 4 else 8
  }

  /** How many bytes of payload are copied. */
  function PayloadLength(ip: bytes, payload: nat): nat
    requires HasHeader(ip)
  {
    var available := Field16(ip, 2) - HeaderLength(ip) - TransportLength(ip);
    if available < 0 then 0 else if available < payload then available else payload
  }

  /** All bytes that the header lengths name are present. */
  predicate Readable(ip: bytes, payload: nat) {
    && |ip| >= 20
    && (IsTransport(Protocol(ip)) ==>
          && HasHeader(ip)
          && |ip| >= HeaderLength(ip) + TransportLength(ip) + PayloadLength(ip, payload))
  }

  function SourcePort(ip: bytes): nat
    requires HasHeader(ip)
  {
    Field16(ip, HeaderLength(ip))
  }

  function DestinationPort(ip: bytes): nat
    requires HasHeader(ip)
  {
    Field16(ip, HeaderLength(ip) + 2)
  }

  // ---- the key -----------------------------------------------------------------------------------

  /** inet_ntoa */
  function Dotted(a: bytes): string
    requires |a| == 4
  {
    ToString(a[0]) + ['.'] + (ToString(a[1]) + ['.'] + (ToString(a[2]) + ['.'] + ToString(a[3])))
  }

  /** The two addresses, the one with the smaller machine word first. */
  function OrderedAddresses(a: bytes, b: bytes): (r: (bytes, bytes))
    requires |a| == 4 && |b| == 4
    ensures |r.0| == 4 && |r.1| == 4
  {
    if FromLE(a) > FromLE(b) then (b, a) else (a, b)
  }

  /** The two ports as found at `at`, the one with the larger machine word first. */
  function OrderedPorts(data: bytes, at: nat): (nat, nat)
    requires at + 4 <= |data|
  {
    if Raw16(data, at) > Raw16(data, at + 2) then (Field16(data, at), Field16(data, at + 2))
    else (Field16(data, at + 2), Field16(data, at))
  }

  function Suffix(protocol: nat): string {
    if protocol == IPPROTO_TCP then "_TCP" else "_UDP"
  }

  function Key(ip: bytes): string
    requires HasHeader(ip)
  {
    var (a, b) := OrderedAddresses(Source(ip), Destination(ip));
    var (p, q) := OrderedPorts(ip, HeaderLength(ip));
    Dotted(a) + ['_'] + (Dotted(b) + ['_'] + (ToString(p) + ['_'] + (ToString(q) + Suffix(Protocol(ip)))))
  }

  // ---- the blob ----------------------------------------------------------------------------------

  function Zeros(n: int): (z: bytes)
    ensures |z| == if n < 0 then 0 else n
  {
    if n <= 0 then [] else seq(n, _ => 0)
  }

  /** 60 bytes for the IP header, 68 for the transport header, then the payload. */
  function Blob(ip: bytes, payload: nat): (b: bytes)
    requires Readable(ip, payload) && IsTransport(Protocol(ip))
    ensures |b| == 128 + payload
  {
    var h, t, n := HeaderLength(ip), TransportLength(ip), PayloadLength(ip, payload);
    ip[..h] + Zeros(60 - h) + ip[h..h + t] + Zeros(68 - t) + ip[h + t..h + t + n] + Zeros(payload - n)
  }

  /** The headers and the total length as the packet's bytes say. */
  function IpEnd(ip: bytes): nat
    requires |ip| >= 20
  {
    ip[0] % 16 * 4
  }

  function TransportEnd(ip: bytes): nat
    requires HasHeader(ip)
  {
    IpEnd(ip) + (if ip[9] == IPPROTO_TCP then ip[IpEnd(ip) + 12] / 16 * 4 else 8)
  }

  function TotalLength(ip: bytes): nat
    requires |ip| >= 20
  {
    256 * ip[2] as int + ip[3] as int
  }

  /** What stands in byte j of the blob: the IP header and zeros up to byte 60, the transport header and
      zeros up to byte 128, then what is behind the headers as far as the total length goes, and zeros. */
  function PlacedByte(ip: bytes, j: nat): byte
    requires HasHeader(ip) && TransportEnd(ip) <= |ip|
  {
    var h, t := IpEnd(ip), TransportEnd(ip);
    if j < 60 then (if j < h then ip[j] else 0)
    else if j < 128 then (if h + j - 60 < t then ip[h + j - 60] else 0)
    else (if t + j - 128 < TotalLength(ip) && t + j - 128 < |ip| then ip[t + j - 128] else 0)
  }

  /** The blob byte for byte; none that the total length promises is missing. */
  ghost predicate Laid(ip: bytes, payload: nat, blob: bytes) {
    && HasHeader(ip) && TransportEnd(ip) <= |ip|
    && (TotalLength(ip) <= |ip| || TransportEnd(ip) + payload <= |ip|)
    && |blob| == 128 + payload && forall j | 0 <= j < 128 + payload :: blob[j] == PlacedByte(ip, j)
  }

  lemma {:induction false} BlobLaid(ip: bytes, payload: nat)
    requires Readable(ip, payload) && IsTransport(Protocol(ip))
    ensures Laid(ip, payload, Blob(ip, payload))
  {
    hide Blob, PlacedByte;
    forall j | 0 <= j < 128 + payload ensures Blob(ip, payload)[j] == PlacedByte(ip, j) { BlobByte(ip, payload, j); }
  }

  lemma {:induction false} BlobByte(ip: bytes, payload: nat, j: nat)
    requires Readable(ip, payload) && IsTransport(Protocol(ip)) && j < 128 + payload
    ensures TransportEnd(ip) <= |ip| && Blob(ip, payload)[j] == PlacedByte(ip, j)
  {
    hide Zeros;
    var h, t, n := HeaderLength(ip), TransportLength(ip), PayloadLength(ip, payload);
    ThreeParts(ip[..h], 60, ip[h..h + t], 68, ip[h + t..h + t + n], payload, j);
  }

  /** Byte j of three padded parts. */
  lemma {:induction false} ThreeParts(a: bytes, sizeA: nat, b: bytes, sizeB: nat, c: bytes, sizeC: nat, j: nat)
    requires |a| <= sizeA && |b| <= sizeB && |c| <= sizeC && j < sizeA + sizeB + sizeC
    ensures var all := a + Zeros(sizeA - |a|) + b + Zeros(sizeB - |b|) + c + Zeros(sizeC - |c|);
            && |all| == sizeA + sizeB + sizeC
            && all[j] == if j < sizeA then PaddedAt(a, j)
                         else if j < sizeA + sizeB then PaddedAt(b, j - sizeA) else PaddedAt(c, j - sizeA - sizeB)
  {
    hide PaddedAt, Zeros;
    var x, y, z := a + Zeros(sizeA - |a|), b + Zeros(sizeB - |b|), c + Zeros(sizeC - |c|);
    assert a + Zeros(sizeA - |a|) + b + Zeros(sizeB - |b|) + c + Zeros(sizeC - |c|) == x + y + z;
    if j < sizeA { PaddedByte(a, sizeA, j); }
    else if j < sizeA + sizeB { PaddedByte(b, sizeB, j - sizeA); }
    else { PaddedByte(c, sizeC, j - sizeA - sizeB); }
  }

  function PaddedAt(a: bytes, j: nat): byte { if j < |a| then a[j] else 0 }

  lemma {:induction false} PaddedByte(a: bytes, size: nat, j: nat)
    requires |a| <= size && j < size
    ensures (a + Zeros(size - |a|))[j] == PaddedAt(a, j)
  {
  }

  /** The payload behind any 128 bytes. */
  lemma {:induction false} TailLaid(ip: bytes, payload: nat, front: bytes)
    requires Readable(ip, payload) && IsTransport(Protocol(ip)) && |front| == 128
    ensures TransportEnd(ip) <= |ip|
    ensures var h, t, n := HeaderLength(ip), TransportLength(ip), PayloadLength(ip, payload);
            var blob := front + ip[h + t..h + t + n] + Zeros(payload - n);
            |blob| == 128 + payload && forall j | 128 <= j < 128 + payload :: blob[j] == PlacedByte(ip, j)
  {
    hide Zeros;
    var h, t, n := HeaderLength(ip), TransportLength(ip), PayloadLength(ip, payload);
    var rest := ip[h + t..h + t + n];
    assert front + rest + Zeros(payload - n) == front + (rest + Zeros(payload - n));
    forall j | 128 <= j < 128 + payload ensures (front + (rest + Zeros(payload - n)))[j] == PlacedByte(ip, j) {
      PaddedByte(rest, payload, j - 128);
    }
  }

  class Packet {
    var protocol: nat
    var key: string
    var blob: bytes

    constructor ()
      ensures key == "" && blob == []
    {
      protocol, key, blob := 0, "", [];
    }

    /** processIPv4Packet, into a fresh object */
    method ProcessIPv4Packet(ip: bytes, payload: nat) returns (ok: bool)
      requires Readable(ip, payload) && key == "" && blob == []
      modifies this
      ensures ok <==> IsTransport(Protocol(ip))
      ensures protocol == Protocol(ip)
      ensures if ok then key == Key(ip) && blob == Blob(ip, payload) && Laid(ip, payload, blob) else key == "" && blob == []
    {
      hide Dotted, OrderedPorts, OrderedAddresses, ToString, FromLE, Zeros, Blob, Key, PayloadLength, Laid;
      protocol := ip[9];
      if protocol != IPPROTO_UDP && protocol != IPPROTO_TCP {
        return false;
      }
      var (ip1, ip2) := OrderedAddresses(ip[12..16], ip[16..20]);
      key := key + Dotted(ip1) + "_" + Dotted(ip2) + "_";
      ghost var addresses := key;
      var headerLength := ip[0] % 16 * 4;
      blob := blob + ip[..headerLength];
      if headerLength < 60 {
        blob := blob + Zeros(60 - headerLength);
      }
      ghost var network := blob;
      NetworkPart(ip[..headerLength], network);
      if protocol == IPPROTO_TCP {
        var transportLength := ip[headerLength + 12] / 16 * 4;
        blob := blob + ip[headerLength..headerLength + transportLength];
        var padding := 60 - transportLength;
        if padding >= 0 {
          blob := blob + Zeros(padding);
        }
        blob := blob + Zeros(8);
        Padding(network, ip[headerLength..headerLength + transportLength]);
        TransportPart(ip, network, blob, payload);
        CopyPayloadToBlob(ip, "_TCP", transportLength, payload);
      } else {
        blob := blob + ip[headerLength..headerLength + 8] + Zeros(60);
        TransportPart(ip, network, blob, payload);
        CopyPayloadToBlob(ip, "_UDP", 8, payload);
      }
      KeyParts(ip, addresses, key);
      BlobLaid(ip, payload);
      ok := true;
    }

    /** CopyPayloadToBlob: ports and suffix to the key, payload and padding to the blob. */
    method CopyPayloadToBlob(ip: bytes, suffix: string, dataOffset: nat, payload: nat)
      requires Readable(ip, payload) && IsTransport(Protocol(ip)) && dataOffset == TransportLength(ip)
      requires |blob| == 128
      modifies this`key, this`blob
      ensures var (p, q) := OrderedPorts(ip, HeaderLength(ip));
              key == old(key) + ToString(p) + "_" + ToString(q) + suffix
      ensures var h, t, n := HeaderLength(ip), TransportLength(ip), PayloadLength(ip, payload);
              blob == old(blob) + ip[h + t..h + t + n] + Zeros(payload - n)
      ensures TransportEnd(ip) <= |ip| && forall j | 128 <= j < 128 + payload :: blob[j] == PlacedByte(ip, j)
    {
      hide OrderedPorts, ToString, PlacedByte;
      ghost var front := blob;
      var headerLength := ip[0] % 16 * 4;
      var (min, max) := OrderedPorts(ip, headerLength);
      key := key + ToString(min) + "_" + ToString(max) + suffix;
      var available := Field16(ip, 2) - headerLength - dataOffset;
      var payloadLength := if available < 0 then 0 else if available < payload then available else payload;
      blob := blob + ip[headerLength + dataOffset..headerLength + dataOffset + payloadLength];
      var padding := payload + 128 - |blob|;
      if padding > 0 {
        blob := blob + Zeros(padding);
      }
      TailLaid(ip, payload, front);
    }
  }

  lemma {:induction false} NetworkPart(header: bytes, network: bytes)
    requires |header| <= 60
    requires network == [] + header + Zeros(60 - |header|) || (|header| == 60 && network == [] + header)
    ensures network == header + Zeros(60 - |header|) && |network| == 60
  {
    ZerosAdd(60 - |header|, 0);
  }

  lemma {:induction false} Padding(network: bytes, transport: bytes)
    requires |transport| <= 60
    ensures network + transport + Zeros(60 - |transport|) + Zeros(8) == network + transport + Zeros(68 - |transport|)
  {
    hide Zeros;
    ZerosAdd(60 - |transport|, 8);
    Regroup(network + transport, Zeros(60 - |transport|), Zeros(8));
  }

  /** The two headers and their padding fill 128 bytes. */
  lemma {:induction false} TransportPart(ip: bytes, network: bytes, headers: bytes, payload: nat)
    requires Readable(ip, payload) && IsTransport(Protocol(ip))
    requires network == ip[..HeaderLength(ip)] + Zeros(60 - HeaderLength(ip))
    requires var h, t := HeaderLength(ip), TransportLength(ip);
             headers == network + ip[h..h + t] + Zeros(68 - t)
    ensures |headers| == 128
    ensures var h, t, n := HeaderLength(ip), TransportLength(ip), PayloadLength(ip, payload);
            Blob(ip, payload) == headers + ip[h + t..h + t + n] + Zeros(payload - n)
  {
    hide PayloadLength, Zeros;
  }

  lemma {:induction false} ZerosAdd(a: int, b: int)
    requires a >= 0 && b >= 0
    ensures Zeros(a) + Zeros(b) == Zeros(a + b) && Zeros(0) == []
  {
  }

  lemma {:induction false} KeyParts(ip: bytes, addresses: string, key: string)
    requires HasHeader(ip)
    requires var (a, b) := OrderedAddresses(Source(ip), Destination(ip)); addresses == "" + Dotted(a) + "_" + Dotted(b) + "_"
    requires var (p, q) := OrderedPorts(ip, HeaderLength(ip));
             key == addresses + ToString(p) + "_" + ToString(q) + Suffix(Protocol(ip))
    ensures key == Key(ip)
  {
    hide Dotted, OrderedPorts, OrderedAddresses, ToString;
    var (a, b) := OrderedAddresses(Source(ip), Destination(ip));
    var (p, q) := OrderedPorts(ip, HeaderLength(ip));
    assert key == Dotted(a) + ['_'] + (Dotted(b) + ['_'] + (ToString(p) + ['_'] + (ToString(q) + Suffix(Protocol(ip)))));
  }

  // ---- what a key looks like -------------------------------------------------------------------------

  /** The address whose bytes are the smaller number, the first byte counting least, comes first. */
  lemma {:induction false} AddressesOrdered(a: bytes, b: bytes)
    requires |a| == 4 && |b| == 4
    ensures var (x, y) := OrderedAddresses(a, b); FromLE(x) <= FromLE(y) && SamePair(x, y, a, b)
  {
    hide FromLE;
  }

  /** The bytes of a port in the other order. */
  function Swapped(p: nat): nat { p % 256 * 256 + p / 256 }

  lemma {:induction false} RawIsOther(data: bytes, at: nat)
    requires at + 2 <= |data|
    ensures Raw16(data, at) == Swapped(Field16(data, at))
  {
    hide Raw16;
    RawIsSwapped(data, at);
  }

  /** The port that is larger when its bytes are swapped comes first. */
  lemma {:induction false} PortsOrdered(data: bytes, at: nat)
    requires at + 4 <= |data|
    ensures var (p, q) := OrderedPorts(data, at);
            Swapped(p) >= Swapped(q) && SamePair(p, q, Field16(data, at), Field16(data, at + 2))
  {
    hide Raw16, Field16, Swapped;
    RawIsOther(data, at);
    RawIsOther(data, at + 2);
  }

  lemma {:induction false} SampleNumbers()
    ensures ToString(0) == "0" && ToString(1) == "1" && ToString(2) == "2" && ToString(10) == "10"
    ensures ToString(443) == "443" && ToString(51000) == "51000"
  {
    assert ToString(44) == "44" && ToString(51) == "51";
    assert ToString(510) == "510";
    assert ToString(5100) == "5100";
  }

  lemma {:induction false} SampleDotted(a: bytes, b: bytes)
    requires a == [10, 0, 0, 1] && b == [10, 0, 0, 2]
    ensures Dotted(a) == "10.0.0.1" && Dotted(b) == "10.0.0.2"
  {
    hide ToString;
    SampleNumbers();
  }

  /** A TCP or UDP packet from 10.0.0.2, port 51000, to 10.0.0.1, port 443 */
  lemma {:induction false} KeySample(ip: bytes)
    requires |ip| >= 40 && ip[0] == 0x45 && (ip[9] == 6 || ip[9] == 17)
    requires ip[12..16] == [10, 0, 0, 2] && ip[16..20] == [10, 0, 0, 1]
    requires ip[20] == 0xC7 && ip[21] == 0x38 && ip[22] == 0x01 && ip[23] == 0xBB
    ensures Key(ip) == if ip[9] == 6 then "10.0.0.1_10.0.0.2_443_51000_TCP" else "10.0.0.1_10.0.0.2_443_51000_UDP"
  {
    hide ToString, Dotted, OrderedPorts, OrderedAddresses;
    assert OrderedAddresses(Source(ip), Destination(ip)) == (Destination(ip), Source(ip)) by { SampleAddresses(Source(ip), Destination(ip)); }
    assert OrderedPorts(ip, 20) == (443, 51000) by { SamplePorts(ip); }
    SampleDotted(Destination(ip), Source(ip));
    SampleNumbers();
  }

  lemma {:induction false} SampleAddresses(a: bytes, b: bytes)
    requires a == [10, 0, 0, 2] && b == [10, 0, 0, 1]
    ensures OrderedAddresses(a, b) == (b, a)
  {
    hide FromLE;
    FourBytes(10, 0, 0, 2);
    FourBytes(10, 0, 0, 1);
  }

  lemma {:induction false} SamplePorts(ip: bytes)
    requires |ip| >= 40 && ip[20] == 0xC7 && ip[21] == 0x38 && ip[22] == 0x01 && ip[23] == 0xBB
    ensures OrderedPorts(ip, 20) == (443, 51000)
  {
    hide Raw16;
    RawIsSwapped(ip, 20);
    RawIsSwapped(ip, 22);
  }

  lemma {:induction false} FourBytes(a: byte, b: byte, c: byte, d: byte)
    ensures FromLE([a, b, c, d]) == a as int + 256 * (b as int + 256 * (c as int + 256 * d as int))
  {
    assert [a, b, c, d][1..] == [b, c, d] && [b, c, d][1..] == [c, d] && [c, d][1..] == [d] && [d][1..] == [];
    assert FromLE([d]) == d && FromLE([c, d]) == c as int + 256 * FromLE([d]);
    assert FromLE([b, c, d]) == b as int + 256 * FromLE([c, d]);
  }

  // ---- keys are exact --------------------------------------------------------------------------------

  predicate Without(s: string, c: char) {
    forall i | 0 <= i < |s| :: s[i] != c
  }

  /** A text is split at the first separator in one way only. */
  lemma {:induction false} SplitOnce(a1: string, b1: string, a2: string, b2: string, c: char)
    requires Without(a1, c) && Without(a2, c) && a1 + [c] + b1 == a2 + [c] + b2
    ensures a1 == a2 && b1 == b2
  {
    var s := a1 + [c] + b1;
    FirstSeparator(s, a1, b1, c);
    FirstSeparator(s, a2, b2, c);
    OneFirst(s, c, |a1|, |a2|);
    assert a1 == s[..|a1|] && a2 == s[..|a2|];
    assert b1 == s[|a1| + 1..] && b2 == s[|a2| + 1..];
  }

  predicate IsFirst(s: string, c: char, k: nat) {
    k < |s| && s[k] == c && forall i | 0 <= i < k :: s[i] != c
  }

  lemma {:induction false} FirstSeparator(s: string, a: string, b: string, c: char)
    requires Without(a, c) && s == a + [c] + b
    ensures IsFirst(s, c, |a|)
  {
    forall i | 0 <= i < |a| ensures s[i] != c { assert s[i] == a[i]; }
  }

  lemma {:induction false} OneFirst(s: string, c: char, j: nat, k: nat)
    requires IsFirst(s, c, j) && IsFirst(s, c, k)
    ensures j == k
  {
  }

  lemma {:induction false} PrintedWithout(n: nat, c: char)
    requires c == '.' || c == '_' || c == 'T' || c == 'U'
    ensures Without(ToString(n), c)
  {
    ToStringNumber(n);
  }

  lemma {:induction false} DottedInjective(a: bytes, b: bytes)
    requires |a| == 4 && |b| == 4 && Dotted(a) == Dotted(b)
    ensures a == b
  {
    hide ToString;
    PrintedWithout(a[0], '.'); PrintedWithout(b[0], '.');
    PrintedWithout(a[1], '.'); PrintedWithout(b[1], '.');
    PrintedWithout(a[2], '.'); PrintedWithout(b[2], '.');
    SplitOnce(ToString(a[0]), ToString(a[1]) + ['.'] + (ToString(a[2]) + ['.'] + ToString(a[3])),
              ToString(b[0]), ToString(b[1]) + ['.'] + (ToString(b[2]) + ['.'] + ToString(b[3])), '.');
    SplitOnce(ToString(a[1]), ToString(a[2]) + ['.'] + ToString(a[3]),
              ToString(b[1]), ToString(b[2]) + ['.'] + ToString(b[3]), '.');
    SplitOnce(ToString(a[2]), ToString(a[3]), ToString(b[2]), ToString(b[3]), '.');
    ToStringInjective(a[0], b[0]);
    ToStringInjective(a[1], b[1]);
    ToStringInjective(a[2], b[2]);
    ToStringInjective(a[3], b[3]);
  }

  lemma {:induction false} DottedWithout(a: bytes)
    requires |a| == 4
    ensures Without(Dotted(a), '_')
  {
    hide ToString;
    PrintedWithout(a[0], '_');
    PrintedWithout(a[1], '_');
    PrintedWithout(a[2], '_');
    PrintedWithout(a[3], '_');
  }

  lemma {:induction false} FromLEInjective(a: bytes, b: bytes)
    requires |a| == |b| && FromLE(a) == FromLE(b)
    ensures a == b
  {
    if |a| > 0 {
      FromLEInjective(a[1..], b[1..]);
      assert a == [a[0]] + a[1..] && b == [b[0]] + b[1..];
    }
  }

  /** {x, y} and {u, v} are the same pair, in whatever order. */
  predicate SamePair<T(==)>(x: T, y: T, u: T, v: T) {
    (x == u && y == v) || (x == v && y == u)
  }

  lemma {:induction false} AddressesUnordered(a: bytes, b: bytes, c: bytes, d: bytes)
    requires |a| == 4 && |b| == 4 && |c| == 4 && |d| == 4
    ensures OrderedAddresses(a, b) == OrderedAddresses(c, d) <==> SamePair(a, b, c, d)
  {
    hide FromLE;
    if FromLE(a) == FromLE(b) { FromLEInjective(a, b); }
    if FromLE(c) == FromLE(d) { FromLEInjective(c, d); }
  }

  lemma {:induction false} RawIsSwapped(data: bytes, at: nat)
    requires at + 2 <= |data|
    ensures Raw16(data, at) == data[at] as int + 256 * data[at + 1] as int
  {
    var w := data[at..at + 2];
    assert FromLE(w) == w[0] + 256 * FromLE(w[1..]);
    assert FromLE(w[1..]) == w[1] + 256 * FromLE(w[1..][1..]);
  }

  /** Swapping bytes loses nothing. */
  lemma {:induction false} RawEqual(x: bytes, i: nat, y: bytes, j: nat)
    requires i + 2 <= |x| && j + 2 <= |y|
    ensures Raw16(x, i) == Raw16(y, j) <==> Field16(x, i) == Field16(y, j)
  {
    hide Raw16;
    RawIsSwapped(x, i);
    RawIsSwapped(y, j);
  }

  lemma {:induction false} PortsUnordered(x: bytes, i: nat, y: bytes, j: nat)
    requires i + 4 <= |x| && j + 4 <= |y|
    ensures OrderedPorts(x, i) == OrderedPorts(y, j)
            <==> SamePair(Field16(x, i), Field16(x, i + 2), Field16(y, j), Field16(y, j + 2))
  {
    hide Raw16, Field16;
    RawEqual(x, i, x, i + 2);
    RawEqual(y, j, y, j + 2);
    RawEqual(x, i, y, j);
    RawEqual(x, i, y, j + 2);
    RawEqual(x, i + 2, y, j);
    RawEqual(x, i + 2, y, j + 2);
  }

  lemma {:induction false} PortAndSuffix(p: nat, protocol1: nat, q: nat, protocol2: nat)
    requires IsTransport(protocol1) && IsTransport(protocol2)
    requires ToString(p) + Suffix(protocol1) == ToString(q) + Suffix(protocol2)
    ensures p == q && protocol1 == protocol2
  {
    hide ToString;
    PrintedWithout(p, '_');
    PrintedWithout(q, '_');
    var s1, s2 := Suffix(protocol1)[1..], Suffix(protocol2)[1..];
    assert ToString(p) + Suffix(protocol1) == ToString(p) + ['_'] + s1;
    assert ToString(q) + Suffix(protocol2) == ToString(q) + ['_'] + s2;
    SplitOnce(ToString(p), s1, ToString(q), s2, '_');
    ToStringInjective(p, q);
    assert s1[0] == s2[0];
  }

  /** Equal keys have equal parts. */
  lemma {:induction false} KeyPartsEqual(x: bytes, y: bytes)
    requires HasHeader(x) && IsTransport(Protocol(x))
    requires HasHeader(y) && IsTransport(Protocol(y))
    requires Key(x) == Key(y)
    ensures OrderedAddresses(Source(x), Destination(x)) == OrderedAddresses(Source(y), Destination(y))
    ensures OrderedPorts(x, HeaderLength(x)) == OrderedPorts(y, HeaderLength(y))
    ensures Protocol(x) == Protocol(y)
  {
    hide Dotted, OrderedPorts, ToString, HeaderLength, Suffix, FromLE;
    var (a1, b1) := OrderedAddresses(Source(x), Destination(x));
    var (p1, q1) := OrderedPorts(x, HeaderLength(x));
    var (a2, b2) := OrderedAddresses(Source(y), Destination(y));
    var (p2, q2) := OrderedPorts(y, HeaderLength(y));
    var t1, t2 := ToString(q1) + Suffix(Protocol(x)), ToString(q2) + Suffix(Protocol(y));
    DottedWithout(a1); DottedWithout(b1); DottedWithout(a2); DottedWithout(b2);
    SplitOnce(Dotted(a1), Dotted(b1) + ['_'] + (ToString(p1) + ['_'] + t1),
              Dotted(a2), Dotted(b2) + ['_'] + (ToString(p2) + ['_'] + t2), '_');
    SplitOnce(Dotted(b1), ToString(p1) + ['_'] + t1, Dotted(b2), ToString(p2) + ['_'] + t2, '_');
    PrintedWithout(p1, '_'); PrintedWithout(p2, '_');
    SplitOnce(ToString(p1), t1, ToString(p2), t2, '_');
    DottedInjective(a1, a2);
    DottedInjective(b1, b2);
    ToStringInjective(p1, p2);
    PortAndSuffix(q1, Protocol(x), q2, Protocol(y));
  }

  /** Two packets are of one flow exactly when their addresses, their ports and their
      protocols agree, each pair in either order. */
  lemma {:induction false} KeyExact(x: bytes, y: bytes)
    requires HasHeader(x) && IsTransport(Protocol(x))
    requires HasHeader(y) && IsTransport(Protocol(y))
    ensures Key(x) == Key(y)
            <==> && SamePair(Source(x), Destination(x), Source(y), Destination(y))
                 && SamePair(SourcePort(x), DestinationPort(x), SourcePort(y), DestinationPort(y))
                 && Protocol(x) == Protocol(y)
  {
    hide Dotted, OrderedAddresses, OrderedPorts, ToString, HeaderLength, SamePair, Field16;
    AddressesUnordered(Source(x), Destination(x), Source(y), Destination(y));
    PortsUnordered(x, HeaderLength(x), y, HeaderLength(y));
    if Key(x) == Key(y) { KeyPartsEqual(x, y); }
  }
}
