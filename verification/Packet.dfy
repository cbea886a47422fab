/** Packets, their header byte and the byte strings hashes and signatures cover. */
module Packet {
  import opened Bytes
  import opened Wrappers
  import opened Buffer

  const RETICULUM_MTU := 500
  const RETICULUM_HEADER_MINSIZE := 19
  const RETICULUM_MAX_HEADER_SIZE := 35
  const PUBLIC_KEY_LENGTH := 32
  const ADDRESS_HASH_SIZE := 16
  const SIGNATURE_LENGTH := 64
  const PACKET_IFAC_MAX_LENGTH := 64

  type Address = a: seq<byte> | |a| == ADDRESS_HASH_SIZE witness seq(ADDRESS_HASH_SIZE, _ => 0)
  type Signature = s: seq<byte> | |s| == SIGNATURE_LENGTH witness seq(SIGNATURE_LENGTH, _ => 0)

  datatype IfacFlag = Open | Authenticated
  datatype HeaderType = Type1 | Type2
  datatype ContextFlag = Unset | Set
  datatype PropagationType = Broadcast | Transport
  datatype DestinationType = Single | Group | Plain | Link
  datatype PacketType = Data | Announce | LinkRequest | Proof

  /** Context bytes with a name; all others are read as 0x00. */
  predicate KnownContext(b: byte) {
    b <= 0x0e || b >= 0xfa
  }

  type Context = b: byte | KnownContext(b)

  const CONTEXT_NONE: Context := 0x00
  const LINK_REQUEST_PROOF: Context := 0xff

  function ContextFromByte(b: byte): Context {
    if KnownContext(b) then b else CONTEXT_NONE
  }

  datatype Header = Header(
    ifacFlag: IfacFlag,
    headerType: HeaderType,
    contextFlag: ContextFlag,
    propagationType: PropagationType,
    destinationType: DestinationType,
    packetType: PacketType,
    hops: byte)

  const DEFAULT_HEADER := Header(Open, Type1, Unset, Broadcast, Single, Data, 0)

  type Ifac = s: seq<byte> | |s| <= PACKET_IFAC_MAX_LENGTH

  datatype Packet = Packet(
    header: Header,
    ifac: Option<Ifac>,
    destination: Address,
    transport: Option<Address>,
    context: Context,
    data: seq<byte>)

  /** The length both pacers reckon with, which leaves out the IFAC field. */
  function WireLen(p: Packet): nat {
    2 + (if p.header.headerType == Type2 then ADDRESS_HASH_SIZE else 0) + ADDRESS_HASH_SIZE + 1 + |p.data|
  }

  function DestinationBits(d: DestinationType): nat {
    match d case Single => 0 case Group => 1 case Plain => 2 case Link => 3
  }

  function PacketTypeBits(p: PacketType): nat {
    match p case Data => 0 case Announce => 1 case LinkRequest => 2 case Proof => 3
  }

  /** IFAC flag, header type, context flag, propagation type, two bits of destination type, two of packet type. */
  function ToMeta(h: Header): byte {
    (if h.ifacFlag == Authenticated then 128 else 0)
    + (if h.headerType == Type2 then 64 else 0)
    + (if h.contextFlag == Set then 32 else 0)
    + (if h.propagationType == Transport then 16 else 0)
    + 4 * DestinationBits(h.destinationType)
    + PacketTypeBits(h.packetType)
  }

  function FromMeta(meta: byte): Header {
    Header(
      if meta / 128 == 1 then Authenticated else Open,
      if meta / 64 % 2 == 1 then Type2 else Type1,
      if meta / 32 % 2 == 1 then Set else Unset,
      if meta / 16 % 2 == 1 then Transport else Broadcast,
      match meta / 4 % 4 case 0 => Single case 1 => Group case 2 => Plain case _ => Link,
      match meta % 4 case 0 => Data case 1 => Announce case 2 => LinkRequest case _ => Proof,
      0)
  }

  lemma Unpack(m: byte, a: nat, b: nat, c: nat, d: nat, e: nat, f: nat)
    requires a <= 1 && b <= 1 && c <= 1 && d <= 1 && e <= 3 && f <= 3
    requires m == 128 * a + 64 * b + 32 * c + 16 * d + 4 * e + f
    ensures m / 128 == a && m / 64 % 2 == b && m / 32 % 2 == c && m / 16 % 2 == d && m / 4 % 4 == e && m % 4 == f
  {
    assert m / 4 == 32 * a + 16 * b + 8 * c + 4 * d + e;
    assert m / 16 == 8 * a + 4 * b + 2 * c + d;
    assert m / 32 == 4 * a + 2 * b + c;
    assert m / 64 == 2 * a + b;
  }

  /** The fields of the header byte read off its arithmetic. */
  lemma MetaFields(h: Header)
    ensures var m := ToMeta(h);
      && (m / 128 == 1 <==> h.ifacFlag == Authenticated)
      && (m / 64 % 2 == 1 <==> h.headerType == Type2)
      && (m / 32 % 2 == 1 <==> h.contextFlag == Set)
      && (m / 16 % 2 == 1 <==> h.propagationType == Transport)
      && m / 4 % 4 == DestinationBits(h.destinationType)
      && m % 4 == PacketTypeBits(h.packetType)
  {
    Unpack(ToMeta(h), if h.ifacFlag == Authenticated then 1 else 0, if h.headerType == Type2 then 1 else 0,
      if h.contextFlag == Set then 1 else 0, if h.propagationType == Transport then 1 else 0,
      DestinationBits(h.destinationType), PacketTypeBits(h.packetType));
  }

  /** Header bytes and headers are in one-to-one correspondence, hop count aside. */
  lemma MetaRoundTrip(h: Header)
    ensures FromMeta(ToMeta(h)) == h.(hops := 0)
  {
    MetaFields(h);
    hide ToMeta;
    assert FromMeta(ToMeta(h)).destinationType == h.destinationType;
    assert FromMeta(ToMeta(h)).packetType == h.packetType;
  }

  lemma Digits(m: byte)
    ensures m == 128 * (m / 128) + 64 * (m / 64 % 2) + 32 * (m / 32 % 2) + 16 * (m / 16 % 2) + 4 * (m / 4 % 4) + m % 4
    ensures m / 128 <= 1
  {
    assert m / 64 == 2 * (m / 128) + m / 64 % 2;
    assert m / 32 == 2 * (m / 64) + m / 32 % 2;
    assert m / 16 == 2 * (m / 32) + m / 16 % 2;
    assert m / 4 == 4 * (m / 16) + m / 4 % 4;
  }

  lemma ByteRoundTrip(meta: byte)
    ensures ToMeta(FromMeta(meta)) == meta
  {
    Digits(meta);
    var (a, b, c, d, e, f) := (meta / 128, meta / 64 % 2, meta / 32 % 2, meta / 16 % 2, meta / 4 % 4, meta % 4);
    assert b <= 1 && c <= 1 && d <= 1 && e <= 3 && f <= 3;
    assert DestinationBits(FromMeta(meta).destinationType) == e;
    assert PacketTypeBits(FromMeta(meta).packetType) == f;
  }

  lemma MetaFlag(h: Header)
    ensures ToMeta(h) >= 128 <==> h.ifacFlag == Authenticated
    ensures ToMeta(h) % 128 == ToMeta(h.(ifacFlag := Open)) % 128 == ToMeta(h.(ifacFlag := Open))
  {}

  /** A Type2 header goes with a transport id and nothing else does. */
  predicate Routed(p: Packet) {
    p.header.headerType == Type2 <==> p.transport.Some?
  }

  function TransportBytes(p: Packet): Result<seq<byte>, RnsError> {
    if p.header.headerType == Type1 then Ok([])
    else match p.transport
      case None => Err(PacketError)
      case Some(t) => Ok(t)
  }

  /** What an IFAC signature covers: the packet without IFAC field and flag. */
  function SignedData(p: Packet): Result<seq<byte>, RnsError> {
    var transport :- TransportBytes(p);
    Ok([ToMeta(p.header) % 128, p.header.hops] + transport + p.destination + [p.context] + p.data)
  }

  /** What the packet hash covers: neither hop count nor routing nor IFAC. */
  function HashInput(p: Packet): seq<byte> {
    [ToMeta(p.header) % 16] + p.destination + [p.context] + p.data
  }

  /** What the link id is the hash of: the same, with the data cut to the two public keys. */
  function LinkIdInput(p: Packet): seq<byte> {
    HashInput(p.(data := if |p.data| > 2 * PUBLIC_KEY_LENGTH then p.data[..2 * PUBLIC_KEY_LENGTH] else p.data))
  }

  lemma LowMeta(h: Header)
    ensures ToMeta(h) % 16 == 4 * DestinationBits(h.destinationType) + PacketTypeBits(h.packetType)
  {}

  /** The bytes hashed for a packet tell apart exactly packets of different kind, destination, context or data. */
  lemma SameHashIffSamePacket(p: Packet, q: Packet)
    ensures HashInput(p) == HashInput(q) <==>
      && p.header.destinationType == q.header.destinationType && p.header.packetType == q.header.packetType
      && p.destination == q.destination && p.context == q.context && p.data == q.data
  {
    hide ToMeta;
    LowMeta(p.header);
    LowMeta(q.header);
    var (a, b) := (HashInput(p), HashInput(q));
    var n := 1 + ADDRESS_HASH_SIZE;
    assert a[0] == ToMeta(p.header) % 16 && b[0] == ToMeta(q.header) % 16;
    assert a[1..n] == p.destination && b[1..n] == q.destination;
    assert a[n] == p.context && b[n] == q.context;
    assert a[n + 1..] == p.data && b[n + 1..] == q.data;
  }
}
