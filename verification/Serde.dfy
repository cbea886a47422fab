/** Packets to bytes and back. */
module Serde {
  import opened Bytes
  import opened Wrappers
  import opened Buffer
  import opened Packet

  // ----- the format: header, IFAC field and transport id, then destination, context and data

  function IfacBytes(p: Packet): Result<seq<byte>, RnsError> {
    if p.header.ifacFlag == Open then Ok([])
    else match p.ifac
      case None => Err(PacketError)
      case Some(i) => Ok(i)
  }

  function Front(p: Packet): Result<seq<byte>, RnsError> {
    var ifac :- IfacBytes(p);
    var transport :- TransportBytes(p);
    Ok([ToMeta(p.header), p.header.hops] + ifac + transport)
  }

  function Body(p: Packet): seq<byte> {
    p.destination + [p.context] + p.data
  }

  function Wire(p: Packet): Result<seq<byte>, RnsError> {
    var front :- Front(p);
    Ok(front + Body(p))
  }

  datatype Prefix = Prefix(header: Header, ifac: Option<Ifac>, transport: Option<Address>, rest: seq<byte>)

  function ParseFront(bytes: seq<byte>, ifacLen: nat): Result<Prefix, RnsError> {
    var (meta, bytes) :- Take(bytes, 1);
    var (hops, bytes) :- Take(bytes, 1);
    if ifacLen > PACKET_IFAC_MAX_LENGTH then Err(PacketError)
    else
      var (ifac, bytes) :- Take(bytes, ifacLen);
      var header := FromMeta(meta[0]).(hops := hops[0], ifacFlag := if ifacLen > 0 then Authenticated else Open);
      var (transport, bytes) :- Take(bytes, if header.headerType == Type2 then ADDRESS_HASH_SIZE else 0);
      Ok(Prefix(
        header,
        if ifacLen > 0 then Some(ifac) else None,
        if header.headerType == Type2 then Some(transport) else None,
        bytes))
  }

  function Parse(bytes: seq<byte>, ifacLen: nat): Result<Packet, RnsError> {
    var f :- ParseFront(bytes, ifacLen);
    var (destination, bytes) :- Take(f.rest, ADDRESS_HASH_SIZE);
    var (context, data) :- Take(bytes, 1);
    Ok(Packet(f.header, f.ifac, destination, f.transport, ContextFromByte(context[0]), data))
  }

  /** Bytes parse exactly when the IFAC field is of a permitted length and nothing but the data may be missing. */
  lemma ParsesExactly(bytes: seq<byte>, ifacLen: nat)
    ensures Parse(bytes, ifacLen).Ok? <==>
      && ifacLen <= 64 && bytes != []
      && |bytes| >= ifacLen + if FromMeta(bytes[0]).headerType == Type2 then 35 else 19
    ensures Parse(bytes, ifacLen).Err? ==>
      Parse(bytes, ifacLen).error == if |bytes| >= 2 && ifacLen > 64 then PacketError else OutOfMemory
  {
    hide FromMeta;
  }

  /** The IFAC field `Parse` is told to expect. */
  function IfacLength(p: Packet): nat {
    match p.ifac case None => 0 case Some(i) => |i|
  }

  /** The IFAC flag goes with a non-empty IFAC field. */
  predicate Flagged(p: Packet) {
    p.header.ifacFlag == (if IfacLength(p) > 0 then Authenticated else Open) && (p.ifac.Some? ==> p.ifac.value != [])
  }

  lemma TakeConcat(a: seq<byte>, b: seq<byte>)
    ensures Take(a + b, |a|) == Ok((a, b))
  {}

  lemma ParseFrontOf(p: Packet, rest: seq<byte>)
    requires Routed(p) && Flagged(p)
    ensures Front(p).Ok?
    ensures ParseFront(Front(p).value + rest, IfacLength(p)) == Ok(Prefix(p.header, p.ifac, p.transport, rest))
  {
    MetaRoundTrip(p.header);
    var (ifac, transport) := (IfacBytes(p).value, TransportBytes(p).value);
    var (meta, hops) := ([ToMeta(p.header)], [p.header.hops]);
    hide ToMeta, FromMeta;
    assert Front(p).value + rest == meta + (hops + (ifac + (transport + rest)));
    hide Take;
    TakeConcat(meta, hops + (ifac + (transport + rest)));
    TakeConcat(hops, ifac + (transport + rest));
    TakeConcat(ifac, transport + rest);
    TakeConcat(transport, rest);
  }

  /** Every consistent packet survives the wire. */
  lemma ParseWire(p: Packet)
    requires Routed(p) && Flagged(p)
    ensures Wire(p).Ok? && Parse(Wire(p).value, IfacLength(p)) == Ok(p)
  {
    ParseFrontOf(p, Body(p));
    hide ParseFront, Front, Take;
    Regroup(p.destination, [p.context], p.data);
    TakeConcat(p.destination, [p.context] + p.data);
    TakeConcat([p.context], p.data);
  }

  /** The length the pacers reckon with is short of the wire exactly by the IFAC field. */
  lemma WireLenIsLength(p: Packet)
    requires Wire(p).Ok?
    ensures |Wire(p).value| == WireLen(p) + |IfacBytes(p).value|
  {}

  function ContextAt(bytes: seq<byte>, ifacLen: nat): nat
    requires bytes != []
  {
    2 + ifacLen + ADDRESS_HASH_SIZE + if FromMeta(bytes[0]).headerType == Type2 then ADDRESS_HASH_SIZE else 0
  }

  lemma ReflaggedMeta(meta: byte, hops: byte, flag: IfacFlag)
    ensures var m := ToMeta(FromMeta(meta).(hops := hops, ifacFlag := flag));
      && (m == meta <==> (meta >= 128 <==> flag == Authenticated))
      && FromMeta(m).headerType == FromMeta(meta).headerType
  {
    ByteRoundTrip(meta);
    MetaFlag(FromMeta(meta));
    MetaFlag(FromMeta(meta).(hops := hops, ifacFlag := flag));
    MetaRoundTrip(FromMeta(meta).(hops := hops, ifacFlag := flag));
    hide FromMeta;
    assert ToMeta(FromMeta(meta).(hops := hops, ifacFlag := flag)) % 128 == meta % 128;
  }

  lemma TakeSplits(bytes: seq<byte>, n: nat)
    requires n <= |bytes|
    ensures bytes == Take(bytes, n).value.0 + Take(bytes, n).value.1
  {}

  /** The fields a parsed front was cut into. */
  lemma FrontPieces(bytes: seq<byte>, ifacLen: nat) returns (ifac: seq<byte>, transport: seq<byte>)
    requires ParseFront(bytes, ifacLen).Ok?
    ensures var f := ParseFront(bytes, ifacLen).value;
      && |bytes| >= 2 && bytes[2..] == ifac + (transport + f.rest)
      && f.header == FromMeta(bytes[0]).(hops := bytes[1], ifacFlag := if ifacLen > 0 then Authenticated else Open)
      && |ifac| == ifacLen && f.ifac == (if ifacLen > 0 then Some(ifac) else None)
      && |transport| == (if f.transport.Some? then ADDRESS_HASH_SIZE else 0)
      && (f.transport.Some? <==> FromMeta(bytes[0]).headerType == Type2)
      && f.transport == (if f.transport.Some? then Some(transport) else None)
  {
    hide FromMeta;
    var b2 := bytes[2..];
    assert bytes[1..][1..] == b2;
    ifac := b2[..ifacLen];
    var b3 := b2[ifacLen..];
    transport := b3[..if FromMeta(bytes[0]).headerType == Type2 then ADDRESS_HASH_SIZE else 0];
    TakeSplits(b2, ifacLen);
    TakeSplits(b3, |transport|);
  }

  lemma Refront(bytes: seq<byte>, meta: byte, ifac: seq<byte>, transport: seq<byte>, rest: seq<byte>)
    requires |bytes| >= 2 && bytes[2..] == ifac + (transport + rest)
    ensures var front := [meta, bytes[1]] + ifac + transport;
      bytes == [bytes[0]] + front[1..] + rest && front[0] == meta
  {}

  /** A parsed front is written back with only its flag bit rewritten. */
  lemma FrontOfParse(bytes: seq<byte>, ifacLen: nat, p: Packet)
    requires ParseFront(bytes, ifacLen).Ok?
    requires var f := ParseFront(bytes, ifacLen).value;
      p.header == f.header && p.ifac == f.ifac && p.transport == f.transport
    ensures Routed(p) && Flagged(p) && Front(p).Ok?
    ensures var f := ParseFront(bytes, ifacLen).value;
      && bytes == [bytes[0]] + Front(p).value[1..] + f.rest
      && Front(p).value[0] == ToMeta(p.header)
      && |Front(p).value| + ADDRESS_HASH_SIZE == ContextAt(bytes, ifacLen)
      && (ToMeta(p.header) == bytes[0] <==> (bytes[0] >= 128 <==> ifacLen > 0))
  {
    var ifac, transport := FrontPieces(bytes, ifacLen);
    ReflaggedMeta(bytes[0], bytes[1], p.header.ifacFlag);
    var rest := ParseFront(bytes, ifacLen).value.rest;
    hide ToMeta, FromMeta, ParseFront;
    assert Front(p) == Ok([ToMeta(p.header), bytes[1]] + ifac + transport);
    Refront(bytes, ToMeta(p.header), ifac, transport, rest);
  }

  lemma SameFrame(m: byte, m': byte, front: seq<byte>, destination: seq<byte>, c: byte, c': byte, data: seq<byte>)
    ensures var bytes := [m] + front + (destination + [c] + data);
      bytes[1 + |front| + |destination|] == c
      && ([m'] + front + (destination + [c'] + data) == bytes <==> m == m' && c == c')
  {
    var bytes, bytes' := [m] + front + (destination + [c] + data), [m'] + front + (destination + [c'] + data);
    assert bytes[0] == m && bytes'[0] == m';
    assert bytes'[1 + |front| + |destination|] == c';
  }

  /**
    Bytes survive a packet exactly when their flag bit agrees with the expected IFAC and their
    context byte has a name.
   */
  lemma WireParse(bytes: seq<byte>, ifacLen: nat)
    requires Parse(bytes, ifacLen).Ok?
    ensures var p := Parse(bytes, ifacLen).value;
      && Routed(p) && Flagged(p) && ContextAt(bytes, ifacLen) < |bytes|
      && (Wire(p) == Ok(bytes) <==>
          ((bytes[0] >= 128 <==> ifacLen > 0) && KnownContext(bytes[ContextAt(bytes, ifacLen)])))
  {
    var (p, rest) := (Parse(bytes, ifacLen).value, ParseFront(bytes, ifacLen).value.rest);
    FrontOfParse(bytes, ifacLen, p);
    hide ToMeta, FromMeta, ParseFront, Front;
    var c := rest[ADDRESS_HASH_SIZE..][0];
    assert rest == p.destination + [c] + p.data;
    var front := Front(p).value;
    assert front == [ToMeta(p.header)] + front[1..];
    SameFrame(bytes[0], ToMeta(p.header), front[1..], p.destination, c, p.context, p.data);
  }

  // ----- the codecs

  /** The first thing to go wrong in serializing into `room` bytes, when something does. */
  function FirstError(p: Packet, room: nat): RnsError {
    if room < 2 then OutOfMemory
    else match IfacBytes(p)
      case Err(e) => e
      case Ok(ifac) => if room >= 2 + |ifac| && TransportBytes(p).Err? then PacketError else OutOfMemory
  }

  method SerializeFront(p: Packet, out: OutputBuffer) returns (r: Result<nat, RnsError>)
    requires out.Valid()
    modifies out, out.buffer
    ensures out.Valid()
    ensures r.Ok? <==> Front(p).Ok? && old(out.offset) + |Front(p).value| <= out.buffer.Length
    ensures r.Err? ==> r.error == FirstError(p, out.buffer.Length - old(out.offset))
    ensures r.Ok? ==> out.Contents() == old(out.Contents()) + Front(p).value
  {
    hide ToMeta;
    ghost var start := out.Contents();
    var header := [ToMeta(p.header), p.header.hops];
    var _ :- out.Write(header);
    if p.header.ifacFlag == Authenticated {
      if p.ifac.None? {
        return Err(PacketError);
      }
      var _ :- out.Write(p.ifac.value);
    }
    assert out.Contents() == start + (header + IfacBytes(p).value);
    r := Ok(0);
    if p.header.headerType == Type2 {
      if p.transport.None? {
        return Err(PacketError);
      }
      r := out.Write(p.transport.value);
    }
    if r.Ok? {
      Regroup(start, header + IfacBytes(p).value, TransportBytes(p).value);
    }
  }

  /** Writes the whole packet if it is consistent and fits. The count returned is that of the last field alone. */
  method Serialize(p: Packet, out: OutputBuffer) returns (r: Result<nat, RnsError>)
    requires out.Valid()
    modifies out, out.buffer
    ensures out.Valid()
    ensures r.Ok? <==> Wire(p).Ok? && old(out.offset) + |Wire(p).value| <= out.buffer.Length
    ensures r == if r.Ok? then Ok(|p.data|) else Err(FirstError(p, out.buffer.Length - old(out.offset)))
    ensures r.Ok? ==> out.Contents() == old(out.Contents()) + Wire(p).value
  {
    ghost var start := out.Contents();
    var _ :- SerializeFront(p, out);
    ghost var front := Front(p).value;
    hide Front;
    var _ :- out.Write(p.destination);
    var _ :- out.Write([p.context]);
    assert out.Contents() == start + front + (p.destination + [p.context]);
    r := out.Write(p.data);
    Regroup(start + front, p.destination + [p.context], p.data);
    Regroup(start, front, Body(p));
  }

  lemma TakeNothing()
    ensures forall bytes: seq<byte> {:trigger Take(bytes, 0)} :: Take(bytes, 0) == Ok(([], bytes))
  {}

  method DeserializeFront(input: InputBuffer, ifacLen: nat) returns (r: Result<Prefix, RnsError>)
    requires input.Valid()
    modifies input
    ensures input.Valid()
    ensures r == ParseFront(old(input.Rest()), ifacLen)
    ensures r.Ok? ==> input.Rest() == r.value.rest
  {
    hide FromMeta, Take;
    TakeNothing();
    var meta :- input.Read(1);
    var hops :- input.Read(1);
    var header := FromMeta(meta[0]).(hops := hops[0]);
    var ifac: Option<Ifac> := None;
    if ifacLen > 0 {
      if ifacLen > PACKET_IFAC_MAX_LENGTH {
        return Err(PacketError);
      }
      var field :- input.Read(ifacLen);
      ifac := Some(field);
    }
    header := header.(ifacFlag := if ifac.Some? then Authenticated else Open);
    var transport: Option<Address> := None;
    if header.headerType == Type2 {
      var address :- input.Read(ADDRESS_HASH_SIZE);
      transport := Some(address);
    }
    return Ok(Prefix(header, ifac, transport, input.buffer[input.offset..]));
  }

  method DeserializeWithIfacLen(input: InputBuffer, ifacLen: nat) returns (r: Result<Packet, RnsError>)
    requires input.Valid()
    modifies input
    ensures input.Valid()
    ensures r == Parse(old(input.Rest()), ifacLen)
  {
    var front :- DeserializeFront(input, ifacLen);
    hide ParseFront;
    var destination :- input.Read(ADDRESS_HASH_SIZE);
    var context :- input.Read(1);
    var left := input.BytesLeft();
    assert input.Rest()[..left] == input.Rest();
    var data := input.Read(left);
    return Ok(Packet(front.header, front.ifac, destination, front.transport, ContextFromByte(context[0]), data.value));
  }
}
