/** A whole interface over a byte stream: packets framed and sent at one end, received at the other. */
module TcpStream {
  import opened Bytes
  import opened Wrappers
  import opened Buffer
  import opened Packet
  import opened Serde
  import opened IfacFrame
  import Hdlc
  import LinkCrypt

  // ----- sending

  /** Packets an interface is given to send: consistent, and bare on an interface without an access code. */
  predicate Sendable(cfg: Option<IfacConfig>, p: Packet) {
    Routed(p) && match cfg case None => p == Bare(p) case Some(c) => c.ifacLen > 0
  }

  function CodeLen(cfg: Option<IfacConfig>): nat {
    match cfg case None => 0 case Some(c) => c.ifacLen
  }

  function Stamp(cfg: Option<IfacConfig>, p: Packet): Result<Packet, RnsError> {
    match cfg case None => Ok(p) case Some(c) => Attach(c, p)
  }

  /** A packet as it goes into the stream, stamped and masked where there is an access code. */
  function Outgoing(cfg: Option<IfacConfig>, p: Packet): Result<seq<byte>, RnsError> {
    var stamped :- Stamp(cfg, p);
    EncodeTx(cfg, stamped)
  }

  /** Whether the transmit buffers of an interface hold a packet's bytes, as serialized and as framed. */
  predicate FitsTx(hwMtu: nat, bytes: seq<byte>) {
    |bytes| <= Hdlc.TxFrameBufferSizes(hwMtu).0 && |Hdlc.Frame(bytes)| <= Hdlc.TxFrameBufferSizes(hwMtu).1
  }

  lemma OutgoingDecodes(cfg: Option<IfacConfig>, p: Packet)
    requires Sendable(cfg, p)
    ensures Outgoing(cfg, p).Ok? && DecodeRx(cfg, Outgoing(cfg, p).value) == Ok(Bare(p))
    ensures |Outgoing(cfg, p).value| == WireLen(p) + CodeLen(cfg)
    ensures cfg.None? ==> FromMeta(Outgoing(cfg, p).value[0]).headerType == p.header.headerType
  {
    hide Masked, SignedData, IfacOf, Parse, ToMeta, FromMeta, Decode;
    match cfg
    case Some(c) =>
      FrameRoundTrip(c, p);
      AttachStamps(c, p);
      WireLenIsLength(Attach(c, p).value);
    case None =>
      ParseWire(p);
      MetaRoundTrip(p.header);
      MetaFlag(p.header);
      WireLenIsLength(p);
  }

  function FrameOf(cfg: Option<IfacConfig>, p: Packet): (bytes: seq<byte>)
    requires Sendable(cfg, p)
    ensures Outgoing(cfg, p) == Ok(bytes)
  {
    OutgoingDecodes(cfg, p);
    Outgoing(cfg, p).value
  }

  /** What the transmit task writes of a stamped packet: its frame, or nothing when it does not fit the buffers. */
  method Transmit(cfg: Option<IfacConfig>, hwMtu: nat, p: Packet) returns (written: seq<byte>)
    ensures written == match EncodeTx(cfg, p)
      case Ok(bytes) => if FitsTx(hwMtu, bytes) then Hdlc.Frame(bytes) else []
      case Err(_) => []
  {
    hide EncodeTx, Wire, Hdlc.Frame, Hdlc.TxFrameBufferSizes;
    var (txCapacity, hdlcCapacity) := Hdlc.TxFrameBufferSizes(hwMtu);
    var txBuffer, hdlcTxBuffer := new byte[txCapacity], new byte[hdlcCapacity];
    EncodedLength(cfg, p);
    var len := EncodeTxInto(cfg, p, txBuffer);
    if len.Err? {
      return [];
    }
    var hdlcOutput := new OutputBuffer(hdlcTxBuffer);
    var framed := Hdlc.Encode(txBuffer[..len.value], hdlcOutput);
    return if framed.Ok? then hdlcTxBuffer[..hdlcOutput.offset] else [];
  }

  lemma EncodedLength(cfg: Option<IfacConfig>, p: Packet)
    ensures EncodeTx(cfg, p).Ok? ==> Wire(p).Ok? && |EncodeTx(cfg, p).value| == |Wire(p).value|
  {
    hide Wire;
  }

  // ----- receiving

  /** The least length a frame is given a chance at, told from its first byte as it arrives, masked or not. */
  function MinimumDecodedLen(frame: seq<byte>): nat {
    if frame != [] && FromMeta(frame[0]).headerType == Type2 then RETICULUM_MAX_HEADER_SIZE
    else RETICULUM_HEADER_MINSIZE
  }

  predicate TakenForShort(frame: seq<byte>) {
    |frame| < MinimumDecodedLen(frame)
  }

  function Accept(cfg: Option<IfacConfig>, frame: seq<byte>): seq<Packet> {
    if TakenForShort(frame) then []
    else match DecodeRx(cfg, frame)
      case Ok(p) => [p]
      case Err(_) => []
  }

  function AcceptAll(cfg: Option<IfacConfig>, frames: seq<seq<byte>>): seq<Packet> {
    if frames == [] then [] else AcceptAll(cfg, frames[..|frames| - 1]) + Accept(cfg, frames[|frames| - 1])
  }

  /** The packets received from a stream read in chunks. */
  function Received(cfg: Option<IfacConfig>, hwMtu: nat, chunks: seq<seq<byte>>): seq<Packet> {
    AcceptAll(cfg, Hdlc.ReadAll(Hdlc.RxFrameCapacity(hwMtu), [], chunks))
  }

  /** One read off the stream: frames are cut out, those long enough are decoded, and the packets are handed on. */
  method Receive(cfg: Option<IfacConfig>, capacity: nat, frameBuffer: seq<byte>, bytes: seq<byte>)
    returns (packets: seq<Packet>, rest: seq<byte>)
    ensures var (frames, left) := Hdlc.Read(capacity, frameBuffer, bytes);
      packets == AcceptAll(cfg, frames) && rest == left
  {
    hide DecodeRx, FromMeta, Hdlc.Read;
    var frames;
    frames, rest := Hdlc.ProcessRead(capacity, frameBuffer, bytes);
    packets := [];
    for i := 0 to |frames|
      invariant packets == AcceptAll(cfg, frames[..i])
    {
      assert frames[..i + 1][..i] == frames[..i];
      if |frames[i]| >= MinimumDecodedLen(frames[i]) {
        var decoded := DecodeRxFrom(cfg, frames[i]);
        if decoded.Ok? {
          packets := packets + [decoded.value];
        }
      }
    }
    assert frames[..|frames|] == frames;
  }

  // ----- packets lost to the length check

  /** Whether masking a packet flips the header type bit its frame is judged by. */
  predicate TypeBitMasked(c: IfacConfig, p: Packet)
    requires Routed(p)
  {
    AttachStamps(c, p);
    c.expand(IfacOf(c, SignedData(p).value), 0) / 64 % 2 == 1
  }

  lemma MaskedType(c: IfacConfig, p: Packet)
    requires Routed(p) && c.ifacLen > 0 && p.header.headerType == Type1
    requires WireLen(p) + c.ifacLen <= HKDF_LIMIT
    ensures FrameOf(Some(c), p) != []
    ensures FromMeta(FrameOf(Some(c), p)[0]).headerType == Type2 <==> TypeBitMasked(c, p)
  {
    hide IfacOf, SignedData, Wire, Xor, ToMeta, Stamped, SetTopBit, DecodeRx;
    OutgoingDecodes(Some(c), p);
    AttachStamps(c, p);
    var stamped := Attach(c, p).value;
    var (ifac, wire) := (IfacOf(c, SignedData(p).value), Wire(stamped).value);
    WireLenIsLength(stamped);
    IfacInPlace(c, p);
    FirstMasked(c, wire, ifac);
    FlagByte(stamped, wire);
    XorSeventhBit(wire[0], c.expand(ifac, 0));
    TopBitAside(Xor(wire[0], c.expand(ifac, 0)));
  }

  lemma IfacInPlace(c: IfacConfig, p: Packet)
    requires Routed(p)
    ensures Attach(c, p).Ok? && Wire(Attach(c, p).value).Ok? && SignedData(p).Ok?
    ensures var wire := Wire(Attach(c, p).value).value;
      |wire| > 2 + c.ifacLen && wire[2..2 + c.ifacLen] == IfacOf(c, SignedData(p).value)
  {
    hide IfacOf, SignedData, Wire, Stamped;
    AttachStamps(c, p);
    CleanedStamped(c, SignedData(p).value);
  }

  lemma FirstMasked(c: IfacConfig, wire: seq<byte>, ifac: seq<byte>)
    requires 2 + c.ifacLen < |wire| <= HKDF_LIMIT && wire[2..2 + c.ifacLen] == ifac
    ensures Masked(c, wire)[0] == SetTopBit(Xor(wire[0], c.expand(ifac, 0)))
  {
    hide Xor, SetTopBit;
  }

  lemma TopBitAside(b: byte)
    ensures SetTopBit(b) / 64 % 2 == b / 64 % 2
  {}

  lemma FlagByte(p: Packet, wire: seq<byte>)
    requires Wire(p) == Ok(wire)
    ensures wire != [] && (wire[0] / 64 % 2 == 1 <==> p.header.headerType == Type2)
  {
    hide ToMeta;
    MetaFields(p.header);
  }

  /**
    Exactly when a packet sent is turned away unread: it has the short header, code and data together
    do not make up the difference to the long one, and masking flips its type bit.
   */
  lemma TakenForShortIff(cfg: Option<IfacConfig>, p: Packet)
    requires Sendable(cfg, p)
    ensures TakenForShort(FrameOf(cfg, p)) <==>
      cfg.Some? && p.header.headerType == Type1 && CodeLen(cfg) + |p.data| < ADDRESS_HASH_SIZE
      && TypeBitMasked(cfg.value, p)
  {
    hide FrameOf, Outgoing, FromMeta, DecodeRx, TypeBitMasked;
    OutgoingDecodes(cfg, p);
    if cfg.Some? && p.header.headerType == Type1 && WireLen(p) + CodeLen(cfg) <= HKDF_LIMIT {
      MaskedType(cfg.value, p);
    }
  }

  function Keepalive(link: Address): Packet {
    Packet(DEFAULT_HEADER.(destinationType := Link), None, link, None, 0xfa, [0xff])
  }

  /**
    A link keepalive, whose data is one byte: under codes of up to 14 bytes it is lost exactly when
    masking flips its type bit.
   */
  lemma KeepaliveLost(cfg: IfacConfig, link: Address)
    requires 0 < cfg.ifacLen <= 14
    ensures Sendable(Some(cfg), Keepalive(link))
    ensures Accept(Some(cfg), FrameOf(Some(cfg), Keepalive(link))) == [] <==> TypeBitMasked(cfg, Keepalive(link))
  {
    hide FrameOf, Outgoing, TypeBitMasked, TakenForShort;
    TakenForShortIff(Some(cfg), Keepalive(link));
    OutgoingDecodes(Some(cfg), Keepalive(link));
  }

  // ----- packets lost to the transmit buffer

  /** The length of the longest packet a link sends at an MTU. */
  function LongestLinkPacket(mtu: nat): nat {
    RETICULUM_HEADER_MINSIZE + LinkCrypt.OVERHEAD + LinkCrypt.PaddedLen(LinkCrypt.ComputeLinkMdu(mtu))
  }

  lemma LinkPacketLength(c: LinkCrypt.Cipher, iv: LinkCrypt.Iv, id: Address, context: Context, data: seq<byte>)
    requires LinkCrypt.Lawful(c)
    ensures var p := LinkCrypt.SentPacket(c, iv, id, context, data);
      WireLen(p) == RETICULUM_HEADER_MINSIZE + LinkCrypt.OVERHEAD + LinkCrypt.PaddedLen(|data|)
  {
    LinkCrypt.OpenToken(c, iv, data, 0);
    hide LinkCrypt.Token, LinkCrypt.PaddedLen;
  }

  lemma PaddedGrows(m: nat, n: nat)
    requires m <= n
    ensures LinkCrypt.PaddedLen(m) <= LinkCrypt.PaddedLen(n)
  {}

  /**
    Every payload within a link's MDU leaves room for the access code in the transmit buffer exactly
    when the code is no longer than the reserve behind the longest packet: 36 bytes and what the MTU
    holds beyond whole cipher blocks.
   */
  lemma LinkPayloadsFitTxIff(
      c: LinkCrypt.Cipher, iv: LinkCrypt.Iv, id: Address, context: Context, mtu: nat, codeLen: nat)
    requires LinkCrypt.Lawful(c)
    ensures (forall data: seq<byte> | |data| <= LinkCrypt.ComputeLinkMdu(mtu) ::
        WireLen(LinkCrypt.SentPacket(c, iv, id, context, data)) + codeLen <= Hdlc.TxFrameBufferSizes(mtu).0)
      <==> LongestLinkPacket(mtu) + codeLen <= Hdlc.TxFrameBufferSizes(mtu).0
    ensures 84 <= mtu <= Hdlc.USIZE_MAX - RETICULUM_MAX_HEADER_SIZE ==>
      (LongestLinkPacket(mtu) + codeLen <= Hdlc.TxFrameBufferSizes(mtu).0 <==> codeLen <= 36 + (mtu - 68) % 16)
  {
    hide LinkCrypt.SentPacket, WireLen;
    var mdu := LinkCrypt.ComputeLinkMdu(mtu);
    var full: seq<byte> := seq(mdu, _ => 0);
    LinkPacketLength(c, iv, id, context, full);
    forall data: seq<byte> | |data| <= mdu
      ensures WireLen(LinkCrypt.SentPacket(c, iv, id, context, data)) <= LongestLinkPacket(mtu)
    {
      LinkPacketLength(c, iv, id, context, data);
      PaddedGrows(|data|, mdu);
    }
    if 84 <= mtu {
      LongestAtMtu(mtu);
    }
  }

  lemma LongestAtMtu(mtu: nat)
    requires mtu >= 84
    ensures LongestLinkPacket(mtu) == mtu - 1 - (mtu - 68) % 16
  {
    var q := (mtu - 68) / 16;
    assert LinkCrypt.ComputeLinkMdu(mtu) == 16 * q - 1;
    assert LinkCrypt.PaddedLen(16 * q - 1) == 16 * q;
  }

  /** At an MTU of 500, under a code of 37 bytes, a payload of the whole MDU, 431 bytes, is never sent. */
  lemma FullPayloadNotSent(
      cfg: IfacConfig, c: LinkCrypt.Cipher, iv: LinkCrypt.Iv, id: Address, context: Context, data: seq<byte>)
    requires LinkCrypt.Lawful(c) && cfg.ifacLen == 37 && |data| == 431
    ensures |data| == LinkCrypt.ComputeLinkMdu(500)
    ensures var p := LinkCrypt.SentPacket(c, iv, id, context, data);
      Sendable(Some(cfg), p) && !FitsTx(500, FrameOf(Some(cfg), p))
  {
    hide FrameOf, Outgoing, DecodeRx, WireLen;
    LinkPacketLength(c, iv, id, context, data);
    OutgoingDecodes(Some(cfg), LinkCrypt.SentPacket(c, iv, id, context, data));
  }

  // ----- end to end

  predicate AllSendable(cfg: Option<IfacConfig>, ps: seq<Packet>) {
    forall p | p in ps :: Sendable(cfg, p)
  }

  /** The packets the transmit buffers hold. */
  function Fitting(cfg: Option<IfacConfig>, hwMtu: nat, ps: seq<Packet>): (sent: seq<Packet>)
    requires AllSendable(cfg, ps)
    ensures AllSendable(cfg, sent) && |sent| <= |ps|
    ensures forall p :: p in sent <==> p in ps && FitsTx(hwMtu, FrameOf(cfg, p))
    ensures |sent| == |ps| ==> sent == ps
  {
    if ps == [] then []
    else
      var last := ps[|ps| - 1];
      assert ps == ps[..|ps| - 1] + [last];
      Fitting(cfg, hwMtu, ps[..|ps| - 1]) + if FitsTx(hwMtu, FrameOf(cfg, last)) then [last] else []
  }

  function Frames(cfg: Option<IfacConfig>, ps: seq<Packet>): (frames: seq<seq<byte>>)
    requires AllSendable(cfg, ps)
    ensures |frames| == |ps| && forall i | 0 <= i < |ps| :: frames[i] == FrameOf(cfg, ps[i])
  {
    if ps == [] then [] else Frames(cfg, ps[..|ps| - 1]) + [FrameOf(cfg, ps[|ps| - 1])]
  }

  /** Everything the transmit task writes. */
  function Written(cfg: Option<IfacConfig>, hwMtu: nat, ps: seq<Packet>): seq<byte>
    requires AllSendable(cfg, ps)
  {
    Hdlc.Stream(Frames(cfg, Fitting(cfg, hwMtu, ps)))
  }

  /** The packets whose frames are not taken for short, without their access codes. */
  function Kept(cfg: Option<IfacConfig>, ps: seq<Packet>): seq<Packet>
    requires AllSendable(cfg, ps)
  {
    if ps == [] then []
    else
      var last := ps[|ps| - 1];
      Kept(cfg, ps[..|ps| - 1]) + if TakenForShort(FrameOf(cfg, last)) then [] else [Bare(last)]
  }

  function BareAll(ps: seq<Packet>): seq<Packet> {
    seq(|ps|, i requires 0 <= i < |ps| => Bare(ps[i]))
  }

  lemma {:induction false} FramesAccepted(cfg: Option<IfacConfig>, ps: seq<Packet>)
    requires AllSendable(cfg, ps)
    ensures AcceptAll(cfg, Frames(cfg, ps)) == Kept(cfg, ps)
  {
    hide FrameOf, Outgoing, TakenForShort, DecodeRx, Sendable;
    if ps != [] {
      var (init, last) := (ps[..|ps| - 1], ps[|ps| - 1]);
      FramesAccepted(cfg, init);
      OutgoingDecodes(cfg, last);
      var frames := Frames(cfg, ps);
      assert frames[..|frames| - 1] == Frames(cfg, init);
    }
  }

  lemma {:induction false} KeptIsAll(cfg: Option<IfacConfig>, ps: seq<Packet>)
    requires AllSendable(cfg, ps)
    ensures |Kept(cfg, ps)| <= |ps|
    ensures |Kept(cfg, ps)| == |ps| <==> forall p | p in ps :: !TakenForShort(FrameOf(cfg, p))
    ensures |Kept(cfg, ps)| == |ps| ==> Kept(cfg, ps) == BareAll(ps)
  {
    hide FrameOf, Outgoing, TakenForShort, Bare;
    if ps != [] {
      var (init, last) := (ps[..|ps| - 1], ps[|ps| - 1]);
      KeptIsAll(cfg, init);
      assert ps == init + [last];
      assert BareAll(ps) == BareAll(init) + [Bare(last)];
    }
  }

  /**
    Packets sent down a stream that delivers its bytes in chunks of any sizes: those that fit the
    transmit buffers are received once each, whole and in order, without their access codes, but for
    those taken for short, as long as the receive buffer carries their frames.
   */
  lemma StreamDelivers(cfg: Option<IfacConfig>, txMtu: nat, rxMtu: nat, ps: seq<Packet>, chunks: seq<seq<byte>>)
    requires AllSendable(cfg, ps) && Hdlc.Concat(chunks) == Written(cfg, txMtu, ps)
    requires forall f | f in Frames(cfg, Fitting(cfg, txMtu, ps)) :: Hdlc.Carried(f, Hdlc.RxFrameCapacity(rxMtu))
    ensures Received(cfg, rxMtu, chunks) == Kept(cfg, Fitting(cfg, txMtu, ps))
  {
    hide Hdlc.ReadAll, Hdlc.Stream, Hdlc.Concat, Hdlc.Carried, Hdlc.RxFrameCapacity, FrameOf, Outgoing, AcceptAll, Kept;
    var sent := Fitting(cfg, txMtu, ps);
    Hdlc.StreamRoundTrip(Hdlc.RxFrameCapacity(rxMtu), Frames(cfg, sent), chunks);
    FramesAccepted(cfg, sent);
  }

  lemma {:induction false} AcceptsNoMore(cfg: Option<IfacConfig>, frames: seq<seq<byte>>)
    ensures |AcceptAll(cfg, frames)| <= |frames|
  {
    hide TakenForShort, DecodeRx;
    if frames != [] {
      AcceptsNoMore(cfg, frames[..|frames| - 1]);
    }
  }

  /** What a packet has to meet to be sure to arrive. */
  predicate Passes(cfg: Option<IfacConfig>, txMtu: nat, rxMtu: nat, p: Packet)
    requires Sendable(cfg, p)
  {
    var f := FrameOf(cfg, p);
    FitsTx(txMtu, f) && Hdlc.Carried(f, Hdlc.RxFrameCapacity(rxMtu)) && !TakenForShort(f)
  }

  /**
    All packets given to one end come out at the other, once each, in order and bare, under every
    cutting of the stream into reads of a given size, exactly when each fits the sender's transmit
    buffers, is carried by the receiver's buffer and is not taken for short.
   */
  lemma AllReceivedIff(cfg: Option<IfacConfig>, txMtu: nat, rxMtu: nat, readSize: nat, ps: seq<Packet>)
    requires AllSendable(cfg, ps) && readSize > 0
    ensures (forall chunks | Hdlc.Reads(chunks, readSize, Written(cfg, txMtu, ps)) ::
        Received(cfg, rxMtu, chunks) == BareAll(ps))
      <==> forall p | p in ps :: Passes(cfg, txMtu, rxMtu, p)
  {
    hide Passes, Received, Written, Hdlc.Reads, BareAll;
    if forall p | p in ps :: Passes(cfg, txMtu, rxMtu, p) {
      forall chunks | Hdlc.Reads(chunks, readSize, Written(cfg, txMtu, ps))
        ensures Received(cfg, rxMtu, chunks) == BareAll(ps)
      {
        AllReceived(cfg, txMtu, rxMtu, readSize, ps, chunks);
      }
    } else {
      var chunks := SomethingLost(cfg, txMtu, rxMtu, readSize, ps);
      BareLength(ps);
    }
  }

  lemma BareLength(ps: seq<Packet>)
    ensures |BareAll(ps)| == |ps|
  {}

  lemma AllReceived(
      cfg: Option<IfacConfig>, txMtu: nat, rxMtu: nat, readSize: nat, ps: seq<Packet>, chunks: seq<seq<byte>>)
    requires AllSendable(cfg, ps) && Hdlc.Reads(chunks, readSize, Written(cfg, txMtu, ps))
    requires forall p | p in ps :: Passes(cfg, txMtu, rxMtu, p)
    ensures Received(cfg, rxMtu, chunks) == BareAll(ps)
  {
    hide Received, Written, Hdlc.Carried, Hdlc.RxFrameCapacity, FrameOf, Outgoing, FitsTx, TakenForShort, Fitting,
      BareAll, Hdlc.Concat;
    AllFitting(cfg, txMtu, ps);
    KeptIsAll(cfg, ps);
    StreamDelivers(cfg, txMtu, rxMtu, ps, chunks);
  }

  lemma {:induction false} AllFitting(cfg: Option<IfacConfig>, hwMtu: nat, ps: seq<Packet>)
    requires AllSendable(cfg, ps)
    ensures Fitting(cfg, hwMtu, ps) == ps <==> forall p | p in ps :: FitsTx(hwMtu, FrameOf(cfg, p))
  {
    hide FrameOf, Outgoing, FitsTx;
    if ps != [] {
      assert ps == ps[..|ps| - 1] + [ps[|ps| - 1]];
      AllFitting(cfg, hwMtu, ps[..|ps| - 1]);
    }
  }

  /** A cutting under which too few packets are received, where some packet does not pass. */
  lemma SomethingLost(cfg: Option<IfacConfig>, txMtu: nat, rxMtu: nat, readSize: nat, ps: seq<Packet>)
    returns (chunks: seq<seq<byte>>)
    requires AllSendable(cfg, ps) && readSize > 0 && exists p | p in ps :: !Passes(cfg, txMtu, rxMtu, p)
    ensures Hdlc.Reads(chunks, readSize, Written(cfg, txMtu, ps)) && |Received(cfg, rxMtu, chunks)| < |ps|
  {
    hide Hdlc.ReadAll, Hdlc.Stream, Hdlc.Concat, Hdlc.Carried, Hdlc.RxFrameCapacity,
      FrameOf, Outgoing, AcceptAll, FitsTx, TakenForShort;
    var (capacity, sent) := (Hdlc.RxFrameCapacity(rxMtu), Fitting(cfg, txMtu, ps));
    var frames := Frames(cfg, sent);
    if exists f | f in frames :: !Hdlc.Carried(f, capacity) {
      chunks := Hdlc.ShortReads(capacity, readSize, frames);
      AcceptsNoMore(cfg, Hdlc.ReadAll(capacity, [], chunks));
    } else {
      chunks := Hdlc.Singles(Hdlc.Stream(frames));
      Hdlc.SinglesConcat(Hdlc.Stream(frames));
      StreamDelivers(cfg, txMtu, rxMtu, ps, chunks);
      KeptIsAll(cfg, sent);
    }
  }
}
