/**
  Interface access codes: signing, masking and unmasking of whole frames. The signature and the
  key-derivation stream are parameters; nothing is assumed of them but that they are functions.
 */
module IfacFrame {
  import opened Bytes
  import opened Wrappers
  import opened Buffer
  import opened Packet
  import opened Serde

  /** Most bytes HKDF-SHA256 can expand to; beyond it the source's stream stays zero. */
  const HKDF_LIMIT := 255 * 32

  type IfacSize = n: nat | n <= SIGNATURE_LENGTH

  /** `expand(ifac, i)` is byte `i` of the stream derived from an IFAC field. */
  datatype IfacConfig = IfacConfig(sign: seq<byte> -> Signature, expand: (seq<byte>, nat) -> byte, ifacLen: IfacSize)

  // ----- frames as sequences

  function IfacOf(cfg: IfacConfig, clean: seq<byte>): (ifac: Ifac)
    ensures |ifac| == cfg.ifacLen
  {
    cfg.sign(clean)[SIGNATURE_LENGTH - cfg.ifacLen..]
  }

  /**
    The access code is the end of the signature, all of it at 64 bytes, so a shorter code is the end
    of a longer one.
   */
  lemma IfacIsSignatureEnd(cfg: IfacConfig, clean: seq<byte>, shorter: IfacSize)
    requires shorter <= cfg.ifacLen
    ensures exists rest :: cfg.sign(clean) == rest + IfacOf(cfg, clean)
    ensures IfacOf(cfg.(ifacLen := shorter), clean) == IfacOf(cfg, clean)[cfg.ifacLen - shorter..]
  {
    var (signature, n) := (cfg.sign(clean), SIGNATURE_LENGTH - cfg.ifacLen);
    assert signature == signature[..n] + IfacOf(cfg, clean);
  }

  function StreamByte(cfg: IfacConfig, ifac: seq<byte>, n: nat, i: nat): byte {
    if n <= HKDF_LIMIT then cfg.expand(ifac, i) else 0
  }

  function HkdfStream(cfg: IfacConfig, ifac: seq<byte>, n: nat): (mask: seq<byte>)
    ensures |mask| == n
  {
    seq(n, i requires 0 <= i < n => StreamByte(cfg, ifac, n, i))
  }

  function MaskByte(cfg: IfacConfig, i: nat, b: byte, m: byte): byte {
    if i == 0 then SetTopBit(Xor(b, m)) else if i == 1 || i > cfg.ifacLen + 1 then Xor(b, m) else b
  }

  function Masked(cfg: IfacConfig, frame: seq<byte>): (masked: seq<byte>)
    requires |frame| > 2 + cfg.ifacLen
    ensures |masked| == |frame|
  {
    var mask := HkdfStream(cfg, frame[2..2 + cfg.ifacLen], |frame|);
    seq(|frame|, i requires 0 <= i < |frame| => MaskByte(cfg, i, frame[i], mask[i]))
  }

  function UnmaskByte(cfg: IfacConfig, i: nat, b: byte, m: byte): byte {
    if i <= 1 || i > cfg.ifacLen + 1 then Xor(b, m) else b
  }

  function Unmasked(cfg: IfacConfig, frame: seq<byte>): (unmasked: seq<byte>)
    requires |frame| > 2 + cfg.ifacLen
    ensures |unmasked| == |frame|
  {
    var mask := HkdfStream(cfg, frame[2..2 + cfg.ifacLen], |frame|);
    seq(|frame|, i requires 0 <= i < |frame| => UnmaskByte(cfg, i, frame[i], mask[i]))
  }

  /** A frame without IFAC field and flag. */
  function Cleaned(cfg: IfacConfig, frame: seq<byte>): seq<byte>
    requires |frame| > 2 + cfg.ifacLen
  {
    [frame[0] % 128, frame[1]] + frame[2 + cfg.ifacLen..]
  }

  function Decode(cfg: IfacConfig, frame: seq<byte>): Result<seq<byte>, RnsError> {
    if cfg.ifacLen == 0 || |frame| <= 2 + cfg.ifacLen || frame[0] < 128 then Err(PacketError)
    else
      var clean := Cleaned(cfg, Unmasked(cfg, frame));
      if IfacOf(cfg, clean) == frame[2..2 + cfg.ifacLen] then Ok(clean) else Err(IncorrectSignature)
  }

  /** The frame before masking: IFAC flag set and IFAC field inserted. */
  function Stamped(cfg: IfacConfig, clean: seq<byte>): seq<byte>
    requires |clean| > 2
  {
    [SetTopBit(clean[0]), clean[1]] + IfacOf(cfg, clean) + clean[2..]
  }

  // ----- masking and unmasking undo each other

  lemma UnmaskedMasked(cfg: IfacConfig, frame: seq<byte>)
    requires |frame| > 2 + cfg.ifacLen
    ensures Masked(cfg, frame)[2..2 + cfg.ifacLen] == frame[2..2 + cfg.ifacLen]
    ensures Cleaned(cfg, Unmasked(cfg, Masked(cfg, frame))) == Cleaned(cfg, frame)
  {
    var (n, masked) := (2 + cfg.ifacLen, Masked(cfg, frame));
    var unmasked := Unmasked(cfg, masked);
    assert masked[2..n] == frame[2..n];
    var mask := HkdfStream(cfg, frame[2..n], |frame|);
    hide HkdfStream, Xor, SetTopBit;
    XorCancelUnderForcedTop(frame[0], mask[0]);
    forall i | 1 <= i < |frame| ensures unmasked[i] == frame[i] {
      XorCancel(frame[i], mask[i]);
    }
    assert unmasked[n..] == frame[n..];
  }

  lemma TopBits(a: byte, b: byte)
    requires a >= 128 && b % 128 == a % 128
    ensures SetTopBit(b) == a
  {}

  lemma MaskedUnmasked(cfg: IfacConfig, frame: seq<byte>)
    requires |frame| > 2 + cfg.ifacLen && frame[0] >= 128
    requires IfacOf(cfg, Cleaned(cfg, Unmasked(cfg, frame))) == frame[2..2 + cfg.ifacLen]
    ensures Masked(cfg, Stamped(cfg, Cleaned(cfg, Unmasked(cfg, frame)))) == frame
  {
    var (n, u) := (2 + cfg.ifacLen, Unmasked(cfg, frame));
    var clean := Cleaned(cfg, u);
    var s := Stamped(cfg, clean);
    assert s[2..n] == frame[2..n];
    assert s[n..] == u[n..];
    var mask := HkdfStream(cfg, frame[2..n], |frame|);
    hide HkdfStream, Xor, SetTopBit, IfacOf;
    assert Masked(cfg, s)[0] == frame[0] by {
      assert u[0] == Xor(frame[0], mask[0]);
      XorCancel(frame[0], mask[0]);
      StampSameLow(u[0]);
      XorSameLowSeven(Width() - 1, SetTopBit(u[0] % 128), u[0], mask[0]);
      TopBits(frame[0], Xor(SetTopBit(u[0] % 128), mask[0]));
    }
    forall i | 1 <= i < |frame| ensures Masked(cfg, s)[i] == frame[i] {
      XorCancel(frame[i], mask[i]);
      if i >= n { assert s[n..][i - n] == u[n..][i - n]; }
      else if i >= 2 { assert s[2..n][i - 2] == frame[2..n][i - 2]; }
    }
  }

  lemma StampSameLow(b: byte)
    ensures SetTopBit(b % 128) % 128 == b % 128
  {}

  lemma CleanedStamped(cfg: IfacConfig, clean: seq<byte>)
    requires |clean| > 2 && clean[0] < 128
    ensures var s := Stamped(cfg, clean);
      && |s| > 2 + cfg.ifacLen
      && s[2..2 + cfg.ifacLen] == IfacOf(cfg, clean)
      && Cleaned(cfg, s) == clean
  {}

  lemma MaskedIsFlagged(cfg: IfacConfig, frame: seq<byte>)
    requires |frame| > 2 + cfg.ifacLen
    ensures Masked(cfg, frame)[0] >= 128
  {}

  lemma SealedDecodes(cfg: IfacConfig, clean: seq<byte>)
    requires cfg.ifacLen > 0 && |clean| > 2 && clean[0] < 128
    ensures |Stamped(cfg, clean)| > 2 + cfg.ifacLen
    ensures Decode(cfg, Masked(cfg, Stamped(cfg, clean))) == Ok(clean)
    ensures Masked(cfg, Stamped(cfg, clean))[0] >= 128
  {
    CleanedStamped(cfg, clean);
    hide Unmasked, IfacOf, Stamped, Masked, Cleaned;
    UnmaskedMasked(cfg, Stamped(cfg, clean));
    MaskedIsFlagged(cfg, Stamped(cfg, clean));
  }

  /** The receiver accepts exactly the frames a sender makes of unflagged packet bytes, and gives those bytes back. */
  lemma DecodeIffSealed(cfg: IfacConfig, frame: seq<byte>, clean: seq<byte>)
    requires cfg.ifacLen > 0
    ensures Decode(cfg, frame) == Ok(clean) <==>
      |clean| > 2 && clean[0] < 128 && frame == Masked(cfg, Stamped(cfg, clean))
  {
    if Decode(cfg, frame) == Ok(clean) {
      MaskedUnmasked(cfg, frame);
    }
    if |clean| > 2 && clean[0] < 128 && frame == Masked(cfg, Stamped(cfg, clean)) {
      SealedDecodes(cfg, clean);
    }
  }

  /**
    All other frames are refused: for their signature when they are long enough and flagged, for
    their form when not.
   */
  lemma OtherFramesRefused(cfg: IfacConfig, frame: seq<byte>)
    requires cfg.ifacLen > 0
    ensures |frame| <= 2 + cfg.ifacLen || frame[0] < 128 <==> Decode(cfg, frame) == Err(PacketError)
    ensures Decode(cfg, frame) == Err(IncorrectSignature) <==>
      && |frame| > 2 + cfg.ifacLen && frame[0] >= 128
      && !exists clean: seq<byte> | |clean| > 2 && clean[0] < 128 :: frame == Masked(cfg, Stamped(cfg, clean))
  {
    forall clean: seq<byte> | |clean| > 2 && clean[0] < 128 && frame == Masked(cfg, Stamped(cfg, clean))
      ensures Decode(cfg, frame) == Ok(clean)
    {
      DecodeIffSealed(cfg, frame, clean);
    }
    if Decode(cfg, frame).Ok? {
      DecodeIffSealed(cfg, frame, Decode(cfg, frame).value);
    }
  }

  // ----- frames the stream does not reach

  /** Above the limit masking changes nothing: a flagged frame goes out as it is. */
  lemma UnmaskedAboveLimit(cfg: IfacConfig, frame: seq<byte>)
    requires |frame| > 2 + cfg.ifacLen && |frame| > HKDF_LIMIT && frame[0] >= 128
    ensures Masked(cfg, frame) == frame
  {
    hide Xor;
    forall i | 0 <= i < |frame| ensures Masked(cfg, frame)[i] == frame[i] {
      XorZero(frame[i]);
    }
  }

  function WithConstantStream(cfg: IfacConfig, b: byte): IfacConfig {
    cfg.(expand := (ifac, i) => b)
  }

  /** What goes on the wire is the same under every key exactly for frames above the limit. */
  lemma KeyIgnoredIffAboveLimit(cfg: IfacConfig, frame: seq<byte>)
    requires |frame| > 2 + cfg.ifacLen
    ensures (forall other: IfacConfig | other.ifacLen == cfg.ifacLen :: Masked(other, frame) == Masked(cfg, frame))
      <==> |frame| > HKDF_LIMIT
  {
    hide Xor, SetTopBit;
    if |frame| > HKDF_LIMIT {
      forall other: IfacConfig | other.ifacLen == cfg.ifacLen ensures Masked(other, frame) == Masked(cfg, frame) {
        assert HkdfStream(other, frame[2..2 + cfg.ifacLen], |frame|) ==
          HkdfStream(cfg, frame[2..2 + cfg.ifacLen], |frame|);
      }
    } else {
      var (zeros, ones) := (WithConstantStream(cfg, 0), WithConstantStream(cfg, 1));
      XorLowBit(frame[1], 0);
      XorLowBit(frame[1], 1);
      assert Masked(zeros, frame)[1] != Masked(ones, frame)[1];
    }
  }

  // ----- packets over an access-coded interface

  function Attach(cfg: IfacConfig, p: Packet): Result<Packet, RnsError> {
    var signed :- SignedData(p);
    Ok(p.(header := p.header.(ifacFlag := Authenticated), ifac := Some(IfacOf(cfg, signed))))
  }

  function EncodeTx(cfg: Option<IfacConfig>, p: Packet): Result<seq<byte>, RnsError> {
    var w :- Wire(p);
    match cfg
    case None => Ok(w)
    case Some(c) => if c.ifacLen == 0 || |w| <= 2 + c.ifacLen then Err(PacketError) else Ok(Masked(c, w))
  }

  function DecodeRx(cfg: Option<IfacConfig>, data: seq<byte>): Result<Packet, RnsError> {
    match cfg
    case Some(c) =>
      var clean :- Decode(c, data);
      Parse(clean, 0)
    case None => if data != [] && data[0] >= 128 then Err(PacketError) else Parse(data, 0)
  }

  /** The packet without its access code, as the transport sees it. */
  function Bare(p: Packet): Packet {
    p.(header := p.header.(ifacFlag := Open), ifac := None)
  }

  /** The signed bytes are the wire form of the bare packet, and stamping them is the wire form of the attached one. */
  lemma AttachStamps(cfg: IfacConfig, p: Packet)
    requires Routed(p)
    ensures SignedData(p) == Wire(Bare(p)) && Wire(Bare(p)).Ok? && Attach(cfg, p).Ok?
    ensures var clean := SignedData(p).value;
      |clean| > 2 && clean[0] < 128 && Wire(Attach(cfg, p).value) == Ok(Stamped(cfg, clean))
  {
    hide ToMeta, IfacOf;
    MetaFlag(p.header);
    MetaFlag(p.header.(ifacFlag := Authenticated));
    var (h, h') := ([ToMeta(Bare(p).header), p.header.hops],
      [ToMeta(p.header.(ifacFlag := Authenticated)), p.header.hops]);
    var t := TransportBytes(p).value;
    var clean := SignedData(p).value;
    assert Wire(Bare(p)) == Ok(h + t + Body(p)) by {
      assert h + [] == h;
    }
    Regroup(h + t, p.destination, [p.context]);
    Regroup(h + t, p.destination + [p.context], p.data);
    Regroup(h, t, Body(p));
    assert clean == h + (t + Body(p)) && clean[2..] == t + Body(p);
    Regroup(h' + IfacOf(cfg, clean), t, Body(p));
  }

  /**
    A routed packet attached and sent under an access code is received as the bare packet under the
    same code; without a code it is turned away.
   */
  lemma FrameRoundTrip(cfg: IfacConfig, p: Packet)
    requires Routed(p) && cfg.ifacLen > 0
    ensures Attach(cfg, p).Ok? && EncodeTx(Some(cfg), Attach(cfg, p).value).Ok?
    ensures var frame := EncodeTx(Some(cfg), Attach(cfg, p).value).value;
      && Decode(cfg, frame) == SignedData(p)
      && DecodeRx(Some(cfg), frame) == Ok(Bare(p))
      && DecodeRx(None, frame) == Err(PacketError)
  {
    AttachStamps(cfg, p);
    hide Masked, Wire, SignedData, Decode, Attach, IfacOf;
    SealedDecodes(cfg, SignedData(p).value);
    ParseWire(Bare(p));
  }

  /** A packet too long for the stream crosses an access-coded interface in the clear. */
  lemma LongPacketInClear(cfg: IfacConfig, p: Packet)
    requires Routed(p) && cfg.ifacLen > 0 && WireLen(p) + cfg.ifacLen > HKDF_LIMIT
    ensures Attach(cfg, p).Ok? && EncodeTx(Some(cfg), Attach(cfg, p).value) == Wire(Attach(cfg, p).value)
  {
    hide Masked, Wire, SignedData, IfacOf, HkdfStream;
    AttachStamps(cfg, p);
    var attached := Attach(cfg, p).value;
    WireLenIsLength(attached);
    UnmaskedAboveLimit(cfg, Wire(attached).value);
  }

  // ----- the same in place

  /** Masks the first `len` bytes of `frame` and touches nothing else. */
  method MaskFrame(cfg: IfacConfig, frame: array<byte>, len: nat) returns (r: Result<(), RnsError>)
    requires len <= frame.Length
    modifies frame
    ensures r == if cfg.ifacLen > 0 && len > 2 + cfg.ifacLen then Ok(()) else Err(PacketError)
    ensures frame[..] == if r.Ok? then Masked(cfg, old(frame[..len])) + old(frame[len..]) else old(frame[..])
  {
    if cfg.ifacLen == 0 || len <= 2 + cfg.ifacLen {
      return Err(PacketError);
    }
    hide HkdfStream, Xor, SetTopBit;
    var mask := HkdfStream(cfg, frame[2..2 + cfg.ifacLen], len);
    ghost var was := frame[..len];
    assert was[2..2 + cfg.ifacLen] == frame[2..2 + cfg.ifacLen];
    for i := 0 to len
      invariant forall k | 0 <= k < i :: frame[k] == Masked(cfg, was)[k]
      invariant forall k | i <= k < frame.Length :: frame[k] == old(frame[k])
    {
      assert frame[i] == was[i];
      if i == 0 {
        frame[i] := SetTopBit(Xor(frame[i], mask[i]));
      } else if i == 1 || i > cfg.ifacLen + 1 {
        frame[i] := Xor(frame[i], mask[i]);
      }
      assert frame[i] == Masked(cfg, was)[i];
    }
    return Ok(());
  }

  method DecodeFrame(cfg: IfacConfig, frame: seq<byte>) returns (r: Result<seq<byte>, RnsError>)
    ensures r == Decode(cfg, frame)
  {
    if cfg.ifacLen == 0 || |frame| <= 2 + cfg.ifacLen || frame[0] < 128 {
      return Err(PacketError);
    }
    hide HkdfStream, Xor;
    var ifac := frame[2..2 + cfg.ifacLen];
    var mask := HkdfStream(cfg, ifac, |frame|);
    var unmasked := frame;
    for i := 0 to |frame|
      invariant |unmasked| == |frame|
      invariant unmasked[..i] == Unmasked(cfg, frame)[..i]
      invariant unmasked[i..] == frame[i..]
    {
      assert unmasked[i] == frame[i];
      if i <= 1 || i > cfg.ifacLen + 1 {
        unmasked := unmasked[i := Xor(unmasked[i], mask[i])];
      }
      assert unmasked[i] == Unmasked(cfg, frame)[i];
    }
    assert unmasked == Unmasked(cfg, frame);
    var clean := [unmasked[0] % 128, unmasked[1]] + unmasked[2 + cfg.ifacLen..];
    return if IfacOf(cfg, clean) == ifac then Ok(clean) else Err(IncorrectSignature);
  }

  /** Serializes into `buffer` and masks in place; the length of the frame, or an error. */
  method EncodeTxInto(cfg: Option<IfacConfig>, p: Packet, buffer: array<byte>) returns (r: Result<nat, RnsError>)
    modifies buffer
    ensures r.Ok? <==> EncodeTx(cfg, p).Ok? && |Wire(p).value| <= buffer.Length
    ensures r.Ok? ==> r.value <= buffer.Length && buffer[..r.value] == EncodeTx(cfg, p).value
    ensures r.Err? ==>
      r.error ==
      (if Wire(p).Err? || |Wire(p).value| > buffer.Length then FirstError(p, buffer.Length) else PacketError)
  {
    hide Wire;
    var out := new OutputBuffer(buffer);
    var _ :- Serialize(p, out);
    var len := out.offset;
    assert buffer[..len] == Wire(p).value;
    match cfg {
      case None => return Ok(len);
      case Some(c) =>
        var _ :- MaskFrame(c, buffer, len);
        return Ok(len);
    }
  }

  method DecodeRxFrom(cfg: Option<IfacConfig>, data: seq<byte>) returns (r: Result<Packet, RnsError>)
    ensures r == DecodeRx(cfg, data)
  {
    var bytes := data;
    match cfg {
      case Some(c) => bytes :- DecodeFrame(c, data);
      case None =>
        if data != [] && data[0] >= 128 {
          return Err(PacketError);
        }
    }
    var input := new InputBuffer(bytes);
    r := DeserializeWithIfacLen(input, 0);
  }
}
