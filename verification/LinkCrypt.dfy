/**
  Fernet tokens and the packets a link makes of them. AES-CBC and HMAC are parameters; the block
  padding (section 6.3 of RFC 5652) is written out.
 */
module LinkCrypt {
  import opened Bytes
  import opened Wrappers
  import opened Buffer
  import opened Packet
  import opened Serde

  const IV_SIZE := 16
  const TAG_SIZE := 32
  const BLOCK := 16
  const OVERHEAD := IV_SIZE + TAG_SIZE

  type Iv = s: seq<byte> | |s| == IV_SIZE witness seq(IV_SIZE, _ => 0)
  type Tag = s: seq<byte> | |s| == TAG_SIZE witness seq(TAG_SIZE, _ => 0)

  datatype Cipher = Cipher(
    cbcEncrypt: (Iv, seq<byte>) -> seq<byte>,
    cbcDecrypt: (Iv, seq<byte>) -> seq<byte>,
    mac: seq<byte> -> Tag)

  /** All that is assumed of the cipher: it keeps lengths and decryption inverts encryption. */
  ghost predicate Lawful(c: Cipher) {
    forall iv: Iv, m: seq<byte> {:trigger c.cbcEncrypt(iv, m)} ::
      |c.cbcEncrypt(iv, m)| == |m| && c.cbcDecrypt(iv, c.cbcEncrypt(iv, m)) == m
  }

  // ----- tokens

  function PadLen(n: nat): (k: nat)
    ensures 1 <= k <= BLOCK
  {
    BLOCK - n % BLOCK
  }

  function PaddedLen(n: nat): nat {
    n + PadLen(n)
  }

  function Pad(text: seq<byte>): seq<byte> {
    text + seq(PadLen(|text|), _ => PadLen(|text|))
  }

  function Unpad(padded: seq<byte>): Result<seq<byte>, RnsError> {
    if padded == [] then Err(CryptoError)
    else
      var k := padded[|padded| - 1];
      if 1 <= k <= BLOCK && k <= |padded| && (forall i | |padded| - k <= i < |padded| :: padded[i] == k)
      then Ok(padded[..|padded| - k]) else Err(CryptoError)
  }

  function Token(c: Cipher, iv: Iv, text: seq<byte>): seq<byte> {
    var sealed := iv + c.cbcEncrypt(iv, Pad(text));
    sealed + c.mac(sealed)
  }

  function Verify(c: Cipher, token: seq<byte>): Result<seq<byte>, RnsError> {
    if |token| <= OVERHEAD then Err(InvalidArgument)
    else if token[|token| - TAG_SIZE..] == c.mac(token[..|token| - TAG_SIZE]) then Ok(token)
    else Err(IncorrectSignature)
  }

  /** Decryption into a buffer of `room` bytes, which must hold the whole padded text. */
  function Decrypt(c: Cipher, token: seq<byte>, room: nat): Result<seq<byte>, RnsError> {
    if |token| <= OVERHEAD then Err(InvalidArgument)
    else
      var body := token[IV_SIZE..|token| - TAG_SIZE];
      if room < |body| || |body| % BLOCK != 0 then Err(CryptoError)
      else Unpad(c.cbcDecrypt(token[..IV_SIZE], body))
  }

  function Open(c: Cipher, token: seq<byte>, room: nat): Result<seq<byte>, RnsError> {
    var verified :- Verify(c, token);
    Decrypt(c, verified, room)
  }

  lemma UnpadPad(text: seq<byte>)
    ensures Unpad(Pad(text)) == Ok(text) && |Pad(text)| == PaddedLen(|text|) && |Pad(text)| % BLOCK == 0
  {}

  /** A token always verifies, and opens to its text exactly when the buffer holds the padded text. */
  lemma OpenToken(c: Cipher, iv: Iv, text: seq<byte>, room: nat)
    requires Lawful(c)
    ensures Verify(c, Token(c, iv, text)) == Ok(Token(c, iv, text))
    ensures |Token(c, iv, text)| == OVERHEAD + PaddedLen(|text|)
    ensures Open(c, Token(c, iv, text), room) == Ok(text) <==> room >= PaddedLen(|text|)
  {
    UnpadPad(text);
    hide Pad, Unpad;
    var (body, token) := (c.cbcEncrypt(iv, Pad(text)), Token(c, iv, text));
    assert token[..|token| - TAG_SIZE] == iv + body;
    assert token[|token| - TAG_SIZE..] == c.mac(iv + body);
    assert token[IV_SIZE..|token| - TAG_SIZE] == body && token[..IV_SIZE] == iv;
  }

  /** The cipher is a permutation of whole blocks, as AES-CBC is. */
  ghost predicate Permutes(c: Cipher) {
    Lawful(c) && forall iv: Iv, m: seq<byte> {:trigger c.cbcDecrypt(iv, m)} | |m| % BLOCK == 0 ::
      |c.cbcDecrypt(iv, m)| == |m| && c.cbcEncrypt(iv, c.cbcDecrypt(iv, m)) == m
  }

  lemma PadUnpad(padded: seq<byte>)
    requires |padded| % BLOCK == 0 && Unpad(padded).Ok?
    ensures Pad(Unpad(padded).value) == padded
  {
    var (k, text) := (padded[|padded| - 1], Unpad(padded).value);
    assert PadLen(|text|) == k;
    assert padded == padded[..|padded| - k] + padded[|padded| - k..];
  }

  /** Under such a cipher exactly the genuine tokens open, given room: each token to its own text. */
  lemma OpensOnlyTokens(c: Cipher, token: seq<byte>, text: seq<byte>, room: nat)
    requires Permutes(c) && room >= |token|
    ensures Open(c, token, room) == Ok(text) <==> exists iv: Iv :: token == Token(c, iv, text)
  {
    hide Pad, Unpad;
    if Open(c, token, room) == Ok(text) {
      var n := |token| - TAG_SIZE;
      var (iv, body) := (token[..IV_SIZE], token[IV_SIZE..n]);
      PadUnpad(c.cbcDecrypt(iv, body));
      assert token[..n] == iv + body && token == token[..n] + token[n..];
      assert token == Token(c, iv, text);
    }
    if iv: Iv :| token == Token(c, iv, text) {
      OpenToken(c, iv, text, room);
    }
  }

  /** A token whose tag is not the code of its body is refused for its signature; one without a body for its length. */
  lemma ForgedTokenRefused(c: Cipher, sealed: seq<byte>, tag: Tag, room: nat)
    ensures |sealed| > IV_SIZE && tag != c.mac(sealed) ==> Open(c, sealed + tag, room) == Err(IncorrectSignature)
    ensures |sealed| <= IV_SIZE ==> Open(c, sealed + tag, room) == Err(InvalidArgument)
  {
    var token := sealed + tag;
    assert token[|token| - TAG_SIZE..] == tag && token[..|token| - TAG_SIZE] == sealed;
  }

  // ----- payload limits

  const RETICULUM_MIN_IFAC_SIZE := 1
  const PACKET_MDU := RETICULUM_MTU - RETICULUM_MAX_HEADER_SIZE - RETICULUM_MIN_IFAC_SIZE

  function SaturatingSub(a: nat, b: nat): nat {
    if a > b then a - b else 0
  }

  function ComputeLinkMdu(mtu: nat): nat {
    var available :=
      SaturatingSub(SaturatingSub(SaturatingSub(mtu, RETICULUM_MIN_IFAC_SIZE), RETICULUM_HEADER_MINSIZE), OVERHEAD);
    SaturatingSub(available / BLOCK * BLOCK, 1)
  }

  /** The encrypted packet of an `n`-byte payload and the reserved IFAC byte fit the MTU. */
  predicate Fits(mtu: nat, n: nat) {
    RETICULUM_HEADER_MINSIZE + OVERHEAD + PaddedLen(n) + RETICULUM_MIN_IFAC_SIZE <= mtu
  }

  lemma MduAtLeast84(mtu: nat, n: nat)
    requires mtu >= 84
    ensures n <= ComputeLinkMdu(mtu) <==> Fits(mtu, n)
  {}

  /** The link MDU is the exact payload limit for every payload precisely when the MTU is at least 84. */
  lemma MduIsExact(mtu: nat)
    ensures (forall n: nat :: n <= ComputeLinkMdu(mtu) <==> Fits(mtu, n)) <==> mtu >= 84
    ensures mtu < 84 ==> ComputeLinkMdu(mtu) == 0
  {
    if mtu >= 84 {
      forall n: nat ensures n <= ComputeLinkMdu(mtu) <==> Fits(mtu, n) {
        MduAtLeast84(mtu, n);
      }
    } else {
      assert 0 <= ComputeLinkMdu(mtu) && !Fits(mtu, 0);
    }
  }

  // ----- sending

  /** Copies `data` into `out` from `at` on. */
  method CopyInto(out: array<byte>, at: nat, data: seq<byte>)
    requires at + |data| <= out.Length
    modifies out
    ensures out[..at + |data|] == old(out[..at]) + data
  {
    for i := 0 to |data|
      invariant out[..at + i] == old(out[..at]) + data[..i]
    {
      out[at + i] := data[i];
    }
  }

  datatype Stop = Failed(error: RnsError) | Panicked

  /**
    Fills the buffer stage by stage. A buffer longer than the overhead but too short for the token
    is not refused: the call panics.
   */
  method Encrypt(c: Cipher, iv: Iv, text: seq<byte>, out: array<byte>) returns (r: Result<nat, Stop>)
    requires Lawful(c)
    modifies out
    ensures out.Length <= OVERHEAD ==> r == Err(Failed(InvalidArgument)) && out[..] == old(out[..])
    ensures r == Err(Panicked) <==> OVERHEAD < out.Length < OVERHEAD + PaddedLen(|text|)
    ensures out.Length >= OVERHEAD + PaddedLen(|text|) ==>
      r == Ok(OVERHEAD + PaddedLen(|text|)) && out[..r.value] == Token(c, iv, text)
  {
    if out.Length <= OVERHEAD {
      return Err(Failed(InvalidArgument));
    }
    UnpadPad(text);
    var outLen := 0;
    CopyInto(out, outLen, iv);
    outLen := outLen + |iv|;
    var body := c.cbcEncrypt(iv, Pad(text));
    if |body| > out.Length - outLen {
      return Err(Panicked);
    }
    CopyInto(out, outLen, body);
    outLen := outLen + |body|;
    assert out[..outLen] == iv + body;
    var tag := c.mac(out[..outLen]);
    if outLen + |tag| > out.Length {
      return Err(Panicked);
    }
    CopyInto(out, outLen, tag);
    outLen := outLen + |tag|;
    return Ok(outLen);
  }

  /** The room the receiving link decrypts into. */
  function DecryptRoom(mtu: nat): nat {
    if ComputeLinkMdu(mtu) > PACKET_MDU then ComputeLinkMdu(mtu) else PACKET_MDU
  }

  function LinkHeader(packetType: PacketType): Header {
    DEFAULT_HEADER.(destinationType := Link, packetType := packetType)
  }

  function SentPacket(c: Cipher, iv: Iv, id: Address, context: Context, data: seq<byte>): Packet {
    Packet(LinkHeader(Data), None, id, None, context, Token(c, iv, data))
  }

  /**
    An encrypted packet for the peer: refused when the link is not up or the payload exceeds the
    MDU, otherwise built without overrunning its buffer.
   */
  method EncryptedDataPacket(c: Cipher, iv: Iv, id: Address, up: bool, mtu: nat, data: seq<byte>, context: Context)
    returns (r: Result<Packet, RnsError>)
    requires Lawful(c)
    ensures !up ==> r == Err(LinkClosed)
    ensures up && |data| > ComputeLinkMdu(mtu) ==> r == Err(OutOfMemory)
    ensures up && |data| <= ComputeLinkMdu(mtu) ==> r == Ok(SentPacket(c, iv, id, context, data))
  {
    if !up {
      return Err(LinkClosed);
    }
    if |data| > ComputeLinkMdu(mtu) {
      return Err(OutOfMemory);
    }
    var buf := new byte[|data| + OVERHEAD + BLOCK];
    var len := Encrypt(c, iv, data, buf);
    return Ok(Packet(LinkHeader(Data), None, id, None, context, buf[..len.value]));
  }

  /**
    On the wire, with the reserved IFAC byte, the packet of a payload fits the MTU exactly when the
    payload is within the MDU.
   */
  lemma SentPacketFits(c: Cipher, iv: Iv, id: Address, context: Context, mtu: nat, data: seq<byte>)
    requires Lawful(c) && mtu >= 84
    ensures var w := Wire(SentPacket(c, iv, id, context, data));
      w.Ok? && (|w.value| + RETICULUM_MIN_IFAC_SIZE <= mtu <==> |data| <= ComputeLinkMdu(mtu))
  {}

  /**
    What the peer reads off the wire: a data packet for this very link with this context, whose
    token opens to the payload given room.
   */
  lemma PeerReads(c: Cipher, iv: Iv, id: Address, context: Context, data: seq<byte>, room: nat)
    requires Lawful(c) && room >= PaddedLen(|data|)
    ensures var w := Wire(SentPacket(c, iv, id, context, data));
      && w.Ok? && Parse(w.value, 0).Ok?
      && (var p := Parse(w.value, 0).value;
          && p.header == DEFAULT_HEADER.(destinationType := Link, packetType := Data)
          && p.destination == id && p.context == context && p.transport == None && p.ifac == None
          && Open(c, p.data, room) == Ok(data))
  {
    hide Token, Open, Parse, Wire;
    ParseWire(SentPacket(c, iv, id, context, data));
    OpenToken(c, iv, data, room);
  }

  /**
    The peer's scratch buffer is sized for plaintext, not for padded text. A payload within the MDU
    is decrypted by a peer with the same MTU exactly when the MTU is below 548 or the payload is at
    least one block below the MDU.
   */
  lemma PeerDecrypts(c: Cipher, iv: Iv, mtu: nat, data: seq<byte>)
    requires Lawful(c) && |data| <= ComputeLinkMdu(mtu)
    ensures Open(c, Token(c, iv, data), DecryptRoom(mtu)) == Ok(data)
      <==> mtu < 548 || |data| + BLOCK <= ComputeLinkMdu(mtu)
  {
    OpenToken(c, iv, data, DecryptRoom(mtu));
    hide Open, Token;
    RoomSuffices(mtu, |data|);
  }

  lemma RoomSuffices(mtu: nat, n: nat)
    requires n <= ComputeLinkMdu(mtu)
    ensures DecryptRoom(mtu) >= PaddedLen(n) <==> mtu < 548 || n + BLOCK <= ComputeLinkMdu(mtu)
  {}

  /** At an MTU of 548 a payload of the whole MDU, 479 bytes, is sent but not decrypted. */
  lemma FullPayloadNotDecrypted(c: Cipher, iv: Iv, data: seq<byte>)
    requires Lawful(c) && |data| == 479
    ensures |data| == ComputeLinkMdu(548) && Open(c, Token(c, iv, data), DecryptRoom(548)) == Err(CryptoError)
  {}
}
