/** Link requests across a chain of relays: MTU signalling, link ids and the proof that closes the handshake. */
module LinkSetup {
  import opened Bytes
  import opened Wrappers
  import opened Buffer
  import opened Packet

  const LINK_MTU_SIZE := 3
  const LINK_MODE_AES256_CBC := 1
  const KEYS_LENGTH := 2 * PUBLIC_KEY_LENGTH
  const PATHFINDER_M := 128
  /** MTUs are signalled in 21 bits, under three mode bits. */
  const MTU_LIMIT := 0x20_0000

  type Key = k: seq<byte> | |k| == PUBLIC_KEY_LENGTH witness seq(PUBLIC_KEY_LENGTH, _ => 0)

  // ----- signalling

  function LinkSignallingBytes(mtu: nat): (bytes: seq<byte>)
    ensures |bytes| == LINK_MTU_SIZE
  {
    var v := mtu % 0x1_0000_0000 % MTU_LIMIT + LINK_MODE_AES256_CBC * MTU_LIMIT;
    [v / 0x1_0000, v / 0x100 % 0x100, v % 0x100]
  }

  function MtuFromSignalling(bytes: seq<byte>): nat {
    if |bytes| < LINK_MTU_SIZE then RETICULUM_MTU
    else (bytes[0] * 0x1_0000 + bytes[1] * 0x100 + bytes[2]) % MTU_LIMIT
  }

  function ModeFromSignalling(bytes: seq<byte>): nat {
    if |bytes| < LINK_MTU_SIZE then LINK_MODE_AES256_CBC else bytes[0] / 32
  }

  /** An MTU is read back as signalled exactly when it has at most 21 bits; the mode always is. */
  lemma SignallingRoundTrip(mtu: nat)
    ensures MtuFromSignalling(LinkSignallingBytes(mtu)) == mtu % MTU_LIMIT
    ensures MtuFromSignalling(LinkSignallingBytes(mtu)) == mtu <==> mtu < MTU_LIMIT
    ensures ModeFromSignalling(LinkSignallingBytes(mtu)) == LINK_MODE_AES256_CBC
  {
    var m := mtu % 0x1_0000_0000 % MTU_LIMIT;
    assert m == mtu % MTU_LIMIT;
    var v := m + MTU_LIMIT;
    assert v == v / 0x1_0000 * 0x1_0000 + v / 0x100 % 0x100 * 0x100 + v % 0x100;
    assert v / 0x1_0000 == m / 0x1_0000 + 32 && m / 0x1_0000 < 32;
  }

  // ----- the request on its way

  function Request(destination: Address, keys: seq<byte>, pathMtu: Option<nat>): Packet {
    var mtu := match pathMtu case Some(m) => m case None => RETICULUM_MTU;
    Packet(DEFAULT_HEADER.(packetType := LinkRequest), None, destination, None, CONTEXT_NONE,
      keys + LinkSignallingBytes(mtu))
  }

  function Strip(p: Packet): Packet
    requires |p.data| >= KEYS_LENGTH
  {
    p.(data := p.data[..KEYS_LENGTH])
  }

  function Min(a: nat, b: nat): nat {
    if a <= b then a else b
  }

  function MinKnown(a: nat, b: Option<nat>): nat {
    match b case Some(m) => Min(a, m) case None => a
  }

  /** Lower the signalled MTU to what the interfaces take, or drop the signalling where that is unknown. */
  function Clamp(p: Packet, inbound: Option<nat>, forwarding: bool, outbound: Option<nat>): Packet {
    if |p.data| != KEYS_LENGTH + LINK_MTU_SIZE then p
    else
      var pathMtu := MtuFromSignalling(p.data[KEYS_LENGTH..]);
      var limit := if forwarding then outbound else inbound;
      if limit.None? then Strip(p)
      else
        var clamped := Min(MinKnown(pathMtu, inbound), limit.value);
        if clamped < pathMtu then p.(data := p.data[..KEYS_LENGTH] + LinkSignallingBytes(clamped)) else p
  }

  /** What one relay knows and decides about a request. */
  datatype Relay = Relay(
    discovery: bool, inbound: Option<nat>, outbound: Option<nat>, remainingHops: byte, nextHop: Address)

  function Received(p: Packet): Packet {
    p.(header := p.header.(hops := if p.header.hops < 255 then p.header.hops + 1 else 255))
  }

  function Restamp(p: Packet, remainingHops: byte, nextHop: Address): Packet {
    if remainingHops > 0 then
      p.(header := p.header.(headerType := Type2, propagationType := Transport), transport := Some(nextHop))
    else
      p.(header := p.header.(headerType := Type1, propagationType := Broadcast), transport := None)
  }

  /** What a relay sends on, unless the request has come too far. */
  function Forward(r: Relay, sent: Packet): Option<Packet> {
    var p := Received(sent);
    if p.header.hops > PATHFINDER_M then None
    else Some(Restamp(if r.discovery then Clamp(p, r.inbound, true, r.outbound) else p, r.remainingHops, r.nextHop))
  }

  function Chain(relays: seq<Relay>, p: Packet): Option<Packet> {
    if relays == [] then Some(p)
    else match Forward(relays[0], p)
      case None => None
      case Some(q) => Chain(relays[1..], q)
  }

  /** What the destination's handler works on. */
  function Delivered(discovery: bool, inbound: Option<nat>, sent: Packet): Packet {
    var p := Received(sent);
    if discovery then Clamp(p, inbound, false, None) else p
  }

  // ----- link ids

  /** Two packets alike in what the link id covers. */
  predicate SameLink(p: Packet, q: Packet) {
    && p.header.destinationType == q.header.destinationType && p.header.packetType == q.header.packetType
    && p.destination == q.destination && p.context == q.context
    && (p.data == q.data
          || (|p.data| >= KEYS_LENGTH && |q.data| >= KEYS_LENGTH && p.data[..KEYS_LENGTH] == q.data[..KEYS_LENGTH]))
  }

  lemma SameLinkSameId(p: Packet, q: Packet)
    requires SameLink(p, q)
    ensures LinkIdInput(p) == LinkIdInput(q)
  {
    hide ToMeta;
    LowMeta(p.header);
    LowMeta(q.header);
    if p.data != q.data {
      assert |p.data| > KEYS_LENGTH || p.data == p.data[..KEYS_LENGTH];
      assert |q.data| > KEYS_LENGTH || q.data == q.data[..KEYS_LENGTH];
    }
  }

  /**
    The bytes hashed for a link id tell apart exactly the packets that differ in what it covers:
    kind, destination, context and keys.
   */
  lemma SameIdIffSameLink(p: Packet, q: Packet)
    ensures LinkIdInput(p) == LinkIdInput(q) <==> SameLink(p, q)
  {
    if SameLink(p, q) {
      SameLinkSameId(p, q);
    } else if LinkIdInput(p) == LinkIdInput(q) {
      var (a, b) := (p.(data := Keys(p)), q.(data := Keys(q)));
      SameHashIffSamePacket(a, b);
      assert false;
    }
  }

  /** A request's data as far as the link id goes. */
  function Keys(p: Packet): seq<byte> {
    if |p.data| > KEYS_LENGTH then p.data[..KEYS_LENGTH] else p.data
  }

  /** Two requests ask for the same link only for the same destination with the same keys, whatever they signal. */
  lemma RequestIdsDiffer(d1: Address, k1: seq<byte>, m1: Option<nat>, d2: Address, k2: seq<byte>, m2: Option<nat>)
    requires |k1| == |k2| == KEYS_LENGTH
    ensures LinkIdInput(Request(d1, k1, m1)) == LinkIdInput(Request(d2, k2, m2)) <==> d1 == d2 && k1 == k2
  {
    var (p, q) := (Request(d1, k1, m1), Request(d2, k2, m2));
    hide LinkSignallingBytes, LinkIdInput;
    SameIdIffSameLink(p, q);
    assert p.data[..KEYS_LENGTH] == k1 && q.data[..KEYS_LENGTH] == k2;
  }

  lemma ClampSameLink(p: Packet, inbound: Option<nat>, forwarding: bool, outbound: Option<nat>)
    ensures SameLink(p, Clamp(p, inbound, forwarding, outbound))
  {}

  /** Hop counts, clamps, strips and header rewrites leave the link id alone at every node of the path. */
  lemma {:induction false} IdAlongChain(relays: seq<Relay>, p: Packet)
    ensures Chain(relays, p).Some? ==> LinkIdInput(Chain(relays, p).value) == LinkIdInput(p)
    ensures forall discovery, inbound :: LinkIdInput(Delivered(discovery, inbound, p)) == LinkIdInput(p)
  {
    forall discovery, inbound ensures LinkIdInput(Delivered(discovery, inbound, p)) == LinkIdInput(p) {
      ClampSameLink(Received(p), inbound, false, None);
      hide Clamp;
      SameLinkSameId(p, Delivered(discovery, inbound, p));
    }
    if relays != [] && Forward(relays[0], p).Some? {
      var q := Forward(relays[0], p).value;
      ClampSameLink(Received(p), relays[0].inbound, true, relays[0].outbound);
      hide Clamp;
      SameLinkSameId(p, q);
      IdAlongChain(relays[1..], q);
    }
  }

  /** Retransmitting with another MTU asks for the same link. */
  lemma IdOfRetransmission(destination: Address, keys: seq<byte>, m1: Option<nat>, m2: Option<nat>)
    requires |keys| == KEYS_LENGTH
    ensures LinkIdInput(Request(destination, keys, m1)) == LinkIdInput(Request(destination, keys, m2))
  {}

  // ----- the way of the request

  /**
    A request crosses a chain exactly when its hops stay within 128. Each relay has then counted
    itself once, and the packet is addressed as the last relay decided: to its next hop while hops
    remain, and bare for a destination directly behind it.
   */
  lemma {:induction false} HopsAlongChain(relays: seq<Relay>, p: Packet)
    requires relays != []
    ensures Chain(relays, p).Some? <==> p.header.hops as int + |relays| <= PATHFINDER_M
    ensures Chain(relays, p).Some? ==>
      var (q, last) := (Chain(relays, p).value, relays[|relays| - 1]);
      && q.header.hops as int == p.header.hops as int + |relays|
      && q.destination == p.destination && Routed(q)
      && q.transport == (if last.remainingHops > 0 then Some(last.nextHop) else None)
      && q.header.propagationType == (if last.remainingHops > 0 then Transport else Broadcast)
    decreases |relays|
  {
    hide Clamp;
    ClampKeepsHeader(Received(p), relays[0].inbound, true, relays[0].outbound);
    if Forward(relays[0], p).Some? && |relays| > 1 {
      HopsAlongChain(relays[1..], Forward(relays[0], p).value);
    }
  }

  lemma ClampKeepsHeader(p: Packet, inbound: Option<nat>, forwarding: bool, outbound: Option<nat>)
    ensures Clamp(p, inbound, forwarding, outbound) == p.(data := Clamp(p, inbound, forwarding, outbound).data)
  {}

  // ----- the MTU that arrives

  /** A request's data: keys with a signalled MTU, or bare keys when the signalling has been stripped. */
  function Signalled(keys: seq<byte>, mtu: Option<nat>): seq<byte> {
    match mtu case Some(m) => keys + LinkSignallingBytes(m) case None => keys
  }

  function AfterRelay(r: Relay, mtu: Option<nat>): Option<nat> {
    if !r.discovery || mtu.None? then mtu
    else match r.outbound
      case None => None
      case Some(out) => Some(Min(MinKnown(mtu.value, r.inbound), out))
  }

  function AfterRelays(relays: seq<Relay>, mtu: Option<nat>): Option<nat> {
    if relays == [] then mtu else AfterRelays(relays[1..], AfterRelay(relays[0], mtu))
  }

  lemma ClampSignalled(
      p: Packet, keys: seq<byte>, mtu: Option<nat>, inbound: Option<nat>, forwarding: bool, outbound: Option<nat>)
    requires |keys| == KEYS_LENGTH && p.data == Signalled(keys, mtu) && (mtu.Some? ==> mtu.value < MTU_LIMIT)
    ensures var limit := if forwarding then outbound else inbound;
      Clamp(p, inbound, forwarding, outbound).data ==
        Signalled(keys, if mtu.None? || limit.None? then None else Some(Min(MinKnown(mtu.value, inbound), limit.value)))
  {
    if mtu.Some? {
      SignallingRoundTrip(mtu.value);
      hide LinkSignallingBytes, MtuFromSignalling;
      assert p.data[..KEYS_LENGTH] == keys && p.data[KEYS_LENGTH..] == LinkSignallingBytes(mtu.value);
    }
  }

  lemma {:induction false} ChainSignalled(relays: seq<Relay>, p: Packet, keys: seq<byte>, mtu: Option<nat>)
    requires |keys| == KEYS_LENGTH && p.data == Signalled(keys, mtu) && (mtu.Some? ==> mtu.value < MTU_LIMIT)
    ensures Chain(relays, p).Some? ==> Chain(relays, p).value.data == Signalled(keys, AfterRelays(relays, mtu))
    ensures AfterRelays(relays, mtu).Some? ==> AfterRelays(relays, mtu).value < MTU_LIMIT
  {
    if relays != [] {
      hide Clamp, Signalled;
      ClampSignalled(Received(p), keys, mtu, relays[0].inbound, true, relays[0].outbound);
      var rest := AfterRelay(relays[0], mtu);
      if Forward(relays[0], p).Some? {
        ChainSignalled(relays[1..], Forward(relays[0], p).value, keys, rest);
      } else {
        ChainSignalled(relays[1..], p.(data := Signalled(keys, rest)), keys, rest);
      }
    }
  }

  /** The hop MTUs a discovering path learns of: each relay's two interfaces and the destination's inbound one. */
  function Known(r: Relay): set<nat> {
    if !r.discovery then {} else
      (if r.inbound.Some? then {r.inbound.value} else {}) + (if r.outbound.Some? then {r.outbound.value} else {})
  }

  function KnownAll(relays: seq<Relay>): set<nat> {
    if relays == [] then {} else Known(relays[0]) + KnownAll(relays[1..])
  }

  /** A relay that discovers MTUs but does not know its outbound one. */
  predicate Strips(r: Relay) {
    r.discovery && r.outbound.None?
  }

  predicate IsMinimum(m: nat, s: set<nat>) {
    m in s && forall x | x in s :: m <= x
  }

  /** What is signalled after a chain is the least of everything known, unless some relay stripped it. */
  lemma {:induction false} AfterRelaysIsMinimum(relays: seq<Relay>, mtu: nat)
    ensures var r := AfterRelays(relays, Some(mtu));
      if exists i | 0 <= i < |relays| :: Strips(relays[i]) then r == None
      else r.Some? && IsMinimum(r.value, {mtu} + KnownAll(relays))
    decreases relays
  {
    if relays != [] {
      var tail := relays[1..];
      assert forall i | 0 <= i < |tail| :: tail[i] == relays[i + 1];
      if Strips(relays[0]) {
        StrippedStays(tail);
      } else {
        var m := AfterRelay(relays[0], Some(mtu)).value;
        AfterRelaysIsMinimum(tail, m);
        assert IsMinimum(m, {mtu} + Known(relays[0]));
        assert (exists i | 0 <= i < |relays| :: Strips(relays[i])) ==>
            exists i | 0 <= i < |tail| :: Strips(tail[i]) by {
          if i :| 0 <= i < |relays| && Strips(relays[i]) {
            assert Strips(tail[i - 1]);
          }
        }
      }
    }
  }

  lemma {:induction false} StrippedStays(relays: seq<Relay>)
    ensures AfterRelays(relays, None) == None
  {
    if relays != [] {
      StrippedStays(relays[1..]);
    }
  }

  /** All MTUs known on the way, the destination's inbound one included. */
  function KnownOnPath(relays: seq<Relay>, discovery: bool, inbound: Option<nat>): set<nat> {
    KnownAll(relays) + if discovery && inbound.Some? then {inbound.value} else {}
  }

  predicate StrippedOnPath(relays: seq<Relay>, discovery: bool, inbound: Option<nat>) {
    (exists i | 0 <= i < |relays| :: Strips(relays[i])) || (discovery && inbound.None?)
  }

  /** The signalling that reaches the destination's handler. */
  function PathMtu(relays: seq<Relay>, discovery: bool, inbound: Option<nat>, mtu: nat): Option<nat> {
    var m := AfterRelays(relays, Some(mtu));
    if !discovery || m.None? then m
    else match inbound case None => None case Some(i) => Some(Min(m.value, i))
  }

  /**
    Over any chain of relays: keys intact, the request that reaches the destination has either lost
    its signalling, exactly when some discovering node knew no MTU to forward or receive at, or
    signals the least of the initiator's MTU and every MTU known on the way.
   */
  lemma MtuAtDestination(
      relays: seq<Relay>, destination: Address, keys: seq<byte>, mtu: nat, discovery: bool, inbound: Option<nat>)
    requires |keys| == KEYS_LENGTH && mtu < MTU_LIMIT
    ensures var (q, m) := (Chain(relays, Request(destination, keys, Some(mtu))),
        PathMtu(relays, discovery, inbound, mtu));
      && (q.Some? ==> Delivered(discovery, inbound, q.value).data == Signalled(keys, m))
      && (m.None? <==> StrippedOnPath(relays, discovery, inbound))
      && (m.Some? ==> m.value < MTU_LIMIT && IsMinimum(m.value, {mtu} + KnownOnPath(relays, discovery, inbound)))
  {
    var p := Request(destination, keys, Some(mtu));
    ChainSignalled(relays, p, keys, Some(mtu));
    AfterRelaysIsMinimum(relays, mtu);
    if Chain(relays, p).Some? {
      var q := Chain(relays, p).value;
      ClampSignalled(Received(q), keys, AfterRelays(relays, Some(mtu)), inbound, false, None);
    }
  }

  /** The MTU a request's data means. */
  function Meant(mtu: Option<nat>): nat {
    match mtu case Some(m) => m case None => RETICULUM_MTU
  }

  /**
    The agreed MTU suits every known interface exactly when no discovering node lacked an MTU or no
    known interface is below 500.
   */
  lemma AgreedMtuSuitsPath(relays: seq<Relay>, discovery: bool, inbound: Option<nat>, mtu: nat)
    requires mtu < MTU_LIMIT
    ensures var m := PathMtu(relays, discovery, inbound, mtu);
      (forall x | x in KnownOnPath(relays, discovery, inbound) :: Meant(m) <= x)
      <==> !StrippedOnPath(relays, discovery, inbound)
           || forall x | x in KnownOnPath(relays, discovery, inbound) :: x >= RETICULUM_MTU
  {
    var keys: seq<byte> := seq(KEYS_LENGTH, _ => 0);
    MtuAtDestination(relays, seq(ADDRESS_HASH_SIZE, _ => 0), keys, mtu, discovery, inbound);
  }

  /** A relay without an outbound MTU ahead of an interface of 300: the ends agree on 500. */
  lemma StrippedRequestExceedsPath(hop: Address)
    ensures var relays := [Relay(true, None, None, 1, hop), Relay(true, None, Some(300), 0, hop)];
      300 in KnownOnPath(relays, false, None) && Meant(PathMtu(relays, false, None, 1000)) == 500
  {
    var relays := [Relay(true, None, None, 1, hop), Relay(true, None, Some(300), 0, hop)];
    assert 300 in Known(relays[1]) && 300 in KnownAll(relays[1..]) && 300 in KnownAll(relays);
    assert Strips(relays[0]);
    AfterRelaysIsMinimum(relays, 1000);
  }

  /**
    A relay that lowers the MTU writes its own mode bits: a request's mode survives exactly when it
    was that mode or nothing was lowered.
   */
  lemma ClampKeepsMode(p: Packet, inbound: Option<nat>, outbound: nat)
    requires |p.data| == KEYS_LENGTH + LINK_MTU_SIZE
    ensures var (before, after) := (p.data[KEYS_LENGTH..], Clamp(p, inbound, true, Some(outbound)).data[KEYS_LENGTH..]);
      var lowered := Min(MinKnown(MtuFromSignalling(before), inbound), outbound) < MtuFromSignalling(before);
      ModeFromSignalling(after) == ModeFromSignalling(before) <==>
      ModeFromSignalling(before) == LINK_MODE_AES256_CBC || !lowered
  {}

  /** A request of mode 0 lowered from 1024 to 500 bytes becomes one of mode 1. */
  lemma ClampRewritesMode(keys: seq<byte>)
    requires |keys| == KEYS_LENGTH
    ensures var p := Request(seq(ADDRESS_HASH_SIZE, _ => 0), keys, None).(data := keys + [0, 4, 0]);
      && ModeFromSignalling(p.data[KEYS_LENGTH..]) == 0
      && ModeFromSignalling(Clamp(p, None, true, Some(500)).data[KEYS_LENGTH..]) == LINK_MODE_AES256_CBC
  {}

  // ----- the proof

  /** The destination's identity and the hash, as functions. */
  datatype Crypto = Crypto(
    hash: seq<byte> -> Address,
    validKeys: seq<byte> -> bool,
    sign: seq<byte> -> Signature,
    verify: (seq<byte>, Signature) -> bool,
    verifyingKey: Key)

  datatype InLink = InLink(id: Address, publicKey: Key, mtu: nat)

  function NewFromRequest(c: Crypto, p: Packet, publicKey: Key): Result<InLink, RnsError> {
    if |p.data| != KEYS_LENGTH && |p.data| != KEYS_LENGTH + LINK_MTU_SIZE then Err(InvalidArgument)
    else if !c.validKeys(p.data[..KEYS_LENGTH]) then Err(CryptoError)
    else if ModeFromSignalling(p.data[KEYS_LENGTH..]) != LINK_MODE_AES256_CBC then Err(InvalidArgument)
    else Ok(InLink(c.hash(LinkIdInput(p)), publicKey, MtuFromSignalling(p.data[KEYS_LENGTH..])))
  }

  /**
    A destination makes a link of exactly the requests with two valid keys, and signalling of the
    one supported mode or none.
   */
  lemma RequestAcceptedExactly(c: Crypto, p: Packet, publicKey: Key)
    ensures NewFromRequest(c, p, publicKey).Ok? <==>
      && |p.data| in {64, 67} && c.validKeys(p.data[..64])
      && (|p.data| == 67 ==> p.data[64] / 32 == 1)
    ensures NewFromRequest(c, p, publicKey).Ok? ==>
      NewFromRequest(c, p, publicKey).value.mtu ==
      if |p.data| == 64 then 500 else BigEndian(p.data[64] % 32, p.data[65], p.data[66])
  {
    if |p.data| == 67 {
      assert p.data[64..] == [p.data[64], p.data[65], p.data[66]];
    }
  }

  function BigEndian(a: nat, b: nat, c: nat): nat {
    0x1_0000 * a + 0x100 * b + c
  }

  function ProofMessage(c: Crypto, l: InLink): seq<byte> {
    l.id + l.publicKey + c.verifyingKey + LinkSignallingBytes(l.mtu)
  }

  function Prove(c: Crypto, l: InLink): Packet {
    Packet(DEFAULT_HEADER.(destinationType := Link, packetType := Proof), None, l.id, None, LINK_REQUEST_PROOF,
      c.sign(ProofMessage(c, l)) + l.publicKey + LinkSignallingBytes(l.mtu))
  }

  const PROOF_LENGTH := SIGNATURE_LENGTH + PUBLIC_KEY_LENGTH
  /** Length of what a link proof signs, without the signalling. */
  const SIGNED_LENGTH := ADDRESS_HASH_SIZE + 2 * PUBLIC_KEY_LENGTH

  /** The initiator's check of a proof for its link `id`; the confirmed MTU. */
  function Validate(c: Crypto, id: Address, p: Packet): Result<nat, RnsError> {
    if |p.data| != PROOF_LENGTH && |p.data| != PROOF_LENGTH + LINK_MTU_SIZE then Err(PacketError)
    else
      var signalling := p.data[PROOF_LENGTH..];
      if ModeFromSignalling(signalling) != LINK_MODE_AES256_CBC then Err(InvalidArgument)
      else if !c.verify(id + p.data[SIGNATURE_LENGTH..PROOF_LENGTH] + c.verifyingKey + signalling,
          p.data[..SIGNATURE_LENGTH])
      then Err(IncorrectSignature)
      else Ok(MtuFromSignalling(signalling))
  }

  /** A destination's own proof is accepted, and both ends hold its MTU. */
  lemma GenuineProofAgrees(c: Crypto, l: InLink)
    requires c.verify(ProofMessage(c, l), c.sign(ProofMessage(c, l)))
    ensures Validate(c, l.id, Prove(c, l)) == Ok(l.mtu % MTU_LIMIT)
  {
    SignallingRoundTrip(l.mtu);
    hide LinkSignallingBytes;
    var d := Prove(c, l).data;
    assert d[..SIGNATURE_LENGTH] == c.sign(ProofMessage(c, l));
    assert d[SIGNATURE_LENGTH..PROOF_LENGTH] == l.publicKey;
    assert d[PROOF_LENGTH..] == LinkSignallingBytes(l.mtu);
  }

  /** Only the proofs of `links` verify, among messages of a proof's length. */
  ghost predicate Unforged(c: Crypto, links: set<InLink>) {
    && (forall l | l in links :: l.mtu < MTU_LIMIT)
    && (forall msg, sig | c.verify(msg, sig) && (|msg| == SIGNED_LENGTH || |msg| == SIGNED_LENGTH + LINK_MTU_SIZE) ::
        exists l | l in links :: msg == ProofMessage(c, l))
  }

  /**
    Unless signatures are forged, whatever proof the initiator accepts was made by a link with its
    id, and both ends hold that link's MTU.
   */
  lemma AcceptedProofAgrees(c: Crypto, links: set<InLink>, id: Address, p: Packet)
    requires Unforged(c, links) && Validate(c, id, p).Ok?
    ensures exists l | l in links ::
      l.id == id && l.publicKey == p.data[SIGNATURE_LENGTH..PROOF_LENGTH] && Validate(c, id, p) == Ok(l.mtu)
  {
    var (key, signalling) := (p.data[SIGNATURE_LENGTH..PROOF_LENGTH], p.data[PROOF_LENGTH..]);
    var msg := id + key + c.verifyingKey + signalling;
    var l :| l in links && msg == ProofMessage(c, l);
    SignallingRoundTrip(l.mtu);
    hide LinkSignallingBytes;
    Layout(id, key, c.verifyingKey, signalling);
    Layout(l.id, l.publicKey, c.verifyingKey, LinkSignallingBytes(l.mtu));
  }

  lemma Layout(id: Address, key: Key, verifyingKey: Key, signalling: seq<byte>)
    ensures var msg := id + key + verifyingKey + signalling;
      && msg[..ADDRESS_HASH_SIZE] == id
      && msg[ADDRESS_HASH_SIZE..ADDRESS_HASH_SIZE + PUBLIC_KEY_LENGTH] == key
      && msg[SIGNED_LENGTH..] == signalling
  {}

  /**
    The whole handshake: a request over any chain, the link the destination makes of it and the
    proof it sends back, addressed to the link id the initiator computed, leave both ends with that
    id and with the same MTU, the one `MtuAtDestination` describes.
   */
  lemma HandshakeAgrees(c: Crypto, relays: seq<Relay>, destination: Address, keys: seq<byte>, mtu: nat,
                        discovery: bool, inbound: Option<nat>, publicKey: Key)
    requires |keys| == KEYS_LENGTH && mtu < MTU_LIMIT && c.validKeys(keys)
    requires Chain(relays, Request(destination, keys, Some(mtu))).Some?
    requires forall msg :: c.verify(msg, c.sign(msg))
    ensures var p := Request(destination, keys, Some(mtu));
      var r := NewFromRequest(c, Delivered(discovery, inbound, Chain(relays, p).value), publicKey);
      && r.Ok?
      && r.value.id == c.hash(LinkIdInput(p))
      && r.value.mtu == Meant(PathMtu(relays, discovery, inbound, mtu))
      && Prove(c, r.value).destination == c.hash(LinkIdInput(p))
      && Prove(c, r.value).header == DEFAULT_HEADER.(destinationType := Link, packetType := Proof)
      && Prove(c, r.value).context == LINK_REQUEST_PROOF
      && Validate(c, c.hash(LinkIdInput(p)), Prove(c, r.value)) == Ok(r.value.mtu)
  {
    hide Validate, PathMtu, Chain;
    var p, m := Request(destination, keys, Some(mtu)), PathMtu(relays, discovery, inbound, mtu);
    var q := Chain(relays, p).value;
    var d := Delivered(discovery, inbound, q);
    MtuAtDestination(relays, destination, keys, mtu, discovery, inbound);
    IdAlongChain(relays, p);
    IdAlongChain([], q);
    assert LinkIdInput(d) == LinkIdInput(p);
    if m.Some? {
      SignallingRoundTrip(m.value);
    }
    assert d.data[..KEYS_LENGTH] == keys
      && d.data[KEYS_LENGTH..] == (if m.Some? then LinkSignallingBytes(m.value) else []);
    var l := NewFromRequest(c, d, publicKey).value;
    GenuineProofAgrees(c, l);
  }
}
