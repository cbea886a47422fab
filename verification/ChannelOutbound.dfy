/**
  The message channel's sender: an adaptive window of messages in flight, retransmitted on timeout.

  A packet is built and hashed with no context, the hash is what the sender files the message under,
  and then the packet goes out with the channel's context. The packet hash is a parameter.
 */
module ChannelOutbound {
  import opened Wrappers
  import opened SequenceNumbers
  import opened Bytes
  import opened Packet

  const WINDOW := 2
  const WINDOW_MIN := 2
  const WINDOW_MIN_LIMIT_MEDIUM := 5
  const WINDOW_MIN_LIMIT_FAST := 16
  const WINDOW_MAX_SLOW := 5
  const WINDOW_MAX_MEDIUM := 12
  const WINDOW_MAX_FAST := 48
  const WINDOW_FLEXIBILITY := 4
  const FAST_RATE_THRESHOLD := 10
  const RTT_FAST := 0.18
  const RTT_MEDIUM := 0.75
  const RTT_SLOW := 1.45
  const MAX_TRIES := 5

  /** The round counters wrap at 16 bits. */
  datatype Params = Params(fastRounds: U16, mediumRounds: U16, window: nat, windowMax: nat, windowMin: nat)

  function InitialParams(rtt: real): Params {
    if rtt > RTT_SLOW then Params(0, 0, 1, 1, 1) else Params(0, 0, WINDOW, WINDOW_MAX_SLOW, WINDOW_MIN)
  }

  /** An acknowledgement widens the window by one and, on the tenth fast or medium round in a row, lifts its limits. */
  function AdjustParams(q: Params, rtt: real): Params {
    var p := if q.window < q.windowMax then q.(window := q.window + 1) else q;
    if rtt == 0.0 then p
    else if rtt > RTT_MEDIUM then p.(fastRounds := 0, mediumRounds := 0)
    else if rtt > RTT_FAST then
      var m := p.(fastRounds := 0, mediumRounds := (p.mediumRounds + 1) % MODULUS);
      if m.windowMax < WINDOW_MAX_MEDIUM && m.mediumRounds == FAST_RATE_THRESHOLD
      then m.(windowMax := WINDOW_MAX_MEDIUM, windowMin := WINDOW_MIN_LIMIT_MEDIUM) else m
    else
      var f := p.(fastRounds := (p.fastRounds + 1) % MODULUS);
      if f.windowMax < WINDOW_MAX_FAST && f.fastRounds == FAST_RATE_THRESHOLD
      then f.(windowMax := WINDOW_MAX_FAST, windowMin := WINDOW_MIN_LIMIT_FAST) else f
  }

  /** A timeout narrows the window, and its upper limit while that is more than the flexibility above the lower. */
  function ShrinkParams(p: Params): Params {
    if p.window <= p.windowMin then p
    else
      var spread := if p.windowMax > p.windowMin then p.windowMax - p.windowMin else 0;
      var flex := if spread < WINDOW_FLEXIBILITY then spread else WINDOW_FLEXIBILITY;
      p.(window := p.window - 1, windowMax := if p.windowMax > p.windowMin + flex then p.windowMax - 1 else p.windowMax)
  }

  // ----- window limits

  predicate Sound(p: Params) {
    1 <= p.window <= p.windowMax <= WINDOW_MAX_FAST && 1 <= p.windowMin <= p.windowMax
  }

  lemma ParamsKeepSound(p: Params, rtt: real)
    requires Sound(p)
    ensures Sound(AdjustParams(p, rtt)) && Sound(ShrinkParams(p))
  {}

  function Widened(p: Params): nat {
    if p.window < p.windowMax then p.window + 1 else p.window
  }

  /** The tenth medium or fast round in a row lifts the lower limit above the window. */
  predicate UpgradeOvertakes(p: Params, rtt: real) {
    || (RTT_FAST < rtt <= RTT_MEDIUM && p.windowMax < WINDOW_MAX_MEDIUM
        && (p.mediumRounds + 1) % MODULUS == FAST_RATE_THRESHOLD && Widened(p) < WINDOW_MIN_LIMIT_MEDIUM)
    || (rtt <= RTT_FAST && rtt != 0.0 && p.windowMax < WINDOW_MAX_FAST
        && (p.fastRounds + 1) % MODULUS == FAST_RATE_THRESHOLD && Widened(p) < WINDOW_MIN_LIMIT_FAST)
  }

  /**
    A window at or above its lower limit stays there, but for an upgrade that overtakes it; a
    timeout never takes it below.
   */
  lemma LowerLimitHolds(p: Params, rtt: real)
    requires Sound(p) && p.windowMin <= p.window
    ensures var q := AdjustParams(p, rtt); q.windowMin <= q.window <==> !UpgradeOvertakes(p, rtt)
    ensures ShrinkParams(p).windowMin <= ShrinkParams(p).window
  {}

  function Shrunk(p: Params, n: nat): Params {
    if n == 0 then p else ShrinkParams(Shrunk(p, n - 1))
  }

  /**
    Each timeout takes one off a window above its lower limit. The upper limit comes down with it,
    but never to within less than four of the lower one.
   */
  lemma {:induction false} TimeoutsNarrow(p: Params, n: nat)
    requires Sound(p) && p.windowMin <= p.window
    ensures var (q, steps) := (Shrunk(p, n), if n <= p.window - p.windowMin then n else p.window - p.windowMin);
      && q.window == p.window - steps && q.windowMin == p.windowMin
      && q.windowMax ==
        (if p.windowMax <= p.windowMin + 4 then p.windowMax
         else if p.windowMax - steps >= p.windowMin + 4 then p.windowMax - steps
         else p.windowMin + 4)
      && q == p.(window := q.window, windowMax := q.windowMax)
  {
    if n > 0 {
      TimeoutsNarrow(p, n - 1);
    }
  }

  /**
    Rounds of up to 0.18 s since the last slower one, and of over 0.18 up to 0.75 s since the last
    over 0.75; a round of no length is none.
   */
  function FastRun(rtts: seq<real>): nat {
    if rtts == [] then 0
    else
      var (run, rtt) := (FastRun(rtts[..|rtts| - 1]), rtts[|rtts| - 1]);
      if rtt == 0.0 then run else if rtt <= 0.18 then run + 1 else 0
  }

  function MediumRun(rtts: seq<real>): nat {
    if rtts == [] then 0
    else
      var (run, rtt) := (MediumRun(rtts[..|rtts| - 1]), rtts[|rtts| - 1]);
      if rtt == 0.0 || rtt <= 0.18 then run else if rtt <= 0.75 then run + 1 else 0
  }

  function AdjustedBy(p: Params, rtts: seq<real>): Params {
    if rtts == [] then p else AdjustParams(AdjustedBy(p, rtts[..|rtts| - 1]), rtts[|rtts| - 1])
  }

  /** The round counters count those runs, at 16 bits. */
  lemma {:induction false} CountersCountRuns(start: real, rtts: seq<real>)
    ensures var p := AdjustedBy(InitialParams(start), rtts);
      p.fastRounds == FastRun(rtts) % MODULUS && p.mediumRounds == MediumRun(rtts) % MODULUS
  {
    if rtts != [] {
      CountersCountRuns(start, rtts[..|rtts| - 1]);
      AdvanceCounter(FastRun(rtts[..|rtts| - 1]));
      AdvanceCounter(MediumRun(rtts[..|rtts| - 1]));
    }
  }

  lemma AdvanceCounter(n: nat)
    ensures (n % MODULUS + 1) % MODULUS == (n + 1) % MODULUS
  {}

  /**
    The limits rise exactly with the tenth such round, to 5 and 12 or to 16 and 48, never again at a
    tier reached; the window widens by one below its limit.
   */
  lemma TierUpgrades(p: Params, rtt: real)
    ensures var q := AdjustParams(p, rtt);
      && q.window == (if p.window < p.windowMax then p.window + 1 else p.window)
      && (q.windowMin, q.windowMax) ==
        (if 0.18 < rtt <= 0.75 && q.mediumRounds == 10 && p.windowMax < 12 then (5, 12)
         else if rtt <= 0.18 && rtt != 0.0 && q.fastRounds == 10 && p.windowMax < 48 then (16, 48)
         else (p.windowMin, p.windowMax))
  {}

  // ----- the sender

  const CHANNEL: Context := 0x0e

  /** A link packet as it is built. */
  type DataPacket = p: Packet | p.context == CONTEXT_NONE
    witness Packet(DEFAULT_HEADER, None, seq(ADDRESS_HASH_SIZE, _ => 0), None, CONTEXT_NONE, [])

  /** The packet as it is sent. */
  function OnWire(p: DataPacket): Packet {
    p.(context := CHANNEL)
  }

  /** What a sender files a packet under, and what a peer's proof of a packet names. */
  function PacketHash<H>(hash: seq<byte> -> H, p: Packet): H {
    hash(HashInput(p))
  }

  /**
    A message in flight: which one, counting from the first sent, how often it has been transmitted,
    and the packet last built of it.
   */
  datatype Entry = Entry(serial: nat, tries: nat, packet: DataPacket)

  /**
    `transmitted[i]` counts the transmissions of message `i`, `numbers[i]` is the sequence number in
    its envelope; `wire` lists the packets sent.
   */
  datatype Sender<!H> = Sender(
    params: Params,
    sent: map<H, Entry>,
    delivered: set<H>,
    next: U16,
    linkClosed: bool,
    transmitted: seq<nat>,
    numbers: seq<U16>,
    wire: seq<Packet>)

  datatype Op<H> =
    | Enqueue(ready: bool, fits: bool, built: Option<DataPacket>)
    | ProofOf(hash: H, rtt: real)
    | TimeoutOf(hash: H, built: Option<DataPacket>)

  /** `ready` is an uncancelled channel on an active link; `built` is the packet if encryption succeeds. */
  function EnqueueSend<H>(
      hash: seq<byte> -> H, s: Sender<H>, ready: bool, fits: bool, built: Option<DataPacket>): Sender<H> {
    if !ready || |s.sent| >= s.params.window || !fits || built.None? then s
    else s.(
      sent := s.sent[PacketHash(hash, built.value) := Entry(|s.transmitted|, 1, built.value)],
      next := (s.next + 1) % MODULUS,
      transmitted := s.transmitted + [1],
      numbers := s.numbers + [s.next],
      wire := s.wire + [OnWire(built.value)])
  }

  function HandleProof<H>(s: Sender<H>, proven: H, rtt: real): Sender<H> {
    if proven !in s.sent then s
    else s.(sent := s.sent - {proven}, delivered := s.delivered + {proven}, params := AdjustParams(s.params, rtt))
  }

  /** The fifth timeout closes the link; earlier ones retransmit under the new packet's hash. */
  function HandleTimeout<H>(hash: seq<byte> -> H, s: Sender<H>, expired: H, built: Option<DataPacket>): Sender<H> {
    if expired !in s.sent then s
    else if s.sent[expired].tries >= MAX_TRIES then s.(linkClosed := true)
    else if built.None? then s.(params := ShrinkParams(s.params))
    else Resend(hash, s.(params := ShrinkParams(s.params)), expired, built.value)
  }

  function Resend<H>(hash: seq<byte> -> H, s: Sender<H>, expired: H, p: DataPacket): Sender<H>
    requires expired in s.sent
  {
    var e := s.sent[expired];
    s.(
      sent := (s.sent - {expired})[PacketHash(hash, p) := Entry(e.serial, e.tries + 1, p)],
      transmitted :=
        if e.serial < |s.transmitted| then s.transmitted[e.serial := s.transmitted[e.serial] + 1] else s.transmitted,
      wire := s.wire + [OnWire(p)])
  }

  function Apply<H>(hash: seq<byte> -> H, s: Sender<H>, op: Op<H>): Sender<H> {
    match op
    case Enqueue(ready, fits, built) => EnqueueSend(hash, s, ready, fits, built)
    case ProofOf(proven, rtt) => HandleProof(s, proven, rtt)
    case TimeoutOf(expired, built) => HandleTimeout(hash, s, expired, built)
  }

  function Fresh<H>(rtt: real): Sender<H> {
    Sender(InitialParams(rtt), map[], {}, 0, false, [], [], [])
  }

  function Run<H>(hash: seq<byte> -> H, rtt: real, ops: seq<Op<H>>): Sender<H> {
    if ops == [] then Fresh(rtt)
    else Apply(hash, Run(hash, rtt, ops[..|ops| - 1]), ops[|ops| - 1])
  }

  lemma RunSnoc<H>(hash: seq<byte> -> H, rtt: real, ops: seq<Op<H>>, op: Op<H>)
    ensures Run(hash, rtt, ops + [op]) == Apply(hash, if ops == [] then Fresh(rtt) else Run(hash, rtt, ops), op)
  {}

  // ----- bounds over every run

  predicate Counted(e: Entry, transmitted: seq<nat>) {
    e.serial < |transmitted| && e.tries == transmitted[e.serial]
  }

  ghost predicate Distinct<H(!new)>(sent: map<H, Entry>) {
    forall g, h | g in sent && h in sent && g != h :: sent[g].serial != sent[h].serial
  }

  ghost predicate AtMostFive(transmitted: seq<nat>) {
    forall i | 0 <= i < |transmitted| :: 1 <= transmitted[i] <= MAX_TRIES
  }

  /** Entries count their own message's transmissions, one entry a message. */
  ghost predicate Tracks<H(!new)>(sent: map<H, Entry>, transmitted: seq<nat>) {
    (forall h | h in sent :: Counted(sent[h], transmitted)) && Distinct(sent) && AtMostFive(transmitted)
  }

  ghost predicate Inv<H(!new)>(s: Sender<H>) {
    Sound(s.params) && |s.sent| <= WINDOW_MAX_FAST && Tracks(s.sent, s.transmitted)
  }

  lemma MapSizes<H>(m: map<H, Entry>, k: H, e: Entry)
    ensures |m[k := e]| <= |m| + 1 && (k !in m ==> |m[k := e]| == |m| + 1)
    ensures |m - {k}| <= |m| && (k in m ==> |m - {k}| == |m| - 1)
  {}

  lemma TrackAgain<H(!new)>(sent: map<H, Entry>, transmitted: seq<nat>, was: H, next: H, p: DataPacket)
    requires Tracks(sent, transmitted) && was in sent && sent[was].tries < MAX_TRIES
    ensures var e := sent[was];
      && Counted(e, transmitted)
      && Tracks((sent - {was})[next := Entry(e.serial, e.tries + 1, p)],
             transmitted[e.serial := transmitted[e.serial] + 1])
  {}

  lemma EnqueueKeeps<H(!new)>(hash: seq<byte> -> H, s: Sender<H>, ready: bool, fits: bool, built: Option<DataPacket>)
    requires Inv(s)
    ensures Inv(EnqueueSend(hash, s, ready, fits, built))
  {}

  lemma ProofKeeps<H(!new)>(s: Sender<H>, proven: H, rtt: real)
    requires Inv(s)
    ensures Inv(HandleProof(s, proven, rtt))
  {
    ParamsKeepSound(s.params, rtt);
    hide AdjustParams;
    if proven in s.sent {
      MapSizes(s.sent, proven, s.sent[proven]);
    }
  }

  lemma ResendKeeps<H(!new)>(hash: seq<byte> -> H, s: Sender<H>, expired: H, p: DataPacket)
    requires Inv(s) && expired in s.sent && s.sent[expired].tries < MAX_TRIES
    ensures Inv(Resend(hash, s, expired, p))
  {
    hide Sound, Tracks;
    var e := s.sent[expired];
    MapSizes(s.sent, expired, e);
    MapSizes(s.sent - {expired}, PacketHash(hash, p), Entry(e.serial, e.tries + 1, p));
    TrackAgain(s.sent, s.transmitted, expired, PacketHash(hash, p), p);
  }

  lemma TimeoutKeeps<H(!new)>(hash: seq<byte> -> H, s: Sender<H>, expired: H, built: Option<DataPacket>)
    requires Inv(s)
    ensures Inv(HandleTimeout(hash, s, expired, built))
  {
    hide ShrinkParams, Sound, Tracks, Resend;
    ParamsKeepSound(s.params, 0.0);
    if expired in s.sent && s.sent[expired].tries < MAX_TRIES && built.Some? {
      ResendKeeps(hash, s.(params := ShrinkParams(s.params)), expired, built.value);
    }
  }

  lemma ApplyKeeps<H(!new)>(hash: seq<byte> -> H, s: Sender<H>, op: Op<H>)
    requires Inv(s)
    ensures Inv(Apply(hash, s, op))
  {
    match op
    case Enqueue(ready, fits, built) => EnqueueKeeps(hash, s, ready, fits, built);
    case ProofOf(proven, rtt) => ProofKeeps(s, proven, rtt);
    case TimeoutOf(expired, built) => TimeoutKeeps(hash, s, expired, built);
  }

  /**
    Over any mix of sends, proofs of any hashes with any round-trip times, and timeouts, and
    whatever the packet hash: the window stays between 1 and its limit of at most 48, at most 48
    messages are in flight, and no message is transmitted more than five times.
   */
  lemma {:induction false} RunKeeps<H(!new)>(hash: seq<byte> -> H, rtt: real, ops: seq<Op<H>>)
    ensures Inv(Run(hash, rtt, ops))
  {
    if ops != [] {
      RunKeeps(hash, rtt, ops[..|ops| - 1]);
      ApplyKeeps(hash, Run(hash, rtt, ops[..|ops| - 1]), ops[|ops| - 1]);
    }
  }

  /** In every run, message `i` goes out under sequence number `i`, wrapping at 16 bits: sends that fail use none up. */
  lemma {:induction false} RunNumbers<H(!new)>(hash: seq<byte> -> H, rtt: real, ops: seq<Op<H>>)
    ensures var s := Run(hash, rtt, ops);
      && |s.numbers| == |s.transmitted| && s.next == |s.transmitted| % MODULUS
      && forall i | 0 <= i < |s.numbers| :: s.numbers[i] == i % MODULUS
  {
    hide Apply;
    if ops != [] {
      RunNumbers(hash, rtt, ops[..|ops| - 1]);
      NumbersStep(hash, Run(hash, rtt, ops[..|ops| - 1]), ops[|ops| - 1]);
    }
  }

  lemma NumbersStep<H(!new)>(hash: seq<byte> -> H, s: Sender<H>, op: Op<H>)
    ensures var t := Apply(hash, s, op);
      || (t.numbers == s.numbers && |t.transmitted| == |s.transmitted| && t.next == s.next)
      || (t.numbers == s.numbers + [s.next] && t.transmitted == s.transmitted + [1] && t.next == (s.next + 1) % MODULUS)
  {
    hide AdjustParams, ShrinkParams, PacketHash, OnWire;
  }

  /** Operation `j` proves a hash that is on file then. */
  ghost predicate Proves<H(!new)>(hash: seq<byte> -> H, rtt: real, ops: seq<Op<H>>, j: nat, h: H)
    requires j < |ops|
  {
    ops[j].ProofOf? && ops[j].hash == h && h in Run(hash, rtt, ops[..j]).sent
  }

  /** In every run, reported delivered is exactly what was proven while on file. */
  lemma {:induction false} DeliveredIffProven<H(!new)>(hash: seq<byte> -> H, rtt: real, ops: seq<Op<H>>, h: H)
    ensures h in Run(hash, rtt, ops).delivered <==> exists j | 0 <= j < |ops| :: Proves(hash, rtt, ops, j, h)
  {
    if ops != [] {
      var init := ops[..|ops| - 1];
      DeliveredIffProven(hash, rtt, init, h);
      forall j | 0 <= j < |init| ensures Proves(hash, rtt, init, j, h) <==> Proves(hash, rtt, ops, j, h) {
        assert init[..j] == ops[..j];
      }
      DeliveredStep(hash, Run(hash, rtt, init), ops[|ops| - 1], h);
      hide Apply;
      assert Proves(hash, rtt, ops, |init|, h) <==>
        ops[|ops| - 1].ProofOf? && ops[|ops| - 1].hash == h && h in Run(hash, rtt, init).sent;
    }
  }

  lemma DeliveredStep<H(!new)>(hash: seq<byte> -> H, s: Sender<H>, op: Op<H>, h: H)
    ensures h in Apply(hash, s, op).delivered <==> h in s.delivered || (op.ProofOf? && op.hash == h && h in s.sent)
    ensures op.ProofOf? ==> Apply(hash, s, op).sent == s.sent - {op.hash}
  {
    hide AdjustParams, ShrinkParams, PacketHash, OnWire;
  }

  /** Message `i` has been sent and is no longer tracked. */
  ghost predicate Settled<H(!new)>(s: Sender<H>, i: nat) {
    i < |s.transmitted| && forall h | h in s.sent :: s.sent[h].serial != i
  }

  function Continue<H>(hash: seq<byte> -> H, s: Sender<H>, ops: seq<Op<H>>): Sender<H>
    decreases |ops|
  {
    if ops == [] then s else Continue(hash, Apply(hash, s, ops[0]), ops[1..])
  }

  /** A message whose entry a proof has removed is never transmitted again, whatever follows. */
  lemma RemovedIsNotResent<H(!new)>(hash: seq<byte> -> H, s: Sender<H>, proven: H, rtt: real, ops: seq<Op<H>>)
    requires Inv(s) && proven in s.sent
    ensures var (i, t) := (s.sent[proven].serial, Continue(hash, HandleProof(s, proven, rtt), ops));
      i < |t.transmitted| && t.transmitted[i] == s.transmitted[i]
  {
    hide AdjustParams;
    assert Counted(s.sent[proven], s.transmitted);
    assert Settled(HandleProof(s, proven, rtt), s.sent[proven].serial);
    SettledStays(hash, HandleProof(s, proven, rtt), s.sent[proven].serial, ops);
  }

  lemma {:induction false} SettledStays<H(!new)>(hash: seq<byte> -> H, s: Sender<H>, i: nat, ops: seq<Op<H>>)
    requires Settled(s, i)
    ensures var t := Continue(hash, s, ops);
      i < |t.transmitted| && t.transmitted[i] == s.transmitted[i]
    decreases |ops|
  {
    if ops != [] {
      SettledStays(hash, Apply(hash, s, ops[0]), i, ops[1..]);
    }
  }

  // ----- the hash that is filed and the hash that is proven

  /**
    Every message in flight is filed under the hash of its packet as built, and that packet was sent
    with the channel's context.
   */
  ghost predicate Filed<H(!new)>(hash: seq<byte> -> H, s: Sender<H>) {
    && (forall h | h in s.sent :: h == PacketHash(hash, s.sent[h].packet) && OnWire(s.sent[h].packet) in s.wire)
    && (forall q | q in s.wire :: q.context == CHANNEL)
  }

  lemma ApplyFiles<H(!new)>(hash: seq<byte> -> H, s: Sender<H>, op: Op<H>)
    requires Filed(hash, s)
    ensures Filed(hash, Apply(hash, s, op))
  {
    hide AdjustParams, ShrinkParams, PacketHash;
  }

  lemma {:induction false} RunFiles<H(!new)>(hash: seq<byte> -> H, rtt: real, ops: seq<Op<H>>)
    ensures Filed(hash, Run(hash, rtt, ops))
  {
    hide Apply;
    if ops != [] {
      RunFiles(hash, rtt, ops[..|ops| - 1]);
      ApplyFiles(hash, Run(hash, rtt, ops[..|ops| - 1]), ops[|ops| - 1]);
    }
  }

  /** The two hashes are taken of different bytes, of whatever packets. */
  lemma HashedBytesDiffer(p: Packet, q: Packet)
    requires p.context == CONTEXT_NONE && q.context == CHANNEL
    ensures HashInput(p) != HashInput(q)
  {
    assert HashInput(p)[1 + ADDRESS_HASH_SIZE] == CONTEXT_NONE && HashInput(q)[1 + ADDRESS_HASH_SIZE] == CHANNEL;
  }

  ghost predicate Collides<H(!new)>(hash: seq<byte> -> H, p: Packet, q: Packet) {
    p.context == CONTEXT_NONE && q.context == CHANNEL && PacketHash(hash, p) == PacketHash(hash, q)
  }

  ghost predicate NoCollision<H(!new)>(hash: seq<byte> -> H) {
    forall p, q :: !Collides(hash, p, q)
  }

  /**
    In every reachable state: a peer's proof of the packet it received settles the message it
    carries exactly when the hash collides on two different inputs, the packet as sent and as built.
   */
  lemma ProofHonouredIffCollision<H(!new)>(hash: seq<byte> -> H, start: real, ops: seq<Op<H>>, h: H, rtt: real)
    requires h in Run(hash, start, ops).sent
    ensures var s := Run(hash, start, ops);
      var (p, q) := (s.sent[h].packet, OnWire(s.sent[h].packet));
      && q in s.wire && HashInput(p) != HashInput(q)
      && (h !in HandleProof(s, PacketHash(hash, q), rtt).sent <==> Collides(hash, p, q))
  {
    RunFiles(hash, start, ops);
    var p := Run(hash, start, ops).sent[h].packet;
    HashedBytesDiffer(p, OnWire(p));
    hide AdjustParams, HashInput, Run;
  }

  /** Every proof is a peer's proof of a packet that has been sent. */
  ghost predicate Genuine<H(!new)>(hash: seq<byte> -> H, rtt: real, ops: seq<Op<H>>) {
    ops == [] ||
    (var (init, op) := (ops[..|ops| - 1], ops[|ops| - 1]);
     && Genuine(hash, rtt, init)
     && (op.ProofOf? ==> exists q | q in Run(hash, rtt, init).wire :: op.hash == PacketHash(hash, q)))
  }

  function WithoutProofs<H>(ops: seq<Op<H>>): seq<Op<H>> {
    if ops == [] then []
    else
      var rest := WithoutProofs(ops[..|ops| - 1]);
      if ops[|ops| - 1].ProofOf? then rest else rest + [ops[|ops| - 1]]
  }

  lemma {:induction false} GenuineProofsIgnored<H(!new)>(hash: seq<byte> -> H, rtt: real, ops: seq<Op<H>>)
    requires NoCollision(hash) && Genuine(hash, rtt, ops)
    ensures Run(hash, rtt, ops) == Run(hash, rtt, WithoutProofs(ops))
  {
    if ops != [] {
      var (init, op) := (ops[..|ops| - 1], ops[|ops| - 1]);
      GenuineProofsIgnored(hash, rtt, init);
      RunFiles(hash, rtt, init);
      if op.ProofOf? {
        var s := Run(hash, rtt, init);
        var q :| q in s.wire && op.hash == PacketHash(hash, q);
        assert forall h | h in s.sent :: !Collides(hash, s.sent[h].packet, q);
      } else {
        RunSnoc(hash, rtt, WithoutProofs(init), op);
      }
    }
  }

  /**
    Genuine proofs of sent packets have no effect, in any run, exactly when the hash never collides
    across the two contexts.
   */
  lemma GenuineProofsIgnoredIffNoCollision<H(!new)>(hash: seq<byte> -> H)
    ensures (forall rtt: real, ops: seq<Op<H>> | Genuine(hash, rtt, ops) ::
        Run(hash, rtt, ops) == Run(hash, rtt, WithoutProofs(ops)))
      <==> NoCollision(hash)
  {
    if NoCollision(hash) {
      forall rtt: real, ops: seq<Op<H>> | Genuine(hash, rtt, ops)
        ensures Run(hash, rtt, ops) == Run(hash, rtt, WithoutProofs(ops))
      {
        GenuineProofsIgnored(hash, rtt, ops);
      }
    } else {
      var p, q :| Collides(hash, p, q);
      CollisionSettles(hash, p, q.(context := CONTEXT_NONE));
    }
  }

  lemma GenuineSnoc<H(!new)>(hash: seq<byte> -> H, rtt: real, ops: seq<Op<H>>, op: Op<H>)
    requires Genuine(hash, rtt, ops)
    requires op.ProofOf? ==> exists q | q in Run(hash, rtt, ops).wire :: op.hash == PacketHash(hash, q)
    ensures Genuine(hash, rtt, ops + [op])
    ensures WithoutProofs(ops + [op]) == if op.ProofOf? then WithoutProofs(ops) else WithoutProofs(ops) + [op]
  {}

  lemma NothingYet<H(!new)>(hash: seq<byte> -> H)
    ensures Genuine(hash, 0.0, []) && WithoutProofs<H>([]) == []
  {}

  /** With a collision at hand, sending both packets and proving the second settles the first. */
  lemma CollisionSettles<H(!new)>(hash: seq<byte> -> H, p: DataPacket, q: DataPacket)
    requires Collides(hash, p, OnWire(q))
    ensures var sends: seq<Op<H>> := [Enqueue(true, true, Some(p)), Enqueue(true, true, Some(q))];
      var ops := sends + [ProofOf(PacketHash(hash, OnWire(q)), 0.0)];
      && Genuine(hash, 0.0, ops) && WithoutProofs(ops) == sends
      && Run(hash, 0.0, ops) != Run(hash, 0.0, sends)
  {
    hide PacketHash, OnWire, AdjustParams, Run, Genuine, WithoutProofs;
    var first: Op<H>, second: Op<H> := Enqueue(true, true, Some(p)), Enqueue(true, true, Some(q));
    var proof: Op<H> := ProofOf(PacketHash(hash, OnWire(q)), 0.0);
    var (sends, ops) := ([first, second], [first, second] + [proof]);
    assert sends == [first] + [second] && [] + [first] == [first];
    RunSnoc(hash, 0.0, [], first);
    RunSnoc(hash, 0.0, [first], second);
    RunSnoc(hash, 0.0, sends, proof);
    MapSizes(map[], PacketHash(hash, p), Entry(0, 1, p));
    assert OnWire(q) in Run(hash, 0.0, sends).wire && PacketHash(hash, p) in Run(hash, 0.0, sends).sent;
    NothingYet(hash);
    GenuineSnoc(hash, 0.0, [], first);
    GenuineSnoc(hash, 0.0, [first], second);
    GenuineSnoc(hash, 0.0, sends, proof);
  }

  /** No packet is built whose hash is already on file. */
  ghost predicate NewHashes<H(!new)>(hash: seq<byte> -> H, rtt: real, ops: seq<Op<H>>) {
    ops == [] ||
    (var (init, op) := (ops[..|ops| - 1], ops[|ops| - 1]);
     && NewHashes(hash, rtt, init)
     && (!op.ProofOf? && op.built.Some? ==> PacketHash(hash, op.built.value) !in Run(hash, rtt, init).sent))
  }

  /** Without proofs, the window stays as it began, and it is filled once and for all. */
  ghost predicate Stalled<H(!new)>(s: Sender<H>, rtt: real) {
    && s.params == InitialParams(rtt) && |s.sent| <= s.params.window <= WINDOW && s.delivered == {}
  }

  lemma EnqueueStalled<H(!new)>(
      hash: seq<byte> -> H, s: Sender<H>, rtt: real, ready: bool, fits: bool, built: Option<DataPacket>)
    requires Stalled(s, rtt)
    ensures var t := EnqueueSend(hash, s, ready, fits, built);
      && Stalled(t, rtt)
      && (|s.sent| == |s.transmitted| && (built.Some? ==> PacketHash(hash, built.value) !in s.sent) ==>
          |t.sent| == |t.transmitted|)
  {}

  lemma TimeoutStalled<H(!new)>(hash: seq<byte> -> H, s: Sender<H>, rtt: real, expired: H, built: Option<DataPacket>)
    requires Stalled(s, rtt)
    ensures var t := HandleTimeout(hash, s, expired, built);
      && Stalled(t, rtt)
      && (|s.sent| == |s.transmitted| && (built.Some? ==> PacketHash(hash, built.value) !in s.sent) ==>
          |t.sent| == |t.transmitted|)
  {}

  lemma {:induction false} StallsWithoutProofs<H(!new)>(hash: seq<byte> -> H, rtt: real, ops: seq<Op<H>>)
    requires forall op | op in ops :: !op.ProofOf?
    ensures Stalled(Run(hash, rtt, ops), rtt)
    ensures NewHashes(hash, rtt, ops) ==> |Run(hash, rtt, ops).sent| == |Run(hash, rtt, ops).transmitted|
  {
    hide EnqueueSend, HandleTimeout, PacketHash;
    if ops != [] {
      var (s, op) := (Run(hash, rtt, ops[..|ops| - 1]), ops[|ops| - 1]);
      StallsWithoutProofs(hash, rtt, ops[..|ops| - 1]);
      assert op in ops && !op.ProofOf?;
      match op
      case Enqueue(ready, fits, built) => EnqueueStalled(hash, s, rtt, ready, fits, built);
      case TimeoutOf(expired, built) => TimeoutStalled(hash, s, rtt, expired, built);
    }
  }

  lemma {:induction false} NoProofsLeft<H(!new)>(ops: seq<Op<H>>)
    ensures forall op | op in WithoutProofs(ops) :: !op.ProofOf?
  {
    if ops != [] {
      NoProofsLeft(ops[..|ops| - 1]);
    }
  }

  /**
    What that means for a channel whose peer proves everything it receives, if the hash does not
    collide across contexts: nothing is ever reported delivered, the window never leaves its initial
    size of at most two, at most that many messages are in flight, and no more messages than that
    are ever sent as long as no packet hash repeats.
   */
  lemma ProvenChannelStalls<H(!new)>(hash: seq<byte> -> H, rtt: real, ops: seq<Op<H>>)
    requires NoCollision(hash) && Genuine(hash, rtt, ops)
    ensures var s := Run(hash, rtt, ops);
      && s.delivered == {} && s.params == InitialParams(rtt)
      && |s.sent| <= s.params.window == s.params.windowMin == (if rtt > 1.45 then 1 else 2)
      && s.params.windowMax == (if rtt > 1.45 then 1 else 5)
      && (NewHashes(hash, rtt, WithoutProofs(ops)) ==> |s.transmitted| <= WINDOW)
  {
    GenuineProofsIgnored(hash, rtt, ops);
    NoProofsLeft(ops);
    StallsWithoutProofs(hash, rtt, WithoutProofs(ops));
  }

  /** A message sent and repeated as the packets `ps`, with every packet proven by the peer before its timeout. */
  function ProvenRounds<H>(hash: seq<byte> -> H, ps: seq<DataPacket>): seq<Op<H>>
    requires ps != []
  {
    if |ps| == 1 then [Enqueue(true, true, Some(ps[0]))]
    else ProvenRounds(hash, ps[..|ps| - 1]) + Proven(hash, ps[|ps| - 2], Some(ps[|ps| - 1]))
  }

  function Proven<H>(hash: seq<byte> -> H, p: DataPacket, again: Option<DataPacket>): seq<Op<H>> {
    [ProofOf(PacketHash(hash, OnWire(p)), 0.0)] + [TimeoutOf(PacketHash(hash, p), again)]
  }

  ghost predicate InFlight<H(!new)>(hash: seq<byte> -> H, s: Sender<H>, p: DataPacket, tries: nat) {
    && s.sent == map[PacketHash(hash, p) := Entry(0, tries, p)] && s.transmitted == [tries]
    && s.params == InitialParams(0.0) && s.delivered == {} && !s.linkClosed
  }

  lemma ProvenIgnored<H(!new)>(
      hash: seq<byte> -> H, ops: seq<Op<H>>, p: DataPacket, tries: nat, again: Option<DataPacket>)
    requires NoCollision(hash) && InFlight(hash, Run(hash, 0.0, ops), p, tries)
    ensures Run(hash, 0.0, ops + Proven(hash, p, again))
      == HandleTimeout(hash, Run(hash, 0.0, ops), PacketHash(hash, p), again)
  {
    var proof: Op<H> := ProofOf(PacketHash(hash, OnWire(p)), 0.0);
    var expiry: Op<H> := TimeoutOf(PacketHash(hash, p), again);
    assert ops + Proven(hash, p, again) == ops + [proof] + [expiry];
    assert !Collides(hash, p, OnWire(p));
    RunSnoc(hash, 0.0, ops, proof);
    RunSnoc(hash, 0.0, ops + [proof], expiry);
  }

  lemma {:induction false} StillInFlight<H(!new)>(hash: seq<byte> -> H, ps: seq<DataPacket>)
    requires NoCollision(hash) && 1 <= |ps| <= MAX_TRIES
    ensures InFlight(hash, Run(hash, 0.0, ProvenRounds(hash, ps)), ps[|ps| - 1], |ps|)
  {
    if |ps| == 1 {
      RunSnoc(hash, 0.0, [], Enqueue(true, true, Some(ps[0])));
    } else {
      var (init, p, again) := (ps[..|ps| - 1], ps[|ps| - 2], ps[|ps| - 1]);
      StillInFlight(hash, init);
      ProvenIgnored(hash, ProvenRounds(hash, init), p, |init|, Some(again));
      hide PacketHash;
      var s := Run(hash, 0.0, ProvenRounds(hash, init));
      assert s.sent - {PacketHash(hash, p)} == map[];
    }
  }

  /** A message received and proven five times over still closes the link at its fifth timeout. */
  lemma ProvenMessageClosesLink<H(!new)>(hash: seq<byte> -> H, ps: seq<DataPacket>)
    requires NoCollision(hash) && |ps| == MAX_TRIES
    ensures var s := Run(hash, 0.0, ProvenRounds(hash, ps) + Proven(hash, ps[|ps| - 1], None));
      s.linkClosed && s.delivered == {} && s.transmitted == [MAX_TRIES]
  {
    StillInFlight(hash, ps);
    ProvenIgnored(hash, ProvenRounds(hash, ps), ps[|ps| - 1], |ps|, None);
  }

  /** Such a hash exists: the bytes themselves. */
  lemma BytesDoNotCollide()
    ensures NoCollision((bytes: seq<byte>) => bytes)
  {
    forall p: Packet, q: Packet | p.context == CONTEXT_NONE && q.context == CHANNEL
      ensures HashInput(p) != HashInput(q)
    {
      HashedBytesDiffer(p, q);
    }
  }

  // ----- a window below its lower limit

  /** `n` sends of `p`, each settled at a round-trip time of `rtt`. */
  function SettledSends<H>(hash: seq<byte> -> H, p: DataPacket, rtt: real, n: nat): seq<Op<H>> {
    if n == 0 then []
    else SettledSends(hash, p, rtt, n - 1) + [Enqueue(true, true, Some(p))] + [ProofOf(PacketHash(hash, p), rtt)]
  }

  function Adjusted(p: Params, rtt: real, n: nat): Params {
    if n == 0 then p else AdjustParams(Adjusted(p, rtt, n - 1), rtt)
  }

  lemma {:induction false} SettledSendsAdjust<H(!new)>(
      hash: seq<byte> -> H, p: DataPacket, start: real, rtt: real, n: nat)
    ensures var s := Run(hash, start, SettledSends(hash, p, rtt, n));
      s.sent == map[] && s.params == Adjusted(InitialParams(start), rtt, n) && Sound(s.params)
  {
    if n > 0 {
      var before := SettledSends(hash, p, rtt, n - 1);
      SettledSendsAdjust(hash, p, start, rtt, n - 1);
      RunSnoc(hash, start, before, Enqueue(true, true, Some(p)));
      RunSnoc(hash, start, before + [Enqueue(true, true, Some(p))], ProofOf(PacketHash(hash, p), rtt));
      hide PacketHash, AdjustParams, InitialParams;
      var s := Run(hash, start, before);
      ParamsKeepSound(s.params, rtt);
      assert s.sent[PacketHash(hash, p) := Entry(|s.transmitted|, 1, p)] - {PacketHash(hash, p)} == map[];
    }
  }

  lemma {:induction false} FastRounds(rtt: real, n: nat)
    requires 0.0 < rtt <= RTT_FAST && n < FAST_RATE_THRESHOLD
    ensures Adjusted(InitialParams(0.0), rtt, n) ==
      InitialParams(0.0).(fastRounds := n, window := if n < 3 then 2 + n else 5)
  {
    if n > 0 {
      FastRounds(rtt, n - 1);
    }
  }

  /** Ten messages settled at a fast round-trip time leave a window of 5 under a lower limit of 16. */
  lemma UpgradeOvertakesWindow<H(!new)>(hash: seq<byte> -> H, p: DataPacket, rtt: real)
    requires 0.0 < rtt <= RTT_FAST
    ensures var s := Run(hash, 0.0, SettledSends(hash, p, rtt, 10));
      s.params.window == 5 && s.params.windowMin == 16 && s.params.windowMax == 48
  {
    hide Run, SettledSends;
    SettledSendsAdjust(hash, p, 0.0, rtt, 10);
    FastRounds(rtt, 9);
  }

  // ----- the sender object

  class Outbound<H(==)> {
    const hash: seq<byte> -> H
    var params: Params
    var sentMessages: map<H, Entry>
    var delivered: set<H>
    var nextSequence: U16
    var linkClosed: bool
    var transmitted: seq<nat>
    var numbers: seq<U16>
    var wire: seq<Packet>

    function View(): Sender<H>
      reads this
    {
      Sender(params, sentMessages, delivered, nextSequence, linkClosed, transmitted, numbers, wire)
    }

    constructor (hash: seq<byte> -> H, rtt: real)
      ensures this.hash == hash && View() == Run(hash, rtt, [])
    {
      this.hash, params := hash, InitialParams(rtt);
      sentMessages, delivered, nextSequence, linkClosed := map[], {}, 0, false;
      transmitted, numbers, wire := [], [], [];
    }

    /** The handle returned for following delivery is the hash of the packet as built. */
    method Enqueue(ready: bool, fits: bool, built: Option<DataPacket>) returns (r: Option<H>)
      modifies this
      ensures View() == EnqueueSend(hash, old(View()), ready, fits, built)
      ensures r.Some? <==> ready && |old(sentMessages)| < params.window && fits && built.Some?
      ensures r.Some? ==> r.value == PacketHash(hash, built.value) && wire == old(wire) + [OnWire(built.value)]
    {
      if !ready || |sentMessages| >= params.window {
        return None;
      }
      var reservedSequence := nextSequence;
      nextSequence := (nextSequence + 1) % MODULUS;
      if !fits || built.None? {
        nextSequence := reservedSequence;
        return None;
      }
      var packet: Packet := built.value;
      var packetHash := PacketHash(hash, packet);
      sentMessages := sentMessages[packetHash := Entry(|transmitted|, 0, built.value)];
      packet := packet.(context := CHANNEL);
      wire, transmitted, numbers := wire + [packet], transmitted + [1], numbers + [reservedSequence];
      sentMessages := sentMessages[packetHash := sentMessages[packetHash].(tries := 1)];
      return Some(packetHash);
    }

    method Adjust(rtt: real)
      modifies this`params
      ensures params == AdjustParams(old(params), rtt)
    {
      if params.window < params.windowMax {
        params := params.(window := params.window + 1);
      }
      if rtt == 0.0 {
        return;
      }
      if rtt > RTT_FAST {
        params := params.(fastRounds := 0);
        if rtt > RTT_MEDIUM {
          params := params.(mediumRounds := 0);
        } else {
          params := params.(mediumRounds := (params.mediumRounds + 1) % MODULUS);
          if params.windowMax < WINDOW_MAX_MEDIUM && params.mediumRounds == FAST_RATE_THRESHOLD {
            params := params.(windowMax := WINDOW_MAX_MEDIUM, windowMin := WINDOW_MIN_LIMIT_MEDIUM);
          }
        }
      } else {
        params := params.(fastRounds := (params.fastRounds + 1) % MODULUS);
        if params.windowMax < WINDOW_MAX_FAST && params.fastRounds == FAST_RATE_THRESHOLD {
          params := params.(windowMax := WINDOW_MAX_FAST, windowMin := WINDOW_MIN_LIMIT_FAST);
        }
      }
    }

    method Proof(proven: H, rtt: real)
      modifies this
      ensures View() == HandleProof(old(View()), proven, rtt)
    {
      if proven !in sentMessages {
        return;
      }
      sentMessages := sentMessages - {proven};
      Adjust(rtt);
      delivered := delivered + {proven};
    }

    method Timeout(expired: H, built: Option<DataPacket>)
      modifies this
      ensures View() == HandleTimeout(hash, old(View()), expired, built)
    {
      if expired !in sentMessages {
        return;
      }
      var e := sentMessages[expired];
      if e.tries >= MAX_TRIES {
        linkClosed := true;
        return;
      }
      params := ShrinkParams(params);
      if built.None? {
        return;
      }
      var packet: Packet := built.value;
      var newHash := PacketHash(hash, packet);
      packet := packet.(context := CHANNEL);
      wire := wire + [packet];
      sentMessages := (sentMessages - {expired})[newHash := Entry(e.serial, e.tries + 1, built.value)];
      if e.serial < |transmitted| {
        transmitted := transmitted[e.serial := transmitted[e.serial] + 1];
      }
    }
  }
}
