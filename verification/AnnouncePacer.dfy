/**
  Pacing of forwarded announces on one interface: a queue of destinations with the latest announce
  of each, a worker that releases one announce at a time, and a clock that spaces releases.
  Times are exact reals, in seconds.
 */
module AnnouncePacer {
  import opened Wrappers
  import opened Packet

  const MAX_QUEUED_ANNOUNCES := 16384
  const CHANNEL_LOAD_LOW_THRESHOLD := 30.0
  const CHANNEL_LOAD_HIGH_THRESHOLD := 50.0

  /** Interface bitrate in bits per second and the share of airtime announces may take. */
  datatype Config = Config(bitrate: real, announceCap: real)

  // ----- pacing intervals

  /** The share left to announces at a channel load in percent. */
  function EffectiveAnnounceCap(cfg: Config, load: Option<real>): real {
    match load
    case None => cfg.announceCap
    case Some(l) =>
      if l < CHANNEL_LOAD_LOW_THRESHOLD then cfg.announceCap
      else if l < CHANNEL_LOAD_HIGH_THRESHOLD then
        cfg.announceCap * (1.0 - 0.9 * (l - CHANNEL_LOAD_LOW_THRESHOLD)
          / (CHANNEL_LOAD_HIGH_THRESHOLD - CHANNEL_LOAD_LOW_THRESHOLD))
      else cfg.announceCap * 0.1
  }

  /** The whole cap up to a load of 30 percent, a tenth of it from 50 on, and in between falling evenly. */
  lemma CapFallsWithLoad(cfg: Config, a: real, b: real)
    requires cfg.announceCap > 0.0 && a <= b
    ensures EffectiveAnnounceCap(cfg, Some(b)) <= EffectiveAnnounceCap(cfg, Some(a))
    ensures EffectiveAnnounceCap(cfg, Some(a)) == EffectiveAnnounceCap(cfg, None) <==> a <= 30.0
    ensures 10.0 * EffectiveAnnounceCap(cfg, Some(a)) == EffectiveAnnounceCap(cfg, None) <==> a >= 50.0
    ensures 30.0 <= a && b <= 50.0 ==>
      EffectiveAnnounceCap(cfg, Some(a)) - EffectiveAnnounceCap(cfg, Some(b)) == cfg.announceCap * (0.045 * (b - a))
  {
    hide EffectiveAnnounceCap;
    CapIsShare(cfg, a);
    CapIsShare(cfg, b);
    Product(cfg.announceCap, LoadFactor(a), LoadFactor(b));
  }

  lemma CapIsShare(cfg: Config, l: real)
    ensures EffectiveAnnounceCap(cfg, None) == cfg.announceCap
    ensures EffectiveAnnounceCap(cfg, Some(l)) == cfg.announceCap * LoadFactor(l)
  {
    var spread := CHANNEL_LOAD_HIGH_THRESHOLD - CHANNEL_LOAD_LOW_THRESHOLD;
    assert 0.9 * (l - CHANNEL_LOAD_LOW_THRESHOLD) / spread == 0.045 * (l - 30.0);
  }

  /** The share of the cap left at a load. */
  function LoadFactor(l: real): real {
    if l <= 30.0 then 1.0 else if l <= 50.0 then 1.0 - 0.045 * (l - 30.0) else 0.1
  }

  lemma NoZeroProduct(c: real, x: real)
    requires c > 0.0
    ensures c * x == 0.0 <==> x == 0.0
  {}

  lemma Product(c: real, f: real, g: real)
    requires c > 0.0 && g <= f
    ensures c * g <= c * f && c * f - c * g == c * (f - g)
    ensures c * f == c <==> f == 1.0
    ensures 10.0 * (c * f) == c <==> f == 0.1
  {
    assert c * (f - 1.0) == c * f - c;
    assert c * (10.0 * f - 1.0) == 10.0 * (c * f) - c;
    NoZeroProduct(c, f - 1.0);
    NoZeroProduct(c, 10.0 * f - 1.0);
  }

  function TxTime(cfg: Config, p: Packet): real
    requires cfg.bitrate > 0.0
  {
    WireLen(p) as real * 8.0 / cfg.bitrate
  }

  lemma CapIsPositive(cfg: Config, load: Option<real>)
    requires cfg.announceCap > 0.0
    ensures 0.0 < EffectiveAnnounceCap(cfg, load) <= cfg.announceCap
  {
    if load.Some? && CHANNEL_LOAD_LOW_THRESHOLD <= load.value < CHANNEL_LOAD_HIGH_THRESHOLD {
      var factor := 1.0 - 0.9 * (load.value - 30.0) / 20.0;
      assert 0.0 < factor <= 1.0;
      ScaleDown(cfg.announceCap, factor);
    }
  }

  lemma ScaleDown(x: real, f: real)
    requires x > 0.0 && 0.0 < f <= 1.0
    ensures 0.0 < x * f <= x
  {}

  /**
    How long the interface is closed to announces after this one; none when announces are not paced
    or the packet is malformed.
   */
  function WaitTime(cfg: Config, load: Option<real>, p: Packet): Option<real> {
    if cfg.bitrate <= 0.0 || cfg.announceCap <= 0.0 || (p.header.headerType == Type2 && p.transport.None?) then None
    else
      CapIsPositive(cfg, load);
      Some(TxTime(cfg, p) / EffectiveAnnounceCap(cfg, load))
  }

  /**
    Announces are paced where the interface has a bitrate and leaves announces a share, except those
    that cannot be serialized.
   */
  lemma PacedExactly(cfg: Config, load: Option<real>, p: Packet)
    ensures WaitTime(cfg, load, p).Some? <==> cfg.bitrate > 0.0 && cfg.announceCap > 0.0 && TransportBytes(p).Ok?
  {}

  /** The airtime announces may use of an elapsed time. */
  function Budget(cfg: Config, elapsed: real): real { cfg.announceCap * elapsed }

  ghost predicate Covered(cfg: Config, packet: Packet, wait: real)
    requires cfg.bitrate > 0.0
  {
    TxTime(cfg, packet) <= Budget(cfg, wait)
  }

  /** The wait covers the transmission at the announce cap, whatever the channel load. */
  lemma WaitCovers(cfg: Config, load: Option<real>, p: Packet)
    requires WaitTime(cfg, load, p).Some?
    ensures 0.0 < TxTime(cfg, p) && Covered(cfg, p, WaitTime(cfg, load, p).value)
  {
    CapIsPositive(cfg, load);
    var (tx, eff) := (TxTime(cfg, p), EffectiveAnnounceCap(cfg, load));
    Quotient(WireLen(p) as real * 8.0, cfg.bitrate, 0.0);
    Quotient(tx, eff, cfg.announceCap);
  }

  lemma Quotient(a: real, b: real, c: real)
    requires a > 0.0 && b > 0.0
    ensures a / b > 0.0 && (c >= b ==> a <= c * (a / b))
  {}

  /**
    The airtime of an announce is eight bits a byte of its wire form at the bitrate, and its wait
    that airtime at the effective cap.
   */
  lemma WaitIsBits(cfg: Config, load: Option<real>, p: Packet)
    requires WaitTime(cfg, load, p).Some?
    ensures TxTime(cfg, p) * cfg.bitrate == 8.0 * WireLen(p) as real
    ensures WaitTime(cfg, load, p).value * EffectiveAnnounceCap(cfg, load) == TxTime(cfg, p)
  {
    hide EffectiveAnnounceCap, WireLen;
    CapIsPositive(cfg, load);
    var (tx, eff) := (TxTime(cfg, p), EffectiveAnnounceCap(cfg, load));
    assert (tx / eff) * eff == tx;
  }

  // ----- the pacer's state

  datatype Queued = Queued(packet: Packet, wait: real)

  datatype Release = Release(packet: Packet, at: real, wait: real)

  /** `workers` counts the live queue workers; `released` lists the paced announces handed to the interface. */
  datatype Pacer = Pacer(
    allowedAt: real,
    queue: seq<Address>,
    data: map<Address, Queued>,
    timerActive: bool,
    workers: nat,
    stopped: bool,
    released: seq<Release>)

  function NewPacer(now: real): Pacer {
    Pacer(now, [], map[], false, 0, false, [])
  }

  datatype Op =
    | Send(packet: Packet, load: Option<real>, now: real)
    | Poll(now: real)
    | WorkerSeesStop
    | Cancel

  function Enqueue(s: Pacer, q: Queued): Pacer {
    var dest := q.packet.destination;
    if dest in s.data then s.(data := s.data[dest := q])
    else if |s.queue| < MAX_QUEUED_ANNOUNCES then s.(queue := s.queue + [dest], data := s.data[dest := q])
    else s
  }

  function StartWorker(s: Pacer): Pacer {
    if s.timerActive then s else s.(timerActive := true, workers := s.workers + 1)
  }

  /** A forwarded announce: passed on at once when nothing waits and the clock allows, otherwise queued. */
  function SendOp(cfg: Config, s: Pacer, p: Packet, load: Option<real>, now: real): Pacer {
    match WaitTime(cfg, load, p)
    case None => s
    case Some(wait) =>
      if s.queue == [] && now >= s.allowedAt then
        s.(allowedAt := now + wait, released := s.released + [Release(p, now, wait)])
      else StartWorker(Enqueue(s, Queued(p, wait)))
  }

  /** Index of the first queued destination with data whose announce has the fewest hops. */
  function MinHops(queue: seq<Address>, data: map<Address, Queued>): Option<nat> {
    if queue == [] then None
    else
      var last := |queue| - 1;
      var before := MinHops(queue[..last], data);
      if queue[last] !in data then before
      else if before.None? || before.value >= last || queue[before.value] !in data then Some(last)
      else if data[queue[last]].packet.header.hops < data[queue[before.value]].packet.header.hops then Some(last)
      else before
  }

  function EndWorker(s: Pacer): Pacer {
    s.(timerActive := false, workers := if s.workers > 0 then s.workers - 1 else 0)
  }

  /** One pass of a live worker under the lock. */
  function PollOp(s: Pacer, now: real): Pacer {
    if s.workers == 0 || now < s.allowedAt then s
    else match MinHops(s.queue, s.data)
      case None => EndWorker(s)
      case Some(k) =>
        if k < |s.queue| && s.queue[k] in s.data then ReleaseAt(s, k, now) else EndWorker(s)
  }

  function ReleaseAt(s: Pacer, k: nat, now: real): Pacer
    requires k < |s.queue| && s.queue[k] in s.data
  {
    var q := s.data[s.queue[k]];
    s.(
      queue := s.queue[..k] + s.queue[k + 1..],
      data := s.data - {s.queue[k]},
      allowedAt := now + q.wait,
      released := s.released + [Release(q.packet, now, q.wait)])
  }

  function Apply(cfg: Config, s: Pacer, op: Op): Pacer {
    match op
    case Send(p, load, now) => SendOp(cfg, s, p, load, now)
    case Poll(now) => PollOp(s, now)
    case WorkerSeesStop => if s.workers > 0 && s.stopped then EndWorker(s) else s
    case Cancel => s.(stopped := true)
  }

  function Run(cfg: Config, start: real, ops: seq<Op>): Pacer {
    if ops == [] then NewPacer(start) else Apply(cfg, Run(cfg, start, ops[..|ops| - 1]), ops[|ops| - 1])
  }

  // ----- agreement of queue, map and worker

  ghost predicate Distinct(queue: seq<Address>) {
    forall i, j | 0 <= i < j < |queue| :: queue[i] != queue[j]
  }

  /**
    Queue and map hold the same destinations, each once; one worker lives while the timer is active,
    and always while something is queued and nothing is stopped.
   */
  ghost predicate Agrees(s: Pacer) {
    && Distinct(s.queue) && |s.queue| <= MAX_QUEUED_ANNOUNCES
    && (forall d :: d in s.queue <==> d in s.data)
    && (forall d | d in s.data :: s.data[d].packet.destination == d)
    && s.workers == (if s.timerActive then 1 else 0)
    && (s.queue != [] && !s.stopped ==> s.timerActive)
  }

  /** The destination at `k` is the longest queued of those whose announce has the fewest hops. */
  predicate First(queue: seq<Address>, data: map<Address, Queued>, k: nat) {
    && k < |queue| && queue[k] in data
    && (forall j | 0 <= j < |queue| && queue[j] in data ::
        data[queue[k]].packet.header.hops <= data[queue[j]].packet.header.hops)
    && (forall j | 0 <= j < k && queue[j] in data ::
        data[queue[k]].packet.header.hops < data[queue[j]].packet.header.hops)
  }

  lemma {:induction false} MinHopsIsFirst(queue: seq<Address>, data: map<Address, Queued>)
    ensures match MinHops(queue, data)
      case None => forall j | 0 <= j < |queue| :: queue[j] !in data
      case Some(k) => First(queue, data, k)
  {
    if queue != [] {
      var init := queue[..|queue| - 1];
      MinHopsIsFirst(init, data);
      assert forall j | 0 <= j < |init| :: queue[j] == init[j];
    }
  }

  lemma ReleaseAgrees(s: Pacer, k: nat, now: real)
    requires Agrees(s) && k < |s.queue| && s.queue[k] in s.data
    ensures Agrees(ReleaseAt(s, k, now))
  {}

  lemma EnqueueAgrees(s: Pacer, q: Queued)
    requires Agrees(s)
    ensures Agrees(StartWorker(Enqueue(s, q)))
  {}

  /** A live worker with an agreeing queue releases the first announce, or ends when there is none. */
  lemma PollReleasesFirst(s: Pacer, now: real) returns (k: nat)
    requires Agrees(s) && s.workers > 0 && now >= s.allowedAt
    ensures if s.queue == [] then PollOp(s, now) == EndWorker(s)
            else First(s.queue, s.data, k) && PollOp(s, now) == ReleaseAt(s, k, now)
  {
    MinHopsIsFirst(s.queue, s.data);
    k := 0;
    if s.queue != [] {
      assert s.queue[0] in s.queue && s.queue[0] in s.data;
      k := MinHops(s.queue, s.data).value;
    }
  }

  lemma ApplyAgrees(cfg: Config, s: Pacer, op: Op)
    requires Agrees(s)
    ensures Agrees(Apply(cfg, s, op))
  {
    match op
    case Send(p, load, now) =>
      hide Agrees, WaitTime;
      if WaitTime(cfg, load, p).Some? {
        var wait := WaitTime(cfg, load, p).value;
        EnqueueAgrees(s, Queued(p, wait));
        AgreesIgnoresClock(s, now + wait, s.released + [Release(p, now, wait)]);
      }
    case Poll(now) =>
      if s.workers > 0 && now >= s.allowedAt {
        var k := PollReleasesFirst(s, now);
        if s.queue != [] {
          ReleaseAgrees(s, k, now);
        }
        hide PollOp, First;
      }
    case WorkerSeesStop =>
    case Cancel =>
  }

  lemma AgreesIgnoresClock(s: Pacer, allowedAt: real, released: seq<Release>)
    requires Agrees(s)
    ensures Agrees(s.(allowedAt := allowedAt, released := released))
  {}

  lemma {:induction false} RunAgrees(cfg: Config, start: real, ops: seq<Op>)
    ensures Agrees(Run(cfg, start, ops))
  {
    if ops != [] {
      RunAgrees(cfg, start, ops[..|ops| - 1]);
      ApplyAgrees(cfg, Run(cfg, start, ops[..|ops| - 1]), ops[|ops| - 1]);
    }
  }

  /** The queue entry an operation supplies for a destination. */
  function Supplied(cfg: Config, op: Op, d: Address): Option<Queued> {
    if op.Send? && op.packet.destination == d && WaitTime(cfg, op.load, op.packet).Some?
    then Some(Queued(op.packet, WaitTime(cfg, op.load, op.packet).value))
    else None
  }

  /** The last paced announce sent for a destination. */
  function LatestSent(cfg: Config, ops: seq<Op>, d: Address): Option<Queued> {
    if ops == [] then None
    else
      var op := ops[|ops| - 1];
      if Supplied(cfg, op, d).Some? then Supplied(cfg, op, d) else LatestSent(cfg, ops[..|ops| - 1], d)
  }

  lemma ApplySupplies(cfg: Config, s: Pacer, op: Op, d: Address)
    requires Agrees(s) && d in Apply(cfg, s, op).data
    ensures var entry := Apply(cfg, s, op).data[d];
      if Supplied(cfg, op, d).Some? then Some(entry) == Supplied(cfg, op, d) else d in s.data && entry == s.data[d]
  {}

  lemma {:induction false} QueuedIsLatest(cfg: Config, start: real, ops: seq<Op>)
    ensures forall d | d in Run(cfg, start, ops).data :: LatestSent(cfg, ops, d) == Some(Run(cfg, start, ops).data[d])
  {
    if ops != [] {
      var init, op := ops[..|ops| - 1], ops[|ops| - 1];
      QueuedIsLatest(cfg, start, init);
      RunAgrees(cfg, start, init);
      forall d | d in Run(cfg, start, ops).data
        ensures LatestSent(cfg, ops, d) == Some(Run(cfg, start, ops).data[d])
      {
        ApplySupplies(cfg, Run(cfg, start, init), op, d);
      }
      hide Apply, Supplied, Agrees;
    }
  }

  /** The operation since which a destination has been queued. */
  function QueuedSince(cfg: Config, start: real, ops: seq<Op>, d: Address): nat {
    if ops == [] then 0
    else
      var init := ops[..|ops| - 1];
      if d in Run(cfg, start, init).data then QueuedSince(cfg, start, init, d) else |init|
  }

  /** An operation leaves the queue alone, adds a destination not queued at its end, or takes one out. */
  lemma ApplyQueue(cfg: Config, s: Pacer, op: Op) returns (k: nat)
    requires Agrees(s)
    ensures var queue := Apply(cfg, s, op).queue;
      || queue == s.queue
      || (exists d :: d !in s.data && queue == s.queue + [d])
      || (k < |s.queue| && queue == s.queue[..k] + s.queue[k + 1..])
  {
    hide WaitTime, MinHops, Agrees;
    var best := MinHops(s.queue, s.data);
    k := if best.Some? then best.value else 0;
  }

  ghost predicate OldestFirst(cfg: Config, start: real, ops: seq<Op>) {
    var queue := Run(cfg, start, ops).queue;
    && (forall i, j | 0 <= i < j < |queue| ::
        QueuedSince(cfg, start, ops, queue[i]) < QueuedSince(cfg, start, ops, queue[j]))
    && (forall i | 0 <= i < |queue| :: QueuedSince(cfg, start, ops, queue[i]) < |ops|)
  }

  lemma {:induction false} RunOldestFirst(cfg: Config, start: real, ops: seq<Op>)
    ensures OldestFirst(cfg, start, ops)
  {
    hide Apply, Agrees;
    if ops != [] {
      var init := ops[..|ops| - 1];
      var s := Run(cfg, start, init);
      RunOldestFirst(cfg, start, init);
      RunAgrees(cfg, start, init);
      var k := ApplyQueue(cfg, s, ops[|ops| - 1]);
      forall d | d in s.queue ensures QueuedSince(cfg, start, ops, d) == QueuedSince(cfg, start, init, d) {}
    }
  }

  /**
    In any interleaving of senders and worker: a worker that polls when the clock allows releases,
    if anything is queued, the latest announce sent for its destination; every other queued announce
    has more hops, or as many and its destination has been queued for a shorter time.
   */
  lemma ReleaseIsLatestAndFirst(cfg: Config, start: real, ops: seq<Op>, now: real) returns (k: nat)
    requires var s := Run(cfg, start, ops); s.queue != [] && s.workers > 0 && now >= s.allowedAt
    ensures var s := Run(cfg, start, ops);
      && First(s.queue, s.data, k)
      && LatestSent(cfg, ops, s.queue[k]) == Some(s.data[s.queue[k]])
      && Run(cfg, start, ops + [Poll(now)]) == ReleaseAt(s, k, now)
    ensures var s := Run(cfg, start, ops);
      var (first, hops) := (s.queue[k], s.data[s.queue[k]].packet.header.hops);
      forall d | d in s.data && d != first ::
        || s.data[d].packet.header.hops > hops
        || (s.data[d].packet.header.hops == hops
            && QueuedSince(cfg, start, ops, first) < QueuedSince(cfg, start, ops, d))
  {
    hide WaitTime, MinHops, QueuedSince, LatestSent;
    assert (ops + [Poll(now)])[..|ops|] == ops;
    RunAgrees(cfg, start, ops);
    QueuedIsLatest(cfg, start, ops);
    RunOldestFirst(cfg, start, ops);
    k := PollReleasesFirst(Run(cfg, start, ops), now);
  }

  // ----- what becomes of announces

  /**
    A paced announce is released at once, or on file for its destination afterwards, or meets a full
    queue without it.
   */
  lemma SendIsFiled(cfg: Config, s: Pacer, p: Packet, load: Option<real>, now: real)
    requires Agrees(s) && WaitTime(cfg, load, p).Some?
    ensures var (t, q) := (SendOp(cfg, s, p, load, now), Queued(p, WaitTime(cfg, load, p).value));
      if s.queue == [] && now >= s.allowedAt then
        t == s.(allowedAt := now + q.wait, released := s.released + [Release(p, now, q.wait)])
      else
        && t.released == s.released && t.allowedAt == s.allowedAt && t.timerActive
        && (if p.destination in s.queue then t.queue == s.queue && t.data == s.data[p.destination := q]
            else if |s.queue| < 16384 then
              t.queue == s.queue + [p.destination] && t.data == s.data[p.destination := q]
            else t.queue == s.queue && t.data == s.data)
  {
    hide WaitTime;
  }

  predicate OnFile(s: Pacer, q: Queued) {
    q.packet.destination in s.data && s.data[q.packet.destination] == q
  }

  predicate ReleasedSince(s: Pacer, k: nat, q: Queued) {
    exists i | k <= i < |s.released| :: s.released[i].packet == q.packet && s.released[i].wait == q.wait
  }

  /** Operation `j` replaced the announce on file. */
  predicate ReplacedAt(cfg: Config, start: real, ops: seq<Op>, j: nat, q: Queued)
    requires j < |ops|
  {
    OnFile(Run(cfg, start, ops[..j]), q) && Supplied(cfg, ops[j], q.packet.destination).Some?
  }

  lemma ApplyKeepsReleases(cfg: Config, s: Pacer, op: Op)
    ensures s.released <= Apply(cfg, s, op).released
  {
    hide WaitTime, MinHops;
  }

  /** What is on file stays there unless a later announce replaces it or it is released. */
  lemma ApplyAccounts(cfg: Config, s: Pacer, op: Op, q: Queued)
    requires Agrees(s) && OnFile(s, q)
    ensures var t := Apply(cfg, s, op);
      OnFile(t, q) || Supplied(cfg, op, q.packet.destination).Some? || ReleasedSince(t, |s.released|, q)
  {
    hide WaitTime, MinHops, First;
    match op
    case Send(p, load, now) =>
      if WaitTime(cfg, load, p).Some? {
        SendIsFiled(cfg, s, p, load, now);
        assert s.queue != [] by { assert q.packet.destination in s.queue; }
      }
    case Poll(now) =>
      if s.workers > 0 && now >= s.allowedAt {
        var k := PollReleasesFirst(s, now);
        if s.queue != [] && s.queue[k] == q.packet.destination {
          assert PollOp(s, now).released[|s.released|] == Release(q.packet, now, q.wait);
        }
      }
    case WorkerSeesStop =>
    case Cancel =>
  }

  predicate PacedSend(cfg: Config, op: Op) {
    op.Send? && WaitTime(cfg, op.load, op.packet).Some?
  }

  function Sent(cfg: Config, op: Op): Queued
    requires PacedSend(cfg, op)
  {
    Queued(op.packet, WaitTime(cfg, op.load, op.packet).value)
  }

  /** What has become of the announce sent by operation `i`. */
  ghost predicate Accounted(cfg: Config, start: real, ops: seq<Op>, i: nat)
    requires i < |ops| && PacedSend(cfg, ops[i])
  {
    var (before, s, q) := (Run(cfg, start, ops[..i]), Run(cfg, start, ops), Sent(cfg, ops[i]));
    || ReleasedSince(s, |before.released|, q)
    || OnFile(s, q)
    || (exists j | i < j < |ops| :: ReplacedAt(cfg, start, ops, j, q))
    || (|before.queue| == 16384 && q.packet.destination !in before.queue)
  }

  lemma AccountedWhenSent(cfg: Config, start: real, ops: seq<Op>)
    requires ops != [] && PacedSend(cfg, ops[|ops| - 1])
    ensures Accounted(cfg, start, ops, |ops| - 1)
  {
    hide WaitTime, Agrees;
    var (s, op) := (Run(cfg, start, ops[..|ops| - 1]), ops[|ops| - 1]);
    RunAgrees(cfg, start, ops[..|ops| - 1]);
    SendIsFiled(cfg, s, op.packet, op.load, op.now);
    if s.queue == [] && op.now >= s.allowedAt {
      assert Run(cfg, start, ops).released[|s.released|] == Release(op.packet, op.now, Sent(cfg, op).wait);
    }
  }

  lemma AccountedStays(cfg: Config, start: real, ops: seq<Op>, i: nat)
    requires i < |ops| - 1 && PacedSend(cfg, ops[i]) && Accounted(cfg, start, ops[..|ops| - 1], i)
    ensures Accounted(cfg, start, ops, i)
  {
    hide WaitTime, Agrees, Apply, ReplacedAt, PacedSend, Sent;
    var (init, last, q) := (ops[..|ops| - 1], ops[|ops| - 1], Sent(cfg, ops[i]));
    var s := Run(cfg, start, init);
    assert init[..i] == ops[..i];
    ApplyKeepsReleases(cfg, s, last);
    if OnFile(s, q) {
      RunAgrees(cfg, start, init);
      ApplyAccounts(cfg, s, last, q);
      ReplacedNow(cfg, start, ops, q);
      RunGrows(cfg, start, init, i);
    } else if j :| i < j < |init| && ReplacedAt(cfg, start, init, j, q) {
      ReplacedBefore(cfg, start, ops, j, q);
    }
  }

  lemma ReplacedNow(cfg: Config, start: real, ops: seq<Op>, q: Queued)
    requires ops != [] && OnFile(Run(cfg, start, ops[..|ops| - 1]), q)
    ensures Supplied(cfg, ops[|ops| - 1], q.packet.destination).Some? ==> ReplacedAt(cfg, start, ops, |ops| - 1, q)
  {}

  lemma ReplacedBefore(cfg: Config, start: real, ops: seq<Op>, j: nat, q: Queued)
    requires j < |ops| - 1
    ensures ReplacedAt(cfg, start, ops, j, q) <==> ReplacedAt(cfg, start, ops[..|ops| - 1], j, q)
  {
    assert ops[..|ops| - 1][..j] == ops[..j];
  }

  /** Releases are only ever added. */
  lemma {:induction false} RunGrows(cfg: Config, start: real, ops: seq<Op>, i: nat)
    requires i <= |ops|
    ensures Run(cfg, start, ops[..i]).released <= Run(cfg, start, ops).released
    decreases |ops|
  {
    hide Apply;
    if i == |ops| {
      assert ops[..i] == ops;
    } else {
      var init := ops[..|ops| - 1];
      assert init[..i] == ops[..i];
      RunGrows(cfg, start, init, i);
      ApplyKeepsReleases(cfg, Run(cfg, start, init), ops[|ops| - 1]);
    }
  }

  /**
    In any run, every paced announce sent has since been released, or is on file, or was replaced by
    a later one for its destination while on file, or came when 16384 other destinations were queued.
   */
  lemma {:induction false} EveryAnnounceAccounted(cfg: Config, start: real, ops: seq<Op>, i: nat)
    requires i < |ops| && PacedSend(cfg, ops[i])
    ensures Accounted(cfg, start, ops, i)
    decreases |ops|
  {
    hide PacedSend, Accounted;
    if i == |ops| - 1 {
      AccountedWhenSent(cfg, start, ops);
    } else {
      EveryAnnounceAccounted(cfg, start, ops[..|ops| - 1], i);
      AccountedStays(cfg, start, ops, i);
    }
  }

  /** How many paced announces were sent, how many of them replaced one on file, and how many were refused. */
  datatype Tally = Tally(sent: nat, replacing: nat, refused: nat)

  function Tallied(cfg: Config, start: real, ops: seq<Op>): Tally {
    if ops == [] then Tally(0, 0, 0)
    else
      var (before, s, op) := (Tallied(cfg, start, ops[..|ops| - 1]), Run(cfg, start, ops[..|ops| - 1]), ops[|ops| - 1]);
      if !op.Send? || WaitTime(cfg, op.load, op.packet).None? then before
      else
        var t := before.(sent := before.sent + 1);
        if op.packet.destination in s.queue then t.(replacing := t.replacing + 1)
        else if |s.queue| == 16384 then t.(refused := t.refused + 1)
        else t
  }

  /** Conservation: paced announces sent are those released, queued, replaced and refused. */
  lemma {:induction false} AnnouncesConserved(cfg: Config, start: real, ops: seq<Op>)
    ensures var (s, t) := (Run(cfg, start, ops), Tallied(cfg, start, ops));
      t.sent == |s.released| + |s.queue| + t.replacing + t.refused
  {
    hide WaitTime, MinHops, First;
    if ops != [] {
      var (init, op) := (ops[..|ops| - 1], ops[|ops| - 1]);
      var s := Run(cfg, start, init);
      AnnouncesConserved(cfg, start, init);
      RunAgrees(cfg, start, init);
      match op
      case Send(p, load, now) =>
        if WaitTime(cfg, load, p).Some? { SendIsFiled(cfg, s, p, load, now); }
      case Poll(now) =>
        if s.workers > 0 && now >= s.allowedAt { var k := PollReleasesFirst(s, now); }
      case WorkerSeesStop =>
      case Cancel =>
    }
  }

  // ----- airtime

  function Airtime(cfg: Config, releases: seq<Release>): real
    requires cfg.bitrate > 0.0
  {
    if releases == [] then 0.0
    else Airtime(cfg, releases[..|releases| - 1]) + TxTime(cfg, releases[|releases| - 1].packet)
  }

  function WireBytes(releases: seq<Release>): nat {
    if releases == [] then 0 else WireBytes(releases[..|releases| - 1]) + WireLen(releases[|releases| - 1].packet)
  }

  /** The airtime of releases is eight bits for each byte of them at the bitrate. */
  lemma {:induction false} AirtimeIsBits(cfg: Config, releases: seq<Release>)
    requires cfg.bitrate > 0.0
    ensures Airtime(cfg, releases) * cfg.bitrate == 8.0 * WireBytes(releases) as real
  {
    hide WireLen;
    if releases != [] {
      var (init, p) := (releases[..|releases| - 1], releases[|releases| - 1].packet);
      AirtimeIsBits(cfg, init);
      assert TxTime(cfg, p) * cfg.bitrate == 8.0 * WireLen(p) as real;
      Distribute(Airtime(cfg, init), TxTime(cfg, p), cfg.bitrate);
    }
  }

  lemma Distribute(a: real, b: real, c: real)
    ensures (a + b) * c == a * c + b * c
  {}

  /** Every release covers its transmission and keeps its predecessor's wait; the clock keeps the last one's. */
  ghost predicate Spaced(cfg: Config, releases: seq<Release>, allowedAt: real)
    requires cfg.bitrate > 0.0
  {
    && (forall i | 0 <= i < |releases| :: Covered(cfg, releases[i].packet, releases[i].wait))
    && (forall i, j | 0 <= i && j == i + 1 < |releases| :: releases[j].at >= releases[i].at + releases[i].wait)
    && (releases != [] ==> var last := releases[|releases| - 1]; allowedAt == last.at + last.wait)
  }

  ghost predicate DataCovered(cfg: Config, data: map<Address, Queued>)
    requires cfg.bitrate > 0.0
  {
    forall d | d in data :: Covered(cfg, data[d].packet, data[d].wait)
  }

  lemma ReleaseSpaced(cfg: Config, releases: seq<Release>, allowedAt: real, r: Release)
    requires cfg.bitrate > 0.0 && Spaced(cfg, releases, allowedAt)
    requires r.at >= allowedAt && Covered(cfg, r.packet, r.wait)
    ensures Spaced(cfg, releases + [r], r.at + r.wait)
  {}

  lemma EnqueueCovered(cfg: Config, s: Pacer, q: Queued)
    requires cfg.bitrate > 0.0 && DataCovered(cfg, s.data) && Covered(cfg, q.packet, q.wait)
    ensures var after := StartWorker(Enqueue(s, q));
      && after.released == s.released && after.allowedAt == s.allowedAt && DataCovered(cfg, after.data)
  {}

  lemma SendSpaced(cfg: Config, s: Pacer, p: Packet, load: Option<real>, now: real)
    requires cfg.bitrate > 0.0 && Spaced(cfg, s.released, s.allowedAt) && DataCovered(cfg, s.data)
    ensures var after := SendOp(cfg, s, p, load, now);
      Spaced(cfg, after.released, after.allowedAt) && DataCovered(cfg, after.data)
  {
    if WaitTime(cfg, load, p).Some? {
      var wait := WaitTime(cfg, load, p).value;
      WaitCovers(cfg, load, p);
      if s.queue == [] && now >= s.allowedAt {
        ReleaseSpaced(cfg, s.released, s.allowedAt, Release(p, now, wait));
      } else {
        EnqueueCovered(cfg, s, Queued(p, wait));
      }
      hide Covered, WaitTime, TxTime, Spaced, DataCovered, Enqueue, StartWorker;
    }
  }

  lemma PollSpaced(cfg: Config, s: Pacer, now: real)
    requires cfg.bitrate > 0.0 && Spaced(cfg, s.released, s.allowedAt) && DataCovered(cfg, s.data)
    ensures var after := PollOp(s, now); Spaced(cfg, after.released, after.allowedAt) && DataCovered(cfg, after.data)
  {
    hide MinHops, Covered;
    var k := MinHops(s.queue, s.data);
    if s.workers > 0 && now >= s.allowedAt && k.Some? && k.value < |s.queue| && s.queue[k.value] in s.data {
      var q := s.data[s.queue[k.value]];
      ReleaseSpaced(cfg, s.released, s.allowedAt, Release(q.packet, now, q.wait));
    }
    hide Spaced;
  }

  lemma {:induction false} RunSpaced(cfg: Config, start: real, ops: seq<Op>)
    requires cfg.bitrate > 0.0
    ensures var s := Run(cfg, start, ops); Spaced(cfg, s.released, s.allowedAt) && DataCovered(cfg, s.data)
  {
    if ops != [] {
      var op, before := ops[|ops| - 1], Run(cfg, start, ops[..|ops| - 1]);
      RunSpaced(cfg, start, ops[..|ops| - 1]);
      match op
      case Send(p, load, now) => SendSpaced(cfg, before, p, load, now);
      case Poll(now) => PollSpaced(cfg, before, now);
      case WorkerSeesStop =>
      case Cancel =>
      hide SendOp, PollOp, Spaced, DataCovered;
    }
  }

  lemma {:induction false} AirtimeWithin(cfg: Config, releases: seq<Release>, allowedAt: real, n: nat)
    requires cfg.bitrate > 0.0 && cfg.announceCap > 0.0 && n < |releases|
    requires Spaced(cfg, releases, allowedAt)
    ensures Airtime(cfg, releases[..n]) <= Budget(cfg, releases[n].at - releases[0].at)
  {
    if n > 0 {
      AirtimeWithin(cfg, releases, allowedAt, n - 1);
      assert releases[..n][..n - 1] == releases[..n - 1];
      var r := releases[n - 1];
      assert releases[n].at >= r.at + r.wait && Covered(cfg, r.packet, r.wait);
      hide TxTime, Spaced, Budget;
      Extend(cfg, Airtime(cfg, releases[..n - 1]), TxTime(cfg, r.packet), r.wait, releases[0].at, r.at, releases[n].at);
    }
  }

  lemma Extend(cfg: Config, sum: real, tx: real, wait: real, t0: real, t1: real, t2: real)
    requires cfg.announceCap > 0.0 && sum <= Budget(cfg, t1 - t0) && tx <= Budget(cfg, wait) && t2 >= t1 + wait
    ensures sum + tx <= Budget(cfg, t2 - t0)
  {}

  /**
    In any run, under any changes of channel load and counting immediate and queued releases
    together: the airtime of all paced announces but the last is at most the announce cap's share
    of the time from the first release to the last.
   */
  lemma AirtimeBound(cfg: Config, start: real, ops: seq<Op>, n: nat)
    requires cfg.bitrate > 0.0 && cfg.announceCap > 0.0 && n < |Run(cfg, start, ops).released|
    ensures var r := Run(cfg, start, ops).released;
      Airtime(cfg, r[..n]) <= Budget(cfg, r[n].at - r[0].at)
  {
    hide *;
    RunSpaced(cfg, start, ops);
    AirtimeWithin(cfg, Run(cfg, start, ops).released, Run(cfg, start, ops).allowedAt, n);
  }

  // ----- the object

  /** What a live worker does after one pass: hand over an announce, sleep, or end. */
  datatype Turn = Forward(packet: Packet) | Sleep(time: real) | Done

  class PacerState {
    const cfg: Config
    var allowedAt: real
    var queue: seq<Address>
    var data: map<Address, Queued>
    var timerActive: bool
    ghost var workers: nat
    var stopped: bool
    ghost var released: seq<Release>

    ghost function Contents(): Pacer
      reads this
    {
      Pacer(allowedAt, queue, data, timerActive, workers, stopped, released)
    }

    constructor (cfg: Config, now: real)
      ensures this.cfg == cfg && Contents() == NewPacer(now)
    {
      this.cfg := cfg;
      allowedAt, queue, data, timerActive := now, [], map[], false;
      workers, stopped, released := 0, false, [];
    }

    /**
      `sent` tells whether the announce was handed to the interface at once, `spawn` whether a
      worker has to be started.
     */
    method Send(packet: Packet, load: Option<real>, now: real) returns (sent: bool, spawn: bool)
      modifies this
      ensures Contents() == SendOp(cfg, old(Contents()), packet, load, now)
      ensures sent <==> WaitTime(cfg, load, packet).None? || (old(queue) == [] && now >= old(allowedAt))
      ensures spawn <==> !old(timerActive) && timerActive
    {
      var wait := WaitTime(cfg, load, packet);
      if wait.None? {
        return true, false;
      }
      if queue == [] && now >= allowedAt {
        allowedAt := now + wait.value;
        released := released + [Release(packet, now, wait.value)];
        return true, false;
      }
      var dest := packet.destination;
      if dest in data {
        data := data[dest := Queued(packet, wait.value)];
      } else if |queue| < MAX_QUEUED_ANNOUNCES {
        queue := queue + [dest];
        data := data[dest := Queued(packet, wait.value)];
      }
      if timerActive {
        return false, false;
      }
      timerActive, workers := true, workers + 1;
      return false, true;
    }

    method FindMinHops() returns (best: Option<nat>)
      ensures best == MinHops(queue, data)
      ensures best.Some? ==> First(queue, data, best.value)
    {
      best := None;
      for i := 0 to |queue|
        invariant best == MinHops(queue[..i], data)
        invariant best.Some? ==> best.value < i && queue[best.value] in data
      {
        assert queue[..i + 1][..i] == queue[..i];
        if queue[i] in data
          && (best.None? || data[queue[i]].packet.header.hops < data[queue[best.value]].packet.header.hops) {
          best := Some(i);
        }
      }
      assert queue[..|queue|] == queue;
      MinHopsIsFirst(queue, data);
    }

    /** One pass of the worker. */
    method Poll(now: real) returns (turn: Turn)
      requires workers > 0
      modifies this
      ensures Contents() == PollOp(old(Contents()), now)
      ensures turn.Done? ==> !timerActive
      ensures turn.Forward? ==> exists k: nat ::
        First(old(queue), old(data), k) && turn.packet == old(data)[old(queue)[k]].packet
      ensures turn.Sleep? ==> turn.time > 0.0 && now + turn.time == allowedAt && Contents() == old(Contents())
    {
      if now < allowedAt {
        return Sleep(allowedAt - now);
      }
      var best := FindMinHops();
      if best.None? {
        timerActive, workers := false, workers - 1;
        return Done;
      }
      var (dest, k) := (queue[best.value], best.value);
      var next := data[dest];
      queue, data := queue[..k] + queue[k + 1..], data - {dest};
      allowedAt, released := now + next.wait, released + [Release(next.packet, now, next.wait)];
      return Forward(next.packet);
    }

    /** What a worker does at the top of its loop: it ends when the interface has been stopped. */
    method SeeStop() returns (ended: bool)
      requires workers > 0
      modifies this
      ensures Contents() == Apply(cfg, old(Contents()), WorkerSeesStop)
      ensures ended <==> old(stopped)
    {
      if stopped {
        timerActive, workers := false, workers - 1;
      }
      return stopped;
    }
  }
}
