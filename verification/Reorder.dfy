/**
  The channel reorder receiver seen through unwrapped positions.

  A sequence number on the wire is a position modulo 2^16. The functions here say what
  the receiver does in terms of positions, which are plain integers; `ChannelRx`
  does the same with 16-bit numbers only and is proved to agree.
 */
module Reorder {
  import opened Bytes
  import opened Wrappers
  import opened SequenceNumbers

  const HALF := MODULUS / 2
  /** How far beyond the expected position the receiver buffers. */
  const WINDOW_MAX := 16384
  /** Milliseconds a gap may last before the buffer is flushed. */
  const REORDER_TIMEOUT := 500

  datatype Envelope = Envelope(msgType: U16, sequence: U16, payload: seq<byte>)

  /** What a sender sends: a message at an unwrapped position. */
  datatype Item = Item(pos: int, msgType: U16, payload: seq<byte>)

  /** What of it goes over the wire. */
  function Wire(it: Item): Envelope {
    Envelope(it.msgType, it.pos % MODULUS, it.payload)
  }

  /**
    `log` is every item taken in, by position. The first `posted` of them have been posted as
    channel events; the rest are the reorder ring.
   */
  datatype Receiver = Receiver(next: int, log: seq<Item>, posted: nat, stallSince: Option<int>)

  const FRESH := Receiver(0, [], 0, None)

  datatype Verdict = Late | LateAfterRecovery | Resynchronised | Invalid | Duplicate | Accepted

  function Distance(base: U16, sequence: U16): nat {
    (sequence + MODULUS - base) % MODULUS
  }

  /** The one position congruent to `sequence` less than half the modulus ahead of `next` or at most half behind. */
  function Unwrap(next: int, sequence: U16): int {
    var d := Distance(next % MODULUS, sequence);
    if d < HALF then next + d else next + d - MODULUS
  }

  /** The item an envelope stands for at a receiver expecting position `next`. */
  function Read(next: int, env: Envelope): Item {
    Item(Unwrap(next, env.sequence), env.msgType, env.payload)
  }

  predicate InHalfWindow(next: int, pos: int) {
    next - HALF <= pos < next + HALF
  }

  /** A receiver reads back what the sender sent exactly inside the half window. */
  lemma ReadWire(next: int, it: Item)
    ensures Read(next, Wire(it)) == it <==> InHalfWindow(next, it.pos)
  {}

  // ----- the receiver on positions

  predicate Expired(s: Receiver, now: int) {
    s.stallSince.Some? && now - s.stallSince.value >= REORDER_TIMEOUT
  }

  predicate Buffering(s: Receiver) {
    s.posted < |s.log|
  }

  /** Post everything buffered and expect what follows the last of it. */
  function Flush(s: Receiver): Receiver {
    Receiver(if Buffering(s) then s.log[|s.log| - 1].pos + 1 else s.next, s.log, |s.log|, None)
  }

  /** How many items from index `k` carry on from `next` without a gap. */
  function Contiguous(next: int, log: seq<Item>, k: nat): nat
    decreases |log| - k
  {
    if k < |log| && log[k].pos == next then 1 + Contiguous(next + 1, log, k + 1) else 0
  }

  function Deliver(s: Receiver): Receiver {
    var c := Contiguous(s.next, s.log, s.posted);
    s.(next := s.next + c, posted := s.posted + c)
  }

  /** Number of items before position `pos`. */
  function Before(log: seq<Item>, pos: int): (k: nat)
    ensures k <= |log|
  {
    if log == [] || log[0].pos >= pos then 0 else 1 + Before(log[1..], pos)
  }

  function Insert(log: seq<Item>, it: Item): seq<Item> {
    var k := Before(log, it.pos);
    log[..k] + [it] + log[k..]
  }

  predicate Holds(log: seq<Item>, pos: int) {
    exists i | 0 <= i < |log| :: log[i].pos == pos
  }

  /** Restart the stall clock when delivery moved on or a gap has just opened; stop it when nothing waits. */
  function Clock(before: Receiver, after: Receiver, now: int): Receiver {
    after.(stallSince :=
      if !Buffering(after) then None
      else if after.next > before.next || before.stallSince.None? then Some(now)
      else before.stallSince)
  }

  function Accept(s: Receiver, it: Item, now: int): Receiver {
    Clock(s, Deliver(s.(log := Insert(s.log, it))), now)
  }

  function Resynchronise(s: Receiver, it: Item): Receiver {
    s.(next := it.pos + 1, log := s.log + [it], posted := s.posted + 1)
  }

  function Admit(s: Receiver, it: Item, now: int): (Receiver, Verdict) {
    if it.pos >= s.next + WINDOW_MAX then
      if Buffering(s) then (s, Invalid) else (Resynchronise(s, it), Resynchronised)
    else if Holds(s.log, it.pos) then (s, Duplicate)
    else (Accept(s, it, now), Accepted)
  }

  predicate Recovers(s: Receiver, it: Item, now: int) {
    it.pos >= s.next && Buffering(s) && (Expired(s, now) || it.pos >= s.next + WINDOW_MAX)
  }

  /** One arrival. */
  function Arrive(s: Receiver, it: Item, now: int): (Receiver, Verdict) {
    if it.pos < s.next then (s, Late)
    else if Recovers(s, it, now) then
      var f := Flush(s);
      if it.pos < f.next then (f, LateAfterRecovery) else Admit(f, it, now)
    else Admit(s, it, now)
  }

  // ----- what every state satisfies

  ghost predicate Increasing(log: seq<Item>) {
    forall i, j | 0 <= i < j < |log| :: log[i].pos < log[j].pos
  }

  /** Positions posted lie below `next`, buffered ones from `lo` to 16383 beyond it. */
  ghost predicate Split(s: Receiver, lo: nat) {
    && s.posted <= |s.log|
    && (forall i | 0 <= i < s.posted :: s.log[i].pos < s.next)
    && (forall i | s.posted <= i < |s.log| :: s.next + lo <= s.log[i].pos < s.next + WINDOW_MAX)
  }

  /** Expected is what follows the last position posted, or position 0. */
  ghost predicate Follows(s: Receiver) {
    s.posted <= |s.log| && s.next == if s.posted == 0 then 0 else s.log[s.posted - 1].pos + 1
  }

  /** The state between two arrivals. */
  ghost predicate Inv(s: Receiver) {
    Increasing(s.log) && Split(s, 1) && Follows(s) && (s.stallSince.Some? <==> Buffering(s))
  }

  lemma {:induction false} BeforeSplits(log: seq<Item>, pos: int)
    requires Increasing(log)
    ensures var k := Before(log, pos);
      && (forall i | 0 <= i < k :: log[i].pos < pos)
      && (forall i | k <= i < |log| :: log[i].pos >= pos)
      && (Holds(log, pos) <==> k < |log| && log[k].pos == pos)
  {
    if log != [] && log[0].pos < pos {
      BeforeSplits(log[1..], pos);
      var k := Before(log, pos);
      forall i | 0 <= i < k ensures log[i].pos < pos {
        if i > 0 { assert log[1..][i - 1].pos < pos; }
      }
      forall i | k <= i < |log| ensures log[i].pos >= pos {
        assert log[1..][i - 1].pos >= pos;
      }
    }
  }

  lemma {:induction false} ContiguousRun(next: int, log: seq<Item>, k: nat)
    requires k <= |log|
    ensures var c := Contiguous(next, log, k);
      && k + c <= |log|
      && (forall i | k <= i < k + c :: log[i].pos == next + (i - k))
      && (k + c < |log| ==> log[k + c].pos != next + c)
    decreases |log| - k
  {
    if k < |log| && log[k].pos == next {
      ContiguousRun(next + 1, log, k + 1);
    }
  }

  lemma {:induction false} InsertAt(log: seq<Item>, it: Item)
    ensures var (k, after) := (Before(log, it.pos), Insert(log, it));
      && |after| == |log| + 1
      && (forall i | 0 <= i < k :: after[i] == log[i])
      && after[k] == it
      && (forall i | k < i < |after| :: after[i] == log[i - 1])
  {}

  lemma {:induction false} InsertIncreasing(log: seq<Item>, it: Item)
    requires Increasing(log) && !Holds(log, it.pos)
    ensures Increasing(Insert(log, it))
  {
    hide Insert, Before;
    BeforeSplits(log, it.pos);
    InsertAt(log, it);
  }

  /** An item at or beyond `next` goes in behind everything posted. */
  lemma InsertSplit(s: Receiver, it: Item)
    requires Increasing(s.log) && Split(s, 1) && s.next <= it.pos < s.next + WINDOW_MAX
    ensures Split(s.(log := Insert(s.log, it)), 0)
    ensures s.log[..s.posted] <= Insert(s.log, it)
  {
    BeforeSplits(s.log, it.pos);
    var k, after := Before(s.log, it.pos), Insert(s.log, it);
    assert s.posted <= k;
    forall i | 0 <= i < |after| ensures after[i] == if i < k then s.log[i] else if i == k then it else s.log[i - 1] {}
  }

  lemma DeliverSplit(s: Receiver)
    requires Increasing(s.log) && Split(s, 0)
    ensures Split(Deliver(s), 1)
  {
    ContiguousRun(s.next, s.log, s.posted);
    var s' := Deliver(s);
    if s.posted < s'.posted < |s.log| {
      assert s.log[s'.posted - 1].pos == s'.next - 1;
    }
  }

  lemma DeliverFollows(s: Receiver)
    requires Follows(s)
    ensures Follows(Deliver(s))
  {
    ContiguousRun(s.next, s.log, s.posted);
  }

  lemma InsertFollows(s: Receiver, it: Item)
    requires Follows(s) && s.log[..s.posted] <= Insert(s.log, it)
    ensures Follows(s.(log := Insert(s.log, it)))
  {
    hide Insert;
    assert s.posted > 0 ==> s.log[..s.posted][s.posted - 1] == Insert(s.log, it)[s.posted - 1];
  }

  lemma AcceptKeeps(s: Receiver, it: Item, now: int)
    requires Inv(s) && s.next <= it.pos < s.next + WINDOW_MAX && !Holds(s.log, it.pos)
    ensures Inv(Accept(s, it, now)) && Posted(s) <= Posted(Accept(s, it, now))
  {
    hide Insert, Contiguous, Before, Holds;
    var t := s.(log := Insert(s.log, it));
    InsertIncreasing(s.log, it);
    InsertSplit(s, it);
    InsertFollows(s, it);
    DeliverSplit(t);
    DeliverFollows(t);
    assert Posted(s) <= t.log[..Deliver(t).posted];
  }

  ghost function Posted(s: Receiver): seq<Item> {
    if s.posted <= |s.log| then s.log[..s.posted] else []
  }

  predicate Takes(v: Verdict) {
    v == Accepted || v == Resynchronised
  }

  lemma {:induction false} BeforeAll(log: seq<Item>, pos: int)
    requires forall i | 0 <= i < |log| :: log[i].pos < pos
    ensures Before(log, pos) == |log|
  {
    if log != [] {
      forall i | 0 <= i < |log[1..]| ensures log[1..][i].pos < pos {
        assert log[1..][i] == log[i + 1];
      }
      BeforeAll(log[1..], pos);
    }
  }

  lemma AdmitKeeps(s: Receiver, it: Item, now: int)
    requires Inv(s) && s.next <= it.pos
    requires it.pos < s.next + WINDOW_MAX || !Buffering(s)
    ensures var (s', v) := Admit(s, it, now);
      && Inv(s') && v != Invalid && Posted(s) <= Posted(s')
      && s'.log == if Takes(v) then Insert(s.log, it) else s.log
  {
    if it.pos >= s.next + WINDOW_MAX {
      BeforeAll(s.log, it.pos);
      assert Insert(s.log, it) == s.log + [it];
    } else if !Holds(s.log, it.pos) {
      AcceptKeeps(s, it, now);
    }
  }

  lemma FlushKeeps(s: Receiver)
    requires Inv(s)
    ensures Inv(Flush(s)) && Posted(s) <= Posted(Flush(s)) == s.log && !Buffering(Flush(s))
    ensures s.next <= Flush(s).next <= s.next + WINDOW_MAX
  {}

  /**
    One arrival, whatever its position and the clock: the log stays strictly sorted, expected is
    what follows the last position posted, the ring's distances stay in 1 to 16383, the stall clock
    runs exactly while something is buffered, what was posted stays posted, nothing taken in is lost
    or doubled, the arm for an unplaceable sequence is never taken, and a recovery posts everything
    that was waiting.
   */
  lemma ArriveKeeps(s: Receiver, it: Item, now: int)
    requires Inv(s)
    ensures var (s', v) := Arrive(s, it, now);
      && Inv(s') && v != Invalid && Posted(s) <= Posted(s')
      && s'.log == (if Takes(v) then Insert(s.log, it) else s.log)
      && (Recovers(s, it, now) ==> s.log <= Posted(s'))
  {
    hide Admit, Insert, Inv, Posted;
    if it.pos >= s.next {
      if Recovers(s, it, now) {
        var f := Flush(s);
        FlushKeeps(s);
        if it.pos >= f.next {
          AdmitKeeps(f, it, now);
        }
      } else {
        AdmitKeeps(s, it, now);
      }
    }
  }

  /**
    An item is refused exactly when its position is held already or, once a recovery if any has been
    made, lies behind what is expected; so what is expected is never refused.
   */
  lemma RefusedExactly(s: Receiver, it: Item, now: int)
    requires Inv(s)
    ensures var (s', v) := Arrive(s, it, now);
      && (!Takes(v) <==>
          Holds(s.log, it.pos)
          || it.pos < (if Recovers(s, it, now) then s.log[|s.log| - 1].pos + 1 else s.next))
      && (!Takes(v) ==> Holds(s'.log, it.pos) || it.pos < s'.next)
  {
    hide Insert, Before, Contiguous, Clock;
    if it.pos >= s.next && Recovers(s, it, now) {
      assert Holds(s.log, it.pos) ==> it.pos <= s.log[|s.log| - 1].pos;
    }
  }

  // ----- whole runs

  /** An envelope off the wire and the clock reading it is handled at. */
  datatype Arrival = Arrival(env: Envelope, now: int)

  function Receive(s: Receiver, a: Arrival): Receiver {
    Arrive(s, Read(s.next, a.env), a.now).0
  }

  function Run(arrivals: seq<Arrival>): Receiver {
    if arrivals == [] then FRESH
    else Receive(Run(arrivals[..|arrivals| - 1]), arrivals[|arrivals| - 1])
  }

  /**
    Any arrivals at any clock readings: positions posted strictly increase, so none is delivered
    twice or out of order, expected is exactly what follows the last of them, and what is buffered
    lies beyond all of it.
   */
  lemma {:induction false} RunIsOrdered(arrivals: seq<Arrival>)
    ensures Inv(Run(arrivals))
    ensures var s := Run(arrivals);
      && Increasing(s.log) && s.posted <= |s.log|
      && s.next == (if s.posted == 0 then 0 else s.log[s.posted - 1].pos + 1)
  {
    hide Arrive;
    if arrivals != [] {
      var before := Run(arrivals[..|arrivals| - 1]);
      var last := arrivals[|arrivals| - 1];
      RunIsOrdered(arrivals[..|arrivals| - 1]);
      ArriveKeeps(before, Read(before.next, last.env), last.now);
    }
  }

  lemma InsertContents(log: seq<Item>, it: Item)
    ensures forall x :: x in Insert(log, it) <==> x == it || x in log
  {}

  /**
    Whatever arrives later, what was posted stays posted and what was buffered is posted or still
    buffered; the log being strictly sorted, exactly once.
   */
  lemma {:induction false} RunLosesNothing(arrivals: seq<Arrival>, k: nat)
    requires k <= |arrivals|
    ensures Posted(Run(arrivals[..k])) <= Posted(Run(arrivals))
    ensures forall x | x in Run(arrivals[..k]).log :: x in Run(arrivals).log
  {
    if k == |arrivals| {
      assert arrivals[..k] == arrivals;
    } else {
      var init, last := arrivals[..|arrivals| - 1], arrivals[|arrivals| - 1];
      var s := Run(init);
      RunLosesNothing(init, k);
      assert init[..k] == arrivals[..k];
      RunIsOrdered(init);
      ArriveKeeps(s, Read(s.next, last.env), last.now);
      InsertContents(s.log, Read(s.next, last.env));
    }
  }

  /**
    The clock reading of the arrival that opened the present gap or last moved delivery on, while
    something is buffered.
   */
  function GapSince(arrivals: seq<Arrival>): Option<int> {
    if arrivals == [] then None
    else
      var (init, last) := (arrivals[..|arrivals| - 1], arrivals[|arrivals| - 1]);
      var (before, after) := (Run(init), Run(arrivals));
      if !Buffering(after) then None
      else if !Buffering(before) || after.posted > before.posted then Some(last.now)
      else GapSince(init)
  }

  lemma ArriveClock(s: Receiver, it: Item, now: int)
    requires Inv(s)
    ensures var t := Arrive(s, it, now).0;
      t.stallSince ==
      if !Buffering(t) then None
      else if !Buffering(s) || t.posted > s.posted then Some(now)
      else s.stallSince
  {
    hide Holds, Insert, Before, Contiguous;
  }

  /** In every run the stall clock holds that reading. */
  lemma {:induction false} StallClockIsGapSince(arrivals: seq<Arrival>)
    ensures Run(arrivals).stallSince == GapSince(arrivals)
  {
    if arrivals != [] {
      var (init, last) := (arrivals[..|arrivals| - 1], arrivals[|arrivals| - 1]);
      StallClockIsGapSince(init);
      RunIsOrdered(init);
      ArriveClock(Run(init), Read(Run(init).next, last.env), last.now);
      hide Arrive, Inv;
    }
  }

  /** An arrival that is not behind leaves no gap that has lasted the reorder timeout. */
  lemma NoGapOutlivesTimeout(s: Receiver, it: Item, now: int)
    requires Inv(s) && it.pos >= s.next
    ensures var t := Arrive(s, it, now).0; t.stallSince.Some? ==> now - t.stallSince.value < REORDER_TIMEOUT
  {
    hide Holds, Insert, Before, Contiguous;
  }

  // ----- refinement of in-order delivery

  /** What was sent, as it reaches the receiver: any order, duplicated or missing. */
  datatype Delivery = Delivery(it: Item, now: int)

  function Arrivals(ds: seq<Delivery>): seq<Arrival> {
    seq(|ds|, i requires 0 <= i < |ds| => Arrival(Wire(ds[i].it), ds[i].now))
  }

  predicate Disturbs(s: Receiver, it: Item, now: int) {
    it.pos >= s.next + WINDOW_MAX || Recovers(s, it, now)
  }

  /** Every arrival comes within reach of the window and no recovery fires. */
  ghost predicate Undisturbed(ds: seq<Delivery>) {
    ds == [] ||
    (var (init, d) := (ds[..|ds| - 1], ds[|ds| - 1]);
     var s := Run(Arrivals(init));
     && Undisturbed(init)
     && InHalfWindow(s.next, d.it.pos)
     && !Disturbs(s, d.it, d.now))
  }

  /** A delivery read back correctly acts at the position its sender gave it. */
  lemma RunStep(ds: seq<Delivery>, d: Delivery)
    requires InHalfWindow(Run(Arrivals(ds)).next, d.it.pos)
    ensures Run(Arrivals(ds + [d])) == Arrive(Run(Arrivals(ds)), d.it, d.now).0
  {
    assert Arrivals(ds + [d])[..|ds|] == Arrivals(ds);
    ReadWire(Run(Arrivals(ds)).next, d.it);
  }

  ghost predicate Arrived(ds: seq<Delivery>, pos: int) {
    exists d | d in ds :: d.it.pos == pos
  }

  ghost predicate ArrivedItem(ds: seq<Delivery>, it: Item) {
    exists d | d in ds :: d.it == it
  }

  /** Positions 0 up to `next` are posted, in order. */
  ghost predicate PostedFromZero(s: Receiver) {
    && s.posted == s.next
    && s.posted <= |s.log|
    && forall i | 0 <= i < s.posted :: s.log[i].pos == i
  }

  lemma AcceptFromZero(s: Receiver, it: Item, now: int)
    requires Inv(s) && PostedFromZero(s)
    requires s.next <= it.pos < s.next + WINDOW_MAX && !Holds(s.log, it.pos)
    ensures PostedFromZero(Accept(s, it, now))
  {
    var t := s.(log := Insert(s.log, it));
    InsertSplit(s, it);
    ContiguousRun(t.next, t.log, t.posted);
    var s' := Accept(s, it, now);
    forall i | 0 <= i < s'.posted ensures s'.log[i].pos == i {
      if i < s.posted {
        assert t.log[i] == s.log[..s.posted][i];
      }
    }
  }

  /**
    Positions 0 up to `next` are posted in order, posted and buffered together is what arrived,
    and position `next` has not arrived.
   */
  ghost predicate InOrder(s: Receiver, ds: seq<Delivery>) {
    && Inv(s) && PostedFromZero(s)
    && (forall x | x in s.log :: ArrivedItem(ds, x))
    && (forall p | p >= 0 :: Arrived(ds, p) <==> Holds(s.log, p))
    && !Arrived(ds, s.next)
  }

  lemma ArrivedGrows(ds: seq<Delivery>, d: Delivery)
    ensures forall p :: Arrived(ds + [d], p) <==> Arrived(ds, p) || p == d.it.pos
    ensures forall x :: ArrivedItem(ds + [d], x) <==> ArrivedItem(ds, x) || x == d.it
  {}

  lemma HoldsInsert(log: seq<Item>, it: Item)
    ensures forall p :: Holds(Insert(log, it), p) <==> Holds(log, p) || p == it.pos
  {
    InsertContents(log, it);
    forall p ensures Holds(Insert(log, it), p) <==> exists x | x in Insert(log, it) :: x.pos == p {}
    forall p ensures Holds(log, p) <==> exists x | x in log :: x.pos == p {}
  }

  lemma AcceptInOrder(s: Receiver, d: Delivery, ds: seq<Delivery>)
    requires InOrder(s, ds) && s.next <= d.it.pos < s.next + WINDOW_MAX && !Holds(s.log, d.it.pos)
    ensures InOrder(Accept(s, d.it, d.now), ds + [d])
  {
    var s' := Accept(s, d.it, d.now);
    AcceptKeeps(s, d.it, d.now);
    AcceptFromZero(s, d.it, d.now);
    HoldsInsert(s.log, d.it);
    InsertContents(s.log, d.it);
    ArrivedGrows(ds, d);
    assert !Holds(s'.log, s'.next);
  }

  lemma RepeatInOrder(s: Receiver, d: Delivery, ds: seq<Delivery>)
    requires InOrder(s, ds) && (d.it.pos < s.next || Holds(s.log, d.it.pos))
    ensures InOrder(s, ds + [d])
  {
    ArrivedGrows(ds, d);
    if 0 <= d.it.pos < s.next {
      assert s.log[d.it.pos].pos == d.it.pos;
    }
    assert !Holds(s.log, s.next);
  }

  lemma NothingInOrder()
    ensures InOrder(Run(Arrivals([])), [])
  {}

  lemma WithinReach(s: Receiver, it: Item, now: int)
    requires !Disturbs(s, it, now)
    ensures it.pos < s.next + WINDOW_MAX
  {}

  /** An arrival within reach and without a recovery is kept if its position is new, and changes nothing otherwise. */
  lemma UndisturbedArrival(s: Receiver, it: Item, now: int)
    requires !Disturbs(s, it, now)
    ensures Arrive(s, it, now).0 == if it.pos < s.next || Holds(s.log, it.pos) then s else Accept(s, it, now)
  {}

  /**
    However deliveries are reordered, duplicated or lost, and across any number of 16-bit
    wraparounds: while nothing disturbs the receiver, it posts exactly the items at positions
    0, 1, 2, ... up to the least position that has not arrived, in order, and its ring holds
    exactly the arrived positions beyond that.
   */
  lemma {:induction false} UndisturbedIsInOrder(ds: seq<Delivery>)
    requires Undisturbed(ds)
    ensures InOrder(Run(Arrivals(ds)), ds)
  {
    hide Arrive, Accept, InOrder, Disturbs, Holds;
    if ds == [] {
      NothingInOrder();
    } else {
      var init, d := ds[..|ds| - 1], ds[|ds| - 1];
      var s := Run(Arrivals(init));
      UndisturbedIsInOrder(init);
      RunStep(init, d);
      UndisturbedArrival(s, d.it, d.now);
      WithinReach(s, d.it, d.now);
      assert ds == init + [d];
      if d.it.pos < s.next || Holds(s.log, d.it.pos) {
        RepeatInOrder(s, d, init);
      } else {
        AcceptInOrder(s, d, init);
      }
    }
  }

  /** Every arrival lies where the receiver reads its position back correctly. */
  ghost predicate Understood(ds: seq<Delivery>) {
    ds == [] ||
    (Understood(ds[..|ds| - 1]) && InHalfWindow(Run(Arrivals(ds[..|ds| - 1])).next, ds[|ds| - 1].it.pos))
  }

  /** Positions given up on so far. */
  function Skipped(s: Receiver): int {
    s.next - s.posted
  }

  lemma {:induction false} Spread(log: seq<Item>, i: nat, j: nat)
    requires Increasing(log) && i <= j < |log|
    ensures log[j].pos - log[i].pos >= j - i
    decreases j - i
  {
    if i < j {
      Spread(log, i, j - 1);
    }
  }

  lemma AdmitSkips(s: Receiver, it: Item, now: int)
    requires s.next <= it.pos
    ensures Skipped(Admit(s, it, now).0) >= Skipped(s)
    ensures it.pos >= s.next + WINDOW_MAX && !Buffering(s) ==> Skipped(Admit(s, it, now).0) > Skipped(s)
    ensures it.pos < s.next + WINDOW_MAX ==> Skipped(Admit(s, it, now).0) == Skipped(s)
  {}

  /** A position is given up on by recoveries and resynchronisations and by nothing else. */
  lemma ArriveSkips(s: Receiver, it: Item, now: int)
    requires Inv(s)
    ensures Skipped(Arrive(s, it, now).0) >= Skipped(s)
    ensures Skipped(Arrive(s, it, now).0) > Skipped(s) <==> Disturbs(s, it, now)
  {
    if Recovers(s, it, now) {
      var f := Flush(s);
      Spread(s.log, s.posted, |s.log| - 1);
      assert Skipped(f) > Skipped(s);
      if it.pos >= f.next {
        AdmitSkips(f, it, now);
      }
    } else if it.pos >= s.next {
      AdmitSkips(s, it, now);
    }
  }

  lemma GapStep(ds: seq<Delivery>, d: Delivery)
    requires InHalfWindow(Run(Arrivals(ds)).next, d.it.pos)
    ensures var (s, s') := (Run(Arrivals(ds)), Run(Arrivals(ds + [d])));
      && Skipped(s') >= Skipped(s)
      && (Skipped(s') > Skipped(s) <==> Disturbs(s, d.it, d.now))
  {
    RunIsOrdered(Arrivals(ds));
    ArriveSkips(Run(Arrivals(ds)), d.it, d.now);
    RunStep(ds, d);
  }

  /** Delivery has no gap exactly when no arrival forced one. */
  lemma {:induction false} GapFreeIffUndisturbed(ds: seq<Delivery>)
    requires Understood(ds)
    ensures Skipped(Run(Arrivals(ds))) >= 0
    ensures Undisturbed(ds) <==> Skipped(Run(Arrivals(ds))) == 0
  {
    if ds != [] {
      var init, d := ds[..|ds| - 1], ds[|ds| - 1];
      assert ds == init + [d];
      GapFreeIffUndisturbed(init);
      GapStep(init, d);
    }
  }
}
