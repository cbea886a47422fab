/** The receiver as the link keeps it: 16-bit sequence numbers, a ring vector and a stall clock. */
module ChannelRx {
  import opened Wrappers
  import opened SequenceNumbers
  import opened Reorder

  function Wires(items: seq<Item>): (r: seq<Envelope>) {
    seq(|items|, i requires 0 <= i < |items| => Wire(items[i]))
  }

  /** Positions within one modulus of the expected one are recovered from 16 bits. */
  lemma DistanceOf(next: int, pos: int)
    requires 0 <= pos - next < MODULUS
    ensures Distance(next % MODULUS, pos % MODULUS) == pos - next
  {}

  lemma DistanceBehind(next: int, pos: int)
    requires 0 < next - pos <= HALF
    ensures Distance(next % MODULUS, pos % MODULUS) >= HALF
  {}

  /** Which side of the expected position an envelope is read on. */
  lemma ReadDistance(next: int, env: Envelope)
    ensures var (it, d) := (Read(next, env), Distance(next % MODULUS, env.sequence));
      && Wire(it) == env && InHalfWindow(next, it.pos)
      && (d >= HALF <==> it.pos < next)
      && (d < HALF ==> it.pos == next + d)
  {}

  lemma SameSequence(next: int, pos: int)
    requires 0 <= pos - next < MODULUS
    ensures pos % MODULUS == next % MODULUS <==> pos == next
  {}

  lemma NextSequence(pos: int)
    ensures (pos % MODULUS + 1) % MODULUS == (pos + 1) % MODULUS
  {}

  lemma AdvanceSequence(pos: int, count: nat)
    ensures (pos % MODULUS + count) % MODULUS == (pos + count) % MODULUS
  {}

  /** Taking one more item off a run. */
  lemma NextInReach(s: Receiver, c: nat)
    requires Increasing(s.log) && Split(s, 0) && s.posted + c < |s.log|
    requires forall i | s.posted <= i < s.posted + c :: s.log[i].pos == s.next + (i - s.posted)
    ensures 0 <= s.log[s.posted + c].pos - (s.next + c) < MODULUS
  {
    if c > 0 {
      assert s.log[s.posted + c - 1].pos < s.log[s.posted + c].pos;
    }
  }

  lemma {:induction false} RunLength(next: int, log: seq<Item>, k: nat, c: nat)
    requires k + c <= |log|
    requires forall i | k <= i < k + c :: log[i].pos == next + (i - k)
    requires k + c < |log| ==> log[k + c].pos != next + c
    ensures Contiguous(next, log, k) == c
    decreases c
  {
    if c > 0 {
      assert log[k].pos == next;
      RunLength(next + 1, log, k + 1, c - 1);
    }
  }

  lemma SameDistance(next: U16, a: U16, b: U16)
    ensures Distance(next, a) == Distance(next, b) <==> a == b
  {}

  /** The insertion point among envelopes sorted by distance from `next`, by binary search. */
  method PartitionPoint(next: U16, ring: seq<Envelope>, distance: nat) returns (pos: nat)
    requires forall i, j | 0 <= i < j < |ring| :: Distance(next, ring[i].sequence) < Distance(next, ring[j].sequence)
    ensures pos <= |ring|
    ensures forall i | 0 <= i < pos :: Distance(next, ring[i].sequence) < distance
    ensures forall i | pos <= i < |ring| :: Distance(next, ring[i].sequence) >= distance
  {
    pos := 0;
    var hi := |ring|;
    while pos < hi
      invariant pos <= hi <= |ring|
      invariant forall i | 0 <= i < pos :: Distance(next, ring[i].sequence) < distance
      invariant forall i | hi <= i < |ring| :: Distance(next, ring[i].sequence) >= distance
    {
      var mid := (pos + hi) / 2;
      if Distance(next, ring[mid].sequence) < distance {
        pos := mid + 1;
      } else {
        hi := mid;
      }
    }
  }

  /** Where an item goes in the log, told from where it goes in the ring. */
  lemma RingPlace(s: Receiver, it: Item, pos: nat)
    requires Increasing(s.log) && Split(s, 1) && s.next <= it.pos && s.posted + pos <= |s.log|
    requires forall i | s.posted <= i < s.posted + pos :: s.log[i].pos < it.pos
    requires forall i | s.posted + pos <= i < |s.log| :: s.log[i].pos >= it.pos
    ensures Before(s.log, it.pos) == s.posted + pos
    ensures Holds(s.log, it.pos) <==> s.posted + pos < |s.log| && s.log[s.posted + pos].pos == it.pos
  {
    BeforeSplits(s.log, it.pos);
    var k := Before(s.log, it.pos);
    assert k < |s.log| ==> s.log[k].pos >= it.pos;
    assert s.posted + pos < |s.log| ==> s.log[s.posted + pos].pos >= it.pos;
  }

  lemma RingInsertion(s: Receiver, it: Item, pos: nat)
    requires s.posted + pos == Before(s.log, it.pos)
    ensures Insert(s.log, it)[..s.posted] == s.log[..s.posted]
    ensures var ring := Wires(s.log[s.posted..]);
      Wires(Insert(s.log, it)[s.posted..]) == ring[..pos] + [Wire(it)] + ring[pos..]
  {}

  lemma WiresSplit(log: seq<Item>, k: nat, m: nat)
    requires k <= m <= |log|
    ensures Wires(log[..m]) == Wires(log[..k]) + Wires(log[k..])[..m - k]
    ensures Wires(log[m..]) == Wires(log[k..])[m - k..]
  {}

  /** How many ring envelopes from the head carry on from the expected sequence. */
  method CountContiguous(next: U16, ring: seq<Envelope>, ghost s: Receiver) returns (count: nat)
    requires Increasing(s.log) && Split(s, 0)
    requires next == s.next % MODULUS && ring == Wires(s.log[s.posted..])
    ensures count == Contiguous(s.next, s.log, s.posted) && count <= |ring|
  {
    hide Contiguous;
    count := 0;
    var expected := next;
    while count < |ring| && ring[count].sequence == expected
      invariant count <= |ring|
      invariant expected == (s.next + count) % MODULUS
      invariant forall i | s.posted <= i < s.posted + count :: s.log[i].pos == s.next + (i - s.posted)
    {
      NextInReach(s, count);
      SameSequence(s.next + count, s.log[s.posted + count].pos);
      NextSequence(s.next + count);
      expected := (expected + 1) % MODULUS;
      count := count + 1;
    }
    if count < |ring| {
      NextInReach(s, count);
      SameSequence(s.next + count, s.log[s.posted + count].pos);
    }
    RunLength(s.next, s.log, s.posted, count);
  }

  class ChannelReceiver {
    var nextRxChannelSequence: U16
    var channelRxRing: seq<Envelope>
    var channelRxStallSince: Option<int>
    /** Channel events handed to the link's event sender. */
    var posted: seq<Envelope>
    /** The same state in unwrapped positions. */
    ghost var view: Receiver

    /** The fields are the 16-bit form of the view. */
    ghost predicate Shows()
      reads this
    {
      && view.posted <= |view.log|
      && nextRxChannelSequence == view.next % MODULUS
      && posted == Wires(view.log[..view.posted])
      && channelRxRing == Wires(view.log[view.posted..])
      && channelRxStallSince == view.stallSince
    }

    ghost predicate Valid()
      reads this
    {
      Shows() && Inv(view)
    }

    constructor ()
      ensures Valid() && view == FRESH
    {
      nextRxChannelSequence := 0;
      channelRxRing := [];
      channelRxStallSince := None;
      posted := [];
      view := FRESH;
    }

    /** Exactly `Arrive` on the position the sequence number stands for. */
    method HandleChannelEnvelope(envelope: Envelope, now: int) returns (v: Verdict)
      requires Valid()
      modifies this
      ensures Valid()
      ensures (view, v) == Arrive(old(view), Read(old(view).next, envelope), now)
      ensures v != Invalid
    {
      ghost var it := Read(view.next, envelope);
      hide Distance, Read, Unwrap, Admit, Increasing, Split, Follows, Posted, Insert, Accept;
      ReadDistance(view.next, envelope);
      ArriveKeeps(view, it, now);
      FlushKeeps(view);
      var distance := Distance(nextRxChannelSequence, envelope.sequence);
      if distance >= HALF {
        return Late;
      }
      var stallExpired := channelRxStallSince.Some? && now - channelRxStallSince.value >= REORDER_TIMEOUT;
      if channelRxRing != [] && (stallExpired || distance >= WINDOW_MAX) {
        FlushChannelRxRing();
        distance := Distance(nextRxChannelSequence, envelope.sequence);
        if it.pos < view.next {
          DistanceBehind(view.next, it.pos);
        } else {
          DistanceOf(view.next, it.pos);
        }
        if distance >= HALF {
          return LateAfterRecovery;
        }
      }
      v := Place(envelope, distance, now, it);
    }

    /** The part of `HandleChannelEnvelope` after loss recovery, for an envelope not behind the expected sequence. */
    method Place(envelope: Envelope, distance: nat, now: int, ghost it: Item) returns (v: Verdict)
      requires Valid() && Wire(it) == envelope && it.pos == view.next + distance
      requires distance >= WINDOW_MAX ==> channelRxRing == []
      modifies this
      ensures Valid()
      ensures (view, v) == Admit(old(view), it, now)
    {
      hide Distance, Contiguous, Insert, Before, Holds, Increasing, Split, Follows, Posted, Accept;
      AdmitKeeps(view, it, now);
      if distance >= WINDOW_MAX {
        if channelRxRing == [] {
          nextRxChannelSequence := (envelope.sequence + 1) % MODULUS;
          posted := posted + [envelope];
          view := Resynchronise(view, it);
          return Resynchronised;
        }
        assert false;
      }
      var pos, duplicate := FindInRing(envelope, distance, it);
      if duplicate {
        return Duplicate;
      }
      Buffer(envelope, pos, now, it);
      v := Accepted;
    }

    /** The ring index an envelope at this distance belongs at, and whether it is there already. */
    method FindInRing(envelope: Envelope, distance: nat, ghost it: Item) returns (pos: nat, duplicate: bool)
      requires Valid() && Wire(it) == envelope && it.pos == view.next + distance && distance < MODULUS
      ensures pos <= |channelRxRing| && view.posted + pos == Before(view.log, it.pos)
      ensures duplicate <==> Holds(view.log, it.pos)
    {
      hide Distance, Before, Holds;
      RingDistances();
      DistanceOf(view.next, it.pos);
      pos := PartitionPoint(nextRxChannelSequence, channelRxRing, distance);
      forall i | view.posted <= i < |view.log|
        ensures i < view.posted + pos <==> view.log[i].pos < it.pos
      {
        assert Distance(nextRxChannelSequence, channelRxRing[i - view.posted].sequence) == view.log[i].pos - view.next;
      }
      RingPlace(view, it, pos);
      duplicate := pos < |channelRxRing| && channelRxRing[pos].sequence == envelope.sequence;
      if pos < |channelRxRing| {
        SameDistance(nextRxChannelSequence, channelRxRing[pos].sequence, envelope.sequence);
      }
    }

    method Buffer(envelope: Envelope, pos: nat, now: int, ghost it: Item)
      requires Valid() && Wire(it) == envelope && view.next <= it.pos < view.next + WINDOW_MAX
      requires !Holds(view.log, it.pos) && view.posted + pos == Before(view.log, it.pos)
      modifies this
      ensures Shows() && view == Accept(old(view), it, now)
    {
      InsertIncreasing(view.log, it);
      InsertSplit(view, it);
      RingInsertion(view, it, pos);
      channelRxRing := channelRxRing[..pos] + [envelope] + channelRxRing[pos..];
      view := view.(log := Insert(view.log, it));
      var delivered := DeliverContiguousChannelRx();
      if channelRxRing == [] {
        channelRxStallSince := None;
      } else if delivered || channelRxStallSince.None? {
        channelRxStallSince := Some(now);
      }
      view := Clock(old(view), view, now);
    }

    /** Every ring envelope's distance from the expected sequence is its position's distance. */
    lemma RingDistances()
      requires Shows() && Increasing(view.log) && Split(view, 0)
      ensures forall i | 0 <= i < |channelRxRing| ::
        Distance(nextRxChannelSequence, channelRxRing[i].sequence) == view.log[view.posted + i].pos - view.next
    {}

    /** Posts everything buffered, in order, gaps skipped. */
    method FlushChannelRxRing()
      requires Shows()
      modifies this
      ensures Shows()
      ensures view == Flush(old(view))
    {
      var envelopes := channelRxRing;
      channelRxRing := [];
      for i := 0 to |envelopes|
        invariant view == old(view) && channelRxRing == []
        invariant posted == old(posted) + envelopes[..i]
        invariant nextRxChannelSequence ==
          if i == 0 then old(nextRxChannelSequence) else (envelopes[i - 1].sequence + 1) % MODULUS
      {
        nextRxChannelSequence := (envelopes[i].sequence + 1) % MODULUS;
        posted := posted + [envelopes[i]];
      }
      channelRxStallSince := None;
      assert posted == Wires(view.log);
      view := Flush(view);
    }

    /** Posts the contiguous run at the head of the ring. */
    method DeliverContiguousChannelRx() returns (delivered: bool)
      requires Shows() && Increasing(view.log) && Split(view, 0)
      modifies this`nextRxChannelSequence, this`channelRxRing, this`posted, this`view
      ensures Shows()
      ensures view == Deliver(old(view))
      ensures delivered <==> view.next > old(view).next
    {
      var count := CountContiguous(nextRxChannelSequence, channelRxRing, view);
      WiresSplit(view.log, view.posted, view.posted + count);
      if count == 0 {
        return false;
      }
      nextRxChannelSequence := (nextRxChannelSequence + count) % MODULUS;
      var envelopes := channelRxRing[..count];
      channelRxRing := channelRxRing[count..];
      for i := 0 to |envelopes|
        invariant unchanged(`view) && posted == old(posted) + envelopes[..i]
        invariant channelRxRing == old(channelRxRing)[count..]
        invariant nextRxChannelSequence == (old(nextRxChannelSequence) + count) % MODULUS
      {
        posted := posted + [envelopes[i]];
      }
      AdvanceSequence(view.next, count);
      view := Deliver(view);
      return true;
    }
  }
}
