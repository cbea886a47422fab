/** The message channel's receiver: a reorder map drained from the next expected sequence number. */
module ChannelInbound {
  import opened SequenceNumbers

  const WINDOW_MAX := 48

  /** A raw channel payload: too short to unpack, of an undecodable type, or a message. */
  datatype Raw<M> = Malformed | Undecodable(sequence: U16) | Message(sequence: U16, m: M)

  datatype State<M> = State(onHold: map<U16, M>, next: U16, emitted: seq<M>)

  function Fresh<M>(): State<M> {
    State(map[], 0, [])
  }

  /** Behind the expected sequence by more than the window. */
  predicate OutOfWindow(sequence: U16, next: U16) {
    var overflow := (sequence + WINDOW_MAX) % MODULUS;
    sequence < next && (overflow < next || sequence > overflow)
  }

  /**
    A number is turned away exactly when it is behind by more than 48, or by anything at all where
    48 on from it the numbers have wrapped.
   */
  lemma OutOfWindowExactly(sequence: U16, next: U16)
    ensures OutOfWindow(sequence, next) <==> next - sequence > 48 || (sequence < next && sequence + 48 >= 65536)
  {}

  function Drain<M>(s: State<M>): State<M>
    decreases |s.onHold|
  {
    if s.next in s.onHold then
      DrainShrinks(s.onHold, s.next);
      Drain(State(s.onHold - {s.next}, (s.next + 1) % MODULUS, s.emitted + [s.onHold[s.next]]))
    else s
  }

  lemma {:induction false} DrainStep<M>(s: State<M>)
    ensures s.next !in s.onHold ==> Drain(s) == s
    ensures s.next in s.onHold ==>
      var onHold := s.onHold - {s.next};
      |onHold| < |s.onHold| && Drain(s) == Drain(State(onHold, (s.next + 1) % MODULUS, s.emitted + [s.onHold[s.next]]))
  {}

  lemma DrainShrinks<M>(m: map<U16, M>, k: U16)
    requires k in m
    ensures |m - {k}| < |m|
  {}

  function Receive<M>(s: State<M>, raw: Raw<M>): State<M> {
    match raw
    case Malformed => s
    case Undecodable(_) => s
    case Message(sequence, m) =>
      if OutOfWindow(sequence, s.next) then s else Drain(s.(onHold := s.onHold[sequence := m]))
  }

  function Run<M>(raws: seq<Raw<M>>): State<M> {
    if raws == [] then Fresh() else Receive(Run(raws[..|raws| - 1]), raws[|raws| - 1])
  }

  // ----- the first lap: message `i` carries sequence number `i`

  ghost predicate FirstLap<M(!new)>(sent: U16 -> M, raws: seq<Raw<M>>) {
    forall r | r in raws && r.Message? :: r.m == sent(r.sequence)
  }

  ghost predicate Arrived<M(!new)>(raws: seq<Raw<M>>, k: U16) {
    exists r | r in raws :: r.Message? && r.sequence == k
  }

  /** Message `k` arrived again when it had been emitted but was still within the window behind. */
  ghost predicate LateDuplicate<M(!new)>(raws: seq<Raw<M>>, k: U16) {
    exists j | 0 <= j < |raws| :: LateAt(raws, j, k)
  }

  ghost predicate LateAt<M(!new)>(raws: seq<Raw<M>>, j: nat, k: U16)
    requires j < |raws|
  {
    raws[j].Message? && raws[j].sequence == k && k < Run(raws[..j]).next && !OutOfWindow(k, Run(raws[..j]).next)
  }

  /** How far behind it came: by at most 48, and not from the last 48 of the lap. */
  lemma LateByAtMost48<M(!new)>(raws: seq<Raw<M>>, k: U16)
    ensures LateDuplicate(raws, k) <==>
      exists j | 0 <= j < |raws| ::
        raws[j].Message? && raws[j].sequence == k && 0 < Run(raws[..j]).next - k <= 48 && k < 65536 - 48
  {
    forall j | 0 <= j < |raws| ensures LateAt(raws, j, k) <==>
      raws[j].Message? && raws[j].sequence == k && 0 < Run(raws[..j]).next - k <= 48 && k < 65536 - 48
    {
      OutOfWindowExactly(k, Run(raws[..j]).next);
    }
  }

  function Prefix<M>(sent: U16 -> M, n: nat): seq<M>
    requires n <= MODULUS
  {
    seq(n, i requires 0 <= i < n => sent(i))
  }

  /** Everything on hold or emitted so far is what was sent, in order. */
  ghost predicate Faithful<M(!new)>(sent: U16 -> M, s: State<M>) {
    s.emitted == Prefix(sent, s.next) && forall k | k in s.onHold :: s.onHold[k] == sent(k)
  }

  /** Draining towards a missing message emits the contiguous run and leaves everything else on hold. */
  lemma {:induction false} DrainRun<M(!new)>(sent: U16 -> M, s: State<M>, gap: U16)
    requires Faithful(sent, s) && s.next <= gap && gap !in s.onHold
    ensures var t := Drain(s);
      && Faithful(sent, t) && s.next <= t.next <= gap && t.next !in t.onHold
      && (forall k: U16 {:trigger k in s.onHold} | s.next <= k < t.next :: k in s.onHold)
      && (forall k: U16 {:trigger k in t.onHold} :: k in t.onHold <==> k in s.onHold && !(s.next <= k < t.next))
    decreases |s.onHold|
  {
    if s.next in s.onHold {
      DrainShrinks(s.onHold, s.next);
      var u := State(s.onHold - {s.next}, (s.next + 1) % MODULUS, s.emitted + [s.onHold[s.next]]);
      assert u.emitted == Prefix(sent, u.next);
      DrainRun(sent, u, gap);
      forall k: U16 | s.next < k < Drain(s).next ensures k in s.onHold {
        assert k in u.onHold;
      }
    }
  }

  /** Draining when everything up to the last sequence number is on hold wraps to 0 and goes on from there. */
  lemma {:induction false} DrainWraps<M(!new)>(sent: U16 -> M, s: State<M>)
    requires Faithful(sent, s) && forall k: U16 {:trigger k in s.onHold} | s.next <= k :: k in s.onHold
    ensures Drain(s) == Drain(State(map k | k in s.onHold && k < s.next :: s.onHold[k], 0, Prefix(sent, MODULUS)))
    decreases MODULUS - s.next
  {
    DrainShrinks(s.onHold, s.next);
    var u := State(s.onHold - {s.next}, (s.next + 1) % MODULUS, s.emitted + [s.onHold[s.next]]);
    var low := map k | k in s.onHold && k < s.next :: s.onHold[k];
    if s.next == MODULUS - 1 {
      assert u.emitted == Prefix(sent, MODULUS) && u.onHold == low;
    } else {
      assert u.emitted == Prefix(sent, u.next);
      DrainWraps(sent, u);
      assert (map k | k in u.onHold && k < u.next :: u.onHold[k]) == low;
    }
  }

  /**
    Emitted is exactly the messages before the first missing one; on hold are the later arrivals,
    and late duplicates.
   */
  ghost predicate InOrder<M(!new)>(sent: U16 -> M, raws: seq<Raw<M>>) {
    var s := Run(raws);
    && Faithful(sent, s)
    && (forall k: U16 {:trigger Arrived(raws, k)} | k < s.next :: Arrived(raws, k))
    && (forall k: U16 {:trigger Arrived(raws, k)} | k >= s.next :: k in s.onHold <==> Arrived(raws, k))
    && !Arrived(raws, s.next)
    && (forall k: U16 {:trigger LateDuplicate(raws, k)} | k < s.next :: k in s.onHold <==> LateDuplicate(raws, k))
    && (forall j | 0 <= j <= |raws| :: Run(raws[..j]).next <= s.next)
  }

  lemma ArrivedGrows<M(!new)>(raws: seq<Raw<M>>, r: Raw<M>)
    ensures forall k: U16 {:trigger Arrived(raws + [r], k)} ::
      Arrived(raws + [r], k) <==> Arrived(raws, k) || (r.Message? && r.sequence == k)
  {}

  lemma LateGrows<M(!new)>(raws: seq<Raw<M>>, r: Raw<M>)
    ensures forall k: U16 {:trigger LateDuplicate(raws + [r], k)} ::
      LateDuplicate(raws + [r], k) <==> LateDuplicate(raws, k) || LateAt(raws + [r], |raws|, k)
  {
    var all := raws + [r];
    assert forall j | 0 <= j <= |raws| :: all[..j] == raws[..j];
    forall k: U16, j | 0 <= j < |raws| ensures LateAt(all, j, k) <==> LateAt(raws, j, k) {
      assert all[..j] == raws[..j];
    }
  }

  /** Nothing at or beyond `next` can have come late. */
  lemma NotYetLate<M(!new)>(raws: seq<Raw<M>>, next: U16)
    requires forall j | 0 <= j <= |raws| :: Run(raws[..j]).next <= next
    ensures forall k: U16 {:trigger LateDuplicate(raws, k)} | k >= next :: !LateDuplicate(raws, k)
  {}

  /** An arrival that is taken: on hold, then drained. */
  lemma InOrderTaken<M(!new)>(sent: U16 -> M, raws: seq<Raw<M>>, k: U16, gap: U16)
    requires InOrder(sent, raws) && !OutOfWindow(k, Run(raws).next)
    requires !Arrived(raws, gap) && gap != k
    ensures InOrder(sent, raws + [Message(k, sent(k))])
  {
    hide Drain, Run;
    var (s, r) := (Run(raws), Message(k, sent(k)));
    var all := raws + [r];
    ArrivedGrows(raws, r);
    LateGrows(raws, r);
    NotYetLate(raws, s.next);
    RunSnoc(raws, r);
    assert forall q: U16 :: LateAt(all, |raws|, q) <==> q == k && k < s.next;
    var u := s.(onHold := s.onHold[k := sent(k)]);
    assert gap >= s.next;
    DrainRun(sent, u, gap);
    var t := Run(all);
    assert t == Drain(u);
    forall q: U16
      ensures q < t.next ==> Arrived(all, q) && (q in t.onHold <==> LateDuplicate(all, q))
      ensures q >= t.next ==> (q in t.onHold <==> Arrived(all, q))
    {
      assert Arrived(all, q) <==> Arrived(raws, q) || q == k;
      assert LateDuplicate(all, q) <==> LateDuplicate(raws, q) || (q == k && k < s.next);
      assert s.next <= q < t.next ==> q in u.onHold;
      assert q in u.onHold <==> q in s.onHold || q == k;
    }
    forall j | 0 <= j <= |all| ensures Run(all[..j]).next <= t.next {
      if j <= |raws| { assert all[..j] == raws[..j]; } else { assert all[..j] == all; }
    }
  }

  lemma RunSnoc<M>(raws: seq<Raw<M>>, r: Raw<M>)
    ensures Run(raws + [r]) == Receive(Run(raws), r)
    ensures forall j | 0 <= j <= |raws| :: (raws + [r])[..j] == raws[..j]
    ensures (raws + [r])[..|raws| + 1] == raws + [r]
  {}

  lemma InOrderStep<M(!new)>(sent: U16 -> M, raws: seq<Raw<M>>, r: Raw<M>, gap: U16)
    requires InOrder(sent, raws) && !Arrived(raws + [r], gap)
    requires r.Message? ==> r.m == sent(r.sequence)
    ensures InOrder(sent, raws + [r])
  {
    ArrivedGrows(raws, r);
    if r.Message? && !OutOfWindow(r.sequence, Run(raws).next) {
      InOrderTaken(sent, raws, r.sequence, gap);
    } else {
      LateGrows(raws, r);
      RunSnoc(raws, r);
    }
  }

  /**
    However the first 65536 messages are reordered, duplicated or lost: as long as one of them has
    not arrived, what has been emitted is exactly the messages before the first missing one, in order.
   */
  lemma {:induction false} FirstLapInOrder<M(!new)>(sent: U16 -> M, raws: seq<Raw<M>>, gap: U16)
    requires FirstLap(sent, raws) && !Arrived(raws, gap)
    ensures InOrder(sent, raws)
  {
    if raws != [] {
      var init, last := raws[..|raws| - 1], raws[|raws| - 1];
      assert raws == init + [last];
      ArrivedGrows(init, last);
      FirstLapInOrder(sent, init, gap);
      InOrderStep(sent, init, last, gap);
    }
  }

  lemma {:induction false} DrainExtends<M(!new)>(s: State<M>)
    ensures s.emitted <= Drain(s).emitted
    ensures s.next in s.onHold ==> s.emitted + [s.onHold[s.next]] <= Drain(s).emitted
    ensures s.next !in s.onHold ==> Drain(s) == s
    decreases |s.onHold|
  {
    if s.next in s.onHold {
      DrainShrinks(s.onHold, s.next);
      DrainExtends(State(s.onHold - {s.next}, (s.next + 1) % MODULUS, s.emitted + [s.onHold[s.next]]));
    }
  }

  /** A receiver that has just wrapped, with what late duplicates have left on hold. */
  ghost function Wrapped<M(!new)>(sent: U16 -> M, raws: seq<Raw<M>>): State<M> {
    State(map k: U16 | LateDuplicate(raws, k) :: sent(k), 0, Prefix(sent, MODULUS))
  }

  /**
    The arrival that completes the first lap emits the rest of it, and then whatever late duplicates
    start the next lap with.
   */
  lemma WrapDrains<M(!new)>(sent: U16 -> M, raws: seq<Raw<M>>, last: U16)
    requires FirstLap(sent, raws) && forall k: U16 {:trigger Arrived(raws, k)} :: Arrived(raws, k) <==> k != last
    ensures Run(raws + [Message(last, sent(last))]) == Drain(Wrapped(sent, raws))
  {
    hide Drain, LateDuplicate;
    FirstLapInOrder(sent, raws, last);
    NotYetLate(raws, Run(raws).next);
    var s := Run(raws);
    assert s.next == last by {
      assert !Arrived(raws, s.next);
    }
    RunSnoc(raws, Message(last, sent(last)));
    var u := s.(onHold := s.onHold[last := sent(last)]);
    forall k: U16 | k > last ensures k in u.onHold {
      assert Arrived(raws, k);
    }
    DrainWraps(sent, u);
    assert (map k | k in u.onHold && k < u.next :: u.onHold[k]) == Wrapped(sent, raws).onHold;
  }

  /**
    At the arrival that wraps the expected sequence number, the 65536 messages and nothing else have
    been emitted exactly when message 0 did not come late; when it did, it is emitted again.
   */
  lemma WrapIsCleanIffNoLateDuplicate<M(!new)>(sent: U16 -> M, raws: seq<Raw<M>>, last: U16)
    requires FirstLap(sent, raws) && forall k: U16 {:trigger Arrived(raws, k)} :: Arrived(raws, k) <==> k != last
    ensures var s := Run(raws + [Message(last, sent(last))]);
      if LateDuplicate(raws, 0) then Prefix(sent, MODULUS) + [sent(0)] <= s.emitted
      else s.emitted == Prefix(sent, MODULUS)
  {
    hide Drain, Run, LateDuplicate;
    WrapDrains(sent, raws, last);
    DrainExtends(Wrapped(sent, raws));
  }

  /**
    The receiver starts the next lap afresh, nothing on hold and nothing emitted too often, exactly
    when no message at all came late.
   */
  lemma RestartsCleanIffNoLateDuplicate<M(!new)>(sent: U16 -> M, raws: seq<Raw<M>>, last: U16)
    requires FirstLap(sent, raws) && forall k: U16 {:trigger Arrived(raws, k)} :: Arrived(raws, k) <==> k != last
    ensures Run(raws + [Message(last, sent(last))]) == State(map[], 0, Prefix(sent, MODULUS))
      <==> forall k: U16 :: !LateDuplicate(raws, k)
  {
    hide Drain, Run, LateDuplicate;
    var low := Wrapped(sent, raws);
    WrapDrains(sent, raws, last);
    DrainExtends(low);
    if k: U16 :| LateDuplicate(raws, k) {
      assert k in low.onHold;
    } else {
      assert low.onHold == map[];
    }
  }

  /**
    A message come late is emitted in place of the next lap's message of its sequence number, as
    soon as that is reached.
   */
  lemma LateDuplicateTakesPlace<M(!new)>(sent: U16 -> M, raws: seq<Raw<M>>, last: U16, x: M)
    requires FirstLap(sent, raws) && forall k: U16 {:trigger Arrived(raws, k)} :: Arrived(raws, k) <==> k != last
    requires LateDuplicate(raws, 1) && !LateDuplicate(raws, 0)
    ensures Prefix(sent, MODULUS) + [x, sent(1)] <= Run(raws + [Message(last, sent(last))] + [Message(0, x)]).emitted
  {
    hide Drain, Run, LateDuplicate;
    var low := Wrapped(sent, raws);
    WrapDrains(sent, raws, last);
    DrainExtends(low);
    RunSnoc(raws + [Message(last, sent(last))], Message(0, x));
    var u := low.(onHold := low.onHold[0 := x]);
    var v := State(u.onHold - {0}, 1, u.emitted + [x]);
    DrainStep(u);
    DrainExtends(v);
    assert v.emitted + [sent(1)] == Prefix(sent, MODULUS) + [x, sent(1)];
  }

  lemma {:induction false} FirstMessage<M>(m: M)
    ensures Run([Message(0, m)]) == State(map[], 1, [m])
  {
    hide Drain;
    var s: State<M> := Fresh().(onHold := map[0 := m]);
    assert [Message(0, m)][..0] == [] && Fresh<M>().onHold[0 := m] == s.onHold;
    assert Run([Message(0, m)]) == Drain(s);
    assert s.onHold - {0} == map[] && s.emitted + [m] == [m];
    DrainStep(s);
    DrainStep(State(map[], 1, [m]));
  }

  /** Messages 0, 0 again, then 1 to 65535 in order: all were sent once, and message 0 comes out twice. */
  lemma DuplicateEmittedTwice<M(!new)>(sent: U16 -> M)
    ensures var raws := [Message(0, sent(0)), Message(0, sent(0))]
        + seq(MODULUS - 1, i requires 0 <= i < MODULUS - 1 => Message(i + 1, sent(i + 1)));
      FirstLap(sent, raws) && Prefix(sent, MODULUS) + [sent(0)] <= Run(raws).emitted
  {
    var first := Message(0, sent(0));
    var raws: seq<Raw<M>> := [first, first]
      + seq(MODULUS - 2, i requires 0 <= i < MODULUS - 2 => Message(i + 1, sent(i + 1)));
    assert raws[..1] == [first];
    FirstMessage(sent(0));
    hide Run;
    assert LateAt(raws, 1, 0);
    forall k: U16 ensures Arrived(raws, k) <==> k != MODULUS - 1 {
      if k == 0 { assert raws[0].sequence == 0; }
      else if k < MODULUS - 1 { assert raws[k + 1] == Message(k, sent(k)); }
    }
    WrapIsCleanIffNoLateDuplicate(sent, raws, MODULUS - 1);
    assert raws + [Message(MODULUS - 1, sent(MODULUS - 1))] ==
      [first, first] + seq(MODULUS - 1, i requires 0 <= i < MODULUS - 1 => Message(i + 1, sent(i + 1)));
  }

  /**
    Messages 0, 1, 1 again, then 2 to 65535 in order: the first messages of the next lap come out as
    its own and then message 1 of the last.
   */
  lemma DuplicateTakesPlace<M(!new)>(sent: U16 -> M, x: M)
    ensures var raws := [Message(0, sent(0)), Message(1, sent(1)), Message(1, sent(1))]
        + seq(MODULUS - 2, i requires 0 <= i < MODULUS - 2 => Message(i + 2, sent(i + 2)));
      FirstLap(sent, raws) && Prefix(sent, MODULUS) + [x, sent(1)] <= Run(raws + [Message(0, x)]).emitted
  {
    hide Run, Drain, Prefix;
    var first: Raw<M>, second: Raw<M>, last: U16 := Message(0, sent(0)), Message(1, sent(1)), MODULUS - 1;
    var raws: seq<Raw<M>> := [first, second, second]
      + seq(MODULUS - 3, i requires 0 <= i < MODULUS - 3 => Message(i + 2, sent(i + 2)));
    assert raws[..2] == [first] + [second] && raws[..1] == [first] && raws[..0] == [];
    FirstTwo(sent(0), sent(1));
    assert LateAt(raws, 2, 1);
    forall j | 0 <= j < |raws| ensures !LateAt(raws, j, 0) {}
    forall k: U16 ensures Arrived(raws, k) <==> k != last {
      if k == 0 { assert raws[0].sequence == 0; }
      else if k == 1 { assert raws[1].sequence == 1; }
      else if k < last { assert raws[k + 1] == Message(k, sent(k)); }
    }
    LateDuplicateTakesPlace(sent, raws, last, x);
    assert raws + [Message(last, sent(last))] ==
      [first, second, second] + seq(MODULUS - 2, i requires 0 <= i < MODULUS - 2 => Message(i + 2, sent(i + 2)));
  }

  lemma {:induction false} FirstTwo<M>(m: M, n: M)
    ensures Run([]) == Fresh<M>() && Run([Message(0, m)] + [Message(1, n)]) == State(map[], 2, [m, n])
  {
    hide Drain;
    FirstMessage(m);
    RunSnoc([Message(0, m)], Message(1, n));
    var u := State(map[1 := n], 1, [m]);
    assert map[][1 := n] == u.onHold && u.onHold - {1} == map[] && u.emitted + [n] == [m, n];
    DrainStep(u);
    DrainStep(State(map[], 2, [m, n]));
  }

  // ----- the receiver object

  class Inbound<M> {
    var onHold: map<U16, M>
    var nextSequence: U16
    var emitted: seq<M>

    function View(): State<M>
      reads this
    {
      State(onHold, nextSequence, emitted)
    }

    constructor ()
      ensures View() == Fresh()
    {
      onHold, nextSequence, emitted := map[], 0, [];
    }

    method ReceiveRaw(raw: Raw<M>)
      modifies this
      ensures View() == Receive(old(View()), raw)
    {
      hide Drain;
      if raw.Malformed? {
        return;
      }
      if raw.sequence < nextSequence {
        var overflow := (raw.sequence + WINDOW_MAX) % MODULUS;
        if overflow < nextSequence || raw.sequence > overflow {
          return;
        }
      }
      if raw.Undecodable? {
        return;
      }
      onHold := onHold[raw.sequence := raw.m];
      ghost var start := View();
      while nextSequence in onHold
        invariant Drain(View()) == Drain(start)
        decreases |onHold|
      {
        DrainStep(View());
        emitted := emitted + [onHold[nextSequence]];
        onHold := onHold - {nextSequence};
        nextSequence := (nextSequence + 1) % MODULUS;
      }
      DrainStep(View());
    }
  }
}
