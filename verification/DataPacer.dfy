/**
  Pacing of data packets: each interface keeps the slot it last gave out, and every message takes
  the next slot on each interface it goes to. Times are exact reals, in seconds.
 */
module DataPacer {
  import opened Wrappers
  import opened Packet

  datatype Target = AllBut(excluded: Option<Address>) | BroadcastFrom(origin: Address) | Direct(to: Address)

  datatype Message = Message(target: Target, packet: Packet)

  /** What one call reads of an interface: its bitrate may change and it may stop between calls. */
  datatype Reading = Reading(address: Address, stopped: bool, bitrate: Option<real>, now: real)

  predicate ShouldSend(target: Target, address: Address) {
    match target
    case AllBut(Some(excluded)) => address != excluded
    case AllBut(None) => true
    case BroadcastFrom(_) => true
    case Direct(to) => address == to
  }

  predicate IsPaced(m: Message, at: Reading) {
    ShouldSend(m.target, at.address) && !at.stopped && m.packet.header.packetType != Announce
    && at.bitrate.Some? && at.bitrate.value > 0.0
  }

  /**
    Where messages go: one sent to an address to the interfaces of that address alone, one excluding
    it to all others, and broadcasts to all. A message is paced wherever it goes, on running
    interfaces with a known bitrate, unless it is an announce.
   */
  lemma WhereMessagesGo(m: Message, at: Reading, a: Address)
    ensures ShouldSend(Direct(a), at.address) <==> at.address == a
    ensures ShouldSend(AllBut(Some(a)), at.address) <==> !ShouldSend(Direct(a), at.address)
    ensures ShouldSend(AllBut(None), at.address) && ShouldSend(BroadcastFrom(a), at.address)
    ensures !at.stopped && at.bitrate.Some? && at.bitrate.value > 0.0 ==>
      (IsPaced(m, at) <==> ShouldSend(m.target, at.address) && m.packet.header.packetType != Announce)
    ensures at.stopped || at.bitrate.None? || at.bitrate.value <= 0.0 ==> !IsPaced(m, at)
  {}

  /** The airtime of a message on an interface that paces it; none elsewhere. */
  function Airtime(m: Message, at: Reading): (t: real)
    ensures t > 0.0 <==> IsPaced(m, at)
    ensures t >= 0.0
  {
    if IsPaced(m, at) then
      Positive(WireLen(m.packet) as real * 8.0, at.bitrate.value);
      WireLen(m.packet) as real * 8.0 / at.bitrate.value
    else 0.0
  }

  lemma Positive(a: real, b: real)
    requires a > 0.0 && b > 0.0
    ensures a / b > 0.0
  {}

  /** Eight bits a byte of the packet's wire form, at the bitrate. */
  lemma AirtimeIsBits(m: Message, at: Reading)
    requires IsPaced(m, at)
    ensures Airtime(m, at) * at.bitrate.value == 8.0 * WireLen(m.packet) as real
  {
    hide WireLen;
  }

  /** The slot an interface gives a message: the present, or two airtimes after its previous slot. */
  function NextSlot(slot: real, m: Message, at: Reading): real {
    if !IsPaced(m, at) then slot
    else
      var deadline := slot + 2.0 * Airtime(m, at);
      if at.now >= deadline then at.now else deadline
  }

  // ----- one interface over a run of messages

  datatype Turn = Turn(message: Message, at: Reading)

  function Slot(start: real, turns: seq<Turn>): real {
    if turns == [] then start
    else
      var last := turns[|turns| - 1];
      NextSlot(Slot(start, turns[..|turns| - 1]), last.message, last.at)
  }

  function TotalAirtime(turns: seq<Turn>): real {
    if turns == [] then 0.0
    else TotalAirtime(turns[..|turns| - 1]) + Airtime(turns[|turns| - 1].message, turns[|turns| - 1].at)
  }

  /**
    Over any stretch of any run, whatever the clock and the bitrate do: the slots given out advance
    by at least twice the airtime sent.
   */
  lemma {:induction false} HalfTheTimeIsFree(start: real, before: seq<Turn>, turns: seq<Turn>)
    ensures 2.0 * TotalAirtime(turns) <= Slot(start, before + turns) - Slot(start, before)
  {
    if turns == [] {
      assert before + turns == before;
    } else {
      var init := turns[..|turns| - 1];
      HalfTheTimeIsFree(start, before, init);
      assert (before + turns)[..|before + turns| - 1] == before + init;
      hide Airtime;
    }
  }

  /**
    Earliest start given turn `j - 1`'s reading, or the first slot for `j == 0`, with everything
    since sent back to back.
   */
  function BackToBack(start: real, turns: seq<Turn>, j: nat): real
    requires j <= |turns|
  {
    (if j == 0 then start else turns[j - 1].at.now) + 2.0 * TotalAirtime(turns[j..])
  }

  predicate Counts(turns: seq<Turn>, j: nat)
    requires j <= |turns|
  {
    j == 0 || IsPaced(turns[j - 1].message, turns[j - 1].at)
  }

  lemma BackToBackGrows(start: real, turns: seq<Turn>, last: Turn, j: nat)
    requires j <= |turns|
    ensures BackToBack(start, turns + [last], j) == BackToBack(start, turns, j) + 2.0 * Airtime(last.message, last.at)
  {
    assert (turns + [last])[j..] == turns[j..] + [last];
    assert (turns[j..] + [last])[..|turns| - j] == turns[j..];
    hide Airtime;
  }

  /**
    No slot is later than it must be: the slot after a run is the largest of its lower bounds, so
    either the interface was free at some message's arrival or it has been busy from the start.
   */
  lemma {:induction false} SlotIsLongestBusyPeriod(start: real, turns: seq<Turn>) returns (busySince: nat)
    ensures busySince <= |turns| && Counts(turns, busySince)
      && Slot(start, turns) == BackToBack(start, turns, busySince)
    ensures forall j: nat | j <= |turns| && Counts(turns, j) :: BackToBack(start, turns, j) <= Slot(start, turns)
  {
    if turns == [] {
      return 0;
    }
    var init, last := turns[..|turns| - 1], turns[|turns| - 1];
    assert turns == init + [last];
    busySince := SlotIsLongestBusyPeriod(start, init);
    forall j: nat | j <= |init|
      ensures BackToBack(start, turns, j) == BackToBack(start, init, j) + 2.0 * Airtime(last.message, last.at)
      ensures Counts(turns, j) == Counts(init, j)
    {
      BackToBackGrows(start, init, last, j);
    }
    assert BackToBack(start, turns, |turns|) == last.at.now;
    hide Airtime, BackToBack;
    if IsPaced(last.message, last.at) && Slot(start, turns) == last.at.now {
      busySince := |turns|;
    }
  }

  // ----- all interfaces

  class LocalInterface {
    const address: Address
    var stopped: bool
    var bitrate: Option<real>
    var lastDataSend: real

    constructor (address: Address, bitrate: Option<real>, now: real)
      ensures this.address == address && !stopped && this.bitrate == bitrate && lastDataSend == now
    {
      this.address, this.stopped, this.bitrate, lastDataSend := address, false, bitrate, now;
    }

    function Read(now: real): Reading
      reads this
    {
      Reading(address, stopped, bitrate, now)
    }
  }

  /** One wait per interface, each reading its own clock, then the longest. */
  method SendPacingDelay(ifaces: seq<LocalInterface>, m: Message, clock: seq<real>) returns (delay: real)
    requires forall i, j | 0 <= i < j < |ifaces| :: ifaces[i] != ifaces[j]
    requires |clock| == |ifaces|
    modifies ifaces
    ensures forall i | 0 <= i < |ifaces| ::
      && ifaces[i].lastDataSend == NextSlot(old(ifaces[i].lastDataSend), m, old(ifaces[i].Read(clock[i])))
      && ifaces[i].stopped == old(ifaces[i].stopped) && ifaces[i].bitrate == old(ifaces[i].bitrate)
    ensures forall i | 0 <= i < |ifaces| && IsPaced(m, ifaces[i].Read(clock[i])) ::
      ifaces[i].lastDataSend <= clock[i] + delay
    ensures delay > 0.0 ==> exists i | 0 <= i < |ifaces| ::
      IsPaced(m, ifaces[i].Read(clock[i])) && ifaces[i].lastDataSend == clock[i] + delay
    ensures delay >= 0.0
  {
    delay := 0.0;
    for i := 0 to |ifaces|
      invariant delay >= 0.0
      invariant forall j | 0 <= j < |ifaces| ::
        ifaces[j].stopped == old(ifaces[j].stopped) && ifaces[j].bitrate == old(ifaces[j].bitrate)
      invariant forall j | i <= j < |ifaces| :: ifaces[j].lastDataSend == old(ifaces[j].lastDataSend)
      invariant forall j | 0 <= j < i ::
        ifaces[j].lastDataSend == NextSlot(old(ifaces[j].lastDataSend), m, old(ifaces[j].Read(clock[j])))
      invariant forall j | 0 <= j < i && IsPaced(m, ifaces[j].Read(clock[j])) ::
        ifaces[j].lastDataSend <= clock[j] + delay
      invariant delay > 0.0 ==> exists j | 0 <= j < i ::
        IsPaced(m, ifaces[j].Read(clock[j])) && ifaces[j].lastDataSend == clock[j] + delay
    {
      var at := ifaces[i].Read(clock[i]);
      if IsPaced(m, at) {
        var deadline := ifaces[i].lastDataSend + 2.0 * Airtime(m, at);
        var wait := 0.0;
        if at.now >= deadline {
          ifaces[i].lastDataSend := at.now;
        } else {
          wait := deadline - at.now;
          ifaces[i].lastDataSend := deadline;
        }
        if wait > delay {
          delay := wait;
        }
      }
    }
  }
}
