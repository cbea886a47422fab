/**
  A link's life on one node: activation and interface binding, staleness, retransmission,
  keepalives and removal. Times are milliseconds; each step reads the clock once.
 */
module LinkLifecycle {
  import opened Wrappers
  import opened Packet
  import LinkCrypt

  const KEEPALIVE_INTERVAL := 360_000
  const LINK_REQUEST_RETRY_INTERVAL := 6_000
  const DEFAULT_ESTABLISHMENT_TIMEOUT := 30_000
  const INTERVAL_LINK_STALE := 720_000
  const INTERVAL_LINK_CLOSE := 5_000
  const INTERVAL_OUTPUT_LINK_RESTART := 60_000

  datatype Status = Pending | Handshake | Active | Stale | Closed

  datatype Event = ActivatedEvent | ClosedEvent | OtherEvent

  /** An event as subscribers see it: with the interface the link was bound to when it was posted. */
  datatype Posted = Posted(iface: Option<Address>, event: Event)

  /** `keepalives` lists when keepalives were sent. */
  datatype LinkState = LinkState(
    status: Status,
    attached: Option<Address>,
    mtu: nat,
    requestTime: int,
    deadline: int,
    nextRetry: int,
    lastKeepalive: int,
    events: seq<Posted>,
    keepalives: seq<int>)

  /**
    A packet as far as the link's state depends on it. A link request proof carries the MTU it
    confirms if it is valid.
   */
  datatype Incoming =
    | NotForLink(linkProof: bool)
    | LinkRequestProof(confirmed: Option<nat>)
    | MessageProof(valid: bool)
    | Payload(refresh: bool, posts: bool)
    | PeerClose

  datatype Outcome = Nothing | WrongInterface | Activated

  // ----- what each operation does

  function Post(s: LinkState, event: Event): LinkState {
    s.(events := s.events + [Posted(s.attached, event)])
  }

  function Close(s: LinkState): LinkState {
    Post(s.(status := Closed), ClosedEvent)
  }

  /**
    Building the close packet fails, and the link stays as it is, in mid-handshake or when the MTU
    leaves no room for an id.
   */
  function Teardown(s: LinkState): LinkState {
    if s.status == Handshake || (s.status in {Active, Stale} && LinkCrypt.ComputeLinkMdu(s.mtu) < ADDRESS_HASH_SIZE)
    then s else Close(s)
  }

  function Restart(s: LinkState, now: int): LinkState {
    s.(status := Pending, requestTime := now, nextRetry := now, deadline := now + DEFAULT_ESTABLISHMENT_TIMEOUT)
  }

  function Request(s: LinkState, mtu: nat, now: int): LinkState {
    s.(status := Pending, mtu := mtu, nextRetry := now + LINK_REQUEST_RETRY_INTERVAL)
  }

  function Prove(s: LinkState): LinkState {
    if s.status == Active then s else Post(s.(status := Active), ActivatedEvent)
  }

  /**
    A packet arriving on `iface`. A bound link takes packets from its interface only. An unbound
    out-link is bound by a valid link request proof and by nothing else.
   */
  function Receive(outLink: bool, s: LinkState, inc: Incoming, iface: Address, now: int): (LinkState, Outcome) {
    if s.attached.Some? && s.attached.value != iface then (s, WrongInterface)
    else match inc
      case NotForLink(_) => (s, Nothing)
      case LinkRequestProof(confirmed) =>
        if s.status != Pending || confirmed.None? then (s, Nothing)
        else
          var bound := s.(attached := if outLink then Some(iface) else s.attached);
          (Post(bound.(mtu := confirmed.value, status := Active, requestTime := now), ActivatedEvent), Activated)
      case MessageProof(valid) => (if s.status == Active && valid then Post(s, OtherEvent) else s, Nothing)
      case Payload(refresh, posts) =>
        var t := if refresh then s.(requestTime := now) else s;
        (if posts then Post(t, OtherEvent) else t, Nothing)
      case PeerClose => (Close(s), Nothing)
  }

  function Elapsed(s: LinkState, now: int): nat {
    if now > s.requestTime then now - s.requestTime else 0
  }

  function Since(now: int, earlier: int): nat {
    if now > earlier then now - earlier else 0
  }

  predicate KeepaliveDue(s: LinkState, now: int) {
    Since(now, s.requestTime) >= KEEPALIVE_INTERVAL && Since(now, s.lastKeepalive) >= KEEPALIVE_INTERVAL
  }

  function Keep(s: LinkState, now: int): LinkState {
    if s.status == Active && KeepaliveDue(s, now) then
      s.(lastKeepalive := now, keepalives := s.keepalives + [now])
    else s
  }

  /** One out-link at a link check: its state, and whether the table keeps it. */
  function CheckOut(s: LinkState, restart: bool, now: int): (LinkState, bool) {
    match s.status
    case Active => (if Elapsed(s, now) > INTERVAL_LINK_STALE then s.(status := Stale) else s, true)
    case Stale =>
      if restart then (if Elapsed(s, now) > INTERVAL_OUTPUT_LINK_RESTART then Restart(s, now) else s, true)
      else if Elapsed(s, now) > INTERVAL_LINK_STALE + INTERVAL_LINK_CLOSE then (Teardown(s), false)
      else (s, true)
    case Pending =>
      if now >= s.deadline then (Close(s), false)
      else (if now >= s.nextRetry then Request(s, s.mtu, now) else s, true)
    case Closed => (Close(s), false)
    case Handshake => (s, true)
  }

  /** One in-link at a link check. */
  function CheckIn(s: LinkState, now: int): (LinkState, bool) {
    match s.status
    case Active => (if Elapsed(s, now) > INTERVAL_LINK_STALE then s.(status := Stale) else s, true)
    case Stale =>
      if Elapsed(s, now) > INTERVAL_LINK_STALE + INTERVAL_LINK_CLOSE then (Teardown(s), false) else (s, true)
    case _ => (s, true)
  }

  function NewOutLink(mtu: nat, timeout: nat, now: int): LinkState {
    Request(LinkState(Pending, None, mtu, now, now + timeout, now, now, [], []), mtu, now)
  }

  /** Made from a request, bound to the interface it came on, and proved. */
  function NewInLink(iface: Address, mtu: nat, now: int): LinkState {
    Prove(LinkState(Handshake, Some(iface), mtu, now, now + DEFAULT_ESTABLISHMENT_TIMEOUT, now, now, [], []))
  }

  // ----- whole lives

  datatype Op =
    | Arrives(inc: Incoming, iface: Address, now: int)
    | Checked(restart: bool, now: int)
    | Kept(now: int)
    | Reproved(now: int)
    | UserClosed
    | ChannelGaveUp

  function Step(outLink: bool, s: LinkState, op: Op): LinkState {
    match op
    case Arrives(inc, iface, now) => Receive(outLink, s, inc, iface, now).0
    case Checked(restart, now) => if outLink then CheckOut(s, restart, now).0 else CheckIn(s, now).0
    case Kept(now) => if outLink then Keep(s, now) else s
    case Reproved(now) => if !outLink && s.status != Closed then Prove(s).(requestTime := now) else s
    case UserClosed => Teardown(s)
    case ChannelGaveUp => Close(s)
  }

  function Life(outLink: bool, s: LinkState, ops: seq<Op>): LinkState {
    if ops == [] then s else Step(outLink, Life(outLink, s, ops[..|ops| - 1]), ops[|ops| - 1])
  }

  ghost predicate Starts(outLink: bool, s: LinkState) {
    if outLink then exists mtu, timeout, now :: s == NewOutLink(mtu, timeout, now)
    else exists iface, mtu, now :: s == NewInLink(iface, mtu, now)
  }

  /** A link that is or was active is bound, and every activation was announced with that interface. */
  ghost predicate Bound(s: LinkState) {
    && (s.status in {Active, Stale} ==> s.attached.Some?)
    && (forall e | e in s.events && e.event == ActivatedEvent :: e.iface.Some? && e.iface == s.attached)
  }

  ghost predicate Spaced(times: seq<int>) {
    forall i, j | 0 <= i < j < |times| :: times[j] - times[i] >= KEEPALIVE_INTERVAL
  }

  ghost predicate KeepalivesSpaced(s: LinkState) {
    Spaced(s.keepalives) && (s.keepalives != [] ==> s.lastKeepalive == s.keepalives[|s.keepalives| - 1])
  }

  /** What an operation keeps: activity is bound, events are only added, and a binding once made stays. */
  ghost predicate BindsOn(s: LinkState, after: LinkState) {
    Bound(after) && s.events <= after.events && (s.attached.Some? ==> after.attached == s.attached)
  }

  lemma PostBinds(s: LinkState, event: Event)
    requires Bound(s) && (event == ActivatedEvent ==> s.attached.Some?)
    ensures BindsOn(s, Post(s, event))
  {}

  lemma ReceiveBinds(outLink: bool, s: LinkState, inc: Incoming, iface: Address, now: int)
    requires Bound(s) && (!outLink ==> s.attached.Some?)
    ensures BindsOn(s, Receive(outLink, s, inc, iface, now).0)
  {
    if s.attached.None? || s.attached.value == iface {
      match inc
      case NotForLink(_) =>
      case LinkRequestProof(confirmed) =>
        if s.status == Pending && confirmed.Some? {
          var bound := s.(attached := if outLink then Some(iface) else s.attached);
          PostBinds(bound.(mtu := confirmed.value, status := Active, requestTime := now), ActivatedEvent);
        }
      case MessageProof(_) => PostBinds(s, OtherEvent);
      case Payload(refresh, _) => PostBinds(if refresh then s.(requestTime := now) else s, OtherEvent);
      case PeerClose => PostBinds(s.(status := Closed), ClosedEvent);
    }
  }

  lemma CheckBinds(outLink: bool, s: LinkState, restart: bool, now: int)
    requires Bound(s)
    ensures BindsOn(s, if outLink then CheckOut(s, restart, now).0 else CheckIn(s, now).0)
  {
    hide LinkCrypt.ComputeLinkMdu;
    PostBinds(s.(status := Closed), ClosedEvent);
  }

  lemma StepBinds(outLink: bool, s: LinkState, op: Op)
    requires Bound(s) && (!outLink ==> s.attached.Some?)
    ensures BindsOn(s, Step(outLink, s, op))
  {
    hide LinkCrypt.ComputeLinkMdu, Receive, CheckOut, CheckIn;
    match op
    case Arrives(inc, iface, now) => ReceiveBinds(outLink, s, inc, iface, now);
    case Checked(restart, now) => CheckBinds(outLink, s, restart, now);
    case Kept(_) =>
    case Reproved(_) =>
      if !outLink && s.status != Active {
        PostBinds(s.(status := Active), ActivatedEvent);
      }
    case UserClosed => PostBinds(s.(status := Closed), ClosedEvent);
    case ChannelGaveUp => PostBinds(s.(status := Closed), ClosedEvent);
  }

  lemma StepSpaces(outLink: bool, s: LinkState, op: Op)
    requires KeepalivesSpaced(s)
    ensures KeepalivesSpaced(Step(outLink, s, op)) && s.keepalives <= Step(outLink, s, op).keepalives
  {}

  /**
    Over any life of a link: whenever it is active or stale it is bound, the binding once made never
    changes, not by going stale, restarting or being activated again, every activation is announced
    with it, and keepalives are at least 360 seconds apart.
   */
  lemma {:induction false} LifeKeeps(outLink: bool, s: LinkState, ops: seq<Op>, k: nat)
    requires Starts(outLink, s) && k <= |ops|
    ensures var (before, now) := (Life(outLink, s, ops[..k]), Life(outLink, s, ops));
      && Bound(now) && KeepalivesSpaced(now) && (!outLink ==> now.attached.Some?)
      && (before.attached.Some? ==> now.attached == before.attached)
    decreases |ops|
  {
    if ops == [] {
    } else {
      var init := ops[..|ops| - 1];
      LifeKeeps(outLink, s, init, if k < |ops| then k else 0);
      StepBinds(outLink, Life(outLink, s, init), ops[|ops| - 1]);
      StepSpaces(outLink, Life(outLink, s, init), ops[|ops| - 1]);
      hide Step;
      if k < |ops| {
        assert init[..k] == ops[..k];
      } else {
        assert ops[..k] == ops;
      }
    }
  }

  /**
    In any life, from the moment a link is bound: a packet is let through exactly when it arrives on
    the interface the link was bound to then, and still is at the end.
   */
  lemma LifeHearsBoundInterface(outLink: bool, s: LinkState, ops: seq<Op>, k: nat, j: nat)
    requires Starts(outLink, s) && k <= j < |ops| && ops[j].Arrives?
    requires Life(outLink, s, ops[..k]).attached.Some?
    ensures var bound := Life(outLink, s, ops[..k]).attached;
      && Life(outLink, s, ops).attached == bound
      && (Receive(outLink, Life(outLink, s, ops[..j]), ops[j].inc, ops[j].iface, ops[j].now).1 != WrongInterface
          <==> bound == Some(ops[j].iface))
  {
    hide Life;
    LifeKeeps(outLink, s, ops, k);
    LifeKeeps(outLink, s, ops[..j], k);
    assert ops[..j][..k] == ops[..k];
  }

  /** A packet from another interface than the bound one, or an invalid link request proof. */
  predicate Rejected(s: LinkState, op: Op) {
    op.Arrives? && ((s.attached.Some? && s.attached.value != op.iface) || op.inc == LinkRequestProof(None))
  }

  function Heard(outLink: bool, s: LinkState, ops: seq<Op>): seq<Op> {
    if ops == [] then []
    else
      var (init, op) := (ops[..|ops| - 1], ops[|ops| - 1]);
      Heard(outLink, s, init) + if Rejected(Life(outLink, s, init), op) then [] else [op]
  }

  /** A life is the same with every such packet left out. */
  lemma {:induction false} RejectedPacketsLeaveNoTrace(outLink: bool, s: LinkState, ops: seq<Op>)
    ensures Life(outLink, s, Heard(outLink, s, ops)) == Life(outLink, s, ops)
  {
    if ops != [] {
      var (init, op) := (ops[..|ops| - 1], ops[|ops| - 1]);
      var heard := Heard(outLink, s, init);
      RejectedPacketsLeaveNoTrace(outLink, s, init);
      if Rejected(Life(outLink, s, init), op) {
        assert heard + [] == heard;
      } else {
        assert (heard + [op])[..|heard|] == heard;
        hide Step;
      }
    }
  }

  // ----- what keeps a link going and what ends it

  /**
    After a keepalive pass no active link has been quiet for a keepalive interval: it was heard
    from, or has been sent one.
   */
  lemma NoQuietActiveLink(s: LinkState, now: int)
    ensures var t := Keep(s, now);
      && (s.status == Active && s.requestTime <= now && s.lastKeepalive <= now ==>
          now - t.requestTime < KEEPALIVE_INTERVAL || now - t.lastKeepalive < KEEPALIVE_INTERVAL)
      && (t.lastKeepalive != s.lastKeepalive ==> t.keepalives == s.keepalives + [now] && t.lastKeepalive == now)
      && t == s.(lastKeepalive := t.lastKeepalive, keepalives := t.keepalives)
  {}

  /**
    A check calls an active link stale, in or out, exactly when it has been silent for more than 720
    s, and restarts a stale out-link, where that is on, exactly after 60 s.
   */
  lemma StaleExactly(s: LinkState, restart: bool, now: int)
    requires s.status in {Active, Stale}
    ensures s.status == Active ==>
      && CheckOut(s, restart, now).1 && CheckIn(s, now) == CheckOut(s, restart, now)
      && CheckOut(s, restart, now).0 == (if now - s.requestTime > 720_000 then s.(status := Stale) else s)
    ensures s.status == Stale && restart ==>
      (CheckOut(s, restart, now).0.status == Pending <==> now - s.requestTime > 60_000)
  {}

  /** A new out-link has until its timeout to be proved, and repeats its request no sooner than 6 s after the first. */
  lemma NewLinkGetsTimeout(mtu: nat, timeout: nat, now: int, restart: bool, later: int)
    ensures var s := NewOutLink(mtu, timeout, now);
      && s.status == Pending && s.attached == None && s.mtu == mtu
      && (CheckOut(s, restart, later).1 <==> later < now + timeout)
      && (CheckOut(s, restart, later).1 && CheckOut(s, restart, later).0 != s ==> later >= now + 6_000)
      && (now + 6_000 <= later < now + timeout ==> CheckOut(s, restart, later).0.nextRetry == later + 6_000)
  {}

  /** Proving activates a link, which says so once, and again only after it was no longer active. */
  lemma ProveActivatesOnce(s: LinkState)
    ensures Prove(Prove(s)) == Prove(s) && Prove(s).status == Active
    ensures Prove(s).events ==
      if s.status == Active then s.events else s.events + [Posted(s.attached, ActivatedEvent)]
  {}

  /**
    A repeated link request proves a live in-link again and counts as hearing from it; a closed one
    is left for a fresh link.
   */
  lemma RepeatedRequestRevives(s: LinkState, now: int)
    ensures var t := Step(false, s, Reproved(now));
      if s.status == Closed then t == s else t == Prove(s).(requestTime := now)
    ensures s.status == Stale && now >= 0 ==> CheckIn(Step(false, s, Reproved(now)), now + 725_000).1
  {}

  /** Only out-links send keepalives. */
  lemma {:induction false} InLinksSendNoKeepalives(s: LinkState, ops: seq<Op>)
    ensures Life(false, s, ops).keepalives == s.keepalives
  {
    if ops != [] {
      InLinksSendNoKeepalives(s, ops[..|ops| - 1]);
    }
  }

  /**
    What a packet let through does: a valid link proof activates a pending link, with its MTU; a
    valid message proof is reported by an active link; other packets refresh the activity timer or
    are reported, as their kind has it; a close packet closes. Nothing else changes.
   */
  lemma WhatPacketsDo(outLink: bool, s: LinkState, inc: Incoming, iface: Address, now: int)
    requires s.attached in {None, Some(iface)}
    ensures var (t, r) := Receive(outLink, s, inc, iface, now);
      && (r == Activated <==> s.status == Pending && inc.LinkRequestProof? && inc.confirmed.Some?)
      && t.status == (if r == Activated then Active else if inc.PeerClose? then Closed else s.status)
      && t.mtu == (if r == Activated then inc.confirmed.value else s.mtu)
      && t.attached == (if r == Activated && outLink then Some(iface) else s.attached)
      && t.requestTime == (if r == Activated || (inc.Payload? && inc.refresh) then now else s.requestTime)
      && t.events == s.events + (
          if r == Activated then [Posted(t.attached, ActivatedEvent)]
          else if inc.PeerClose? then [Posted(s.attached, ClosedEvent)]
          else if (inc.MessageProof? && inc.valid && s.status == Active) || (inc.Payload? && inc.posts)
            then [Posted(s.attached, OtherEvent)]
          else [])
      && t == s.(status := t.status, mtu := t.mtu, attached := t.attached, requestTime := t.requestTime,
                 events := t.events)
  {
    assert s.events + [] == s.events;
  }

  /**
    Which links a check gives up: closed ones, those not established in time, and with restarts off
    those silent for 725 s.
   */
  lemma GivenUpExactly(s: LinkState, restart: bool, now: int)
    ensures !CheckOut(s, restart, now).1 <==>
      || s.status == Closed
      || (s.status == Pending && now >= s.deadline)
      || (s.status == Stale && !restart && now - s.requestTime > 725_000)
  {}

  /**
    A link given up has been closed and says so to its subscribers, except when its MTU is too small
    for a close packet.
   */
  lemma GivenUpIsClosed(s: LinkState, restart: bool, now: int)
    requires !CheckOut(s, restart, now).1
    ensures var t := CheckOut(s, restart, now).0;
      (t.status == Closed && t.events == s.events + [Posted(s.attached, ClosedEvent)]) <==>
      s.status != Stale || s.mtu >= 100
  {
    ClosePacketFits(s.mtu);
    hide LinkCrypt.ComputeLinkMdu;
  }

  lemma ClosePacketFits(mtu: nat)
    ensures LinkCrypt.ComputeLinkMdu(mtu) >= ADDRESS_HASH_SIZE <==> mtu >= 100
  {}

  /**
    With restarts on, a link silent for a minute after going stale asks for itself again: the check
    that restarts it gives it 30 s, and every check in that time finds it pending and repeats its
    request when 6 s have passed since the last.
   */
  lemma StaleLinkRestarts(s: LinkState, restarted: int, now: int)
    requires s.status == Stale && restarted - s.requestTime > INTERVAL_OUTPUT_LINK_RESTART
    requires restarted <= now < restarted + DEFAULT_ESTABLISHMENT_TIMEOUT
    ensures var (t, kept) := CheckOut(s, true, restarted);
      && kept && t == s.(status := Pending, requestTime := restarted, nextRetry := restarted, deadline := t.deadline)
      && (var (u, still) := CheckOut(t, true, now);
          still && u == t.(nextRetry := now + LINK_REQUEST_RETRY_INTERVAL)
          && forall later | now <= later < restarted + DEFAULT_ESTABLISHMENT_TIMEOUT ::
              CheckOut(u, true, later) == (if later < now + LINK_REQUEST_RETRY_INTERVAL then u
                else u.(nextRetry := later + LINK_REQUEST_RETRY_INTERVAL), true))
  {}

  /** A link that is heard from is kept by every check for the next 725 s. */
  lemma HeardFromIsKept(outLink: bool, s: LinkState, inc: Incoming, iface: Address, heard: int, restart: bool, now: int)
    requires s.status in {Active, Stale} && inc.Payload? && inc.refresh && s.attached in {None, Some(iface)}
    requires now <= heard + 725_000
    ensures var t := Receive(outLink, s, inc, iface, heard).0;
      && t.requestTime == heard && t.status == s.status
      && (if outLink then CheckOut(t, restart, now).1 else CheckIn(t, now).1)
  {}

  // ----- removal of dead links

  datatype TableOp = CheckLinks(now: int) | KeepLinks(now: int)

  /** The out-link table after a check with restarts off, or after keepalives. */
  function TableStep(table: map<Address, LinkState>, op: TableOp): map<Address, LinkState> {
    match op
    case CheckLinks(now) => CheckedTable(table, false, now)
    case KeepLinks(now) => KeptTable(table, now)
  }

  function KeptTable(table: map<Address, LinkState>, now: int): map<Address, LinkState> {
    map d | d in table :: Keep(table[d], now)
  }

  function CheckedTable(table: map<Address, LinkState>, restart: bool, now: int): map<Address, LinkState> {
    map d | d in table && CheckOut(table[d], restart, now).1 :: CheckOut(table[d], restart, now).0
  }

  function TableRun(table: map<Address, LinkState>, ops: seq<TableOp>): map<Address, LinkState> {
    if ops == [] then table else TableStep(TableRun(table, ops[..|ops| - 1]), ops[|ops| - 1])
  }

  /** Both limits of a link have passed. */
  predicate Overdue(s: LinkState, now: int) {
    now >= s.deadline && Elapsed(s, now) > INTERVAL_LINK_STALE + INTERVAL_LINK_CLOSE
  }

  /** How many checks among `ops` find both limits of `s` passed. */
  function LateChecks(s: LinkState, ops: seq<TableOp>): nat {
    if ops == [] then 0
    else
      var op := ops[|ops| - 1];
      LateChecks(s, ops[..|ops| - 1]) + if op.CheckLinks? && Overdue(s, op.now) then 1 else 0
  }

  /**
    With restarts off and nothing arriving, an out-link is gone by the second check after its
    establishment deadline and its 725 s staleness limit, however often its request was repeated or
    keepalives were sent; after one such check only a link that was active can remain, and is stale.
   */
  lemma {:induction false} DeadLinkRemoved(table: map<Address, LinkState>, d: Address, ops: seq<TableOp>)
    requires d in table && table[d].status != Handshake
    ensures var (s, t) := (table[d], TableRun(table, ops));
      && (d in t ==> t[d].requestTime == s.requestTime && t[d].deadline == s.deadline)
      && (d in t ==> t[d].status == s.status || (s.status == Active && t[d].status == Stale))
      && (d in t && LateChecks(s, ops) == 1 ==> s.status == Active && t[d].status == Stale)
      && (LateChecks(s, ops) >= 2 ==> d !in t)
  {
    if ops != [] {
      DeadLinkRemoved(table, d, ops[..|ops| - 1]);
    }
  }

  // ----- what a check does beside the out-link table

  const INTERVAL_OUTPUT_LINK_TRIED := 30_000

  /**
    What decides on looking for another path to a destination: whether its path is marked
    unresponsive, whether one was asked for lately, and the path's interface.
   */
  datatype PathView = PathView(unresponsive: bool, askedLately: bool, nextHop: Option<Address>)

  /**
    Whether a check looks for another path, and on which interface not to ask: when establishment
    has failed, or has gone on for 30 s without anyone noticing yet.
   */
  function Rediscovery(s: LinkState, path: PathView, now: int): Option<Option<Address>> {
    if s.status != Pending then None
    else if now >= s.deadline then Some(None)
    else if Elapsed(s, now) > INTERVAL_OUTPUT_LINK_TRIED && !path.unresponsive && !path.askedLately
      then Some(path.nextHop)
    else None
  }

  function Rediscovered(
      table: map<Address, LinkState>, path: Address -> PathView, now: int): map<Address, Option<Address>> {
    map d | d in table && Rediscovery(table[d], path(d), now).Some? :: Rediscovery(table[d], path(d), now).value
  }

  function Gone(table: map<Address, LinkState>, restart: bool, now: int): set<Address> {
    set d | d in table && !CheckOut(table[d], restart, now).1
  }

  function GoneIn(table: map<Address, LinkState>, now: int): set<Address> {
    set d | d in table && !CheckIn(table[d], now).1
  }

  function CheckedIn(table: map<Address, LinkState>, now: int): map<Address, LinkState> {
    map d | d in table && CheckIn(table[d], now).1 :: CheckIn(table[d], now).0
  }

  function Ids(idOf: Address -> Address, destinations: set<Address>): set<Address> {
    set d | d in destinations :: idOf(d)
  }

  lemma EmptyStart(
      idOf: Address -> Address, table: map<Address, LinkState>, path: Address -> PathView, restart: bool, now: int)
    ensures Gone(table, restart, now) - table.Keys == {} && Ids(idOf, {}) == {}
    ensures Rediscovered(table, path, now) - table.Keys == map[]
  {}

  lemma GoneStep(table: map<Address, LinkState>, restart: bool, now: int, todo: set<Address>, d: Address)
    requires d in todo && d in table
    ensures Gone(table, restart, now) - (todo - {d}) ==
      Gone(table, restart, now) - todo + if CheckOut(table[d], restart, now).1 then {} else {d}
  {}

  lemma RediscoveredStep(
      table: map<Address, LinkState>, path: Address -> PathView, now: int, todo: set<Address>, d: Address)
    requires d in todo && d in table
    ensures var (found, before) := (Rediscovery(table[d], path(d), now), Rediscovered(table, path, now) - todo);
      Rediscovered(table, path, now) - (todo - {d}) == if found.Some? then before[d := found.value] else before
  {}

  lemma IdsStep(idOf: Address -> Address, destinations: set<Address>, d: Address)
    ensures Ids(idOf, destinations + {d}) == Ids(idOf, destinations) + {idOf(d)}
  {}

  lemma RemovalChecks(was: map<Address, LinkState>, table: map<Address, LinkState>, restart: bool, now: int)
    requires table.Keys == was.Keys - Gone(was, restart, now)
    requires forall d | d in table :: d in was && table[d] == CheckOut(was[d], restart, now).0
    ensures table == CheckedTable(was, restart, now)
  {}

  // ----- all tables

  /** The handler's tables: in-links by id, out-links by destination, and what is kept per link id. */
  datatype Tables = Tables(
    inLinks: map<Address, LinkState>,
    outLinks: map<Address, LinkState>,
    byId: map<Address, Address>,
    ifaces: map<Address, Address>)

  function CheckTables(idOf: Address -> Address, t: Tables, restart: bool, now: int): Tables {
    var ids := Ids(idOf, Gone(t.outLinks, restart, now));
    Tables(CheckedIn(t.inLinks, now), CheckedTable(t.outLinks, restart, now), t.byId - ids,
      t.ifaces - GoneIn(t.inLinks, now) - ids)
  }

  function TablesStep(idOf: Address -> Address, t: Tables, restart: bool, op: TableOp): Tables {
    match op
    case CheckLinks(now) => CheckTables(idOf, t, restart, now)
    case KeepLinks(now) => t.(outLinks := KeptTable(t.outLinks, now))
  }

  function TablesRun(idOf: Address -> Address, t: Tables, restart: bool, ops: seq<TableOp>): Tables {
    if ops == [] then t
    else TablesStep(idOf, TablesRun(idOf, t, restart, ops[..|ops| - 1]), restart, ops[|ops| - 1])
  }

  /** The out-links of a run with restarts off are those `DeadLinkRemoved` speaks of. */
  lemma {:induction false} OutLinksOfRun(idOf: Address -> Address, t: Tables, ops: seq<TableOp>)
    ensures TablesRun(idOf, t, false, ops).outLinks == TableRun(t.outLinks, ops)
  {
    if ops != [] {
      OutLinksOfRun(idOf, t, ops[..|ops| - 1]);
    }
  }

  /** How many checks among `ops` find an in-link silent for more than 725 s. */
  function SilentChecks(s: LinkState, ops: seq<TableOp>): nat {
    if ops == [] then 0
    else
      var op := ops[|ops| - 1];
      SilentChecks(s, ops[..|ops| - 1]) + if op.CheckLinks? && op.now - s.requestTime > 725_000 then 1 else 0
  }

  /** One operation on one in-link: its status may turn stale, and it may be given up, its interface with it. */
  lemma InLinkStep(idOf: Address -> Address, t: Tables, restart: bool, id: Address, op: TableOp)
    ensures var u := TablesStep(idOf, t, restart, op);
      if id in t.inLinks && op.CheckLinks? then
        && (id in u.inLinks <==> CheckIn(t.inLinks[id], op.now).1)
        && (id in u.inLinks ==> u.inLinks[id] == CheckIn(t.inLinks[id], op.now).0)
        && (id !in u.inLinks ==> id !in u.ifaces)
      else
        && (id in u.inLinks <==> id in t.inLinks) && (id in t.inLinks ==> u.inLinks[id] == t.inLinks[id])
        && (id !in t.ifaces ==> id !in u.ifaces)
  {
    hide CheckOut, CheckIn, Keep;
  }

  /**
    When nothing arrives, an active or stale in-link is kept as long as no check finds it silent for
    725 s, and is gone from the table and its interface forgotten by the second check that does;
    after one such check only a link that was active can remain, and is stale. An in-link of any
    other status, closed ones included, is never removed.
   */
  lemma {:induction false} DeadInLinkRemoved(
      idOf: Address -> Address, t: Tables, restart: bool, id: Address, ops: seq<TableOp>)
    requires id in t.inLinks
    ensures var (s, u) := (t.inLinks[id], TablesRun(idOf, t, restart, ops));
      if s.status in {Active, Stale} then
        && (id in u.inLinks ==> u.inLinks[id] == s.(status := u.inLinks[id].status))
        && (id in u.inLinks ==> u.inLinks[id].status == s.status || u.inLinks[id].status == Stale)
        && (SilentChecks(s, ops) == 0 ==> id in u.inLinks)
        && (SilentChecks(s, ops) == 1 && id in u.inLinks ==> s.status == Active && u.inLinks[id].status == Stale)
        && (SilentChecks(s, ops) >= 2 ==> id !in u.inLinks)
        && (id !in u.inLinks ==> id !in u.ifaces)
      else id in u.inLinks && u.inLinks[id] == s
  {
    hide TablesStep, LinkCrypt.ComputeLinkMdu;
    if ops != [] {
      var init := ops[..|ops| - 1];
      DeadInLinkRemoved(idOf, t, restart, id, init);
      InLinkStep(idOf, TablesRun(idOf, t, restart, init), restart, id, ops[|ops| - 1]);
    }
  }

  lemma IdsOfRest(idOf: Address -> Address, all: set<Address>, gone: set<Address>)
    requires gone <= all && forall c, d | c in all && d in all && c != d :: idOf(c) != idOf(d)
    ensures Ids(idOf, all - gone) == Ids(idOf, all) - Ids(idOf, gone)
  {}

  /**
    The maps by link id agree with the tables: no two links share an id, and nothing is kept for a
    link that is gone.
   */
  ghost predicate InStep(idOf: Address -> Address, t: Tables) {
    && (forall c, d | c in t.outLinks && d in t.outLinks && c != d :: idOf(c) != idOf(d))
    && (forall d | d in t.outLinks :: idOf(d) !in t.inLinks)
    && t.byId.Keys == Ids(idOf, t.outLinks.Keys)
    && t.ifaces.Keys <= t.inLinks.Keys + Ids(idOf, t.outLinks.Keys)
  }

  /** A check keeps them in step, and forgets the interface of exactly the links it removes. */
  lemma CheckKeepsInStep(idOf: Address -> Address, t: Tables, restart: bool, now: int)
    requires InStep(idOf, t)
    ensures var u := CheckTables(idOf, t, restart, now);
      && InStep(idOf, u)
      && (forall id | id in t.byId :: id in u.byId <==> id in Ids(idOf, u.outLinks.Keys))
      && (forall id | id in t.ifaces :: id in u.ifaces <==> id in u.inLinks || id in Ids(idOf, u.outLinks.Keys))
      && (forall id | id in u.ifaces :: u.ifaces[id] == t.ifaces[id])
      && (forall id | id in u.byId :: u.byId[id] == t.byId[id])
  {
    hide CheckOut, CheckIn;
    var u := CheckTables(idOf, t, restart, now);
    var gone := Gone(t.outLinks, restart, now);
    assert u.outLinks.Keys == t.outLinks.Keys - gone;
    assert u.inLinks.Keys == t.inLinks.Keys - GoneIn(t.inLinks, now);
    IdsOfRest(idOf, t.outLinks.Keys, gone);
  }

  /**
    A link that fails to be established has its path looked for at once, on all interfaces; no other
    link does before 30 s of trying.
   */
  lemma FailedLinkRediscovered(s: LinkState, path: PathView, restart: bool, now: int)
    ensures s.status == Pending && !CheckOut(s, restart, now).1 ==> Rediscovery(s, path, now) == Some(None)
    ensures Rediscovery(s, path, now).Some? && CheckOut(s, restart, now).1 ==>
      && Rediscovery(s, path, now) == Some(path.nextHop)
      && s.status == Pending && now - s.requestTime > 30_000
      && !path.unresponsive && !path.askedLately
    ensures s.status == Pending && now - s.requestTime > 30_000 && !path.unresponsive && !path.askedLately ==>
      Rediscovery(s, path, now).Some?
  {}

  // ----- the link object

  class LinkObject {
    var status: Status
    var attachedInterface: Option<Address>
    var mtu: nat
    var requestTime: int
    var establishmentDeadline: int
    var nextRetryTime: int
    var lastKeepalive: int
    var events: seq<Posted>
    var keepalives: seq<int>
    const outLink: bool

    function State(): LinkState
      reads this
    {
      LinkState(status, attachedInterface, mtu, requestTime, establishmentDeadline, nextRetryTime, lastKeepalive,
        events, keepalives)
    }

    constructor Out(mtu: nat, timeout: nat, now: int)
      ensures outLink && State() == NewOutLink(mtu, timeout, now)
    {
      status, attachedInterface, this.mtu := Pending, None, mtu;
      requestTime, establishmentDeadline, nextRetryTime := now, now + timeout, now + LINK_REQUEST_RETRY_INTERVAL;
      lastKeepalive, events, keepalives, outLink := now, [], [], true;
    }

    constructor In(iface: Address, mtu: nat, now: int)
      ensures !outLink && State() == NewInLink(iface, mtu, now)
    {
      status, attachedInterface, this.mtu := Active, Some(iface), mtu;
      requestTime, establishmentDeadline, nextRetryTime := now, now + DEFAULT_ESTABLISHMENT_TIMEOUT, now;
      lastKeepalive, events, keepalives, outLink := now, [Posted(Some(iface), ActivatedEvent)], [], false;
    }

    method PostEvent(event: Event)
      modifies this`events
      ensures State() == Post(old(State()), event)
    {
      events := events + [Posted(attachedInterface, event)];
    }

    /** Activates an in-link ahead of sending its proof. */
    method ProveLink()
      modifies this
      ensures State() == Prove(old(State()))
    {
      if status != Active {
        status := Active;
        PostEvent(ActivatedEvent);
      }
    }

    /** Closes the link; where the peer has to be told and the packet cannot be built, the link stays as it is. */
    method TearDown() returns (ok: bool)
      modifies this
      ensures State() == Teardown(old(State()))
      ensures ok <==> status == Closed
    {
      var inform := status != Pending && status != Closed;
      if inform && (status == Handshake || LinkCrypt.ComputeLinkMdu(mtu) < ADDRESS_HASH_SIZE) {
        return false;
      }
      status := Closed;
      PostEvent(ClosedEvent);
      return true;
    }

    method HandlePacket(inc: Incoming, now: int) returns (r: Outcome)
      modifies this
      ensures attachedInterface == old(attachedInterface)
      ensures r != WrongInterface
      ensures r == Activated <==> inc.LinkRequestProof? && inc.confirmed.Some? && old(status) == Pending
      ensures State() == match inc
        case NotForLink(_) => old(State())
        case LinkRequestProof(_) =>
          if r != Activated then old(State())
          else Post(old(State()).(mtu := inc.confirmed.value, status := Active, requestTime := now), ActivatedEvent)
        case MessageProof(valid) =>
          if old(status) == Active && valid then Post(old(State()), OtherEvent) else old(State())
        case Payload(refresh, posts) =>
          var t := if refresh then old(State()).(requestTime := now) else old(State());
          if posts then Post(t, OtherEvent) else t
        case PeerClose => Close(old(State()))
    {
      r := Nothing;
      match inc {
        case NotForLink(_) =>
        case LinkRequestProof(confirmed) =>
          if status == Pending && confirmed.Some? {
            mtu := confirmed.value;
            status := Handshake;
            status := Active;
            requestTime := now;
            PostEvent(ActivatedEvent);
            r := Activated;
          }
        case MessageProof(valid) =>
          if status == Active && valid {
            PostEvent(OtherEvent);
          }
        case Payload(refresh, posts) =>
          if refresh {
            requestTime := now;
          }
          if posts {
            PostEvent(OtherEvent);
          }
        case PeerClose =>
          status := Closed;
          PostEvent(ClosedEvent);
      }
    }

    /**
      Binds ahead of dispatch on a link request proof and reverts unless it activates the link: the
      effect is `Receive`.
     */
    method HandlePacketFrom(inc: Incoming, iface: Address, now: int) returns (r: Outcome)
      modifies this
      ensures (State(), r) == Receive(outLink, old(State()), inc, iface, now)
    {
      if attachedInterface.Some? && attachedInterface.value != iface {
        return WrongInterface;
      }
      var tentativeBind := outLink && attachedInterface.None?
        && (inc.LinkRequestProof? || (inc.NotForLink? && inc.linkProof));
      if tentativeBind {
        attachedInterface := Some(iface);
      }
      r := HandlePacket(inc, now);
      if tentativeBind && r != Activated {
        attachedInterface := None;
      }
    }

    /** The out-link arm of the link check; whether the table keeps the link, and which path to look for. */
    method Check(restart: bool, path: PathView, now: int) returns (keep: bool, rediscover: Option<Option<Address>>)
      modifies this
      ensures (State(), keep) == CheckOut(old(State()), restart, now)
      ensures rediscover == Rediscovery(old(State()), path, now)
    {
      var elapsed := if now > requestTime then now - requestTime else 0;
      keep, rediscover := true, None;
      match status {
        case Active =>
          if elapsed > INTERVAL_LINK_STALE {
            status := Stale;
          }
        case Stale =>
          if restart {
            if elapsed > INTERVAL_OUTPUT_LINK_RESTART {
              status := Pending;
              requestTime := now;
              nextRetryTime := now;
              establishmentDeadline := now + DEFAULT_ESTABLISHMENT_TIMEOUT;
            }
          } else if elapsed > INTERVAL_LINK_STALE + INTERVAL_LINK_CLOSE {
            if LinkCrypt.ComputeLinkMdu(mtu) >= ADDRESS_HASH_SIZE {
              status := Closed;
              PostEvent(ClosedEvent);
            }
            keep := false;
          }
        case Pending =>
          if now >= establishmentDeadline {
            status := Closed;
            PostEvent(ClosedEvent);
            keep, rediscover := false, Some(None);
          } else {
            if now >= nextRetryTime {
              status := Pending;
              nextRetryTime := now + LINK_REQUEST_RETRY_INTERVAL;
            }
            if elapsed > INTERVAL_OUTPUT_LINK_TRIED && !path.unresponsive && !path.askedLately {
              rediscover := Some(path.nextHop);
            }
          }
        case Closed =>
          PostEvent(ClosedEvent);
          keep := false;
        case Handshake =>
      }
    }

    method KeepAlive(now: int) returns (sent: bool)
      modifies this
      ensures State() == Keep(old(State()), now)
      ensures sent <==> old(status) == Active && KeepaliveDue(old(State()), now)
    {
      sent := status == Active && KeepaliveDue(State(), now);
      if sent {
        lastKeepalive := now;
        keepalives := keepalives + [now];
      }
    }
  }

  /** The handler's tables, with each link's state as its value. */
  class LinkTables {
    var inLinks: map<Address, LinkState>
    var outLinks: map<Address, LinkState>
    var outLinksByLinkId: map<Address, Address>
    var linkIfaces: map<Address, Address>

    function View(): Tables
      reads this
    {
      Tables(inLinks, outLinks, outLinksByLinkId, linkIfaces)
    }

    /**
      `idOf` and `path` give each destination's link id and what the path table knows; the paths to
      rediscover are returned, with the interface not to ask.
     */
    method CheckLinks(idOf: Address -> Address, path: Address -> PathView, restart: bool, now: int)
      returns (rediscover: map<Address, Option<Address>>)
      modifies this
      ensures View() == CheckTables(idOf, old(View()), restart, now)
      ensures rediscover == Rediscovered(old(outLinks), path, now)
    {
      hide CheckOut, CheckIn, Rediscovery;
      CheckInLinks(now);
      var idsToRemove;
      idsToRemove, rediscover := CheckOutLinks(idOf, path, restart, now);
      outLinksByLinkId := outLinksByLinkId - idsToRemove;
      linkIfaces := linkIfaces - idsToRemove;
    }

    method CheckOutLinks(idOf: Address -> Address, path: Address -> PathView, restart: bool, now: int)
      returns (idsToRemove: set<Address>, rediscover: map<Address, Option<Address>>)
      modifies this`outLinks
      ensures outLinks == CheckedTable(old(outLinks), restart, now)
      ensures idsToRemove == Ids(idOf, Gone(old(outLinks), restart, now))
      ensures rediscover == Rediscovered(old(outLinks), path, now)
    {
      hide CheckOut, Rediscovery, Gone, Rediscovered, Ids, CheckedTable;
      EmptyStart(idOf, outLinks, path, restart, now);
      var todo, linksToRemove := outLinks.Keys, {};
      ghost var was := outLinks;
      idsToRemove, rediscover := {}, map[];
      while todo != {}
        invariant todo <= was.Keys && outLinks.Keys == was.Keys
        invariant forall d | d in todo :: outLinks[d] == was[d]
        invariant forall d | d in was.Keys - todo :: outLinks[d] == CheckOut(was[d], restart, now).0
        invariant linksToRemove == Gone(was, restart, now) - todo
        invariant idsToRemove == Ids(idOf, linksToRemove)
        invariant rediscover == Rediscovered(was, path, now) - todo
        decreases todo
      {
        var d :| d in todo;
        var (s, keep) := CheckOut(outLinks[d], restart, now);
        var found := Rediscovery(outLinks[d], path(d), now);
        GoneStep(was, restart, now, todo, d);
        RediscoveredStep(was, path, now, todo, d);
        IdsStep(idOf, linksToRemove, d);
        outLinks := outLinks[d := s];
        if !keep {
          idsToRemove := idsToRemove + {idOf(d)};
          linksToRemove := linksToRemove + {d};
        }
        if found.Some? {
          rediscover := rediscover[d := found.value];
        }
        todo := todo - {d};
      }
      assert Gone(was, restart, now) - {} == Gone(was, restart, now);
      assert Rediscovered(was, path, now) - {} == Rediscovered(was, path, now);
      outLinks := outLinks - linksToRemove;
      RemovalChecks(was, outLinks, restart, now);
    }

    method CheckInLinks(now: int)
      modifies this`inLinks, this`linkIfaces
      ensures inLinks == CheckedIn(old(inLinks), now)
      ensures linkIfaces == old(linkIfaces) - GoneIn(old(inLinks), now)
    {
      hide CheckIn;
      var todo, linksToRemove := inLinks.Keys, {};
      ghost var was := inLinks;
      while todo != {}
        invariant unchanged(`linkIfaces)
        invariant todo <= was.Keys && inLinks.Keys == was.Keys
        invariant forall d | d in todo :: inLinks[d] == was[d]
        invariant forall d | d in was.Keys - todo :: inLinks[d] == CheckIn(was[d], now).0
        invariant linksToRemove == GoneIn(was, now) - todo
        decreases todo
      {
        var d :| d in todo;
        var (s, keep) := CheckIn(inLinks[d], now);
        inLinks := inLinks[d := s];
        if !keep {
          linksToRemove := linksToRemove + {d};
        }
        todo := todo - {d};
      }
      inLinks := inLinks - linksToRemove;
      linkIfaces := linkIfaces - linksToRemove;
    }
  }
}
