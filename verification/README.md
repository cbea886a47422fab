# Reticulum transport: verified core

A Dafny model of the parts of this Reticulum implementation that carry state machines, codecs and
schedulers, with proofs about whole runs of them. `dafny verify dfyconfig.toml` checks everything.

Code that changes fields or buffers in place is modelled by classes and loops; each such method is
proved equal to a specification function on values, and the properties are proved about that
function. Code that computes a value is modelled by functions directly. One module per file.

| module | models |
|---|---|
| `Reorder`, `ChannelRx` | the link's channel reorder receiver: 16-bit sequence numbers, sorted ring, stall and overflow recovery, resynchronisation |
| `ChannelInbound`, `ChannelOutbound` | the message channel: reorder map and draining, adaptive window, retransmission and delivery proofs |
| `LinkSetup` | link requests over a chain of relays: link ids, MTU signalling, clamping and stripping, the link request proof |
| `LinkLifecycle` | a link's states, interface binding, timers, keepalives, and the out-link table |
| `Pickle`, `PickleReader` | the stack machine that reads pickled RPC values, and the encoder the repository tests it with (`#[cfg(test)]` in the source) |
| `Buffer`, `Packet`, `Serde` | cursors, header packing and the packet format |
| `IfacFrame` | interface access codes: signing, masking and unmasking of frames |
| `Hdlc` | byte stuffing, framing and reassembly from a byte stream (section 4.2 of RFC 1662) |
| `TcpStream` | a whole interface over a byte stream, from packets sent to packets received |
| `LinkCrypt` | token layout, block padding (section 6.3 of RFC 5652) and payload limits |
| `AnnouncePacer`, `DataPacer` | announce queue and worker, announce airtime, data pacing slots |
| `Bytes`, `SequenceNumbers`, `Wrappers` | bytes with exclusive or, 16-bit sequence numbers, `Option` and `Result` |

Hashes, signatures, block ciphers, message authentication and key derivation are function
parameters; what a result needs of them (a genuine signature verifies, decryption inverts
encryption, no signature was forged) is a precondition of that result and nothing else is assumed.
Clock readings, random IVs, channel load and packet hashes are inputs of each step.

## Where the code does less than its surroundings suggest

* The channel sender files a message under the hash of its packet as built, with no context
  (`src/channel.rs:308`, `:399`), and then sends the packet with the channel context. The peer proves
  the hash of what it received (`src/destination/link.rs:615-625`), and the hash covers the context
  byte. So a genuine delivery proof names a hash that is not on file and is ignored, unless the hash
  collides (`ChannelOutbound.ProofHonouredIffCollision`, `ChannelOutbound.GenuineProofsIgnoredIffNoCollision`).
  Nothing is ever reported delivered, the window stays at its initial one or two messages, and a
  message that was received and proven every time closes the link at its fifth timeout
  (`ChannelOutbound.ProvenChannelStalls`, `ChannelOutbound.ProvenMessageClosesLink`).
* Key derivation yields at most 8160 bytes; for longer frames the mask is left all zero although
  masking is called mandatory (`src/iface/ifac.rs:35-37`). Such frames go out as they are, and the
  wire form ignores the key exactly for them (`IfacFrame.UnmaskedAboveLimit`,
  `IfacFrame.KeyIgnoredIffAboveLimit`, `IfacFrame.LongPacketInClear`). The round trip still holds.
* A received frame is dropped as too short by a length told from its first byte before unmasking
  (`src/iface/tcp_client.rs:446-456`). Where masking flips the header type bit of a Type1 packet whose
  code and data together are under 16 bytes, the packet is lost: `TcpStream.TakenForShortIff` states
  exactly when, and `TcpStream.KeepaliveLost` what that means for link keepalives.
* The pickle reader has no APPENDS opcode, but the test encoder emits it for arrays with elements.
  `Pickle.RoundTrip` gives the exact outcome for every value.
* `Inbound::receive` keeps a late duplicate of an emitted message on hold, whichever message it is.
  The receiver starts the lap after a wrap clean exactly when there was none
  (`ChannelInbound.RestartsCleanIffNoLateDuplicate`). A late duplicate of message 0 is emitted again
  by the very arrival that wraps (`ChannelInbound.WrapIsCleanIffNoLateDuplicate`,
  `ChannelInbound.DuplicateEmittedTwice`); one of message 1 is emitted one arrival later, in place of
  the new message of that number (`ChannelInbound.DuplicateTakesPlace`).
* A received link packet is decrypted into a buffer sized for the plaintext limit. The CBC decryptor
  of the `cipher` crate (0.4.4, `Cargo.lock:107-108`, not part of this repository) refuses an output
  shorter than the ciphertext, so on links of MTU 548 and more a payload in the last block below the
  limit is not decrypted (`LinkCrypt.PeerDecrypts` states exactly when it is,
  `LinkCrypt.FullPayloadNotDecrypted` a payload that is not).
* `Fernet::encrypt` refuses a buffer of at most 48 bytes, but panics on a longer one that is too
  short for the token (`LinkCrypt.Encrypt`).
* The link check removes stale in-links only: an in-link that its peer or its user has closed stays in
  the table (`LinkLifecycle.DeadInLinkRemoved` states which are removed and when).
* A relay that lowers a signalled MTU rewrites the mode bits too (`LinkSetup.ClampKeepsMode`,
  `LinkSetup.ClampRewritesMode`).
* A request whose signalling was stripped means 500 bytes, even if a later interface takes less
  (`LinkSetup.AgreedMtuSuitsPath`, `LinkSetup.StrippedRequestExceedsPath`).
* `compute_link_mdu` is the exact payload limit only from an MTU of 84 up (`LinkCrypt.MduIsExact`).
* The transmit buffer is said to hold every packet of the largest permitted payload
  (`src/iface.rs:405-410`). It has no room set aside for the access code: a payload within the link
  MDU is sure to be sent only under codes of at most 36 bytes plus what the MTU holds beyond whole
  cipher blocks. Under longer codes (64 bytes are accepted) the longest payloads are never sent
  (`TcpStream.LinkPayloadsFitTxIff`, `TcpStream.FullPayloadNotSent`). The framed buffer, in turn,
  holds whatever fits the serialized one as long as the sizes do not saturate
  (`Hdlc.FrameFitsTxBuffer`).
* A packet serialized longer than the hardware MTU, such as a full link payload under an access code,
  is received however its bytes arrive only if its frame is at most one byte longer than the receive
  buffer; otherwise some way of cutting up the stream loses it (`Hdlc.DeliveredIffCarried`).
* A window tier upgrade can lift the window's lower limit above the window
  (`ChannelOutbound.LowerLimitHolds` states exactly when, `ChannelOutbound.UpgradeOvertakesWindow`
  reaches it), so the sender's invariant bounds the window by 1 and not by that limit.

## Model

| member | source | states |
|---|---|---|
| Reorder.ReadWire | src/destination/link.rs:84-86 | the receiver recovers the position a sender meant from 16 bits exactly inside the half window around the expected one |
| Reorder.ArriveKeeps | src/destination/link.rs:957-1069 | one arrival at any position and clock reading: log strictly sorted, expected is exactly what follows the last position posted, ring distances in 1..16383, stall clock set exactly when the ring is non-empty, nothing posted is retracted, the log changes only by the taken item, the "invalid channel sequence" arm is never reached, a recovery posts everything that waited |
| Reorder.RefusedExactly | src/destination/link.rs:957-1052 | an item is refused if and only if its position is held already or lies behind what is expected once a recovery has been made; what is expected is never refused |
| Reorder.RunIsOrdered | src/destination/link.rs:957-1098 | over any arrivals and clock readings, positions posted strictly increase, so nothing is delivered twice or out of order, and expected is exactly what follows the last of them |
| Reorder.StallClockIsGapSince | src/destination/link.rs:1053-1069 | in every run the stall clock holds the reading of the last arrival that opened the gap or moved delivery on |
| Reorder.NoGapOutlivesTimeout | src/destination/link.rs:974-1000 | an arrival not behind what is expected leaves no gap that has lasted the reorder timeout |
| Reorder.RunLosesNothing | src/destination/link.rs:1036-1098 | in any continuation of a run, posted stays posted and an envelope once buffered is posted or still buffered |
| Reorder.UndisturbedIsInOrder | src/destination/link.rs:957-1098 | with no recovery or jump, for any order, loss and duplication and across wraparounds: posted is exactly positions 0 up to the least one missing, the ring exactly the arrived positions beyond |
| Reorder.ArriveSkips | src/destination/link.rs:974-1034 | an arrival makes the receiver give up positions if and only if it triggers a recovery or a resynchronisation |
| Reorder.GapFreeIffUndisturbed | src/destination/link.rs:957-1098 | over a whole run, delivery has no gap if and only if no arrival triggered a recovery or a resynchronisation |
| ChannelRx.PartitionPoint | src/destination/link.rs:1036-1047 | binary search by distance from the expected sequence finds the one insertion point |
| ChannelRx.CountContiguous | src/destination/link.rs:1082-1090 | the head of the ring that 16-bit comparison takes to be contiguous is the run of consecutive positions |
| ChannelRx.ChannelReceiver.constructor | src/destination/link.rs:354-383 | a new receiver expects sequence 0 with an empty ring and no stall |
| ChannelRx.ChannelReceiver.HandleChannelEnvelope | src/destination/link.rs:957-1069 | the method on 16-bit fields refines the step on positions, verdict included, from every valid state |
| ChannelRx.ChannelReceiver.Place | src/destination/link.rs:1017-1069 | placing an envelope at a given distance: resynchronise, refuse a duplicate, or buffer and deliver, as on positions |
| ChannelRx.ChannelReceiver.FindInRing | src/destination/link.rs:1036-1052 | the ring index found is the item's place in position order, and a sequence match there is exactly a duplicate position |
| ChannelRx.ChannelReceiver.Buffer | src/destination/link.rs:1053-1069 | insertion, contiguous delivery and the stall clock update are the step on positions |
| ChannelRx.ChannelReceiver.FlushChannelRxRing | src/destination/link.rs:1071-1080 | everything buffered is posted in order and the receiver expects what follows the last of it |
| ChannelRx.ChannelReceiver.DeliverContiguousChannelRx | src/destination/link.rs:1082-1098 | exactly the contiguous run at the head is posted; the result tells whether there was one |
| ChannelInbound.DrainRun | src/channel.rs:205-217 | draining towards a missing message emits exactly the contiguous run and keeps everything else on hold |
| ChannelInbound.OutOfWindowExactly | src/channel.rs:184-195 | a sequence number is turned away if and only if it is behind by more than 48, or behind at all where 48 on from it the numbers have wrapped |
| ChannelInbound.LateByAtMost48 | src/channel.rs:184-203 | the late duplicates kept are exactly those at most 48 behind, the last 48 numbers of the lap excepted |
| ChannelInbound.FirstLapInOrder | src/channel.rs:176-218 | for any reordering, duplication, loss and malformed payloads among the first 65536 messages, emitted is exactly the messages before the first missing one; on hold are the later arrivals and the late duplicates, nothing else |
| ChannelInbound.WrapIsCleanIffNoLateDuplicate | src/channel.rs:176-218 | at the arrival that wraps the sequence, emitted is exactly the 65536 messages if message 0 never came late, and message 0 again if it did |
| ChannelInbound.RestartsCleanIffNoLateDuplicate | src/channel.rs:176-218 | after that arrival the receiver is as fresh, nothing on hold and nothing emitted too often, if and only if no message came late |
| ChannelInbound.LateDuplicateTakesPlace | src/channel.rs:205-217 | if message 1 came late and message 0 did not, the next lap's first arrival is followed by the stale message 1 |
| ChannelInbound.DuplicateEmittedTwice | src/channel.rs:188-217 | a concrete run in which each message was sent once and message 0 is emitted twice |
| ChannelInbound.DuplicateTakesPlace | src/channel.rs:188-217 | a concrete run in which message 1 is emitted a second time in place of message 65537 |
| ChannelInbound.Inbound.ReceiveRaw | src/channel.rs:176-218 | the method with its draining loop is the receive function, and the loop ends |
| ChannelOutbound.ParamsKeepSound | src/channel.rs:100-132 | widening, tier upgrades and narrowing keep 1 <= window <= window_max <= 48 and window_min <= window_max |
| ChannelOutbound.TierUpgrades | src/channel.rs:100-132 | the window widens by one below its limit, and the limits rise exactly with the tenth medium or fast round in a row, to 5 and 12 or 16 and 48, never again at a tier reached |
| ChannelOutbound.CountersCountRuns | src/channel.rs:107-131 | over any RTTs the round counters are the lengths of the present runs of fast and medium rounds, at 16 bits |
| ChannelOutbound.TimeoutsNarrow | src/channel.rs:381-388 | any number of timeouts takes the window down by that many, to its lower limit at most, and the upper limit with it, to within four of the lower at most |
| ChannelOutbound.LowerLimitHolds | src/channel.rs:100-132 | from a window at or above its lower limit, an acknowledgement leaves it there if and only if no tier upgrade overtakes the widened window, and a timeout always does |
| ChannelOutbound.UpgradeOvertakesWindow | src/channel.rs:100-132 | ten messages settled at a fast RTT from a fresh sender leave a window of 5 under a lower limit of 16 |
| ChannelOutbound.RunKeeps | src/channel.rs:286-415 | over any mix of sends, proofs of any hashes with any RTT and timeouts, whatever the packet hash: window bounds hold, at most 48 messages are in flight, none is transmitted more than five times |
| ChannelOutbound.RunNumbers | src/channel.rs:286-300 | in every run message i goes out under sequence number i, wrapping at 16 bits, failed sends using up none |
| ChannelOutbound.DeliveredIffProven | src/channel.rs:338-355 | in every run, reported delivered is exactly what was proven while on file |
| ChannelOutbound.RunFiles | src/channel.rs:302-325 | in every reachable state each message in flight is filed under the hash of its packet as built, and that packet went out with the channel context |
| ChannelOutbound.HashedBytesDiffer | src/packet.rs:386-396 | a packet as built and a packet as sent are never hashed over the same bytes |
| ChannelOutbound.ProofHonouredIffCollision | src/channel.rs:338-360 | in every reachable state, a peer's proof of a packet in flight settles its message if and only if the hash collides on the packet as built and as sent |
| ChannelOutbound.GenuineProofsIgnoredIffNoCollision | src/channel.rs:302-360 | in all runs whose proofs are genuine the proofs have no effect at all, if and only if the hash has no collision across the two contexts |
| ChannelOutbound.CollisionSettles | src/channel.rs:338-360 | conversely, from any such collision a genuine run in which a proof has an effect |
| ChannelOutbound.ProvenChannelStalls | src/channel.rs:286-415 | without collisions and with every proof genuine: nothing is ever reported delivered, the window keeps its initial size, 1 on slow links and 2 on others, at most that many messages are in flight, and no more are ever sent while hashes do not repeat |
| ChannelOutbound.ProvenMessageClosesLink | src/channel.rs:362-415 | a message received and proven at each of its five transmissions still closes the link |
| ChannelOutbound.BytesDoNotCollide | src/packet.rs:386-396 | a hash without such collisions exists, so the above is not empty |
| ChannelOutbound.RemovedIsNotResent | src/channel.rs:338-360 | a message whose entry a proof of its filed hash removes is never transmitted again, whatever follows; which proofs do is stated by the rows above |
| ChannelOutbound.Outbound.Enqueue | src/channel.rs:265-336 | a message is sent exactly when the channel is ready with window room, it fits and encryption succeeds; it is filed and its handle given out under the hash taken before the context changes; a failed send gives its sequence number back |
| ChannelOutbound.Outbound.Adjust | src/channel.rs:100-132 | the in-place update of the window parameters is the function the bounds are proved of |
| ChannelOutbound.Outbound.Proof | src/channel.rs:338-360 | a proof of a filed hash removes and reports its message and adapts the window, any other changes nothing |
| ChannelOutbound.Outbound.Timeout | src/channel.rs:362-415 | a timeout narrows the window and retransmits, filed anew under the hash taken before the context changes; the fifth closes the link, an unknown hash changes nothing |
| LinkSetup.SignallingRoundTrip | src/destination/link.rs:60-82 | a signalled MTU is read back modulo 2^21, hence exactly when it has at most 21 bits; the mode always |
| LinkSetup.IdAlongChain | src/destination/link.rs:136-157 | hop counts, clamps, strips and Type1/Type2 rewrites leave the link id the same at every node of any chain |
| LinkSetup.IdOfRetransmission | src/destination/link.rs:455-495 | a request repeated with another MTU asks for the same link |
| LinkSetup.SameIdIffSameLink | src/destination/link.rs:136-157 | the bytes hashed for the link ids of two packets are the same if and only if kind, destination, context and the data up to both public keys are |
| LinkSetup.RequestIdsDiffer | src/destination/link.rs:136-157 | two requests have the same bytes hashed if and only if they are for the same destination with the same keys, whatever they signal |
| LinkSetup.HopsAlongChain | src/transport.rs:4328-4425 | a request crosses a chain if and only if its hops stay within 128; each relay counts once, and the packet that arrives is addressed as the last relay decided, Type2 to a next hop or bare |
| LinkSetup.ChainSignalled | src/transport.rs:4391-4484 | over any chain the request's data stays the same keys with the MTU lowered hop by hop, or stripped |
| LinkSetup.AfterRelaysIsMinimum | src/transport.rs:4427-4475 | the signalled MTU after a chain is the least known one, unless some discovering relay knew no outbound MTU |
| LinkSetup.MtuAtDestination | src/transport.rs:4236-4484 | keys intact, the request that reaches the destination is stripped exactly when a discovering node knew no MTU, and otherwise signals the minimum of the initiator's MTU and every MTU known on the way |
| LinkSetup.AgreedMtuSuitsPath | src/transport.rs:4427-4484 | the agreed MTU exceeds no known interface if and only if every discovering node knew an MTU or no known interface is below 500 |
| LinkSetup.StrippedRequestExceedsPath | src/transport.rs:4464-4484 | a concrete chain on which the ends agree on 500 over an interface of 300 |
| LinkSetup.ClampKeepsMode | src/transport.rs:4427-4475 | a request's mode bits survive a clamp if and only if they were AES-256-CBC or nothing was lowered |
| LinkSetup.ClampRewritesMode | src/transport.rs:4427-4475 | a concrete request whose mode 0 becomes 1 |
| LinkSetup.RequestAcceptedExactly | src/destination/link.rs:389-453 | a link is made of exactly the requests of 64 or 67 bytes with valid keys and the supported mode if signalled, with the MTU they mean |
| LinkSetup.GenuineProofAgrees | src/destination/link.rs:497-534 | the proof a destination makes is accepted by the initiator with the destination's MTU |
| LinkSetup.AcceptedProofAgrees | src/destination/link.rs:1535-1590 | unless signatures are forged, every proof accepted for a link id was made by a link with that id, key and MTU |
| LinkSetup.HandshakeAgrees | src/destination/link.rs:389-534 | over any chain, both ends hold the id the initiator computed and the same MTU once the proof is in, and the proof is a link proof packet addressed to that id |
| LinkLifecycle.StepBinds | src/destination/link.rs:1494-1532 | each operation keeps active and stale links bound, a binding once made, and every activation announced with it |
| LinkLifecycle.StepSpaces | src/destination/link.rs:1254-1277 | each operation keeps keepalives at least 360 s apart |
| LinkLifecycle.LifeHearsBoundInterface | src/destination/link.rs:1483-1532 | over any life, from the moment a link is bound, a packet is let through if and only if it arrives on the interface bound then, which is still the bound one at the end |
| LinkLifecycle.RejectedPacketsLeaveNoTrace | src/destination/link.rs:1494-1532 | any life is the same with all packets from other interfaces and all invalid link proofs left out |
| LinkLifecycle.LifeKeeps | src/destination/link.rs:775-809 | over any life of a link, closing by its user, its peer, the link check or the channel included: bound whenever active or stale, the binding never changes through stale, restart and re-activation, every activation carries it, keepalives stay 360 s apart |
| LinkLifecycle.DeadLinkRemoved | src/transport.rs:4597-4756 | with restarts off and nothing arriving, an out-link is gone by the second check after its deadline and its 725 s limit, however many retransmissions and keepalives were sent |
| LinkLifecycle.DeadInLinkRemoved | src/transport.rs:4549-4591 | when nothing arrives, an active or stale in-link is kept while no check finds it silent for 725 s and is gone from the table, its interface forgotten, by the second check that does; in-links of any other status are never removed |
| LinkLifecycle.OutLinksOfRun | src/transport.rs:4542-4756 | the out-links of a run of all tables are those of the row before it |
| LinkLifecycle.CheckKeepsInStep | src/transport.rs:4588-4591 | a check keeps the maps by link id in step with the tables, and forgets the interface of exactly the links it removes |
| LinkLifecycle.GivenUpExactly | src/transport.rs:4597-4748 | a check gives up exactly closed out-links, those not established in time and, with restarts off, stale ones silent for 725 s |
| LinkLifecycle.GivenUpIsClosed | src/destination/link.rs:1374-1390 | a link given up is closed and says so, if and only if it was not stale or its MTU is at least 100 |
| LinkLifecycle.StaleExactly | src/transport.rs:4552-4623 | links turn stale exactly after 720 s of silence, and stale out-links restart exactly after 60 s where that is on |
| LinkLifecycle.StaleLinkRestarts | src/destination/link.rs:1398-1414 | a restarted link has 30 s in which every check keeps it pending and repeats its request every 6 s |
| LinkLifecycle.NewLinkGetsTimeout | src/destination/link.rs:455-485 | a new out-link is kept until exactly its timeout and repeats its request after 6 s |
| LinkLifecycle.HeardFromIsKept | src/destination/link.rs:1254-1264 | a link that is heard from is kept by every check for the next 725 s |
| LinkLifecycle.NoQuietActiveLink | src/transport.rs:4781-4799 | after a keepalive pass every active link was heard from, or sent a keepalive, less than 360 s ago |
| LinkLifecycle.InLinksSendNoKeepalives | src/transport.rs:4777-4800 | only out-links send keepalives, over whole lives |
| LinkLifecycle.WhatPacketsDo | src/destination/link.rs:705-809 | what each kind of packet let through changes and reports, and that it changes nothing else |
| LinkLifecycle.ProveActivatesOnce | src/destination/link.rs:497-503 | proving activates and says so once, and is idempotent |
| LinkLifecycle.RepeatedRequestRevives | src/transport.rs:4260-4275 | a repeated request proves a live in-link again and counts as hearing from it; a closed one is left alone |
| LinkLifecycle.FailedLinkRediscovered | src/transport.rs:4657-4738 | a link that fails to be established has its path looked for at once; others exactly after 30 s of trying, if their path is neither marked nor asked for |
| LinkLifecycle.LinkObject.Out | src/destination/link.rs:354-383 | a new out-link is pending, unbound, with its deadline and first retry set |
| LinkLifecycle.LinkObject.In | src/destination/link.rs:389-453 | a new in-link is bound to its interface and active, and has said so |
| LinkLifecycle.LinkObject.ProveLink | src/destination/link.rs:497-503 | an in-link becomes active, with an event unless it was |
| LinkLifecycle.LinkObject.TearDown | src/destination/link.rs:1374-1390 | closes the link, or leaves it where the close packet cannot be built |
| LinkLifecycle.LinkObject.HandlePacket | src/destination/link.rs:705-809 | the new state after each kind of packet; activation exactly on a valid proof for a pending link |
| LinkLifecycle.LinkObject.HandlePacketFrom | src/destination/link.rs:1494-1532 | binding before dispatch and reverting afterwards amounts to binding on a valid link proof only |
| LinkLifecycle.LinkObject.Check | src/transport.rs:4600-4748 | the link check's arms as functions of state, clock and what is known of the path, rediscovery included |
| LinkLifecycle.LinkObject.KeepAlive | src/transport.rs:4777-4800 | a keepalive is sent exactly when the link is active and both intervals have passed, and touches no other timer |
| LinkLifecycle.LinkTables.CheckLinks | src/transport.rs:4542-4756 | the check updates every in- and out-link, removes exactly those it gives up from the tables and from the maps by link id, and looks for exactly the paths due |
| LinkLifecycle.LinkTables.CheckInLinks | src/transport.rs:4549-4591 | the in-link loop, in any order of iteration |
| LinkLifecycle.LinkTables.CheckOutLinks | src/transport.rs:4597-4752 | the out-link loop, in any order of iteration |
| Pickle.LeRoundTrip | src/transport.rs:2846-2864 | little-endian integers within their width are read back |
| Pickle.IntegersShortest | src/transport.rs:2712-2733 | exactly 32-bit integers are written, each in the shortest form |
| Pickle.PayloadOverhead | src/transport.rs:2735-2759 | payloads take one byte of length up to 255 and four beyond |
| Pickle.SetItemsGathers | src/transport.rs:2790-2816 | SETITEMS gathers all pairs above the last mark into the dict under it, whatever lies below, marks included |
| Pickle.SetItemsExtends | src/transport.rs:2797-2813 | entries the dict has already are kept, ahead of the new ones |
| Pickle.SetItemsNeeds | src/transport.rs:2790-2816 | SETITEMS succeeds if and only if the stack ends in a dict, a mark and pairs of values |
| Pickle.SetItemAppends | src/transport.rs:2818-2830 | SETITEM appends the key and value on top to the dict under them |
| Pickle.SetItemNeeds | src/transport.rs:2818-2830 | SETITEM succeeds if and only if the stack ends in a dict and two values |
| Pickle.RunValue | src/transport.rs:2618-2788 | running a value encoded by the test encoder from any stack pushes exactly that value and leaves the rest untouched, or stops at the first array with elements |
| Pickle.RunMap | src/transport.rs:2775-2816 | the same for maps with arbitrarily nested keys and values |
| Pickle.RunEach | src/transport.rs:2688-2690 | a dict written entry by entry with SETITEM is built in order, keys and values in place |
| Pickle.FrameSkipped | src/transport.rs:2632-2637 | FRAME and its eight bytes are skipped wherever they stand |
| Pickle.FramedDictReads | src/transport.rs:2618-2696 | a framed document of a dict written entry by entry reads back as that dict |
| Pickle.RoundTrip | src/transport.rs:2618-2788 | a document reads back as its value exactly when no array inside has elements, and otherwise fails on APPENDS |
| PickleReader.FindLastMark | src/transport.rs:2791-2794 | the search from the top finds the topmost mark |
| PickleReader.AppendPairs | src/transport.rs:2801-2813 | the loop appends all pairs in order or reports an odd count |
| PickleReader.PickleSetItems | src/transport.rs:2790-2816 | the stack surgery is the SETITEMS function, errors included |
| PickleReader.Dispatch | src/transport.rs:2626-2691 | each opcode advances the index in bounds and does what the machine's step does |
| PickleReader.ReadPythonPickleValue | src/transport.rs:2618-2696 | on every byte string the indexed loop stays in bounds, ends, and returns what the stack machine does |
| Buffer.OutputBuffer.Write | src/buffer.rs:97-113 | appends all of the data, or nothing when it does not fit |
| Buffer.InputBuffer.Read | src/buffer.rs:208-218 | takes exactly the next bytes, or nothing when too few are left |
| Packet.MetaRoundTrip | src/packet.rs:227-258 | a header survives its byte, hop count aside |
| Packet.ByteRoundTrip | src/packet.rs:227-258 | every byte survives the header it stands for |
| Packet.SameHashIffSamePacket | src/packet.rs:386-396 | the bytes hashed for two packets are the same if and only if kind, destination, context and data are |
| Serde.ParseWire | src/serde.rs:32-132 | every routed packet whose IFAC flag goes with a non-empty IFAC field is read back from its wire form |
| Serde.WireParse | src/serde.rs:32-132 | a packet read off bytes is written back as the same bytes if and only if their flag bit agrees with the expected IFAC and their context byte has a name |
| Serde.ParsesExactly | src/serde.rs:57-132 | bytes parse if and only if the IFAC length is permitted and they reach the data; otherwise which error is stated |
| Serde.WireLenIsLength | src/iface.rs:396-403 | the length the pacers reckon with is the wire length less the IFAC field |
| Serde.SerializeFront | src/serde.rs:33-47 | header, IFAC field and transport id are appended, or the error is that of the first thing to go wrong |
| Serde.Serialize | src/serde.rs:32-55 | succeeds exactly when the packet is consistent and fits, and then appends its wire form; which error, and the count returned, are stated too |
| Serde.DeserializeFront | src/serde.rs:86-117 | reads header, IFAC field and transport id and leaves the rest |
| Serde.DeserializeWithIfacLen | src/serde.rs:86-132 | the cursor reader is the parser, errors included |
| IfacFrame.IfacIsSignatureEnd | src/iface/ifac.rs:112-123 | the access code is the end of the signature, so a shorter code is the end of a longer one |
| IfacFrame.UnmaskedMasked | src/iface/ifac.rs:139-197 | unmasking undoes masking in spite of the forced flag bit, the IFAC field staying in the clear |
| IfacFrame.MaskedUnmasked | src/iface/ifac.rs:139-197 | masking undoes unmasking on every flagged frame whose code verifies |
| IfacFrame.DecodeIffSealed | src/iface/ifac.rs:162-197 | a frame decodes to given bytes if and only if it is the masked and stamped form of those bytes |
| IfacFrame.OtherFramesRefused | src/iface/ifac.rs:162-197 | all other frames are refused, for their form if and only if short or unflagged, for their signature otherwise |
| IfacFrame.UnmaskedAboveLimit | src/iface/ifac.rs:49-53 | every flagged frame above 8160 bytes is its own masked form |
| IfacFrame.KeyIgnoredIffAboveLimit | src/iface/ifac.rs:139-160 | a frame's masked form is the same under every key if and only if the frame is above that limit |
| IfacFrame.LongPacketInClear | src/iface.rs:634-650 | a packet above the limit crosses an access-coded interface in its plain wire form |
| IfacFrame.AttachStamps | src/iface/ifac.rs:112-130 | the signed bytes are the wire form of the bare packet, and stamping them gives the wire form of the attached one |
| IfacFrame.FrameRoundTrip | src/iface.rs:634-671 | for every routed packet and code length 1..64, a sent frame is received as the bare packet under the same code and rejected without one |
| IfacFrame.MaskFrame | src/iface/ifac.rs:139-160 | masks the frame in place and touches nothing after it; refuses short frames unchanged |
| IfacFrame.DecodeFrame | src/iface/ifac.rs:162-197 | the loop over a copy is the decoding function, errors included |
| IfacFrame.EncodeTxInto | src/iface.rs:634-650 | serializing and masking into a buffer gives the frame, or fails exactly when it must or does not fit, with the error of the first thing to go wrong |
| IfacFrame.DecodeRxFrom | src/iface.rs:657-671 | receives exactly what the frame format allows |
| Hdlc.StuffHasNoFlag | src/iface/hdlc.rs:10-28 | stuffed data holds no flag byte and at most doubles |
| Hdlc.UnstuffStuff | src/iface/hdlc.rs:62-96 | decoding undoes stuffing up to the closing flag, whatever follows it |
| Hdlc.FindDecodesFrame | src/iface/hdlc.rs:30-96 | after flag-free junk and before anything, the frame is found at its exact bounds and its slice decodes to the data; it is at most 2n+2 bytes |
| Hdlc.DeframeAppend | src/iface/tcp_client.rs:190-283 | reassembly of a stream does not depend on where it was cut |
| Hdlc.StreamRoundTrip | src/iface/tcp_client.rs:190-283 | payloads whose frames are at most one byte longer than the receive capacity, read in chunks of any sizes, come out whole, in order, none missing or added |
| Hdlc.DeliveredIffCarried | src/iface/tcp_client.rs:190-293 | for reads of any size: payloads come out whole under every cutting of their stream if and only if every frame is at most one byte longer than the receive capacity |
| Hdlc.ShortReads | src/iface/tcp_client.rs:282-290 | where some frame is longer, a cutting into single bytes under which fewer payloads come out than were sent |
| Hdlc.WithinMtuIsCarried | src/iface.rs:449-453 | a payload within the hardware MTU always has such a frame |
| Hdlc.CapacityIsLongestFrame | src/iface.rs:449-453 | unless it saturates, the receive capacity is the length of the longest frame within the hardware MTU |
| Hdlc.Encode | src/iface/hdlc.rs:10-28 | writes the frame, failing exactly when it does not fit |
| Hdlc.FindIn | src/iface/hdlc.rs:30-60 | the scan finds the first two flags |
| Hdlc.Decode | src/iface/hdlc.rs:62-96 | the byte loop is the unstuffing function, and fails exactly when that does or the output does not fit |
| Hdlc.ProcessRead | src/iface/tcp_client.rs:190-283 | one read's loop over the buffer hands on the complete frames and keeps the partial one unless it is oversized |
| Hdlc.FrameFitsTxBuffer | src/iface.rs:434-440 | what fits the serialization buffer fits the HDLC buffer once framed, if and only if the sizes do not saturate |
| Hdlc.TxBufferIsLongestFrame | src/iface.rs:434-440 | unless it saturates, the framed buffer is filled by some frame of the serialized one |
| TcpStream.OutgoingDecodes | src/iface.rs:634-671 | with or without an access code, what a sendable packet is sent as decodes to the bare packet, and its length is known |
| TcpStream.TakenForShortIff | src/iface/tcp_client.rs:446-456 | a sent packet is dropped unread if and only if there is an access code, the packet is Type1, its code and data are under 16 bytes together, and the key stream of its own code flips the type bit |
| TcpStream.StreamDelivers | src/iface/tcp_client.rs:190-340 | packets sent down a stream, read in chunks of any sizes: those that fit the transmit buffers are received once each, in order and bare, but for those dropped unread, provided their frames are at most one byte longer than the receive capacity |
| TcpStream.AllReceivedIff | src/iface/tcp_client.rs:190-340 | all packets given to one end are received at the other under every cutting of the stream, if and only if each fits the transmit buffers, has a frame at most one byte longer than the receive capacity, and is not dropped unread |
| TcpStream.SomethingLost | src/iface/tcp_client.rs:190-340 | where one does not, a cutting under which too few packets are received |
| TcpStream.KeptIsAll | src/iface/tcp_client.rs:211-214 | the packets not dropped unread are all of them, bare and in order, if and only if none is dropped |
| TcpStream.KeepaliveLost | src/destination/link.rs:1167-1185 | under access codes of up to 14 bytes a link keepalive is dropped unread if and only if the key stream of its own code flips the type bit |
| TcpStream.LinkPayloadsFitTxIff | src/iface.rs:405-440 | every payload within a link's MDU fits the transmit buffer with its access code if and only if the longest does, which from an MTU of 84 on means a code of at most 36 + (mtu - 68) mod 16 bytes |
| TcpStream.FullPayloadNotSent | src/iface/tcp_client.rs:335-340 | at an MTU of 500 under a code of 37 bytes no payload of 431 bytes, the whole MDU, fits |
| TcpStream.Transmit | src/iface/tcp_client.rs:313-340 | writes a packet's frame when it fits both transmit buffers and nothing otherwise |
| TcpStream.Receive | src/iface/tcp_client.rs:190-283 | one read hands on the packets of its complete frames that are long enough and decode, and keeps the rest |
| LinkCrypt.UnpadPad | src/crypt/fernet.rs:113-150 | padding is undone and fills whole blocks |
| LinkCrypt.OpenToken | src/crypt/fernet.rs:152-200 | a token always verifies, and decrypts to its text if and only if the buffer holds the padded text |
| LinkCrypt.OpensOnlyTokens | src/crypt/fernet.rs:152-200 | under a cipher that permutes blocks, exactly the genuine tokens of a text open to it |
| LinkCrypt.ForgedTokenRefused | src/crypt/fernet.rs:152-173 | a token whose tag is not the code of its body is refused for its signature, one without a body for its length |
| LinkCrypt.MduIsExact | src/packet.rs:34-43 | the link MDU is the exact payload limit for every payload if and only if the MTU is at least 84, and is 0 below |
| LinkCrypt.SentPacketFits | src/packet.rs:34-43 | for an MTU of at least 84, the sent packet on the wire with the reserved IFAC byte fits the MTU if and only if its payload is within the MDU |
| LinkCrypt.PeerReads | src/destination/link.rs:917-955 | what is read off the wire is a data packet for this link with its context, whose token opens to the payload given room |
| LinkCrypt.PeerDecrypts | src/destination/link.rs:1233-1244 | a payload within the MDU is decrypted by a peer with the same MTU if and only if the MTU is below 548 or the payload is a block below the MDU |
| LinkCrypt.FullPayloadNotDecrypted | src/destination/link.rs:1233-1244 | at an MTU of 548 no payload of the whole MDU, 479 bytes, is decrypted |
| LinkCrypt.Encrypt | src/crypt/fernet.rs:113-150 | filling the buffer stage by stage leaves exactly the token at its front; a buffer of at most 48 bytes is refused untouched, and the call panics exactly on a longer one too short for the token |
| LinkCrypt.EncryptedDataPacket | src/destination/link.rs:917-955 | refused when the link is down or the payload exceeds the MDU; otherwise the buffer acquired is always large enough and the packet carries the token |
| AnnouncePacer.CapIsPositive | src/iface.rs:1149-1166 | the effective cap stays positive and never exceeds the announce cap, at any channel load |
| AnnouncePacer.CapFallsWithLoad | src/iface.rs:1149-1166 | the cap never rises with load, is whole exactly up to 30 percent and a tenth exactly from 50, and falls evenly in between |
| AnnouncePacer.PacedExactly | src/iface.rs:1168-1179 | an announce is paced if and only if bitrate and cap are positive and it can be serialized |
| AnnouncePacer.WaitIsBits | src/iface.rs:1179-1183 | airtime is eight bits a byte over the bitrate, and the wait that airtime at the effective cap |
| AnnouncePacer.WaitCovers | src/iface.rs:1168-1183 | the wait of a paced announce covers its airtime at the announce cap |
| AnnouncePacer.MinHopsIsFirst | src/iface.rs:1276-1281 | the minimum found is the earliest queued among the announces of fewest hops |
| AnnouncePacer.PollReleasesFirst | src/iface.rs:1266-1303 | a live worker allowed to send releases that announce, and ends only on an empty queue |
| AnnouncePacer.RunAgrees | src/iface.rs:1194-1312 | over all interleavings: queue duplicate-free with exactly the map's keys, at most 16384 long, one live worker exactly while the timer is active, and always while something is queued and nothing stopped |
| AnnouncePacer.QueuedIsLatest | src/iface.rs:1215-1221 | every queued entry is the latest announce sent for its destination |
| AnnouncePacer.SendIsFiled | src/iface.rs:1205-1222 | a paced announce is released at once if nothing waits and the clock allows, and is otherwise on file for its destination afterwards, unless 16384 others are queued |
| AnnouncePacer.EveryAnnounceAccounted | src/iface.rs:1194-1312 | in any run, every paced announce sent has since been released, or is on file, or was replaced by a later one while on file, or met a full queue without its destination |
| AnnouncePacer.AnnouncesConserved | src/iface.rs:1194-1312 | in any run, the paced announces sent are as many as those released, queued, replaced and refused |
| AnnouncePacer.RunOldestFirst | src/iface.rs:1215-1221 | in every run the queue is in the order in which its destinations were queued |
| AnnouncePacer.ReleaseIsLatestAndFirst | src/iface.rs:1255-1312 | each release of a run is the latest announce of its destination, and every other queued one has more hops, or as many and a destination queued for a shorter time |
| AnnouncePacer.RunSpaced | src/iface.rs:1205-1289 | over all interleavings, each paced release keeps its predecessor's wait, immediate and queued ones alike |
| AnnouncePacer.AirtimeIsBits | src/iface.rs:1168-1183 | the airtime of releases is eight bits for each byte of them at the bitrate |
| AnnouncePacer.AirtimeBound | src/iface.rs:1149-1289 | in any run under any load changes, the airtime of the first n paced announces is at most the announce cap's share of the time up to the next one |
| AnnouncePacer.PacerState.constructor | src/iface.rs:1123-1138 | a new pacer has an empty queue, no worker, and may send at once |
| AnnouncePacer.PacerState.Send | src/iface.rs:1194-1252 | sends at once exactly when unpaced, or when nothing waits and the clock allows; otherwise queues or replaces, and starts a worker exactly when none runs |
| AnnouncePacer.PacerState.FindMinHops | src/iface.rs:1276-1281 | the scan of the queue finds its first announce of fewest hops |
| AnnouncePacer.PacerState.Poll | src/iface.rs:1266-1311 | one pass of the worker: it sleeps exactly until the clock allows, forwards the first announce, or ends with the timer off |
| DataPacer.WhereMessagesGo | src/iface.rs:2108-2129 | a message sent to an address goes to its interfaces alone, one excluding it to all others, a broadcast to all; it is paced wherever it goes on running interfaces with a bitrate, announces excepted |
| DataPacer.AirtimeIsBits | src/iface.rs:2126-2129 | airtime is eight bits a byte of the wire form over the bitrate |
| DataPacer.HalfTheTimeIsFree | src/iface.rs:2105-2154 | over any stretch of any run, whatever clock and bitrate do, the slots given out advance by at least twice the airtime reserved |
| DataPacer.SlotIsLongestBusyPeriod | src/iface.rs:2135-2147 | a slot is no later than it must be: it is the largest, over earlier messages, of that message's time plus the airtime doubled since |
| DataPacer.SendPacingDelay | src/iface.rs:2105-2154 | each matching interface takes its next slot and no other changes; the delay reaches every matching interface's slot and is some interface's exact wait |

## Left out

- Sockets, tokio tasks, select loops, locks and cancellation: each step done under a lock is one operation, and runs are arbitrary interleavings of operations.
- A method that reads the clock several times reads it once here, and every time the clock is read anew it may show anything.
- Announce and data pacing use exact reals; rounding to floating point and to nanosecond durations is not modelled. RTT thresholds of the window are reals as well.
- ChannelOutbound: a peer that was not asked to prove messages sends no proofs, which is the case of runs without any; delivery watchers are left out.
- Retransmission timeouts, jitter, logging, metrics and the queue-length warnings.
- The packet kinds a link handles besides those that change its state: requests, responses, resources, RTT and identify packets appear as one kind that refreshes the activity timer, posts an event, or both.
- Sending packets in the link check, marking a path unresponsive and dropping it there, and sending the path requests.
- LinkLifecycle.LinkTables.CheckLinks: links are values in the table, not shared objects behind locks, and their ids and what is known of paths are inputs.
- LinkSetup: routing decides a relay's next hop and remaining hops, which are inputs; path, link, announce and reverse tables and deduplication are not modelled.
- Pickle: the encoder, which the source compiles for its tests only, appends to a vector there and is a function here; MessagePack coding and the RPC dispatch are left out. Pickle.RoundTrip covers strings below 2^32 bytes, beyond which the encoder truncates the length.
- Pickle integers: the source's integers have 64 bits, the model's are unbounded and refused outside 32 bits like the source's.
- Hdlc.ProcessRead: payloads are handed on whole; TcpStream.Receive adds the length check and packet decoding the source does in the same loop. Other interfaces' copies of the loop are not repeated.
- Packet data buffers (growing, clearing) are sequences; `StaticBuffer` and the fixed-size read of `InputBuffer` are left out.
- Hex conversion, reconnect backoff, interface modes, the interface index, ingress limits, LoRa drivers, the firmware tool, announce building and validation, resource transfer.
