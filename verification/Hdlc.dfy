/** HDLC byte stuffing (section 4.2 of RFC 1662) and the reassembly of frames from a byte stream. */
module Hdlc {
  import opened Bytes
  import opened Wrappers
  import opened Buffer
  import opened Packet

  const FLAG: byte := 0x7e
  const ESCAPE: byte := 0x7d
  const MASK: byte := 0x20

  // ----- the format

  function StuffByte(b: byte): seq<byte> {
    if b == FLAG || b == ESCAPE then [ESCAPE, Xor(b, MASK)] else [b]
  }

  function Stuff(data: seq<byte>): seq<byte> {
    if data == [] then [] else StuffByte(data[0]) + Stuff(data[1..])
  }

  function Frame(data: seq<byte>): seq<byte> {
    [FLAG] + Stuff(data) + [FLAG]
  }

  /** Index of the first flag at or after `i`, or the length. */
  function NextFlag(data: seq<byte>, i: nat): (k: nat)
    requires i <= |data|
    ensures i <= k <= |data|
    ensures forall j | i <= j < k :: data[j] != FLAG
    ensures k < |data| ==> data[k] == FLAG
    decreases |data| - i
  {
    if i == |data| || data[i] == FLAG then i else NextFlag(data, i + 1)
  }

  /** Bounds of the first frame: the first two flags. */
  function Find(data: seq<byte>): Option<(nat, nat)> {
    var s := NextFlag(data, 0);
    if s == |data| then None
    else
      var e := NextFlag(data, s + 1);
      if e == |data| then None else Some((s, e))
  }

  /** What decoding puts out up to the closing flag; an error without one. */
  function Unstuff(data: seq<byte>, started: bool, escape: bool): Result<seq<byte>, RnsError> {
    if data == [] then Err(OutOfMemory)
    else if !escape && data[0] == FLAG then
      if started then Ok([]) else Unstuff(data[1..], true, false)
    else if !escape && data[0] == ESCAPE then Unstuff(data[1..], started, true)
    else
      var tail :- Unstuff(data[1..], started, false);
      Ok([if escape then Xor(data[0], MASK) else data[0]] + tail)
  }

  lemma EscapedBytes()
    ensures Xor(FLAG, MASK) == 0x5e && Xor(ESCAPE, MASK) == 0x5d
  {}

  lemma {:induction false} StuffHasNoFlag(data: seq<byte>)
    ensures forall b | b in Stuff(data) :: b != FLAG
    ensures |data| <= |Stuff(data)| <= 2 * |data|
  {
    if data != [] {
      EscapedBytes();
      StuffHasNoFlag(data[1..]);
    }
  }

  /** One stuffed byte is read back. */
  lemma UnstuffByte(b: byte, tail: seq<byte>)
    requires Unstuff(tail, true, false).Ok?
    ensures Unstuff(StuffByte(b) + tail, true, false) == Ok([b] + Unstuff(tail, true, false).value)
  {
    hide Xor;
    var all := StuffByte(b) + tail;
    if b == FLAG || b == ESCAPE {
      assert all[1..] == [Xor(b, MASK)] + tail && all[1..][1..] == tail;
      XorCancel(b, MASK);
    } else {
      assert all[1..] == tail;
    }
  }

  lemma {:induction false} UnstuffStuff(data: seq<byte>, rest: seq<byte>)
    ensures Unstuff(Stuff(data) + ([FLAG] + rest), true, false) == Ok(data)
  {
    if data == [] {
      assert [] + ([FLAG] + rest) == [FLAG] + rest;
    } else {
      UnstuffStuff(data[1..], rest);
      hide Unstuff, StuffByte;
      var tail := Stuff(data[1..]) + ([FLAG] + rest);
      assert Stuff(data) + ([FLAG] + rest) == StuffByte(data[0]) + tail;
      UnstuffByte(data[0], tail);
      assert [data[0]] + data[1..] == data;
    }
  }

  lemma NextFlagIs(data: seq<byte>, i: nat, k: nat)
    requires i <= k < |data| && data[k] == FLAG
    requires forall j | i <= j < k :: data[j] != FLAG
    ensures NextFlag(data, i) == k
  {}

  /** Where a frame's content lies in a stream. */
  lemma FrameAt(junk: seq<byte>, inner: seq<byte>, rest: seq<byte>)
    ensures var (stream, k, e) := (junk + ([FLAG] + inner + [FLAG]) + rest, |junk|, |junk| + |inner| + 1);
      && |stream| > e && stream[k] == FLAG && stream[e] == FLAG
      && stream[..k] == junk && stream[k + 1..e] == inner
      && stream[k..e + 1] == [FLAG] + inner + [FLAG] && stream[e + 1..] == rest
  {}

  lemma TwoFlags(stream: seq<byte>, s: nat, e: nat)
    requires s < e < |stream| && stream[s] == FLAG && stream[e] == FLAG
    requires FLAG !in stream[..s] && FLAG !in stream[s + 1..e]
    ensures Find(stream) == Some((s, e))
  {
    forall j | 0 <= j < s ensures stream[j] != FLAG {
      assert stream[j] == stream[..s][j];
    }
    forall j | s + 1 <= j < e ensures stream[j] != FLAG {
      assert stream[j] == stream[s + 1..e][j - s - 1];
    }
    NextFlagIs(stream, 0, s);
    NextFlagIs(stream, s + 1, e);
  }

  lemma FindFrame(junk: seq<byte>, data: seq<byte>, rest: seq<byte>)
    requires FLAG !in junk
    ensures var (stream, k, e) := (junk + Frame(data) + rest, |junk|, |junk| + |Stuff(data)| + 1);
      && Find(stream) == Some((k, e))
      && stream[k..e + 1] == Frame(data) && stream[e + 1..] == rest
  {
    hide Stuff, Find;
    StuffHasNoFlag(data);
    FrameAt(junk, Stuff(data), rest);
    TwoFlags(junk + Frame(data) + rest, |junk|, |junk| + |Stuff(data)| + 1);
  }

  lemma FrameDecodes(data: seq<byte>)
    ensures Unstuff(Frame(data), false, false) == Ok(data)
  {
    UnstuffStuff(data, []);
    assert Frame(data)[1..] == Stuff(data) + ([FLAG] + []);
  }

  /**
    The frame is found at its exact bounds after flag-free junk and before anything, and its slice
    decodes to the data.
   */
  lemma FindDecodesFrame(junk: seq<byte>, data: seq<byte>, rest: seq<byte>)
    requires FLAG !in junk
    ensures var (stream, n) := (junk + Frame(data) + rest, |junk| + |Frame(data)|);
      && Find(stream) == Some((|junk|, n - 1))
      && Unstuff(stream[|junk|..n], false, false) == Ok(data)
      && |Frame(data)| <= 2 * |data| + 2
  {
    StuffHasNoFlag(data);
    FindFrame(junk, data, rest);
    FrameDecodes(data);
  }

  // ----- reassembly

  /** The payload of a found frame, if it decodes. */
  function Payload(frame: seq<byte>): seq<seq<byte>> {
    match Unstuff(frame, false, false) case Ok(payload) => [payload] case Err(_) => []
  }

  /** The payloads of the complete frames in a buffer, and what is left after the last of them. */
  function Deframe(buffer: seq<byte>): (r: (seq<seq<byte>>, seq<byte>))
    ensures |r.1| <= |buffer|
    decreases |buffer|
  {
    match Find(buffer)
    case None => ([], buffer)
    case Some((s, e)) =>
      var (payloads, rest) := Deframe(buffer[e + 1..]);
      (Payload(buffer[s..e + 1]) + payloads, rest)
  }

  lemma {:induction false} NextFlagPrefix(a: seq<byte>, b: seq<byte>, i: nat)
    requires i <= |a| && NextFlag(a, i) < |a|
    ensures NextFlag(a + b, i) == NextFlag(a, i)
    decreases |a| - i
  {
    if a[i] != FLAG {
      NextFlagPrefix(a, b, i + 1);
    }
  }

  lemma FindPrefix(a: seq<byte>, b: seq<byte>)
    requires Find(a).Some?
    ensures Find(a + b) == Find(a) && Find(a).value.0 < Find(a).value.1 < |a|
  {
    NextFlagPrefix(a, b, 0);
    NextFlagPrefix(a, b, NextFlag(a, 0) + 1);
  }

  lemma {:induction false} DeframeStep(buffer: seq<byte>, s: nat, e: nat)
    requires Find(buffer) == Some((s, e)) && s < e < |buffer|
    ensures var tail := Deframe(buffer[e + 1..]);
      Deframe(buffer) == (Payload(buffer[s..e + 1]) + tail.0, tail.1)
  {}

  /** Reading on never changes what has been read: a stream may be cut anywhere. */
  lemma {:induction false} DeframeAppend(a: seq<byte>, b: seq<byte>)
    ensures Deframe(a + b).0 == Deframe(a).0 + Deframe(Deframe(a).1 + b).0
    ensures Deframe(a + b).1 == Deframe(Deframe(a).1 + b).1
    decreases |a|
  {
    if Find(a).None? {
      assert [] + Deframe(a + b).0 == Deframe(a + b).0;
    } else {
      FindPrefix(a, b);
      hide Find, Payload, Deframe;
      var (s, e) := Find(a).value;
      var (first, tail) := (Payload(a[s..e + 1]), a[e + 1..]);
      assert (a + b)[s..e + 1] == a[s..e + 1];
      assert (a + b)[e + 1..] == tail + b;
      DeframeAppend(tail, b);
      DeframeStep(a + b, s, e);
      DeframeStep(a, s, e);
      Regroup(first, Deframe(tail).0, Deframe(Deframe(tail).1 + b).0);
    }
  }

  /**
    What one read of the stream does: take in the bytes, hand on the payloads, keep the partial
    frame unless it is oversized.
   */
  function Read(capacity: nat, buffer: seq<byte>, bytes: seq<byte>): (seq<seq<byte>>, seq<byte>) {
    var (payloads, rest) := Deframe(buffer + bytes);
    (payloads, if |rest| > capacity then [] else rest)
  }

  function ReadAll(capacity: nat, buffer: seq<byte>, chunks: seq<seq<byte>>): seq<seq<byte>>
    decreases |chunks|
  {
    if chunks == [] then []
    else
      var (payloads, rest) := Read(capacity, buffer, chunks[0]);
      payloads + ReadAll(capacity, rest, chunks[1..])
  }

  function Concat(parts: seq<seq<byte>>): seq<byte> {
    if parts == [] then [] else parts[0] + Concat(parts[1..])
  }

  function Stream(payloads: seq<seq<byte>>): seq<byte> {
    if payloads == [] then [] else Frame(payloads[0]) + Stream(payloads[1..])
  }

  const USIZE_MAX := 0xffff_ffff_ffff_ffff

  function Saturate(n: nat): nat {
    if n > USIZE_MAX then USIZE_MAX else n
  }

  /** The receive buffer's capacity for a hardware MTU. */
  function RxFrameCapacity(hwMtu: nat): nat {
    Saturate(Saturate(hwMtu * 2) + 2)
  }

  /** Unless it saturates, the capacity is the length of the longest frame of a payload within the hardware MTU. */
  lemma CapacityIsLongestFrame(hwMtu: nat)
    requires 2 * hwMtu + 2 <= USIZE_MAX
    ensures forall payload: seq<byte> | |payload| <= hwMtu :: |Frame(payload)| <= RxFrameCapacity(hwMtu)
    ensures exists payload: seq<byte> :: |payload| == hwMtu && |Frame(payload)| == RxFrameCapacity(hwMtu)
  {
    forall payload: seq<byte> | |payload| <= hwMtu ensures |Frame(payload)| <= RxFrameCapacity(hwMtu) {
      StuffHasNoFlag(payload);
    }
    var worst: seq<byte> := seq(hwMtu, _ => FLAG);
    StuffFlags(worst);
    assert |Frame(worst)| == RxFrameCapacity(hwMtu);
  }

  /** A frame the receive buffer holds until its last byte comes in. */
  predicate Carried(payload: seq<byte>, capacity: nat) {
    |Frame(payload)| <= capacity + 1
  }

  /** What fits the hardware MTU is carried, as long as the capacity does not saturate short of it. */
  lemma WithinMtuIsCarried(payload: seq<byte>, hwMtu: nat)
    requires |payload| <= hwMtu && 2 * |payload| + 1 <= USIZE_MAX
    ensures Carried(payload, RxFrameCapacity(hwMtu))
  {
    StuffHasNoFlag(payload);
  }

  /** A frame cut short is no frame, and fits the buffer if the frame is carried. */
  lemma PartialFrame(data: seq<byte>, cut: seq<byte>, capacity: nat)
    requires cut <= Frame(data) && |cut| < |Frame(data)|
    ensures Deframe(cut) == ([], cut)
    ensures Carried(data, capacity) ==> |cut| <= capacity
  {
    FewFlags(data, cut);
  }

  lemma FewFlags(data: seq<byte>, cut: seq<byte>)
    requires cut <= Frame(data) && |cut| < |Frame(data)|
    ensures Find(cut) == None
  {
    StuffHasNoFlag(data);
    var f := Frame(data);
    assert forall i | 1 <= i < |cut| :: cut[i] == f[i] == Stuff(data)[i - 1] && Stuff(data)[i - 1] in Stuff(data);
    if cut != [] {
      assert cut[0] == FLAG;
    }
  }

  lemma DeframeFirst(payload: seq<byte>, rest: seq<byte>)
    ensures Deframe(Frame(payload) + rest) == ([payload] + Deframe(rest).0, Deframe(rest).1)
  {
    FindFrame([], payload, rest);
    FrameDecodes(payload);
    assert [] + Frame(payload) + rest == Frame(payload) + rest;
    hide Unstuff, Find, Frame;
  }

  /** Any prefix of a stream of frames leaves a partial frame that the buffer can hold. */
  lemma {:induction false} PrefixRest(payloads: seq<seq<byte>>, cut: seq<byte>, capacity: nat)
    requires cut <= Stream(payloads)
    requires forall p | p in payloads :: Carried(p, capacity)
    ensures |Deframe(cut).1| <= capacity
    ensures cut == Stream(payloads) ==> Deframe(cut) == (payloads, [])
    decreases |payloads|
  {
    if payloads != [] {
      var (f, later) := (Frame(payloads[0]), Stream(payloads[1..]));
      assert Stream(payloads) == f + later;
      hide Deframe, Frame, Stream;
      CutPoint(f, later, cut);
      if |cut| < |f| {
        PartialFrame(payloads[0], cut, capacity);
      } else {
        DeframeFirst(payloads[0], cut[|f|..]);
        PrefixRest(payloads[1..], cut[|f|..], capacity);
        assert payloads == [payloads[0]] + payloads[1..];
      }
    }
  }

  lemma CutPoint(first: seq<byte>, later: seq<byte>, cut: seq<byte>)
    requires cut <= first + later
    ensures |cut| < |first| ==> cut <= first && cut != first + later
    ensures |cut| >= |first| ==>
      var tail := cut[|first|..];
      cut == first + tail && tail <= later && (cut == first + later <==> tail == later)
  {}

  lemma {:induction false} ReadAllIsDeframe(
      capacity: nat, payloads: seq<seq<byte>>, before: seq<byte>, chunks: seq<seq<byte>>)
    requires before + Concat(chunks) == Stream(payloads)
    requires forall p | p in payloads :: Carried(p, capacity)
    ensures Deframe(before).0 + ReadAll(capacity, Deframe(before).1, chunks) == payloads
    decreases |chunks|
  {
    hide Deframe, Stream;
    if chunks == [] {
      assert before + [] == before;
      PrefixRest(payloads, before, capacity);
      assert payloads + [] == payloads;
    } else {
      var after := before + chunks[0];
      assert before + (chunks[0] + Concat(chunks[1..])) == after + Concat(chunks[1..]);
      PrefixRest(payloads, after, capacity);
      DeframeAppend(before, chunks[0]);
      ReadAllIsDeframe(capacity, payloads, after, chunks[1..]);
      Regroup(Deframe(before).0, Deframe(Deframe(before).1 + chunks[0]).0,
        ReadAll(capacity, Deframe(after).1, chunks[1..]));
    }
  }

  /** Carried frames, read in chunks of any sizes, come out whole, in order, none missing and none added. */
  lemma StreamRoundTrip(capacity: nat, payloads: seq<seq<byte>>, chunks: seq<seq<byte>>)
    requires Concat(chunks) == Stream(payloads)
    requires forall p | p in payloads :: Carried(p, capacity)
    ensures ReadAll(capacity, [], chunks) == payloads
  {
    hide Deframe, ReadAll, Stream, Carried, Concat;
    assert [] + Concat(chunks) == Concat(chunks);
    DeframeNothing();
    ReadAllIsDeframe(capacity, payloads, [], chunks);
    assert [] + ReadAll(capacity, [], chunks) == ReadAll(capacity, [], chunks);
  }

  // ----- frames too large for the receive buffer

  function Flags(bytes: seq<byte>): nat {
    if bytes == [] then 0 else (if bytes[0] == FLAG then 1 else 0) + Flags(bytes[1..])
  }

  lemma {:induction false} FlagsConcat(a: seq<byte>, b: seq<byte>)
    ensures Flags(a + b) == Flags(a) + Flags(b)
  {
    if a == [] {
      assert a + b == b;
    } else {
      assert (a + b)[1..] == a[1..] + b;
      FlagsConcat(a[1..], b);
    }
  }

  lemma {:induction false} NoFlags(bytes: seq<byte>)
    requires FLAG !in bytes
    ensures Flags(bytes) == 0
  {
    if bytes != [] {
      NoFlags(bytes[1..]);
    }
  }

  lemma FlagsOfFrame(data: seq<byte>)
    ensures Flags(Frame(data)) == 2
  {
    hide Stuff;
    StuffHasNoFlag(data);
    NoFlags(Stuff(data));
    FlagsConcat([FLAG], Stuff(data));
    FlagsConcat([FLAG] + Stuff(data), [FLAG]);
  }

  lemma {:induction false} FlagsOfStream(payloads: seq<seq<byte>>)
    ensures Flags(Stream(payloads)) == 2 * |payloads|
  {
    if payloads != [] {
      hide Frame, Flags;
      FlagsOfFrame(payloads[0]);
      FlagsConcat(Frame(payloads[0]), Stream(payloads[1..]));
      FlagsOfStream(payloads[1..]);
    }
  }

  lemma FlagAt(bytes: seq<byte>, i: nat)
    requires i < |bytes| && bytes[i] == FLAG
    ensures Flags(bytes) >= 1 + Flags(bytes[i + 1..])
  {
    FlagsConcat(bytes[..i], bytes[i..]);
    assert bytes == bytes[..i] + bytes[i..] && bytes[i..][1..] == bytes[i + 1..];
  }

  lemma FindFlags(buffer: seq<byte>, s: nat, e: nat)
    requires Find(buffer) == Some((s, e))
    ensures s < e < |buffer| && Flags(buffer) >= 2 + Flags(buffer[e + 1..])
  {
    hide Flags;
    FindPrefix(buffer, []);
    FlagAt(buffer, s);
    FlagAt(buffer[s + 1..], e - s - 1);
    assert buffer[s + 1..][e - s..] == buffer[e + 1..];
  }

  /** Every frame taken out of a buffer uses up two flags. */
  lemma {:induction false} DeframeFlags(buffer: seq<byte>)
    ensures 2 * |Deframe(buffer).0| + Flags(Deframe(buffer).1) <= Flags(buffer)
    decreases |buffer|
  {
    hide Flags, Find, Unstuff;
    if Find(buffer).Some? {
      var (s, e) := Find(buffer).value;
      FindFlags(buffer, s, e);
      DeframeFlags(buffer[e + 1..]);
    }
  }

  /** The buffer after some reads. */
  function Leftover(capacity: nat, buffer: seq<byte>, chunks: seq<seq<byte>>): seq<byte>
    decreases |chunks|
  {
    if chunks == [] then buffer else Leftover(capacity, Read(capacity, buffer, chunks[0]).1, chunks[1..])
  }

  lemma {:induction false} ReadAllFlags(capacity: nat, buffer: seq<byte>, chunks: seq<seq<byte>>)
    ensures 2 * |ReadAll(capacity, buffer, chunks)| <= Flags(buffer) + Flags(Concat(chunks))
    decreases |chunks|
  {
    hide Flags, Deframe;
    if chunks != [] {
      FlagsConcat(buffer, chunks[0]);
      FlagsConcat(chunks[0], Concat(chunks[1..]));
      DeframeFlags(buffer + chunks[0]);
      NoFlags([]);
      ReadAllFlags(capacity, Read(capacity, buffer, chunks[0]).1, chunks[1..]);
    }
  }

  lemma {:induction false} ReadAllSplit(capacity: nat, buffer: seq<byte>, a: seq<seq<byte>>, b: seq<seq<byte>>)
    ensures ReadAll(capacity, buffer, a + b)
      == ReadAll(capacity, buffer, a) + ReadAll(capacity, Leftover(capacity, buffer, a), b)
    ensures Leftover(capacity, buffer, a + b) == Leftover(capacity, Leftover(capacity, buffer, a), b)
    decreases |a|
  {
    hide Read;
    if a == [] {
      assert a + b == b && [] + ReadAll(capacity, buffer, b) == ReadAll(capacity, buffer, b);
    } else {
      var (payloads, rest) := Read(capacity, buffer, a[0]);
      assert (a + b)[0] == a[0] && (a + b)[1..] == a[1..] + b;
      ReadAllSplit(capacity, rest, a[1..], b);
      Regroup(payloads, ReadAll(capacity, rest, a[1..]), ReadAll(capacity, Leftover(capacity, rest, a[1..]), b));
    }
  }

  /** A stream delivered one byte at a time. */
  function Singles(bytes: seq<byte>): seq<seq<byte>> {
    if bytes == [] then [] else Singles(bytes[..|bytes| - 1]) + [[bytes[|bytes| - 1]]]
  }

  lemma {:induction false} ConcatSplit(a: seq<seq<byte>>, b: seq<seq<byte>>)
    ensures Concat(a + b) == Concat(a) + Concat(b)
    decreases |a|
  {
    if a == [] {
      assert a + b == b;
    } else {
      assert (a + b)[1..] == a[1..] + b;
      ConcatSplit(a[1..], b);
      Regroup(a[0], Concat(a[1..]), Concat(b));
    }
  }

  lemma {:induction false} SinglesConcat(bytes: seq<byte>)
    ensures Concat(Singles(bytes)) == bytes
    ensures forall c | c in Singles(bytes) :: |c| == 1
  {
    if bytes != [] {
      var (init, last) := (bytes[..|bytes| - 1], [bytes[|bytes| - 1]]);
      SinglesConcat(init);
      ConcatSplit(Singles(init), [last]);
      assert Concat([last]) == last + Concat([]) == last;
      assert init + last == bytes;
    }
  }

  /** Byte by byte, the buffer holds what the frames so far leave over, as long as that has always fitted. */
  lemma {:induction false} SinglesLeftover(capacity: nat, bytes: seq<byte>)
    requires forall j | 0 <= j < |bytes| :: |Deframe(bytes[..j]).1| <= capacity
    ensures Leftover(capacity, [], Singles(bytes))
      == if |Deframe(bytes).1| <= capacity then Deframe(bytes).1 else []
  {
    hide Deframe;
    if bytes == [] {
      DeframeNothing();
    } else {
      var (init, last) := (bytes[..|bytes| - 1], [bytes[|bytes| - 1]]);
      forall j | 0 <= j < |init| ensures |Deframe(init[..j]).1| <= capacity {
        assert init[..j] == bytes[..j];
      }
      SinglesLeftover(capacity, init);
      assert |Deframe(bytes[..|bytes| - 1]).1| <= capacity;
      ReadAllSplit(capacity, [], Singles(init), [last]);
      DeframeAppend(init, last);
      assert init + last == bytes;
      assert Leftover(capacity, Deframe(init).1, [last]) == Read(capacity, Deframe(init).1, last).1;
    }
  }

  lemma DeframeNothing()
    ensures Deframe([]) == ([], [])
  {}

  lemma {:induction false} StreamSplit(a: seq<seq<byte>>, b: seq<seq<byte>>)
    ensures Stream(a + b) == Stream(a) + Stream(b)
    decreases |a|
  {
    hide Frame;
    if a == [] {
      assert a + b == b;
    } else {
      assert (a + b)[1..] == a[1..] + b;
      StreamSplit(a[1..], b);
      Regroup(Frame(a[0]), Stream(a[1..]), Stream(b));
    }
  }

  /** The bytes of a stream up to where a frame in it has outgrown the buffer, and the rest. */
  function Outgrown(capacity: nat, before: seq<seq<byte>>, payload: seq<byte>): seq<byte>
    requires !Carried(payload, capacity)
  {
    Stream(before) + Frame(payload)[..capacity + 1]
  }

  function Outstanding(capacity: nat, payload: seq<byte>, after: seq<seq<byte>>): seq<byte>
    requires !Carried(payload, capacity)
  {
    Frame(payload)[capacity + 1..] + Stream(after)
  }

  /** Up to one byte too many of a frame that is not carried, behind frames that are: all of it is dropped. */
  lemma OversizedDropped(capacity: nat, before: seq<seq<byte>>, payload: seq<byte>)
    requires forall p | p in before :: Carried(p, capacity)
    requires !Carried(payload, capacity)
    ensures Leftover(capacity, [], Singles(Outgrown(capacity, before, payload))) == []
  {
    hide Deframe, Stream, Frame;
    var (s, f) := (Stream(before), Frame(payload));
    var bytes := s + f[..capacity + 1];
    PrefixRest(before, s, capacity);
    forall j | 0 <= j <= |bytes|
      ensures |Deframe(bytes[..j]).1| <= if j < |bytes| then capacity else capacity + 1
      ensures j == |bytes| ==> |Deframe(bytes[..j]).1| == capacity + 1
    {
      if j < |s| {
        assert bytes[..j] == s[..j];
        PrefixRest(before, s[..j], capacity);
      } else {
        var cut := f[..j - |s|];
        assert bytes[..j] == s + cut && [] + cut == cut;
        DeframeAppend(s, cut);
        PartialFrame(payload, cut, capacity);
      }
    }
    assert bytes[..|bytes|] == bytes;
    SinglesLeftover(capacity, bytes);
  }

  lemma CutAt<T>(s: seq<T>, f: seq<T>, t: seq<T>, i: nat)
    requires i <= |f|
    ensures s + f[..i] + (f[i..] + t) == s + f + t
  {
    assert f == f[..i] + f[i..];
  }

  lemma WholeStream(capacity: nat, before: seq<seq<byte>>, payload: seq<byte>, after: seq<seq<byte>>)
    requires !Carried(payload, capacity)
    ensures Outgrown(capacity, before, payload) + Outstanding(capacity, payload, after)
      == Stream(before + [payload] + after)
  {
    hide Stream, Frame;
    StreamOf(payload);
    StreamSplit(before, [payload]);
    StreamSplit(before + [payload], after);
    CutAt(Stream(before), Frame(payload), Stream(after), capacity + 1);
  }

  lemma FlagsEitherSide(capacity: nat, before: seq<seq<byte>>, payload: seq<byte>, after: seq<seq<byte>>)
    requires !Carried(payload, capacity)
    ensures Flags(Outgrown(capacity, before, payload)) == 2 * |before| + 1
    ensures Flags(Outstanding(capacity, payload, after)) == 2 * |after| + 1
  {
    hide Stream, Frame, Flags;
    FrameHalves(payload, capacity + 1);
    FlagsOfStream(before);
    FlagsOfStream(after);
    FlagsConcat(Stream(before), Frame(payload)[..capacity + 1]);
    FlagsConcat(Frame(payload)[capacity + 1..], Stream(after));
  }

  /** Fed byte by byte, a stream with a frame that is not carried yields fewer payloads than were sent. */
  lemma OversizedLost(capacity: nat, before: seq<seq<byte>>, payload: seq<byte>, after: seq<seq<byte>>)
    requires forall p | p in before :: Carried(p, capacity)
    requires !Carried(payload, capacity)
    ensures var all := Singles(Outgrown(capacity, before, payload)) + Singles(Outstanding(capacity, payload, after));
      && Concat(all) == Stream(before + [payload] + after)
      && (forall c | c in all :: |c| == 1)
      && |ReadAll(capacity, [], all)| < |before| + 1 + |after|
  {
    hide Stream, Frame, Flags, Deframe, Carried, Outgrown, Outstanding, Singles, Concat, ReadAll, Leftover;
    OversizedDropped(capacity, before, payload);
    WholeStream(capacity, before, payload, after);
    FlagsEitherSide(capacity, before, payload, after);
    NoFlags([]);
    var (head, tail) := (Outgrown(capacity, before, payload), Outstanding(capacity, payload, after));
    var (a, b) := (Singles(head), Singles(tail));
    SinglesConcat(head);
    SinglesConcat(tail);
    ConcatSplit(a, b);
    ReadAllSplit(capacity, [], a, b);
    ReadAllFlags(capacity, [], a);
    ReadAllFlags(capacity, [], b);
  }

  lemma StreamOf(payload: seq<byte>)
    ensures Stream([payload]) == Frame(payload)
  {
    assert Frame(payload) + [] == Frame(payload);
  }

  /** A frame cut anywhere inside has one flag on either side. */
  lemma FrameHalves(payload: seq<byte>, i: nat)
    requires 0 < i < |Frame(payload)|
    ensures Flags(Frame(payload)[..i]) == 1 && Flags(Frame(payload)[i..]) == 1
  {
    var (f, inner) := (Frame(payload), Stuff(payload));
    StuffHasNoFlag(payload);
    hide Stuff;
    var (a, b) := (inner[..i - 1], inner[i - 1..]);
    assert forall x | x in a || x in b :: x in inner;
    NoFlags(a);
    NoFlags(b);
    assert f[..i] == [FLAG] + a && f[i..] == b + [FLAG];
    FlagsConcat([FLAG], a);
    FlagsConcat(b, [FLAG]);
  }

  /** Ways in which reads of at most `readSize` bytes may cut up a stream. */
  ghost predicate Reads(chunks: seq<seq<byte>>, readSize: nat, stream: seq<byte>) {
    Concat(chunks) == stream && forall c | c in chunks :: |c| <= readSize
  }

  /**
    However large the reads: payloads come out whole under every cutting of their stream exactly
    when every frame is carried.
   */
  lemma DeliveredIffCarried(capacity: nat, readSize: nat, payloads: seq<seq<byte>>)
    requires readSize > 0
    ensures (forall chunks | Reads(chunks, readSize, Stream(payloads)) :: ReadAll(capacity, [], chunks) == payloads)
      <==> forall p | p in payloads :: Carried(p, capacity)
  {
    if forall p | p in payloads :: Carried(p, capacity) {
      forall chunks | Reads(chunks, readSize, Stream(payloads))
        ensures ReadAll(capacity, [], chunks) == payloads
      {
        StreamRoundTrip(capacity, payloads, chunks);
      }
    } else {
      var chunks := ShortReads(capacity, readSize, payloads);
    }
  }

  /** A cutting that loses something, where some frame is not carried. */
  lemma ShortReads(capacity: nat, readSize: nat, payloads: seq<seq<byte>>) returns (chunks: seq<seq<byte>>)
    requires readSize > 0 && exists p | p in payloads :: !Carried(p, capacity)
    ensures Reads(chunks, readSize, Stream(payloads)) && |ReadAll(capacity, [], chunks)| < |payloads|
  {
    hide ReadAll, Stream, Concat, Singles;
    var i := FirstOversized(capacity, payloads);
    var (before, payload, after) := (payloads[..i], payloads[i], payloads[i + 1..]);
    assert before + [payload] + after == payloads;
    OversizedLost(capacity, before, payload, after);
    chunks := Singles(Outgrown(capacity, before, payload)) + Singles(Outstanding(capacity, payload, after));
  }

  lemma {:induction false} FirstOversized(capacity: nat, payloads: seq<seq<byte>>) returns (i: nat)
    requires exists p | p in payloads :: !Carried(p, capacity)
    ensures i < |payloads| && !Carried(payloads[i], capacity)
    ensures forall p | p in payloads[..i] :: Carried(p, capacity)
    decreases |payloads|
  {
    hide Carried;
    if !Carried(payloads[0], capacity) {
      return 0;
    }
    assert payloads == [payloads[0]] + payloads[1..];
    i := FirstOversized(capacity, payloads[1..]);
    assert payloads[..i + 1] == [payloads[0]] + payloads[1..][..i];
    i := i + 1;
  }

  // ----- the loops

  /** Writes the frame of `data`, or fails exactly when it does not fit. */
  method Encode(data: seq<byte>, buffer: OutputBuffer) returns (r: Result<nat, RnsError>)
    requires buffer.Valid()
    modifies buffer, buffer.buffer
    ensures buffer.Valid()
    ensures r.Ok? <==> old(buffer.offset) + |Frame(data)| <= buffer.buffer.Length
    ensures r.Ok? ==> r.value == buffer.offset && buffer.Contents() == old(buffer.Contents()) + Frame(data)
  {
    hide Xor, Stuff, Encoded, Frame;
    ghost var start := buffer.Contents();
    EncodedEnds(start, data);
    var _ :- buffer.Write([FLAG]);
    for i := 0 to |data|
      invariant buffer.Valid() && buffer.Contents() == Encoded(start, data, i)
    {
      EncodedStep(start, data, i);
      if data[i] == FLAG || data[i] == ESCAPE {
        var _ :- buffer.Write([ESCAPE, Xor(data[i], MASK)]);
      } else {
        var _ :- buffer.Write([data[i]]);
      }
    }
    var _ :- buffer.Write([FLAG]);
    return Ok(buffer.offset);
  }

  /** What `Encode` has written once `i` bytes are done. */
  function Encoded(start: seq<byte>, data: seq<byte>, i: nat): seq<byte>
    requires i <= |data|
  {
    start + ([FLAG] + Stuff(data[..i]))
  }

  lemma EncodedEnds(start: seq<byte>, data: seq<byte>)
    ensures Encoded(start, data, 0) == start + [FLAG]
    ensures Encoded(start, data, |data|) + [FLAG] == start + Frame(data)
    ensures |Frame(data)| == |Stuff(data)| + 2
  {
    assert Stuff(data[..0]) == [] && [FLAG] + [] == [FLAG];
    assert data[..|data|] == data;
    var body := [FLAG] + Stuff(data);
    hide Stuff;
    Regroup(start, body, [FLAG]);
  }

  lemma EncodedStep(start: seq<byte>, data: seq<byte>, i: nat)
    requires i < |data|
    ensures Encoded(start, data, i + 1) == Encoded(start, data, i) + StuffByte(data[i])
    ensures |Encoded(start, data, i + 1)| <= |start| + 1 + |Stuff(data)|
  {
    StuffSnoc(data, i);
    StuffPrefix(data, i + 1);
    hide Stuff, StuffByte;
    Regroup([FLAG], Stuff(data[..i]), StuffByte(data[i]));
    Regroup(start, [FLAG] + Stuff(data[..i]), StuffByte(data[i]));
  }

  lemma {:induction false} StuffSnoc(data: seq<byte>, i: nat)
    requires i < |data|
    ensures Stuff(data[..i + 1]) == Stuff(data[..i]) + StuffByte(data[i])
  {
    hide StuffByte;
    if i == 0 {
      assert data[..1] == [data[0]] && data[..1][1..] == [];
    } else {
      StuffSnoc(data[1..], i - 1);
      assert data[..i + 1][1..] == data[1..][..i] && data[..i][1..] == data[1..][..i - 1];
    }
  }

  lemma {:induction false} StuffPrefix(data: seq<byte>, i: nat)
    requires i <= |data|
    ensures |Stuff(data[..i])| <= |Stuff(data)|
    decreases |data| - i
  {
    if i < |data| {
      StuffSnoc(data, i);
      StuffPrefix(data, i + 1);
    } else {
      assert data[..i] == data;
    }
  }

  /** The source's scan for the first two flags. */
  method FindIn(data: seq<byte>) returns (r: Option<(nat, nat)>)
    ensures r == Find(data)
  {
    var start := false;
    var startIndex := 0;
    for i := 0 to |data|
      invariant startIndex <= i
      invariant !start ==> NextFlag(data, 0) >= i
      invariant start ==> startIndex < i && NextFlag(data, 0) == startIndex && NextFlag(data, startIndex + 1) >= i
    {
      if data[i] != FLAG {
        continue;
      }
      if !start {
        startIndex := i;
        start := true;
      } else {
        return Some((startIndex, i));
      }
    }
    return None;
  }

  /** Writes what decoding puts out, or fails when there is no closing flag or no room. */
  method Decode(data: seq<byte>, output: OutputBuffer) returns (r: Result<nat, RnsError>)
    requires output.Valid()
    modifies output, output.buffer
    ensures output.Valid()
    ensures var u := Unstuff(data, false, false);
      && (r.Ok? <==> u.Ok? && old(output.offset) + |u.value| <= output.buffer.Length)
      && (r.Ok? ==> r.value == output.offset && output.Contents() == old(output.Contents()) + u.value)
  {
    hide Xor;
    var started, finished, escape, i := false, false, false, 0;
    ghost var (start, out) := (output.Contents(), []);
    ghost var all := Unstuff(data, false, false);
    assert data[0..] == data && start + [] == start && (all.Ok? ==> [] + all.value == all.value);
    while i < |data| && !finished
      invariant i <= |data| && output.Valid()
      invariant output.Contents() == start + out
      invariant !finished ==> Unstuff(data, false, false) == Prepend(out, Unstuff(data[i..], started, escape))
      invariant finished ==> Unstuff(data, false, false) == Ok(out)
      decreases |data| - i, !finished
    {
      ghost var tail := Unstuff(data[i + 1..], started, false);
      assert data[i..][1..] == data[i + 1..];
      if escape {
        escape := false;
        PrependSnoc(out, Xor(data[i], MASK), tail);
        var _ :- output.Write([Xor(data[i], MASK)]);
        out := out + [Xor(data[i], MASK)];
      } else if data[i] == FLAG {
        if started {
          finished := true;
        }
        started := true;
        assert out + [] == out;
      } else if data[i] == ESCAPE {
        escape := true;
      } else {
        PrependSnoc(out, data[i], tail);
        var _ :- output.Write([data[i]]);
        out := out + [data[i]];
      }
      i := i + 1;
    }
    if !finished {
      return Err(OutOfMemory);
    }
    return Ok(output.offset);
  }

  lemma PrependSnoc(out: seq<byte>, b: byte, u: Result<seq<byte>, RnsError>)
    ensures Prepend(out, Prepend([b], u)) == Prepend(out + [b], u)
  {
    if u.Ok? {
      assert out + ([b] + u.value) == out + [b] + u.value;
    }
  }

  lemma {:induction false} UnstuffShorter(data: seq<byte>, started: bool, escape: bool)
    requires Unstuff(data, started, escape).Ok?
    ensures |Unstuff(data, started, escape).value| <= |data|
    decreases |data|
  {
    hide Xor;
    if !escape && data[0] == FLAG {
      if !started { UnstuffShorter(data[1..], true, false); }
    } else {
      UnstuffShorter(data[1..], started, !escape && data[0] == ESCAPE);
    }
  }

  /** Decodes a slice into a scratch buffer of its own length, which is always room enough. */
  method DecodeSlice(frame: seq<byte>) returns (payload: seq<seq<byte>>)
    ensures payload == Payload(frame)
  {
    var scratch := new byte[|frame|];
    var output := new OutputBuffer(scratch);
    var decoded := Decode(frame, output);
    if Unstuff(frame, false, false).Ok? {
      UnstuffShorter(frame, false, false);
    }
    ghost var u := Unstuff(frame, false, false);
    hide Unstuff;
    if decoded.Err? {
      return [];
    }
    assert output.Contents() == [] + u.value == u.value;
    return [scratch[..output.offset]];
  }

  /** What remains to be read is the part of the result still owed. */
  ghost predicate Owed(all: (seq<seq<byte>>, seq<byte>), payloads: seq<seq<byte>>, tail: seq<byte>) {
    all.0 == payloads + Deframe(tail).0 && all.1 == Deframe(tail).1
  }

  /** Moving one frame from the buffer to the payloads. */
  lemma Consume(all: (seq<seq<byte>>, seq<byte>), payloads: seq<seq<byte>>, tail: seq<byte>)
    requires Find(tail).Some? && Owed(all, payloads, tail)
    ensures var (s, e) := Find(tail).value;
      s < e < |tail| && Owed(all, payloads + Payload(tail[s..e + 1]), tail[e + 1..])
  {}

  lemma NothingOwed(all: (seq<seq<byte>>, seq<byte>), payloads: seq<seq<byte>>, tail: seq<byte>)
    requires Find(tail).None? && Owed(all, payloads, tail)
    ensures all == (payloads, tail)
  {
    hide Find;
    assert Deframe(tail) == ([], tail) && payloads + [] == payloads;
  }

  lemma SliceOfTail(buffer: seq<byte>, consumed: nat, s: nat, e: nat)
    requires s <= e && consumed + e < |buffer|
    ensures buffer[consumed..][s..e + 1] == buffer[consumed + s..consumed + e + 1]
    ensures buffer[consumed..][e + 1..] == buffer[consumed + e + 1..]
  {}

  lemma AllOwed(buffer: seq<byte>)
    ensures buffer[0..] == buffer && Owed(Deframe(buffer), [], buffer)
  {}

  /** The receive task's handling of one read: frames are taken from the buffer front to back and the rest is kept. */
  method ProcessRead(capacity: nat, frameBuffer: seq<byte>, bytes: seq<byte>)
    returns (payloads: seq<seq<byte>>, rest: seq<byte>)
    ensures (payloads, rest) == Read(capacity, frameBuffer, bytes)
  {
    var buffer, consumed := frameBuffer + bytes, 0;
    ghost var all := Deframe(buffer);
    payloads := [];
    AllOwed(buffer);
    hide Find, Deframe, Payload, Owed;
    var found := FindIn(buffer);
    while found.Some?
      invariant consumed <= |buffer| && found == Find(buffer[consumed..]) && Owed(all, payloads, buffer[consumed..])
      decreases |buffer| - consumed
    {
      Consume(all, payloads, buffer[consumed..]);
      var (s, e) := found.value;
      SliceOfTail(buffer, consumed, s, e);
      var payload := DecodeSlice(buffer[consumed + s..consumed + e + 1]);
      consumed, payloads := consumed + e + 1, payloads + payload;
      found := FindIn(buffer[consumed..]);
    }
    rest := buffer[consumed..];
    NothingOwed(all, payloads, rest);
    if |rest| > capacity {
      rest := [];
    }
  }

  // ----- buffer sizes

  /** Transmit buffers for a hardware MTU: serialized packet, HDLC frame. */
  function TxFrameBufferSizes(hwMtu: nat): (nat, nat) {
    var serialized := Saturate(hwMtu + RETICULUM_MAX_HEADER_SIZE);
    (serialized, Saturate(Saturate(serialized * 2) + 2))
  }

  /**
    Whatever fits the serialized buffer fits the HDLC buffer once framed, exactly as long as the
    sizes do not saturate.
   */
  lemma FrameFitsTxBuffer(hwMtu: nat)
    ensures (forall data: seq<byte> | |data| <= TxFrameBufferSizes(hwMtu).0 ::
        |Frame(data)| <= TxFrameBufferSizes(hwMtu).1)
      <==> 2 * (hwMtu + RETICULUM_MAX_HEADER_SIZE) + 2 <= USIZE_MAX
  {
    var (serialized, hdlc) := TxFrameBufferSizes(hwMtu);
    if 2 * (hwMtu + RETICULUM_MAX_HEADER_SIZE) + 2 <= USIZE_MAX {
      forall data: seq<byte> | |data| <= serialized ensures |Frame(data)| <= hdlc {
        StuffHasNoFlag(data);
      }
    } else {
      var data: seq<byte> := seq(serialized, _ => FLAG);
      StuffFlags(data);
      assert |Frame(data)| == 2 * serialized + 2 > hdlc;
    }
  }

  /** And it has no byte to spare: some such frame fills it. */
  lemma TxBufferIsLongestFrame(hwMtu: nat)
    requires 2 * (hwMtu + RETICULUM_MAX_HEADER_SIZE) + 2 <= USIZE_MAX
    ensures exists data: seq<byte> ::
      |data| == TxFrameBufferSizes(hwMtu).0 == hwMtu + 35 && |Frame(data)| == TxFrameBufferSizes(hwMtu).1
  {
    var worst: seq<byte> := seq(hwMtu + RETICULUM_MAX_HEADER_SIZE, _ => FLAG);
    StuffFlags(worst);
    assert |Frame(worst)| == TxFrameBufferSizes(hwMtu).1;
  }

  lemma {:induction false} StuffFlags(data: seq<byte>)
    requires forall i | 0 <= i < |data| :: data[i] == FLAG
    ensures |Stuff(data)| == 2 * |data|
  {
    if data != [] {
      StuffFlags(data[1..]);
    }
  }
}
