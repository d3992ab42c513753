/** neptun/neptun.h for one established peer, on values: the stages of reading and writing a packet, in order. */
module EndpointModel {
  import opened Integers
  import opened Common
  import opened Messages
  import opened StreamModel
  import opened DeliveryModel

  const CONNECTION_MANAGER: u8 := 0
  const UNRELIABLE_STREAM: u8 := 4

  datatype Endpoint = Endpoint(delivery: Delivery, stream: Stream)

  function NewEndpoint(timeout: int, capacity: nat): Endpoint {
    Endpoint(NewDelivery(0, timeout), NewStream(capacity))
  }

  // A datagram of an established session: a whole header, and no handshake segment behind it.
  predicate Established(bytes: seq<u8>) {
    |bytes| >= HEADER_SIZE && !(|bytes| >= HEADER_SIZE + SEGMENT_SIZE && bytes[HEADER_SIZE] == CONNECTION_MANAGER)
  }

  // What the unreliable stream puts behind the reliable segment.
  predicate ValidTail(tail: seq<u8>) {
    tail == [] || (|tail| >= SEGMENT_SIZE && tail[0] == UNRELIABLE_STREAM)
  }

  // ---- Statuses handed to the stream, in order ----

  function ApplyNotices(s: Stream, ns: seq<Notice>): Stream
    decreases |ns|
  {
    if ns == [] then s else ApplyNotices(OnStatus(s, ns[0].id, ns[0].status), ns[1..])
  }

  // No assertion of the stream fails at any point of the batch.
  predicate AssertionsHold(s: Stream, ns: seq<Notice>)
    decreases |ns|
  {
    ns == [] ||
    (AssertionHolds(s, ns[0].id, ns[0].status) && AssertionsHold(OnStatus(s, ns[0].id, ns[0].status), ns[1..]))
  }

  // ---- The stages ----

  datatype Reading = Reading(endpoint: Endpoint, notices: seq<Notice>, accepted: bool, callbacks: seq<seq<u8>>)

  // A stale packet ends the reading after the delivery stage: its statuses are computed and discarded.
  function Read(e: Endpoint, bytes: seq<u8>): Reading
    requires Established(bytes)
  {
    var h := DecodeHeader(bytes);
    var (d, ns) := ProcessAcks(e.delivery, h.ackSeq, h.ackMask);
    if !Accepts(d, h.id) then Reading(Endpoint(d, e.stream), ns, false, [])
    else
      var (s, callbacks) := Receive(ApplyNotices(e.stream, ns), bytes[HEADER_SIZE..]);
      Reading(Endpoint(Accept(d, h.id), s), ns, true, callbacks)
  }

  function Timeout(e: Endpoint, now: int): (Endpoint, seq<Notice>) {
    var (d, ns) := DropOld(e.delivery, now);
    (Endpoint(d, ApplyNotices(e.stream, ns)), ns)
  }

  function Write(e: Endpoint, now: int, limit: nat, tail: seq<u8>): (Endpoint, Packet)
    requires limit >= HEADER_SIZE
  {
    var (d, h) := Dispatch(e.delivery, now);
    var (s, ms) := StreamModel.Write(e.stream, h.id, limit - HEADER_SIZE);
    var room := limit - HEADER_SIZE - |EncodeSegment(ms)|;
    (Endpoint(d, s), Packet(h, ms, if |tail| <= room then tail else []))
  }

  // min(kJustBelowMtu, max_send_packet_size)
  function PacketLimit(maxSendPacketSize: u16): nat {
    if maxSendPacketSize < MAX_PACKET then maxSendPacketSize else MAX_PACKET
  }

  lemma PacketLimitIsTightest(maxSendPacketSize: u16, size: nat)
    ensures size <= PacketLimit(maxSendPacketSize) <==> size <= 1400 && size <= maxSendPacketSize
  {
  }

  // ---- The send rate ----

  // From the limit the peer announced for reading and the own limit for sending; 0 is no limit.
  function SendRate(peerMaxReadPacketRate: u8, maxSendPacketRate: u8): u8 {
    if peerMaxReadPacketRate == 0 then maxSendPacketRate
    else if maxSendPacketRate == 0 then peerMaxReadPacketRate
    else if peerMaxReadPacketRate < maxSendPacketRate then peerMaxReadPacketRate
    else maxSendPacketRate
  }

  // It is the largest rate within every limit that is set, and no limit if none is.
  lemma SendRateIsTightest(peerRate: u8, ownRate: u8, rate: u8)
    ensures SendRate(peerRate, ownRate) == 0 <==> peerRate == 0 && ownRate == 0
    ensures (peerRate != 0 || ownRate != 0) ==>
              (rate <= SendRate(peerRate, ownRate) <==>
               (peerRate != 0 ==> rate <= peerRate) && (ownRate != 0 ==> rate <= ownRate))
  {
  }

  // ---- Reading a packet that was written ----

  // The same stages on the packet itself.
  function ReadPacket(e: Endpoint, p: Packet): Reading {
    var (d, ns) := ProcessAcks(e.delivery, p.header.ackSeq, p.header.ackMask);
    if !Accepts(d, p.header.id) then Reading(Endpoint(d, e.stream), ns, false, [])
    else
      var s := ApplyNotices(e.stream, ns);
      var (next, callbacks) := Deliver(s.nextExpected, p.messages);
      Reading(Endpoint(Accept(d, p.header.id), s.(nextExpected := next)), ns, true, callbacks)
  }

  predicate WellFormed(p: Packet) {
    AllEncodable(p.messages) && |p.messages| <= 255 && ValidTail(p.tail)
  }

  lemma ReadOfEncode(e: Endpoint, p: Packet)
    requires WellFormed(p)
    ensures Established(EncodePacket(p))
    ensures Read(e, EncodePacket(p)) == ReadPacket(e, p)
  {
    hide EncodeMessages, EncodeHeader, DecodeHeader, ParseSegment, ProcessAcks, ApplyNotices, Deliver;
    var b := EncodePacket(p);
    PacketRoundTrip(p);
    assert b == EncodeHeader(p.header) + (EncodeSegment(p.messages) + p.tail);
    if p.messages != [] {
      assert b[HEADER_SIZE] == RELIABLE_STREAM;
    } else {
      assert b[HEADER_SIZE..] == p.tail;
      if |p.tail| > 0 { assert b[HEADER_SIZE] == p.tail[0]; }
    }
  }

  // What is written fits the limit, survives printing, and carries the next header.
  lemma WriteIsWellFormed(e: Endpoint, now: int, limit: nat, tail: seq<u8>)
    requires HEADER_SIZE <= limit <= MAX_PACKET && ValidTail(tail)
    requires forall m :: m in e.stream.pending ==> m.payload != []
    ensures var (e', p) := Write(e, now, limit, tail);
            WellFormed(p) && |EncodePacket(p)| <= limit
  {
    WriteTakesLongestPrefix(e.stream, e.delivery.nextOutgoing, limit - HEADER_SIZE);
  }

  // ---- Reading arbitrary bytes ----

  // Whatever the bytes: a datagram with a new id is accepted and what its segment holds is delivered as far as it
  // matches the counter, whether or not a malformed message follows; a stale one leaves the stream alone.
  lemma ReadOfBytes(e: Endpoint, bytes: seq<u8>, ms: seq<Message>, size: Option<nat>)
    requires Established(bytes) && Holds(bytes[HEADER_SIZE..], ms, size)
    ensures var r := Read(e, bytes);
            var (s, s') := (e.stream, r.endpoint.stream);
            var (d, ns) := ProcessAcks(e.delivery, Word(bytes, 4), Word(bytes, 8));
            r.notices == ns && r.endpoint.delivery == Accept(d, Word(bytes, 0)) &&
            r.accepted == (Word(bytes, 0) >= e.delivery.nextExpected) &&
            (!r.accepted ==> s' == s && r.callbacks == []) &&
            (r.accepted ==>
               (s'.nextExpected, r.callbacks) == Deliver(s.nextExpected, ms) &&
               s' == ApplyNotices(s, r.notices).(nextExpected := (s.nextExpected + |r.callbacks|) % WRAP32))
  {
    hide ParseSegment, Holds, ProcessAcks, ApplyNotices, Deliver, FieldAt, Word;
    var ns := Read(e, bytes).notices;
    ParsesExactly(bytes[HEADER_SIZE..], ms, size);
    DeliverCounts(e.stream.nextExpected, ms);
    ApplyNoticesCounts(e.stream, ns);
    FieldIsWord(bytes, 0);
    FieldIsWord(bytes, 4);
    FieldIsWord(bytes, 8);
    var h := DecodeHeader(bytes);
    ProcessAcksFrame(e.delivery, h);
  }

  lemma {:induction false} ApplyNoticesCounts(s: Stream, ns: seq<Notice>)
    ensures ApplyNotices(s, ns).nextExpected == s.nextExpected
    decreases |ns|
  {
    if ns != [] { ApplyNoticesCounts(OnStatus(s, ns[0].id, ns[0].status), ns[1..]); }
  }

  lemma ProcessAcksFrame(d: Delivery, h: Header)
    ensures var d' := ProcessAcks(d, h.ackSeq, h.ackMask).0; d' == d.(inFlight := d'.inFlight)
  {
  }

  // So a malformed message undoes nothing that came before it in the datagram.
  lemma RunIsDeliveredThoughMalformed(e: Endpoint, bytes: seq<u8>, ms: seq<Message>, size: Option<nat>)
    requires Established(bytes) && Holds(bytes[HEADER_SIZE..], ms, size) && IsRun(ms)
    requires ms != [] && Word(bytes, 0) >= e.delivery.nextExpected
    requires ms[0].seqNo <= e.stream.nextExpected < ms[0].seqNo + |ms|
    ensures var r := Read(e, bytes);
            r.callbacks == Payloads(ms[e.stream.nextExpected - ms[0].seqNo..]) &&
            r.endpoint.stream.nextExpected == (ms[0].seqNo + |ms|) % WRAP32
  {
    hide Holds, Read, Deliver, Word;
    ReadOfBytes(e, bytes, ms, size);
    RunIsDelivered(e.stream.nextExpected, ms);
  }

  // ---- What one packet takes ----

  // Whatever is in flight, the packet takes the longest run of waiting messages that leaves it within the limit,
  // and the tail if it fits behind them.
  lemma WriteFillsPacket(e: Endpoint, now: int, limit: nat, tail: seq<u8>)
    requires limit >= HEADER_SIZE
    ensures var (e', p) := Write(e, now, limit, tail);
            p.messages + e'.stream.pending == e.stream.pending &&
            e'.stream == e.stream.(inFlight := e.stream.inFlight + Tag(e.delivery.nextOutgoing, p.messages),
                                   pending := e'.stream.pending) &&
            p.header.id == e.delivery.nextOutgoing && |EncodePacket(p)| <= limit &&
            (e'.stream.pending != [] ==>
               |EncodePacket(Packet(p.header, p.messages + [e'.stream.pending[0]], []))| > limit) &&
            p.tail == if |EncodePacket(Packet(p.header, p.messages, tail))| <= limit then tail else []
  {
    hide Fit, EncodeMessages;
    var size := limit - HEADER_SIZE;
    var (e', p) := Write(e, now, limit, tail);
    WriteKeepsHeld(e.stream, e.delivery.nextOutgoing, size);
    FitSize(e.stream.pending, size - SEGMENT_SIZE);
    if e'.stream.pending != [] {
      assert p.messages + [e'.stream.pending[0]] == e.stream.pending[..|p.messages| + 1];
    }
  }

  // ---- What a batch of statuses does ----

  lemma {:induction false} NothingToApply(s: Stream, ns: seq<Notice>)
    requires s.inFlight == []
    ensures ApplyNotices(s, ns) == s
    decreases |ns|
  {
    if ns != [] {
      assert OnStatus(s, ns[0].id, ns[0].status) == s by { assert MessagesOf([]) + s.pending == s.pending; }
      NothingToApply(s, ns[1..]);
    }
  }

  // The first k flights are those of packets below `end`, unless flights older than `first` block the queue.
  predicate Reaches(fs: seq<Flight>, k: nat, first: nat, end: nat) {
    k <= |fs| && forall i :: 0 <= i < |fs| ==> (i < k <==> fs[0].packetId >= first && fs[i].packetId < end)
  }

  // The outcome of a whole batch, where j is the index of its first DROP, or its length if it has none. Unless older
  // flights block the queue, exactly the flights of the j packets acknowledged first are released. Then a DROP, if
  // there is one, puts everything else that was in flight back in front of what waits; without one it stays in flight.
  lemma {:induction false} BatchOutcome(s: Stream, ns: seq<Notice>, first: nat, j: nat) returns (k: nat)
    requires PacketsIncrease(s.inFlight) && Consecutive(ns, first)
    requires j <= |ns| && (forall i :: 0 <= i < j ==> ns[i].status == Ack) && (j < |ns| ==> ns[j].status == Drop)
    ensures k <= |s.inFlight| && Reaches(s.inFlight, k, first, first + j)
    ensures ApplyNotices(s, ns) ==
            if j == |ns| then s.(inFlight := s.inFlight[k..])
            else s.(inFlight := [], pending := MessagesOf(s.inFlight[k..]) + s.pending)
    decreases |ns|
  {
    hide Consecutive, OnStatus, WithoutPacket, PacketsIncrease, Reaches;
    var fs := s.inFlight;
    if j == 0 {
      k := 0;
      assert fs[0..] == fs;
      NoneReached(fs, first);
      if ns != [] {
        DropsAll(s, ns[0].id);
        NothingToApply(OnStatus(s, ns[0].id, Drop), ns[1..]);
      }
    } else {
      ConsecutiveRest(ns, first);
      var k0 := AckReleases(s, first);
      var k1 := BatchOutcome(s.(inFlight := fs[k0..]), ns[1..], first + 1, j - 1);
      k := k0 + k1;
      assert fs[k0..][k1..] == fs[k..];
      ReachedMore(fs, k0, k1, first, first + j);
    }
  }

  lemma NoneReached(fs: seq<Flight>, first: nat)
    requires PacketsIncrease(fs)
    ensures Reaches(fs, 0, first, first)
  {
    forall i | 0 <= i < |fs| ensures fs[0].packetId <= fs[i].packetId { }
  }

  lemma ReachedMore(fs: seq<Flight>, k0: nat, k1: nat, first: nat, end: nat)
    requires k0 <= |fs| && first < end && Reaches(fs[k0..], k1, first + 1, end)
    requires forall i :: 0 <= i < k0 ==> fs[i].packetId == first
    requires k0 < |fs| ==> fs[k0].packetId > first || (k0 == 0 && fs[0].packetId < first)
    ensures Reaches(fs, k0 + k1, first, end)
  {
    forall i | 0 <= i < |fs| ensures i < k0 + k1 <==> fs[0].packetId >= first && fs[i].packetId < end {
      if i >= k0 { assert fs[i] == fs[k0..][i - k0] && fs[k0] == fs[k0..][0]; }
    }
  }

  lemma DropsAll(s: Stream, id: u32)
    ensures OnStatus(s, id, Drop) == s.(inFlight := [], pending := MessagesOf(s.inFlight) + s.pending)
  {
  }

  // One ACK releases the oldest flights if they are its packet's; what is left is younger, unless all was older.
  lemma AckReleases(s: Stream, id: u32) returns (k: nat)
    requires PacketsIncrease(s.inFlight)
    ensures k <= |s.inFlight| && OnStatus(s, id, Ack) == s.(inFlight := s.inFlight[k..])
    ensures forall i :: 0 <= i < k ==> s.inFlight[i].packetId == id
    ensures k < |s.inFlight| ==> s.inFlight[k].packetId > id || (k == 0 && s.inFlight[0].packetId < id)
    ensures PacketsIncrease(s.inFlight[k..])
  {
    k := WithoutPacketIsSuffix(s.inFlight, id);
    if 0 < k < |s.inFlight| { assert s.inFlight[0].packetId <= s.inFlight[k].packetId; }
  }

  // ---- When the assertions of the stream hold ----

  predicate PacketsIncrease(fs: seq<Flight>) {
    forall i, j :: 0 <= i < j < |fs| ==> fs[i].packetId <= fs[j].packetId
  }

  predicate Consecutive(ns: seq<Notice>, first: nat) {
    forall i :: 0 <= i < |ns| ==> ns[i].id == first + i
  }

  lemma {:induction false} WithoutPacketIsSuffix(fs: seq<Flight>, id: u32) returns (k: nat)
    ensures k <= |fs| && WithoutPacket(fs, id) == fs[k..]
    ensures forall i :: 0 <= i < k ==> fs[i].packetId == id
    ensures k < |fs| ==> fs[k].packetId != id
  {
    if fs != [] && fs[0].packetId == id {
      var j := WithoutPacketIsSuffix(fs[1..], id);
      k := j + 1;
      forall i | 0 <= i < k ensures fs[i].packetId == id {
        if i > 0 { assert fs[i] == fs[1..][i - 1]; }
      }
    } else {
      k := 0;
    }
  }

  // The manager hands over consecutive ids. No assertion fails anywhere in such a batch
  // if and only if nothing older than its first packet is still in flight in the stream.
  lemma {:induction false} AssertionsHoldExactly(s: Stream, ns: seq<Notice>, first: nat)
    requires PacketsIncrease(s.inFlight) && Consecutive(ns, first)
    ensures AssertionsHold(s, ns) <==> ns == [] || s.inFlight == [] || s.inFlight[0].packetId >= first
    decreases |ns|
  {
    hide OnStatus, AssertionHolds, PacketsIncrease, Consecutive;
    if ns != [] {
      ConsecutiveRest(ns, first);
      AssertionHoldsExactly(s, ns[0].id, ns[0].status);
      AssertionsHoldExactly(OnStatus(s, ns[0].id, ns[0].status), ns[1..], first + 1);
    }
  }

  lemma ConsecutiveRest(ns: seq<Notice>, first: nat)
    requires Consecutive(ns, first) && ns != []
    ensures ns[0].id == first && Consecutive(ns[1..], first + 1)
  {
    forall i | 0 <= i < |ns[1..]| ensures ns[1..][i].id == first + 1 + i { assert ns[1..][i] == ns[i + 1]; }
  }

  // One status: its assertion holds exactly if nothing older is in flight, and then nothing as old is afterwards;
  // an older flight survives an ACK and fails every later assertion too.
  lemma AssertionHoldsExactly(s: Stream, id: u32, status: Status)
    requires PacketsIncrease(s.inFlight)
    ensures var fs, rest := s.inFlight, OnStatus(s, id, status).inFlight;
            PacketsIncrease(rest) &&
            (AssertionHolds(s, id, status) <==> fs == [] || fs[0].packetId >= id) &&
            (AssertionHolds(s, id, status) ==> rest == [] || rest[0].packetId >= id + 1)
  {
    hide WithoutPacket;
    var k := WithoutPacketIsSuffix(s.inFlight, id);
    if 0 < k < |s.inFlight| { assert s.inFlight[0].packetId <= s.inFlight[k].packetId; }
  }
}
