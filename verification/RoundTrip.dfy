/** A clean round trip makes progress: packet there, acknowledgement back. */
module RoundTrips {
  import opened Integers
  import opened Common
  import opened Messages
  import opened StreamModel
  import opened DeliveryModel
  import opened EndpointModel
  import opened ProtocolSystem
  import opened Invariants
  import opened InOrderNetworks

  // a writes a packet, b hears it and writes one, a hears that.
  function RoundTrip(s: System, emitA: Action, emitB: Action): seq<Label> {
    [Label(A, emitA), Label(B, Hear(|s.a.ledger|)), Label(B, emitB), Label(A, Hear(|s.b.ledger|))]
  }

  // The first message waiting fits in the packet.
  predicate HeadFits(s: Stream, limit: nat) {
    s.pending != [] && HEADER_SIZE + SEGMENT_SIZE + |EncodeMessage(s.pending[0])| <= limit
  }

  // No packet without a status, nothing for the peer to acknowledge.
  predicate Quiet(s: System) {
    s.a.endpoint.delivery.inFlight == [] && s.b.endpoint.delivery.pendingAcks == []
  }

  // All messages of the one packet were released, at least one, and the receiver's counter is at or past them.
  predicate Progress(s: System, t: System, n: nat) {
    var before, after := s.a.endpoint.stream, t.a.endpoint.stream;
    1 <= n <= |before.pending| &&
    after.pending == before.pending[n..] && after.inFlight == [] && t.a.endpoint.delivery.inFlight == [] &&
    |t.a.ledger| == |s.a.ledger| + 1 < WRAP32 && t.a.ledger[..|s.a.ledger|] == s.a.ledger &&
    t.a.ledger[|s.a.ledger|].messages == before.pending[..n] &&
    t.a.notices == s.a.notices + [Notice(|s.a.ledger|, Ack)] &&
    Released(after) == Released(before) + n <= |t.b.delivered| &&
    t.a.sent == s.a.sent && t.b.sent == s.b.sent
  }

  // ---- One step at a time ----

  lemma {:induction false} WithoutOwnPacket(ms: seq<Message>, id: u32)
    ensures WithoutPacket(Tag(id, ms), id) == []
    decreases |ms|
  {
    if ms != [] {
      assert Tag(id, ms)[1..] == Tag(id, ms[1..]);
      WithoutOwnPacket(ms[1..], id);
    }
  }

  lemma SinglePacked(id: u32)
    ensures Packed([id], id, 0) == 1 && Spilled([id], id) == []
  {
    assert BitPosition(id, id) == 0;
    assert SetBit32(0, 0) == 1;
    assert [id][1..] == [];
    assert Packed([], id, 1) == 1;
  }

  // The only packet in flight, acknowledged by a header that names just it.
  lemma SingleAck(d: Delivery, id: u32, dispatched: int)
    requires d.inFlight == [InFlightPacket(id, dispatched)]
    ensures ProcessAcks(d, id, 1) == (d.(inFlight := []), [Notice(id, Ack)])
  {
    assert TopBit(1) == 0 && Bit(1, 0);
    assert (id + TopBit(1)) % WRAP32 == id;
    assert LeadingUpTo(d.inFlight, id) == 1 by {
      assert d.inFlight[1..] == [];
    }
    assert d.inFlight[..1] == d.inFlight && d.inFlight[1..] == [];
    assert Resolve(d.inFlight, id, 1) == [Notice(id, Ack)];
  }

  lemma FirstWrites(s: System, now: int, limit: nat, tail: seq<u8>)
    requires Inv(s) && Quiet(s) && HeadFits(s.a.endpoint.stream, limit) && CanAct(s.a, s.b, Emit(now, limit, tail))
    ensures var a := Act(s.a, s.b, Emit(now, limit, tail));
            var n := Fit(s.a.endpoint.stream.pending, limit - HEADER_SIZE - SEGMENT_SIZE);
            var id := |s.a.ledger|;
            n >= 1 && |a.ledger| == id + 1 && a.ledger[..id] == s.a.ledger && a.ledger[id].header.id == id < WRAP32 - 1 &&
            a.ledger[id].messages == s.a.endpoint.stream.pending[..n] &&
            a.endpoint.stream == Launch(s.a.endpoint.stream, id, n) &&
            a.endpoint.delivery.inFlight == [InFlightPacket(id, now)] &&
            a.endpoint.delivery.nextExpected == s.a.endpoint.delivery.nextExpected &&
            a.notices == s.a.notices && a.sent == s.a.sent && a.cursor == s.a.cursor
  {
    hide AcksOk, StatusesOk, StreamOk, Safe, WellFormed, Carries;
    assert [] + [InFlightPacket(|s.a.ledger|, now)] == [InFlightPacket(|s.a.ledger|, now)];
  }

  // The peer accepts it, has exactly it to acknowledge, and if it had reached its start has now reached its end.
  lemma PeerHears(s: System, id: u32)
    requires Inv(s) && id == |s.a.ledger| - 1 && s.b.endpoint.delivery.nextExpected <= id
    requires s.b.endpoint.delivery.pendingAcks == []
    requires CanAct(s.b, s.a, Hear(id))
    ensures var b := Act(s.b, s.a, Hear(id));
            var ms := s.a.ledger[id].messages;
            b.endpoint.delivery.pendingAcks == [id] && b.endpoint.delivery.nextExpected == id + 1 &&
            (ms != [] && ms[0].seqNo <= |s.b.delivered| ==> |b.delivered| >= ms[0].seqNo + |ms|) &&
            b.ledger == s.b.ledger && b.clock == s.b.clock && b.sent == s.b.sent
  {
    hide AcksOk, StatusesOk, StreamOk, LedgerOk, Safe, Act, Established, ProcessAcks;
    HeardFields(s.b, s.a, id);
    HeardDelivers(s.b, s.a, id);
    assert [] + [id] == [id];
  }

  lemma PeerWrites(b: Node, other: Node, now: int, limit: nat, tail: seq<u8>, id: u32)
    requires LedgerOk(b) && b.endpoint.delivery.pendingAcks == [id] && CanAct(b, other, Emit(now, limit, tail))
    ensures var b' := Act(b, other, Emit(now, limit, tail));
            |b'.ledger| == |b.ledger| + 1 && b'.ledger[|b.ledger|].header == Header(|b.ledger|, id, 1) &&
            b'.delivered == b.delivered && b'.sent == b.sent
  {
    SinglePacked(id);
  }

  // The acknowledgement reaches the stream.
  lemma FirstHears(s: System, id: u32, dispatched: int)
    requires Inv(s) && s.b.ledger != [] && CanAct(s.a, s.b, Hear(|s.b.ledger| - 1))
    requires s.b.ledger[|s.b.ledger| - 1].header == Header(|s.b.ledger| - 1, id, 1)
    requires s.a.endpoint.delivery.inFlight == [InFlightPacket(id, dispatched)]
    requires s.a.endpoint.delivery.nextExpected < |s.b.ledger|
    ensures var a := Act(s.a, s.b, Hear(|s.b.ledger| - 1));
            a.endpoint.delivery.inFlight == [] &&
            a.endpoint.stream.inFlight == WithoutPacket(s.a.endpoint.stream.inFlight, id) &&
            a.endpoint.stream.pending == s.a.endpoint.stream.pending &&
            a.endpoint.stream.nextOutgoing == s.a.endpoint.stream.nextOutgoing &&
            a.notices == s.a.notices + [Notice(id, Ack)] && a.ledger == s.a.ledger && a.sent == s.a.sent &&
            Handed(s.a, s.b, Hear(|s.b.ledger| - 1)) == [Notice(id, Ack)]
  {
    hide AcksOk, StatusesOk, StreamOk, LedgerOk, Safe, Act, Established, ProcessAcks, ApplyNotices, Deliver;
    var i := |s.b.ledger| - 1;
    HeardAccepted(s.a, s.b, i);
    HandedIfAccepted(s.a, s.b, i);
    SingleAck(s.a.endpoint.delivery, id, dispatched);
    ApplySingle(s.a.endpoint.stream, Notice(id, Ack));
  }

  lemma HandedIfAccepted(me: Node, other: Node, i: nat)
    requires LedgerOk(other) && CanAct(me, other, Hear(i)) && i >= me.endpoint.delivery.nextExpected
    ensures var h := other.ledger[i].header;
            Handed(me, other, Hear(i)) == ProcessAcks(me.endpoint.delivery, h.ackSeq, h.ackMask).1
  {
    hide LedgerOk, ProcessAcks, ApplyNotices, Deliver, Carries;
    LedgerEntry(other, i);
    ReadOfEncode(me.endpoint, other.ledger[i]);
    ProcessAcksFrame(me.endpoint.delivery, other.ledger[i].header);
  }

  lemma ApplySingle(s: Stream, n: Notice)
    ensures ApplyNotices(s, [n]) == OnStatus(s, n.id, n.status)
  {
    hide OnStatus;
    var ns := [n];
    assert ns[0] == n && ns[1..] == [];
    assert ApplyNotices(OnStatus(s, n.id, n.status), []) == OnStatus(s, n.id, n.status);
  }

  // ---- All four ----

  lemma RoundTripStates(s: System, now: int, limit: nat, tail: seq<u8>, nowB: int, limitB: nat, tailB: seq<u8>)
    returns (a1: Node, b2: Node, b3: Node, a4: Node)
    requires Inv(s) && Quiet(s) && HeadFits(s.a.endpoint.stream, limit)
    requires CanAct(s.a, s.b, Emit(now, limit, tail)) && CanAct(s.b, s.a, Emit(nowB, limitB, tailB))
    ensures a1 == Act(s.a, s.b, Emit(now, limit, tail)) && |a1.ledger| == |s.a.ledger| + 1 && a1.cursor == s.a.cursor
    ensures CanAct(s.b, a1, Hear(|s.a.ledger|)) && b2 == Act(s.b, a1, Hear(|s.a.ledger|))
    ensures CanAct(b2, a1, Emit(nowB, limitB, tailB)) && b3 == Act(b2, a1, Emit(nowB, limitB, tailB))
    ensures CanAct(a1, b3, Hear(|s.b.ledger|)) && a4 == Act(a1, b3, Hear(|s.b.ledger|))
    ensures s.a.endpoint.stream.inFlight == [] <==>
            Progress(s, System(a4, b3), Fit(s.a.endpoint.stream.pending, limit - HEADER_SIZE - SEGMENT_SIZE))
    ensures s.a.endpoint.stream.inFlight == [] <==> Asserts(a1, b3, Hear(|s.b.ledger|))
    ensures s.a.endpoint.stream.inFlight != [] ==> Released(a4.endpoint.stream) == Released(s.a.endpoint.stream)
    ensures a1.endpoint.delivery.nextExpected == s.a.endpoint.delivery.nextExpected <= |s.b.ledger|
    ensures b2.endpoint.delivery.nextExpected == |s.a.ledger| + 1
  {
    hide LedgerOk, AcksOk, StatusesOk, StreamOk, Safe, Act, Established, EndpointModel.Write, Asserts, Released;
    hide WithoutPacket, AssertionHolds, Handed, Fit, EncodeMessage;
    var id, j := |s.a.ledger|, |s.b.ledger|;
    var n := Fit(s.a.endpoint.stream.pending, limit - HEADER_SIZE - SEGMENT_SIZE);
    a1 := Act(s.a, s.b, Emit(now, limit, tail));
    FirstWrites(s, now, limit, tail);
    ActKeeps(s.a, s.b, Emit(now, limit, tail));
    FirstPending(s.a.endpoint.stream, s.a.sent, s.a.ledger, s.b.accepted, |s.b.delivered|);

    assert CanAct(s.b, a1, Hear(id)) by { Readable(s.b, a1, id); }
    b2 := Act(s.b, a1, Hear(id));
    PeerHears(System(a1, s.b), id);
    ActKeeps(s.b, a1, Hear(id));

    b3 := Act(b2, a1, Emit(nowB, limitB, tailB));
    PeerWrites(b2, a1, nowB, limitB, tailB, id);
    ActKeeps(b2, a1, Emit(nowB, limitB, tailB));

    assert CanAct(a1, b3, Hear(j)) by { Readable(a1, b3, j); }
    a4 := Act(a1, b3, Hear(j));
    FirstHears(System(a1, b3), id, now);
    AckReleasesAll(s.a.endpoint.stream, s.a.sent, s.a.ledger, id, n);
    AssertsSingle(a1, b3, j, id);
    ReleasedCounts(s.a.endpoint.stream, a4.endpoint.stream, id, n);
  }

  lemma AssertsSingle(me: Node, other: Node, i: nat, id: u32)
    requires CanAct(me, other, Hear(i)) && Handed(me, other, Hear(i)) == [Notice(id, Ack)]
    ensures Asserts(me, other, Hear(i)) <==> AssertionHolds(me.endpoint.stream, id, Ack)
  {
    hide Handed, AssertionsHold;
    SingleNotice(me.endpoint.stream, Notice(id, Ack));
  }

  lemma SingleNotice(s: Stream, n: Notice)
    ensures AssertionsHold(s, [n]) <==> AssertionHolds(s, n.id, n.status)
  {
    hide AssertionHolds;
    var ns := [n];
    assert ns[0] == n && ns[1..] == [];
    assert AssertionsHold(OnStatus(s, n.id, n.status), []);
  }

  // What is released between writing a packet and hearing its acknowledgement.
  lemma ReleasedCounts(s: Stream, t: Stream, id: u32, n: nat)
    requires n <= |s.pending| && t.nextOutgoing == s.nextOutgoing && t.pending == s.pending[n..]
    ensures s.inFlight == [] && t.inFlight == [] ==> Released(t) == Released(s) + n
    ensures t.inFlight == Launch(s, id, n).inFlight ==> Released(t) == Released(s)
  {
  }

  // The acknowledgement of the newest packet releases it if nothing older is in flight;
  // otherwise it releases nothing, and the assertion after the loop fails.
  lemma AckReleasesAll(s: Stream, sent: seq<seq<u8>>, ledger: seq<Packet>, id: u32, n: nat)
    requires StreamOk(s, sent, ledger) && id == |ledger| && n <= |s.pending|
    ensures var launched := Launch(s, id, n);
            if s.inFlight == [] then WithoutPacket(launched.inFlight, id) == [] && AssertionHolds(launched, id, Ack)
            else WithoutPacket(launched.inFlight, id) == launched.inFlight && !AssertionHolds(launched, id, Ack)
  {
    var fs := Launch(s, id, n).inFlight;
    if s.inFlight == [] {
      assert fs == Tag(id, s.pending[..n]);
      WithoutOwnPacket(s.pending[..n], id);
    } else {
      assert fs[0] == s.inFlight[0] && FlightOk(s.inFlight[0], ledger);
    }
  }

  lemma FirstPending(s: Stream, sent: seq<seq<u8>>, ledger: seq<Packet>, accepted: seq<nat>, count: nat)
    requires StreamOk(s, sent, ledger) && Safe(s, accepted, count) && s.pending != []
    ensures s.inFlight == [] ==> s.pending[0].seqNo == Released(s) <= count
  {
    assert s.inFlight == [] ==> s.Held()[0] == s.pending[0];
  }

  lemma Readable(me: Node, other: Node, i: nat)
    requires LedgerOk(other) && i < |other.ledger|
    ensures Established(Datagram(other, i))
  {
    ReadOfEncode(me.endpoint, other.ledger[i]);
  }

  lemma ExecFour(net: Network, s: System, l0: Label, l1: Label, l2: Label, l3: Label)
    requires Enabled(net, s, l0)
    requires Enabled(net, Step(net, s, l0), l1)
    requires Enabled(net, Step(net, Step(net, s, l0), l1), l2)
    requires Enabled(net, Step(net, Step(net, Step(net, s, l0), l1), l2), l3)
    ensures [l0, l1, l2, l3][..3] == [l0, l1, l2]
    ensures Exec(net, s, [l0, l1, l2]) == Some(Step(net, Step(net, Step(net, s, l0), l1), l2))
    ensures Exec(net, s, [l0, l1, l2, l3])
         == Some(Step(net, Step(net, Step(net, Step(net, s, l0), l1), l2), l3))
  {
    hide Enabled, Step;
    assert [l0, l1, l2, l3][..3] == [l0, l1, l2];
    assert [l0, l1, l2][..2] == [l0, l1];
    assert [l0, l1][..1] == [l0];
    assert [l0][..0] == [];
    assert Exec(net, s, []) == Some(s);
    assert Exec(net, s, [l0]) == Some(Step(net, s, l0));
    assert Exec(net, s, [l0, l1]) == Some(Step(net, Step(net, s, l0), l1));
  }

  // On an arbitrary network, from any reachable quiet state, the round trip can be made. If the stream has nothing in
  // flight it makes progress and the assertion at the acknowledgement holds. If something is in flight, left there by
  // a status that was discarded, nothing at all is released and that assertion fails.
  lemma CleanRoundTrip(s: System, now: int, limit: nat, tail: seq<u8>, nowB: int, limitB: nat, tailB: seq<u8>)
    requires Reachable(Arbitrary, s) && Quiet(s) && HeadFits(s.a.endpoint.stream, limit)
    requires CanAct(s.a, s.b, Emit(now, limit, tail)) && CanAct(s.b, s.a, Emit(nowB, limitB, tailB))
    ensures var labels := RoundTrip(s, Emit(now, limit, tail), Emit(nowB, limitB, tailB));
            var n := Fit(s.a.endpoint.stream.pending, limit - HEADER_SIZE - SEGMENT_SIZE);
            var before, after := Exec(Arbitrary, s, labels[..3]), Exec(Arbitrary, s, labels);
            var ack := Hear(|s.b.ledger|);
            before.Some? && after.Some? && CanAct(before.value.a, before.value.b, ack) &&
            if s.a.endpoint.stream.inFlight == []
            then Progress(s, after.value, n) && Asserts(before.value.a, before.value.b, ack)
            else !Progress(s, after.value, n) && !Asserts(before.value.a, before.value.b, ack) &&
                 Released(after.value.a.endpoint.stream) == Released(s.a.endpoint.stream)
  {
    hide Inv, Progress, Act, CanAct, Quiet, Asserts, Released;
    ReachableInv(Arbitrary, s);
    var a1, b2, b3, a4 := RoundTripStates(s, now, limit, tail, nowB, limitB, tailB);
    ExecFour(Arbitrary, s, Label(A, Emit(now, limit, tail)), Label(B, Hear(|s.a.ledger|)),
             Label(B, Emit(nowB, limitB, tailB)), Label(A, Hear(|s.b.ledger|)));
  }

  lemma NothingInFlight(x: Node)
    requires LedgerOk(x) && StatusesOk(x) && StreamOk(x.endpoint.stream, x.sent, x.ledger) && InStep(x)
    requires x.endpoint.delivery.inFlight == []
    ensures x.endpoint.stream.inFlight == []
  {
    if x.endpoint.stream.inFlight != [] { FlightBounds(x, 0); }
  }

  lemma FlightBounds(x: Node, i: nat)
    requires StreamOk(x.endpoint.stream, x.sent, x.ledger) && InStep(x) && i < |x.endpoint.stream.inFlight|
    ensures |x.notices| <= x.endpoint.stream.inFlight[i].packetId < |x.ledger|
  {
    assert FlightOk(x.endpoint.stream.inFlight[i], x.ledger);
  }

  // A datagram not yet passed over is accepted, so nothing is discarded with it.
  lemma AcceptedIsNotDiscarded(me: Node, other: Node, i: nat)
    requires LedgerOk(other) && CanAct(me, other, Hear(i)) && me.endpoint.delivery.nextExpected <= i
    ensures !Discards(me, other, i)
  {
    hide ProcessAcks, ApplyNotices, Deliver, WellFormed, Carries;
    LedgerEntry(other, i);
    ReadOfEncode(me.endpoint, other.ledger[i]);
    ProcessAcksFrame(me.endpoint.delivery, other.ledger[i].header);
  }

  // Where no status is discarded, as on an in-order network, it is enough that every packet has its status:
  // the stream then has nothing in flight.
  lemma CleanRoundTripProgresses(net: Network, s: System, now: int, limit: nat, tail: seq<u8>,
                                 nowB: int, limitB: nat, tailB: seq<u8>)
    requires net == NoneDiscarded || net == InOrder
    requires Reachable(net, s) && Quiet(s) && HeadFits(s.a.endpoint.stream, limit)
    requires CanAct(s.a, s.b, Emit(now, limit, tail)) && CanAct(s.b, s.a, Emit(nowB, limitB, tailB))
    ensures var labels := RoundTrip(s, Emit(now, limit, tail), Emit(nowB, limitB, tailB));
            var n := Fit(s.a.endpoint.stream.pending, limit - HEADER_SIZE - SEGMENT_SIZE);
            var r := Exec(net, s, labels);
            r.Some? && Progress(s, r.value, n)
  {
    hide Progress, Act, CanAct, AcksOk, Safe, Asserts, Released, Discards, LedgerOk, StatusesOk, StreamOk, InStep;
    InStepReachable(net, s);
    NothingInFlight(s.a);
    var a1, b2, b3, a4 := RoundTripStates(s, now, limit, tail, nowB, limitB, tailB);
    RoundTripPermitted(net, s, a1, b3, Emit(now, limit, tail), Emit(nowB, limitB, tailB));
    ExecFour(net, s, Label(A, Emit(now, limit, tail)), Label(B, Hear(|s.a.ledger|)),
             Label(B, Emit(nowB, limitB, tailB)), Label(A, Hear(|s.b.ledger|)));
  }

  // Both datagrams are the newest, so either network permits reading them.
  lemma RoundTripPermitted(net: Network, s: System, a1: Node, b3: Node, emitA: Action, emitB: Action)
    requires net == NoneDiscarded || net == InOrder
    requires Inv(s) && emitA.Emit? && emitB.Emit? && CanAct(s.a, s.b, emitA) && a1 == Act(s.a, s.b, emitA)
    requires CanAct(s.b, a1, Hear(|s.a.ledger|))
    requires var b2 := Act(s.b, a1, Hear(|s.a.ledger|)); CanAct(b2, a1, emitB) && b3 == Act(b2, a1, emitB)
    requires CanAct(a1, b3, Hear(|s.b.ledger|)) && a1.cursor == s.a.cursor
    requires a1.endpoint.delivery.nextExpected <= |s.b.ledger|
    requires net == InOrder ==> Fresh(s.a) && Fresh(s.b)
    ensures Permits(net, B, s.b, a1, Hear(|s.a.ledger|)) && Permits(net, A, a1, b3, Hear(|s.b.ledger|))
  {
    hide AcksOk, Safe, StatusesOk, StreamOk, LedgerOk, Act, CanAct, Discards;
    var b2 := Act(s.b, a1, Hear(|s.a.ledger|));
    ActKeeps(s.a, s.b, emitA);
    ActKeeps(s.b, a1, Hear(|s.a.ledger|));
    ActKeeps(b2, a1, emitB);
    AcceptedIsNotDiscarded(s.b, a1, |s.a.ledger|);
    AcceptedIsNotDiscarded(a1, b3, |s.b.ledger|);
  }
}
