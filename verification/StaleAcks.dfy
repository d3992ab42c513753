/** A run on a reordering network in which an assertion of the stream fails. */
module StaleAcks {
  import opened Integers
  import opened Common
  import opened Messages
  import opened StreamModel
  import opened DeliveryModel
  import opened EndpointModel
  import opened ProtocolSystem
  import opened Invariants
  import opened InOrderNetworks
  import opened RoundTrips

  lemma AStep(s: System, action: Action, a': Node)
    requires Reachable(Arbitrary, s) && CanAct(s.a, s.b, action) && Act(s.a, s.b, action) == a'
    ensures Reachable(Arbitrary, System(a', s.b))
  {
    hide Act, CanAct;
    ReachableStep(Arbitrary, s, Label(A, action));
  }

  lemma BStep(s: System, action: Action, b': Node)
    requires Reachable(Arbitrary, s) && CanAct(s.b, s.a, action) && Act(s.b, s.a, action) == b'
    ensures Reachable(Arbitrary, System(s.a, b'))
  {
    hide Act, CanAct;
    ReachableStep(Arbitrary, s, Label(B, action));
  }

  // Writing with nothing pending in the stream: just the header.
  lemma EmitHeader(x: Node, other: Node, ackSeq: u32, ackMask: u32, id: u32)
    requires x.endpoint.stream.pending == [] && |x.ledger| + 1 < WRAP32 && x.clock == 0
    requires x.endpoint.delivery.nextOutgoing == id < WRAP32 - 1
    requires x.endpoint.delivery.pendingAcks == (if ackMask == 0 then [] else [ackSeq])
    requires if ackMask == 0 then ackSeq == 0 else ackMask == 1
    ensures var d := x.endpoint.delivery;
            CanAct(x, other, Emit(0, MAX_PACKET, [])) &&
            Act(x, other, Emit(0, MAX_PACKET, [])) ==
            x.(endpoint := x.endpoint.(delivery := d.(nextOutgoing := id + 1, pendingAcks := [],
                                                      inFlight := d.inFlight + [InFlightPacket(id, 0)])),
               ledger := x.ledger + [Packet(Header(id, ackSeq, ackMask), [], [])])
  {
    if ackMask == 1 { SinglePacked(ackSeq); }
    var s := x.endpoint.stream;
    assert s.pending[..0] == [] && s.pending[0..] == [];
    assert Launch(s, id, 0) == s by {
      assert s.inFlight + Tag(id, []) == s.inFlight;
    }
  }

  // ---- The run, state by state ----

  const M: Message := Message(0, [7])
  const PACKET: Packet := Packet(Header(0, 0, 0), [M], [])
  const REPLIES: seq<Packet> := [Packet(Header(0, 0, 1), [], []), Packet(Header(1, 0, 0), [], [])]

  function NodeA(d: Delivery, s: Stream, ledger: seq<Packet>, accepted: seq<nat>, notices: seq<Notice>, cursor: nat): Node {
    Node(Endpoint(d, s), [[7]], [], ledger, accepted, notices, cursor, 0)
  }

  function NodeB(d: Delivery, ledger: seq<Packet>): Node {
    Node(Endpoint(d, Stream([], [], 0, 1, 100)), [], [[7]], ledger, [0], [], 1, 0)
  }

  function Submitted(): Node {
    NodeA(Delivery(0, 0, [], [], 1), Stream([], [M], 1, 0, 100), [], [], [], 0)
  }

  function Flying(): Stream {
    Stream([Flight(0, M)], [], 1, 0, 100)
  }

  function Written(): Node {
    NodeA(Delivery(1, 0, [], [InFlightPacket(0, 0)], 1), Flying(), [PACKET], [], [], 0)
  }

  function Replied(): Node {
    NodeB(Delivery(2, 1, [], [InFlightPacket(0, 0), InFlightPacket(1, 0)], 1), REPLIES)
  }

  function HeardNewer(): Node {
    NodeA(Delivery(1, 2, [1], [InFlightPacket(0, 0)], 1), Flying(), [PACKET], [1], [], 2)
  }

  function ReadStale(): Node {
    NodeA(Delivery(1, 2, [1], [], 1), Flying(), [PACKET], [1], [Notice(0, Ack)], 1)
  }

  function WrittenAgain(): Node {
    NodeA(Delivery(2, 2, [], [InFlightPacket(1, 0)], 1), Flying(), [PACKET, Packet(Header(1, 1, 1), [], [])], [1],
          [Notice(0, Ack)], 1)
  }

  lemma ASubmits(b: Node)
    ensures CanAct(NewNode(1, 100), b, Submit([7])) && Act(NewNode(1, 100), b, Submit([7])) == Submitted()
  {
  }

  lemma AWrites(b: Node)
    ensures CanAct(Submitted(), b, Emit(0, MAX_PACKET, [])) && Act(Submitted(), b, Emit(0, MAX_PACKET, [])) == Written()
  {
    var s := Submitted().endpoint.stream;
    assert [M][1..] == [];
    assert Fit([M], MAX_PACKET - HEADER_SIZE - SEGMENT_SIZE) == 1;
    assert s.pending[..1] == [M] && s.pending[1..] == [];
    assert s.inFlight + Tag(0, [M]) == [Flight(0, M)];
  }

  lemma BHears(s: System)
    requires Reachable(Arbitrary, s) && s == System(Written(), NewNode(1, 100))
    ensures CanAct(s.b, s.a, Hear(0)) && Act(s.b, s.a, Hear(0)) == NodeB(Delivery(0, 1, [0], [], 1), [])
  {
    hide Reachable, Act, Established, Inv, ApplyNotices, Deliver, ProcessAcks;
    assert LedgerOk(s.a) && Established(Datagram(s.a, 0)) by { Hearable(s.b, s.a, s, 0); }
    HeardAccepted(s.b, s.a, 0);
    NothingAnnounced(s.b.endpoint.delivery, s.b.endpoint.stream);
    DeliversOne();
  }

  // Every datagram of a reachable state can be heard.
  lemma Hearable(me: Node, other: Node, s: System, i: nat)
    requires Reachable(Arbitrary, s) && (other == s.a || other == s.b) && i < |other.ledger|
    ensures LedgerOk(other) && Established(Datagram(other, i))
  {
    hide Reachable, LedgerOk, AcksOk, StatusesOk, StreamOk, Cross, WellFormed;
    ReachableInv(Arbitrary, s);
    LedgerEntry(other, i);
    ReadOfEncode(me.endpoint, other.ledger[i]);
  }

  lemma NothingAnnounced(d: Delivery, s: Stream)
    ensures ProcessAcks(d, 0, 0) == (d, []) && ApplyNotices(s, []) == s
  {
  }

  lemma DeliversOne()
    ensures Deliver(0, [M]) == (1, [[7]])
  {
    var none: seq<seq<u8>> := [];
    assert [M][1..] == [] && Inc32(0) == 1;
    assert Deliver(1, []) == (1, none);
    assert [M.payload] + none == [[7]];
  }

  lemma AHearsNewer(s: System)
    requires Reachable(Arbitrary, s) && s == System(Written(), Replied())
    ensures CanAct(s.a, s.b, Hear(1)) && Act(s.a, s.b, Hear(1)) == HeardNewer()
  {
    hide Reachable, Act, Established, Inv, ApplyNotices, Deliver, ProcessAcks;
    assert LedgerOk(s.b) && Established(Datagram(s.b, 1)) by { Hearable(s.a, s.b, s, 1); }
    HeardAccepted(s.a, s.b, 1);
    NothingAnnounced(s.a.endpoint.delivery, s.a.endpoint.stream);
    DeliversNone();
  }

  lemma DeliversNone()
    ensures Deliver(0, []) == (0, [])
  {
  }

  lemma AHearsStale(s: System)
    requires Reachable(Arbitrary, s) && s == System(HeardNewer(), Replied())
    ensures CanAct(s.a, s.b, Hear(0)) && Act(s.a, s.b, Hear(0)) == ReadStale()
  {
    hide Reachable, Act, Established, Inv, ApplyNotices, Deliver, ProcessAcks;
    assert LedgerOk(s.b) && Established(Datagram(s.b, 0)) by { Hearable(s.a, s.b, s, 0); }
    HeardStale(s.a, s.b, 0);
    SingleAck(s.a.endpoint.delivery, 0, 0);
  }

  lemma AckedButInFlight() returns (s: System)
    ensures Reachable(Arbitrary, s) && s == System(ReadStale(), Replied())
  {
    hide Reachable, Act, CanAct, Submitted, Written, Replied, HeardNewer, ReadStale;
    var a0, b0 := NewNode(1, 100), NewNode(1, 100);
    ReachableInitially(Arbitrary, 1, 100, 1, 100);
    ASubmits(b0);
    AStep(System(a0, b0), Submit([7]), Submitted());
    AWrites(b0);
    AStep(System(Submitted(), b0), Emit(0, MAX_PACKET, []), Written());
    BHears(System(Written(), b0));
    var b3 := NodeB(Delivery(0, 1, [0], [], 1), []);
    BStep(System(Written(), b0), Hear(0), b3);
    BReplies(System(Written(), b3));
    AHearsNewer(System(Written(), Replied()));
    AStep(System(Written(), Replied()), Hear(1), HeardNewer());
    AHearsStale(System(HeardNewer(), Replied()));
    AStep(System(HeardNewer(), Replied()), Hear(0), ReadStale());
    s := System(ReadStale(), Replied());
  }

  lemma BReplies(s: System)
    requires Reachable(Arbitrary, s) && s.b == NodeB(Delivery(0, 1, [0], [], 1), [])
    ensures Reachable(Arbitrary, System(s.a, Replied()))
  {
    hide Reachable, Act, CanAct;
    var b4 := NodeB(Delivery(1, 1, [], [InFlightPacket(0, 0)], 1), [REPLIES[0]]);
    EmitHeader(s.b, s.a, 0, 1, 0);
    BStep(s, Emit(0, MAX_PACKET, []), b4);
    EmitHeader(b4, s.a, 0, 0, 1);
    BStep(System(s.a, b4), Emit(0, MAX_PACKET, []), Replied());
  }

  // A sends a message in packet 0; B acknowledges it in its packet 0, but A reads B's packet 1 first, so B's
  // packet 0 is stale when it arrives: the manager resolves packet 0 and the stream is never told.
  // The next status then finds packet 0 still in flight in the stream.
  lemma AssertionCanFail() returns (s: System)
    ensures Reachable(Arbitrary, s) && CanAct(s.a, s.b, Expire(1)) && !Asserts(s.a, s.b, Expire(1))
  {
    hide Reachable;
    s := AckedButInFlight();
    EmitHeader(s.a, s.b, 1, 1, 1);
    AStep(s, Emit(0, MAX_PACKET, []), WrittenAgain());
    s := System(WrittenAgain(), Replied());
    assert DropOld(s.a.endpoint.delivery, 1).1 == [Notice(1, Drop)] by {
      assert [InFlightPacket(1, 0)][1..] == [];
    }
  }

  // From the same stale acknowledgement: every packet has its status, yet the stream has a message in flight,
  // so by CleanRoundTrip the next round trip makes no progress.
  lemma QuietButStuck() returns (s: System)
    ensures Reachable(Arbitrary, s) && Quiet(s)
    ensures HeadFits(s.a.endpoint.stream, MAX_PACKET) && s.a.endpoint.stream.inFlight != []
  {
    hide Reachable;
    s := AckedButInFlight();
    var a := s.a.(endpoint := s.a.endpoint.(stream := Stream([Flight(0, M)], [Message(1, [8])], 2, 0, 100)),
                  sent := [[7], [8]]);
    assert ByteCount(s.a.endpoint.stream.Held()) == 1 by {
      assert s.a.endpoint.stream.Held() == [M] && [M][1..] == [];
    }
    AStep(s, Submit([8]), a);
    s := System(a, s.b);
  }
}
