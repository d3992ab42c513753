/** Every step of the system keeps the invariants, whatever the network does. */
module Invariants {
  import opened Integers
  import opened Common
  import opened Messages
  import opened StreamModel
  import opened DeliveryModel
  import opened EndpointModel
  import opened ProtocolSystem

  // ---- The sender's stream under statuses ----

  lemma AckKeeps(s: Stream, id: u32, sent: seq<seq<u8>>, ledger: seq<Packet>, accepted: seq<nat>, count: nat)
    requires StreamOk(s, sent, ledger) && Safe(s, accepted, count) && id in accepted
    ensures var s' := OnStatus(s, id, Ack);
            StreamOk(s', sent, ledger) && Safe(s', accepted, count) && s'.nextExpected == s.nextExpected
  {
    var k := WithoutPacketIsSuffix(s.inFlight, id);
    ReleaseKeeps(s, k, sent, ledger, accepted, count);
  }

  // Releasing the k oldest flights, all of them in accepted packets.
  lemma ReleaseKeeps(s: Stream, k: nat, sent: seq<seq<u8>>, ledger: seq<Packet>, accepted: seq<nat>, count: nat)
    requires StreamOk(s, sent, ledger) && Safe(s, accepted, count)
    requires k <= |s.inFlight| && forall i :: 0 <= i < k ==> s.inFlight[i].packetId in accepted
    ensures var s' := s.(inFlight := s.inFlight[k..]);
            StreamOk(s', sent, ledger) && Safe(s', accepted, count)
  {
    var s' := s.(inFlight := s.inFlight[k..]);
    assert s'.Held() == s.Held()[k..];
    if k > 0 { assert AllAccepted(s.inFlight, accepted, k - 1); }
    forall j | 0 <= j < |s'.inFlight| && AllAccepted(s'.inFlight, accepted, j)
      ensures Released(s') + j < count
    {
      forall i | 0 <= i <= k + j ensures s.inFlight[i].packetId in accepted {
        if i >= k { assert s.inFlight[i] == s'.inFlight[i - k]; }
      }
      assert AllAccepted(s.inFlight, accepted, k + j);
    }
  }

  lemma DropKeeps(s: Stream, id: u32, sent: seq<seq<u8>>, ledger: seq<Packet>, accepted: seq<nat>, count: nat)
    requires StreamOk(s, sent, ledger) && Safe(s, accepted, count)
    ensures var s' := OnStatus(s, id, Drop);
            StreamOk(s', sent, ledger) && Safe(s', accepted, count) && s'.nextExpected == s.nextExpected
  {
    hide StreamOk, Safe;
    DropHolds(s, id);
    SameHeld(s, OnStatus(s, id, Drop), sent, ledger, accepted, count);
  }

  lemma DropHolds(s: Stream, id: u32)
    ensures OnStatus(s, id, Drop).Held() == s.Held()
  {
  }

  // With nothing in flight only what is held matters.
  lemma SameHeld(s: Stream, s': Stream, sent: seq<seq<u8>>, ledger: seq<Packet>, accepted: seq<nat>, count: nat)
    requires StreamOk(s, sent, ledger) && Safe(s, accepted, count)
    requires s'.Held() == s.Held() && s'.inFlight == [] && s'.nextOutgoing == s.nextOutgoing
    ensures StreamOk(s', sent, ledger) && Safe(s', accepted, count)
  {
    hide Stream.Held;
  }

  lemma {:induction false} ApplyNoticesKeeps(s: Stream, ns: seq<Notice>, sent: seq<seq<u8>>, ledger: seq<Packet>,
                                             accepted: seq<nat>, count: nat)
    requires StreamOk(s, sent, ledger) && Safe(s, accepted, count)
    requires forall n :: n in ns && n.status == Ack ==> n.id in accepted
    ensures var s' := ApplyNotices(s, ns);
            StreamOk(s', sent, ledger) && Safe(s', accepted, count) && s'.nextExpected == s.nextExpected
    decreases |ns|
  {
    hide StreamOk, Safe, OnStatus;
    if ns != [] {
      assert ns[0] in ns;
      if ns[0].status == Ack {
        AckKeeps(s, ns[0].id, sent, ledger, accepted, count);
      } else {
        DropKeeps(s, ns[0].id, sent, ledger, accepted, count);
      }
      ApplyNoticesKeeps(OnStatus(s, ns[0].id, ns[0].status), ns[1..], sent, ledger, accepted, count);
    }
  }

  // ---- The receiver's counter ----

  // Delivering a run of consecutive messages catches up with its end if it starts at or before the counter,
  // and does nothing otherwise.
  function CatchUp(next: nat, ms: seq<Message>): nat {
    if ms != [] && ms[0].seqNo <= next < ms[0].seqNo + |ms| then ms[0].seqNo + |ms| else next
  }

  lemma DeliverRun(next: u32, ms: seq<Message>, sent: seq<seq<u8>>)
    requires Carries(sent, ms) && next <= |sent| < WRAP32
    ensures next <= CatchUp(next, ms) <= |sent|
    ensures Deliver(next, ms) == (CatchUp(next, ms), sent[next..CatchUp(next, ms)])
  {
    hide Deliver;
    RunIsDelivered(next, ms);
    DeliverCounts(next, ms);
    var rest, n := From(ms, next), CatchUp(next, ms);
    if rest == [] {
      assert Payloads(rest) == [] == sent[next..n];
    } else {
      assert ms[|ms| - 1].seqNo == n - 1;
      forall k | 0 <= k < |rest| ensures Payloads(rest)[k] == sent[next..n][k] {
        assert rest[k] == ms[next - ms[0].seqNo + k];
      }
      assert Payloads(rest) == sent[next..n];
    }
  }

  // When packet i is accepted and every flight up to one of its own was accepted before,
  // the counter has reached the start of the packet.
  lemma {:induction false} ReachedPacket(s: Stream, sent: seq<seq<u8>>, ledger: seq<Packet>, accepted: seq<nat>, count: nat,
                                         i: nat, k: nat)
    requires StreamOk(s, sent, ledger) && Safe(s, accepted, count)
    requires k < |s.inFlight| && s.inFlight[k].packetId == i < |ledger|
    requires AllAccepted(s.inFlight, accepted + [i], k)
    ensures ledger[i].messages != [] && ledger[i].messages[0].seqNo <= count
    decreases k
  {
    assert s.Held()[k] == s.inFlight[k].message;
    assert FlightOk(s.inFlight[k], ledger);
    if k > 0 {
      assert AllAccepted(s.inFlight, accepted + [i], k - 1);
      if s.inFlight[k - 1].packetId == i {
        ReachedPacket(s, sent, ledger, accepted, count, i, k - 1);
      } else {
        forall j | 0 <= j <= k - 1 ensures s.inFlight[j].packetId in accepted {
          assert s.inFlight[j].packetId <= s.inFlight[k - 1].packetId <= s.inFlight[k].packetId;
        }
        assert AllAccepted(s.inFlight, accepted, k - 1);
      }
    }
  }

  // The receiver accepting packet i of the sender's ledger keeps the sender safe.
  lemma AcceptKeepsSafe(s: Stream, sent: seq<seq<u8>>, ledger: seq<Packet>, accepted: seq<nat>, count: nat, i: nat)
    requires StreamOk(s, sent, ledger) && Safe(s, accepted, count)
    requires i < |ledger| && Carries(sent, ledger[i].messages) && count <= |sent|
    requires forall id :: id in accepted ==> id < i
    ensures Safe(s, accepted + [i], CatchUp(count, ledger[i].messages))
  {
    var ms := ledger[i].messages;
    var count' := CatchUp(count, ms);
    forall k | 0 <= k < |s.inFlight| && AllAccepted(s.inFlight, accepted + [i], k)
      ensures Released(s) + k < count'
    {
      assert s.Held()[k] == s.inFlight[k].message;
      if s.inFlight[k].packetId == i {
        assert FlightOk(s.inFlight[k], ledger);
        ReachedPacket(s, sent, ledger, accepted, count, i, k);
      } else {
        forall j | 0 <= j <= k ensures s.inFlight[j].packetId in accepted {
          assert s.inFlight[k].packetId in accepted;
          assert s.inFlight[j].packetId <= s.inFlight[k].packetId < i;
        }
        assert AllAccepted(s.inFlight, accepted, k);
      }
    }
  }

  // ---- Acknowledgements ----

  lemma {:induction false} AnnouncedIsListed(ledger: seq<Packet>, i: nat, id: nat)
    requires i < |ledger| && id in HeaderAcks(ledger[i].header)
    ensures id in AllAcks(ledger)
  {
    if i < |ledger| - 1 { AnnouncedIsListed(ledger[..|ledger| - 1], i, id); }
  }

  // The header of packet i acknowledges only what its writer accepted, so no top id wraps.
  lemma HeaderAcksAccepted(y: Node, i: nat, id: nat)
    requires AcksOk(y) && i < |y.ledger| && id in HeaderAcks(y.ledger[i].header)
    ensures id in y.accepted && id < y.endpoint.delivery.nextExpected
  {
    AnnouncedIsListed(y.ledger, i, id);
    assert id in AllAcks(y.ledger) + y.endpoint.delivery.pendingAcks;
    var k :| 0 <= k < |y.accepted| && y.accepted[k] == id;
    if k < |y.accepted| - 1 { assert y.accepted[k] < y.accepted[|y.accepted| - 1]; }
  }

  // The statuses computed from a header of the peer: consecutive, and ACK only for what the peer accepted.
  lemma AcksFromPeer(x: Node, y: Node, i: nat)
    requires StatusesOk(x) && AcksOk(y) && i < |y.ledger|
    ensures var h := y.ledger[i].header;
            var (d, ns) := ProcessAcks(x.endpoint.delivery, h.ackSeq, h.ackMask);
            StatusesOk(x.(endpoint := x.endpoint.(delivery := d), notices := x.notices + ns)) &&
            (forall n :: n in ns && n.status == Ack ==> n.id in y.accepted) &&
            Consecutive(ns, |x.notices|) &&
            d == x.endpoint.delivery.(inFlight := d.inFlight)
  {
    var h := y.ledger[i].header;
    var (d, ns) := ProcessAcks(x.endpoint.delivery, h.ackSeq, h.ackMask);
    if h.ackMask > 0 {
      ProcessAcksIsExact(x.endpoint.delivery, h.ackSeq, h.ackMask);
      AckIdsIncrease(h.ackSeq, h.ackMask);
      var ids := HeaderAcks(h);
      HeaderAcksAccepted(y, i, ids[|ids| - 1]);
      forall n | n in ns && n.status == Ack ensures n.id in y.accepted {
        HeaderAcksAccepted(y, i, n.id);
      }
    } else {
      assert x.notices + ns == x.notices;
    }
  }

  // ---- One step of a node ----

  lemma SubmitKeeps(me: Node, other: Node, payload: seq<u8>)
    requires Local(me) && Cross(me, other) && Cross(other, me) && CanAct(me, other, Submit(payload))
    ensures var me' := Act(me, other, Submit(payload)); Local(me') && Cross(me', other) && Cross(other, me')
  {
    hide StreamOk, Safe, StatusesOk, AcksOk;
    SubmitStream(me.endpoint.stream, payload, me.sent, me.ledger, other.accepted, |other.delivered|);
    AcksDependOn(me, Act(me, other, Submit(payload)));
    StatusesDependOn(me, Act(me, other, Submit(payload)));
  }

  lemma SubmitStream(s: Stream, payload: seq<u8>, sent: seq<seq<u8>>, ledger: seq<Packet>, accepted: seq<nat>, count: nat)
    requires StreamOk(s, sent, ledger) && Safe(s, accepted, count) && |sent| + 1 < WRAP32
    ensures var s' := Send(s, payload);
            StreamOk(s', if payload == [] then sent else sent + [payload], ledger) && Safe(s', accepted, count) &&
            s'.nextExpected == s.nextExpected
  {
    if payload != [] {
      assert Send(s, payload).Held() == s.Held() + [Message(s.nextOutgoing, payload)];
    }
  }

  lemma AcksDependOn(x: Node, x': Node)
    requires AcksOk(x) && x'.accepted == x.accepted && x'.ledger == x.ledger
    requires x'.endpoint.delivery.pendingAcks == x.endpoint.delivery.pendingAcks
    requires x'.endpoint.delivery.nextExpected == x.endpoint.delivery.nextExpected
    ensures AcksOk(x')
  {
  }

  lemma StatusesDependOn(x: Node, x': Node)
    requires StatusesOk(x) && x'.notices == x.notices && x'.clock == x.clock
    requires x'.endpoint.delivery.inFlight == x.endpoint.delivery.inFlight
    requires x'.endpoint.delivery.nextOutgoing == x.endpoint.delivery.nextOutgoing
    ensures StatusesOk(x')
  {
  }

  lemma ExpireKeeps(me: Node, other: Node, now: int)
    requires Local(me) && Cross(me, other) && Cross(other, me) && CanAct(me, other, Expire(now))
    ensures var me' := Act(me, other, Expire(now)); Local(me') && Cross(me', other) && Cross(other, me')
  {
    hide StreamOk, Safe;
    var (d, ns) := DropOld(me.endpoint.delivery, now);
    ApplyNoticesKeeps(me.endpoint.stream, ns, me.sent, me.ledger, other.accepted, |other.delivered|);
  }

  lemma EmitKeeps(me: Node, other: Node, now: int, limit: nat, tail: seq<u8>)
    requires Local(me) && Cross(me, other) && Local(other) && Cross(other, me)
    requires CanAct(me, other, Emit(now, limit, tail))
    ensures var me' := Act(me, other, Emit(now, limit, tail)); Local(me') && Cross(me', other) && Cross(other, me')
  {
    hide StreamOk, Safe, StatusesOk, AcksOk, StreamModel.Write, Dispatch, WellFormed, Carries, EncodePacket;
    var me' := Act(me, other, Emit(now, limit, tail));
    var p := me'.ledger[|me.ledger|];
    forall id | id in other.accepted ensures id < |me.ledger| {
      BelowExpected(other, id);
    }
    EmitStatuses(me, now, p, me');
    EmitAcks(me, now, p, me');
    PendingIsHeld(me.endpoint.stream, me.sent, me.ledger);
    WriteIsWellFormed(me.endpoint, now, limit, tail);
    EmitStream(me.endpoint.stream, me.sent, me.ledger, p, limit - HEADER_SIZE, other.accepted, |other.delivered|);
  }

  lemma EmitStatuses(me: Node, now: int, p: Packet, me': Node)
    requires StatusesOk(me) && |me.ledger| == me.endpoint.delivery.nextOutgoing < WRAP32 - 1 && now >= me.clock
    requires (me'.endpoint.delivery, p.header) == Dispatch(me.endpoint.delivery, now)
    requires me'.notices == me.notices && me'.clock == now
    ensures StatusesOk(me') && me'.endpoint.delivery.nextOutgoing == |me.ledger| + 1 && p.header.id == |me.ledger|
    ensures me'.endpoint.delivery.nextExpected == me.endpoint.delivery.nextExpected
  {
  }

  lemma BelowExpected(x: Node, id: nat)
    requires AcksOk(x) && id in x.accepted
    ensures id < x.endpoint.delivery.nextExpected
  {
    var k :| 0 <= k < |x.accepted| && x.accepted[k] == id;
    if k < |x.accepted| - 1 { assert x.accepted[k] < x.accepted[|x.accepted| - 1]; }
  }

  lemma PendingIsHeld(s: Stream, sent: seq<seq<u8>>, ledger: seq<Packet>)
    requires StreamOk(s, sent, ledger)
    ensures forall i :: 0 <= i < |s.pending| ==>
              s.pending[i] == Message(|sent| - |s.pending| + i, sent[|sent| - |s.pending| + i]) && s.pending[i].payload != []
  {
    forall i | 0 <= i < |s.pending|
      ensures s.pending[i] == Message(|sent| - |s.pending| + i, sent[|sent| - |s.pending| + i]) && s.pending[i].payload != []
    {
      assert s.pending[i] == s.Held()[|s.inFlight| + i];
      assert s.pending[i].payload in sent;
    }
  }

  // The stream's part of writing packet p, which nobody can have accepted yet.
  lemma EmitStream(s: Stream, sent: seq<seq<u8>>, ledger: seq<Packet>, p: Packet, size: nat, accepted: seq<nat>, count: nat)
    requires StreamOk(s, sent, ledger) && Safe(s, accepted, count)
    requires p.header.id == |ledger| && p.messages == StreamModel.Write(s, p.header.id, size).1
    requires forall id :: id in accepted ==> id < |ledger|
    ensures var s' := StreamModel.Write(s, p.header.id, size).0;
            StreamOk(s', sent, ledger + [p]) && Safe(s', accepted, count) && Carries(sent, p.messages) &&
            s'.nextExpected == s.nextExpected
  {
    hide StreamOk, Safe, Carries, Launch;
    WriteKeepsHeld(s, p.header.id, size);
    LaunchKeepsStream(s, sent, ledger, p, |p.messages|);
    LaunchKeepsSafe(s, p.header.id, |p.messages|, accepted, count);
    assert p.messages == s.pending[..|p.messages|];
  }

  lemma LaunchKeepsStream(s: Stream, sent: seq<seq<u8>>, ledger: seq<Packet>, p: Packet, n: nat)
    requires StreamOk(s, sent, ledger) && n <= |s.pending| && p.header.id == |ledger| && p.messages == s.pending[..n]
    ensures var s' := Launch(s, p.header.id, n);
            StreamOk(s', sent, ledger + [p]) && Carries(sent, p.messages) && s'.nextExpected == s.nextExpected
  {
    var s' := Launch(s, p.header.id, n);
    PendingIsHeld(s, sent, ledger);
    LaunchHolds(s, p.header.id, n);
    forall i | 0 <= i < |s.inFlight| ensures s.inFlight[i].packetId < |ledger| && FlightOk(s.inFlight[i], ledger + [p]) {
      assert FlightOk(s.inFlight[i], ledger);
    }
    forall i | |s.inFlight| <= i < |s'.inFlight| ensures FlightOk(s'.inFlight[i], ledger + [p]) {
      assert s'.inFlight[i] == Flight(p.header.id, s.pending[i - |s.inFlight|]);
    }
  }

  lemma LaunchHolds(s: Stream, id: u32, n: nat)
    requires n <= |s.pending|
    ensures Launch(s, id, n).Held() == s.Held()
  {
    var s' := Launch(s, id, n);
    assert MessagesOf(s'.inFlight) == MessagesOf(s.inFlight) + s.pending[..n];
    assert s.pending == s.pending[..n] + s.pending[n..];
  }

  // A packet nobody can have accepted yet puts nothing at risk.
  lemma LaunchKeepsSafe(s: Stream, id: u32, n: nat, accepted: seq<nat>, count: nat)
    requires Safe(s, accepted, count) && n <= |s.pending| && id !in accepted
    ensures Safe(Launch(s, id, n), accepted, count)
  {
    hide Stream.Held;
    var s' := Launch(s, id, n);
    LaunchHolds(s, id, n);
    forall k | |s.inFlight| <= k < |s'.inFlight| ensures s'.inFlight[k].packetId !in accepted {
    }
    forall k | 0 <= k < |s'.inFlight| && AllAccepted(s'.inFlight, accepted, k) ensures Released(s') + k < count {
      assert s'.inFlight[k].packetId in accepted;
      forall i | 0 <= i <= k ensures s.inFlight[i].packetId in accepted {
        assert s.inFlight[i] == s'.inFlight[i];
      }
      assert AllAccepted(s.inFlight, accepted, k);
    }
  }

  lemma EmitAcks(me: Node, now: int, p: Packet, me': Node)
    requires AcksOk(me) && (me'.endpoint.delivery, p.header) == Dispatch(me.endpoint.delivery, now)
    requires me'.accepted == me.accepted && me'.ledger == me.ledger + [p]
    ensures AcksOk(me')
  {
    hide Increasing, AllAcks, HeaderAcks, NextHeader;
    PendingIncreases(AllAcks(me.ledger), me.endpoint.delivery.pendingAcks);
    HeaderConservesAcks(me.endpoint.delivery, now);
    AllAcksAppend(me.ledger, p);
    assert AllAcks(me.ledger) + HeaderAcks(p.header) + me'.endpoint.delivery.pendingAcks
        == AllAcks(me.ledger) + (HeaderAcks(p.header) + me'.endpoint.delivery.pendingAcks);
  }

  lemma PendingIncreases(acks: seq<int>, pending: seq<int>)
    requires Increasing(acks + pending)
    ensures Increasing(pending)
  {
    forall i, j | 0 <= i < j < |pending| ensures pending[i] < pending[j] {
      assert (acks + pending)[|acks| + i] < (acks + pending)[|acks| + j];
    }
  }

  lemma AllAcksAppend(ledger: seq<Packet>, p: Packet)
    ensures AllAcks(ledger + [p]) == AllAcks(ledger) + HeaderAcks(p.header)
  {
    assert (ledger + [p])[..|ledger|] == ledger;
  }

  lemma HearKeeps(me: Node, other: Node, i: nat)
    requires Local(me) && Local(other) && Cross(me, other) && Cross(other, me) && CanAct(me, other, Hear(i))
    ensures var me' := Act(me, other, Hear(i)); Local(me') && Cross(me', other) && Cross(other, me')
  {
    hide StreamOk, Safe, StatusesOk, AcksOk, LedgerOk, ProcessAcks, ApplyNotices, Deliver, CatchUp, Carries, Established;
    var p := other.ledger[i];
    HeardIsReadPacket(me, other, i);
    assert p.header.id == i < WRAP32 - 1 && Carries(other.sent, p.messages) by { LedgerEntry(other, i); }
    var (d, ns) := ProcessAcks(me.endpoint.delivery, p.header.ackSeq, p.header.ackMask);
    var me1 := me.(endpoint := me.endpoint.(delivery := d), notices := me.notices + ns);
    AcksFromPeer(me, other, i);
    AcksDependOn(me, me1);
    ApplyNoticesKeeps(me.endpoint.stream, ns, me.sent, me.ledger, other.accepted, |other.delivered|);
    var me' := Act(me, other, Hear(i));
    LedgerDependsOn(me, me');
    StatusesDependOn(me1, me');
    StreamIgnoresCounter(ApplyNotices(me.endpoint.stream, ns), me'.endpoint.stream.nextExpected, me.sent, me.ledger,
                         other.accepted, |other.delivered|);
    if Accepts(d, i) {
      AcceptingKeeps(me1, ApplyNotices(me.endpoint.stream, ns), other, i, me');
    } else {
      AcksDependOn(me1, me');
    }
  }

  // The second half of hearing packet i: acceptance and delivery.
  lemma AcceptingKeeps(me: Node, s: Stream, other: Node, i: nat, me': Node)
    requires AcksOk(me) && i < |other.ledger| && i < WRAP32 - 1 && Accepts(me.endpoint.delivery, i)
    requires Carries(other.sent, other.ledger[i].messages) && Cross(other, me)
    requires StreamOk(other.endpoint.stream, other.sent, other.ledger)
    requires |me.delivered| == s.nextExpected
    requires var (next, callbacks) := Deliver(s.nextExpected, other.ledger[i].messages);
             me'.endpoint == Endpoint(Accept(me.endpoint.delivery, i), s.(nextExpected := next)) &&
             me'.delivered == me.delivered + callbacks
    requires me'.accepted == me.accepted + [i] && me'.ledger == me.ledger
    ensures AcksOk(me') && |me'.delivered| == me'.endpoint.stream.nextExpected
    ensures me'.delivered <= other.sent && me'.endpoint.delivery.nextExpected == i + 1
    ensures |me.delivered| <= |me'.delivered|
    ensures Safe(other.endpoint.stream, me'.accepted, |me'.delivered|)
    ensures me'.endpoint.stream == s.(nextExpected := me'.endpoint.stream.nextExpected)
  {
    hide AcksOk, Carries, StreamOk, Safe, Deliver, CatchUp;
    var ms := other.ledger[i].messages;
    forall id | id in me.accepted ensures id < i { BelowExpected(me, id); }
    NextAccepted(me, i, me');
    SentIsBounded(other);
    DeliverRun(|me.delivered|, ms, other.sent);
    AcceptKeepsSafe(other.endpoint.stream, other.sent, other.ledger, me.accepted, |me.delivered|, i);
    assert me'.delivered == other.sent[..CatchUp(|me.delivered|, ms)];
  }

  lemma LedgerEntry(x: Node, i: nat)
    requires LedgerOk(x) && i < |x.ledger|
    ensures x.ledger[i].header.id == i < WRAP32 - 1 && WellFormed(x.ledger[i]) && Carries(x.sent, x.ledger[i].messages)
  {
  }

  lemma LedgerDependsOn(x: Node, x': Node)
    requires LedgerOk(x) && x'.ledger == x.ledger && x'.sent == x.sent
    requires x'.endpoint.delivery.nextOutgoing == x.endpoint.delivery.nextOutgoing
    ensures LedgerOk(x') && |x'.ledger| == x'.endpoint.delivery.nextOutgoing
  {
  }

  lemma SentIsBounded(x: Node)
    requires StreamOk(x.endpoint.stream, x.sent, x.ledger)
    ensures |x.sent| < WRAP32
  {
  }

  lemma StreamIgnoresCounter(s: Stream, n: u32, sent: seq<seq<u8>>, ledger: seq<Packet>, accepted: seq<nat>, count: nat)
    requires StreamOk(s, sent, ledger) && Safe(s, accepted, count)
    ensures StreamOk(s.(nextExpected := n), sent, ledger) && Safe(s.(nextExpected := n), accepted, count)
  {
    assert s.(nextExpected := n).Held() == s.Held();
  }

  lemma NextAccepted(x: Node, i: u32, x': Node)
    requires AcksOk(x) && Accepts(x.endpoint.delivery, i) && i < WRAP32 - 1
    requires x'.endpoint.delivery == Accept(x.endpoint.delivery, i)
    requires x'.accepted == x.accepted + [i] && x'.ledger == x.ledger
    ensures AcksOk(x') && x'.endpoint.delivery.nextExpected == i + 1
  {
    forall k | 0 <= k < |x.accepted| ensures x.accepted[k] < i {
      assert x.accepted[k] in x.accepted;
      BelowExpected(x, x.accepted[k]);
    }
  }

  lemma HeardIsReadPacket(me: Node, other: Node, i: nat)
    requires LedgerOk(other) && CanAct(me, other, Hear(i))
    ensures Act(me, other, Hear(i)) == Heard(me, ReadPacket(me.endpoint, other.ledger[i]), i, i)
  {
    hide ReadPacket;
    ReadOfEncode(me.endpoint, other.ledger[i]);
    PacketRoundTrip(other.ledger[i]);
  }

  // Hearing a packet that is accepted.
  lemma HeardAccepted(me: Node, other: Node, i: nat)
    requires LedgerOk(other) && CanAct(me, other, Hear(i)) && i >= me.endpoint.delivery.nextExpected
    ensures i < WRAP32 - 1
    ensures var h := other.ledger[i].header;
            var (d, ns) := ProcessAcks(me.endpoint.delivery, h.ackSeq, h.ackMask);
            var (next, callbacks) := Deliver(me.endpoint.stream.nextExpected, other.ledger[i].messages);
            Act(me, other, Hear(i)) ==
            me.(endpoint := Endpoint(d.(pendingAcks := d.pendingAcks + [i], nextExpected := i + 1),
                                     ApplyNotices(me.endpoint.stream, ns).(nextExpected := next)),
                notices := me.notices + ns, accepted := me.accepted + [i], delivered := me.delivered + callbacks,
                cursor := i + 1)
  {
    hide LedgerOk, Act, Established, ProcessAcks, ApplyNotices, Deliver, Carries, WellFormed, ReadPacket;
    LedgerEntry(other, i);
    HeardIsReadPacket(me, other, i);
    PacketAccepted(me.endpoint, other.ledger[i]);
  }

  lemma PacketAccepted(e: Endpoint, p: Packet)
    requires p.header.id >= e.delivery.nextExpected && p.header.id < WRAP32 - 1
    ensures var (d, ns) := ProcessAcks(e.delivery, p.header.ackSeq, p.header.ackMask);
            var (next, callbacks) := Deliver(e.stream.nextExpected, p.messages);
            ReadPacket(e, p) ==
            Reading(Endpoint(d.(pendingAcks := d.pendingAcks + [p.header.id], nextExpected := p.header.id + 1),
                             ApplyNotices(e.stream, ns).(nextExpected := next)), ns, true, callbacks)
  {
    hide ProcessAcks, ApplyNotices, Deliver;
    ProcessAcksFrame(e.delivery, p.header);
    ApplyNoticesCounts(e.stream, ProcessAcks(e.delivery, p.header.ackSeq, p.header.ackMask).1);
  }

  // Hearing a stale packet: its statuses are computed, and the stream is not told.
  lemma HeardStale(me: Node, other: Node, i: nat)
    requires LedgerOk(other) && CanAct(me, other, Hear(i)) && i < me.endpoint.delivery.nextExpected
    ensures var h := other.ledger[i].header;
            var (d, ns) := ProcessAcks(me.endpoint.delivery, h.ackSeq, h.ackMask);
            Act(me, other, Hear(i)) ==
            me.(endpoint := Endpoint(d, me.endpoint.stream), notices := me.notices + ns, cursor := i + 1)
  {
    hide LedgerOk, Act, Established, ProcessAcks, ApplyNotices, Deliver, Carries, WellFormed;
    LedgerEntry(other, i);
    HeardIsReadPacket(me, other, i);
    ProcessAcksFrame(me.endpoint.delivery, other.ledger[i].header);
    assert me.delivered + [] == me.delivered;
  }

  // What hearing packet i does to everything but the stream.
  lemma HeardFields(me: Node, other: Node, i: nat)
    requires LedgerOk(other) && CanAct(me, other, Hear(i))
    ensures var me', h, d := Act(me, other, Hear(i)), other.ledger[i].header, me.endpoint.delivery;
            me'.notices == me.notices + ProcessAcks(d, h.ackSeq, h.ackMask).1 &&
            me'.endpoint.delivery.inFlight == ProcessAcks(d, h.ackSeq, h.ackMask).0.inFlight &&
            (if i >= d.nextExpected
             then me'.accepted == me.accepted + [i] && me'.endpoint.delivery.nextExpected == i + 1 &&
                  i < WRAP32 && me'.endpoint.delivery.pendingAcks == d.pendingAcks + [i]
             else me'.accepted == me.accepted && me'.endpoint.delivery.nextExpected == d.nextExpected) &&
            me'.cursor == i + 1 && me'.ledger == me.ledger && me'.sent == me.sent && me'.clock == me.clock
  {
    hide LedgerOk, Act, Established, ProcessAcks, ApplyNotices, Deliver;
    if i >= me.endpoint.delivery.nextExpected {
      HeardAccepted(me, other, i);
    } else {
      HeardStale(me, other, i);
    }
    ProcessAcksFrame(me.endpoint.delivery, other.ledger[i].header);
  }

  // What it delivers: the payloads from the counter to where the packet catches up.
  lemma HeardDelivers(me: Node, other: Node, i: nat)
    requires Local(me) && Local(other) && Cross(other, me)
    requires CanAct(me, other, Hear(i)) && i >= me.endpoint.delivery.nextExpected
    ensures |Act(me, other, Hear(i)).delivered| == CatchUp(|me.delivered|, other.ledger[i].messages)
  {
    hide LedgerOk, AcksOk, StatusesOk, StreamOk, Safe, Act, Established, Deliver, CatchUp, ProcessAcks, ApplyNotices;
    LedgerEntry(other, i);
    HeardAccepted(me, other, i);
    SentIsBounded(other);
    DeliverRun(|me.delivered|, other.ledger[i].messages, other.sent);
  }

  // ---- One step of the system, and whole runs ----

  lemma ActKeeps(me: Node, other: Node, action: Action)
    requires Local(me) && Local(other) && Cross(me, other) && Cross(other, me) && CanAct(me, other, action)
    ensures var me' := Act(me, other, action); Local(me') && Cross(me', other) && Cross(other, me')
  {
    hide Local, Cross, Act, CanAct;
    match action
    case Submit(payload) => SubmitKeeps(me, other, payload);
    case Emit(now, limit, tail) => EmitKeeps(me, other, now, limit, tail);
    case Expire(now) => ExpireKeeps(me, other, now);
    case Hear(i) => HearKeeps(me, other, i);
  }

  lemma StepKeeps(net: Network, s: System, l: Label)
    requires Inv(s) && Enabled(net, s, l)
    ensures Inv(Step(net, s, l))
  {
    hide Local, Cross, Act, CanAct;
    match l.side
    case A => ActKeeps(s.a, s.b, l.action);
    case B => ActKeeps(s.b, s.a, l.action);
  }

  lemma {:induction false} RunKeeps(net: Network, s: System, labels: seq<Label>)
    requires Inv(s) && Exec(net, s, labels).Some?
    ensures Inv(Exec(net, s, labels).value)
    decreases |labels|
  {
    hide Inv, Enabled, Step;
    if labels != [] {
      RunKeeps(net, s, labels[..|labels| - 1]);
      StepKeeps(net, Exec(net, s, labels[..|labels| - 1]).value, labels[|labels| - 1]);
    }
  }

  lemma InitiallyInv(timeoutA: int, capacityA: nat, timeoutB: int, capacityB: nat)
    ensures Inv(NewSystem(timeoutA, capacityA, timeoutB, capacityB))
  {
    hide Local, Cross;
    InitiallyLocal(timeoutA, capacityA);
    InitiallyLocal(timeoutB, capacityB);
    InitiallyCross(NewNode(timeoutA, capacityA), NewNode(timeoutB, capacityB));
    InitiallyCross(NewNode(timeoutB, capacityB), NewNode(timeoutA, capacityA));
  }

  lemma InitiallyLocal(timeout: int, capacity: nat)
    ensures Local(NewNode(timeout, capacity))
  {
    var x := NewNode(timeout, capacity);
    assert x.endpoint.stream.Held() == [];
    assert AllAcks(x.ledger) == [];
  }

  lemma InitiallyCross(x: Node, y: Node)
    requires x.notices == [] && x.sent == [] && x.ledger == [] && x.endpoint.stream.inFlight == []
    requires x.endpoint.stream.nextOutgoing == 0 && y.delivered == [] && y.endpoint.delivery.nextExpected == 0
    ensures Cross(x, y)
  {
    assert Released(x.endpoint.stream) <= 0;
  }

  // The invariants hold in every reachable state, on every network.
  lemma ReachableInv(net: Network, s: System)
    requires Reachable(net, s)
    ensures Inv(s)
  {
    hide Inv, Exec;
    var timeoutA, capacityA, timeoutB, capacityB, labels :|
      Exec(net, NewSystem(timeoutA, capacityA, timeoutB, capacityB), labels) == Some(s);
    InitiallyInv(timeoutA, capacityA, timeoutB, capacityB);
    RunKeeps(net, NewSystem(timeoutA, capacityA, timeoutB, capacityB), labels);
  }

  lemma ReachableInitially(net: Network, timeoutA: int, capacityA: nat, timeoutB: int, capacityB: nat)
    ensures Reachable(net, NewSystem(timeoutA, capacityA, timeoutB, capacityB))
  {
    var s := NewSystem(timeoutA, capacityA, timeoutB, capacityB);
    assert Exec(net, s, []) == Some(s);
  }

  lemma ReachableStep(net: Network, s: System, l: Label)
    requires Reachable(net, s) && Enabled(net, s, l)
    ensures Reachable(net, Step(net, s, l))
  {
    hide Enabled, Step;
    var timeoutA, capacityA, timeoutB, capacityB, labels :|
      Exec(net, NewSystem(timeoutA, capacityA, timeoutB, capacityB), labels) == Some(s);
    assert (labels + [l])[..|labels|] == labels;
    assert Exec(net, NewSystem(timeoutA, capacityA, timeoutB, capacityB), labels + [l]) == Some(Step(net, s, l));
  }
}
