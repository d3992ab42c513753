/** The stream's own assertions: when they hold in a step, and that they hold throughout unless a status is discarded. */
module InOrderNetworks {
  import opened Integers
  import opened Messages
  import opened StreamModel
  import opened DeliveryModel
  import opened EndpointModel
  import opened ProtocolSystem
  import opened Invariants

  // The statuses a step hands to the stream; those of a stale packet never get there.
  function Handed(me: Node, other: Node, action: Action): seq<Notice>
    requires CanAct(me, other, action)
  {
    match action
    case Submit(_) => []
    case Emit(_, _, _) => []
    case Expire(now) => Timeout(me.endpoint, now).1
    case Hear(i) =>
      var r := Read(me.endpoint, Datagram(other, i));
      if r.accepted then r.notices else []
  }

  predicate Asserts(me: Node, other: Node, action: Action)
    requires CanAct(me, other, action)
  {
    AssertionsHold(me.endpoint.stream, Handed(me, other, action))
  }

  lemma HandedIsConsecutive(me: Node, other: Node, action: Action)
    requires Local(me) && Local(other) && CanAct(me, other, action)
    ensures Consecutive(Handed(me, other, action), |me.notices|)
  {
    match action
    case Submit(_) =>
    case Emit(_, _, _) =>
    case Expire(now) =>
    case Hear(i) =>
      ReadOfEncode(me.endpoint, other.ledger[i]);
      AcksFromPeer(me, other, i);
  }

  // On any network: no assertion fails during a step if and only if it hands over no status,
  // or the stream has nothing in flight that is older than the first packet without a status.
  lemma AssertsExactly(net: Network, s: System, action: Action)
    requires Reachable(net, s) && CanAct(s.a, s.b, action)
    ensures var fs := s.a.endpoint.stream.inFlight;
            Asserts(s.a, s.b, action) <==>
            Handed(s.a, s.b, action) == [] || fs == [] || fs[0].packetId >= |s.a.notices|
  {
    ReachableInv(net, s);
    HandedIsConsecutive(s.a, s.b, action);
    AssertionsHoldExactly(s.a.endpoint.stream, Handed(s.a, s.b, action), |s.a.notices|);
  }

  // ---- When no status is discarded ----

  // The stream has nothing in flight that already got its status.
  predicate InStep(x: Node) {
    forall f :: f in x.endpoint.stream.inFlight ==> f.packetId >= |x.notices|
  }

  // Nothing still to come in order is stale.
  predicate Fresh(x: Node) {
    x.endpoint.delivery.nextExpected == x.cursor
  }

  // In-order networks discard no status, for no datagram is ever stale.
  lemma FreshDiscardsNothing(me: Node, other: Node, i: nat)
    requires LedgerOk(other) && Fresh(me) && CanAct(me, other, Hear(i)) && i >= me.cursor
    ensures !Discards(me, other, i)
  {
    hide ProcessAcks, ApplyNotices, Deliver, WellFormed, Carries;
    LedgerEntry(other, i);
    ReadOfEncode(me.endpoint, other.ledger[i]);
    ProcessAcksFrame(me.endpoint.delivery, other.ledger[i].header);
  }

  lemma {:induction false} ApplyNoticesClears(s: Stream, ns: seq<Notice>, first: nat)
    requires PacketsIncrease(s.inFlight) && Consecutive(ns, first)
    requires forall f :: f in s.inFlight ==> f.packetId >= first
    ensures forall f :: f in ApplyNotices(s, ns).inFlight ==> f.packetId >= first + |ns|
    decreases |ns|
  {
    if ns != [] {
      var k := WithoutPacketIsSuffix(s.inFlight, ns[0].id);
      var s' := OnStatus(s, ns[0].id, ns[0].status);
      forall f | f in s'.inFlight ensures f.packetId >= first + 1 {
        assert s'.inFlight == s.inFlight[k..];
        var j :| 0 <= j < |s'.inFlight| && s'.inFlight[j] == f;
        assert s.inFlight[k].packetId <= s.inFlight[k + j].packetId;
      }
      forall i | 0 <= i < |ns[1..]| ensures ns[1..][i].id == first + 1 + i { assert ns[1..][i] == ns[i + 1]; }
      ApplyNoticesClears(s', ns[1..], first + 1);
    }
  }

  lemma EmitKeepsInStep(me: Node, other: Node, now: int, limit: nat, tail: seq<u8>)
    requires StatusesOk(me) && InStep(me) && CanAct(me, other, Emit(now, limit, tail))
    ensures InStep(Act(me, other, Emit(now, limit, tail)))
  {
    var s := me.endpoint.stream;
    var id := me.endpoint.delivery.nextOutgoing;
    var s' := StreamModel.Write(s, id, limit - HEADER_SIZE).0;
    forall f | f in s'.inFlight ensures f.packetId >= |me.notices| {
      assert f in s.inFlight || f.packetId == id;
    }
  }

  lemma HearKeepsInStep(me: Node, other: Node, i: nat)
    requires Local(me) && Local(other) && InStep(me) && CanAct(me, other, Hear(i)) && !Discards(me, other, i)
    ensures InStep(Act(me, other, Hear(i)))
  {
    hide AcksOk, StatusesOk, Act, Established, ProcessAcks, Deliver, WellFormed, Carries, ApplyNotices;
    var p := other.ledger[i];
    ReadOfEncode(me.endpoint, p);
    HeardIsReadPacket(me, other, i);
    AcksFromPeer(me, other, i);
    var (d, ns) := ProcessAcks(me.endpoint.delivery, p.header.ackSeq, p.header.ackMask);
    ApplyNoticesClears(me.endpoint.stream, ns, |me.notices|);
  }

  lemma ActKeepsInStep(me: Node, other: Node, action: Action)
    requires Local(me) && Local(other) && InStep(me) && CanAct(me, other, action)
    requires action.Hear? ==> !Discards(me, other, action.index)
    ensures InStep(Act(me, other, action))
  {
    hide Discards;
    match action
    case Submit(_) =>
    case Emit(now, limit, tail) => EmitKeepsInStep(me, other, now, limit, tail);
    case Expire(now) =>
      HandedIsConsecutive(me, other, action);
      ApplyNoticesClears(me.endpoint.stream, Timeout(me.endpoint, now).1, |me.notices|);
    case Hear(i) => HearKeepsInStep(me, other, i);
  }

  lemma ActKeepsFresh(me: Node, other: Node, action: Action)
    requires LedgerOk(other) && Fresh(me) && CanAct(me, other, action)
    ensures Fresh(Act(me, other, action)) || (action.Hear? && action.index < me.cursor)
  {
    if action.Hear? {
      hide LedgerOk, Act, CanAct;
      HeardFields(me, other, action.index);
    }
  }

  // One step on a network on which no status is discarded, the in-order one among them.
  lemma StepKeepsInStep(net: Network, side: Side, me: Node, other: Node, action: Action)
    requires net == NoneDiscarded || net == InOrder
    requires Local(me) && Local(other) && InStep(me) && (net == InOrder ==> Fresh(me))
    requires CanAct(me, other, action) && Permits(net, side, me, other, action)
    ensures var me' := Act(me, other, action); InStep(me') && (net == InOrder ==> Fresh(me'))
  {
    hide LedgerOk, AcksOk, StatusesOk, StreamOk, Act, CanAct, Discards, Fresh, InStep;
    if net == InOrder {
      ActKeepsFresh(me, other, action);
      if action.Hear? { FreshDiscardsNothing(me, other, action.index); }
    }
    ActKeepsInStep(me, other, action);
  }

  lemma {:induction false} RunKeepsInStep(net: Network, s: System, labels: seq<Label>)
    requires net == NoneDiscarded || net == InOrder
    requires Inv(s) && InStep(s.a) && InStep(s.b) && Fresh(s.a) && Fresh(s.b) && Exec(net, s, labels).Some?
    ensures var t := Exec(net, s, labels).value;
            Inv(t) && InStep(t.a) && InStep(t.b) && (net == InOrder ==> Fresh(t.a) && Fresh(t.b))
    decreases |labels|
  {
    hide Local, Cross, InStep, Fresh, Act, CanAct, Permits;
    if labels != [] {
      var t := Exec(net, s, labels[..|labels| - 1]).value;
      var l := labels[|labels| - 1];
      RunKeepsInStep(net, s, labels[..|labels| - 1]);
      StepKeeps(net, t, l);
      if l.side == A {
        StepKeepsInStep(net, A, t.a, t.b, l.action);
      } else {
        StepKeepsInStep(net, B, t.b, t.a, l.action);
      }
    }
  }

  // As long as no status is discarded, as on any in-order lossy network, no assertion of the stream ever fails,
  // at any point of any batch.
  lemma NoAssertionFails(net: Network, s: System, l: Label)
    requires net == NoneDiscarded || net == InOrder
    requires Reachable(net, s) && Enabled(net, s, l)
    ensures if l.side == A then Asserts(s.a, s.b, l.action) else Asserts(s.b, s.a, l.action)
  {
    hide Handed, Permits;
    InStepReachable(net, s);
    var me, other := if l.side == A then s.a else s.b, if l.side == A then s.b else s.a;
    HandedIsConsecutive(me, other, l.action);
    AssertionsHoldExactly(me.endpoint.stream, Handed(me, other, l.action), |me.notices|);
    var fs := me.endpoint.stream.inFlight;
    if fs != [] { assert fs[0] in fs; }
  }

  lemma InStepReachable(net: Network, s: System)
    requires net == NoneDiscarded || net == InOrder
    requires Reachable(net, s)
    ensures Inv(s) && InStep(s.a) && InStep(s.b) && (net == InOrder ==> Fresh(s.a) && Fresh(s.b))
  {
    hide Inv, Exec, InStep, Fresh;
    var timeoutA, capacityA, timeoutB, capacityB, labels :|
      Exec(net, NewSystem(timeoutA, capacityA, timeoutB, capacityB), labels) == Some(s);
    InitiallyInv(timeoutA, capacityA, timeoutB, capacityB);
    InitiallyInStep(timeoutA, capacityA, timeoutB, capacityB);
    RunKeepsInStep(net, NewSystem(timeoutA, capacityA, timeoutB, capacityB), labels);
  }

  lemma InitiallyInStep(timeoutA: int, capacityA: nat, timeoutB: int, capacityB: nat)
    ensures var s := NewSystem(timeoutA, capacityA, timeoutB, capacityB);
            InStep(s.a) && InStep(s.b) && Fresh(s.a) && Fresh(s.b)
  {
  }

  // Every in-order step is a step that discards nothing.
  lemma InOrderDiscardsNothing(s: System, l: Label)
    requires Reachable(InOrder, s) && Enabled(InOrder, s, l)
    ensures Enabled(NoneDiscarded, s, l) && Step(NoneDiscarded, s, l) == Step(InOrder, s, l)
  {
    hide AcksOk, StatusesOk, StreamOk, Cross, Discards, Fresh, InStep, Act;
    InStepReachable(InOrder, s);
    if l.action.Hear? {
      if l.side == A {
        FreshDiscardsNothing(s.a, s.b, l.action.index);
      } else {
        FreshDiscardsNothing(s.b, s.a, l.action.index);
      }
    }
  }
}
