/** A return path that loses and reorders nothing, and no timeouts: then DROP is as exact as ACK. */
module ExactReturnNetworks {
  import opened Integers
  import opened Common
  import opened Messages
  import opened StreamModel
  import opened DeliveryModel
  import opened EndpointModel
  import opened ProtocolSystem
  import opened Invariants

  // a has heard exactly the first a.cursor datagrams of b, and has resolved everything up to the last
  // acknowledgement in them: ACK for what they announce, DROP for the rest.
  predicate Exact(a: Node, b: Node) {
    a.cursor <= |b.ledger| && a.endpoint.delivery.nextExpected == a.cursor &&
    var heard := AllAcks(b.ledger[..a.cursor]);
    |a.notices| == (if heard == [] then 0 else heard[|heard| - 1] + 1) &&
    forall n :: n in a.notices ==> (n.status == Ack <==> n.id in heard)
  }

  lemma {:induction false} AllAcksPrefix(ledger: seq<Packet>, k: nat)
    requires k <= |ledger|
    ensures AllAcks(ledger[..k]) <= AllAcks(ledger)
  {
    if k < |ledger| {
      var n := |ledger| - 1;
      assert ledger[..n][..k] == ledger[..k];
      AllAcksPrefix(ledger[..n], k);
    } else {
      assert ledger[..k] == ledger;
    }
  }

  // What has been heard is a prefix of what was accepted.
  lemma HeardIsPrefix(b: Node, k: nat)
    requires AcksOk(b) && k <= |b.ledger|
    ensures AllAcks(b.ledger[..k]) <= b.accepted && Increasing(AllAcks(b.ledger[..k]))
  {
    AllAcksPrefix(b.ledger, k);
  }

  // A header whose top id was written resolves everything up to it.
  lemma ResolvedUpTo(a: Node, ackSeq: u32, mask: u32)
    requires StatusesOk(a) && mask > 0 && |a.notices| <= ackSeq + TopBit(mask) < a.endpoint.delivery.nextOutgoing
    ensures var ns := ProcessAcks(a.endpoint.delivery, ackSeq, mask).1;
            |a.notices| + |ns| == ackSeq + TopBit(mask) + 1 &&
            forall n :: n in ns ==> n.id >= |a.notices| && (n.status == Ack <==> n.id in AckIds(ackSeq, mask))
  {
    hide ProcessAcks, TopBit, AckIds;
    var fs, ns := a.endpoint.delivery.inFlight, ProcessAcks(a.endpoint.delivery, ackSeq, mask).1;
    ProcessAcksIsExact(a.endpoint.delivery, ackSeq, mask);
    if |ns| < |fs| { assert fs[|ns|..][0] in fs[|ns|..]; }
    if |ns| > 0 { assert ns[|ns| - 1] in ns; }
  }

  // The statuses computed from the next datagram: exactly up to its top id, ACK exactly for its own ids.
  lemma NextDatagram(a: Node, b: Node)
    requires StatusesOk(a) && AcksOk(b) && b.endpoint.delivery.nextExpected <= a.endpoint.delivery.nextOutgoing
    requires Exact(a, b) && a.cursor < |b.ledger|
    ensures var h := b.ledger[a.cursor].header;
            var ns := ProcessAcks(a.endpoint.delivery, h.ackSeq, h.ackMask).1;
            var ids := HeaderAcks(h);
            (ids == [] ==> ns == []) &&
            (ids != [] ==> |a.notices| + |ns| == ids[|ids| - 1] + 1) &&
            (forall n :: n in ns ==> n.id >= |a.notices| && (n.status == Ack <==> n.id in ids))
  {
    hide StatusesOk, AcksOk, AckIds, TopBit, AllAcks;
    var h := b.ledger[a.cursor].header;
    if h.ackMask > 0 {
      var ids, heard := HeaderAcks(h), AllAcks(b.ledger[..a.cursor]);
      AckIdsIncrease(h.ackSeq, h.ackMask);
      assert ids[|ids| - 1] in ids;
      HeaderAcksAccepted(b, a.cursor, ids[|ids| - 1]);
      HeardStep(b, a.cursor);
      if heard != [] { assert heard[|heard| - 1] in heard; }
      ResolvedUpTo(a, h.ackSeq, h.ackMask);
    } else {
      NoAcks(h);
    }
  }

  lemma NoAcks(h: Header)
    requires h.ackMask == 0
    ensures HeaderAcks(h) == []
  {
  }

  // One more datagram extends what was heard by its own ids, all larger.
  lemma HeardStep(b: Node, k: nat)
    requires AcksOk(b) && k < |b.ledger|
    ensures var heard, ids := AllAcks(b.ledger[..k]), HeaderAcks(b.ledger[k].header);
            AllAcks(b.ledger[..k + 1]) == heard + ids &&
            forall x, y :: x in heard && y in ids ==> x < y
  {
    var heard, ids := AllAcks(b.ledger[..k]), HeaderAcks(b.ledger[k].header);
    assert b.ledger[..k + 1][..k] == b.ledger[..k];
    HeardIsPrefix(b, k + 1);
    forall x, y | x in heard && y in ids ensures x < y {
      var i :| 0 <= i < |heard| && heard[i] == x;
      var j :| 0 <= j < |ids| && ids[j] == y;
      assert (heard + ids)[i] < (heard + ids)[|heard| + j];
    }
  }

  lemma HearKeepsExact(a: Node, b: Node)
    requires Local(a) && Local(b) && Cross(a, b) && Exact(a, b) && CanAct(a, b, Hear(a.cursor))
    ensures Exact(Act(a, b, Hear(a.cursor)), b)
  {
    hide StreamOk, AcksOk, StatusesOk, LedgerOk, Safe, Act, Established, ProcessAcks, AllAcks, HeaderAcks;
    HeardFields(a, b, a.cursor);
    assert |a.ledger| == a.endpoint.delivery.nextOutgoing by { LedgerDependsOn(a, a); }
    NextDatagram(a, b);
    HeardStep(b, a.cursor);
    HeardIsPrefix(b, a.cursor);
    var h := b.ledger[a.cursor].header;
    assert Consecutive(a.notices, 0) by { NoticesConsecutive(a); }
    ExtendExact(a, AllAcks(b.ledger[..a.cursor]), HeaderAcks(h), ProcessAcks(a.endpoint.delivery, h.ackSeq, h.ackMask).1);
  }

  lemma NoticesConsecutive(x: Node)
    requires StatusesOk(x)
    ensures Consecutive(x.notices, 0)
  {
  }

  lemma ExtendExact(a: Node, heard: seq<nat>, ids: seq<nat>, ns: seq<Notice>)
    requires Consecutive(a.notices, 0)
    requires |a.notices| == (if heard == [] then 0 else heard[|heard| - 1] + 1)
    requires forall n :: n in a.notices ==> (n.status == Ack <==> n.id in heard)
    requires ids == [] ==> ns == []
    requires ids != [] ==> |a.notices| + |ns| == ids[|ids| - 1] + 1
    requires forall n :: n in ns ==> n.id >= |a.notices| && (n.status == Ack <==> n.id in ids)
    requires Increasing(heard) && forall x, y :: x in heard && y in ids ==> x < y
    ensures var all := heard + ids;
            |a.notices + ns| == (if all == [] then 0 else all[|all| - 1] + 1) &&
            forall n :: n in a.notices + ns ==> (n.status == Ack <==> n.id in all)
  {
    var all := heard + ids;
    hide Consecutive;
    forall x | x in heard ensures x < |a.notices| {
      var k :| 0 <= k < |heard| && heard[k] == x;
      if k < |heard| - 1 { assert heard[k] < heard[|heard| - 1]; }
    }
    forall y | y in ids ensures y >= |a.notices| {
      if heard != [] { assert heard[|heard| - 1] in heard; }
    }
    forall n | n in a.notices ensures n.id < |a.notices| {
      NoticeIdBelow(a.notices, n);
    }
  }

  lemma NoticeIdBelow(ns: seq<Notice>, n: Notice)
    requires Consecutive(ns, 0) && n in ns
    ensures n.id < |ns|
  {
    var k :| 0 <= k < |ns| && ns[k] == n;
  }

  lemma StepKeepsExact(s: System, l: Label)
    requires Inv(s) && Exact(s.a, s.b) && Enabled(ExactReturn, s, l)
    ensures var t := Step(ExactReturn, s, l); Exact(t.a, t.b)
  {
    hide Local, Cross, Exact, Act;
    match l.side
    case A =>
      if l.action.Hear? {
        HearKeepsExact(s.a, s.b);
      } else {
        OtherwiseKeepsExact(s.a, s.b, l.action);
      }
    case B =>
      LedgerGrows(s.b, s.a, l.action, s.a);
  }

  lemma OtherwiseKeepsExact(a: Node, b: Node, action: Action)
    requires Exact(a, b) && CanAct(a, b, action) && !action.Hear? && Permits(ExactReturn, A, a, b, action)
    ensures Exact(Act(a, b, action), b)
  {
    hide Exact;
    if action.Expire? { assert a.notices + Timeout(a.endpoint, action.now).1 == a.notices; }
    ExactDependsOn(a, Act(a, b, action), b);
  }

  lemma ExactDependsOn(a: Node, a': Node, b: Node)
    requires Exact(a, b) && a'.cursor == a.cursor && a'.notices == a.notices
    requires a'.endpoint.delivery.nextExpected == a.endpoint.delivery.nextExpected
    ensures Exact(a', b)
  {
  }

  lemma LedgerGrows(b: Node, other: Node, action: Action, a: Node)
    requires Exact(a, b) && CanAct(b, other, action)
    ensures Exact(a, Act(b, other, action))
  {
    assert Act(b, other, action).ledger[..a.cursor] == b.ledger[..a.cursor];
  }

  lemma {:induction false} RunKeepsExact(s: System, labels: seq<Label>)
    requires Inv(s) && Exact(s.a, s.b) && Exec(ExactReturn, s, labels).Some?
    ensures var t := Exec(ExactReturn, s, labels).value; Inv(t) && Exact(t.a, t.b)
    decreases |labels|
  {
    hide Inv, Exact, Step, Enabled;
    if labels != [] {
      var t := Exec(ExactReturn, s, labels[..|labels| - 1]).value;
      RunKeepsExact(s, labels[..|labels| - 1]);
      StepKeeps(ExactReturn, t, labels[|labels| - 1]);
      StepKeepsExact(t, labels[|labels| - 1]);
    }
  }

  lemma InitiallyExact(timeoutA: int, capacityA: nat, timeoutB: int, capacityB: nat)
    ensures var s := NewSystem(timeoutA, capacityA, timeoutB, capacityB); Exact(s.a, s.b)
  {
  }

  lemma ReachableExact(s: System)
    requires Reachable(ExactReturn, s)
    ensures Inv(s) && Exact(s.a, s.b)
  {
    hide Inv, Exec, Exact;
    var timeoutA, capacityA, timeoutB, capacityB, labels :|
      Exec(ExactReturn, NewSystem(timeoutA, capacityA, timeoutB, capacityB), labels) == Some(s);
    InitiallyInv(timeoutA, capacityA, timeoutB, capacityB);
    InitiallyExact(timeoutA, capacityA, timeoutB, capacityB);
    RunKeepsExact(NewSystem(timeoutA, capacityA, timeoutB, capacityB), labels);
  }

  // A packet is reported ACK exactly if the peer accepted it; a packet reported DROP was never accepted,
  // and its id is already too old to be.
  lemma StatusesAreExact(s: System, n: Notice)
    ensures Reachable(ExactReturn, s) && n in s.a.notices ==> (n.status == Ack <==> n.id in s.b.accepted)
    ensures Reachable(ExactReturn, s) && n in s.a.notices && n.status == Drop ==> n.id < s.b.endpoint.delivery.nextExpected
  {
    hide Inv, Exact, Exec;
    if Reachable(ExactReturn, s) && n in s.a.notices {
      ReachableExact(s);
      ExactStatus(s, n);
    }
  }

  lemma ExactStatus(s: System, n: Notice)
    requires Inv(s) && Exact(s.a, s.b) && n in s.a.notices
    ensures n.status == Ack <==> n.id in s.b.accepted
    ensures n.status == Drop ==> n.id < s.b.endpoint.delivery.nextExpected
  {
    hide StreamOk, LedgerOk, Safe;
    var heard := AllAcks(s.b.ledger[..s.a.cursor]);
    HeardIsPrefix(s.b, s.a.cursor);
    var k :| 0 <= k < |s.a.notices| && s.a.notices[k] == n;
    var last := heard[|heard| - 1];
    assert last in s.b.accepted by { assert s.b.accepted[|heard| - 1] == last; }
    BelowExpected(s.b, last);
    forall j | |heard| <= j < |s.b.accepted| ensures s.b.accepted[j] > n.id {
      assert s.b.accepted[|heard| - 1] < s.b.accepted[j];
    }
    if n.id in s.b.accepted {
      var j :| 0 <= j < |s.b.accepted| && s.b.accepted[j] == n.id;
      assert heard[j] == n.id;
    }
  }

  // ---- Once given up, never accepted ----

  predicate GivenUp(y: Node, id: nat) {
    id !in y.accepted && id < y.endpoint.delivery.nextExpected
  }

  lemma ActKeepsGivenUp(me: Node, other: Node, action: Action, id: nat)
    requires LedgerOk(other) && CanAct(me, other, action) && GivenUp(me, id)
    ensures GivenUp(Act(me, other, action), id)
  {
    if action.Hear? {
      hide LedgerOk, Act, CanAct;
      HeardFields(me, other, action.index);
    } else {
      OtherwiseKeepsGivenUp(me, other, action, id);
    }
  }

  lemma OtherwiseKeepsGivenUp(me: Node, other: Node, action: Action, id: nat)
    requires CanAct(me, other, action) && GivenUp(me, id) && !action.Hear?
    ensures GivenUp(Act(me, other, action), id)
  {
  }

  // Whatever any network does afterwards, the receiver never accepts a packet it has given up.
  lemma {:induction false} GivenUpForEver(net: Network, s: System, labels: seq<Label>, id: nat)
    requires Inv(s) && GivenUp(s.b, id) && Exec(net, s, labels).Some?
    ensures id !in Exec(net, s, labels).value.b.accepted
    ensures GivenUp(Exec(net, s, labels).value.b, id)
    decreases |labels|
  {
    hide LedgerOk, AcksOk, StatusesOk, StreamOk, Cross, Act, CanAct, Permits;
    if labels != [] {
      var t := Exec(net, s, labels[..|labels| - 1]).value;
      var l := labels[|labels| - 1];
      GivenUpForEver(net, s, labels[..|labels| - 1], id);
      RunKeeps(net, s, labels[..|labels| - 1]);
      if l.side == B { ActKeepsGivenUp(t.b, t.a, l.action, id); }
    }
  }

  // So a DROP is final.
  lemma DropIsFinal(s: System, n: Notice, net: Network, labels: seq<Label>)
    ensures Reachable(ExactReturn, s) && n in s.a.notices && n.status == Drop && Exec(net, s, labels).Some? ==>
              n.id !in Exec(net, s, labels).value.b.accepted
  {
    hide Local, Cross, Exec;
    if Reachable(ExactReturn, s) && n in s.a.notices && n.status == Drop && Exec(net, s, labels).Some? {
      StatusesAreExact(s, n);
      ReachableExact(s);
      GivenUpForEver(net, s, labels, n.id);
    }
  }
}
