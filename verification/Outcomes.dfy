/** What the steps of the system do, outright, in every reachable state. */
module Outcomes {
  import opened Integers
  import opened Common
  import opened Messages
  import opened StreamModel
  import opened DeliveryModel
  import opened EndpointModel
  import opened ProtocolSystem
  import opened Invariants
  import opened InOrderNetworks

  function Actor(s: System, side: Side): Node {
    if side == A then s.a else s.b
  }

  function Partner(s: System, side: Side): Node {
    if side == A then s.b else s.a
  }

  // ---- Statuses ----

  // Everything the statuses of one step do to the stream, where j is the index of the first DROP among them, or their
  // number if there is none. The k flights of the packets acknowledged before it are released, unless flights older than
  // all of them block the queue; then a DROP puts whatever else was in flight back in front of what waits.
  lemma StatusesTakeEffect(net: Network, s: System, l: Label, ns: seq<Notice>, j: nat) returns (k: nat)
    requires Reachable(net, s) && Enabled(net, s, l) && (l.action.Expire? || l.action.Hear?)
    requires Actor(Step(net, s, l), l.side).notices == Actor(s, l.side).notices + ns
    requires l.action.Hear? ==> Actor(Step(net, s, l), l.side).accepted != Actor(s, l.side).accepted
    requires j <= |ns| && (forall i :: 0 <= i < j ==> ns[i].status == Ack) && (j < |ns| ==> ns[j].status == Drop)
    ensures var x, t := Actor(s, l.side), Actor(Step(net, s, l), l.side).endpoint.stream;
            var fs, ps := x.endpoint.stream.inFlight, x.endpoint.stream.pending;
            k <= |fs| && Released(t) == Released(x.endpoint.stream) + k &&
            (forall i :: 0 <= i < |fs| ==>
               (i < k <==> fs[0].packetId >= |x.notices| && fs[i].packetId < |x.notices| + j)) &&
            (j == |ns| ==> t.inFlight == fs[k..] && t.pending == ps) &&
            (j < |ns| ==> t.inFlight == [] && t.pending == MessagesOf(fs[k..]) + ps)
  {
    hide Inv, Act, CanAct, ApplyNotices, Permits, Released, Exec;
    ReachableInv(net, s);
    var me, other := Actor(s, l.side), Partner(s, l.side);
    LocalOf(s, l.side);
    StreamAfter(me, other, l.action, ns);
    k := BatchOutcome(me.endpoint.stream, ns, |me.notices|, j);
    ReleasedAfter(me.endpoint.stream, ApplyNotices(me.endpoint.stream, ns), k);
    ReleasedIgnoresCounter(ApplyNotices(me.endpoint.stream, ns), Act(me, other, l.action).endpoint.stream);
  }

  lemma LocalOf(s: System, side: Side)
    requires Inv(s)
    ensures Local(Actor(s, side)) && Local(Partner(s, side))
    ensures PacketsIncrease(Actor(s, side).endpoint.stream.inFlight)
  {
  }

  // The stream after the step, but for the receiver's counter.
  lemma StreamAfter(me: Node, other: Node, action: Action, ns: seq<Notice>)
    requires Local(me) && Local(other) && CanAct(me, other, action) && (action.Expire? || action.Hear?)
    requires Act(me, other, action).notices == me.notices + ns
    requires action.Hear? ==> Act(me, other, action).accepted != me.accepted
    ensures Consecutive(ns, |me.notices|)
    ensures var s, t := ApplyNotices(me.endpoint.stream, ns), Act(me, other, action).endpoint.stream;
            t == s.(nextExpected := t.nextExpected)
  {
    hide LedgerOk, AcksOk, StatusesOk, StreamOk, ProcessAcks, ApplyNotices, Deliver, DropOld;
    HandedIsConsecutive(me, other, action);
    if action.Hear? {
      hide Act, Handed;
      var h := other.ledger[action.index].header;
      HeardFields(me, other, action.index);
      HeardAccepted(me, other, action.index);
      SameTail(me.notices, ns, ProcessAcks(me.endpoint.delivery, h.ackSeq, h.ackMask).1);
      AcksFromPeer(me, other, action.index);
    } else {
      SameTail(me.notices, ns, Handed(me, other, action));
    }
  }

  lemma SameTail<T>(head: seq<T>, x: seq<T>, y: seq<T>)
    requires head + x == head + y
    ensures x == y
  {
    assert (head + x)[|head|..] == x && (head + y)[|head|..] == y;
  }

  lemma ReleasedAfter(s: Stream, t: Stream, k: nat)
    requires k <= |s.inFlight| && t.nextOutgoing == s.nextOutgoing
    requires (t.inFlight == s.inFlight[k..] && t.pending == s.pending) ||
             (t.inFlight == [] && t.pending == MessagesOf(s.inFlight[k..]) + s.pending)
    ensures Released(t) == Released(s) + k
  {
  }

  lemma ReleasedIgnoresCounter(s: Stream, t: Stream)
    requires t == s.(nextExpected := t.nextExpected)
    ensures Released(t) == Released(s)
  {
  }

  // ---- Submitting a payload ----

  // A payload waits behind all others under the number of payloads sent before it; nothing in flight is touched.
  lemma SubmittingIsExact(net: Network, s: System, l: Label)
    requires Reachable(net, s) && Enabled(net, s, l) && l.action.Submit? && l.action.payload != []
    ensures var x, x' := Actor(s, l.side), Actor(Step(net, s, l), l.side);
            var t, t' := x.endpoint.stream, x'.endpoint.stream;
            x'.sent == x.sent + [l.action.payload] && x'.endpoint.delivery == x.endpoint.delivery &&
            t'.inFlight == t.inFlight && t'.nextExpected == t.nextExpected && Released(t') == Released(t) &&
            t'.pending == t.pending + [Message(|x.sent|, l.action.payload)]
  {
    hide Permits, Exec, AcksOk, StatusesOk, LedgerOk, Safe;
    ReachableInv(net, s);
  }

  // ---- Hearing a datagram ----

  // A datagram is accepted exactly if it is newer than everything accepted before. Then its messages are delivered
  // from the counter on, all or none of them; otherwise the stream is not touched.
  lemma HearingIsExact(net: Network, s: System, l: Label)
    requires Reachable(net, s) && Enabled(net, s, l) && l.action.Hear?
    ensures var x, y, x' := Actor(s, l.side), Partner(s, l.side), Actor(Step(net, s, l), l.side);
            var i := l.action.index;
            if forall id :: id in x.accepted ==> id < i
            then x'.accepted == x.accepted + [i] &&
                 x'.endpoint.delivery.pendingAcks == x.endpoint.delivery.pendingAcks + [i] &&
                 |x.delivered| <= CatchUp(|x.delivered|, y.ledger[i].messages) <= |y.sent| &&
                 x'.delivered == y.sent[..CatchUp(|x.delivered|, y.ledger[i].messages)]
            else x'.accepted == x.accepted && x'.delivered == x.delivered && x'.endpoint.stream == x.endpoint.stream &&
                 x'.endpoint.delivery.pendingAcks == x.endpoint.delivery.pendingAcks
  {
    hide Inv, Act, CanAct, Permits, Exec;
    ReachableInv(net, s);
    HearingKeepsExactly(Actor(s, l.side), Partner(s, l.side), l.action.index) by { SidesOf(s, l.side); }
  }

  lemma SidesOf(s: System, side: Side)
    requires Inv(s)
    ensures Local(Actor(s, side)) && Local(Partner(s, side))
    ensures Cross(Partner(s, side), Actor(s, side)) && Cross(Actor(s, side), Partner(s, side))
  {
  }

  lemma HearingKeepsExactly(me: Node, other: Node, i: nat)
    requires Local(me) && Local(other) && Cross(other, me) && CanAct(me, other, Hear(i))
    ensures var me' := Act(me, other, Hear(i));
            if forall id :: id in me.accepted ==> id < i
            then me'.accepted == me.accepted + [i] &&
                 me'.endpoint.delivery.pendingAcks == me.endpoint.delivery.pendingAcks + [i] &&
                 |me.delivered| <= CatchUp(|me.delivered|, other.ledger[i].messages) <= |other.sent| &&
                 me'.delivered == other.sent[..CatchUp(|me.delivered|, other.ledger[i].messages)]
            else me'.accepted == me.accepted && me'.delivered == me.delivered &&
                 me'.endpoint.stream == me.endpoint.stream &&
                 me'.endpoint.delivery.pendingAcks == me.endpoint.delivery.pendingAcks
  {
    hide LedgerOk, StatusesOk, StreamOk, Safe, Act, Established, ProcessAcks, ApplyNotices, Deliver, CatchUp, Carries;
    NewerIsExpected(me, i);
    if i >= me.endpoint.delivery.nextExpected {
      LedgerEntry(other, i);
      SentIsBounded(other);
      HeardAccepted(me, other, i);
      ProcessAcksFrame(me.endpoint.delivery, other.ledger[i].header);
      DeliverRun(|me.delivered|, other.ledger[i].messages, other.sent);
      var n := CatchUp(|me.delivered|, other.ledger[i].messages);
      assert other.sent[..|me.delivered|] + other.sent[|me.delivered|..n] == other.sent[..n];
    } else {
      HeardStale(me, other, i);
      ProcessAcksFrame(me.endpoint.delivery, other.ledger[i].header);
    }
  }

  lemma NewerIsExpected(x: Node, i: nat)
    requires AcksOk(x)
    ensures (forall id :: id in x.accepted ==> id < i) <==> i >= x.endpoint.delivery.nextExpected
  {
    forall id | id in x.accepted ensures id < x.endpoint.delivery.nextExpected { BelowExpected(x, id); }
    if x.accepted != [] { assert x.accepted[|x.accepted| - 1] in x.accepted; }
  }

  // On any network: whether it is accepted or not, a datagram gives a status to every packet without one up to the
  // highest id it announces, in order, ACK exactly to those it announces.
  lemma HearingResolves(net: Network, s: System, l: Label)
    requires Reachable(net, s) && Enabled(net, s, l) && l.action.Hear?
    ensures var x, y, x' := Actor(s, l.side), Partner(s, l.side), Actor(Step(net, s, l), l.side);
            ResolvesExactly(x, y.ledger[l.action.index].header, x')
  {
    hide Inv, Act, CanAct, Permits, Exec, ResolvesExactly;
    ReachableInv(net, s);
    HearingResolvesUpTo(Actor(s, l.side), Partner(s, l.side), l.action.index) by { SidesOf(s, l.side); }
  }

  predicate ResolvesExactly(x: Node, h: Header, x': Node) {
    var acks := HeaderAcks(h);
    Increasing(acks) && x.notices <= x'.notices &&
    |x'.notices| == (if acks == [] || acks[|acks| - 1] < |x.notices| then |x.notices| else acks[|acks| - 1] + 1) &&
    forall id :: |x.notices| <= id < |x'.notices| ==>
      x'.notices[id].id == id && (x'.notices[id].status == Ack <==> id in acks)
  }

  lemma HearingResolvesUpTo(x: Node, y: Node, i: nat)
    requires Local(x) && Local(y) && Cross(x, y) && CanAct(x, y, Hear(i))
    ensures ResolvesExactly(x, y.ledger[i].header, Act(x, y, Hear(i)))
  {
    hide LedgerOk, AcksOk, StreamOk, Act, Established, HeaderAcks, ProcessAcks, StatusesOk, Safe, ResolvesExactly;
    var h, d := y.ledger[i].header, x.endpoint.delivery;
    HeardFields(x, y, i);
    LedgerDependsOn(x, x);
    InFlightNumbers(x);
    AnnouncedIsWritten(x, y, i);
    var (d', ns) := ProcessAcks(d, h.ackSeq, h.ackMask);
    HeaderResolves(d, |x.notices|, h);
    var x' := Act(x, y, Hear(i));
    assert x'.notices == x.notices + ns;
    assert ResolvesExactly(x, h, x') by { Appended(x, h, ns, x'); }
  }

  lemma Appended(x: Node, h: Header, ns: seq<Notice>, x': Node)
    requires x'.notices == x.notices + ns && Increasing(HeaderAcks(h))
    requires |ns| == Reach(|x.notices|, HeaderAcks(h))
    requires forall k :: 0 <= k < |ns| ==>
               ns[k].id == |x.notices| + k && (ns[k].status == Ack <==> ns[k].id in HeaderAcks(h))
    ensures ResolvesExactly(x, h, x')
  {
    hide HeaderAcks;
    forall id | |x.notices| <= id < |x'.notices|
      ensures x'.notices[id].id == id && (x'.notices[id].status == Ack <==> id in HeaderAcks(h))
    {
      assert x'.notices[id] == ns[id - |x.notices|];
    }
  }

  // How many packets, from id n on, the highest of the ids reaches.
  function Reach(n: nat, ids: seq<nat>): nat {
    if ids == [] || ids[|ids| - 1] < n then 0 else ids[|ids| - 1] + 1 - n
  }

  lemma AnnouncedIsWritten(x: Node, y: Node, i: nat)
    requires AcksOk(y) && Cross(x, y) && i < |y.ledger|
    ensures var acks := HeaderAcks(y.ledger[i].header); acks != [] ==> acks[|acks| - 1] < |x.ledger|
  {
    hide HeaderAcks, AcksOk, Safe;
    var acks := HeaderAcks(y.ledger[i].header);
    if acks != [] { HeaderAcksAccepted(y, i, acks[|acks| - 1]); }
  }

  // The header's part: packets numbered from n on, split at the highest id announced.
  lemma HeaderResolves(d: Delivery, n: nat, h: Header)
    requires IdsIncrease(d.inFlight) && n + |d.inFlight| == d.nextOutgoing
    requires forall k :: 0 <= k < |d.inFlight| ==> d.inFlight[k].id == n + k
    requires HeaderAcks(h) != [] ==> HeaderAcks(h)[|HeaderAcks(h)| - 1] < d.nextOutgoing
    ensures Increasing(HeaderAcks(h))
    ensures var ns := ProcessAcks(d, h.ackSeq, h.ackMask).1;
            |ns| == Reach(n, HeaderAcks(h)) &&
            forall k :: 0 <= k < |ns| ==> ns[k].id == n + k && (ns[k].status == Ack <==> ns[k].id in HeaderAcks(h))
  {
    hide ProcessAcks, AckIds, TopBit, IdsIncrease, Increasing;
    var (d', ns) := ProcessAcks(d, h.ackSeq, h.ackMask);
    ProcessAcksIsExact(d, h.ackSeq, h.ackMask);
    AckIdsIncrease(h.ackSeq, h.ackMask);
    if h.ackMask == 0 {
      NoAckIds(h.ackSeq);
    } else {
      SplitAtTop(d.inFlight, d'.inFlight, ns, n, h.ackSeq + TopBit(h.ackMask));
      forall k | 0 <= k < |ns| ensures ns[k].status == Ack <==> ns[k].id in HeaderAcks(h) { assert ns[k] in ns; }
    }
  }

  lemma SplitAtTop(fs: seq<InFlightPacket>, rest: seq<InFlightPacket>, ns: seq<Notice>, n: nat, top: nat)
    requires forall k :: 0 <= k < |fs| ==> fs[k].id == n + k
    requires |ns| <= |fs| && rest == fs[|ns|..] && top < n + |fs|
    requires forall i :: 0 <= i < |ns| ==> ns[i].id == fs[i].id && ns[i].id <= top
    requires forall f :: f in rest ==> f.id > top
    ensures |ns| == Reach(n, [top])
    ensures forall i :: 0 <= i < |ns| ==> ns[i].id == n + i
  {
    if |ns| < |fs| { assert rest[0] == fs[|ns|] && rest[0] in rest; }
    if |ns| > 0 { assert ns[|ns| - 1].id == fs[|ns| - 1].id; }
  }

  lemma InFlightNumbers(x: Node)
    requires StatusesOk(x)
    ensures var d := x.endpoint.delivery;
            |x.notices| + |d.inFlight| == d.nextOutgoing && IdsIncrease(d.inFlight) &&
            forall k :: 0 <= k < |d.inFlight| ==> d.inFlight[k].id == |x.notices| + k
  {
  }

  // ---- Writing a packet ----

  // What a packet carries: the pending acceptances within 32 of the oldest, the rest staying pending; the longest run of
  // waiting messages that leaves it within the limit, which are in flight from now on; and the tail if that fits too.
  lemma PacketIsFull(net: Network, s: System, l: Label)
    requires Reachable(net, s) && Enabled(net, s, l) && l.action.Emit?
    ensures var x, x' := Actor(s, l.side), Actor(Step(net, s, l), l.side);
            var d, d', t, t' := x.endpoint.delivery, x'.endpoint.delivery, x.endpoint.stream, x'.endpoint.stream;
            var id, oldest: int := |x.ledger|, if d.pendingAcks == [] then 0 else d.pendingAcks[0];
            |x'.ledger| == id + 1 && x'.ledger[..id] == x.ledger &&
            var p, limit, tail := x'.ledger[id], l.action.limit, l.action.tail;
            p.header.id == id &&
            (forall a :: a in HeaderAcks(p.header) <==> a in d.pendingAcks && a < oldest + 32) &&
            (forall a :: a in d'.pendingAcks <==> a in d.pendingAcks && a >= oldest + 32) &&
            d'.inFlight == d.inFlight + [InFlightPacket(p.header.id, l.action.now)] &&
            p.messages + t'.pending == t.pending && t'.inFlight == t.inFlight + Tag(p.header.id, p.messages) &&
            |EncodePacket(p)| <= limit &&
            (t'.pending != [] ==> |EncodePacket(Packet(p.header, p.messages + [t'.pending[0]], []))| > limit) &&
            p.tail == if |EncodePacket(Packet(p.header, p.messages, tail))| <= limit then tail else []
  {
    hide Inv, Permits, Exec, EncodePacket, HeaderAcks, LedgerOk, StreamOk, StatusesOk, Dispatch, StreamModel.Write;
    ReachableInv(net, s);
    LocalOf(s, l.side);
    var x := Actor(s, l.side);
    LedgerDependsOn(x, x);
    PendingIncreases(AllAcks(x.ledger), x.endpoint.delivery.pendingAcks);
    DispatchIsExact(x.endpoint.delivery, l.action.now);
    WriteFillsPacket(x.endpoint, l.action.now, l.action.limit, l.action.tail);
  }

  // ---- Timeouts ----

  // When the packets of one side were written.
  function WrittenAt(labels: seq<Label>, side: Side): seq<int> {
    if labels == [] then []
    else
      var l := labels[|labels| - 1];
      WrittenAt(labels[..|labels| - 1], side) + if l.side == side && l.action.Emit? then [l.action.now] else []
  }

  // The timeout is the configured one, and every packet in flight is recorded with the time it was written at.
  predicate Timed(x: Node, timeout: int, times: seq<int>) {
    var d := x.endpoint.delivery;
    d.timeout == timeout && |times| == |x.notices| + |d.inFlight| &&
    forall k :: 0 <= k < |d.inFlight| ==> d.inFlight[k].dispatched == times[|x.notices| + k]
  }

  lemma ActKeepsTimed(me: Node, other: Node, action: Action, timeout: int, times: seq<int>)
    requires LedgerOk(other) && CanAct(me, other, action) && Timed(me, timeout, times)
    ensures Timed(Act(me, other, action), timeout, times + if action.Emit? then [action.now] else [])
  {
    assert times + [] == times;
    match action
    case Submit(_) =>
    case Emit(now, limit, tail) => EmitKeepsTimed(me, other, now, limit, tail, timeout, times);
    case Expire(now) => ExpireKeepsTimed(me, other, now, timeout, times);
    case Hear(i) => HearKeepsTimed(me, other, i, timeout, times);
  }

  lemma EmitKeepsTimed(me: Node, other: Node, now: int, limit: nat, tail: seq<u8>, timeout: int, times: seq<int>)
    requires CanAct(me, other, Emit(now, limit, tail)) && Timed(me, timeout, times)
    ensures Timed(Act(me, other, Emit(now, limit, tail)), timeout, times + [now])
  {
    hide StreamModel.Write, NextHeader, Spilled, Timed;
    DispatchedIsTimed(me, Act(me, other, Emit(now, limit, tail)), now, timeout, times);
  }

  lemma DispatchedIsTimed(me: Node, me': Node, now: int, timeout: int, times: seq<int>)
    requires Timed(me, timeout, times) && me'.notices == me.notices
    requires var d, d' := me.endpoint.delivery, me'.endpoint.delivery;
             d'.inFlight == d.inFlight + [InFlightPacket(d.nextOutgoing, now)] && d'.timeout == d.timeout
    ensures Timed(me', timeout, times + [now])
  {
  }

  lemma ExpireKeepsTimed(me: Node, other: Node, now: int, timeout: int, times: seq<int>)
    requires CanAct(me, other, Expire(now)) && Timed(me, timeout, times)
    ensures Timed(Act(me, other, Expire(now)), timeout, times)
  {
    hide ApplyNotices, LeadingExpired;
  }

  lemma HearKeepsTimed(me: Node, other: Node, i: nat, timeout: int, times: seq<int>)
    requires LedgerOk(other) && CanAct(me, other, Hear(i)) && Timed(me, timeout, times)
    ensures Timed(Act(me, other, Hear(i)), timeout, times)
  {
    hide LedgerOk, Act, Established, ApplyNotices, Deliver, LeadingUpTo, Timed, ProcessAcks;
    var h := other.ledger[i].header;
    if i >= me.endpoint.delivery.nextExpected {
      HeardAccepted(me, other, i);
    } else {
      HeardStale(me, other, i);
    }
    ResolvedKeepsTimed(me, h, Act(me, other, Hear(i)), timeout, times);
  }

  lemma ResolvedKeepsTimed(me: Node, h: Header, me': Node, timeout: int, times: seq<int>)
    requires Timed(me, timeout, times)
    requires var (d, ns) := ProcessAcks(me.endpoint.delivery, h.ackSeq, h.ackMask);
             me'.notices == me.notices + ns && me'.endpoint.delivery.inFlight == d.inFlight &&
             me'.endpoint.delivery.timeout == d.timeout
    ensures Timed(me', timeout, times)
  {
    hide LeadingUpTo, TopBit;
  }

  lemma {:induction false} RunIsTimed(net: Network, s: System, labels: seq<Label>, timeoutA: int, timeoutB: int)
    requires Inv(s) && Timed(s.a, timeoutA, []) && Timed(s.b, timeoutB, []) && Exec(net, s, labels).Some?
    ensures var t := Exec(net, s, labels).value;
            Inv(t) && Timed(t.a, timeoutA, WrittenAt(labels, A)) && Timed(t.b, timeoutB, WrittenAt(labels, B))
    decreases |labels|
  {
    hide Local, Cross, Timed, Act, CanAct, Permits;
    if labels != [] {
      var before, l := labels[..|labels| - 1], labels[|labels| - 1];
      var t := Exec(net, s, before).value;
      RunIsTimed(net, s, before, timeoutA, timeoutB);
      StepKeeps(net, t, l);
      var (timesA, timesB) := (WrittenAt(before, A), WrittenAt(before, B));
      assert timesA + [] == timesA && timesB + [] == timesB;
      if l.side == A {
        ActKeepsTimed(t.a, t.b, l.action, timeoutA, timesA) by { LocalOf(t, A); }
      } else {
        ActKeepsTimed(t.b, t.a, l.action, timeoutB, timesB) by { LocalOf(t, B); }
      }
    }
  }

  // After any run a timeout at `now` reports DROP exactly for the packets without a status that were written at least
  // the configured timeout ago, in the order of their ids.
  lemma TimeoutIsExact(net: Network, timeoutA: int, capacityA: nat, timeoutB: int, capacityB: nat, labels: seq<Label>,
                       s: System, l: Label)
    requires Exec(net, NewSystem(timeoutA, capacityA, timeoutB, capacityB), labels) == Some(s)
    requires Enabled(net, s, l) && l.action.Expire?
    ensures var x, x' := Actor(s, l.side), Actor(Step(net, s, l), l.side);
            var times, timeout := WrittenAt(labels, l.side), if l.side == A then timeoutA else timeoutB;
            |times| == |x.ledger| && |x.notices| <= |x'.notices| <= |times| &&
            (forall id :: |x.notices| <= id < |times| ==> (times[id] + timeout <= l.action.now <==> id < |x'.notices|)) &&
            (forall id :: |x.notices| <= id < |x'.notices| ==> x'.notices[id].id == id && x'.notices[id].status == Drop)
  {
    hide Inv, Exec, Timed, Permits, Local;
    InitiallyInv(timeoutA, capacityA, timeoutB, capacityB);
    InitiallyTimed(timeoutA, capacityA, timeoutB, capacityB);
    RunIsTimed(net, NewSystem(timeoutA, capacityA, timeoutB, capacityB), labels, timeoutA, timeoutB);
    LocalOf(s, l.side);
    TimeoutOfTimed(Actor(s, l.side), Partner(s, l.side), l.action.now, if l.side == A then timeoutA else timeoutB,
                   WrittenAt(labels, l.side));
  }

  lemma InitiallyTimed(timeoutA: int, capacityA: nat, timeoutB: int, capacityB: nat)
    ensures var s := NewSystem(timeoutA, capacityA, timeoutB, capacityB);
            Timed(s.a, timeoutA, []) && Timed(s.b, timeoutB, [])
  {
  }

  lemma TimeoutOfTimed(x: Node, y: Node, now: int, timeout: int, times: seq<int>)
    requires Local(x) && Timed(x, timeout, times) && CanAct(x, y, Expire(now))
    ensures var x' := Act(x, y, Expire(now));
            |times| == |x.ledger| && |x.notices| <= |x'.notices| <= |times| &&
            (forall id :: |x.notices| <= id < |times| ==> (times[id] + timeout <= now <==> id < |x'.notices|)) &&
            (forall id :: |x.notices| <= id < |x'.notices| ==> x'.notices[id].id == id && x'.notices[id].status == Drop)
  {
    hide LedgerOk, AcksOk, StreamOk, ApplyNotices, LeadingExpired;
    assert |x.ledger| == x.endpoint.delivery.nextOutgoing by { LedgerDependsOn(x, x); }
    var d, n := x.endpoint.delivery, |x.notices|;
    LeadingExpiredIsAll(d.inFlight, d.timeout, now);
    forall id | n <= id < |times| ensures times[id] + timeout <= now <==> id < |Act(x, y, Expire(now)).notices| {
      assert d.inFlight[id - n].dispatched == times[id];
    }
  }
}
