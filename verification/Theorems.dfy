/** What holds in every reachable state, on every network. */
module Theorems {
  import opened Integers
  import opened Common
  import opened Messages
  import opened StreamModel
  import opened DeliveryModel
  import opened EndpointModel
  import opened ProtocolSystem
  import opened Invariants
  import FakeNetworks

  // Exactly once, in order, byte for byte: what was delivered is a prefix of what was sent, in both directions.
  lemma DeliveredInOrder(net: Network, s: System)
    requires Reachable(net, s)
    ensures s.b.delivered <= s.a.sent && s.a.delivered <= s.b.sent
    ensures |s.b.delivered| == s.b.endpoint.stream.nextExpected && |s.a.delivered| == s.a.endpoint.stream.nextExpected
  {
    ReachableInv(net, s);
  }

  // No message is lost: the sender holds all but a prefix of what it sent, and that prefix was delivered.
  lemma NoMessageLost(net: Network, s: System)
    requires Reachable(net, s)
    ensures var released, held := Released(s.a.endpoint.stream), s.a.endpoint.stream.Held();
            0 <= released <= |s.b.delivered| <= |s.a.sent| &&
            s.a.sent[..released] <= s.b.delivered &&
            released + |held| == |s.a.sent| &&
            (forall i :: 0 <= i < |held| ==> held[i] == Message(released + i, s.a.sent[released + i]))
  {
    hide AcksOk, StatusesOk, LedgerOk;
    ReachableInv(net, s);
    HeldIsUnreleased(s.a.endpoint.stream, s.a.sent, s.a.ledger);
  }

  lemma HeldIsUnreleased(s: Stream, sent: seq<seq<u8>>, ledger: seq<Packet>)
    requires StreamOk(s, sent, ledger)
    ensures var released, held := Released(s), s.Held();
            0 <= released && released + |held| == |sent| < WRAP32 &&
            (forall i :: 0 <= i < |held| ==> held[i] == Message(released + i, sent[released + i]))
  {
  }

  // ACK is sound: an endpoint reports ACK for a packet only if its peer accepted it.
  lemma AckIsSound(net: Network, s: System, n: Notice)
    requires Reachable(net, s)
    ensures n in s.a.notices && n.status == Ack ==> n.id in s.b.accepted
    ensures n in s.b.notices && n.status == Ack ==> n.id in s.a.accepted
  {
    ReachableInv(net, s);
  }

  // The ids of all statuses ever computed, followed by the ids still in flight, are 0, 1, ..., next - 1.
  lemma OneStatusEach(net: Network, s: System)
    requires Reachable(net, s)
    ensures var x, d := s.a, s.a.endpoint.delivery;
            |x.notices| + |d.inFlight| == d.nextOutgoing &&
            (forall i :: 0 <= i < |x.notices| ==> x.notices[i].id == i) &&
            (forall i :: 0 <= i < |d.inFlight| ==> d.inFlight[i].id == |x.notices| + i)
  {
    ReachableInv(net, s);
  }

  // Acceptances increase strictly and are announced once each, in order, by the headers written, or still pending.
  lemma AcksAreConserved(net: Network, s: System)
    requires Reachable(net, s)
    ensures Increasing(s.b.accepted)
    ensures s.b.accepted == AllAcks(s.b.ledger) + s.b.endpoint.delivery.pendingAcks
    ensures forall id :: id in s.b.accepted ==> id < |s.a.ledger|
  {
    ReachableInv(net, s);
    forall id | id in s.b.accepted ensures id < |s.a.ledger| { BelowExpected(s.b, id); }
  }

  // A timeout drops every packet whose time has come and no other, in id order, after any history.
  lemma TimeoutsAreComplete(net: Network, s: System, now: int)
    requires Reachable(net, s)
    ensures var d := s.a.endpoint.delivery;
            var (d', ns) := DropOld(d, now);
            (forall i :: 0 <= i < |d.inFlight| ==> (d.inFlight[i].dispatched + d.timeout <= now <==> i < |ns|)) &&
            (forall i :: 0 <= i < |ns| ==> ns[i].id == |s.a.notices| + i && ns[i].status == Drop) &&
            d'.inFlight == d.inFlight[|ns|..]
  {
    ReachableInv(net, s);
    var d := s.a.endpoint.delivery;
    LeadingExpiredIsAll(d.inFlight, d.timeout, now);
  }

  // Any datagram written is one an established peer can read, and reads as the packet it was printed from.
  lemma DatagramsAreReadable(net: Network, s: System, i: nat)
    requires Reachable(net, s) && i < |s.b.ledger|
    ensures CanAct(s.a, s.b, Hear(i))
    ensures |Datagram(s.b, i)| >= HEADER_SIZE && DecodeHeader(Datagram(s.b, i)) == s.b.ledger[i].header
    ensures Read(s.a.endpoint, Datagram(s.b, i)) == ReadPacket(s.a.endpoint, s.b.ledger[i])
  {
    ReachableInv(net, s);
    PacketRoundTrip(s.b.ledger[i]);
    ReadOfEncode(s.a.endpoint, s.b.ledger[i]);
  }

  // No datagram is longer than the MTU, so neither the MTU nor the read buffer ever cuts one.
  lemma DatagramsAreNeverCut(net: Network, s: System, i: nat)
    requires Reachable(net, s) && i < |s.a.ledger|
    ensures |Datagram(s.a, i)| <= MAX_PACKET
    ensures forall mtu: nat, size: nat :: mtu >= MAX_PACKET && size >= MAX_PACKET ==>
              FakeNetworks.Truncated(FakeNetworks.Truncated(Datagram(s.a, i), mtu), size) == Datagram(s.a, i)
  {
    hide EncodePacket;
    ReachableInv(net, s);
  }

  // The two endpoints play the same part where the network treats them alike, so what holds of a holds of b.
  lemma {:induction false} SwappedRun(net: Network, s: System, labels: seq<Label>)
    requires net != ExactReturn
    ensures var r := Exec(net, s, labels);
            Exec(net, Swap(s), SwapAll(labels)) == if r.Some? then Some(Swap(r.value)) else None
    decreases |labels|
  {
    hide Act, CanAct;
    if labels != [] {
      var n := |labels| - 1;
      assert SwapAll(labels)[..n] == SwapAll(labels[..n]);
      SwappedRun(net, s, labels[..n]);
    }
  }

  function Swap(s: System): System {
    System(s.b, s.a)
  }

  function SwapAll(labels: seq<Label>): (r: seq<Label>)
    ensures |r| == |labels|
  {
    seq(|labels|, i requires 0 <= i < |labels| => Label(if labels[i].side == A then B else A, labels[i].action))
  }

  // Reachable states stay reachable when the endpoints change places.
  lemma SwappedReachable(net: Network, s: System)
    requires net != ExactReturn && Reachable(net, s)
    ensures Reachable(net, Swap(s))
  {
    hide Exec;
    var timeoutA, capacityA, timeoutB, capacityB, labels :|
      Exec(net, NewSystem(timeoutA, capacityA, timeoutB, capacityB), labels) == Some(s);
    SwappedRun(net, NewSystem(timeoutA, capacityA, timeoutB, capacityB), labels);
    assert Exec(net, NewSystem(timeoutB, capacityB, timeoutA, capacityA), SwapAll(labels)) == Some(Swap(s));
  }
}
