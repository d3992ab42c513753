/** An in-order network of the system, carried by the fake network. */
module Channels {
  import opened Integers
  import opened IoBuffer
  import opened Messages
  import opened StreamModel
  import opened EndpointModel
  import opened ProtocolSystem
  import opened Invariants
  import opened FakeNetworks

  // Every datagram a node ever wrote.
  function Datagrams(x: Node): (ds: seq<seq<u8>>)
    ensures |ds| == |x.ledger| && forall i :: 0 <= i < |ds| ==> ds[i] == Datagram(x, i)
  {
    seq(|x.ledger|, i requires 0 <= i < |x.ledger| => Datagram(x, i))
  }

  // The network was given exactly the datagrams of the writer, and the reader has read up to its cursor.
  ghost predicate Joins(net: FakeNetwork, writer: Node, reader: Node)
    reads net
  {
    net.Valid() && net.mtu >= MAX_PACKET && net.log == Datagrams(writer) && net.cursor == reader.cursor
  }

  // b writes a packet to the network, which may drop it.
  method Send(net: FakeNetwork, ghost s: System, ghost emit: Action, datagram: seq<u8>) returns (ghost t: System)
    requires Reachable(InOrder, s) && Joins(net, s.b, s.a) && emit.Emit? && Enabled(InOrder, s, Label(B, emit))
    requires datagram == EncodePacket(EndpointModel.Write(s.b.endpoint, emit.now, emit.limit, emit.tail).1)
    modifies net`packets, net`log, net`waiting
    ensures t == Step(InOrder, s, Label(B, emit))
    ensures Reachable(InOrder, t) && Joins(net, t.b, t.a)
  {
    hide Reachable, EndpointModel.Write, EncodePacket;
    t := Step(InOrder, s, Label(B, emit));
    ReachableStep(InOrder, s, Label(B, emit));
    var count := net.SendTo(datagram);
    assert net.log == Datagrams(t.b);
  }

  // a reads the network. What it gets is, byte for byte, a datagram of b that an in-order network lets it read next,
  // so reading it is a step of the in-order system.
  method Receive(net: FakeNetwork, buffer: Span, ghost s: System)
    returns (size: Option<nat>, ghost index: nat, ghost t: System)
    requires Reachable(InOrder, s) && Joins(net, s.b, s.a)
    requires buffer.Valid() && buffer.Size() >= MAX_PACKET
    modifies net`packets, net`waiting, net`cursor, buffer.data
    ensures size.None? ==> t == s
    ensures size.Some? ==>
              size.value <= buffer.Size() && index < |s.b.ledger| && buffer.Bytes()[..size.value] == Datagram(s.b, index) &&
              Enabled(InOrder, s, Label(A, Hear(index))) && t == Step(InOrder, s, Label(A, Hear(index)))
    ensures Reachable(InOrder, t) && Joins(net, t.b, t.a)
  {
    hide Reachable, Act, EncodePacket, Patch;
    ghost var was := buffer.data[..];
    t := s;
    size, index := net.ReadFromSocket(buffer);
    if size.Some? {
      ReachableInv(InOrder, s);
      NextIsEnabled(s, index);
      PatchReadsBack(was, buffer.lo, buffer.hi, Datagram(s.b, index));
      assert buffer.Bytes() == buffer.data[..][buffer.lo..buffer.hi];
      t := Step(InOrder, s, Label(A, Hear(index)));
      ReachableStep(InOrder, s, Label(A, Hear(index)));
      CursorMoves(s.a, s.b, index);
    }
  }

  lemma NextIsEnabled(s: System, i: nat)
    requires Inv(s) && s.a.cursor <= i < |s.b.ledger|
    ensures Enabled(InOrder, s, Label(A, Hear(i))) && |Datagram(s.b, i)| <= MAX_PACKET
  {
    hide AcksOk, StatusesOk, StreamOk, Cross;
    ReadOfEncode(s.a.endpoint, s.b.ledger[i]);
  }

  lemma CursorMoves(me: Node, other: Node, i: nat)
    requires CanAct(me, other, Hear(i))
    ensures Act(me, other, Hear(i)).cursor == i + 1
  {
  }
}
