/** neptun/neptun.h: one established peer and the network buffer it shares, proved against EndpointModel. */
module Peers {
  import opened Integers
  import opened IoBuffer
  import opened Messages
  import opened StreamModel
  import opened DeliveryModel
  import opened EndpointModel
  import opened Tickers
  import opened ReliableStreams
  import opened PacketDeliveryManagers

  const JUST_ABOVE_MTU: nat := 1600

  class Peer {
    const ticker: Ticker
    const delivery: PacketDeliveryManager
    const stream: ReliableStream
    const networkBuffer: array<u8>
    const maxSendPacketRate: u8      // the own configuration
    const peerMaxReadPacketRate: u8  // announced by the peer in the handshake

    ghost predicate Valid()
      reads this, ticker, stream, stream.buffer
    {
      stream.Valid() && networkBuffer.Length == JUST_ABOVE_MTU && networkBuffer != stream.buffer.data &&
      (ticker.tickInterval == None || PacedAt(ticker.tickInterval, SendRate(peerMaxReadPacketRate, maxSendPacketRate)))
    }

    ghost function View(): Endpoint
      requires Valid()
      reads this, ticker, delivery, stream, stream.buffer, stream.buffer.data
    {
      Endpoint(delivery.View(), stream.View())
    }

    constructor (now: int, packetTimeout: int, bufferCapacity: nat, maxSendPacketRate: u8, peerMaxReadPacketRate: u8)
      ensures this.maxSendPacketRate == maxSendPacketRate && this.peerMaxReadPacketRate == peerMaxReadPacketRate
      ensures Valid() && View() == NewEndpoint(packetTimeout, bufferCapacity)
      ensures ticker.View() == State(Some(now), None, 0)
      ensures delivery.packetTimeout == packetTimeout && stream.buffer.data.Length == bufferCapacity
      ensures fresh(ticker) && fresh(delivery) && fresh(stream) && fresh(stream.buffer)
      ensures fresh(stream.buffer.data) && fresh(networkBuffer)
    {
      ticker := new Ticker(now, None);
      delivery := new PacketDeliveryManager(0, packetTimeout);
      stream := new ReliableStream(bufferCapacity);
      networkBuffer := new u8[JUST_ABOVE_MTU];
      this.maxSendPacketRate := maxSendPacketRate;
      this.peerMaxReadPacketRate := peerMaxReadPacketRate;
    }

    // The ticker once a packet of an established session has been accepted.
    ghost function Paced(t: State): State {
      t.(interval := RateInterval(SendRate(peerMaxReadPacketRate, maxSendPacketRate)))
    }

    // ok says whether every assertion of the stream held on the way.
    method ProcessDeliveryStatuses(statuses: seq<Notice>) returns (ok: bool)
      requires Valid()
      modifies stream, stream.buffer`begin
      ensures Valid()
      ensures View() == old(View()).(stream := ApplyNotices(old(View()).stream, statuses))
      ensures ok == AssertionsHold(old(View()).stream, statuses)
    {
      hide ReliableStream.Valid, ReliableStream.View, OnStatus, AssertionHolds;
      ok := true;
      for i := 0 to |statuses|
        invariant Valid() && unchanged(delivery)
        invariant ApplyNotices(stream.View(), statuses[i..]) == ApplyNotices(old(stream.View()), statuses)
        invariant (ok && AssertionsHold(stream.View(), statuses[i..])) == AssertionsHold(old(stream.View()), statuses)
      {
        assert statuses[i..][0] == statuses[i] && statuses[i..][1..] == statuses[i + 1..];
        var held := stream.OnPacketDeliveryStatus(statuses[i].id, statuses[i].status);
        ok := ok && held;
      }
      assert statuses[|statuses|..] == [];
    }

    // Timeouts, at the start of a tick.
    method DropOldPackets(now: int) returns (ok: bool)
      requires Valid()
      modifies delivery, stream, stream.buffer`begin
      ensures Valid()
      ensures View() == Timeout(old(View()), now).0
      ensures ok == AssertionsHold(old(View()).stream, Timeout(old(View()), now).1)
    {
      hide ReliableStream.Valid, ReliableStream.View;
      var statuses := delivery.DropOldPackets(now);
      ok := ProcessDeliveryStatuses(statuses);
    }

    // The datagram is the first `size` bytes of the network buffer.
    method Read(size: nat) returns (callbacks: seq<seq<u8>>, ok: bool)
      requires Valid() && size <= networkBuffer.Length && Established(networkBuffer[..size])
      modifies delivery, stream, stream.buffer`begin, ticker
      ensures Valid()
      ensures var r := EndpointModel.Read(old(View()), networkBuffer[..size]);
              View() == r.endpoint && callbacks == r.callbacks &&
              ticker.View() == (if r.accepted then Paced(old(ticker.View())) else old(ticker.View())) &&
              (r.accepted ==> PacedAt(ticker.tickInterval, SendRate(peerMaxReadPacketRate, maxSendPacketRate))) &&
              (ok <==> (r.accepted ==> AssertionsHold(old(View()).stream, r.notices)))
    {
      hide ReliableStream.Valid, ReliableStream.View, AssertionsHold, ApplyNotices, Receive, DeliveryModel.ProcessAcks;
      var buffer := Span(networkBuffer, 0, size);
      var readCount, statuses, packetId := delivery.ProcessRead(buffer);
      if readCount == 0 {
        return [], true;
      }
      buffer := buffer.Advance(readCount);
      assert buffer.Bytes() == networkBuffer[..size][HEADER_SIZE..];
      ok := ProcessDeliveryStatuses(statuses);
      // The connection stage finds no segment of its own, and the peer is connected.
      UpdateRate();
      var count;
      count, callbacks := stream.Read(buffer);
    }

    method UpdateRate()
      modifies ticker
      ensures ticker.View() == Paced(old(ticker.View()))
      ensures PacedAt(ticker.tickInterval, SendRate(peerMaxReadPacketRate, maxSendPacketRate))
    {
      if peerMaxReadPacketRate == 0 {
        ticker.UpdateSendRate(maxSendPacketRate);
      } else if maxSendPacketRate == 0 {
        ticker.UpdateSendRate(peerMaxReadPacketRate);
      } else {
        var rate := if peerMaxReadPacketRate < maxSendPacketRate then peerMaxReadPacketRate else maxSendPacketRate;
        ticker.UpdateSendRate(rate);
      }
    }

    // `tail` is what the unreliable stream has to send; it goes out if it fits.
    method WriteToPeer(now: int, maxSendPacketSize: u16, tail: seq<u8>) returns (size: nat, ghost packet: Packet)
      requires Valid() && HEADER_SIZE <= maxSendPacketSize
      modifies delivery, stream, networkBuffer
      ensures Valid()
      ensures (View(), packet) == EndpointModel.Write(old(View()), now, PacketLimit(maxSendPacketSize), tail)
      ensures size <= networkBuffer.Length && networkBuffer[..size] == EncodePacket(packet)
      ensures size <= maxSendPacketSize && size <= 1400
    {
      hide ReliableStream.Valid, ReliableStream.View, Patch, StreamModel.Write, Dispatch, EncodeSegment, EncodeHeader;
      ghost var was := networkBuffer[..];
      WriteFillsPacket(View(), now, PacketLimit(maxSendPacketSize), tail);
      var limit := PacketLimit(maxSendPacketSize);
      var buffer := Span(networkBuffer, 0, limit);

      var packetId := delivery.nextOutgoingPacketId;
      var headerCount;
      ghost var header;
      headerCount, header := delivery.Write(buffer, now);
      HeaderCarriesId(old(View()).delivery, now);
      buffer := buffer.Advance(headerCount);

      var streamCount;
      ghost var messages;
      streamCount, messages := stream.Write(packetId, buffer);
      buffer := buffer.Advance(streamCount);
      PatchTwice(was, 0, EncodeHeader(header), EncodeSegment(messages));

      var written := if |tail| <= buffer.Size() then tail else [];
      var tailCount := WriteByteArray(buffer, 0, written);
      PatchTwice(was, 0, EncodeHeader(header) + EncodeSegment(messages), written);

      packet := Packet(header, messages, written);
      size := headerCount + streamCount + tailCount;
      PatchedPrefix(was, EncodePacket(packet));
    }

    lemma HeaderCarriesId(d: Delivery, now: int)
      ensures Dispatch(d, now).1.id == d.nextOutgoing
    {
    }

    lemma PatchedPrefix(d: seq<u8>, b: seq<u8>)
      requires |b| <= |d|
      ensures |Patch(d, 0, b)| == |d| && Patch(d, 0, b)[..|b|] == b
    {
    }

    // Neptun::tick for this peer: timeouts, then the datagram received if any, then a packet if the rate allows it.
    // ok says whether every assertion of the stream held in both stages that hand it statuses.
    method Tick(now: int, received: Option<nat>, maxSendPacketSize: u16, tail: seq<u8>)
      returns (callbacks: seq<seq<u8>>, sent: Option<nat>, ok: bool, ghost packet: Option<Packet>)
      requires Valid() && HEADER_SIZE <= maxSendPacketSize
      requires received.Some? ==> received.value <= networkBuffer.Length && Established(networkBuffer[..received.value])
      modifies ticker, delivery, stream, stream.buffer`begin, networkBuffer
      ensures Valid()
      ensures var (e1, ns) := Timeout(old(View()), now);
              var r := if received.None? then Reading(e1, [], false, [])
                       else EndpointModel.Read(e1, old(networkBuffer[..received.value]));
              var ticked := TickState(if r.accepted then Paced(old(ticker.View())) else old(ticker.View()), now);
              var (e3, p) := EndpointModel.Write(r.endpoint, now, PacketLimit(maxSendPacketSize), tail);
              ticker.View() == ticked.0 && callbacks == r.callbacks &&
              (ok <==> AssertionsHold(old(View()).stream, ns) && (r.accepted ==> AssertionsHold(e1.stream, r.notices))) &&
              (if ticked.1 then View() == e3 && packet == Some(p) else View() == r.endpoint && packet == None)
      ensures sent.Some? <==> packet.Some?
      ensures sent.Some? ==> sent.value <= networkBuffer.Length && networkBuffer[..sent.value] == EncodePacket(packet.value)
      ensures sent.Some? ==> sent.value <= maxSendPacketSize && sent.value <= 1400
      ensures peerMaxReadPacketRate == 0 && maxSendPacketRate == 0 ==> sent.Some?
    {
      hide ReliableStream.Valid, ReliableStream.View, TickState, Timeout, EndpointModel.Read, EndpointModel.Write;
      hide AssertionsHold;
      callbacks, sent, packet := [], None, None;
      ok := DropOldPackets(now);
      if received.Some? {
        var readOk;
        callbacks, readOk := Read(received.value);
        ok := ok && readOk;
      }
      if ticker.tickInterval == None { NoLimit(ticker.View(), now); }
      var allowed := ticker.Tick(now);
      if allowed {
        var size;
        ghost var p;
        size, p := WriteToPeer(now, maxSendPacketSize, tail);
        sent, packet := Some(size), Some(p);
      }
    }
  }
}
