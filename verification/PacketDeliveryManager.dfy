/** neptun/packet_delivery_manager.h: the manager, proved against DeliveryModel. */
module PacketDeliveryManagers {
  import opened Integers
  import opened Common
  import opened IoBuffer
  import opened Messages
  import opened StreamModel
  import opened DeliveryModel

  // The loop finds the highest set bit of any u32.
  method MostSignificantBit(value: u32) returns (msb: Option<nat>)
    ensures msb == if value == 0 then None else Some(TopBit(value))
  {
    msb := None;
    for bit := 0 to 32
      invariant msb.None? ==> forall k :: 0 <= k < bit ==> !Bit(value, k)
      invariant msb.Some? ==> msb.value < bit && Bit(value, msb.value) &&
                              forall k :: msb.value < k < bit ==> !Bit(value, k)
    {
      if Bit(value, bit) {
        msb := Some(bit);
      }
    }
    if value > 0 {
      TopBitBound(value);
      TopBitIsHighest(value, if msb.Some? then msb.value else 0);
    } else if msb.Some? {
      BitBound(value, msb.value);
    }
  }

  class PacketDeliveryManager {
    const packetTimeout: int
    var nextOutgoingPacketId: u32
    var nextExpectedPacketId: u32
    var pendingAcks: seq<u32>
    var inFlightPackets: seq<InFlightPacket>

    ghost function View(): Delivery
      reads this
    {
      Delivery(nextOutgoingPacketId, nextExpectedPacketId, pendingAcks, inFlightPackets, packetTimeout)
    }

    constructor (nextExpectedPacketId: u32, packetTimeout: int)
      ensures View() == NewDelivery(nextExpectedPacketId, packetTimeout)
      ensures this.nextExpectedPacketId == nextExpectedPacketId && this.packetTimeout == packetTimeout
    {
      this.packetTimeout := packetTimeout;
      this.nextOutgoingPacketId := 0;
      this.nextExpectedPacketId := nextExpectedPacketId;
      pendingAcks, inFlightPackets := [], [];
    }

    // A count of 0 means the packet is stale and must not be processed further;
    // its acknowledgements are processed all the same.
    method ProcessRead(span: Span) returns (count: nat, statuses: seq<Notice>, id: u32)
      requires span.Valid() && HEADER_SIZE <= span.Size()
      modifies this
      ensures var h := DecodeHeader(span.Bytes());
              var (d, ns) := DeliveryModel.ProcessAcks(old(View()), h.ackSeq, h.ackMask);
              id == h.id && statuses == ns && View() == Accept(d, h.id) &&
              count == if Accepts(d, h.id) then HEADER_SIZE else 0
    {
      var header := ReadHeader(span);
      statuses := ProcessAcks(header.ackSeq, header.ackMask);
      count := ProcessPacketHeader(header.id);
      id := header.id;
    }

    method DropOldPackets(now: int) returns (statuses: seq<Notice>)
      modifies `inFlightPackets
      ensures (View(), statuses) == DropOld(old(View()), now)
    {
      ghost var was := inFlightPackets;
      statuses := [];
      while inFlightPackets != []
        invariant |statuses| <= |was| && inFlightPackets == was[|statuses|..]
        invariant statuses == DropAll(was[..|statuses|])
        invariant LeadingExpired(was, packetTimeout, now) == |statuses| + LeadingExpired(inFlightPackets, packetTimeout, now)
        decreases |inFlightPackets|
      {
        var inFlight := inFlightPackets[0];
        if inFlight.dispatched + packetTimeout <= now {
          statuses := statuses + [Notice(inFlight.id, Drop)];
          inFlightPackets := inFlightPackets[1..];
        } else {
          break;
        }
      }
    }

    method Write(span: Span, now: int) returns (count: nat, ghost header: Header)
      requires span.Valid() && HEADER_SIZE <= span.Size()
      modifies this, span.data
      ensures (View(), header) == Dispatch(old(View()), now)
      ensures count == HEADER_SIZE
      ensures span.data[..] == Patch(old(span.data[..]), span.lo, EncodeHeader(header))
    {
      hide SetBit32, Patch, EncodeHeader;
      header := NextHeader(View());
      var packetId := nextOutgoingPacketId;
      nextOutgoingPacketId := Inc32(nextOutgoingPacketId);
      inFlightPackets := inFlightPackets + [InFlightPacket(packetId, now)];
      assert span.data[..] == old(span.data[..]);
      if pendingAcks == [] {
        count := Messages.WriteHeader(span, Header(packetId, 0, 0));
      } else {
        var ackSeq := pendingAcks[0];
        var ackMask: u32 := 0;
        while pendingAcks != []
          invariant Packed(pendingAcks, ackSeq, ackMask) == Packed(old(pendingAcks), ackSeq, 0)
          invariant Spilled(pendingAcks, ackSeq) == Spilled(old(pendingAcks), ackSeq)
          invariant unchanged(span.data) && unchanged(`nextExpectedPacketId) && nextOutgoingPacketId == Inc32(packetId)
          invariant inFlightPackets == old(inFlightPackets) + [InFlightPacket(packetId, now)]
          decreases |pendingAcks|
        {
          var bitPosition := BitPosition(pendingAcks[0], ackSeq);
          if bitPosition >= 32 {
            break;
          } else {
            ackMask := SetBit32(ackMask, bitPosition);
          }
          pendingAcks := pendingAcks[1..];
        }
        assert header == Header(packetId, ackSeq, ackMask) && span.data[..] == old(span.data[..]);
        count := Messages.WriteHeader(span, Header(packetId, ackSeq, ackMask));
      }
    }

    method ProcessAcks(ackSeq: u32, ackMask: u32) returns (statuses: seq<Notice>)
      modifies `inFlightPackets
      ensures (View(), statuses) == DeliveryModel.ProcessAcks(old(View()), ackSeq, ackMask)
    {
      hide Bit, TopBit, Resolve;
      var msb := MostSignificantBit(ackMask);
      statuses := [];
      if msb.None? {
        return;
      }
      var highestAckedPacketId := (ackSeq + msb.value) % WRAP32;
      ghost var was := inFlightPackets;
      while inFlightPackets != []
        invariant |statuses| <= |was| && inFlightPackets == was[|statuses|..]
        invariant forall i :: 0 <= i < |statuses| ==> statuses[i] == Notice(was[i].id, StatusOf(was[i].id, ackSeq, ackMask))
        invariant LeadingUpTo(was, highestAckedPacketId) == |statuses| + LeadingUpTo(inFlightPackets, highestAckedPacketId)
        decreases |inFlightPackets|
      {
        var inFlight := inFlightPackets[0];
        if inFlight.id > highestAckedPacketId {
          break;
        } else {
          if inFlight.id < ackSeq {
            statuses := statuses + [Notice(inFlight.id, Drop)];
          } else {
            var delta := inFlight.id - ackSeq;
            if Bit(ackMask, delta) {
              statuses := statuses + [Notice(inFlight.id, Ack)];
            } else {
              statuses := statuses + [Notice(inFlight.id, Drop)];
            }
          }
          inFlightPackets := inFlightPackets[1..];
        }
      }
      assert statuses == Resolve(was[..|statuses|], ackSeq, ackMask);
    }

    method ProcessPacketHeader(id: u32) returns (count: nat)
      modifies `pendingAcks, `nextExpectedPacketId
      ensures View() == Accept(old(View()), id)
      ensures count == if Accepts(old(View()), id) then HEADER_SIZE else 0
    {
      if id == nextExpectedPacketId {
        AddPendingAck(id);
        nextExpectedPacketId := Inc32(id);
        return HEADER_SIZE;
      } else if id < nextExpectedPacketId {
        return 0;
      } else {
        // Lower ids are given up: they will be treated as dropped.
        AddPendingAck(id);
        nextExpectedPacketId := Inc32(id);
        return HEADER_SIZE;
      }
    }

    method AddPendingAck(id: u32)
      modifies `pendingAcks
      ensures pendingAcks == old(pendingAcks) + [id]
    {
      pendingAcks := pendingAcks + [id];
    }
  }
}
