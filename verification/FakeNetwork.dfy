/** network/fake_network.h: the packets waiting for one address, sent by one peer. */
module FakeNetworks {
  import opened Integers
  import opened IoBuffer

  // The first n bytes, or all if there are fewer.
  function Truncated(b: seq<u8>, n: nat): (r: seq<u8>)
    ensures r <= b && |r| <= n && (|r| < n ==> r == b)
  {
    if |b| <= n then b else b[..n]
  }

  // Ids of log entries waiting, oldest first, none before the cursor.
  predicate Queued(waiting: seq<nat>, cursor: nat, total: nat) {
    Increasing(waiting) && forall i :: 0 <= i < |waiting| ==> cursor <= waiting[i] < total
  }

  class FakeNetwork {
    const mtu: nat
    var shouldDropPackets: bool
    var packets: seq<seq<u8>>
    ghost var log: seq<seq<u8>>  // every payload ever sent
    ghost var waiting: seq<nat>  // which of them are queued
    ghost var cursor: nat        // one past the last one read

    ghost predicate Valid()
      reads this
    {
      Queued(waiting, cursor, |log|) && cursor <= |log| && |packets| == |waiting| &&
      forall i :: 0 <= i < |packets| ==> packets[i] == Truncated(log[waiting[i]], mtu)
    }

    constructor (mtu: nat)
      ensures Valid() && log == [] && cursor == 0 && packets == [] && this.mtu == mtu && !shouldDropPackets
    {
      this.mtu := mtu;
      shouldDropPackets := false;
      packets, log, waiting, cursor := [], [], [], 0;
    }

    method DropPackets(shouldDrop: bool)
      requires Valid()
      modifies `shouldDropPackets
      ensures Valid() && shouldDropPackets == shouldDrop
    {
      shouldDropPackets := shouldDrop;
    }

    // A dropped packet looks sent all the same.
    method SendTo(payload: seq<u8>) returns (count: nat)
      requires Valid()
      modifies `packets, `log, `waiting
      ensures Valid() && count == |payload|
      ensures log == old(log) + [payload]
      ensures waiting == if shouldDropPackets then old(waiting) else old(waiting) + [|old(log)|]
    {
      ghost var index := |log|;
      log := log + [payload];
      if shouldDropPackets {
        return |payload|;
      }
      var pending := payload;
      if |pending| > mtu {
        pending := pending[..mtu];
      }
      packets := packets + [pending];
      waiting := waiting + [index];
      count := |payload|;
    }

    // What is read is a payload sent, cut to the MTU and the buffer, and sent later than everything read before:
    // the channel loses packets but neither reorders nor repeats them.
    method ReadFromSocket(buffer: Span) returns (size: Option<nat>, ghost index: nat)
      requires Valid() && buffer.Valid()
      modifies `packets, `waiting, `cursor, buffer.data
      ensures Valid() && log == old(log)
      ensures size.None? <==> old(packets) == []
      ensures size.None? ==> cursor == old(cursor) && waiting == old(waiting) && buffer.data[..] == old(buffer.data[..])
      ensures size.Some? ==>
                old(cursor) <= index < |log| && cursor == index + 1 && old(waiting) == [index] + waiting &&
                var payload := Truncated(Truncated(log[index], mtu), buffer.Size());
                size.value == |payload| && buffer.data[..] == Patch(old(buffer.data[..]), buffer.lo, payload)
    {
      index := 0;
      if packets == [] {
        return None, index;
      }
      var packet := packets[0];
      packets := packets[1..];
      index := waiting[0];
      waiting := waiting[1..];
      cursor := index + 1;
      var idx := CopyPacket(buffer, packet);
      size := Some(idx);
    }

    // Bytes that do not fit in the buffer are lost.
    static method CopyPacket(buffer: Span, packet: seq<u8>) returns (idx: nat)
      requires buffer.Valid()
      modifies buffer.data
      ensures idx == |Truncated(packet, buffer.Size())|
      ensures buffer.data[..] == Patch(old(buffer.data[..]), buffer.lo, Truncated(packet, buffer.Size()))
    {
      hide Patch;
      ghost var was := buffer.data[..];
      PatchNothing(was, buffer.lo);
      idx := 0;
      while idx < buffer.Size() && idx < |packet|
        invariant idx <= |packet| && idx <= buffer.Size()
        invariant buffer.data[..] == Patch(was, buffer.lo, packet[..idx])
      {
        ghost var before := buffer.data[..];
        PatchTwice(was, buffer.lo, packet[..idx], [packet[idx]]);
        PatchOne(before, buffer.lo + idx, packet[idx]);
        assert packet[..idx] + [packet[idx]] == packet[..idx + 1];
        buffer.data[buffer.lo + idx] := packet[idx];
        assert buffer.data[..] == before[buffer.lo + idx := packet[idx]];
        idx := idx + 1;
      }
      assert packet[..idx] == Truncated(packet, buffer.Size());
    }
  }
}
