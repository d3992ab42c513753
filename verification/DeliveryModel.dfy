/** What the packet delivery manager computes, on values: ids, acknowledgements and statuses. */
module DeliveryModel {
  import opened Integers
  import opened Common
  import opened Messages

  datatype InFlightPacket = InFlightPacket(id: u32, dispatched: int)

  datatype Notice = Notice(id: u32, status: Status)

  datatype Delivery = Delivery(
    nextOutgoing: u32,
    nextExpected: u32,
    pendingAcks: seq<u32>,
    inFlight: seq<InFlightPacket>,
    timeout: int)

  function NewDelivery(nextExpected: u32, timeout: int): Delivery {
    Delivery(0, nextExpected, [], [], timeout)
  }

  // The packet ids a header announces as accepted, in increasing order.
  function AckIds(base: nat, mask: nat): seq<nat>
    decreases mask
  {
    if mask == 0 then []
    else (if mask % 2 == 1 then [base] else []) + AckIds(base + 1, mask / 2)
  }

  function HeaderAcks(h: Header): seq<nat> {
    AckIds(h.ackSeq, h.ackMask)
  }

  // ---- Statuses ----

  function StatusOf(id: u32, ackSeq: u32, mask: u32): Status {
    if id >= ackSeq && Bit(mask, id - ackSeq) then Ack else Drop
  }

  // How many leading packets have an id of at most top.
  function LeadingUpTo(fs: seq<InFlightPacket>, top: nat): (n: nat)
    ensures n <= |fs|
  {
    if fs == [] || fs[0].id > top then 0 else 1 + LeadingUpTo(fs[1..], top)
  }

  function Resolve(fs: seq<InFlightPacket>, ackSeq: u32, mask: u32): (ns: seq<Notice>)
    ensures |ns| == |fs|
    ensures forall i :: 0 <= i < |fs| ==> ns[i] == Notice(fs[i].id, StatusOf(fs[i].id, ackSeq, mask))
  {
    seq(|fs|, i requires 0 <= i < |fs| => Notice(fs[i].id, StatusOf(fs[i].id, ackSeq, mask)))
  }

  function ProcessAcks(d: Delivery, ackSeq: u32, mask: u32): (Delivery, seq<Notice>) {
    if mask == 0 then (d, [])
    else
      var k := LeadingUpTo(d.inFlight, (ackSeq + TopBit(mask)) % WRAP32);
      (d.(inFlight := d.inFlight[k..]), Resolve(d.inFlight[..k], ackSeq, mask))
  }

  // How many leading packets have timed out.
  function LeadingExpired(fs: seq<InFlightPacket>, timeout: int, now: int): (n: nat)
    ensures n <= |fs|
  {
    if fs == [] || fs[0].dispatched + timeout > now then 0 else 1 + LeadingExpired(fs[1..], timeout, now)
  }

  function DropAll(fs: seq<InFlightPacket>): (ns: seq<Notice>)
    ensures |ns| == |fs| && forall i :: 0 <= i < |fs| ==> ns[i] == Notice(fs[i].id, Drop)
  {
    seq(|fs|, i requires 0 <= i < |fs| => Notice(fs[i].id, Drop))
  }

  function DropOld(d: Delivery, now: int): (Delivery, seq<Notice>) {
    var k := LeadingExpired(d.inFlight, d.timeout, now);
    (d.(inFlight := d.inFlight[k..]), DropAll(d.inFlight[..k]))
  }

  // ---- Acceptance ----

  predicate Accepts(d: Delivery, id: u32) {
    id >= d.nextExpected
  }

  function Accept(d: Delivery, id: u32): Delivery {
    if Accepts(d, id) then d.(pendingAcks := d.pendingAcks + [id], nextExpected := Inc32(id)) else d
  }

  // ---- Announcing the acceptances ----

  // `pending_packet_id_ack - ack_sequence_number` on u32.
  function BitPosition(id: u32, base: u32): nat {
    (id - base) % WRAP32
  }

  function SetBit32(mask: u32, k: nat): u32
    requires k < 32
  {
    Pow2Values();
    SetBitBound(mask, k, 32);
    SetBit(mask, k)
  }

  // The mask once every leading ack within 32 of base is added to it.
  function Packed(acks: seq<u32>, base: u32, mask: u32): u32 {
    if acks == [] || BitPosition(acks[0], base) >= 32 then mask
    else Packed(acks[1..], base, SetBit32(mask, BitPosition(acks[0], base)))
  }

  // The acks left for a later packet.
  function Spilled(acks: seq<u32>, base: u32): seq<u32> {
    if acks == [] || BitPosition(acks[0], base) >= 32 then acks else Spilled(acks[1..], base)
  }

  function NextHeader(d: Delivery): Header {
    if d.pendingAcks == [] then Header(d.nextOutgoing, 0, 0)
    else Header(d.nextOutgoing, d.pendingAcks[0], Packed(d.pendingAcks, d.pendingAcks[0], 0))
  }

  function Dispatch(d: Delivery, now: int): (Delivery, Header) {
    (d.(nextOutgoing := Inc32(d.nextOutgoing),
        inFlight := d.inFlight + [InFlightPacket(d.nextOutgoing, now)],
        pendingAcks := if d.pendingAcks == [] then [] else Spilled(d.pendingAcks, d.pendingAcks[0])),
     NextHeader(d))
  }

  // ---- What the ids of a header are ----

  lemma {:induction false} AckIdsAreBits(base: nat, mask: nat, id: nat)
    ensures id in AckIds(base, mask) <==> id >= base && Bit(mask, id - base)
    decreases mask
  {
    if mask == 0 {
      if id >= base && Bit(mask, id - base) { BitBound(mask, id - base); }
    } else {
      AckIdsAreBits(base + 1, mask / 2, id);
    }
  }

  lemma {:induction false} AckIdsIncrease(base: nat, mask: nat)
    ensures Increasing(AckIds(base, mask))
    ensures mask > 0 ==> var ids := AckIds(base, mask); ids != [] && base <= ids[0] && ids[|ids| - 1] == base + TopBit(mask)
    decreases mask
  {
    hide Increasing;
    if mask == 0 {
      NoneIncrease();
    } else {
      AckIdsIncrease(base + 1, mask / 2);
      var rest := AckIds(base + 1, mask / 2);
      if mask % 2 == 1 {
        if rest == [] { OneIncreases(base); } else { IncreasingCons(base, rest); }
      } else {
        assert [] + rest == rest;
      }
    }
  }

  lemma NoneIncrease()
    ensures Increasing([])
  {
  }

  lemma OneIncreases(x: int)
    ensures Increasing([x] + [])
  {
  }

  lemma IncreasingCons(x: int, s: seq<int>)
    requires Increasing(s) && s != [] && x < s[0]
    ensures Increasing([x] + s)
  {
    assert forall j :: 0 < j < |s| ==> s[0] < s[j];
  }

  // A bit above all others appends its id.
  lemma {:induction false} AckIdsOfSetBit(base: nat, mask: nat, k: nat)
    requires mask < Pow2(k)
    ensures AckIds(base, SetBit(mask, k)) == AckIds(base, mask) + [base + k]
    ensures SetBit(mask, k) < Pow2(k + 1)
    decreases k
  {
    hide SetBit;
    if k == 0 {
      SetLowest(mask);
    } else {
      SetBitHalves(mask, k);
      AckIdsOfSetBit(base + 1, mask / 2, k - 1);
    }
  }

  // What a header announces, followed by what spills over, is what was pending.
  lemma {:induction false} PackedAnnounces(acks: seq<u32>, base: u32, mask: u32)
    requires Increasing(acks)
    requires acks != [] ==> acks[0] >= base && mask < Pow2(acks[0] - base)
    ensures AckIds(base, Packed(acks, base, mask)) + Spilled(acks, base) == AckIds(base, mask) + acks
  {
    hide AckIds, Bit, SetBit, Pow2;
    if acks != [] && BitPosition(acks[0], base) < 32 {
      var k := BitPosition(acks[0], base);
      assert k == acks[0] - base;
      AckIdsOfSetBit(base, mask, k);
      if |acks| > 1 { Pow2Monotone(k + 1, acks[1] - base); }
      PackedAnnounces(acks[1..], base, SetBit32(mask, k));
      assert AckIds(base, mask) + [acks[0]] + acks[1..] == AckIds(base, mask) + acks;
    }
  }

  // One outgoing header conserves the acceptances, and announces at least one if there is any.
  lemma HeaderConservesAcks(d: Delivery, now: int)
    requires Increasing(d.pendingAcks)
    ensures var (d', h) := Dispatch(d, now);
            HeaderAcks(h) + d'.pendingAcks == d.pendingAcks &&
            (d.pendingAcks != [] ==> |d'.pendingAcks| < |d.pendingAcks|)
  {
    var acks := d.pendingAcks;
    if acks != [] {
      PackedAnnounces(acks, acks[0], 0);
      SpilledIsSuffix(acks[1..], acks[0]);
    }
  }

  lemma {:induction false} SpilledIsSuffix(acks: seq<u32>, base: u32)
    ensures |Spilled(acks, base)| <= |acks|
  {
    if acks != [] { SpilledIsSuffix(acks[1..], base); }
  }

  // Which acks spill over: those 32 or more beyond base.
  lemma {:induction false} SpilledIsBeyond(acks: seq<u32>, base: u32) returns (n: nat)
    requires Increasing(acks) && (acks != [] ==> acks[0] >= base)
    ensures n <= |acks| && Spilled(acks, base) == acks[n..]
    ensures forall i :: 0 <= i < |acks| ==> (acks[i] - base < 32 <==> i < n)
  {
    hide BitPosition, Increasing;
    n := 0;
    if acks != [] {
      PositionOf(acks[0], base);
      FirstIsLeast(acks);
      if acks[0] - base < 32 {
        var m := SpilledIsBeyond(acks[1..], base);
        n := m + 1;
        assert acks[1..][m..] == acks[n..];
        forall i | 0 < i < |acks| ensures acks[i] - base < 32 <==> i < n { assert acks[i] == acks[1..][i - 1]; }
      }
    }
  }

  lemma PositionOf(id: u32, base: u32)
    requires id >= base
    ensures BitPosition(id, base) == id - base
  {
  }

  lemma FirstIsLeast(acks: seq<u32>)
    requires Increasing(acks) && acks != []
    ensures Increasing(acks[1..]) && forall i :: 0 < i < |acks| ==> acks[0] < acks[i]
  {
  }

  // Dispatching a packet, outright. Its header announces every pending acceptance within 32 of the oldest and no
  // other, the rest stays pending, and the packet is in flight behind the others from now on.
  lemma DispatchIsExact(d: Delivery, now: int)
    requires Increasing(d.pendingAcks)
    ensures var (d', h) := Dispatch(d, now);
            var acks := d.pendingAcks;
            var oldest: int := if acks == [] then 0 else acks[0];
            h.id == d.nextOutgoing && h.ackSeq == oldest && (h.ackMask == 0 <==> acks == []) &&
            (forall id :: id in HeaderAcks(h) <==> id in acks && id < oldest + 32) &&
            (forall id :: id in d'.pendingAcks <==> id in acks && id >= oldest + 32) &&
            HeaderAcks(h) + d'.pendingAcks == acks &&
            d'.inFlight == d.inFlight + [InFlightPacket(h.id, now)] && d'.nextOutgoing == (h.id + 1) % WRAP32 &&
            d'.nextExpected == d.nextExpected && d'.timeout == d.timeout
  {
    hide AckIds, Packed, Spilled;
    var (d', h) := Dispatch(d, now);
    var acks := d.pendingAcks;
    HeaderConservesAcks(d, now);
    AckIdsIncrease(h.ackSeq, h.ackMask);
    NoAckIds(h.ackSeq);
    if acks != [] {
      var n := SpilledIsBeyond(acks, acks[0]);
      SplitAt(HeaderAcks(h), acks, n);
    }
  }

  lemma NoAckIds(base: nat)
    ensures AckIds(base, 0) == []
  {
  }

  lemma SplitAt(head: seq<nat>, all: seq<nat>, n: nat)
    requires n <= |all| && head + all[n..] == all
    ensures head == all[..n]
  {
    assert |head| == n && (head + all[n..])[..n] == head;
  }

  // ---- The ack loop ----

  predicate IdsIncrease(fs: seq<InFlightPacket>) {
    forall i, j :: 0 <= i < j < |fs| ==> fs[i].id < fs[j].id
  }

  lemma {:induction false} LeadingUpToIsAll(fs: seq<InFlightPacket>, top: nat)
    requires IdsIncrease(fs)
    ensures forall i :: 0 <= i < |fs| ==> (fs[i].id <= top <==> i < LeadingUpTo(fs, top))
  {
    if fs != [] {
      if fs[0].id <= top { LeadingUpToIsAll(fs[1..], top); }
      forall i | 0 <= i < |fs| ensures fs[i].id <= top <==> i < LeadingUpTo(fs, top) {
        if i > 0 && fs[0].id <= top { assert fs[i] == fs[1..][i - 1]; }
      }
    }
  }

  // If the top acknowledged id does not wrap, the packets resolved are exactly those up to it, in order,
  // each ACK if and only if its id is announced by the header, and every shift is below 32.
  // If it does wrap, nothing is acknowledged: every packet resolved is dropped.
  lemma ProcessAcksIsExact(d: Delivery, ackSeq: u32, mask: u32)
    requires IdsIncrease(d.inFlight)
    ensures mask == 0 ==> ProcessAcks(d, ackSeq, mask) == (d, [])
    ensures mask > 0 ==>
            var (d', ns) := ProcessAcks(d, ackSeq, mask);
            var top := ackSeq + TopBit(mask);
            |ns| + |d'.inFlight| == |d.inFlight| &&
            d' == d.(inFlight := d.inFlight[|ns|..]) &&
            (forall i :: 0 <= i < |ns| ==> ns[i].id == d.inFlight[i].id) &&
            (top < WRAP32 ==>
               (forall i :: 0 <= i < |ns| ==> ns[i].id <= top) &&
               (forall f :: f in d'.inFlight ==> f.id > top) &&
               (forall n :: n in ns ==> (n.status == Ack <==> n.id in AckIds(ackSeq, mask))) &&
               (forall n :: n in ns && n.id >= ackSeq ==> n.id - ackSeq < 32)) &&
            (top >= WRAP32 ==>
               (forall n :: n in ns ==> n.status == Drop && n.id <= top - WRAP32) &&
               (forall f :: f in d'.inFlight ==> f.id > top - WRAP32))
  {
    hide AckIds, Bit, TopBit, LeadingUpTo;
    var (d', ns) := ProcessAcks(d, ackSeq, mask);
    if mask == 0 { return; }
    TopBitBound(mask);
    LeadingUpToIsAll(d.inFlight, (ackSeq + TopBit(mask)) % WRAP32);
    forall n | n in ns ensures n.status == Ack <==> n.id in AckIds(ackSeq, mask) {
      AckIdsAreBits(ackSeq, mask, n.id);
    }
  }

  // ---- Timeouts ----

  predicate TimesIncrease(fs: seq<InFlightPacket>) {
    forall i, j :: 0 <= i < j < |fs| ==> fs[i].dispatched <= fs[j].dispatched
  }

  // Stopping at the first packet that has not expired misses none.
  lemma {:induction false} LeadingExpiredIsAll(fs: seq<InFlightPacket>, timeout: int, now: int)
    requires TimesIncrease(fs)
    ensures forall i :: 0 <= i < |fs| ==> (fs[i].dispatched + timeout <= now <==> i < LeadingExpired(fs, timeout, now))
  {
    if fs != [] {
      if fs[0].dispatched + timeout <= now { LeadingExpiredIsAll(fs[1..], timeout, now); }
      forall i | 0 <= i < |fs|
        ensures fs[i].dispatched + timeout <= now <==> i < LeadingExpired(fs, timeout, now)
      {
        if i > 0 && fs[0].dispatched + timeout <= now { assert fs[i] == fs[1..][i - 1]; }
      }
    }
  }
}
