/** What the reliable stream computes, on values: the go-back-N sender and the in-order receiver. */
module StreamModel {
  import opened Integers
  import opened Common
  import opened Messages

  // A message whose packet has no status yet.
  datatype Flight = Flight(packetId: u32, message: Message)

  datatype Stream = Stream(
    inFlight: seq<Flight>,
    pending: seq<Message>,
    nextOutgoing: u32,
    nextExpected: u32,
    capacity: nat)
  {
    // Every message the stream still holds, oldest first.
    function Held(): seq<Message> {
      MessagesOf(inFlight) + pending
    }
  }

  function NewStream(capacity: nat): Stream {
    Stream([], [], 0, 0, capacity)
  }

  function MessagesOf(fs: seq<Flight>): (ms: seq<Message>)
    ensures |ms| == |fs| && forall i :: 0 <= i < |fs| ==> ms[i] == fs[i].message
  {
    seq(|fs|, i requires 0 <= i < |fs| => fs[i].message)
  }

  function Tag(id: u32, ms: seq<Message>): (fs: seq<Flight>)
    ensures |fs| == |ms| && forall i :: 0 <= i < |ms| ==> fs[i] == Flight(id, ms[i])
  {
    seq(|ms|, i requires 0 <= i < |ms| => Flight(id, ms[i]))
  }

  function ByteCount(ms: seq<Message>): nat {
    if ms == [] then 0 else |ms[0].payload| + ByteCount(ms[1..])
  }

  const MAX_PACKET: nat := 1400

  // ---- Sender ----

  // The flights left when the leading ones of packet `id` are gone.
  function WithoutPacket(fs: seq<Flight>, id: u32): seq<Flight> {
    if fs != [] && fs[0].packetId == id then WithoutPacket(fs[1..], id) else fs
  }

  function OnStatus(s: Stream, id: u32, status: Status): Stream {
    match status
    case Ack => s.(inFlight := WithoutPacket(s.inFlight, id))
    case Drop => s.(inFlight := [], pending := MessagesOf(s.inFlight) + s.pending)
  }

  // The two assertions of on_packet_delivery_status, each at its place.
  predicate AssertionHolds(s: Stream, id: u32, status: Status) {
    match status
    case Ack => var rest := WithoutPacket(s.inFlight, id); rest == [] || rest[0].packetId > id
    case Drop => s.inFlight == [] || s.inFlight[0].packetId >= id
  }

  // How many leading messages fit into `room` bytes.
  function Fit(ms: seq<Message>, room: int): (n: nat)
    ensures n <= |ms|
  {
    if ms == [] || MESSAGE_OVERHEAD + |ms[0].payload| > room then 0
    else 1 + Fit(ms[1..], room - MESSAGE_OVERHEAD - |ms[0].payload|)
  }

  // The oldest n pending messages sent off in packet `id`.
  function Launch(s: Stream, id: u32, n: nat): Stream
    requires n <= |s.pending|
  {
    s.(inFlight := s.inFlight + Tag(id, s.pending[..n]), pending := s.pending[n..])
  }

  // The new state and the messages written.
  function Write(s: Stream, id: u32, size: nat): (Stream, seq<Message>) {
    var n := Fit(s.pending, size - SEGMENT_SIZE);
    (Launch(s, id, n), s.pending[..n])
  }

  lemma LaunchOneMore(s: Stream, id: u32, n: nat)
    requires n < |s.pending|
    ensures Launch(Launch(s, id, n), id, 1) == Launch(s, id, n + 1)
  {
    var ms := s.pending;
    assert ms[n..][..1] == [ms[n]] && ms[n..][1..] == ms[n + 1..];
    assert ms[..n + 1] == ms[..n] + [ms[n]];
    assert s.inFlight + Tag(id, ms[..n + 1]) == s.inFlight + Tag(id, ms[..n]) + Tag(id, ms[n..][..1]);
  }

  // The free space once the buffer is compacted.
  function Room(s: Stream): int {
    s.capacity - ByteCount(s.Held())
  }

  function Send(s: Stream, payload: seq<u8>): Stream {
    if payload == [] then s
    else s.(pending := s.pending + [Message(s.nextOutgoing, payload)], nextOutgoing := Inc32(s.nextOutgoing))
  }

  // ---- Receiver ----

  // The counter and the callbacks after the messages are scanned in order.
  function Deliver(next: u32, ms: seq<Message>): (u32, seq<seq<u8>>)
    decreases |ms|
  {
    if ms == [] then (next, [])
    else if ms[0].seqNo == next then
      var (n, rest) := Deliver(Inc32(next), ms[1..]);
      (n, [ms[0].payload] + rest)
    else Deliver(next, ms[1..])
  }

  function Receive(s: Stream, bytes: seq<u8>): (Stream, seq<seq<u8>>) {
    var (next, callbacks) := Deliver(s.nextExpected, ParseSegment(bytes).messages);
    (s.(nextExpected := next), callbacks)
  }

  lemma NothingToDeliver(next: u32)
    ensures Deliver(next, []) == (next, [])
  {
  }

  // The same in one pass over the bytes, message by message, as the source does it.
  datatype ScanResult = ScanResult(next: u32, callbacks: seq<seq<u8>>, size: Option<nat>)

  function Scan(next: u32, b: seq<u8>, count: nat): ScanResult
    decreases count
  {
    if count == 0 then ScanResult(next, [], Some(0))
    else
      match ValidateSize(b)
      case None => ScanResult(next, [], None)
      case Some(n) =>
        if FieldAt(b, 0) == next
        then Resume([b[MESSAGE_OVERHEAD..n]], n, Scan(Inc32(next), b[n..], count - 1))
        else Resume([], n, Scan(next, b[n..], count - 1))
  }

  // What is left to scan, after `n` bytes and these callbacks.
  function Resume(callbacks: seq<seq<u8>>, n: nat, rest: ScanResult): ScanResult {
    ScanResult(rest.next, callbacks + rest.callbacks, if rest.size.Some? then Some(n + rest.size.value) else None)
  }

  lemma ResumeTwice(c: seq<seq<u8>>, m: nat, d: seq<seq<u8>>, n: nat, rest: ScanResult)
    ensures Resume(c, m, Resume(d, n, rest)) == Resume(c + d, m + n, rest)
    ensures Resume([], 0, rest) == rest
  {
    assert c + d + rest.callbacks == c + (d + rest.callbacks);
  }

  lemma ScanEnds(next: u32, b: seq<u8>, callbacks: seq<seq<u8>>, n: nat)
    ensures Resume(callbacks, n, Scan(next, b, 0)) == ScanResult(next, callbacks, Some(n))
  {
  }

  // One message further into the bytes.
  lemma ScanNext(next: u32, bytes: seq<u8>, idx: nat, count: nat, callbacks: seq<seq<u8>>)
    requires idx <= |bytes| && count > 0
    ensures ValidateSize(bytes[idx..]).None? ==>
              Resume(callbacks, idx, Scan(next, bytes[idx..], count)) == ScanResult(next, callbacks, None)
    ensures ValidateSize(bytes[idx..]).Some? ==>
              var n := ValidateSize(bytes[idx..]).value;
              var hit := FieldAt(bytes[idx..], 0) == next;
              Resume(callbacks, idx, Scan(next, bytes[idx..], count)) ==
              Resume(if hit then callbacks + [bytes[idx..][MESSAGE_OVERHEAD..n]] else callbacks, idx + n,
                     Scan(if hit then Inc32(next) else next, bytes[idx + n..], count - 1))
  {
    assert callbacks + [] == callbacks;
    var b := bytes[idx..];
    if ValidateSize(b).Some? {
      var n := ValidateSize(b).value;
      var hit := FieldAt(b, 0) == next;
      assert b[n..] == bytes[idx + n..];
      var rest := Scan(if hit then Inc32(next) else next, b[n..], count - 1);
      ResumeTwice(callbacks, idx, if hit then [b[MESSAGE_OVERHEAD..n]] else [], n, rest);
    }
  }

  // The single pass is parsing followed by delivering the messages that match the running counter,
  // including those before a malformed one.
  lemma {:induction false} ScanIsParseThenDeliver(next: u32, b: seq<u8>, count: nat)
    ensures var p := ParseMessages(b, count);
            var (n, callbacks) := Deliver(next, p.messages);
            Scan(next, b, count) == ScanResult(n, callbacks, p.size)
    decreases count
  {
    hide ValidateSize, FieldAt;
    if count > 0 && ValidateSize(b).Some? {
      var n := ValidateSize(b).value;
      var hit := FieldAt(b, 0) == next;
      ScanIsParseThenDeliver(if hit then Inc32(next) else next, b[n..], count - 1);
      var rest := ParseMessages(b[n..], count - 1).messages;
      assert ([Message(FieldAt(b, 0), b[MESSAGE_OVERHEAD..n])] + rest)[1..] == rest;
    }
  }

  // The counter rises by exactly the number of callbacks, for any bytes at all.
  lemma {:induction false} DeliverCounts(next: u32, ms: seq<Message>)
    ensures Deliver(next, ms).0 == (next + |Deliver(next, ms).1|) % WRAP32
    ensures |Deliver(next, ms).1| <= |ms|
    decreases |ms|
  {
    if ms != [] {
      DeliverCounts(if ms[0].seqNo == next then Inc32(next) else next, ms[1..]);
    }
  }

  // The number of the k-th message expected.
  function Number(next: u32, k: nat): u32 {
    (next + k) % WRAP32
  }

  // Index i lies behind the first k hits and before the others.
  predicate Between(hits: seq<nat>, k: nat, i: nat) {
    k <= |hits| && (k > 0 ==> hits[k - 1] < i) && (k < |hits| ==> i < hits[k])
  }

  // The k-th message delivered carries number next + k, and no message between it and the one before it does,
  // nor any behind the last one the number expected in the end.
  ghost predicate Picks(next: u32, ms: seq<Message>, hits: seq<nat>) {
    Increasing(hits) &&
    (forall k :: 0 <= k < |hits| ==> hits[k] < |ms| && ms[hits[k]].seqNo == Number(next, k)) &&
    (forall k: nat, i: nat :: i < |ms| && Between(hits, k, i) ==> ms[i].seqNo != Number(next, k))
  }

  // Any batch of messages, in any order and with any numbers.
  lemma {:induction false} DeliverIsExact(next: u32, ms: seq<Message>) returns (hits: seq<nat>)
    ensures var (n, callbacks) := Deliver(next, ms);
            Picks(next, ms, hits) && |callbacks| == |hits| && n == Number(next, |hits|) &&
            forall k :: 0 <= k < |hits| ==> callbacks[k] == ms[hits[k]].payload
    decreases |ms|
  {
    hide Picks, Number;
    if ms == [] {
      hits := [];
      PicksNone(next);
    } else if ms[0].seqNo == next {
      var later := DeliverIsExact(Inc32(next), ms[1..]);
      hits := [0] + Later(later);
      PicksIndices(Inc32(next), ms[1..], later);
      PicksFirst(next, ms, later);
      NumberNext(next, |hits|);
    } else {
      var later := DeliverIsExact(next, ms[1..]);
      hits := Later(later);
      PicksIndices(next, ms[1..], later);
      PicksLater(next, ms, later);
    }
  }

  function Later(hits: seq<nat>): (r: seq<nat>)
    ensures |r| == |hits| && forall k :: 0 <= k < |hits| ==> r[k] == hits[k] + 1
  {
    seq(|hits|, k requires 0 <= k < |hits| => hits[k] + 1)
  }

  lemma NumberNext(next: u32, k: nat)
    ensures Number(next, 0) == next
    ensures k > 0 ==> Number(next, k) == Number(Inc32(next), k - 1)
  {
  }

  lemma PicksNone(next: u32)
    ensures Picks(next, [], []) && Number(next, 0) == next
  {
  }

  lemma PicksIndices(next: u32, ms: seq<Message>, hits: seq<nat>)
    requires Picks(next, ms, hits)
    ensures forall k :: 0 <= k < |hits| ==> hits[k] < |ms|
  {
  }

  lemma PicksFirst(next: u32, ms: seq<Message>, later: seq<nat>)
    requires ms != [] && ms[0].seqNo == next && Picks(Inc32(next), ms[1..], later)
    ensures Picks(next, ms, [0] + Later(later))
  {
    hide Number;
    var hits, rest := [0] + Later(later), ms[1..];
    forall k | 0 <= k < |hits| ensures hits[k] < |ms| && ms[hits[k]].seqNo == Number(next, k) {
      NumberNext(next, k);
      if k > 0 { assert rest[later[k - 1]].seqNo == Number(Inc32(next), k - 1); }
    }
    forall k: nat, i: nat | i < |ms| && Between(hits, k, i) ensures ms[i].seqNo != Number(next, k) {
      BetweenLater(later, k, i);
      NumberNext(next, k);
      assert rest[i - 1].seqNo != Number(Inc32(next), k - 1);
    }
  }

  lemma BetweenLater(later: seq<nat>, k: nat, i: nat)
    requires Between([0] + Later(later), k, i)
    ensures k > 0 && i > 0 && Between(later, k - 1, i - 1)
  {
    var hits := [0] + Later(later);
    if k > 1 { assert hits[k - 1] == Later(later)[k - 2]; }
    if 0 < k < |hits| { assert hits[k] == Later(later)[k - 1]; }
  }

  lemma PicksLater(next: u32, ms: seq<Message>, later: seq<nat>)
    requires ms != [] && ms[0].seqNo != next && Picks(next, ms[1..], later)
    ensures Picks(next, ms, Later(later))
  {
    hide Number;
    var hits, rest := Later(later), ms[1..];
    NumberNext(next, 0);
    forall k: nat, i: nat | i < |ms| && Between(hits, k, i) ensures ms[i].seqNo != Number(next, k) {
      if i > 0 {
        assert Between(later, k, i - 1);
        assert rest[i - 1].seqNo != Number(next, k);
      }
    }
  }

  predicate IsRun(ms: seq<Message>) {
    forall k :: 0 <= k < |ms| ==> ms[k].seqNo == ms[0].seqNo + k
  }

  function Payloads(ms: seq<Message>): (ps: seq<seq<u8>>)
    ensures |ps| == |ms| && forall k :: 0 <= k < |ms| ==> ps[k] == ms[k].payload
  {
    seq(|ms|, k requires 0 <= k < |ms| => ms[k].payload)
  }

  // A run of consecutive messages that starts at or before the counter is delivered from there to its end.
  lemma {:induction false} RunIsDelivered(next: u32, ms: seq<Message>)
    requires IsRun(ms)
    ensures Deliver(next, ms).1 == Payloads(From(ms, next))
    decreases |ms|
  {
    hide IsRun, Payloads;
    if ms == [] {
      assert Payloads([]) == [];
    } else {
      RestOfRun(ms, next);
      RunIsDelivered(if ms[0].seqNo == next then Inc32(next) else next, ms[1..]);
    }
  }

  // What is left of a run from number `next` on, if it has reached that.
  function From(ms: seq<Message>, next: nat): seq<Message> {
    if ms != [] && ms[0].seqNo <= next < ms[0].seqNo + |ms| then ms[next - ms[0].seqNo..] else []
  }

  lemma RestOfRun(ms: seq<Message>, next: u32)
    requires IsRun(ms) && ms != []
    ensures IsRun(ms[1..])
    ensures ms[0].seqNo == next ==> Payloads(From(ms, next)) == [ms[0].payload] + Payloads(From(ms[1..], Inc32(next)))
    ensures ms[0].seqNo != next ==> From(ms, next) == From(ms[1..], next)
  {
    var rest := ms[1..];
    forall k | 0 <= k < |rest| ensures rest[k].seqNo == ms[0].seqNo + 1 + k { assert rest[k] == ms[k + 1]; }
    if ms[0].seqNo == next {
      assert From(ms, next) == ms;
      if rest != [] {
        assert rest[0].seqNo < WRAP32;
        assert From(rest, Inc32(next)) == rest;
      }
    }
  }

  // ---- The counting pass of write ----

  // The batch chosen is the longest prefix of pending whose segment fits.
  lemma {:induction false} FitSize(ms: seq<Message>, room: int)
    ensures var n := Fit(ms, room);
            (n > 0 ==> |EncodeMessages(ms[..n])| <= room) &&
            (n < |ms| ==> |EncodeMessages(ms[..n + 1])| > room)
  {
    if ms != [] {
      var rest := room - MESSAGE_OVERHEAD - |ms[0].payload|;
      if rest < 0 {
        assert ms[..1][1..] == [];
      } else {
        FitSize(ms[1..], rest);
        var n := Fit(ms, room);
        assert ms[..n][1..] == ms[1..][..n - 1];
        if n - 1 == 0 { assert EncodeMessages(ms[..n][1..]) == []; }
        if n < |ms| { assert ms[..n + 1][1..] == ms[1..][..n]; }
      }
    }
  }

  lemma {:induction false} MessagesAreLong(ms: seq<Message>)
    requires forall m :: m in ms ==> m.payload != []
    ensures |EncodeMessages(ms)| >= (MESSAGE_OVERHEAD + 1) * |ms|
  {
    if ms != [] { MessagesAreLong(ms[1..]); }
  }

  lemma {:induction false} PayloadsFit(ms: seq<Message>, room: int, i: nat)
    requires i < Fit(ms, room)
    ensures MESSAGE_OVERHEAD + |ms[i].payload| <= room
  {
    if i > 0 { PayloadsFit(ms[1..], room - MESSAGE_OVERHEAD - |ms[0].payload|, i - 1); }
  }

  // write takes the longest prefix of pending that fits. In a packet of at most 1400 bytes that is at
  // most 198 messages, each shorter than 2^16, so neither the u8 count nor the u16 length truncates.
  lemma WriteTakesLongestPrefix(s: Stream, id: u32, size: nat)
    requires forall m :: m in s.pending ==> m.payload != []
    ensures var (s', ms) := Write(s, id, size);
            ms + s'.pending == s.pending && s'.Held() == s.Held() &&
            |EncodeSegment(ms)| <= size &&
            (s'.pending != [] ==> |EncodeSegment(ms + [s'.pending[0]])| > size) &&
            (size <= MAX_PACKET - HEADER_SIZE ==> |ms| <= 198 && AllEncodable(ms))
  {
    hide Fit, EncodeMessages;
    WriteKeepsHeld(s, id, size);
    FitSize(s.pending, size - SEGMENT_SIZE);
    var (s', ms) := Write(s, id, size);
    if s'.pending != [] {
      assert ms + [s'.pending[0]] == s.pending[..|ms| + 1];
    }
    if size <= MAX_PACKET - HEADER_SIZE {
      MessagesAreLong(ms);
      BatchIsEncodable(s.pending, size - SEGMENT_SIZE);
    }
  }

  lemma WriteKeepsHeld(s: Stream, id: u32, size: nat)
    ensures var (s', ms) := Write(s, id, size);
            ms + s'.pending == s.pending && s'.Held() == s.Held()
  {
    var (s', ms) := Write(s, id, size);
    assert ms + s'.pending == s.pending;
    assert MessagesOf(s'.inFlight) == MessagesOf(s.inFlight) + ms;
    assert s'.Held() == MessagesOf(s.inFlight) + (ms + s'.pending);
  }

  lemma BatchIsEncodable(ms: seq<Message>, room: int)
    requires room < 0x1_0000
    requires forall m :: m in ms ==> m.payload != []
    ensures AllEncodable(ms[..Fit(ms, room)])
  {
    forall i | 0 <= i < Fit(ms, room) ensures Encodable(ms[i]) {
      PayloadsFit(ms, room, i);
    }
  }
}
