/** neptun/reliable_stream.h: the stream over its buffer, proved against StreamModel. */
module ReliableStreams {
  import opened Integers
  import opened Common
  import opened IoBuffer
  import opened Messages
  import opened FlipBuffers
  import opened StreamModel

  datatype BufferRange = BufferRange(begin: nat, end: nat)
  datatype PendingMessage = PendingMessage(range: BufferRange, seqNo: u32)
  datatype InFlightMessage = InFlightMessage(packetId: u32, message: PendingMessage)

  // ---- From ranges to messages ----

  function RangesOf(fs: seq<InFlightMessage>): (ms: seq<PendingMessage>)
    ensures |ms| == |fs| && forall i :: 0 <= i < |fs| ==> ms[i] == fs[i].message
  {
    seq(|fs|, i requires 0 <= i < |fs| => fs[i].message)
  }

  // The ranges lie end to end from begin to end, none of them empty.
  predicate Tiles(ms: seq<PendingMessage>, begin: nat, end: nat) {
    if ms == [] then begin == end
    else ms[0].range.begin == begin < ms[0].range.end <= end && Tiles(ms[1..], ms[0].range.end, end)
  }

  function Load(m: PendingMessage, d: seq<u8>): Message
    requires m.range.begin <= m.range.end <= |d|
  {
    Message(m.seqNo, d[m.range.begin..m.range.end])
  }

  predicate Within(ms: seq<PendingMessage>, end: nat) {
    forall i :: 0 <= i < |ms| ==> ms[i].range.begin <= ms[i].range.end <= end
  }

  function LoadAll(ms: seq<PendingMessage>, d: seq<u8>): (r: seq<Message>)
    requires Within(ms, |d|)
    ensures |r| == |ms| && forall i :: 0 <= i < |ms| ==> r[i] == Load(ms[i], d)
  {
    seq(|ms|, i requires 0 <= i < |ms| => Load(ms[i], d))
  }

  predicate FlightsWithin(fs: seq<InFlightMessage>, end: nat) {
    forall i :: 0 <= i < |fs| ==> fs[i].message.range.begin <= fs[i].message.range.end <= end
  }

  function LoadFlights(fs: seq<InFlightMessage>, d: seq<u8>): (r: seq<Flight>)
    requires FlightsWithin(fs, |d|)
    ensures |r| == |fs| && forall i :: 0 <= i < |fs| ==> r[i] == Flight(fs[i].packetId, Load(fs[i].message, d))
  {
    seq(|fs|, i requires 0 <= i < |fs| => Flight(fs[i].packetId, Load(fs[i].message, d)))
  }

  function Shift(m: PendingMessage, shift: nat): PendingMessage
    requires shift <= m.range.begin && shift <= m.range.end
  {
    m.(range := BufferRange(m.range.begin - shift, m.range.end - shift))
  }

  function ShiftFlight(f: InFlightMessage, shift: nat): InFlightMessage
    requires shift <= f.message.range.begin && shift <= f.message.range.end
  {
    f.(message := Shift(f.message, shift))
  }

  // ---- Tiling ----

  lemma {:induction false} TilesWithin(ms: seq<PendingMessage>, begin: nat, end: nat)
    requires Tiles(ms, begin, end)
    ensures begin <= end
    ensures forall i :: 0 <= i < |ms| ==> begin <= ms[i].range.begin < ms[i].range.end <= end
  {
    if ms != [] { TilesWithin(ms[1..], ms[0].range.end, end); }
  }

  lemma {:induction false} TilesAppend(ms: seq<PendingMessage>, begin: nat, mid: nat, m: PendingMessage)
    requires Tiles(ms, begin, mid)
    requires m.range.begin == mid < m.range.end
    ensures Tiles(ms + [m], begin, m.range.end)
  {
    if ms == [] {
      assert ([m])[1..] == [];
    } else {
      TilesWithin(ms[1..], ms[0].range.end, mid);
      TilesAppend(ms[1..], ms[0].range.end, mid, m);
      assert (ms + [m])[1..] == ms[1..] + [m];
    }
  }

  lemma {:induction false} TilesShift(ms: seq<PendingMessage>, ns: seq<PendingMessage>, begin: nat, end: nat, shift: nat)
    requires Tiles(ms, begin, end) && shift <= begin && |ns| == |ms|
    requires forall i :: 0 <= i < |ms| ==>
               shift <= ms[i].range.begin && shift <= ms[i].range.end && ns[i] == Shift(ms[i], shift)
    ensures shift <= end && Tiles(ns, begin - shift, end - shift)
  {
    if ms != [] { TilesShift(ms[1..], ns[1..], ms[0].range.end, end, shift); }
  }

  // The bytes held are exactly the bytes between the two indices.
  lemma {:induction false} TilesByteCount(ms: seq<PendingMessage>, begin: nat, end: nat, d: seq<u8>)
    requires Tiles(ms, begin, end) && end <= |d| && Within(ms, |d|)
    ensures ByteCount(LoadAll(ms, d)) == end - begin
  {
    if ms != [] {
      TilesWithin(ms[1..], ms[0].range.end, end);
      TilesByteCount(ms[1..], ms[0].range.end, end, d);
      assert LoadAll(ms, d)[1..] == LoadAll(ms[1..], d);
    }
  }

  lemma LoadUnchanged(ms: seq<PendingMessage>, d: seq<u8>, d': seq<u8>, end: nat)
    requires end <= |d| == |d'| && d[..end] == d'[..end] && Within(ms, end)
    ensures forall i :: 0 <= i < |ms| ==> Load(ms[i], d) == Load(ms[i], d')
  {
    forall i | 0 <= i < |ms| ensures Load(ms[i], d) == Load(ms[i], d') {
      var r := ms[i].range;
      assert d[r.begin..r.end] == d[..end][r.begin..r.end];
      assert d'[r.begin..r.end] == d'[..end][r.begin..r.end];
    }
  }

  lemma TilesParts(fs: seq<InFlightMessage>, ps: seq<PendingMessage>, begin: nat, end: nat)
    requires Tiles(RangesOf(fs) + ps, begin, end)
    ensures begin <= end
    ensures forall i :: 0 <= i < |fs| ==> begin <= fs[i].message.range.begin < fs[i].message.range.end <= end
    ensures forall i :: 0 <= i < |ps| ==> begin <= ps[i].range.begin < ps[i].range.end <= end
  {
    var layout := RangesOf(fs) + ps;
    TilesWithin(layout, begin, end);
    assert forall i :: 0 <= i < |fs| ==> fs[i].message == layout[i];
    assert forall i :: 0 <= i < |ps| ==> ps[i] == layout[|fs| + i];
  }

  // Bytes written behind every range change no message, and form the new one.
  lemma PatchLoads(fs: seq<InFlightMessage>, ps: seq<PendingMessage>, m: PendingMessage, d: seq<u8>, payload: seq<u8>)
    requires var at := m.range.begin; m.range.end == at + |payload| <= |d| && FlightsWithin(fs, at) && Within(ps, at)
    ensures var d' := Patch(d, m.range.begin, payload);
            LoadFlights(fs, d') == LoadFlights(fs, d) &&
            LoadAll(ps + [m], d') == LoadAll(ps, d) + [Message(m.seqNo, payload)]
  {
    var at := m.range.begin;
    var d' := Patch(d, at, payload);
    assert d'[..at] == d[..at] && d'[at..at + |payload|] == payload;
    LoadUnchanged(RangesOf(fs), d, d', at);
    LoadUnchanged(ps, d, d', at);
    assert forall i :: 0 <= i < |fs| ==> Load(RangesOf(fs)[i], d) == Load(fs[i].message, d);
  }

  // A range shifted with the bytes it covers still holds the same bytes.
  lemma LoadShifted(ms: seq<PendingMessage>, ns: seq<PendingMessage>, d: seq<u8>, d': seq<u8>, shift: nat, end: nat)
    requires shift + end <= |d| == |d'| && d'[..end] == d[shift..shift + end]
    requires |ns| == |ms| && Within(ns, end)
    requires forall i :: 0 <= i < |ms| ==>
               shift <= ms[i].range.begin <= ms[i].range.end <= shift + end && ns[i] == Shift(ms[i], shift)
    ensures forall i :: 0 <= i < |ms| ==> Load(ns[i], d') == Load(ms[i], d)
  {
    forall i | 0 <= i < |ms| ensures Load(ns[i], d') == Load(ms[i], d) {
      var r := ms[i].range;
      forall k | r.begin <= k < r.end ensures d[k] == d'[k - shift] {
        assert d'[..end][k - shift] == d[shift..shift + end][k - shift];
      }
      assert d[r.begin..r.end] == d'[ns[i].range.begin..ns[i].range.end];
    }
  }

  lemma ShiftLoads(fs: seq<InFlightMessage>, fs': seq<InFlightMessage>, ps: seq<PendingMessage>, ps': seq<PendingMessage>,
                   d: seq<u8>, d': seq<u8>, shift: nat, end: nat)
    requires shift + end <= |d| == |d'| && d'[..end] == d[shift..shift + end]
    requires |fs| == |fs'| && forall i :: 0 <= i < |fs| ==>
               shift <= fs[i].message.range.begin <= fs[i].message.range.end <= shift + end &&
               fs'[i] == ShiftFlight(fs[i], shift)
    requires |ps| == |ps'| && forall i :: 0 <= i < |ps| ==>
               shift <= ps[i].range.begin <= ps[i].range.end <= shift + end && ps'[i] == Shift(ps[i], shift)
    ensures FlightsWithin(fs', |d'|) && FlightsWithin(fs, |d|) && LoadFlights(fs', d') == LoadFlights(fs, d)
    ensures Within(ps', |d'|) && Within(ps, |d|) && LoadAll(ps', d') == LoadAll(ps, d)
  {
    LoadShifted(RangesOf(fs), RangesOf(fs'), d, d', shift, end);
    LoadShifted(ps, ps', d, d', shift, end);
    assert forall i :: 0 <= i < |fs| ==> Load(RangesOf(fs')[i], d') == Load(RangesOf(fs)[i], d);
  }

  // After compaction the space behind the contents is all the free space.
  lemma RoomIsRemaining(fs: seq<InFlightMessage>, ps: seq<PendingMessage>, begin: nat, end: nat, d: seq<u8>, o: u32, e: u32)
    requires Consistent(fs, ps, begin, end, |d|)
    ensures begin <= end && Room(ViewOf(fs, ps, d, o, e)) == |d| - (end - begin)
  {
    TilesParts(fs, ps, begin, end);
    TilesWithin(RangesOf(fs) + ps, begin, end);
    TilesByteCount(RangesOf(fs) + ps, begin, end, d);
    assert ViewOf(fs, ps, d, o, e).Held() == LoadAll(RangesOf(fs) + ps, d);
  }

  // ---- Layout and view of the whole stream, as values ----

  predicate Consistent(fs: seq<InFlightMessage>, ps: seq<PendingMessage>, begin: nat, end: nat, size: nat) {
    Tiles(RangesOf(fs) + ps, begin, end) && end <= size && FlightsWithin(fs, size) && Within(ps, size)
  }

  function ViewOf(fs: seq<InFlightMessage>, ps: seq<PendingMessage>, d: seq<u8>,
                  nextOutgoing: u32, nextExpected: u32): Stream
    requires FlightsWithin(fs, |d|) && Within(ps, |d|)
  {
    Stream(LoadFlights(fs, d), LoadAll(ps, d), nextOutgoing, nextExpected, |d|)
  }

  lemma ConsistentFromTiles(fs: seq<InFlightMessage>, ps: seq<PendingMessage>, begin: nat, end: nat, size: nat)
    requires Tiles(RangesOf(fs) + ps, begin, end) && end <= size
    ensures Consistent(fs, ps, begin, end, size)
  {
    TilesParts(fs, ps, begin, end);
  }

  // Releasing the oldest flight.
  lemma ReleaseFirst(fs: seq<InFlightMessage>, ps: seq<PendingMessage>, begin: nat, end: nat, d: seq<u8>, o: u32, e: u32)
    requires Consistent(fs, ps, begin, end, |d|) && fs != []
    ensures var r := fs[0].message.range;
            r.begin == begin <= r.end <= end && Consistent(fs[1..], ps, r.end, end, |d|) &&
            var s := ViewOf(fs, ps, d, o, e);
            s.inFlight[0].packetId == fs[0].packetId &&
            ViewOf(fs[1..], ps, d, o, e) == s.(inFlight := s.inFlight[1..])
  {
    var layout := RangesOf(fs) + ps;
    assert layout[0] == fs[0].message && layout[1..] == RangesOf(fs[1..]) + ps;
    TilesWithin(layout, begin, end);
    assert LoadFlights(fs[1..], d) == LoadFlights(fs, d)[1..];
  }

  // Putting everything in flight back in front of the pending messages.
  lemma RequeueAll(fs: seq<InFlightMessage>, ps: seq<PendingMessage>, begin: nat, end: nat, d: seq<u8>, o: u32, e: u32)
    requires Consistent(fs, ps, begin, end, |d|)
    ensures Consistent([], RangesOf(fs) + ps, begin, end, |d|)
    ensures ViewOf([], RangesOf(fs) + ps, d, o, e) == OnStatus(ViewOf(fs, ps, d, o, e), 0, Drop)
  {
    hide Tiles;
    var layout := RangesOf(fs) + ps;
    assert RangesOf([]) + layout == layout;
    ConsistentFromTiles([], layout, begin, end, |d|);
    LoadTogether(fs, ps, d);
  }

  lemma LoadTogether(fs: seq<InFlightMessage>, ps: seq<PendingMessage>, d: seq<u8>)
    requires FlightsWithin(fs, |d|) && Within(ps, |d|)
    ensures Within(RangesOf(fs) + ps, |d|)
    ensures LoadAll(RangesOf(fs) + ps, d) == MessagesOf(LoadFlights(fs, d)) + LoadAll(ps, d)
    ensures LoadFlights([], d) == []
  {
  }

  // Putting the oldest pending message in flight.
  lemma LaunchFirst(fs: seq<InFlightMessage>, ps: seq<PendingMessage>, begin: nat, end: nat, d: seq<u8>, o: u32, e: u32,
                    id: u32)
    requires Consistent(fs, ps, begin, end, |d|) && ps != []
    ensures Consistent(fs + [InFlightMessage(id, ps[0])], ps[1..], begin, end, |d|)
    ensures ViewOf(fs + [InFlightMessage(id, ps[0])], ps[1..], d, o, e) == Launch(ViewOf(fs, ps, d, o, e), id, 1)
  {
    var fs' := fs + [InFlightMessage(id, ps[0])];
    assert RangesOf(fs') + ps[1..] == RangesOf(fs) + ps;
    ConsistentFromTiles(fs', ps[1..], begin, end, |d|);
    var s := ViewOf(fs, ps, d, o, e);
    assert LoadFlights(fs', d) == s.inFlight + Tag(id, s.pending[..1]);
    assert LoadAll(ps[1..], d) == s.pending[1..];
  }

  // A new payload behind everything held.
  lemma AppendMessage(fs: seq<InFlightMessage>, ps: seq<PendingMessage>, begin: nat, end: nat, d: seq<u8>, o: u32, e: u32,
                      payload: seq<u8>)
    requires Consistent(fs, ps, begin, end, |d|) && payload != [] && end + |payload| <= |d|
    ensures var d' := Patch(d, end, payload);
            var m := PendingMessage(BufferRange(end, end + |payload|), o);
            |d'| == |d| && Consistent(fs, ps + [m], begin, end + |payload|, |d|) &&
            ViewOf(fs, ps + [m], d', Inc32(o), e) == StreamModel.Send(ViewOf(fs, ps, d, o, e), payload)
  {
    var m := PendingMessage(BufferRange(end, end + |payload|), o);
    TilesParts(fs, ps, begin, end);
    TilesAppend(RangesOf(fs) + ps, begin, end, m);
    assert RangesOf(fs) + (ps + [m]) == RangesOf(fs) + ps + [m];
    ConsistentFromTiles(fs, ps + [m], begin, end + |payload|, |d|);
    PatchLoads(fs, ps, m, d, payload);
  }

  // Moving the contents down to 0 and every range with them.
  lemma CompactAll(fs: seq<InFlightMessage>, ps: seq<PendingMessage>, begin: nat, end: nat, d: seq<u8>, d': seq<u8>,
                   o: u32, e: u32)
    requires Consistent(fs, ps, begin, end, |d|) && begin <= end && |d'| == |d| && d'[..end - begin] == d[begin..end]
    requires CanShift(fs, ps, begin)
    ensures var fs', ps' := ShiftFlights(fs, begin), ShiftAll(ps, begin);
            Consistent(fs', ps', 0, end - begin, |d|) && ViewOf(fs', ps', d', o, e) == ViewOf(fs, ps, d, o, e)
  {
    var fs', ps' := ShiftFlights(fs, begin), ShiftAll(ps, begin);
    TilesParts(fs, ps, begin, end);
    TilesWithin(RangesOf(fs) + ps, begin, end);
    TilesShift(RangesOf(fs) + ps, RangesOf(fs') + ps', begin, end, begin);
    ConsistentFromTiles(fs', ps', 0, end - begin, |d|);
    TilesParts(fs', ps', 0, end - begin);
    ShiftLoads(fs, fs', ps, ps', d, d', begin, end - begin);
  }

  predicate CanShift(fs: seq<InFlightMessage>, ps: seq<PendingMessage>, shift: nat) {
    (forall i :: 0 <= i < |fs| ==> shift <= fs[i].message.range.begin <= fs[i].message.range.end) &&
    (forall i :: 0 <= i < |ps| ==> shift <= ps[i].range.begin <= ps[i].range.end)
  }

  function ShiftFlights(fs: seq<InFlightMessage>, shift: nat): (r: seq<InFlightMessage>)
    requires CanShift(fs, [], shift)
    ensures |r| == |fs| && forall i :: 0 <= i < |fs| ==> r[i] == ShiftFlight(fs[i], shift)
  {
    seq(|fs|, i requires 0 <= i < |fs| => ShiftFlight(fs[i], shift))
  }

  function ShiftAll(ps: seq<PendingMessage>, shift: nat): (r: seq<PendingMessage>)
    requires CanShift([], ps, shift)
    ensures |r| == |ps| && forall i :: 0 <= i < |ps| ==> r[i] == Shift(ps[i], shift)
  {
    seq(|ps|, i requires 0 <= i < |ps| => Shift(ps[i], shift))
  }

  lemma UpdateStep<T>(before: seq<T>, after: seq<T>, i: nat)
    requires i < |before| == |after|
    ensures var q := after[..i] + before[i..];
            q[i] == before[i] && q[i := after[i]] == after[..i + 1] + before[i + 1..]
  {
  }

  lemma RotateStep<T>(before: seq<T>, after: seq<T>, i: nat)
    requires i < |before| == |after|
    ensures var q := before[i..] + after[..i];
            q[0] == before[i] && q[1..] + [after[i]] == before[i + 1..] + after[..i + 1]
  {
  }

  lemma PendingSizes(fs: seq<InFlightMessage>, ps: seq<PendingMessage>, d: seq<u8>, o: u32, e: u32)
    requires FlightsWithin(fs, |d|) && Within(ps, |d|)
    ensures var ms := ViewOf(fs, ps, d, o, e).pending;
            |ms| == |ps| && forall i :: 0 <= i < |ps| ==> |ms[i].payload| == ps[i].range.end - ps[i].range.begin
  {
  }

  // ---- One round of each loop of write, as values ----

  // The packet bytes after the segment header and the first i messages.
  function Image(was: seq<u8>, lo: nat, head: seq<u8>, ms: seq<Message>, i: nat): seq<u8>
    requires i <= |ms| && lo + |head| + |EncodeMessages(ms[..i])| <= |was|
  {
    Patch(was, lo, head + EncodeMessages(ms[..i]))
  }

  lemma CountStep(ms: seq<Message>, i: nat, room: int)
    requires i < |ms|
    ensures var size := MESSAGE_OVERHEAD + |ms[i].payload|;
            Fit(ms[i..], room) == (if size > room then 0 else 1 + Fit(ms[i + 1..], room - size)) &&
            |EncodeMessages(ms[..i + 1])| == |EncodeMessages(ms[..i])| + size
  {
    assert ms[i..][0] == ms[i] && ms[i..][1..] == ms[i + 1..];
    assert ms[..i] + [ms[i]] == ms[..i + 1];
    EncodeMessagesAppend(ms[..i], ms[i]);
  }

  lemma FitStep(ms: seq<Message>, i: nat, room: int)
    requires i < |ms| && Fit(ms[i..], room) > 0
    ensures |EncodeMessage(ms[i])| <= room
    ensures Fit(ms[i + 1..], room - |EncodeMessage(ms[i])|) == Fit(ms[i..], room) - 1
  {
    assert ms[i..][0] == ms[i] && ms[i..][1..] == ms[i + 1..];
  }

  lemma ImageStep(was: seq<u8>, lo: nat, head: seq<u8>, ms: seq<Message>, i: nat)
    requires i < |ms| && lo + |head| + |EncodeMessages(ms[..i])| + |EncodeMessage(ms[i])| <= |was|
    ensures |EncodeMessages(ms[..i + 1])| == |EncodeMessages(ms[..i])| + |EncodeMessage(ms[i])|
    ensures |Image(was, lo, head, ms, i)| == |was|
    ensures Patch(Image(was, lo, head, ms, i), lo + |head| + |EncodeMessages(ms[..i])|, EncodeMessage(ms[i]))
         == Image(was, lo, head, ms, i + 1)
  {
    var done := head + EncodeMessages(ms[..i]);
    EncodeMessagesAppend(ms[..i], ms[i]);
    assert ms[..i] + [ms[i]] == ms[..i + 1];
    assert done + EncodeMessage(ms[i]) == head + EncodeMessages(ms[..i + 1]);
    PatchTwice(was, lo, done, EncodeMessage(ms[i]));
  }

  // ---- The class ----

  class ReliableStream {
    const buffer: FlipBuffer
    var inFlight: seq<InFlightMessage>
    var pending: seq<PendingMessage>
    var nextOutgoing: u32
    var nextExpected: u32

    // The ranges tile the contents of the buffer.
    ghost predicate Valid()
      reads this, buffer
    {
      buffer.Valid() && Consistent(inFlight, pending, buffer.begin, buffer.end, buffer.data.Length)
    }

    ghost function View(): Stream
      requires Valid()
      reads this, buffer, buffer.data
    {
      ViewOf(inFlight, pending, buffer.data[..], nextOutgoing, nextExpected)
    }

    constructor (capacity: nat)
      ensures Valid() && View() == NewStream(capacity)
      ensures fresh(buffer) && fresh(buffer.data) && buffer.data.Length == capacity
    {
      buffer := new FlipBuffer(capacity);
      inFlight, pending := [], [];
      nextOutgoing, nextExpected := 0, 0;
    }

    // ok says whether the assertion of the source at this status holds.
    method OnPacketDeliveryStatus(packetId: u32, status: Status) returns (ok: bool)
      requires Valid()
      modifies this, buffer`begin
      ensures Valid()
      ensures View() == OnStatus(old(View()), packetId, status)
      ensures ok == AssertionHolds(old(View()), packetId, status)
    {
      match status
      case Ack =>
        ReleasePacket(packetId);
        ok := inFlight == [] || inFlight[0].packetId > packetId;
      case Drop =>
        ok := inFlight == [] || inFlight[0].packetId >= packetId;
        Requeue();
    }

    method ReleasePacket(packetId: u32)
      requires Valid()
      modifies `inFlight, buffer`begin
      ensures Valid()
      ensures View() == OnStatus(old(View()), packetId, Ack)
    {
      hide Consistent;
      while inFlight != [] && inFlight[0].packetId == packetId
        invariant Valid()
        invariant OnStatus(View(), packetId, Ack) == OnStatus(old(View()), packetId, Ack)
        decreases |inFlight|
      {
        ReleaseFirst(inFlight, pending, buffer.begin, buffer.end, buffer.data[..], nextOutgoing, nextExpected);
        buffer.Consume(inFlight[0].message.range.end - inFlight[0].message.range.begin);
        inFlight := inFlight[1..];
      }
    }

    method Requeue()
      requires Valid()
      modifies `inFlight, `pending
      ensures Valid()
      ensures View() == OnStatus(old(View()), 0, Drop)
    {
      hide Consistent, ViewOf;
      ghost var flights, waiting := inFlight, pending;
      ghost var ranges := RangesOf(flights);
      RequeueAll(inFlight, pending, buffer.begin, buffer.end, buffer.data[..], nextOutgoing, nextExpected);
      var reversed: seq<PendingMessage> := [];
      while inFlight != []
        invariant |reversed| <= |ranges| && inFlight == flights[|reversed|..]
        invariant reversed == ranges[..|reversed|] && pending == waiting
        decreases |inFlight|
      {
        reversed := reversed + [inFlight[0].message];
        inFlight := inFlight[1..];
      }
      assert reversed == ranges && ranges[|ranges|..] + waiting == waiting;
      while reversed != []
        invariant |reversed| <= |ranges| && reversed == ranges[..|reversed|]
        invariant pending == ranges[|reversed|..] + waiting && inFlight == []
      {
        pending := [reversed[|reversed| - 1]] + pending;
        reversed := reversed[..|reversed| - 1];
      }
    }

    // size is None when a message is malformed, else the number of bytes the stream consumed.
    method Read(span: Span) returns (size: Option<nat>, callbacks: seq<seq<u8>>)
      requires Valid() && span.Valid()
      modifies `nextExpected
      ensures Valid()
      ensures (View(), callbacks) == Receive(old(View()), span.Bytes())
      ensures size == ParseSegment(span.Bytes()).size
      ensures forall ms: seq<Message>, held: Option<nat> :: Holds(span.Bytes(), ms, held) ==>
                size == held && (View().nextExpected, callbacks) == Deliver(old(View()).nextExpected, ms)
      ensures size.Some? ==> size.value <= span.Size()
    {
      hide Consistent, Scan, ParseMessages, BigEndian, Pow2, Holds, Deliver;
      forall ms: seq<Message>, held: Option<nat> | Holds(span.Bytes(), ms, held)
        ensures ParseSegment(span.Bytes()) == Parse(ms, held)
      {
        ParsesExactly(span.Bytes(), ms, held);
      }
      NothingToDeliver(nextExpected);
      if SEGMENT_SIZE > span.Size() {
        return Some(0), [];
      }
      var managerType := ReadUnsigned(span, 0, 1);
      var count := ReadUnsigned(span, 1, 1);
      BigEndianOfByte(span.Bytes(), 0);
      BigEndianOfByte(span.Bytes(), 1);
      if managerType != RELIABLE_STREAM {
        return Some(0), [];
      }
      ScanIsParseThenDeliver(nextExpected, span.Bytes()[SEGMENT_SIZE..], count);
      size, callbacks := ReadMessages(span, count);
    }

    // The loop of read over the messages behind the segment header.
    method ReadMessages(span: Span, count: nat) returns (size: Option<nat>, callbacks: seq<seq<u8>>)
      requires span.Valid() && SEGMENT_SIZE <= span.Size()
      modifies `nextExpected
      ensures var r := Scan(old(nextExpected), span.Bytes()[SEGMENT_SIZE..], count);
              nextExpected == r.next && callbacks == r.callbacks &&
              size == (if r.size.Some? then Some(SEGMENT_SIZE + r.size.value) else None)
      ensures size.Some? ==> size.value <= span.Size()
    {
      hide Scan, Resume, ValidateSize, FieldAt, BigEndian, Pow2;
      ghost var bytes := span.Bytes()[SEGMENT_SIZE..];
      var idx := SEGMENT_SIZE;
      callbacks := [];
      ghost var total := Scan(nextExpected, bytes, count);
      ResumeTwice([], 0, [], 0, total);
      assert bytes[0..] == bytes;
      for i := 0 to count
        invariant SEGMENT_SIZE <= idx <= span.Size()
        invariant total == Resume(callbacks, idx - SEGMENT_SIZE, Scan(nextExpected, bytes[idx - SEGMENT_SIZE..], count - i))
      {
        assert span.Advance(idx).Bytes() == bytes[idx - SEGMENT_SIZE..];
        ScanNext(nextExpected, bytes, idx - SEGMENT_SIZE, count - i, callbacks);
        var message := ReadMessage(span.Advance(idx));
        if message.None? {
          return None, callbacks;
        }
        idx := idx + MESSAGE_OVERHEAD + |message.value.payload|;
        if message.value.seqNo == nextExpected {
          nextExpected := Inc32(nextExpected);
          callbacks := callbacks + [message.value.payload];
        }
      }
      ScanEnds(nextExpected, bytes[idx - SEGMENT_SIZE..], callbacks, idx - SEGMENT_SIZE);
      size := Some(idx);
    }

    method Write(packetId: u32, span: Span) returns (count: nat, ghost written: seq<Message>)
      requires Valid() && span.Valid() && span.data != buffer.data
      modifies `inFlight, `pending, span.data
      ensures Valid()
      ensures (View(), written) == StreamModel.Write(old(View()), packetId, span.Size())
      ensures count == |EncodeSegment(written)| <= span.Size()
      ensures span.data[..] == Patch(old(span.data[..]), span.lo, EncodeSegment(written))
    {
      hide Consistent, ViewOf, Fit, EncodeMessages, Patch;
      ghost var view := View();
      var totalSize, messageCount := CountFitting(span.Size());
      written := view.pending[..messageCount];
      if messageCount == 0 {
        assert Launch(view, packetId, 0) == view;
        PatchNothing(span.data[..], span.lo);
        return 0, written;
      }
      FitSize(view.pending, span.Size() - SEGMENT_SIZE);
      WriteMessages(packetId, span, messageCount, totalSize);
      count := totalSize;
    }

    // The first loop of write.
    method CountFitting(size: nat) returns (totalSize: nat, messageCount: nat)
      requires Valid()
      ensures messageCount == Fit(View().pending, size - SEGMENT_SIZE)
      ensures totalSize == SEGMENT_SIZE + |EncodeMessages(View().pending[..messageCount])|
    {
      hide ViewOf, Tiles, Fit;
      totalSize, messageCount := SEGMENT_SIZE, 0;
      ghost var ms := View().pending;
      PendingSizes(inFlight, pending, buffer.data[..], nextOutgoing, nextExpected);
      while messageCount < |pending|
        invariant messageCount <= |pending|
        invariant totalSize == SEGMENT_SIZE + |EncodeMessages(ms[..messageCount])|
        invariant Fit(ms, size - SEGMENT_SIZE) == messageCount + Fit(ms[messageCount..], size - totalSize)
      {
        CountStep(ms, messageCount, size - totalSize);
        var range := pending[messageCount].range;
        var messageSize := MESSAGE_OVERHEAD + (range.end - range.begin);
        if totalSize + messageSize > size {
          break;
        }
        totalSize := totalSize + messageSize;
        messageCount := messageCount + 1;
      }
    }

    // The second loop of write; it ends at the size the first loop computed.
    method WriteMessages(packetId: u32, span: Span, messageCount: nat, totalSize: nat)
      requires Valid() && span.Valid() && span.data != buffer.data && SEGMENT_SIZE <= span.Size()
      requires 0 < messageCount == Fit(View().pending, span.Size() - SEGMENT_SIZE)
      requires totalSize == SEGMENT_SIZE + |EncodeMessages(View().pending[..messageCount])| <= span.Size()
      modifies `inFlight, `pending, span.data
      ensures Valid()
      ensures View() == Launch(old(View()), packetId, messageCount)
      ensures span.data[..] == Patch(old(span.data[..]), span.lo, EncodeSegment(old(View()).pending[..messageCount]))
    {
      hide Consistent, ViewOf, Fit, Patch;
      ghost var view, was := View(), span.data[..];
      ghost var ms, head := view.pending, [RELIABLE_STREAM, messageCount % 0x100];
      var idx := WriteSegmentHeader(span, RELIABLE_STREAM, messageCount % 0x100);
      assert head + EncodeMessages(ms[..0]) == head;
      assert Launch(view, packetId, 0) == view && ms[0..] == ms;
      for i := 0 to messageCount
        invariant Valid()
        invariant View() == Launch(view, packetId, i)
        invariant idx == |head| + |EncodeMessages(ms[..i])| <= span.Size()
        invariant Fit(ms[i..], span.Size() - idx) == messageCount - i
        invariant span.data[..] == Image(was, span.lo, head, ms, i)
      {
        FitStep(ms, i, span.Size() - idx);
        ImageStep(was, span.lo, head, ms, i);
        LaunchOneMore(view, packetId, i);
        assert View().pending[0] == ms[i];
        var size := WriteFirst(packetId, span.Advance(idx));
        idx := idx + size;
      }
      assert idx == totalSize;
      assert EncodeSegment(ms[..messageCount]) == head + EncodeMessages(ms[..messageCount]);
    }

    // One round of that loop: the oldest pending message is written and put in flight.
    method WriteFirst(packetId: u32, span: Span) returns (count: nat)
      requires Valid() && span.Valid() && span.data != buffer.data
      requires View().pending != [] && |EncodeMessage(View().pending[0])| <= span.Size()
      modifies `inFlight, `pending, span.data
      ensures Valid()
      ensures View() == Launch(old(View()), packetId, 1)
      ensures count == |EncodeMessage(old(View()).pending[0])|
      ensures span.data[..] == Patch(old(span.data[..]), span.lo, EncodeMessage(old(View()).pending[0]))
    {
      hide Patch, EncodeMessage, Launch;
      LaunchFirst(inFlight, pending, buffer.begin, buffer.end, buffer.data[..], nextOutgoing, nextExpected, packetId);
      var message := pending[0];
      var payload := buffer.data[message.range.begin..message.range.end];
      assert buffer.data[..][message.range.begin..message.range.end] == payload;
      pending := pending[1..];
      inFlight := inFlight + [InFlightMessage(packetId, message)];
      count := WriteMessage(span, Message(message.seqNo, payload));
    }

    // The callback is given the free space and answers with the payload it wrote there.
    method Send(writeToBuffer: nat -> seq<u8>)
      requires Valid()
      requires forall n: nat :: |writeToBuffer(n)| <= n
      modifies this, buffer, buffer.data
      ensures Valid()
      ensures Room(old(View())) == buffer.data.Length - |old(buffer.Contents())| >= 0
      ensures View() == StreamModel.Send(old(View()), writeToBuffer(Room(old(View()))))
    {
      hide Consistent, ViewOf, Patch, Room;
      RoomIsRemaining(inFlight, pending, buffer.begin, buffer.end, buffer.data[..], nextOutgoing, nextExpected);
      MaybeFlip();
      RoomIsRemaining(inFlight, pending, buffer.begin, buffer.end, buffer.data[..], nextOutgoing, nextExpected);
      var remaining := buffer.Remaining();
      var payload := writeToBuffer(remaining.Size());
      if payload != [] {
        AppendMessage(inFlight, pending, buffer.begin, buffer.end, buffer.data[..], nextOutgoing, nextExpected, payload);
        var sequenceNumber := nextOutgoing;
        nextOutgoing := Inc32(nextOutgoing);
        pending := pending + [PendingMessage(BufferRange(buffer.end, buffer.end + |payload|), sequenceNumber)];
        var count := WriteByteArray(remaining, 0, payload);
        buffer.Advance(|payload|);
      }
    }

    // Compaction is invisible in the view; afterwards the contents start at 0.
    method MaybeFlip()
      requires Valid()
      modifies this, buffer, buffer.data
      ensures Valid() && buffer.begin == 0
      ensures View() == old(View())
    {
      hide ViewOf;
      if buffer.begin > 0 {
        ghost var flights, waiting, bytes := inFlight, pending, buffer.data[..];
        ghost var begin, end := buffer.begin, buffer.end;
        TilesParts(inFlight, pending, begin, end);
        ShiftInFlight(buffer.begin);
        ShiftPending(buffer.begin);
        buffer.Flip();
        assert buffer.data[..][..end - begin] == bytes[begin..end];
        CompactAll(flights, waiting, begin, end, bytes, buffer.data[..], nextOutgoing, nextExpected);
      }
    }

    // Every element is popped, shifted and pushed back: the queue rotates once.
    method ShiftInFlight(shift: nat)
      requires CanShift(inFlight, [], shift)
      modifies `inFlight
      ensures inFlight == ShiftFlights(old(inFlight), shift)
    {
      ghost var flights := inFlight;
      ghost var shifted := ShiftFlights(flights, shift);
      for i := 0 to |inFlight|
        invariant |inFlight| == |flights|
        invariant inFlight == flights[i..] + shifted[..i]
      {
        RotateStep(flights, shifted, i);
        var message := inFlight[0];
        inFlight := inFlight[1..];
        inFlight := inFlight + [ShiftFlight(message, shift)];
      }
    }

    method ShiftPending(shift: nat)
      requires CanShift([], pending, shift)
      modifies `pending
      ensures pending == ShiftAll(old(pending), shift)
    {
      ghost var waiting := pending;
      ghost var shifted := ShiftAll(waiting, shift);
      for i := 0 to |pending|
        invariant |pending| == |waiting|
        invariant pending == shifted[..i] + waiting[i..]
      {
        UpdateStep(waiting, shifted, i);
        pending := pending[i := Shift(pending[i], shift)];
      }
    }
  }
}
