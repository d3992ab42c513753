/** neptun/messages: the packet header, the segment header and the reliable message, printed and parsed. */
module Messages {
  import opened Integers
  import opened IoBuffer

  const HEADER_SIZE: nat := 12
  const SEGMENT_SIZE: nat := 2
  const MESSAGE_OVERHEAD: nat := 6
  const RELIABLE_STREAM: u8 := 3

  datatype Header = Header(id: u32, ackSeq: u32, ackMask: u32)

  datatype Message = Message(seqNo: u32, payload: seq<u8>)

  // What follows the reliable segment belongs to another manager.
  datatype Packet = Packet(header: Header, messages: seq<Message>, tail: seq<u8>)

  // ---- Printing ----

  function EncodeHeader(h: Header): (b: seq<u8>)
    ensures |b| == HEADER_SIZE
  {
    ToBytes(h.id, 4) + ToBytes(h.ackSeq, 4) + ToBytes(h.ackMask, 4)
  }

  // The length field is a u16, so the payload size is narrowed.
  function EncodeMessage(m: Message): (b: seq<u8>)
    ensures |b| == MESSAGE_OVERHEAD + |m.payload|
  {
    ToBytes(m.seqNo, 4) + ToBytes(|m.payload| % 0x1_0000, 2) + m.payload
  }

  function EncodeMessages(ms: seq<Message>): seq<u8> {
    if ms == [] then [] else EncodeMessage(ms[0]) + EncodeMessages(ms[1..])
  }

  // No segment at all is written for no messages; the count field is a u8, so it is narrowed.
  function EncodeSegment(ms: seq<Message>): seq<u8> {
    if ms == [] then [] else [RELIABLE_STREAM, |ms| % 0x100] + EncodeMessages(ms)
  }

  function EncodePacket(p: Packet): seq<u8> {
    EncodeHeader(p.header) + EncodeSegment(p.messages) + p.tail
  }

  // ---- Parsing ----

  function FieldAt(b: seq<u8>, at: nat): (r: u32)
    requires at + 4 <= |b|
  {
    BigEndianBound(b[at..at + 4]);
    Pow2Values();
    BigEndian(b[at..at + 4])
  }

  function DecodeHeader(b: seq<u8>): (h: Header)
    requires |b| >= HEADER_SIZE
  {
    Header(FieldAt(b, 0), FieldAt(b, 4), FieldAt(b, 8))
  }

  function ValidateSize(b: seq<u8>): (r: Option<nat>)
    ensures r.Some? ==> MESSAGE_OVERHEAD < r.value <= |b|
  {
    if |b| < MESSAGE_OVERHEAD then None
    else
      var total := MESSAGE_OVERHEAD + BigEndian(b[4..6]);
      if total > |b| || total == MESSAGE_OVERHEAD then None else Some(total)
  }

  // The messages found before the end or before the first malformed one;
  // size is None when a message is malformed and the number of bytes consumed otherwise.
  datatype Parse = Parse(messages: seq<Message>, size: Option<nat>)

  function ParseMessages(b: seq<u8>, count: nat): (p: Parse)
    ensures p.size.Some? ==> p.size.value <= |b|
  {
    if count == 0 then Parse([], Some(0))
    else
      match ValidateSize(b)
      case None => Parse([], None)
      case Some(n) =>
        var rest := ParseMessages(b[n..], count - 1);
        Parse([Message(FieldAt(b, 0), b[MESSAGE_OVERHEAD..n])] + rest.messages,
              if rest.size.Some? then Some(n + rest.size.value) else None)
  }

  predicate HasReliableSegment(b: seq<u8>) {
    |b| >= SEGMENT_SIZE && b[0] == RELIABLE_STREAM
  }

  function ParseSegment(b: seq<u8>): (p: Parse) {
    if !HasReliableSegment(b) then Parse([], Some(0))
    else
      var p := ParseMessages(b[SEGMENT_SIZE..], b[1]);
      p.(size := if p.size.Some? then Some(SEGMENT_SIZE + p.size.value) else None)
  }

  // ---- Parsing undoes printing ----

  predicate Encodable(m: Message) {
    0 < |m.payload| < 0x1_0000
  }

  predicate AllEncodable(ms: seq<Message>) {
    forall m :: m in ms ==> Encodable(m)
  }

  lemma FieldOfToBytes(b: seq<u8>, at: nat, v: u32)
    requires at + 4 <= |b| && b[at..at + 4] == ToBytes(v, 4)
    ensures FieldAt(b, at) == v
  {
    Pow2Values();
    BigEndianOfToBytes(v, 4);
  }

  lemma HeaderRoundTrip(h: Header, rest: seq<u8>)
    ensures DecodeHeader(EncodeHeader(h) + rest) == h
    ensures (EncodeHeader(h) + rest)[HEADER_SIZE..] == rest
  {
    var b := EncodeHeader(h) + rest;
    assert b[0..4] == ToBytes(h.id, 4);
    assert b[4..8] == ToBytes(h.ackSeq, 4);
    assert b[8..12] == ToBytes(h.ackMask, 4);
    FieldOfToBytes(b, 0, h.id);
    FieldOfToBytes(b, 4, h.ackSeq);
    FieldOfToBytes(b, 8, h.ackMask);
  }

  lemma MessageRoundTrip(m: Message, rest: seq<u8>)
    requires Encodable(m)
    ensures var b := EncodeMessage(m) + rest; var n := MESSAGE_OVERHEAD + |m.payload|;
            ValidateSize(b) == Some(n) && b[n..] == rest &&
            FieldAt(b, 0) == m.seqNo && b[MESSAGE_OVERHEAD..n] == m.payload
  {
    hide BigEndian, ToBytes, Pow2;
    var b := EncodeMessage(m) + rest;
    assert b[0..4] == ToBytes(m.seqNo, 4);
    assert b[4..6] == ToBytes(|m.payload|, 2);
    FieldOfToBytes(b, 0, m.seqNo);
    Pow2Values();
    BigEndianOfToBytes(|m.payload|, 2);
  }

  // Reading n messages back from a longer run of messages finds the first n.
  lemma {:induction false} MessagesRoundTrip(ms: seq<Message>, n: nat, tail: seq<u8>)
    requires AllEncodable(ms) && n <= |ms|
    ensures ParseMessages(EncodeMessages(ms) + tail, n) == Parse(ms[..n], Some(|EncodeMessages(ms[..n])|))
  {
    hide ValidateSize, FieldAt, EncodeMessage, ParseMessages;
    if n == 0 {
      ParseNone(EncodeMessages(ms) + tail);
    } else {
      var rest := EncodeMessages(ms[1..]) + tail;
      assert EncodeMessages(ms) + tail == EncodeMessage(ms[0]) + rest;
      assert ms[0] in ms && forall m :: m in ms[1..] ==> m in ms;
      MessagesRoundTrip(ms[1..], n - 1, tail);
      ParseOne(ms[0], rest, n);
      assert ms[..n][1..] == ms[1..][..n - 1];
      assert ms[..n] == [ms[0]] + ms[1..][..n - 1];
    }
  }

  lemma ParseNone(b: seq<u8>)
    ensures ParseMessages(b, 0) == Parse([], Some(0))
  {
  }

  // The first of n messages is read and the rest stays to be read.
  lemma ParseOne(m: Message, rest: seq<u8>, n: nat)
    requires Encodable(m) && n > 0
    ensures var p := ParseMessages(rest, n - 1);
            ParseMessages(EncodeMessage(m) + rest, n) ==
            Parse([m] + p.messages, if p.size.Some? then Some(|EncodeMessage(m)| + p.size.value) else None)
  {
    hide ValidateSize, FieldAt, EncodeMessage;
    MessageRoundTrip(m, rest);
  }

  lemma {:induction false} EncodeMessagesAppend(ms: seq<Message>, m: Message)
    ensures EncodeMessages(ms + [m]) == EncodeMessages(ms) + EncodeMessage(m)
  {
    if ms == [] {
      assert (ms + [m])[1..] == [];
    } else {
      assert (ms + [m])[1..] == ms[1..] + [m];
      EncodeMessagesAppend(ms[1..], m);
      assert EncodeMessages(ms + [m]) == EncodeMessage(ms[0]) + EncodeMessages(ms[1..] + [m]);
    }
  }

  // A segment reads back as its first |ms| mod 256 messages.
  lemma SegmentReadBack(ms: seq<Message>, tail: seq<u8>)
    requires AllEncodable(ms) && ms != []
    ensures var n := |ms| % 0x100;
            ParseSegment(EncodeSegment(ms) + tail) == Parse(ms[..n], Some(SEGMENT_SIZE + |EncodeMessages(ms[..n])|))
  {
    hide ParseMessages, EncodeMessages;
    var b := EncodeSegment(ms) + tail;
    assert b[SEGMENT_SIZE..] == EncodeMessages(ms) + tail;
    MessagesRoundTrip(ms, |ms| % 0x100, tail);
  }

  // Printing a batch and parsing it back gives the batch, and exactly its bytes are consumed,
  // if and only if the batch has at most 255 messages: beyond that the u8 count wraps.
  lemma SegmentRoundTrip(ms: seq<Message>, tail: seq<u8>)
    requires AllEncodable(ms) && !HasReliableSegment(tail)
    ensures ParseSegment(EncodeSegment(ms) + tail) == Parse(ms, Some(|EncodeSegment(ms)|)) <==> |ms| <= 255
  {
    if ms == [] {
      assert EncodeSegment(ms) + tail == tail;
    } else {
      hide EncodeMessages, ParseSegment;
      SegmentReadBack(ms, tail);
      if |ms| <= 255 {
        assert ms[..|ms|] == ms;
      } else {
        assert |ms[..|ms| % 0x100]| < |ms|;
      }
    }
  }

  // A whole packet: ids, acks, sequence numbers, payloads and the tail are all recovered.
  lemma PacketRoundTrip(p: Packet)
    requires AllEncodable(p.messages) && |p.messages| <= 255 && !HasReliableSegment(p.tail)
    ensures var b := EncodePacket(p);
            |b| >= HEADER_SIZE &&
            DecodeHeader(b) == p.header &&
            var parse := ParseSegment(b[HEADER_SIZE..]);
            parse.messages == p.messages && parse.size == Some(|EncodeSegment(p.messages)|) &&
            b[HEADER_SIZE + parse.size.value..] == p.tail
  {
    var rest := EncodeSegment(p.messages) + p.tail;
    assert EncodePacket(p) == EncodeHeader(p.header) + rest;
    HeaderRoundTrip(p.header, rest);
    SegmentRoundTrip(p.messages, p.tail);
  }

  // ---- Printing undoes parsing ----

  // A valid message in arbitrary bytes is the print of what was read.
  lemma ReadIsPrinted(b: seq<u8>)
    requires ValidateSize(b).Some?
    ensures var n := ValidateSize(b).value;
            var m := Message(FieldAt(b, 0), b[MESSAGE_OVERHEAD..n]);
            Encodable(m) && EncodeMessage(m) == b[..n]
  {
    hide BigEndian, ToBytes, Pow2;
    var n := ValidateSize(b).value;
    ToBytesOfBigEndian(b[0..4]);
    ToBytesOfBigEndian(b[4..6]);
    BigEndianBound(b[4..6]);
    Pow2Values();
    assert b[..n] == b[0..4] + b[4..6] + b[MESSAGE_OVERHEAD..n];
  }

  // Arbitrary bytes: they begin with the print of the messages read. Those are `count` non-empty messages, and the
  // size returned is the size of their print, unless what follows fewer of them is malformed.
  lemma {:induction false} ParseReadsWhatIsPrinted(b: seq<u8>, count: nat)
    ensures var p := ParseMessages(b, count);
            AllEncodable(p.messages) && |p.messages| <= count &&
            (p.size.Some? <==> |p.messages| == count) &&
            EncodeMessages(p.messages) <= b &&
            (p.size.Some? ==> p.size.value == |EncodeMessages(p.messages)|) &&
            (p.size.None? ==> ValidateSize(b[|EncodeMessages(p.messages)|..]).None?)
    decreases count
  {
    hide ValidateSize, FieldAt, EncodeMessage;
    if count > 0 && ValidateSize(b).Some? {
      var n := ValidateSize(b).value;
      ReadIsPrinted(b);
      ParseReadsWhatIsPrinted(b[n..], count - 1);
      var p, rest := ParseMessages(b, count), ParseMessages(b[n..], count - 1);
      assert p.messages[0] == Message(FieldAt(b, 0), b[MESSAGE_OVERHEAD..n]) && p.messages[1..] == rest.messages;
      var k := |EncodeMessages(rest.messages)|;
      assert b[..n] + b[n..][..k] == b[..n + k] && b[n..][k..] == b[n + k..];
    }
  }

  // The bytes begin with a message.
  ghost predicate StartsWithMessage(b: seq<u8>) {
    exists m: Message :: Encodable(m) && EncodeMessage(m) <= b
  }

  // What a reliable segment holds: the print of as many messages as it announces, or of fewer and then no message.
  ghost predicate Holds(b: seq<u8>, ms: seq<Message>, size: Option<nat>) {
    if !HasReliableSegment(b) then ms == [] && size == Some(0)
    else
      AllEncodable(ms) && |ms| <= b[1] && EncodeMessages(ms) <= b[SEGMENT_SIZE..] &&
      if |ms| == b[1] then size == Some(SEGMENT_SIZE + |EncodeMessages(ms)|)
      else size == None && !StartsWithMessage(b[SEGMENT_SIZE + |EncodeMessages(ms)|..])
  }

  // A message is accepted exactly if it is the print of one.
  lemma ValidIsPrinted(b: seq<u8>)
    ensures ValidateSize(b).Some? <==> StartsWithMessage(b)
  {
    hide ValidateSize, EncodeMessage, FieldAt;
    if ValidateSize(b).Some? {
      ReadIsPrinted(b);
      var n := ValidateSize(b).value;
      assert EncodeMessage(Message(FieldAt(b, 0), b[MESSAGE_OVERHEAD..n])) <= b;
    }
    if StartsWithMessage(b) {
      var m: Message :| Encodable(m) && EncodeMessage(m) <= b;
      assert b == EncodeMessage(m) + b[|EncodeMessage(m)|..];
      MessageRoundTrip(m, b[|EncodeMessage(m)|..]);
    }
  }

  // Messages in front of others are read first.
  lemma {:induction false} ParseFront(ms: seq<Message>, rest: seq<u8>, n: nat)
    requires AllEncodable(ms)
    ensures var p := ParseMessages(rest, n);
            ParseMessages(EncodeMessages(ms) + rest, |ms| + n) ==
            Parse(ms + p.messages, if p.size.Some? then Some(|EncodeMessages(ms)| + p.size.value) else None)
  {
    hide ParseMessages, EncodeMessage, Encodable;
    var p := ParseMessages(rest, n);
    if ms == [] {
      assert EncodeMessages(ms) + rest == rest && ms + p.messages == p.messages;
    } else {
      var rest' := EncodeMessages(ms[1..]) + rest;
      assert EncodeMessages(ms) + rest == EncodeMessage(ms[0]) + rest';
      assert ms[0] in ms && forall m :: m in ms[1..] ==> m in ms;
      ParseFront(ms[1..], rest, n);
      ParseOne(ms[0], rest', |ms| + n);
      assert [ms[0]] + (ms[1..] + p.messages) == ms + p.messages;
    }
  }

  // On arbitrary bytes the parser finds exactly what the segment holds, malformed segments included.
  lemma ParsesExactly(b: seq<u8>, ms: seq<Message>, size: Option<nat>)
    ensures Holds(b, ms, size) <==> ParseSegment(b) == Parse(ms, size)
  {
    hide ParseMessages, EncodeMessages, StartsWithMessage, ValidateSize, Encodable;
    if HasReliableSegment(b) {
      var body, count := b[SEGMENT_SIZE..], b[1];
      var p := ParseMessages(body, count);
      ParseReadsWhatIsPrinted(body, count);
      HeldIsParsed(body, p.messages);
      if Holds(b, ms, size) {
        HeldIsParsed(body, ms);
        HeldIsFound(body, ms, count);
      }
    }
  }

  lemma HeldIsParsed(body: seq<u8>, ms: seq<Message>)
    requires EncodeMessages(ms) <= body
    ensures var rest := body[|EncodeMessages(ms)|..]; ValidateSize(rest).Some? <==> StartsWithMessage(rest)
    ensures forall b: seq<u8> :: |b| >= SEGMENT_SIZE && b[SEGMENT_SIZE..] == body ==>
              b[SEGMENT_SIZE + |EncodeMessages(ms)|..] == body[|EncodeMessages(ms)|..]
  {
    ValidIsPrinted(body[|EncodeMessages(ms)|..]);
  }

  lemma HeldIsFound(body: seq<u8>, ms: seq<Message>, count: nat)
    requires AllEncodable(ms) && |ms| <= count && EncodeMessages(ms) <= body
    requires |ms| < count ==> ValidateSize(body[|EncodeMessages(ms)|..]).None?
    ensures ParseMessages(body, count) == Parse(ms, if |ms| == count then Some(|EncodeMessages(ms)|) else None)
  {
    hide EncodeMessages, ValidateSize;
    var rest := body[|EncodeMessages(ms)|..];
    assert body == EncodeMessages(ms) + rest;
    ParseFront(ms, rest, count - |ms|);
    assert ms + [] == ms;
  }

  // ---- Byte by byte ----

  lemma Octets(v: u32)
    ensures var q := v / 0x100; var r := q / 0x100;
            ToBytes(v, 4) == [r / 0x100, r % 0x100, q % 0x100, v % 0x100]
    ensures v < 0x1_0000 ==> ToBytes(v, 2) == [v / 0x100, v % 0x100]
  {
    var q := v / 0x100;
    var r := q / 0x100;
    assert r / 0x100 < 0x100;
    assert ToBytes(r / 0x100 / 0x100, 0) == [] && ToBytes(q / 0x100, 0) == [];
    assert ToBytes(r / 0x100, 1) == [r / 0x100];
    assert ToBytes(r, 2) == [r / 0x100, r % 0x100];
    assert ToBytes(q, 3) == [r / 0x100, r % 0x100, q % 0x100];
    if v < 0x1_0000 { assert ToBytes(q, 1) == [q]; }
  }

  function Word(b: seq<u8>, at: nat): u32
    requires at + 4 <= |b|
  {
    b[at] as int * 0x100_0000 + b[at + 1] as int * 0x1_0000 + b[at + 2] as int * 0x100 + b[at + 3]
  }

  lemma WordOfBytes(b: seq<u8>, at: nat, v: u32)
    requires at + 4 <= |b| && b[at..at + 4] == ToBytes(v, 4)
    ensures Word(b, at) == v
  {
    hide ToBytes;
    Octets(v);
    assert b[at] == b[at..at + 4][0] && b[at + 1] == b[at..at + 4][1];
    assert b[at + 2] == b[at..at + 4][2] && b[at + 3] == b[at..at + 4][3];
  }

  lemma FieldIsWord(b: seq<u8>, at: nat)
    requires at + 4 <= |b|
    ensures FieldAt(b, at) == Word(b, at)
  {
    hide ToBytes, BigEndian;
    Pow2Values();
    BigEndianBound(b[at..at + 4]);
    ToBytesOfBigEndian(b[at..at + 4]);
    WordOfBytes(b, at, FieldAt(b, at));
  }

  // Where the fields of a packet stand: the header's at 0, 4 and 8, then the segment's type and count,
  // then number, length and payload of its first message.
  lemma PacketLayout(p: Packet)
    ensures var b := EncodePacket(p);
            |b| >= 12 && Word(b, 0) == p.header.id && Word(b, 4) == p.header.ackSeq && Word(b, 8) == p.header.ackMask
    ensures p.messages != [] && AllEncodable(p.messages) && |p.messages| <= 255 ==>
              var b, m := EncodePacket(p), p.messages[0];
              |b| >= 20 + |m.payload| && b[12] == 3 && b[13] == |p.messages| &&
              Word(b, 14) == m.seqNo && b[18] as int * 0x100 + b[19] == |m.payload| && b[20..20 + |m.payload|] == m.payload
  {
    hide ToBytes;
    var b, h := EncodePacket(p), p.header;
    assert b[0..4] == ToBytes(h.id, 4) && b[4..8] == ToBytes(h.ackSeq, 4) && b[8..12] == ToBytes(h.ackMask, 4);
    WordOfBytes(b, 0, h.id);
    WordOfBytes(b, 4, h.ackSeq);
    WordOfBytes(b, 8, h.ackMask);
    if p.messages != [] && AllEncodable(p.messages) && |p.messages| <= 255 {
      FirstMessageLayout(p);
    }
  }

  lemma FirstMessageLayout(p: Packet)
    requires p.messages != [] && Encodable(p.messages[0]) && |p.messages| <= 255
    ensures var b, m := EncodePacket(p), p.messages[0];
            |b| >= 20 + |m.payload| && b[12] == 3 && b[13] == |p.messages| &&
            Word(b, 14) == m.seqNo && b[18] as int * 0x100 + b[19] == |m.payload| && b[20..20 + |m.payload|] == m.payload
  {
    hide EncodePacket, EncodeMessage, EncodeHeader, Word;
    var m, head := p.messages[0], EncodeHeader(p.header) + [3, |p.messages|];
    var b, rest := EncodePacket(p), EncodeMessages(p.messages[1..]) + p.tail;
    PacketParts(p);
    Inside(head, EncodeMessage(m), rest);
    MessageLayout(m);
    assert b[14..18] == EncodeMessage(m)[0..4] && b[20..20 + |m.payload|] == EncodeMessage(m)[6..6 + |m.payload|];
    assert b[18] == EncodeMessage(m)[4] && b[19] == EncodeMessage(m)[5];
    WordOfBytes(b, 14, m.seqNo);
  }

  lemma PacketParts(p: Packet)
    requires p.messages != [] && |p.messages| <= 255
    ensures EncodePacket(p) == EncodeHeader(p.header) + [3, |p.messages|] + EncodeMessage(p.messages[0]) +
                               (EncodeMessages(p.messages[1..]) + p.tail)
  {
    hide EncodeHeader, EncodeMessage;
    var n, m, rest := [3, |p.messages|], EncodeMessage(p.messages[0]), EncodeMessages(p.messages[1..]);
    assert EncodeSegment(p.messages) == n + (m + rest);
    assert EncodeHeader(p.header) + (n + (m + rest)) + p.tail == EncodeHeader(p.header) + n + m + (rest + p.tail);
  }

  lemma MessageLayout(m: Message)
    requires Encodable(m)
    ensures var b := EncodeMessage(m);
            b[0..4] == ToBytes(m.seqNo, 4) && b[4] as int * 0x100 + b[5] == |m.payload| && b[6..6 + |m.payload|] == m.payload
  {
    hide ToBytes;
    Octets(|m.payload|);
  }

  // Reading inside a concatenation.
  lemma Inside(head: seq<u8>, middle: seq<u8>, rest: seq<u8>)
    ensures var b := head + middle + rest;
            |b| >= |head| + |middle| && b[..|head|] == head && b[|head|..|head| + |middle|] == middle &&
            (forall k :: 0 <= k < |head| ==> b[k] == head[k]) &&
            (forall k :: |head| <= k < |head| + |middle| ==> b[k] == middle[k - |head|]) &&
            (forall i, j :: 0 <= i <= j <= |middle| ==> b[|head| + i..|head| + j] == middle[i..j])
  {
  }

  lemma OneByte(v: u8)
    ensures ToBytes(v, 1) == [v]
  {
    assert ToBytes(v / 0x100, 0) == [];
  }

  // ---- The in-place writers ----

  method WriteHeader(buf: Span, h: Header) returns (count: nat)
    requires buf.Valid() && HEADER_SIZE <= buf.Size()
    modifies buf.data
    ensures count == HEADER_SIZE
    ensures buf.data[..] == Patch(old(buf.data[..]), buf.lo, EncodeHeader(h))
  {
    hide Patch, ToBytes;
    ghost var was := buf.data[..];
    count := 0;
    var n := WriteUnsigned(buf, 0, h.id, 4);
    count := count + n;
    n := WriteUnsigned(buf, 4, h.ackSeq, 4);
    count := count + n;
    PatchTwice(was, buf.lo, ToBytes(h.id, 4), ToBytes(h.ackSeq, 4));
    n := WriteUnsigned(buf, 8, h.ackMask, 4);
    count := count + n;
    PatchTwice(was, buf.lo, ToBytes(h.id, 4) + ToBytes(h.ackSeq, 4), ToBytes(h.ackMask, 4));
  }

  method WriteSegmentHeader(buf: Span, managerType: u8, messageCount: u8) returns (count: nat)
    requires buf.Valid() && SEGMENT_SIZE <= buf.Size()
    modifies buf.data
    ensures count == SEGMENT_SIZE
    ensures buf.data[..] == Patch(old(buf.data[..]), buf.lo, [managerType, messageCount])
  {
    hide Patch, ToBytes;
    ghost var was := buf.data[..];
    count := 0;
    OneByte(managerType);
    OneByte(messageCount);
    var n := WriteUnsigned(buf, 0, managerType, 1);
    count := count + n;
    n := WriteUnsigned(buf, 1, messageCount, 1);
    count := count + n;
    PatchTwice(was, buf.lo, [managerType], [messageCount]);
    assert [managerType] + [messageCount] == [managerType, messageCount];
  }

  method WriteMessage(buf: Span, m: Message) returns (count: nat)
    requires buf.Valid() && MESSAGE_OVERHEAD + |m.payload| <= buf.Size()
    modifies buf.data
    ensures count == |EncodeMessage(m)|
    ensures buf.data[..] == Patch(old(buf.data[..]), buf.lo, EncodeMessage(m))
  {
    hide Patch, ToBytes;
    ghost var was := buf.data[..];
    count := 0;
    var length := |m.payload| % 0x1_0000;
    var n := WriteUnsigned(buf, 0, m.seqNo, 4);
    count := count + n;
    n := WriteUnsigned(buf, 4, length, 2);
    count := count + n;
    PatchTwice(was, buf.lo, ToBytes(m.seqNo, 4), ToBytes(length, 2));
    n := WriteByteArray(buf, MESSAGE_OVERHEAD, m.payload);
    count := count + n;
    PatchTwice(was, buf.lo, ToBytes(m.seqNo, 4) + ToBytes(length, 2), m.payload);
  }

  // ---- The readers ----

  method ReadHeader(buf: Span) returns (h: Header)
    requires buf.Valid() && HEADER_SIZE <= buf.Size()
    ensures h == DecodeHeader(buf.Bytes())
  {
    hide BigEndian, Pow2;
    Pow2Values();
    var id := ReadUnsigned(buf, 0, 4);
    var ackSeq := ReadUnsigned(buf, 4, 4);
    var ackMask := ReadUnsigned(buf, 8, 4);
    h := Header(id, ackSeq, ackMask);
  }

  // validate_size and, when it succeeds, the two accessors.
  method ReadMessage(buf: Span) returns (r: Option<Message>)
    requires buf.Valid()
    ensures r.None? <==> ValidateSize(buf.Bytes()).None?
    ensures r.Some? ==>
              var b := buf.Bytes();
              var n := ValidateSize(b).value;
              r.value == Message(FieldAt(b, 0), b[MESSAGE_OVERHEAD..n]) && n == MESSAGE_OVERHEAD + |r.value.payload|
  {
    hide BigEndian, Pow2;
    Pow2Values();
    if MESSAGE_OVERHEAD > buf.Size() {
      return None;
    }
    var length := ReadUnsigned(buf, 4, 2);
    var total := MESSAGE_OVERHEAD + length;
    if total > buf.Size() || total == MESSAGE_OVERHEAD {
      return None;
    }
    var seqNo := ReadUnsigned(buf, 0, 4);
    var payload := buf.data[buf.lo + MESSAGE_OVERHEAD..buf.lo + total];
    assert payload == buf.Bytes()[MESSAGE_OVERHEAD..total];
    r := Some(Message(seqNo, payload));
  }
}
