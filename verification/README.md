# Neptun: verified model

Neptun carries messages reliably over UDP. Each endpoint numbers its packets, remembers the ones in flight, and
announces which of the peer's packets it accepted in a 32-bit mask in the header of its own packets
(`PacketDeliveryManager`). A go-back-N stream (`ReliableStream`) keeps the bytes of unacknowledged messages in a
compacting buffer (`FlipBuffer`), sends them again when a packet is reported lost, and delivers at the other side
only the exact next sequence number. This project models one established session between two endpoints and proves
what the protocol promises, for every run and every network.

## How it is built

| file | content |
|---|---|
| `Integers.dfy`, `Common.dfy` | arithmetic, fixed-width integers, masks; the delivery status |
| `IoBuffer.dfy`, `BitFields.dfy` | big-endian spans, bit ranges |
| `Messages.dfy` | packet header, segment, reliable message: printing, parsing, in-place writers |
| `FlipBuffer.dfy`, `StreamModel.dfy`, `ReliableStream.dfy` | the buffer; the stream on values; the stream as a class over the buffer |
| `DeliveryModel.dfy`, `PacketDeliveryManager.dfy` | ids, acknowledgements, timeouts on values; the manager as a class |
| `Ticker.dfy` | the rate limiter |
| `Endpoint.dfy`, `Peer.dfy` | the stages of reading and writing a packet, on values; the peer as a class over the network buffer |
| `FakeNetwork.dfy`, `Channel.dfy` | the in-order lossy channel, and that it carries the in-order system |
| `System.dfy`, `Invariants.dfy` | two endpoints as a transition system with its history, and what every step keeps |
| `Outcomes.dfy` | what each kind of step does, outright, in every reachable state |
| `Theorems.dfy`, `InOrder.dfy`, `StaleAcks.dfy`, `ExactReturn.dfy`, `RoundTrip.dfy` | the main results |

Each class has a `View()` on values and each of its methods ensures that the new view is the value-level function of
the old one; the value-level functions are what the lemmas are about. The system's steps use the same functions, and
what crosses the network is bytes. A step of the system is: the application submits a payload, an endpoint writes a
packet, an endpoint's timeouts run, or an endpoint reads any datagram its peer ever wrote. Four networks are
distinguished (`ProtocolSystem.Network`): `Arbitrary` drops, duplicates and reorders; `NoneDiscarded` does too, but
no datagram read too late to be accepted has a status to report; `InOrder` only drops; `ExactReturn` is arbitrary
one way and loses and reorders nothing the other way, with no timeouts. All but the last treat both endpoints alike:
there every reachable state stays reachable with the endpoints exchanged (`Theorems.SwappedReachable`), so what is
said of `a` as the sender holds of `b` as well.

Assumptions, all visible as guards of the steps (`ProtocolSystem.CanAct`) or as `requires` of the peer: the session
is established (no handshake segment in a datagram, a whole header); fewer than 2^32 packets and messages; the
callback given to `send` writes at most the space it is offered; clocks do not run backwards; a packet limit of at
least the header. Inside the classes every u32 wraps as in the source.

## What is proved

- On an arbitrary network: exactly-once in-order delivery, no message lost, sound ACKs, one status for every packet
  in order, each acceptance announced once, complete timeouts (`Theorems`).
- The stream's own assertions never fail as long as no status is discarded with a stale packet, and on an in-order
  network none ever is (`InOrderNetworks`). On an arbitrary network they can fail (`StaleAcks.AssertionCanFail` is
  such a run), and `InOrderNetworks.AssertsExactly` says exactly when.
- Every step has its exact outcome, in every reachable state on every network (`Outcomes`): which packets a datagram
  resolves and how, which messages a batch of statuses releases, requeues or leaves, what is accepted and delivered,
  what a packet carries, and which packets a timeout drops after any run.
- With an exact return path DROP is as exact as ACK, and final (`ExactReturnNetworks`).
- A clean round trip releases exactly the messages of its packet, always as long as no status is discarded. On an
  arbitrary network it does so if the stream had nothing left in flight; otherwise, which can happen
  (`StaleAcks.QuietButStuck`), it releases nothing and the assertion at `neptun/reliable_stream.h:67` fails
  (`RoundTrips`).
- Reading the in-order channel of `network/fake_network.h` is a step of the in-order system, with exactly the bytes
  the peer wrote (`Channels`).
- Parsing undoes printing, if and only if a segment has at most 255 messages. On arbitrary bytes the parser finds
  exactly what the segment holds (`Messages.ParsesExactly`), and what comes before a malformed message is delivered
  all the same (`EndpointModel.ReadOfBytes`).
- The rate limiter is exact over whole runs. With no limit it refuses no packet. At rate r a second, asked often enough,
  holds at least r ticks (`Tickers.RateIsReached`). At rate r a second holds at most r + 1 ticks if and only if r divides
  10^9; otherwise the interval is rounded down and r + 2 is possible (`Tickers.RateIsLimited`).
- `read_bits` returns the bits of its range, except when exactly 32 bits that start with a 1 are read into a 64-bit
  type: it shifts an `int`, whose sign is then extended (`BitFields.ReadBits`).

Code and documentation disagree in one place. `neptun/packet_delivery_manager_test.cc:72-73` says that the
acknowledgements of a packet too old to be read are processed all the same. The manager computes their statuses, but
`neptun/neptun.h:156-162` returns before they reach the stream. The model follows the code; the two lemmas of
`StaleAcks` show what follows from it.

## Model

| member | source | states |
|---|---|---|
| Theorems.DeliveredInOrder | neptun/reliable_stream.h:85-122 | on any network, what was delivered is a prefix of what was sent, in both directions, and the receiver's counter is its length |
| Theorems.NoMessageLost | neptun/reliable_stream.h:60-83 | on any network, every message released on ACK was delivered, and the sender still holds all the others, with their numbers and bytes |
| Theorems.AckIsSound | neptun/packet_delivery_manager.h:139-176 | on any network, ACK is reported only for packets the peer accepted |
| Theorems.OneStatusEach | neptun/packet_delivery_manager.h:87-176 | on any network, the ids of all statuses computed followed by the ids in flight are 0, 1, ..., next - 1 |
| Theorems.AcksAreConserved | neptun/packet_delivery_manager.h:101-130 | on any network, acceptances increase and are the ids announced by all headers in order followed by those pending |
| Theorems.TimeoutsAreComplete | neptun/packet_delivery_manager.h:87-99 | on any network, a timeout drops exactly the packets whose time has come, in id order |
| Outcomes.StatusesTakeEffect | neptun/reliable_stream.h:60-83 | of the statuses of one step, those before the first DROP release exactly the messages of their packets, unless older ones block the queue; a DROP puts all others in flight back in front |
| Outcomes.HearingResolves | neptun/packet_delivery_manager.h:139-176 | a datagram, stale or not, gives a status to every packet without one up to the highest id it announces, ACK exactly to those announced |
| Outcomes.HearingIsExact | neptun/packet_delivery_manager.h:178-196 | a datagram is accepted if and only if its id is above all accepted before; then its messages from the counter on are delivered, else nothing changes in the stream |
| Outcomes.SubmittingIsExact | neptun/reliable_stream.h:165-176 | a payload waits behind all others under the next number; nothing in flight is touched |
| Outcomes.PacketIsFull | neptun/neptun.h:242-275 | a packet announces exactly the pending acceptances within 32 of the oldest, and takes the longest run of waiting messages that fits, and the tail if that fits too |
| Outcomes.TimeoutIsExact | neptun/packet_delivery_manager.h:87-104 | after any run, exactly the packets without a status written at least the configured timeout ago are dropped |
| Theorems.DatagramsAreReadable | neptun/neptun.h:142-160 | every datagram written can be read by the peer, as the packet it was printed from |
| Theorems.DatagramsAreNeverCut | network/fake_network.h:146-151 | no datagram exceeds 1400 bytes, so neither MTU nor read buffer cuts it |
| Theorems.SwappedRun | neptun/neptun.h:142-293 | exchanging the endpoints of a run gives a run, to the exchanged state |
| Theorems.SwappedReachable | neptun/neptun.h:142-293 | reachable states stay reachable with the endpoints exchanged, so every statement holds in both directions |
| Invariants.ActKeeps | neptun/neptun.h:65-76 | every step of an endpoint keeps all invariants of both, whatever the network does |
| Invariants.HearKeeps | neptun/neptun.h:142-204 | reading any datagram of the peer keeps them: ack stage, statuses, acceptance, delivery |
| Invariants.EmitKeeps | neptun/neptun.h:242-275 | writing a packet keeps them |
| Invariants.AckKeeps | neptun/reliable_stream.h:62-67 | an ACK for an accepted packet releases only delivered messages |
| Invariants.DropKeeps | neptun/reliable_stream.h:68-81 | a DROP loses, repeats and reorders nothing the stream holds |
| Invariants.DeliverRun | neptun/reliable_stream.h:99-120 | a run of consecutive messages is delivered from the counter on if it starts at or before it, else not at all |
| Invariants.AcceptKeepsSafe | neptun/packet_delivery_manager.h:178-196 | if the oldest flights were all in accepted packets they were all delivered, and accepting another packet keeps this |
| Invariants.EmitAcks | neptun/packet_delivery_manager.h:101-130 | writing a header keeps acceptances conserved and increasing |
| Invariants.AcksFromPeer | neptun/packet_delivery_manager.h:139-176 | statuses computed from any header of the peer continue the id sequence and acknowledge only what it accepted |
| Invariants.HeardAccepted | neptun/neptun.h:142-204 | the whole state after hearing a packet that is not older than expected |
| Invariants.HeardStale | neptun/neptun.h:156-162 | the whole state after hearing an older one: its statuses count, the stream is not told |
| InOrderNetworks.NoAssertionFails | neptun/reliable_stream.h:67-71 | if no status was ever discarded, as on an in-order lossy network, no assertion fails in any step, at any point of a batch of statuses |
| InOrderNetworks.InOrderDiscardsNothing | neptun/neptun.h:156-162 | every step on an in-order network is one that discards no status |
| InOrderNetworks.AssertsExactly | neptun/reliable_stream.h:67-71 | on any network, no assertion fails in a step if and only if no status is handed over or nothing in flight in the stream is older than the first packet without a status |
| EndpointModel.BatchOutcome | neptun/neptun.h:277-281 | what any batch of consecutive statuses does to any stream: flights released, requeued, left |
| EndpointModel.AssertionsHoldExactly | neptun/reliable_stream.h:60-83 | the same for any stream and any batch of consecutive ids |
| EndpointModel.AssertionHoldsExactly | neptun/reliable_stream.h:60-83 | one assertion holds if and only if nothing older is in flight, and then nothing as old is left |
| StaleAcks.AssertionCanFail | neptun/neptun.h:156-162 | a run on a reordering network in which the assertion at a DROP fails |
| StaleAcks.QuietButStuck | neptun/neptun.h:156-162 | a run after which every packet has its status but the stream still has a message in flight |
| ExactReturnNetworks.StatusesAreExact | neptun/packet_delivery_manager.h:139-196 | with an exact return path and no timeout, ACK if and only if the peer accepted the packet; a dropped id is already too old for it |
| ExactReturnNetworks.DropIsFinal | neptun/packet_delivery_manager.h:178-196 | a packet so reported DROP is not accepted in any continuation, on any network |
| ExactReturnNetworks.GivenUpForEver | neptun/packet_delivery_manager.h:183-195 | an id passed over is never accepted later |
| ExactReturnNetworks.NextDatagram | neptun/packet_delivery_manager.h:147-173 | the next header resolves exactly the packets up to its top id and acknowledges exactly its own ids |
| RoundTrips.CleanRoundTrip | neptun/neptun.h:142-275 | on any network, write, read, write back, read back can always be done from a quiet state. If the stream had nothing in flight, exactly the packet's messages are released, at least one, all delivered, and the assertion holds; else nothing is released and the assertion at the ACK fails |
| RoundTrips.CleanRoundTripProgresses | neptun/neptun.h:142-275 | if no status was ever discarded, as on an in-order network, it always releases exactly the packet's messages, at least one, all delivered |
| RoundTrips.AckReleasesAll | neptun/reliable_stream.h:62-67 | the ACK of the packet just written releases it if nothing older is in flight; else it releases nothing and the assertion fails |
| DeliveryModel.ProcessAcksIsExact | neptun/packet_delivery_manager.h:139-175 | a mask of 0 resolves nothing; without wrap the loop resolves exactly the ids up to the top one, ACK if and only if announced, shifts below 32; with wrap it only drops |
| DeliveryModel.DispatchIsExact | neptun/packet_delivery_manager.h:101-130 | the header announces exactly the pending ids below oldest + 32, the rest stays; the packet is in flight with its id and time |
| DeliveryModel.HeaderConservesAcks | neptun/packet_delivery_manager.h:112-126 | the ids announced followed by the ids left are the ids that were pending, and at least one is announced |
| DeliveryModel.PackedAnnounces | neptun/packet_delivery_manager.h:112-126 | the mask built by the loop decodes to the acks packed, in order, and the rest spills |
| DeliveryModel.AckIdsAreBits | neptun/packet_delivery_manager.h:160-163 | an id is announced if and only if its bit is set |
| DeliveryModel.LeadingExpiredIsAll | neptun/packet_delivery_manager.h:89-97 | stopping at the first unexpired packet misses none |
| PacketDeliveryManagers.MostSignificantBit | neptun/packet_delivery_manager.h:28-37 | the loop finds the highest set bit, or none for 0 |
| Integers.TopBitIsHighest | neptun/packet_delivery_manager.h:28-37 | that bit is set and no higher bit is |
| Integers.BitIsShift | neptun/packet_delivery_manager.h:160-163 | a bit of a mask is the mask shifted right, modulo 2 |
| Integers.SetBitSets | neptun/packet_delivery_manager.h:123 | or-ing a bit into the mask sets that bit and changes no other |
| PacketDeliveryManagers.PacketDeliveryManager.ProcessRead | neptun/packet_delivery_manager.h:80-85 | acks first, then acceptance; 0 for a stale packet |
| PacketDeliveryManagers.PacketDeliveryManager.ProcessAcks | neptun/packet_delivery_manager.h:139-176 | the loop computes the specified statuses and remaining packets |
| PacketDeliveryManagers.PacketDeliveryManager.ProcessPacketHeader | neptun/packet_delivery_manager.h:178-196 | accepts the expected id and any later one, once |
| PacketDeliveryManagers.PacketDeliveryManager.DropOldPackets | neptun/packet_delivery_manager.h:87-99 | the loop drops the leading expired packets |
| PacketDeliveryManagers.PacketDeliveryManager.Write | neptun/packet_delivery_manager.h:101-130 | the bytes written are the next header, and the state records the packet and the acks left |
| ReliableStreams.ReliableStream.OnPacketDeliveryStatus | neptun/reliable_stream.h:60-83 | the loops release or requeue as specified, keep the tiling, and report whether the assertion held |
| ReliableStreams.ReliableStream.Read | neptun/reliable_stream.h:85-122 | on arbitrary bytes: in bounds; whatever messages the segment holds are delivered in the specified way, and the size is theirs, or none if fewer than announced are there |
| ReliableStreams.ReliableStream.Write | neptun/reliable_stream.h:124-163 | writes the segment of the longest fitting prefix, moves it into flight, and returns its exact size |
| ReliableStreams.ReliableStream.Send | neptun/reliable_stream.h:165-176 | the callback gets exactly the capacity less the bytes held, and its payload is queued under the next number |
| ReliableStreams.ReliableStream.MaybeFlip | neptun/reliable_stream.h:189-208 | compaction changes no message |
| ReliableStreams.ReleaseFirst | neptun/reliable_stream.h:63-66 | consuming the oldest range keeps the others tiling the buffer with their bytes |
| ReliableStreams.RequeueAll | neptun/reliable_stream.h:72-80 | requeueing keeps the tiling and puts the flights first, in order |
| ReliableStreams.AppendMessage | neptun/reliable_stream.h:166-176 | a payload written behind the last range keeps the tiling and every other message |
| ReliableStreams.CompactAll | neptun/reliable_stream.h:189-208 | shifting ranges and bytes together keeps the tiling and every message |
| StreamModel.WriteTakesLongestPrefix | neptun/reliable_stream.h:124-163 | the batch is the longest prefix that fits; in 1400 bytes at most 198 messages below 2^16 bytes |
| StreamModel.ScanIsParseThenDeliver | neptun/reliable_stream.h:98-121 | the single pass over the bytes is parsing, then delivering what matches the running counter, also before a malformed message |
| StreamModel.DeliverIsExact | neptun/reliable_stream.h:112-119 | any messages in any order: each one delivered is the first behind the one before it with the number expected, and none with the last number expected is left |
| StreamModel.RunIsDelivered | neptun/reliable_stream.h:112-119 | a run of consecutive messages is delivered from the counter to its end, or not at all |
| StreamModel.DeliverCounts | neptun/reliable_stream.h:116-119 | the counter rises by exactly the number of callbacks |
| FlipBuffers.FlipBuffer.Flip | common/flip_buffer.h:28-36 | the upward copy keeps the contents and starts them at 0 |
| FlipBuffers.FlipBuffer.Consume | common/flip_buffer.h:50-52 | drops bytes at the front; the buffer stays valid if and only if it holds that many |
| FlipBuffers.FlipBuffer.Advance | common/flip_buffer.h:54-57 | takes bytes at the back, within the capacity |
| EndpointModel.ReadOfEncode | neptun/neptun.h:142-204 | reading a printed packet is the stages applied to the packet |
| EndpointModel.ReadOfBytes | neptun/neptun.h:142-204 | reading any datagram of the session: header fields at their offsets, statuses, acceptance, and delivery also before a malformed message |
| EndpointModel.RunIsDeliveredThoughMalformed | neptun/reliable_stream.h:99-121 | a run that reaches the counter is delivered to its end whether or not a malformed message follows |
| EndpointModel.WriteFillsPacket | neptun/neptun.h:242-275 | whatever is in flight, the packet takes the longest run of waiting messages within the limit, and the tail if it fits behind them |
| EndpointModel.PacketLimitIsTightest | neptun/neptun.h:246-247 | the limit is the largest size within 1400 and the maximum packet size |
| EndpointModel.WriteIsWellFormed | neptun/neptun.h:242-275 | what is written fits the limit and survives printing |
| EndpointModel.SendRateIsTightest | neptun/neptun.h:184-192 | the rate is the largest within every limit that is set, and no limit if and only if none is |
| Peers.Peer.Read | neptun/neptun.h:142-204 | the stages run in the specified order on the network buffer, the send rate updated in between; stale packets stop after the first |
| Peers.Peer.UpdateRate | neptun/neptun.h:184-192 | the ticker gets the longest interval that fits into a second as often as the tightest rate, none for no limit; its accumulated time is kept |
| Peers.Peer.WriteToPeer | neptun/neptun.h:242-275 | the network buffer holds exactly the print of the next packet, within 1400 bytes and the maximum packet size |
| Peers.Peer.ProcessDeliveryStatuses | neptun/neptun.h:277-293 | every status reaches the stream, in order |
| Peers.Peer.Tick | neptun/neptun.h:65-76 | timeouts, then reading, then writing if the ticker, at the rate just read, allows it, and always if there is no limit; whether every assertion of both stages held |
| Messages.PacketRoundTrip | neptun/messages/packet_header.h:22-43 | header, messages and tail are recovered from a printed packet, and exactly its bytes consumed |
| Messages.SegmentRoundTrip | neptun/messages/segment.h:29-45 | parsing undoes printing of a segment if and only if it has at most 255 messages |
| Messages.MessagesRoundTrip | neptun/messages/reliable_message.h:25-64 | reading n messages of a longer run finds the first n |
| Messages.ParseReadsWhatIsPrinted | neptun/messages/reliable_message.h:52-64 | arbitrary bytes begin with the print of what is read, count and size included; reading stops early only at a malformed message |
| Messages.ParsesExactly | neptun/messages/reliable_message.h:52-64 | on arbitrary bytes the parser finds the messages and size a segment holds, defined by printing alone |
| Messages.PacketLayout | neptun/messages/packet_header.h:16-20 | byte by byte where id, ack sequence, mask, segment type and count, number, length and payload stand |
| Messages.ReadMessage | neptun/messages/reliable_message.h:34-64 | a message is refused exactly if too short, cut or empty; else its fields are read |
| Messages.WriteMessage | neptun/messages/reliable_message.h:25-32 | the bytes written are the message's print |
| Messages.WriteHeader | neptun/messages/packet_header.h:22-29 | the bytes written are the header's print |
| IoBuffer.WriteUnsigned | network/io_buffer.h:52-64 | the loop writes the big-endian bytes |
| IoBuffer.ReadUnsigned | network/io_buffer.h:98-110 | the loop reads the big-endian value |
| IoBuffer.WriteByteArray | network/io_buffer.h:90-96 | the loop copies the bytes |
| IoBuffer.BigEndianOfToBytes | network/io_buffer.h:52-110 | reading back what was written gives the value |
| IoBuffer.ToBytesOfBigEndian | network/io_buffer.h:52-110 | writing back what was read gives the bytes |
| BitFields.ReadBits | network/io_buffer.h:34-50 | the loop reads the bits of the range; 32 bits that start with a 1 are sign-extended in a 64-bit type |
| BitFields.BitsAreShiftAndMask | network/io_buffer.h:34-50 | that is the buffer's value shifted and reduced modulo the width |
| BitFields.BitsConcatenate | network/io_buffer.h:34-50 | adjacent ranges concatenate |
| BitFields.ByteAlignedBits | network/io_buffer.h:34-110 | on whole bytes it agrees with read_unsigned |
| Tickers.Ticker.Tick | common/ticker.h:20-34 | the branches of tick |
| Tickers.Ticker.UpdateSendRate | neptun/neptun.h:40-47 | the interval for a rate, without touching the accumulated time |
| Tickers.NoLimitNeverRefuses | common/ticker.h:24-27 | without an interval no tick is refused in any run, and no time accumulates |
| Tickers.TickIsDue | common/ticker.h:28-33 | whatever time has accumulated, a tick is due once it amounts to the interval, and the rest is carried |
| Tickers.TickIsExact | common/ticker.h:20-34 | true exactly when a multiple of the interval was crossed; the remainder is carried |
| Tickers.RunIsExact | common/ticker.h:20-34 | over a run, at most one true tick for each multiple, and the accumulator ends at the remainder |
| Tickers.DenseRunIsExact | common/ticker.h:20-34 | asked at least once every interval, it ticks exactly once for each multiple crossed |
| Tickers.BurstIsBounded | common/ticker.h:20-34 | no span of time holds more true ticks than MaxBurst |
| Tickers.BurstIsAttained | common/ticker.h:20-34 | and some run attains it |
| Tickers.RateIsLimited | neptun/neptun.h:40-47 | never more than r + 1 true ticks in a second if and only if r divides 10^9; never more than r + 2 |
| Tickers.RateIsPace | neptun/neptun.h:40-47 | the interval is the longest that fits r times into a second; none for rate 0 |
| Tickers.RateIsReached | neptun/neptun.h:40-47 | asked often enough, at least r ticks are true in a second |
| FakeNetworks.FakeNetwork.SendTo | network/fake_network.h:124-162 | queues the payload cut to the MTU, or drops it and reports it sent |
| FakeNetworks.FakeNetwork.ReadFromSocket | network/fake_network.h:94-121 | reads payloads in the order sent, each at most once |
| Channels.Send | network/fake_network.h:124-162 | sending what an endpoint writes keeps the channel joined to the two endpoints |
| Channels.Receive | network/fake_network.h:94-121 | what is read is, byte for byte, a datagram of the peer that an in-order network permits to be read next; reading it is that step |

## Left out

- Handshake and `ConnectionManager`: the session is established; a datagram with a handshake segment is outside the model.
- `LetsConnect`, `RejectLetsConnect`, `Ping`, strings: messages of the handshake and of examples.
- The exchange of the limits the send rate is computed from: both are constants of the established session.
- `UnreliableStream`: only the bytes it appends to a packet appear, as the packet's tail.
- Liveness in general: a message larger than the packet blocks the queue, and a DROP requeues later messages; the clean round trip is proved instead.
- Headers shorter than 12 bytes: the source does not check for them; they are excluded by `requires`.
- The order of several peers within one tick, sockets, addresses, statistics, logging, metrics, formatting and packet capture files.
- BitFields.ReadBits: ranges of more than 32 bits are not modelled, because the source then shifts an `int` by 32 or more, which is undefined.
- FakeNetworks.FakeNetwork.SendTo: one sender and one destination; addresses, a queue for each address and statistics are not modelled.
- FakeNetworks.FakeNetwork.ReadFromSocket: one sender and one destination; the sender's address, the map of addresses and statistics are not modelled.
- Queues and deques are sequences that the methods reassign; their node storage is not modelled.
