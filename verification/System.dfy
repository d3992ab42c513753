/** Two established endpoints and the datagrams between them, as a transition system with its history. */
module ProtocolSystem {
  import opened Integers
  import opened Common
  import opened Messages
  import opened StreamModel
  import opened DeliveryModel
  import opened EndpointModel

  // An endpoint and everything that ever happened at it.
  datatype Node = Node(
    endpoint: Endpoint,
    sent: seq<seq<u8>>,       // payloads the application gave to the stream
    delivered: seq<seq<u8>>,  // payloads handed to the receiving callback
    ledger: seq<Packet>,      // packets written
    accepted: seq<nat>,       // ids of the peer's packets accepted
    notices: seq<Notice>,     // statuses computed by the delivery manager
    cursor: nat,              // one past the last datagram read
    clock: int)               // latest time seen

  datatype System = System(a: Node, b: Node)

  datatype Action =
    | Submit(payload: seq<u8>)
    | Emit(now: int, limit: nat, tail: seq<u8>)
    | Expire(now: int)
    | Hear(index: nat)

  datatype Side = A | B

  datatype Label = Label(side: Side, action: Action)

  function NewNode(timeout: int, capacity: nat): Node {
    Node(NewEndpoint(timeout, capacity), [], [], [], [], [], 0, 0)
  }

  function NewSystem(timeoutA: int, capacityA: nat, timeoutB: int, capacityB: nat): System {
    System(NewNode(timeoutA, capacityA), NewNode(timeoutB, capacityB))
  }

  function Datagram(x: Node, i: nat): seq<u8>
    requires i < |x.ledger|
  {
    EncodePacket(x.ledger[i])
  }

  // The application hands over what fits; ids and sequence numbers do not wrap; clocks do not run backwards;
  // any datagram the peer ever wrote can be read at any time, again and again, or never.
  predicate CanAct(me: Node, other: Node, action: Action) {
    match action
    case Submit(payload) => |payload| <= Room(me.endpoint.stream) && |me.sent| + 1 < WRAP32
    case Emit(now, limit, tail) =>
      HEADER_SIZE <= limit <= MAX_PACKET && ValidTail(tail) && now >= me.clock && |me.ledger| + 1 < WRAP32
    case Expire(now) => now >= me.clock
    case Hear(i) => i < |other.ledger| && Established(Datagram(other, i))
  }

  function Act(me: Node, other: Node, action: Action): Node
    requires CanAct(me, other, action)
  {
    match action
    case Submit(payload) =>
      me.(endpoint := me.endpoint.(stream := Send(me.endpoint.stream, payload)),
          sent := if payload == [] then me.sent else me.sent + [payload])
    case Emit(now, limit, tail) =>
      var (e, p) := EndpointModel.Write(me.endpoint, now, limit, tail);
      me.(endpoint := e, ledger := me.ledger + [p], clock := now)
    case Expire(now) =>
      var (e, ns) := Timeout(me.endpoint, now);
      me.(endpoint := e, notices := me.notices + ns, clock := now)
    case Hear(i) =>
      Heard(me, Read(me.endpoint, Datagram(other, i)), DecodeHeader(Datagram(other, i)).id, i)
  }

  function Heard(me: Node, r: Reading, id: nat, i: nat): Node {
    me.(endpoint := r.endpoint,
        notices := me.notices + r.notices,
        accepted := if r.accepted then me.accepted + [id] else me.accepted,
        delivered := me.delivered + r.callbacks,
        cursor := i + 1)
  }

  // ---- Networks ----

  // Arbitrary: drops, duplicates and reorders in both directions.
  // NoneDiscarded: the same, but no stale datagram that is read has a status to report.
  // InOrder: only drops, in both directions.
  // ExactReturn: arbitrary from A to B; from B to A every datagram once and in order, and A never times out.
  datatype Network = Arbitrary | NoneDiscarded | InOrder | ExactReturn

  // Reading datagram i of the peer computes statuses that the stream is never told.
  predicate Discards(me: Node, other: Node, i: nat)
    requires CanAct(me, other, Hear(i))
  {
    var r := Read(me.endpoint, Datagram(other, i));
    !r.accepted && r.notices != []
  }

  predicate Permits(net: Network, side: Side, me: Node, other: Node, action: Action)
    requires CanAct(me, other, action)
  {
    match net
    case Arbitrary => true
    case NoneDiscarded => action.Hear? ==> !Discards(me, other, action.index)
    case InOrder => action.Hear? ==> action.index >= me.cursor
    case ExactReturn =>
      side == A ==>
        (action.Hear? ==> action.index == me.cursor) &&
        (action.Expire? ==> DropOld(me.endpoint.delivery, action.now).1 == [])
  }

  predicate Enabled(net: Network, s: System, l: Label) {
    match l.side
    case A => CanAct(s.a, s.b, l.action) && Permits(net, A, s.a, s.b, l.action)
    case B => CanAct(s.b, s.a, l.action) && Permits(net, B, s.b, s.a, l.action)
  }

  function Step(net: Network, s: System, l: Label): System
    requires Enabled(net, s, l)
  {
    match l.side
    case A => s.(a := Act(s.a, s.b, l.action))
    case B => s.(b := Act(s.b, s.a, l.action))
  }

  // The state after the labels, if each is enabled in turn.
  function Exec(net: Network, s: System, labels: seq<Label>): Option<System> {
    if labels == [] then Some(s)
    else
      match Exec(net, s, labels[..|labels| - 1])
      case None => None
      case Some(t) =>
        var l := labels[|labels| - 1];
        if Enabled(net, t, l) then Some(Step(net, t, l)) else None
  }

  ghost predicate Reachable(net: Network, s: System) {
    exists timeoutA: int, capacityA: nat, timeoutB: int, capacityB: nat, labels: seq<Label> ::
      Exec(net, NewSystem(timeoutA, capacityA, timeoutB, capacityB), labels) == Some(s)
  }

  // ---- Invariants of one node ----

  // Every message of the batch is the payload sent under its number, and the numbers are consecutive.
  predicate Carries(sent: seq<seq<u8>>, ms: seq<Message>) {
    forall k :: 0 <= k < |ms| ==>
      ms[k].seqNo == ms[0].seqNo + k && ms[k].seqNo < |sent| && ms[k].payload == sent[ms[k].seqNo]
  }

  predicate LedgerOk(x: Node) {
    |x.ledger| == x.endpoint.delivery.nextOutgoing &&
    forall i :: 0 <= i < |x.ledger| ==>
      x.ledger[i].header.id == i && WellFormed(x.ledger[i]) && Carries(x.sent, x.ledger[i].messages) &&
      |EncodePacket(x.ledger[i])| <= MAX_PACKET
  }

  // Every packet has got exactly one status, in order, or is still in flight.
  predicate StatusesOk(x: Node) {
    var d := x.endpoint.delivery;
    Consecutive(x.notices, 0) &&
    |x.notices| + |d.inFlight| == d.nextOutgoing &&
    (forall k :: 0 <= k < |d.inFlight| ==> d.inFlight[k].id == |x.notices| + k && d.inFlight[k].dispatched <= x.clock) &&
    TimesIncrease(d.inFlight)
  }

  // The ids announced by all headers written so far.
  function AllAcks(ledger: seq<Packet>): seq<nat> {
    if ledger == [] then [] else AllAcks(ledger[..|ledger| - 1]) + HeaderAcks(ledger[|ledger| - 1].header)
  }

  // Acceptances are announced once each, in order, or still pending.
  predicate AcksOk(x: Node) {
    var d := x.endpoint.delivery;
    x.accepted == AllAcks(x.ledger) + d.pendingAcks &&
    Increasing(x.accepted) &&
    d.nextExpected == if x.accepted == [] then 0 else x.accepted[|x.accepted| - 1] + 1
  }

  predicate FlightOk(f: Flight, ledger: seq<Packet>) {
    f.packetId < |ledger| &&
    var ms := ledger[f.packetId].messages;
    ms != [] && ms[0].seqNo <= f.message.seqNo < ms[0].seqNo + |ms|
  }

  // What the stream holds are the last payloads sent, in order; what is in flight is in the ledger.
  predicate StreamOk(s: Stream, sent: seq<seq<u8>>, ledger: seq<Packet>) {
    var held := s.Held();
    |sent| == s.nextOutgoing && |held| <= |sent| &&
    (forall i :: 0 <= i < |held| ==> held[i] == Message(|sent| - |held| + i, sent[|sent| - |held| + i])) &&
    (forall p :: p in sent ==> p != []) &&
    PacketsIncrease(s.inFlight) &&
    (forall i :: 0 <= i < |s.inFlight| ==> FlightOk(s.inFlight[i], ledger))
  }

  predicate Local(x: Node) {
    LedgerOk(x) && StatusesOk(x) && AcksOk(x) && StreamOk(x.endpoint.stream, x.sent, x.ledger) &&
    |x.delivered| == x.endpoint.stream.nextExpected
  }

  // ---- Invariants between a sender and its receiver ----

  // How many messages the sender has released.
  function Released(s: Stream): int {
    s.nextOutgoing - |s.Held()|
  }

  predicate AllAccepted(fs: seq<Flight>, accepted: seq<nat>, k: nat)
    requires k < |fs|
  {
    forall i :: 0 <= i <= k ==> fs[i].packetId in accepted
  }

  // Released messages were delivered; and if the oldest flights were all accepted, they were all delivered.
  predicate Safe(s: Stream, accepted: seq<nat>, count: nat) {
    Released(s) <= count &&
    forall k :: 0 <= k < |s.inFlight| && AllAccepted(s.inFlight, accepted, k) ==> Released(s) + k < count
  }

  predicate Cross(x: Node, y: Node) {
    y.delivered <= x.sent &&
    y.endpoint.delivery.nextExpected <= |x.ledger| &&
    Safe(x.endpoint.stream, y.accepted, |y.delivered|) &&
    forall n :: n in x.notices && n.status == Ack ==> n.id in y.accepted
  }

  predicate Inv(s: System) {
    Local(s.a) && Local(s.b) && Cross(s.a, s.b) && Cross(s.b, s.a)
  }
}
