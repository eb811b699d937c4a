/** The sink of authorized peers: application messages are queued, network messages are answered
    (src/Components/MessageControl/AuthorizedProcessor.cpp). */
module AuthorizedProcessor {
  import opened Bytes
  import Identifier
  import H = MessageHeader
  import N = NetworkMessage
  import A = ApplicationMessage

  /** The message of a kind that a node sends to the source of another one. */
  function ReplyOf(own: Identifier.Container, m: N.Message, kind: N.Kind): N.Message {
    N.Built(N.Message(H.Header(H.Protocol.Network, 0, 0, 0, own, H.Node, Some(m.header.source)), kind, []))
  }

  /** Network messages are for one node, and only a handshake may leave out which. */
  predicate IsFor(own: Identifier.Container, m: N.Message) {
    && m.header.destination == H.Node
    && (m.header.to == None ==> m.kind == N.Handshake)
    && (m.header.to.Some? ==> Identifier.Same(m.header.to.value, own))
  }

  /** A handshake is answered by a heartbeat request, because the session exists already, and that
      one by a heartbeat response. */
  function Reply(own: Identifier.Container, m: N.Message): Option<N.Message> {
    if !IsFor(own, m) then None
    else match m.kind
      case HeartbeatRequest => Some(ReplyOf(own, m, N.HeartbeatResponse))
      case Handshake => Some(ReplyOf(own, m, N.HeartbeatRequest))
      case _ => None
  }

  /** What the processor makes of some bytes: a message for its queue, or a reply. */
  datatype Reaction = Ignored | Queued(message: A.Message) | Answered(reply: N.Message) | Absorbed

  /** Network messages are ignored when their peer is gone (`alive` is whether it still exists). */
  function React(own: Identifier.Container, handlers: A.Handlers, digest: Identifier.Digest, now: nat,
                 bytes: seq<byte>, alive: bool): Reaction {
    match H.PeekProtocol(bytes)
    case Some(Network) =>
      (match N.Received(digest, bytes)
       case None => Ignored
       case Some(m) =>
         if !alive then Ignored
         else match Reply(own, m)
         case Some(reply) => Answered(reply)
         case None => if IsFor(own, m) && m.kind == N.HeartbeatResponse then Absorbed else Ignored)
    case Some(Application) =>
      (match A.Received(handlers, digest, now, bytes)
       case None => Ignored
       case Some(m) => Queued(m))
    case _ => Ignored
  }

  /** What joins the queue is an application message that was signed by the peer; whatever does not verify
      is ignored, or handled as a network message, which is not signed. */
  lemma QueuedIsVerified(own: Identifier.Container, handlers: A.Handlers, digest: Identifier.Digest, now: nat,
                         bytes: seq<byte>, alive: bool)
    ensures
      var reaction := React(own, handlers, digest, now, bytes, alive);
      && (reaction.Queued? ==> handlers.verify(bytes) && H.PeekProtocol(bytes) == Some(H.Protocol.Application))
      && (H.PeekProtocol(bytes) == Some(H.Protocol.Application) && !handlers.verify(bytes) ==> reaction == Ignored)
  {
    hide H.PeekProtocol, N.Received, A.Received;
    A.ReceivedIsVerified(handlers, digest, now, bytes);
  }

  /** What is answered: handshakes and heartbeat requests to this node. The reply comes from this node, goes
      to whoever asked, and is taken there for what it is. */
  lemma RepliesArrive(own: Identifier.Container, m: N.Message, digest: Identifier.Digest)
    requires H.Parsable(digest, own) && H.Parsable(digest, m.header.source)
    ensures Reply(own, m).Some? <==> IsFor(own, m) && m.kind in {N.HeartbeatRequest, N.Handshake}
    ensures Reply(own, m).Some? ==>
      var reply := Reply(own, m).value;
      && reply.header.source == own && reply.header.to == Some(m.header.source) && reply.payload == []
      && reply.kind == (if m.kind == N.Handshake then N.HeartbeatRequest else N.HeartbeatResponse)
      && N.Received(digest, N.Packed(reply)) == Some(reply)
      && IsFor(m.header.source, reply)
  {
    if Reply(own, m).Some? {
      ReplyIsSendable(own, m, digest);
      hide N.Sendable, N.Packed, N.Received;
      N.PackedRoundTrip(digest, Reply(own, m).value);
    }
  }

  lemma ReplyIsSendable(own: Identifier.Container, m: N.Message, digest: Identifier.Digest)
    requires H.Parsable(digest, own) && H.Parsable(digest, m.header.source) && Reply(own, m).Some?
    ensures N.Sendable(digest, Reply(own, m).value)
  {
    hide Identifier.FromNetwork;
  }

  /** What is sent to this node reaches its processor: a signed application message of a paired peer is queued,
      as it was read, and a network message is answered or, if it is a heartbeat response, taken note of. */
  lemma SignedIsQueued(own: Identifier.Container, sender: A.Handlers, receiver: A.Handlers,
                       digest: Identifier.Digest, now: nat, m: A.Message, alive: bool)
    requires A.Paired(sender, receiver) && sender.signatureSize % 4 == 0
    requires A.Sendable(sender, digest, m) && A.Signed(sender, m).Some?
    ensures React(own, receiver, digest, now, A.Signed(sender, m).value, alive) == Queued(A.AsRead(sender, m))
  {
    hide H.PeekProtocol, N.Received, A.Received, A.AsRead, A.Sendable, A.Paired;
    A.BytesRoundTrip(sender, receiver, digest, m, now);
    A.ReceivedWhen(receiver, digest, now, A.Signed(sender, m).value);
    ProtocolIsPeeked(digest, A.Signed(sender, m).value);
  }

  lemma SentIsAnswered(own: Identifier.Container, handlers: A.Handlers, digest: Identifier.Digest, now: nat,
                       m: N.Message)
    requires N.Sendable(digest, m) && IsFor(own, m)
    ensures React(own, handlers, digest, now, N.Packed(m), true) ==
      match m.kind
      case HeartbeatResponse => Absorbed
      case HeartbeatRequest => Answered(ReplyOf(own, m, N.HeartbeatResponse))
      case _ => Answered(ReplyOf(own, m, N.HeartbeatRequest))
  {
    KindOfSendable(digest, m);
    hide H.PeekProtocol, N.Received, N.Packed, N.Sendable, IsFor, ReplyOf;
    N.PackedRoundTrip(digest, m);
    ParsedReceived(digest, N.Packed(m));
    ProtocolIsPeeked(digest, N.Packed(m));
  }

  lemma KindOfSendable(digest: Identifier.Digest, m: N.Message)
    requires N.Sendable(digest, m)
    ensures m.kind != N.Invalid && m.header.protocol == H.Protocol.Network
  {
    hide H.ParsableHeader, N.PackSize;
  }

  lemma ParsedReceived(digest: Identifier.Digest, bytes: seq<byte>)
    requires N.Received(digest, bytes).Some?
    ensures H.Parse(digest, bytes).Taken?
    ensures H.Parse(digest, bytes).value.protocol == N.Received(digest, bytes).value.header.protocol
  {
    N.ReceivedFields(digest, bytes);
    hide N.IsAccepted, N.HasPayload, H.Parse, N.Received;
  }

  lemma ProtocolIsPeeked(digest: Identifier.Digest, bytes: seq<byte>)
    requires H.Parse(digest, bytes).Taken?
    ensures H.PeekProtocol(bytes) == Some(H.Parse(digest, bytes).value.protocol)
  {
    H.PeeksAgree(digest, bytes);
    hide H.Parse;
  }

  /** A message to another node, to more than one node, or to nobody in particular, unless it is a handshake,
      has no effect. */
  lemma OthersAreIgnored(own: Identifier.Container, handlers: A.Handlers, digest: Identifier.Digest, now: nat,
                         bytes: seq<byte>, alive: bool)
    requires H.PeekProtocol(bytes) == Some(H.Protocol.Network) && N.Received(digest, bytes).Some?
    requires
      var m := N.Received(digest, bytes).value;
      || m.header.destination != H.Node
      || (m.header.to.Some? && m.header.to.value.internal != own.internal)
      || (m.header.to == None && m.kind != N.Handshake)
      || !alive
    ensures React(own, handlers, digest, now, bytes, alive) == Ignored
  {
  }

  class AuthorizedProcessor {
    const own: Identifier.Container
    const digest: Identifier.Digest
    var incoming: seq<A.Message>

    constructor (own: Identifier.Container, digest: Identifier.Digest)
      ensures this.own == own && this.digest == digest && incoming == []
    {
      this.own, this.digest, incoming := own, digest, [];
    }

    /** `sends` is the result of giving a reply to the peer. */
    method CollectMessage(handlers: A.Handlers, now: nat, bytes: seq<byte>, alive: bool, sends: bool)
      returns (ok: bool, reply: Option<N.Message>)
      modifies this
      ensures
        match React(own, handlers, digest, now, bytes, alive)
        case Ignored => !ok && reply == None && incoming == old(incoming)
        case Queued(m) => ok && reply == None && incoming == old(incoming) + [m]
        case Answered(r) => ok == sends && reply == Some(r) && incoming == old(incoming)
        case Absorbed => ok && reply == None && incoming == old(incoming)
      ensures incoming != old(incoming) ==>
        handlers.verify(bytes) && H.PeekProtocol(bytes) == Some(H.Protocol.Application)
    {
      QueuedIsVerified(own, handlers, digest, now, bytes, alive);
      hide H.PeekProtocol, N.Received, A.Received;
      reply := None;
      var protocol := H.PeekProtocol(bytes);
      if protocol == None { return false, None; }
      match protocol.value {
        case Network =>
          var message := N.ReceiveDecoded(digest, bytes);
          if message == None { return false, None; }
          ok, reply := HandleMessage(message.value, alive, sends);
        case Application =>
          var message := A.Received(handlers, digest, now, bytes);
          if message == None { return false, None; }
          incoming := incoming + [message.value];
          ok := true;
        case Invalid => ok := false;
      }
    }

    method HandleMessage(m: N.Message, alive: bool, sends: bool) returns (ok: bool, reply: Option<N.Message>)
      ensures reply == if alive then Reply(own, m) else None
      ensures ok <==> alive && if reply.Some? then sends else IsFor(own, m) && m.kind == N.HeartbeatResponse
    {
      if m.header.destination != H.Node { return false, None; }
      if m.header.to == None && m.kind != N.Handshake { return false, None; }
      if m.header.to.Some? && !Identifier.Same(m.header.to.value, own) { return false, None; }
      if !alive { return false, None; }
      match m.kind {
        case HeartbeatRequest => return sends, Some(ReplyOf(own, m, N.HeartbeatResponse));
        case HeartbeatResponse => return true, None;
        case Handshake => return sends, Some(ReplyOf(own, m, N.HeartbeatRequest));
        case Invalid => return false, None;
      }
    }

    method PopIncomingMessage() returns (m: Option<A.Message>)
      modifies this
      ensures old(incoming) == match m case None => [] case Some(message) => [message] + incoming
      ensures m == None ==> incoming == old(incoming)
    {
      if |incoming| == 0 { return None; }
      m := Some(incoming[0]);
      incoming := incoming[1..];
    }
  }

  // ---- Traffic between authorized nodes ----

  function Rank(m: N.Message): nat {
    match m.kind case Handshake => 2 case HeartbeatRequest => 1 case _ => 0
  }

  lemma ReplyHasSmallerRank(own: Identifier.Container, m: N.Message)
    ensures Reply(own, m).Some? ==> Rank(Reply(own, m).value) == Rank(m) - 1
  {
  }

  /** The message at an index reaches an authorized node, which may fail to send its reply. */
  datatype Delivery = Delivery(index: nat, own: Identifier.Container, sends: bool)

  function Sum(flight: seq<N.Message>): nat {
    if flight == [] then 0 else Sum(flight[..|flight| - 1]) + Rank(flight[|flight| - 1])
  }

  lemma {:induction false} SumAppend(a: seq<N.Message>, b: seq<N.Message>)
    ensures Sum(a + b) == Sum(a) + Sum(b)
  {
    if b == [] {
      assert a + b == a;
    } else {
      assert (a + b)[..|a + b| - 1] == a + b[..|b| - 1];
      SumAppend(a, b[..|b| - 1]);
    }
  }

  lemma SumOne(m: N.Message)
    ensures Sum([m]) == Rank(m)
  {
    assert [m][..0] == [];
  }

  function Replies(d: Delivery, flight: seq<N.Message>): (replies: seq<N.Message>)
    requires d.index < |flight|
    ensures |replies| <= 1
  {
    match Reply(d.own, flight[d.index]) case Some(reply) => if d.sends then [reply] else [] case None => []
  }

  function Delivered(d: Delivery, flight: seq<N.Message>): seq<N.Message>
    requires d.index < |flight|
  {
    flight[..d.index] + flight[d.index + 1..] + Replies(d, flight)
  }

  /** A delivery takes a message away and adds at most one, of a rank below. */
  lemma DeliveryDrains(d: Delivery, flight: seq<N.Message>)
    requires d.index < |flight|
    ensures
      var next := Delivered(d, flight);
      && Sum(next) + |Replies(d, flight)| <= Sum(flight)
      && |next| + Sum(next) < |flight| + Sum(flight)
  {
    var before, m, after := flight[..d.index], flight[d.index], flight[d.index + 1..];
    assert flight == before + ([m] + after);
    SumAppend(before, [m] + after);
    SumAppend([m], after);
    SumOne(m);
    SumAppend(before, after);
    SumAppend(before + after, Replies(d, flight));
    ReplyHasSmallerRank(d.own, m);
    match Reply(d.own, m) {
      case Some(reply) => SumOne(reply);
      case None =>
    }
  }

  ghost predicate IsRun(flight: seq<N.Message>, deliveries: seq<Delivery>)
    decreases |deliveries|
  {
    deliveries == [] ||
    (deliveries[0].index < |flight| && IsRun(Delivered(deliveries[0], flight), deliveries[1..]))
  }

  ghost function ReplyCount(flight: seq<N.Message>, deliveries: seq<Delivery>): nat
    requires IsRun(flight, deliveries)
    decreases |deliveries|
  {
    if deliveries == [] then 0
    else |Replies(deliveries[0], flight)| + ReplyCount(Delivered(deliveries[0], flight), deliveries[1..])
  }

  ghost function InFlight(flight: seq<N.Message>, deliveries: seq<Delivery>): seq<N.Message>
    requires IsRun(flight, deliveries)
    decreases |deliveries|
  {
    if deliveries == [] then flight else InFlight(Delivered(deliveries[0], flight), deliveries[1..])
  }

  /** Network messages between authorized nodes die out: from any messages in flight, delivered in
      any order to any nodes, at most as many replies follow as their ranks add up to, and no run is
      longer than that and the number of messages together. */
  lemma {:induction false} TrafficDrains(flight: seq<N.Message>, deliveries: seq<Delivery>)
    requires IsRun(flight, deliveries)
    ensures ReplyCount(flight, deliveries) + Sum(InFlight(flight, deliveries)) <= Sum(flight)
    ensures |deliveries| + |InFlight(flight, deliveries)| + Sum(InFlight(flight, deliveries)) <= |flight| + Sum(flight)
    decreases |deliveries|
  {
    if deliveries != [] {
      DeliveryDrains(deliveries[0], flight);
      TrafficDrains(Delivered(deliveries[0], flight), deliveries[1..]);
    }
  }

  /** The bound is reached: a handshake that gets through is followed by two replies. */
  lemma TwoRepliesToAHandshake(m: N.Message, own: Identifier.Container)
    requires m.kind == N.Handshake && m.header.destination == H.Node && m.header.to == None
    requires own.valid && m.header.source.valid
    ensures
      var request := Reply(own, m);
      && request.Some?
      && Reply(m.header.source, request.value).Some?
      && Rank(Reply(m.header.source, request.value).value) == 0
  {
  }
}
