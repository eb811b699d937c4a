/** Two honest nodes, one of which resolves the other's address: the sessions and messages of their
    handshake, and what each message does to the node that it reaches. */
module HonestWorld {
  import opened Bytes
  import opened Authorization
  import Identifier
  import H = MessageHeader
  import N = NetworkMessage
  import Z85
  import K = KeyStore
  import S = Strategy
  import Handshake
  import Stream
  import Traffic

  /** The two nodes, their identifiers, the randomness they use, and the initiator's first
      application message. */
  datatype World = World(
    nodeA: Node,
    nodeB: Node,
    idA: Identifier.Container,
    idB: Identifier.Container,
    coinsA: S.Coins,
    coinsB: S.Coins,
    connect: Text)

  predicate IsApplication(bytes: seq<byte>) {
    H.PeekProtocol(bytes) == Some(H.Protocol.Application)
  }

  /** A text of the initiator or the acceptor that holds an application message if it can be read. */
  predicate IsApplicationText(digest: Identifier.Digest, text: Text) {
    Stream.Framed(text) && match Stream.Reading(digest, text) case None => true case Some(bytes) => IsApplication(bytes)
  }

  ghost predicate Honest(w: World) {
    && K.Lawful(w.nodeA.primitives) && Handshake.Reliable(w.nodeA.primitives)
    && w.nodeB.primitives == w.nodeA.primitives && w.nodeB.digest == w.nodeA.digest
    && Handshake.WorkingContext(w.nodeA.primitives, w.nodeA.context)
    && H.Parsable(w.nodeA.digest, w.idA) && H.Parsable(w.nodeA.digest, w.idB)
    && S.IsCoins(w.coinsA) && w.coinsA.seed.Some? && S.IsCoins(w.coinsB) && w.coinsB.seed.Some?
    && IsApplicationText(w.nodeA.digest, w.connect)
  }

  // ---- Honest worlds exist ----

  function TrivialDigest(bytes: seq<byte>): seq<byte> {
    [0, 0, 0, 0]
  }

  function TrivialIdentifier(): Identifier.Container {
    Identifier.FromInternal(TrivialDigest, 0x1_00_0000_0000_0000_0000_0000_0000)
  }

  /** A world without secrets, in which the initiator has a certain seed. */
  function TrivialWorld(seed: seq<byte>): World {
    var node := Node(TrivialDigest, Handshake.Trivial(0), Handshake.TrivialContext());
    var coins := S.Coins(Some(seed), []);
    World(node, node, TrivialIdentifier(), TrivialIdentifier(), coins, coins, seq(15, _ => 0))
  }

  /** What is required of an honest world can be met, whatever the initiator's seed is. */
  lemma TrivialWorldIsHonest(seed: seq<byte>)
    requires |seed| == S.SEED_SIZE
    ensures Honest(TrivialWorld(seed))
  {
    hide H.Parsable, K.Lawful, Handshake.Reliable, Handshake.WorkingContext, Handshake.Trivial,
      Handshake.TrivialContext;
    hide IsApplicationText, Identifier.FromInternal;
    UnreadableText(TrivialWorld(seed).connect);
    TrivialIsParsable(0x1_00_0000_0000_0000_0000_0000_0000);
    Handshake.TrivialIsLawful(0);
  }

  lemma UnreadableText(text: Text)
    requires |text| == 15 && forall i :: 0 <= i < 15 ==> text[i] == 0
    ensures forall digest :: IsApplicationText(digest, text)
  {
    var first := text[..Stream.HEADER_SIZE];
    assert Z85.DigitOf(first[5]) == None;
    Z85.RejectedCharacter(first, 2, 1, 5);
    Z85.AcceptsAsBlocks(first, 2);
  }

  lemma TrivialIsParsable(x: nat)
    requires x == 0x1_00_0000_0000_0000_0000_0000_0000
    ensures H.Parsable(TrivialDigest, Identifier.FromInternal(TrivialDigest, x))
  {
    hide Identifier.Network, Identifier.FromNetwork;
    Identifier.ContainersAreWellFormed(TrivialDigest, x, []);
    Identifier.LargeIdentifiersFit(TrivialDigest, x);
  }

  // ---- Handshake messages on the link ----

  function HandshakeMessage(source: Identifier.Container, to: Option<Identifier.Container>, payload: seq<byte>)
    : N.Message
  {
    N.Built(N.Message(H.Header(H.Protocol.Network, 0, 0, 0, source, H.Node, to), N.Handshake, payload))
  }

  function HandshakeBytes(source: Identifier.Container, to: Option<Identifier.Container>, payload: seq<byte>)
    : seq<byte>
  {
    N.Packed(HandshakeMessage(source, to, payload))
  }

  /** What the builder makes of a payload is what the other side's parser sees. */
  lemma HandshakeArrives(digest: Identifier.Digest, source: Identifier.Container, to: Option<Identifier.Container>,
                         payload: seq<byte>)
    requires H.Parsable(digest, source) && (to.Some? ==> H.Parsable(digest, to.value)) && |payload| <= 2000
    ensures
      var bytes := HandshakeBytes(source, to, payload);
      && H.PeekProtocol(bytes) == Some(H.Protocol.Network)
      && N.Received(digest, bytes) == Some(HandshakeMessage(source, to, payload))
  {
    HandshakeIsSendable(digest, source, to, payload);
    hide N.Sendable, N.Packed, N.Received, H.PeekProtocol;
    N.PackedRoundTrip(digest, HandshakeMessage(source, to, payload));
    StartsWithProtocol(digest, HandshakeBytes(source, to, payload));
  }

  /** The text of such a message. */
  function HandshakeText(source: Identifier.Container, to: Option<Identifier.Container>, payload: seq<byte>): Text {
    Z85.Encoding(HandshakeBytes(source, to, payload))
  }

  /** It can be cut out of a stream, and read exactly when its bytes have no aligned block FF FF FF FF. */
  lemma HandshakeTextReads(digest: Identifier.Digest, source: Identifier.Container,
                           to: Option<Identifier.Container>, payload: seq<byte>)
    requires H.Parsable(digest, source) && (to.Some? ==> H.Parsable(digest, to.value)) && |payload| <= 2000
    ensures
      var bytes, text := HandshakeBytes(source, to, payload), HandshakeText(source, to, payload);
      && Stream.Framed(text)
      && Stream.Reading(digest, text) == if Z85.Clean(bytes) then Some(bytes) else None
  {
    hide N.Sendable, N.Packed, Stream.Framed, Stream.Reading, Z85.Clean, Z85.Encoding;
    HandshakeIsSendable(digest, source, to, payload);
    Traffic.NetworkPack(digest, HandshakeMessage(source, to, payload));
  }

  lemma HandshakeIsSendable(digest: Identifier.Digest, source: Identifier.Container,
                            to: Option<Identifier.Container>, payload: seq<byte>)
    requires H.Parsable(digest, source) && (to.Some? ==> H.Parsable(digest, to.value)) && |payload| <= 2000
    ensures N.Sendable(digest, HandshakeMessage(source, to, payload))
  {
    hide Identifier.FromNetwork;
  }

  lemma StartsWithProtocol(digest: Identifier.Digest, bytes: seq<byte>)
    ensures N.Received(digest, bytes).Some? ==>
      H.PeekProtocol(bytes) == Some(N.Received(digest, bytes).value.header.protocol)
  {
    hide N.Unpacked;
    if H.Parse(digest, bytes).Taken? {
      H.PeeksAgree(digest, bytes);
      HeaderIsKept(H.Parse(digest, bytes).value, H.Parse(digest, bytes).rest);
    }
  }

  lemma HeaderIsKept(h: H.Header, rest: seq<byte>)
    ensures N.Unpacked(h, rest).header == h
  {
  }

  // ---- What messages do to a node ----

  /** A node before it knows the other, while it resolves the other's address, and once it has
      linked a peer. */
  datatype Side = Unlinked | Waiting(mediator: Mediator) | Talking(peer: Peer)

  ghost predicate Orderly(side: Side) {
    match side
    case Unlinked => true
    case Waiting(mediator) => Resolving(mediator)
    case Talking(peer) => Linked(peer)
  }

  /** Bytes arrive: the first ones link the peer, as the endpoint does before it forwards them. All
      sends succeed. The second result is what the endpoint returns to the session. */
  function Deliver(node: Node, side: Side, bytes: seq<byte>, coins: S.Coins): (r: (Side, bool, seq<Sent>))
    requires LawfulNode(node) && Orderly(side)
  {
    var chance := Chance(coins, true, true);
    match side
    case Talking(peer) =>
      var (next, ok, sent) := ScheduleReceive(node, peer, bytes, chance);
      (Talking(next), ok, sent)
    case Waiting(mediator) =>
      BindingLinks(mediator);
      var (next, ok, sent) := ScheduleReceive(node, BindPeer(mediator).value, bytes, chance);
      (Talking(next), ok, sent)
    case Unlinked =>
      SetupResolves(node, K.Acceptor, coins);
      var mediator := Setup(node, NEW_MEDIATOR, K.Acceptor, coins).1;
      BindingLinks(mediator);
      var (next, ok, sent) := ScheduleReceive(node, BindPeer(mediator).value, bytes, chance);
      (Talking(next), ok, sent)
  }

  predicate IsAuthorized(side: Side) {
    side.Talking? && side.peer.mediator.state == Authorized
  }

  // ---- The sessions of the handshake ----

  ghost function Sessions(w: World): Handshake.Handshake
    requires Honest(w)
  {
    Handshake.Exchange(w.nodeA.primitives, w.nodeA.context, w.nodeB.context, S.New(K.Initiator), S.New(K.Acceptor),
                       w.coinsA, w.coinsB)
  }

  lemma SessionsComplete(w: World)
    requires Honest(w)
    ensures
      var h := Sessions(w);
      && h.request.Done? && |h.request.message| == S.REQUEST_SIZE
      && h.response.Done? && |h.response.message| == S.RESPONSE_SIZE
      && h.confirmation.Done? && |h.confirmation.message| == S.VERIFICATION_REQUEST_SIZE
      && h.last == S.Done([])
      && h.prepared.status == S.Processing && h.waiting.status == S.Processing && h.answered.status == S.Processing
      && h.a.status == S.Ready && h.b.status == S.Ready
      && K.Mirrored(h.a.store, h.b.store) && h.a.store.seed == h.b.store.seed
      && Handshake.Keyed(h.a.store) && Handshake.Keyed(h.b.store)
  {
    hide Handshake.Exchange;
    Handshake.Completes(w.nodeA.primitives, w.nodeA.context, w.nodeB.context, S.New(K.Initiator),
                        S.New(K.Acceptor), w.coinsA, w.coinsB);
  }

  function Negotiator(bound: bool, session: S.Session): Mediator {
    Mediator(Unauthorized, bound, None, Some(Processor(Synchronization, Some(session), session.role == K.Initiator)))
  }

  function Exchanging(session: S.Session): Peer {
    Peer(Negotiator(true, session), ExchangeSink)
  }

  function Trusted(session: S.Session): Peer {
    Peer(Mediator(Authorized, true, Some(session), None), AuthorizedSink)
  }

  /** The sessions of the handshake, call by call. */
  lemma Unfolded(w: World)
    requires Honest(w)
    ensures
      var h, p := Sessions(w), w.nodeA.primitives;
      && (h.prepared, h.request)
         == S.PrepareSynchronization(p, w.nodeA.context, S.New(K.Initiator), w.coinsA)
      && h.waiting == S.PrepareSynchronization(p, w.nodeB.context, S.New(K.Acceptor), w.coinsB).0
      && (h.answered, h.response)
         == S.Synchronize(p, w.nodeB.context, h.waiting, Handshake.Message(h.request), w.coinsB)
      && (h.a, h.confirmation)
         == S.Synchronize(p, w.nodeA.context, h.prepared, Handshake.Message(h.response), w.coinsA)
      && (h.b, h.last)
         == S.Synchronize(p, w.nodeB.context, h.answered, Handshake.Message(h.confirmation), w.coinsB)
  {
    hide S.PrepareSynchronization, S.Synchronize;
  }

  lemma SessionsAreSafe(w: World)
    requires Honest(w)
    ensures
      var h := Sessions(w);
      && S.Invariant(h.prepared) && S.Invariant(h.waiting) && S.Invariant(h.answered)
      && S.Invariant(h.a) && S.Invariant(h.b)
      && h.prepared.role == h.a.role == K.Initiator
      && h.waiting.role == h.answered.role == h.b.role == K.Acceptor
  {
    var h, p := Sessions(w), w.nodeA.primitives;
    SessionsComplete(w);
    Unfolded(w);
    hide S.PrepareSynchronization, S.Synchronize, S.Invariant, Sessions;
    S.NewIsSafe(K.Initiator);
    S.NewIsSafe(K.Acceptor);
    S.StepIsSafe(p, w.nodeA.context, S.New(K.Initiator), S.Prepare(w.coinsA));
    S.StepIsSafe(p, w.nodeB.context, S.New(K.Acceptor), S.Prepare(w.coinsB));
    S.StepIsSafe(p, w.nodeB.context, h.waiting, S.Receive(h.request.message, w.coinsB));
    S.StepIsSafe(p, w.nodeA.context, h.prepared, S.Receive(h.response.message, w.coinsA));
    S.StepIsSafe(p, w.nodeB.context, h.answered, S.Receive(h.confirmation.message, w.coinsB));
  }

  /** What an exchange that goes well makes of the strategy's result. */
  function Outcome(next: S.Session, response: seq<byte>): (Peer, seq<Sent>) {
    var sent := if response != [] then [HandshakeSent(response)] else [];
    if next.status != S.Ready then (Exchanging(next), sent)
    else (Trusted(next), if next.role == K.Initiator then sent + [ConnectSent] else sent)
  }

  lemma RespondGoesWell(next: S.Session, response: seq<byte>, coins: S.Coins)
    ensures
      var (peer, ok, sent) := Respond(Exchanging(next), next, response, next.role == K.Initiator,
                                      Chance(coins, true, true));
      ok && (peer, sent) == Outcome(next, response)
  {
  }

  lemma Handled(node: Node, session: S.Session, bytes: seq<byte>, m: N.Message, coins: S.Coins)
    requires LawfulNode(node) && Linked(Exchanging(session))
    requires H.PeekProtocol(bytes) == Some(H.Protocol.Network) && N.Received(node.digest, bytes) == Some(m)
    requires m.kind == N.Handshake && m.header.destination == H.Node
    requires
      var (next, outcome) := S.Synchronize(node.primitives, node.context, session, m.payload, coins);
      next.status != S.Error && next.role == session.role && outcome.Done?
    ensures
      var (next, outcome) := S.Synchronize(node.primitives, node.context, session, m.payload, coins);
      var (peer, ok, sent) := ScheduleReceive(node, Exchanging(session), bytes, Chance(coins, true, true));
      ok && (peer, sent) == Outcome(next, outcome.message)
  {
    hide N.Received, H.PeekProtocol, S.Synchronize, Linked, Respond, Outcome;
    var (next, outcome) := S.Synchronize(node.primitives, node.context, session, m.payload, coins);
    RespondGoesWell(next, outcome.message, coins);
  }

  /** A handshake message that reaches a linked peer in exchange. */
  lemma Exchanged(node: Node, session: S.Session, source: Identifier.Container, to: Option<Identifier.Container>,
                  payload: seq<byte>, coins: S.Coins)
    requires LawfulNode(node) && Linked(Exchanging(session))
    requires H.Parsable(node.digest, source) && (to.Some? ==> H.Parsable(node.digest, to.value)) && |payload| <= 2000
    requires
      var (next, outcome) := S.Synchronize(node.primitives, node.context, session, payload, coins);
      next.status != S.Error && next.role == session.role && outcome.Done?
    ensures
      var (next, outcome) := S.Synchronize(node.primitives, node.context, session, payload, coins);
      var (peer, ok, sent) := ScheduleReceive(node, Exchanging(session), HandshakeBytes(source, to, payload),
                                              Chance(coins, true, true));
      ok && (peer, sent) == Outcome(next, outcome.message)
  {
    HandshakeArrives(node.digest, source, to, payload);
    var m := HandshakeMessage(source, to, payload);
    assert m.kind == N.Handshake && m.header.destination == H.Node && m.payload == payload;
    hide N.Received, H.PeekProtocol, HandshakeBytes, HandshakeMessage, S.Synchronize, Linked, ScheduleReceive, Outcome;
    Handled(node, session, HandshakeBytes(source, to, payload), m, coins);
  }

  lemma ExchangingIsLinked(session: S.Session)
    requires S.Invariant(session) && session.status == S.Processing
    ensures Linked(Exchanging(session)) && Resolving(Negotiator(false, session))
    ensures BindPeer(Negotiator(false, session)) == Some(Exchanging(session))
  {
  }

  lemma TrustedIsLinked(session: S.Session)
    requires S.Invariant(session) && session.status == S.Ready
    ensures Linked(Trusted(session))
  {
  }

  // ---- The messages of the handshake, one by one ----

  lemma HonestParts(w: World)
    requires Honest(w)
    ensures LawfulNode(w.nodeA) && LawfulNode(w.nodeB) && w.nodeB.digest == w.nodeA.digest
    ensures w.nodeB.primitives == w.nodeA.primitives
    ensures H.Parsable(w.nodeA.digest, w.idA) && H.Parsable(w.nodeA.digest, w.idB)
  {
  }

  lemma SidesAreOrderly(w: World)
    requires Honest(w)
    ensures LawfulNode(w.nodeA) && LawfulNode(w.nodeB) && w.nodeA.digest == w.nodeB.digest
    ensures
      var h := Sessions(w);
      && Resolving(Negotiator(false, h.prepared)) && Linked(Exchanging(h.answered))
      && Linked(Trusted(h.a)) && Linked(Trusted(h.b))
      && Orderly(Waiting(Negotiator(false, h.prepared))) && Orderly(Talking(Exchanging(h.answered)))
      && Orderly(Talking(Trusted(h.a))) && Orderly(Talking(Trusted(h.b)))
  {
    hide Sessions, Linked, Resolving, S.Invariant, Exchanging, Trusted, Negotiator;
    HonestParts(w);
    var h := Sessions(w);
    SessionsComplete(w);
    SessionsAreSafe(w);
    ExchangingIsLinked(h.prepared);
    ExchangingIsLinked(h.answered);
    TrustedIsLinked(h.a);
    TrustedIsLinked(h.b);
  }

  lemma Started(w: World)
    requires Honest(w)
    ensures Setup(w.nodeA, NEW_MEDIATOR, K.Initiator, w.coinsA)
      == (Some(Handshake.Message(Sessions(w).request)), Negotiator(false, Sessions(w).prepared))
    ensures Setup(w.nodeB, NEW_MEDIATOR, K.Acceptor, w.coinsB).1 == Negotiator(false, Sessions(w).waiting)
  {
    SessionsComplete(w);
    SessionsAreSafe(w);
    Unfolded(w);
    hide S.PrepareSynchronization, Sessions;
  }

  lemma RequestArrives(w: World)
    requires Honest(w)
    ensures
      var h := Sessions(w);
      Deliver(w.nodeB, Unlinked, HandshakeBytes(w.idA, None, Handshake.Message(h.request)), w.coinsB)
      == (Talking(Exchanging(h.answered)), true, [HandshakeSent(Handshake.Message(h.response))])
  {
    hide Sessions, HandshakeBytes, Setup, BindPeer, S.Synchronize, ScheduleReceive, Linked, Resolving;
    hide Exchanging, Negotiator, S.Invariant, Honest;
    HonestParts(w);
    var h := Sessions(w);
    SessionsComplete(w);
    SessionsAreSafe(w);
    Unfolded(w);
    Started(w);
    ExchangingIsLinked(h.waiting);
    Exchanged(w.nodeB, h.waiting, w.idA, None, h.request.message, w.coinsB);
  }

  lemma ResponseArrives(w: World)
    requires Honest(w)
    requires Resolving(Negotiator(false, Sessions(w).prepared))
    ensures
      var h := Sessions(w);
      Deliver(w.nodeA, Waiting(Negotiator(false, h.prepared)),
              HandshakeBytes(w.idB, Some(w.idA), Handshake.Message(h.response)), w.coinsA)
      == (Talking(Trusted(h.a)), true, [HandshakeSent(Handshake.Message(h.confirmation)), ConnectSent])
  {
    hide Sessions, HandshakeBytes, Setup, BindPeer, S.Synchronize, ScheduleReceive, Linked, Resolving;
    hide Exchanging, Negotiator, S.Invariant, Honest;
    HonestParts(w);
    var h := Sessions(w);
    SessionsComplete(w);
    SessionsAreSafe(w);
    Unfolded(w);
    ExchangingIsLinked(h.prepared);
    Exchanged(w.nodeA, h.prepared, w.idB, Some(w.idA), h.response.message, w.coinsA);
    var first := HandshakeSent(h.confirmation.message);
    assert [first] + [ConnectSent] == [first, ConnectSent];
  }

  lemma ConfirmationArrives(w: World)
    requires Honest(w)
    requires Linked(Exchanging(Sessions(w).answered))
    ensures
      var h := Sessions(w);
      Deliver(w.nodeB, Talking(Exchanging(h.answered)),
              HandshakeBytes(w.idA, Some(w.idB), Handshake.Message(h.confirmation)), w.coinsB)
      == (Talking(Trusted(h.b)), true, [])
  {
    hide Sessions, HandshakeBytes, Setup, BindPeer, S.Synchronize, ScheduleReceive, Linked, Resolving;
    hide Exchanging, Negotiator, S.Invariant, Honest;
    HonestParts(w);
    var h := Sessions(w);
    SessionsComplete(w);
    SessionsAreSafe(w);
    Unfolded(w);
    Exchanged(w.nodeB, h.answered, w.idA, Some(w.idB), h.confirmation.message, w.coinsB);
  }

  lemma ApplicationArrives(node: Node, session: S.Session, bytes: seq<byte>, coins: S.Coins)
    requires LawfulNode(node) && Linked(Trusted(session))
    ensures Deliver(node, Talking(Trusted(session)), bytes, coins) == (Talking(Trusted(session)), true, [])
  {
  }

  /** The failing side of sending: when the confirmation cannot be sent, the exchange is closed, and
      the initiator is authorized all the same, although the acceptor has not heard of it. */
  lemma UnsentConfirmation(w: World)
    requires Honest(w)
    requires Linked(Exchanging(Sessions(w).prepared))
    ensures
      var h := Sessions(w);
      ScheduleReceive(w.nodeA, Exchanging(h.prepared),
                      HandshakeBytes(w.idB, Some(w.idA), Handshake.Message(h.response)), Chance(w.coinsA, false, true))
      == (Trusted(h.a), true, [ConnectSent])
  {
    hide Sessions, HandshakeBytes, HandshakeMessage, S.Synchronize, Linked, S.Invariant, Honest, N.Received,
      H.PeekProtocol, ScheduleReceive, Respond;
    HonestParts(w);
    var h := Sessions(w);
    SessionsComplete(w);
    SessionsAreSafe(w);
    Unfolded(w);
    HandshakeArrives(w.nodeA.digest, w.idB, Some(w.idA), h.response.message);
    MessageIsHandshake(w.idB, Some(w.idA), h.response.message);
    HandedOn(w.nodeA, h.prepared, HandshakeBytes(w.idB, Some(w.idA), h.response.message),
             HandshakeMessage(w.idB, Some(w.idA), h.response.message), Chance(w.coinsA, false, true));
    RespondUnsent(h.a, h.confirmation.message, w.coinsA);
  }

  lemma MessageIsHandshake(source: Identifier.Container, to: Option<Identifier.Container>, payload: seq<byte>)
    ensures
      var m := HandshakeMessage(source, to, payload);
      m.kind == N.Handshake && m.header.destination == H.Node && m.payload == payload
  {
  }

  /** A handshake message that the strategy takes is answered, whether or not that can be sent. */
  lemma HandedOn(node: Node, session: S.Session, bytes: seq<byte>, m: N.Message, chance: Chance)
    requires LawfulNode(node) && Linked(Exchanging(session))
    requires H.PeekProtocol(bytes) == Some(H.Protocol.Network) && N.Received(node.digest, bytes) == Some(m)
    requires m.kind == N.Handshake && m.header.destination == H.Node
    requires
      var (next, outcome) := S.Synchronize(node.primitives, node.context, session, m.payload, chance.coins);
      next.status != S.Error && next.role == session.role && outcome.Done?
    ensures
      var (next, outcome) := S.Synchronize(node.primitives, node.context, session, m.payload, chance.coins);
      var (peer, ok, sent) := Respond(Exchanging(next), next, outcome.message, session.role == K.Initiator, chance);
      ScheduleReceive(node, Exchanging(session), bytes, chance)
      == if ok then (peer, true, sent) else (OnExchangeClose(peer, Failure), false, sent)
  {
    hide N.Received, H.PeekProtocol, S.Synchronize, Linked, Respond, OnExchangeClose;
  }

  lemma RespondUnsent(next: S.Session, response: seq<byte>, coins: S.Coins)
    requires next.status == S.Ready && next.role == K.Initiator && response != []
    ensures Respond(Exchanging(next), next, response, true, Chance(coins, false, true))
      == (Trusted(next), true, [ConnectSent])
  {
    assert [] + [ConnectSent] == [ConnectSent];
  }
}
