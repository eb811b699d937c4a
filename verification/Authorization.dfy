/** How a peer gets from the exchange of handshake messages to being authorized: the exchange
    processor, the security mediator and the peer they work for
    (src/Components/MessageControl/ExchangeProcessor.cpp, src/Components/Security/SecurityMediator.cpp,
    src/Components/BryptPeer/BryptPeer.cpp). The authorized sink is taken to be alive. */
module Authorization {
  import opened Bytes
  import Identifier
  import H = MessageHeader
  import N = NetworkMessage
  import K = KeyStore
  import S = Strategy

  datatype State = Unauthorized | Authorized | Flagged

  datatype ProcessStage = Synchronization | Invalid

  datatype ExchangeStatus = Success | Failure

  /** Where a peer forwards the messages it receives. */
  datatype Sink = NoSink | ExchangeSink | AuthorizedSink

  /** An exchange processor owns the strategy until that is ready. An initiator's has a protocol to
      send the first application message with. */
  datatype Processor = Processor(stage: ProcessStage, strategy: Option<S.Session>, connects: bool)

  datatype Mediator = Mediator(
    state: State,
    bound: bool,
    strategy: Option<S.Session>,
    processor: Option<Processor>)

  datatype Peer = Peer(mediator: Mediator, receiver: Sink)

  const NEW_MEDIATOR: Mediator := Mediator(Unauthorized, false, None, None)

  /** What does not change while messages are handled. */
  datatype Node = Node(
    digest: Identifier.Digest,
    primitives: K.Primitives,
    context: S.Context)

  ghost predicate LawfulNode(node: Node) {
    K.Lawful(node.primitives)
  }

  /** What the environment decides about one call: randomness, and whether messages can be sent. */
  datatype Chance = Chance(coins: S.Coins, sends: bool, connects: bool)

  datatype Sent = HandshakeSent(payload: seq<byte>) | ConnectSent

  // ---- The mediator ----

  /** Nothing happens as long as the mediator has no peer. */
  function OnExchangeClose(peer: Peer, status: ExchangeStatus): Peer {
    if !peer.mediator.bound then peer
    else match status
      case Success => Peer(peer.mediator.(state := Authorized, processor := None), AuthorizedSink)
      case Failure => Peer(peer.mediator.(state := Unauthorized, processor := None), NoSink)
  }

  function OnFulfilledStrategy(peer: Peer, strategy: S.Session): Peer {
    peer.(mediator := peer.mediator.(
      strategy := Some(strategy),
      processor := match peer.mediator.processor
                   case None => None
                   case Some(processor) => Some(processor.(strategy := None))))
  }

  /** Binding throws, which is None here, when there is nothing to negotiate with and when a peer is
      bound already. (The peer itself is never null where this is called.) */
  function BindPeer(mediator: Mediator): Option<Peer> {
    if mediator.strategy == None && mediator.processor == None then None
    else if mediator.bound then None
    else Some(Peer(mediator.(bound := true), if mediator.processor == None then NoSink else ExchangeSink))
  }

  /** A mediator with an exchange processor for a role, and the request that is to be sent. The peer, if
      there is one, is only told when the preparation fails. */
  function SetupOn(node: Node, peer: Peer, role: K.Role, coins: S.Coins): (r: (Option<seq<byte>>, Peer))
    requires LawfulNode(node)
  {
    if peer.mediator.strategy.Some? || peer.mediator.processor.Some? then (None, peer)
    else
      var (session, outcome) := S.PrepareSynchronization(node.primitives, node.context, S.New(role), coins);
      var processor := Processor(if session.status == S.Error then Invalid else Synchronization, Some(session),
                                 role == K.Initiator);
      var ready := peer.(mediator := peer.mediator.(processor := Some(processor)));
      if session.status == S.Error then (None, OnExchangeClose(ready, Failure))
      else (Some(if outcome.Done? then outcome.message else []), ready)
  }

  /** The same for a mediator that has no peer yet, which is how mediators are set up. */
  function Setup(node: Node, mediator: Mediator, role: K.Role, coins: S.Coins): (r: (Option<seq<byte>>, Mediator))
    requires LawfulNode(node)
  {
    var (request, peer) := SetupOn(node, Peer(mediator, NoSink), role, coins);
    (request, peer.mediator)
  }

  // ---- The processor ----

  /** Some bytes reach the exchange processor of a peer. The second result is what the processor
      returns, the third what it gives to the network. */
  function CollectMessage(node: Node, peer: Peer, bytes: seq<byte>, chance: Chance): (r: (Peer, bool, seq<Sent>))
    requires LawfulNode(node) && peer.mediator.processor.Some?
  {
    var processor := peer.mediator.processor.value;
    if processor.stage == Invalid then (peer, false, [])
    else match H.PeekProtocol(bytes)
      case None => (peer, false, [])
      case Some(protocol) =>
        if protocol != H.Protocol.Network then
          (peer.(mediator := peer.mediator.(processor := Some(processor.(stage := Invalid)))), false, [])
        else match N.Received(node.digest, bytes)
          case None => (peer, false, [])
          case Some(message) =>
            if message.kind != N.Handshake then (peer, false, []) else HandleMessage(node, peer, message, chance)
  }

  /** A failure is reported to the mediator. */
  function HandleMessage(node: Node, peer: Peer, message: N.Message, chance: Chance): (r: (Peer, bool, seq<Sent>))
    requires LawfulNode(node) && peer.mediator.processor.Some?
  {
    var (next, ok, sent) := HandleSynchronization(node, peer, message, chance);
    if ok then (next, true, sent) else (OnExchangeClose(next, Failure), false, sent)
  }

  function HandleSynchronization(node: Node, peer: Peer, message: N.Message, chance: Chance)
    : (r: (Peer, bool, seq<Sent>))
    requires LawfulNode(node) && peer.mediator.processor.Some?
  {
    var processor := peer.mediator.processor.value;
    if processor.strategy == None then (peer, false, [])
    else
      var (session, outcome) :=
        S.Synchronize(node.primitives, node.context, processor.strategy.value, message.payload, chance.coins);
      var updated := peer.(mediator := peer.mediator.(processor := Some(processor.(strategy := Some(session)))));
      if session.status == S.Error || !outcome.Done? then (updated, false, [])
      else if message.header.destination != H.Node then (updated, false, [])
      else Respond(updated, session, outcome.message, processor.connects, chance)
  }

  /** Sending the response and, when the strategy is ready, handing it over. A response that cannot
      be sent closes the exchange, but handling the message goes on. */
  function Respond(peer: Peer, session: S.Session, response: seq<byte>, connects: bool, chance: Chance)
    : (r: (Peer, bool, seq<Sent>))
  {
    var sent := if response != [] && chance.sends then [HandshakeSent(response)] else [];
    var closed := if response != [] && !chance.sends then OnExchangeClose(peer, Failure) else peer;
    if session.status != S.Ready then (closed, true, sent)
    else
      var fulfilled := OnFulfilledStrategy(closed, session);
      if connects && !chance.connects then (fulfilled, false, sent)
      else (OnExchangeClose(fulfilled, Success), true, if connects then sent + [ConnectSent] else sent)
  }

  // ---- Receiving ----

  /** What a peer does with some bytes that arrive over one of its endpoints. The authorized sink,
      which does not touch the mediator, is not part of this. */
  function ScheduleReceive(node: Node, peer: Peer, bytes: seq<byte>, chance: Chance): (r: (Peer, bool, seq<Sent>))
    requires LawfulNode(node) && Linked(peer)
  {
    match peer.receiver
    case NoSink => (peer, false, [])
    case AuthorizedSink => (peer, true, [])
    case ExchangeSink => CollectMessage(node, peer, bytes, chance)
  }

  // ---- The invariant ----

  /** The strategy of a running exchange. */
  ghost predicate Negotiating(processor: Processor) {
    && processor.strategy.Some? && S.Invariant(processor.strategy.value)
    && processor.strategy.value.status == S.Processing
    && processor.connects == (processor.strategy.value.role == K.Initiator)
  }

  /** A strategy that is ready is complete and holds its keys. */
  ghost predicate HoldsReady(strategy: Option<S.Session>) {
    strategy.Some? && S.Invariant(strategy.value) && strategy.value.status == S.Ready
  }

  /** A peer receives with the exchange processor exactly while the mediator owns one, and with the
      authorized sink exactly when it is authorized; then the mediator holds a ready strategy. */
  ghost predicate Linked(peer: Peer) {
    && peer.mediator.bound
    && (peer.receiver == ExchangeSink <==> peer.mediator.processor.Some?)
    && (peer.receiver == AuthorizedSink <==> peer.mediator.state == Authorized)
    && (peer.mediator.state == Authorized ==> HoldsReady(peer.mediator.strategy))
    && (peer.mediator.processor.Some? ==> Negotiating(peer.mediator.processor.value))
  }

  /** A mediator that waits for the peer at an address to answer. */
  ghost predicate Resolving(mediator: Mediator) {
    && !mediator.bound && mediator.state == Unauthorized && mediator.strategy == None
    && mediator.processor.Some? && mediator.processor.value.stage == Synchronization
    && Negotiating(mediator.processor.value)
  }

  /** What every operation of a mediator keeps: it is new, or waits for its peer, or is linked to it. The
      exception is one whose preparation failed, which nothing makes authorized any more. */
  ghost predicate Sound(peer: Peer) {
    if Spoiled(peer.mediator) then peer.receiver != AuthorizedSink
    else if peer.mediator.bound then Linked(peer)
    else peer.receiver == NoSink && (peer.mediator == NEW_MEDIATOR || Resolving(peer.mediator))
  }

  predicate Spoiled(mediator: Mediator) {
    && mediator.state == Unauthorized && mediator.strategy == None
    && mediator.processor.Some? && mediator.processor.value.stage == Invalid
  }

  lemma SetupKeepsSound(node: Node, peer: Peer, role: K.Role, coins: S.Coins)
    requires LawfulNode(node) && Sound(peer)
    requires !peer.mediator.bound || peer.mediator.strategy.Some? || peer.mediator.processor.Some?
    ensures
      var (request, next) := SetupOn(node, peer, role, coins);
      && Sound(next)
      && (request.Some? ==> Resolving(next.mediator))
      && (request == None ==> next == peer || Spoiled(next.mediator))
  {
    S.NewIsSafe(role);
    S.StepIsSafe(node.primitives, node.context, S.New(role), S.Prepare(coins));
  }

  lemma BindingKeepsSound(mediator: Mediator)
    requires Sound(Peer(mediator, NoSink)) && BindPeer(mediator).Some?
    ensures Sound(BindPeer(mediator).value)
  {
  }

  lemma ClosingKeepsSound(peer: Peer, status: ExchangeStatus)
    requires Sound(peer) && (status == Success ==> HoldsReady(peer.mediator.strategy))
    ensures Sound(OnExchangeClose(peer, status))
  {
  }

  lemma CollectingKeepsSound(node: Node, peer: Peer, bytes: seq<byte>, chance: Chance)
    requires LawfulNode(node) && Sound(peer) && peer.mediator.bound && peer.mediator.processor.Some?
    ensures Sound(CollectMessage(node, peer, bytes, chance).0)
  {
    hide N.Received, H.PeekProtocol, Respond;
    if !Spoiled(peer.mediator) { ReceiveKeepsLink(node, peer, bytes, chance); }
  }

  /** A mediator can be set up once, and then be bound: none of the throws is reached. */
  lemma SetupResolves(node: Node, role: K.Role, coins: S.Coins)
    requires LawfulNode(node)
    ensures
      var (request, mediator) := Setup(node, NEW_MEDIATOR, role, coins);
      && (request == None <==> role == K.Initiator && (coins.seed == None || node.context.publicKey == []))
      && (request.Some? ==> Resolving(mediator))
      && (request == None ==> Spoiled(mediator) && !mediator.bound)
  {
    S.NewIsSafe(role);
    S.StepIsSafe(node.primitives, node.context, S.New(role), S.Prepare(coins));
  }

  lemma BindingLinks(mediator: Mediator)
    requires Resolving(mediator)
    ensures BindPeer(mediator).Some? && Linked(BindPeer(mediator).value)
    ensures BindPeer(mediator).value.receiver == ExchangeSink
  {
  }

  /** There is only one peer for a mediator, and none for one that was never set up. */
  lemma BoundOnce(mediator: Mediator)
    ensures BindPeer(mediator).Some? ==> BindPeer(BindPeer(mediator).value.mediator) == None
    ensures mediator.bound || mediator == NEW_MEDIATOR ==> BindPeer(mediator) == None
    ensures BindPeer(mediator) == None && !mediator.bound ==> mediator.strategy == None && mediator.processor == None
  {
  }

  /** Without a peer, closing has no effect; and a peer whose exchange was closed takes no more messages. */
  lemma ClosedIsFinal(node: Node, peer: Peer, status: ExchangeStatus, bytes: seq<byte>, chance: Chance)
    requires LawfulNode(node)
    ensures !peer.mediator.bound ==> OnExchangeClose(peer, status) == peer
    ensures Linked(peer) && peer.mediator.processor == None && peer.mediator.state != Authorized ==>
      ScheduleReceive(node, peer, bytes, chance) == (peer, false, [])
  {
  }

  lemma RespondKeepsLink(peer: Peer, session: S.Session, response: seq<byte>, connects: bool, chance: Chance)
    requires peer.mediator.bound && S.Invariant(session) && session.status != S.Error
    requires peer.receiver == ExchangeSink && peer.mediator.state != Authorized
    requires peer.mediator.processor.Some? && peer.mediator.processor.value.strategy == Some(session)
    requires connects == (session.role == K.Initiator) == peer.mediator.processor.value.connects
    ensures
      var (next, ok, sent) := Respond(peer, session, response, connects, chance);
      && (ok ==> Linked(next))
      && Linked(OnExchangeClose(next, Failure))
  {
  }

  /** Every message keeps the link in order, also when a send fails half way. */
  lemma ReceiveKeepsLink(node: Node, peer: Peer, bytes: seq<byte>, chance: Chance)
    requires LawfulNode(node) && Linked(peer)
    ensures Linked(ScheduleReceive(node, peer, bytes, chance).0)
  {
    hide N.Received, H.PeekProtocol, Respond;
    if peer.receiver == ExchangeSink {
      var processor := peer.mediator.processor.value;
      match N.Received(node.digest, bytes) {
        case None =>
        case Some(message) =>
          S.StepIsSafe(node.primitives, node.context, processor.strategy.value,
                       S.Receive(message.payload, chance.coins));
          var (session, outcome) := S.Synchronize(node.primitives, node.context, processor.strategy.value,
                                                  message.payload, chance.coins);
          var updated := peer.(mediator := peer.mediator.(processor := Some(processor.(strategy := Some(session)))));
          if session.status != S.Error {
            RespondKeepsLink(updated, session, outcome.message, processor.connects, chance);
          }
      }
    }
  }

  /** The bytes hold a handshake message for this node that makes the strategy ready. */
  ghost predicate MakesReady(node: Node, strategy: S.Session, bytes: seq<byte>, coins: S.Coins)
    requires LawfulNode(node)
  {
    && H.PeekProtocol(bytes) == Some(H.Protocol.Network)
    && match N.Received(node.digest, bytes)
       case None => false
       case Some(message) =>
         && message.kind == N.Handshake && message.header.destination == H.Node
         && S.Synchronize(node.primitives, node.context, strategy, message.payload, coins).0.status == S.Ready
  }

  /** Only a message that makes the strategy ready authorizes a peer, even if its answer could not
      be sent; the initiator also has to get its first application message out. */
  lemma AuthorizedByReadiness(node: Node, peer: Peer, bytes: seq<byte>, chance: Chance)
    requires LawfulNode(node) && Linked(peer) && peer.receiver == ExchangeSink
    ensures
      var processor := peer.mediator.processor.value;
      ScheduleReceive(node, peer, bytes, chance).0.mediator.state == Authorized <==>
        && processor.stage == Synchronization
        && MakesReady(node, processor.strategy.value, bytes, chance.coins)
        && (processor.connects ==> chance.connects)
  {
    hide N.Received, H.PeekProtocol, S.Synchronize;
    var processor := peer.mediator.processor.value;
    match N.Received(node.digest, bytes) {
      case None =>
      case Some(message) =>
        S.StepIsSafe(node.primitives, node.context, processor.strategy.value,
                     S.Receive(message.payload, chance.coins));
    }
  }

  /** The session and the answer that a handshake message for this node makes of a strategy. */
  ghost function Answered(node: Node, strategy: S.Session, bytes: seq<byte>, coins: S.Coins)
    : Option<(S.Session, seq<byte>)>
    requires LawfulNode(node)
  {
    match N.Received(node.digest, bytes)
    case None => None
    case Some(message) =>
      var (next, outcome) := S.Synchronize(node.primitives, node.context, strategy, message.payload, coins);
      if H.PeekProtocol(bytes) == Some(H.Protocol.Network) && message.kind == N.Handshake
         && message.header.destination == H.Node && next.status != S.Error && outcome.Done?
      then Some((next, outcome.message))
      else None
  }

  /** A bound mediator after an exchange, with the strategy that it holds, and the peer it is bound to. */
  function After(state: State, strategy: Option<S.Session>): Peer {
    Peer(Mediator(state, true, strategy, None), if state == Authorized then AuthorizedSink else NoSink)
  }

  /** Everything that bytes can do to a peer in exchange. What is no handshake message changes nothing, but for
      an application message, which makes the processor invalid; a handshake message that the strategy turns
      down, or that is not for this node, closes the exchange. Otherwise the answer is sent, if it can be, and
      the exchange goes on, is closed, or hands its strategy over, and then the peer is authorized unless an
      initiator cannot send its first application message. */
  lemma ReceiveOutcome(node: Node, peer: Peer, bytes: seq<byte>, chance: Chance)
    requires LawfulNode(node) && Linked(peer) && peer.receiver == ExchangeSink
    requires peer.mediator.processor.value.stage == Synchronization
    ensures
      var processor := peer.mediator.processor.value;
      var outcome := ScheduleReceive(node, peer, bytes, chance);
      if H.PeekProtocol(bytes) == Some(H.Protocol.Application) then
        outcome == (peer.(mediator := peer.mediator.(processor := Some(processor.(stage := Invalid)))), false, [])
      else if H.PeekProtocol(bytes) == None || N.Received(node.digest, bytes) == None
              || N.Received(node.digest, bytes).value.kind != N.Handshake then
        outcome == (peer, false, [])
      else match Answered(node, processor.strategy.value, bytes, chance.coins)
        case None => outcome == (After(Unauthorized, peer.mediator.strategy), false, [])
        case Some((session, answer)) =>
          var sent := if answer != [] && chance.sends then [HandshakeSent(answer)] else [];
          if session.status == S.Ready then
            if !processor.connects then outcome == (After(Authorized, Some(session)), true, sent)
            else if chance.connects then outcome == (After(Authorized, Some(session)), true, sent + [ConnectSent])
            else outcome == (After(Unauthorized, Some(session)), false, sent)
          else if answer != [] && !chance.sends then
            outcome == (After(Unauthorized, peer.mediator.strategy), true, sent)
          else
            outcome == (peer.(mediator := peer.mediator.(processor := Some(processor.(strategy := Some(session))))),
                        true, sent)
  {
    hide N.Received, H.PeekProtocol, S.Synchronize;
    var processor := peer.mediator.processor.value;
    NoOtherProtocol(bytes);
    match N.Received(node.digest, bytes) {
      case None =>
      case Some(message) =>
        S.StepIsSafe(node.primitives, node.context, processor.strategy.value,
                     S.Receive(message.payload, chance.coins));
    }
  }

  lemma NoOtherProtocol(bytes: seq<byte>)
    ensures H.PeekProtocol(bytes) != Some(H.Protocol.Invalid)
  {
  }

  /** An answer that cannot be sent closes the exchange, but the message is still handled to its end: the
      peer is authorized exactly if the strategy got ready and, for an initiator, the first application
      message went out, although the other side never gets the answer. Otherwise it stays closed. */
  lemma UnsentAnswer(node: Node, peer: Peer, bytes: seq<byte>, chance: Chance)
    requires LawfulNode(node) && Linked(peer) && peer.receiver == ExchangeSink
    requires peer.mediator.processor.value.stage == Synchronization && !chance.sends
    ensures
      var processor := peer.mediator.processor.value;
      var (next, ok, sent) := ScheduleReceive(node, peer, bytes, chance);
      match Answered(node, processor.strategy.value, bytes, chance.coins)
      case None => next.mediator.state != Authorized && sent == []
      case Some((session, answer)) =>
        answer != [] ==>
          && (next.mediator.state == Authorized <==>
                session.status == S.Ready && (processor.connects ==> chance.connects))
          && (next.mediator.state != Authorized ==>
                next.receiver == NoSink && next.mediator.processor == None && sent == [])
          && HandshakeSent(answer) !in sent
  {
    hide N.Received, H.PeekProtocol, S.Synchronize;
    var processor := peer.mediator.processor.value;
    match N.Received(node.digest, bytes) {
      case None =>
      case Some(message) =>
        S.StepIsSafe(node.primitives, node.context, processor.strategy.value,
                     S.Receive(message.payload, chance.coins));
    }
  }

  /** An application message that reaches the exchange processor ends the exchange for good, without
      the mediator hearing of it: the peer neither is nor ever gets authorized. */
  lemma InvalidIsFinal(node: Node, peer: Peer, bytes: seq<byte>, chance: Chance)
    requires LawfulNode(node) && Linked(peer) && peer.receiver == ExchangeSink
    ensures H.PeekProtocol(bytes) == Some(H.Protocol.Application) ==>
      var next := ScheduleReceive(node, peer, bytes, chance).0;
      next.mediator.processor.Some? && next.mediator.processor.value.stage == Invalid
    ensures peer.mediator.processor.value.stage == Invalid ==>
      ScheduleReceive(node, peer, bytes, chance) == (peer, false, [])
  {
  }
}
