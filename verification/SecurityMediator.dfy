/** The peer, its mediator and the exchange processor as the objects of the code, which call each
    other back. */
module SecurityMediator {
  import opened Bytes
  import opened Authorization
  import H = MessageHeader
  import N = NetworkMessage
  import K = KeyStore
  import S = Strategy

  class BryptPeer {
    var receiver: Sink

    constructor ()
      ensures receiver == NoSink
    {
      receiver := NoSink;
    }

    method SetReceiver(sink: Sink)
      modifies this
      ensures receiver == sink
    {
      receiver := sink;
    }
  }

  class SecurityMediator {
    const node: Node
    var state: State
    var peer: BryptPeer?
    var strategy: Option<S.Session>
    var processor: ExchangeProcessor?

    function Snapshot(): Mediator
      reads this, processor
    {
      Mediator(state, peer != null, strategy, if processor == null then None else Some(processor.Snapshot()))
    }

    /** The mediator together with the peer that it is bound to. */
    function Value(): Peer
      reads this, processor, peer
    {
      Peer(Snapshot(), if peer == null then NoSink else peer.receiver)
    }

    /** The mediator and its peer are in order, and the processor calls back to nobody else. */
    ghost predicate Valid()
      reads this, processor, peer
    {
      && LawfulNode(node) && Sound(Value())
      && (processor != null ==> processor.observer == this)
    }

    constructor (node: Node)
      requires LawfulNode(node)
      ensures this.node == node && Value() == Peer(NEW_MEDIATOR, NoSink) && peer == null && processor == null
      ensures Valid()
    {
      this.node := node;
      state, peer, strategy, processor := Unauthorized, null, None, null;
    }

    method OnExchangeClose(status: ExchangeStatus)
      modifies `state, `processor, peer
      ensures Value() == Authorization.OnExchangeClose(old(Value()), status)
      ensures processor == null || processor == old(processor)
      ensures old(Valid()) && (status == Success ==> HoldsReady(strategy)) ==> Valid()
    {
      ghost var before := Value();
      if Sound(before) && (status == Success ==> HoldsReady(strategy)) { ClosingKeepsSound(before, status); }
      if peer == null { return; }
      match status {
        case Success =>
          state := Authorized;
          peer.SetReceiver(AuthorizedSink);
        case Failure =>
          state := Unauthorized;
          peer.SetReceiver(NoSink);
      }
      processor := null;
    }

    method OnFulfilledStrategy(s: S.Session)
      modifies `strategy
      ensures strategy == Some(s)
    {
      strategy := Some(s);
    }

    /** Not bound means that the code throws. */
    method Bind(p: BryptPeer) returns (bound: bool)
      requires Valid() && p.receiver == NoSink
      modifies `peer, p
      ensures bound <==> BindPeer(old(Snapshot())).Some?
      ensures bound ==> peer == p && Value() == BindPeer(old(Snapshot())).value
      ensures !bound ==> peer == old(peer) && p.receiver == NoSink
      ensures Valid()
      ensures old(Resolving(Snapshot())) ==> bound && Linked(Value())
    {
      if BindPeer(Snapshot()).Some? { BindingKeepsSound(Snapshot()); }
      if strategy == None && processor == null { return false; }
      if peer != null { return false; }
      peer := p;
      if processor != null { p.SetReceiver(ExchangeSink); }
      return true;
    }

    method SetupExchange(role: K.Role, coins: S.Coins) returns (request: Option<seq<byte>>)
      requires Valid()
      modifies `state, `processor, peer
      ensures (request, Value()) == SetupOn(node, old(Value()), role, coins)
      ensures processor == null || processor == old(processor) || (fresh(processor) && processor.observer == this)
      ensures peer == null || old(strategy.Some? || processor != null) ==> Valid()
      ensures request.Some? && peer == null ==> Resolving(Snapshot())
    {
      hide S.PrepareSynchronization, Sound, Resolving;
      if peer == null || strategy.Some? || processor != null { SetupKeepsSound(node, Value(), role, coins); }
      if strategy.Some? { return None; }
      if processor != null { return None; }
      var exchange := new ExchangeProcessor(this, S.New(role), role == K.Initiator);
      processor := exchange;
      request := exchange.Prepare(coins);
    }
  }

  class ExchangeProcessor {
    const observer: SecurityMediator
    const connects: bool
    var stage: ProcessStage
    var strategy: Option<S.Session>

    function Snapshot(): Processor
      reads this
    {
      Processor(stage, strategy, connects)
    }

    constructor (observer: SecurityMediator, s: S.Session, connects: bool)
      ensures this.observer == observer && Snapshot() == Processor(Synchronization, Some(s), connects)
    {
      this.observer, this.connects := observer, connects;
      stage, strategy := Synchronization, Some(s);
    }

    /** The mediator is told about a failure and, if it is bound, closes the exchange. */
    method Prepare(coins: S.Coins) returns (request: Option<seq<byte>>)
      requires observer.processor == this && strategy.Some?
      modifies this, observer`state, observer`processor, observer.peer
      ensures observer.processor == null || observer.processor == this
      ensures
        var (session, outcome) :=
          S.PrepareSynchronization(observer.node.primitives, observer.node.context, old(strategy.value), coins);
        var failed := session.status == S.Error;
        && strategy == Some(session)
        && stage == (if failed then Invalid else old(stage))
        && request == (if failed then None else Some(if outcome.Done? then outcome.message else []))
        && var kept := old(observer.Value()).(mediator := old(observer.Snapshot()).(processor := Some(Snapshot())));
           observer.Value() == if failed then Authorization.OnExchangeClose(kept, Failure) else kept
    {
      hide S.PrepareSynchronization;
      var (session, outcome) :=
        S.PrepareSynchronization(observer.node.primitives, observer.node.context, strategy.value, coins);
      strategy := Some(session);
      if session.status == S.Error {
        stage := Invalid;
        observer.OnExchangeClose(Failure);
        return None;
      }
      return Some(if outcome.Done? then outcome.message else []);
    }

    method CollectMessage(peer: BryptPeer, bytes: seq<byte>, chance: Chance) returns (ok: bool, sent: seq<Sent>)
      requires observer.Valid() && observer.processor == this && observer.peer == peer
      modifies this, observer, peer
      ensures (observer.Value(), ok, sent)
        == Authorization.CollectMessage(observer.node, old(observer.Value()), bytes, chance)
      ensures observer.Valid() && observer.peer == peer
      ensures observer.state == Authorized <==> peer.receiver == AuthorizedSink
      ensures observer.state == Authorized ==> HoldsReady(observer.strategy) && observer.processor == null
    {
      hide H.PeekProtocol, N.Received, Authorization.HandleMessage, Negotiating, S.Invariant;
      CollectingKeepsSound(observer.node, observer.Value(), bytes, chance);
      if stage == Invalid { return false, []; }
      var protocol := H.PeekProtocol(bytes);
      if protocol == None { return false, []; }
      if protocol != Some(H.Protocol.Network) {
        stage := Invalid;
        return false, [];
      }
      var message := N.ReceiveDecoded(observer.node.digest, bytes);
      if message == None || message.value.kind != N.Handshake { return false, []; }
      ok, sent := HandleMessage(peer, message.value, chance);
    }

    method HandleMessage(peer: BryptPeer, message: N.Message, chance: Chance) returns (ok: bool, sent: seq<Sent>)
      requires LawfulNode(observer.node) && observer.processor == this && observer.peer == peer
      modifies this, observer, peer
      ensures (observer.Value(), ok, sent)
        == Authorization.HandleMessage(observer.node, old(observer.Value()), message, chance)
      ensures observer.peer == peer && (observer.processor == null || observer.processor == this)
    {
      hide Authorization.HandleSynchronization;
      ok, sent := HandleSynchronizationMessage(peer, message, chance);
      if !ok { observer.OnExchangeClose(Failure); }
    }

    method HandleSynchronizationMessage(peer: BryptPeer, message: N.Message, chance: Chance)
      returns (ok: bool, sent: seq<Sent>)
      requires LawfulNode(observer.node) && observer.processor == this && observer.peer == peer
      modifies this, observer, peer
      ensures observer.peer == peer && (observer.processor == null || observer.processor == this)
      ensures (observer.Value(), ok, sent)
        == HandleSynchronization(observer.node, old(observer.Value()), message, chance)
    {
      hide S.Synchronize;
      if strategy == None { return false, []; }
      var (session, outcome) :=
        S.Synchronize(observer.node.primitives, observer.node.context, strategy.value, message.payload, chance.coins);
      strategy := Some(session);
      if session.status == S.Error || !outcome.Done? { return false, []; }
      if message.header.destination != H.Node { return false, []; }
      sent := [];
      if outcome.message != [] {
        if chance.sends {
          sent := [HandshakeSent(outcome.message)];
        } else {
          observer.OnExchangeClose(Failure);
        }
      }
      if session.status != S.Ready { return true, sent; }
      observer.OnFulfilledStrategy(session);
      strategy := None;
      if connects {
        if !chance.connects { return false, sent; }
        sent := sent + [ConnectSent];
      }
      observer.OnExchangeClose(Success);
      return true, sent;
    }
  }
}
