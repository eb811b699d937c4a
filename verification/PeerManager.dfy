/** The peers of a node and the addresses that it is about to connect to
    (src/Components/BryptPeer/PeerManager.cpp). */
module PeerManager {
  import opened Bytes
  import opened Authorization
  import K = KeyStore
  import S = Strategy

  /** An address is only compared here. */
  datatype Address = Address(uri: Text)

  datatype Request = Heartbeat | Exchange(payload: seq<byte>)

  /** Linking throws for an identifier that no peer may have, and fails without a strategy. */
  datatype LinkResult = Threw | NotLinked | Linked

  datatype Peers = Peers(peers: map<nat, Peer>, resolving: map<Address, Mediator>)

  const NO_PEERS: Peers := Peers(map[], map[])

  // ---- Operations ----

  function Declaring(node: Node, m: Peers, address: Address, identifier: Option<nat>, coins: S.Coins)
    : (r: (Peers, Option<Request>))
    requires LawfulNode(node)
  {
    if address in m.resolving then (m, None)
    else match identifier
      case Some(id) => (m, if id in m.peers then Some(Heartbeat) else None)
      case None =>
        var (request, mediator) := Setup(node, NEW_MEDIATOR, K.Initiator, coins);
        match request
        case None => (m, None)
        case Some(payload) => (m.(resolving := m.resolving[address := mediator]), Some(Exchange(payload)))
  }

  function Undeclaring(m: Peers, address: Address): Peers {
    m.(resolving := m.resolving - {address})
  }

  function Linking(node: Node, m: Peers, identifier: nat, address: Address, coins: S.Coins)
    : (r: (Peers, LinkResult))
    requires LawfulNode(node)
  {
    if identifier in m.peers then (Undeclaring(m, address), Linked)
    else if identifier == 0 then (m, Threw)
    else if address in m.resolving then
      Attached(Undeclaring(m, address), identifier, m.resolving[address])
    else
      var (request, mediator) := Setup(node, NEW_MEDIATOR, K.Acceptor, coins);
      if request == None then (m, NotLinked) else Attached(m, identifier, mediator)
  }

  function Attached(m: Peers, identifier: nat, mediator: Mediator): (Peers, LinkResult) {
    match BindPeer(mediator)
    case None => (m, Threw)
    case Some(peer) => (m.(peers := m.peers[identifier := peer]), Linked)
  }

  /** Bytes from a tracked peer. */
  function Receive(node: Node, m: Peers, identifier: nat, bytes: seq<byte>, chance: Chance): (r: (Peers, seq<Sent>))
    requires LawfulNode(node) && Valid(m)
  {
    if identifier !in m.peers then (m, [])
    else
      var (peer, _, sent) := ScheduleReceive(node, m.peers[identifier], bytes, chance);
      (m.(peers := m.peers[identifier := peer]), sent)
  }

  // ---- The invariant of every run ----

  ghost predicate Valid(m: Peers) {
    && 0 !in m.peers
    && (forall id <- m.peers :: Authorization.Linked(m.peers[id]))
    && (forall address <- m.resolving :: Resolving(m.resolving[address]))
  }

  datatype Operation =
    | Declare(address: Address, known: Option<nat>, coins: S.Coins)
    | Undeclare(address: Address)
    | Link(identifier: nat, address: Address, coins: S.Coins)
    | Deliver(identifier: nat, bytes: seq<byte>, chance: Chance)

  function Apply(node: Node, m: Peers, op: Operation): Peers
    requires LawfulNode(node) && Valid(m)
  {
    match op
    case Declare(address, identifier, coins) => Declaring(node, m, address, identifier, coins).0
    case Undeclare(address) => Undeclaring(m, address)
    case Link(identifier, address, coins) => Linking(node, m, identifier, address, coins).0
    case Deliver(identifier, bytes, chance) => Receive(node, m, identifier, bytes, chance).0
  }

  lemma OperationKeepsValid(node: Node, m: Peers, op: Operation)
    requires LawfulNode(node) && Valid(m)
    ensures Valid(Apply(node, m, op))
  {
    hide Authorization.Linked, Resolving, Setup, ScheduleReceive, BindPeer;
    match op {
      case Declare(address, identifier, coins) => SetupResolves(node, K.Initiator, coins);
      case Undeclare(address) =>
      case Link(identifier, address, coins) => LinkNeverThrows(node, m, identifier, address, coins);
      case Deliver(identifier, bytes, chance) =>
        if identifier in m.peers { ReceiveKeepsLink(node, m.peers[identifier], bytes, chance); }
    }
  }

  /** A mediator that is attached has been set up and was never bound, so linking a peer under a
      valid identifier always succeeds; the new peer receives with its exchange processor. */
  lemma LinkNeverThrows(node: Node, m: Peers, identifier: nat, address: Address, coins: S.Coins)
    requires LawfulNode(node) && Valid(m)
    ensures
      var (next, result) := Linking(node, m, identifier, address, coins);
      && Valid(next)
      && (result == Threw <==> identifier == 0)
      && result != NotLinked
      && (identifier != 0 ==> identifier in next.peers && address !in next.resolving)
      && (identifier != 0 && identifier !in m.peers ==> next.peers[identifier].receiver == ExchangeSink)
      && (forall id <- m.peers :: id in next.peers && next.peers[id] == m.peers[id])
  {
    hide Authorization.Linked, Resolving, Setup, BindPeer;
    if identifier !in m.peers && identifier != 0 {
      if address in m.resolving {
        BindingLinks(m.resolving[address]);
      } else {
        SetupResolves(node, K.Acceptor, coins);
        BindingLinks(Setup(node, NEW_MEDIATOR, K.Acceptor, coins).1);
      }
    }
  }

  /** An unknown peer at a new address gets a mediator that waits with a prepared initiator, whose request is
      what is to be sent; only a missing seed or key prevents that. Everything else stays as it is. */
  lemma DeclaredWaits(node: Node, m: Peers, address: Address, coins: S.Coins)
    requires LawfulNode(node) && Valid(m) && address !in m.resolving
    ensures
      var (next, request) := Declaring(node, m, address, None, coins);
      if coins.seed == None || node.context.publicKey == [] then next == m && request == None
      else
        var payload := S.TYPE + coins.seed.value + node.context.publicKey;
        && request == Some(Exchange(payload)) && next.peers == m.peers
        && next.resolving == m.resolving[address := WaitingMediator(
             S.Session(K.Initiator, S.Processing, 0, payload, K.EMPTY.(seed := K.EMPTY.seed + coins.seed.value)))]
  {
    if coins.seed.Some? {
      var payload := S.TYPE + coins.seed.value + node.context.publicKey;
      assert [] + payload == payload;
    }
  }

  /** A known identifier asks for a heartbeat exactly if it is tracked; an address that is being resolved is not
      declared again. Neither changes anything. */
  lemma DeclaredAgain(node: Node, m: Peers, address: Address, identifier: Option<nat>, coins: S.Coins)
    requires LawfulNode(node) && (address in m.resolving || identifier.Some?)
    ensures Declaring(node, m, address, identifier, coins)
      == (m, if address !in m.resolving && identifier.value in m.peers then Some(Heartbeat) else None)
  {
  }

  /** A mediator without a peer, whose exchange processor has this strategy. */
  function WaitingMediator(session: S.Session): Mediator {
    Mediator(Unauthorized, false, None, Some(Processor(Synchronization, Some(session), session.role == K.Initiator)))
  }

  /** A new peer gets the very mediator that waited at its address, which waits no longer, or else one that
      accepts. No other peer and no other address is touched. */
  lemma LinkedAs(node: Node, m: Peers, identifier: nat, address: Address, coins: S.Coins)
    requires LawfulNode(node) && Valid(m) && identifier != 0 && identifier !in m.peers
    ensures
      var (next, result) := Linking(node, m, identifier, address, coins);
      var mediator := if address in m.resolving then m.resolving[address] else WaitingMediator(S.New(K.Acceptor));
      && result == Linked
      && next.peers == m.peers[identifier := Peer(mediator.(bound := true), ExchangeSink)]
      && next.resolving == m.resolving - {address}
  {
    if address in m.resolving {
      BindingLinks(m.resolving[address]);
    } else {
      assert m.resolving - {address} == m.resolving;
    }
  }

  /** Declaring, undeclaring and linking leave tracked peers alone; a message only changes its own peer. */
  lemma OthersAreLeftAlone(node: Node, m: Peers, op: Operation, id: nat)
    requires LawfulNode(node) && Valid(m) && id in m.peers
    requires op.Deliver? ==> op.identifier != id
    ensures id in Apply(node, m, op).peers && Apply(node, m, op).peers[id] == m.peers[id]
  {
    hide Valid, Setup, ScheduleReceive;
    if op.Link? { LinkNeverThrows(node, m, op.identifier, op.address, op.coins); }
  }

  function Run(node: Node, ops: seq<Operation>): (m: Peers)
    requires LawfulNode(node)
    ensures Valid(m)
  {
    if ops == [] then NO_PEERS
    else
      var before := Run(node, ops[..|ops| - 1]);
      OperationKeepsValid(node, before, ops[|ops| - 1]);
      Apply(node, before, ops[|ops| - 1])
  }

  /** In every run: an authorized peer holds a ready strategy with keys, and a peer whose messages
      go to the authorized sink is authorized. */
  lemma AuthorizedHoldsKeys(node: Node, ops: seq<Operation>, identifier: nat)
    requires LawfulNode(node) && identifier in Run(node, ops).peers
    ensures
      var peer := Run(node, ops).peers[identifier];
      && (peer.receiver == AuthorizedSink <==> peer.mediator.state == Authorized)
      && (peer.mediator.state == Authorized ==>
            && peer.mediator.strategy.Some?
            && peer.mediator.strategy.value.stage == S.CompleteStage(peer.mediator.strategy.value.role)
            && K.HoldsKeys(peer.mediator.strategy.value.store, S.CONTENT_KEY_SIZE, K.SIGNATURE_SIZE)
            && peer.mediator.strategy.value.store.hasKeys)
  {
    hide Run;
  }

  // ---- The object ----

  class PeerManager {
    const node: Node
    var peers: map<nat, Peer>
    var resolving: map<Address, Mediator>

    function Value(): Peers
      reads this
    {
      Peers(peers, resolving)
    }

    constructor (node: Node)
      ensures this.node == node && Value() == NO_PEERS
    {
      this.node := node;
      peers, resolving := map[], map[];
    }

    method DeclareResolvingPeer(address: Address, identifier: Option<nat>, coins: S.Coins)
      returns (request: Option<Request>)
      requires LawfulNode(node) && Valid(Value())
      modifies this
      ensures (Value(), request) == Declaring(node, old(Value()), address, identifier, coins)
      ensures Valid(Value())
    {
      hide Valid, Setup;
      OperationKeepsValid(node, Value(), Declare(address, identifier, coins));
      if address in resolving { return None; }
      match identifier {
        case Some(id) => return if id in peers then Some(Heartbeat) else None;
        case None =>
          var (payload, mediator) := Setup(node, NEW_MEDIATOR, K.Initiator, coins);
          if payload == None { return None; }
          resolving := resolving[address := mediator];
          return Some(Exchange(payload.value));
      }
    }

    method UndeclareResolvingPeer(address: Address)
      requires Valid(Value())
      modifies this
      ensures Value() == Undeclaring(old(Value()), address)
      ensures Valid(Value())
    {
      resolving := resolving - {address};
    }

    method LinkPeer(identifier: nat, address: Address, coins: S.Coins) returns (result: LinkResult)
      requires LawfulNode(node) && Valid(Value())
      modifies this
      ensures (Value(), result) == Linking(node, old(Value()), identifier, address, coins)
      ensures Valid(Value())
      ensures identifier != 0 && identifier !in old(peers) ==>
        var mediator :=
          if address in old(resolving) then old(resolving)[address] else WaitingMediator(S.New(K.Acceptor));
        && result == Linked && resolving == old(resolving) - {address}
        && peers == old(peers)[identifier := Peer(mediator.(bound := true), ExchangeSink)]
    {
      hide Valid, Setup, BindPeer;
      if identifier != 0 && identifier !in peers { LinkedAs(node, Value(), identifier, address, coins); }
      LinkNeverThrows(node, Value(), identifier, address, coins);
      if identifier in peers {
        resolving := resolving - {address};
        return Linked;
      }
      if identifier == 0 { return Threw; }
      var mediator;
      if address in resolving {
        mediator := resolving[address];
        resolving := resolving - {address};
      } else {
        var (request, ready) := Setup(node, NEW_MEDIATOR, K.Acceptor, coins);
        if request == None { return NotLinked; }
        mediator := ready;
      }
      var peer := BindPeer(mediator);
      if peer == None { return Threw; }
      peers := peers[identifier := peer.value];
      return Linked;
    }
  }
}
