/** The two nodes of an honest handshake behind their peer managers: what a manager makes of a declared address
    and of the messages that arrive is what the node does alone. */
module ManagedNodes {
  import opened Bytes
  import opened Authorization
  import opened HonestWorld
  import Handshake
  import K = KeyStore
  import PM = PeerManager
  import S = Strategy

  /** A manager holds the other node, which is at an address and has an identifier, in this state. */
  ghost predicate Holds(m: PM.Peers, address: PM.Address, id: nat, side: Side) {
    match side
    case Unlinked => address !in m.resolving && id !in m.peers
    case Waiting(mediator) => address in m.resolving && m.resolving[address] == mediator && id !in m.peers
    case Talking(peer) => address !in m.resolving && id in m.peers && m.peers[id] == peer
  }

  /** The endpoint links the sender of a message, and the peer then receives it. */
  function Arrives(node: Node, m: PM.Peers, address: PM.Address, id: nat, bytes: seq<byte>, coins: S.Coins)
    : (r: (PM.Peers, seq<Sent>))
    requires LawfulNode(node) && PM.Valid(m)
  {
    PM.LinkNeverThrows(node, m, id, address, coins);
    PM.Receive(node, PM.Linking(node, m, id, address, coins).0, id, bytes, Chance(coins, true, true))
  }

  lemma NewAcceptor(node: Node, coins: S.Coins)
    requires LawfulNode(node)
    ensures Setup(node, NEW_MEDIATOR, K.Acceptor, coins).1 == PM.WaitingMediator(S.New(K.Acceptor))
  {
  }

  lemma BoundIs(mediator: Mediator)
    requires Resolving(mediator)
    ensures BindPeer(mediator) == Some(Peer(mediator.(bound := true), ExchangeSink))
  {
  }

  /** What the node does with a message, its manager does with it, whatever else it keeps. */
  lemma ArrivesAsDelivered(node: Node, m: PM.Peers, address: PM.Address, id: nat, side: Side, bytes: seq<byte>,
                           coins: S.Coins)
    requires LawfulNode(node) && PM.Valid(m) && id != 0 && Orderly(side) && Holds(m, address, id, side)
    ensures
      var (next, sent) := Arrives(node, m, address, id, bytes, coins);
      var (delivered, _, sent') := Deliver(node, side, bytes, coins);
      && PM.Valid(next) && Holds(next, address, id, delivered) && sent == sent'
      && (forall other <- m.peers :: other != id ==> other in next.peers && next.peers[other] == m.peers[other])
      && (forall other <- m.resolving :: other != address ==>
            other in next.resolving && next.resolving[other] == m.resolving[other])
  {
    hide ScheduleReceive, Setup, BindPeer, Linked, Resolving, S.New, PM.WaitingMediator, PM.Valid;
    PM.LinkNeverThrows(node, m, id, address, coins);
    var linked := PM.Linking(node, m, id, address, coins).0;
    PM.OperationKeepsValid(node, linked, PM.Deliver(id, bytes, Chance(coins, true, true)));
    match side {
      case Unlinked =>
        NewAcceptor(node, coins);
        SetupResolves(node, K.Acceptor, coins);
        BoundIs(Setup(node, NEW_MEDIATOR, K.Acceptor, coins).1);
        PM.LinkedAs(node, m, id, address, coins);
      case Waiting(mediator) =>
        BoundIs(mediator);
        PM.LinkedAs(node, m, id, address, coins);
      case Talking(_) =>
    }
  }

  /** The whole exchange between two managers, whatever other peers they have: declaring the address makes the
      request, and when request, response and confirmation have arrived, both hold the other as an authorized
      peer, with the strategies of the handshake. */
  lemma ManagersAuthorize(w: World, a: PM.Peers, b: PM.Peers, addressA: PM.Address, addressB: PM.Address, idA: nat,
                          idB: nat)
    requires Honest(w) && LawfulNode(w.nodeA) && LawfulNode(w.nodeB) && PM.Valid(a) && PM.Valid(b)
    requires idA != 0 && Holds(b, addressA, idA, Unlinked)
    requires idB != 0 && Holds(a, addressB, idB, Unlinked)
    ensures
      var h := Sessions(w);
      var (a1, request) := PM.Declaring(w.nodeA, a, addressB, None, w.coinsA);
      && request == Some(PM.Exchange(Handshake.Message(h.request))) && PM.Valid(a1)
      && var (b1, response) :=
           Arrives(w.nodeB, b, addressA, idA, HandshakeBytes(w.idA, None, Handshake.Message(h.request)), w.coinsB);
      && response == [HandshakeSent(Handshake.Message(h.response))] && PM.Valid(b1)
      && var (a2, confirmation) :=
           Arrives(w.nodeA, a1, addressB, idB, HandshakeBytes(w.idB, Some(w.idA), Handshake.Message(h.response)),
                   w.coinsA);
      && confirmation == [HandshakeSent(Handshake.Message(h.confirmation)), ConnectSent]
      && var b2 :=
           Arrives(w.nodeB, b1, addressA, idA,
                   HandshakeBytes(w.idA, Some(w.idB), Handshake.Message(h.confirmation)), w.coinsB).0;
      && Holds(a2, addressB, idB, Talking(Trusted(h.a))) && Holds(b2, addressA, idA, Talking(Trusted(h.b)))
  {
    hide Sessions, HandshakeBytes, Deliver, Setup, Linked, Resolving, Honest, Arrives, PM.Valid, Trusted, Exchanging,
      Negotiator;
    Started(w);
    var h := Sessions(w);
    SidesAreOrderly(w);
    PM.OperationKeepsValid(w.nodeA, a, PM.Declare(addressB, None, w.coinsA));
    var a1 := PM.Declaring(w.nodeA, a, addressB, None, w.coinsA).0;
    RequestArrives(w);
    ResponseArrives(w);
    ConfirmationArrives(w);
    var request := HandshakeBytes(w.idA, None, Handshake.Message(h.request));
    var response := HandshakeBytes(w.idB, Some(w.idA), Handshake.Message(h.response));
    var confirmation := HandshakeBytes(w.idA, Some(w.idB), Handshake.Message(h.confirmation));
    ArrivesAsDelivered(w.nodeB, b, addressA, idA, Unlinked, request, w.coinsB);
    var b1 := Arrives(w.nodeB, b, addressA, idA, request, w.coinsB).0;
    ArrivesAsDelivered(w.nodeA, a1, addressB, idB, Waiting(Negotiator(false, h.prepared)), response, w.coinsA);
    ArrivesAsDelivered(w.nodeB, b1, addressA, idA, Talking(Exchanging(h.answered)), confirmation, w.coinsB);
  }
}
