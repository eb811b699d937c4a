/** Two honest nodes on a TCP session: each direction is a stream of characters, and every message
    that a receiver cuts out of it goes to the node at its end. */
module TwoNodes {
  import opened Bytes
  import opened Authorization
  import opened HonestWorld
  import Identifier
  import A = ApplicationMessage
  import K = KeyStore
  import H = MessageHeader
  import S = Strategy
  import Z85
  import Handshake
  import Stream

  /** The texts that were scheduled in each direction are kept with the streams. */
  datatype State = State(
    a: Side,
    b: Side,
    ab: Stream.Link,
    ba: Stream.Link,
    sentAB: seq<Text>,
    sentBA: seq<Text>)

  const INITIALLY: State := State(Unlinked, Unlinked, Stream.NEW, Stream.NEW, [], [])

  /** The initiator starts, something happens in a stream, or an authorized node sends a message. */
  datatype Step = Start | OnAB(step: Stream.Step) | OnBA(step: Stream.Step) | SendA(text: Text) | SendB(text: Text)

  /** The message that a step hands to the node at the end of a stream. */
  function Arriving(digest: Identifier.Digest, l: Stream.Link, step: Stream.Step): Option<seq<byte>> {
    if step.DecodeBody? && l.phase.Body? && |l.buffer| >= Stream.HEADER_SIZE
    then Stream.BodyRead(digest, l.buffer, l.message)
    else None
  }

  predicate ForwardsToSink(side: Side) {
    side.Talking? && side.peer.receiver == AuthorizedSink
  }

  /** A step of a stream is possible if its receiver takes a message up as the node answers. What an
      authorized sink answers is left open. */
  predicate StreamEnabled(node: Node, side: Side, coins: S.Coins, l: Stream.Link, step: Stream.Step)
    requires LawfulNode(node) && Orderly(side)
  {
    && !step.Schedule? && Stream.Enabled(l, step)
    && match Arriving(node.digest, l, step)
       case None => true
       case Some(bytes) =>
         ForwardsToSink(side) || step.accepted == Deliver(node, side, bytes, coins).1
  }

  /** Application messages are sent to authorized peers only. */
  predicate Enabled(w: World, s: State, step: Step)
    requires LawfulNode(w.nodeA) && LawfulNode(w.nodeB) && Orderly(s.a) && Orderly(s.b)
  {
    match step
    case Start => s.a == Unlinked
    case OnAB(t) => StreamEnabled(w.nodeB, s.b, w.coinsB, s.ab, t)
    case OnBA(t) => StreamEnabled(w.nodeA, s.a, w.coinsA, s.ba, t)
    case SendA(text) => IsAuthorized(s.a) && IsApplicationText(w.nodeA.digest, text)
    case SendB(text) => IsAuthorized(s.b) && IsApplicationText(w.nodeA.digest, text)
  }

  function Texts(source: Identifier.Container, to: Identifier.Container, connect: Text, sent: seq<Sent>)
    : (texts: seq<Text>)
    ensures |texts| == |sent|
  {
    seq(|sent|, i requires 0 <= i < |sent| =>
      match sent[i]
      case HandshakeSent(payload) => HandshakeText(source, Some(to), payload)
      case ConnectSent => connect)
  }

  function Scheduling(l: Stream.Link, texts: seq<Text>): Stream.Link {
    l.(events := l.events + texts)
  }

  function Next(w: World, s: State, step: Step): State
    requires LawfulNode(w.nodeA) && LawfulNode(w.nodeB) && Orderly(s.a) && Orderly(s.b) && Enabled(w, s, step)
  {
    match step
    case Start =>
      var (request, mediator) := Setup(w.nodeA, NEW_MEDIATOR, K.Initiator, w.coinsA);
      (match request
       case None => s
       case Some(payload) =>
         SentByA(s.(a := Waiting(mediator)), [HandshakeText(w.idA, None, payload)]))
    case OnAB(t) =>
      var moved := s.(ab := Stream.Next(w.nodeB.digest, s.ab, t));
      (match Arriving(w.nodeB.digest, s.ab, t)
       case None => moved
       case Some(bytes) =>
         var (side, _, sent) := Deliver(w.nodeB, s.b, bytes, w.coinsB);
         SentByB(moved.(b := side), Texts(w.idB, w.idA, w.connect, sent)))
    case OnBA(t) =>
      var moved := s.(ba := Stream.Next(w.nodeA.digest, s.ba, t));
      (match Arriving(w.nodeA.digest, s.ba, t)
       case None => moved
       case Some(bytes) =>
         var (side, _, sent) := Deliver(w.nodeA, s.a, bytes, w.coinsA);
         SentByA(moved.(a := side), Texts(w.idA, w.idB, w.connect, sent)))
    case SendA(text) => SentByA(s, [text])
    case SendB(text) => SentByB(s, [text])
  }

  function SentByA(s: State, texts: seq<Text>): State {
    s.(ab := Scheduling(s.ab, texts), sentAB := s.sentAB + texts)
  }

  function SentByB(s: State, texts: seq<Text>): State {
    s.(ba := Scheduling(s.ba, texts), sentBA := s.sentBA + texts)
  }

  // ---- The phases of a run ----

  ghost function RequestPack(w: World): seq<byte>
    requires Honest(w)
  {
    HandshakeBytes(w.idA, None, Handshake.Message(Sessions(w).request))
  }

  ghost function ResponsePack(w: World): seq<byte>
    requires Honest(w)
  {
    HandshakeBytes(w.idB, Some(w.idA), Handshake.Message(Sessions(w).response))
  }

  ghost function ConfirmationPack(w: World): seq<byte>
    requires Honest(w)
  {
    HandshakeBytes(w.idA, Some(w.idB), Handshake.Message(Sessions(w).confirmation))
  }

  predicate AllApplication(digest: Identifier.Digest, texts: seq<Text>) {
    forall i :: 0 <= i < |texts| ==> IsApplicationText(digest, texts[i])
  }

  /** What the nodes are in, and what is on its way to them, before the start, while the request, the
      response or the confirmation is under way, and when both sides are authorized. A phase is only
      reached when the packs of the phases before could be read. */
  ghost predicate Shape(w: World, phase: nat, a: Side, b: Side, toB: seq<Text>, toA: seq<Text>)
    requires Honest(w)
  {
    var h := Sessions(w);
    match phase
    case 0 => a == Unlinked && b == Unlinked && toB == [] && toA == []
    case 1 =>
      && a == Waiting(Negotiator(false, h.prepared)) && b == Unlinked
      && toB == [Z85.Encoding(RequestPack(w))] && toA == []
    case 2 =>
      && a == Waiting(Negotiator(false, h.prepared)) && b == Talking(Exchanging(h.answered))
      && toB == [] && toA == [Z85.Encoding(ResponsePack(w))]
      && Z85.Clean(RequestPack(w))
    case 3 =>
      && a == Talking(Trusted(h.a)) && b == Talking(Exchanging(h.answered))
      && toB != [] && toB[0] == Z85.Encoding(ConfirmationPack(w))
      && AllApplication(w.nodeA.digest, toB[1..]) && toA == []
      && Z85.Clean(RequestPack(w)) && Z85.Clean(ResponsePack(w))
    case 4 =>
      && a == Talking(Trusted(h.a)) && b == Talking(Trusted(h.b))
      && AllApplication(w.nodeA.digest, toB) && AllApplication(w.nodeA.digest, toA)
      && Z85.Clean(RequestPack(w)) && Z85.Clean(ResponsePack(w)) && Z85.Clean(ConfirmationPack(w))
    case _ => false
  }

  /** The texts that have not been handed to the acceptor yet, and those for the initiator. */
  ghost function ToB(s: State): seq<Text>
    requires |s.ab.delivered| <= |s.sentAB|
  {
    s.sentAB[|s.ab.delivered|..]
  }

  ghost function ToA(s: State): seq<Text>
    requires |s.ba.delivered| <= |s.sentBA|
  {
    s.sentBA[|s.ba.delivered|..]
  }

  ghost predicate Streams(w: World, s: State) {
    Stream.Invariant(w.nodeA.digest, s.ab, s.sentAB) && Stream.Invariant(w.nodeA.digest, s.ba, s.sentBA)
  }

  ghost predicate InPhase(w: World, s: State, phase: nat)
    requires Honest(w)
  {
    && Orderly(s.a) && Orderly(s.b) && Streams(w, s)
    && Shape(w, phase, s.a, s.b, ToB(s), ToA(s))
    && (phase < 4 ==> s.ab.phase != Stream.Refused && s.ba.phase != Stream.Refused)
  }

  // ---- The three packs ----

  lemma PacksRead(w: World)
    requires Honest(w)
    ensures
      var digest := w.nodeA.digest;
      && PackReads(digest, RequestPack(w)) && PackReads(digest, ResponsePack(w))
      && PackReads(digest, ConfirmationPack(w))
      && !IsApplication(RequestPack(w)) && !IsApplication(ResponsePack(w)) && !IsApplication(ConfirmationPack(w))
  {
    hide Sessions, HandshakeBytes, PackReads, Honest, H.Parsable, IsApplication;
    HonestParts(w);
    SessionsComplete(w);
    var h, digest := Sessions(w), w.nodeA.digest;
    HandshakePackReads(digest, w.idA, None, h.request.message);
    HandshakePackReads(digest, w.idB, Some(w.idA), h.response.message);
    HandshakePackReads(digest, w.idA, Some(w.idB), h.confirmation.message);
  }

  lemma HandshakePackReads(digest: Identifier.Digest, source: Identifier.Container,
                           to: Option<Identifier.Container>, payload: seq<byte>)
    requires H.Parsable(digest, source) && (to.Some? ==> H.Parsable(digest, to.value)) && |payload| <= 2000
    ensures
      var bytes := HandshakeBytes(source, to, payload);
      PackReads(digest, bytes) && !IsApplication(bytes)
  {
    hide HandshakeBytes, Stream.Framed, Stream.Reading, Z85.Clean, Z85.Encoding, H.Parsable;
    HandshakeTextReads(digest, source, to, payload);
    HandshakeArrives(digest, source, to, payload);
  }

  /** The text of some bytes can be cut out of a stream, and read exactly when these are clean. */
  predicate PackReads(digest: Identifier.Digest, pack: seq<byte>) {
    && Stream.Framed(Z85.Encoding(pack))
    && Stream.Reading(digest, Z85.Encoding(pack)) == if Z85.Clean(pack) then Some(pack) else None
  }

  // ---- The nodes ----

  /** The first text reaches the acceptor as these bytes: what that makes of the nodes and of the texts
      on their way. */
  lemma AcceptorTakes(w: World, phase: nat, a: Side, b: Side, toB: seq<Text>, toA: seq<Text>, bytes: seq<byte>)
    returns (phase': nat)
    requires Honest(w) && Shape(w, phase, a, b, toB, toA) && Orderly(a) && Orderly(b)
    requires toB != [] && Stream.Reading(w.nodeA.digest, toB[0]) == Some(bytes)
    requires LawfulNode(w.nodeB)
    ensures
      var (side, ok, sent) := Deliver(w.nodeB, b, bytes, w.coinsB);
      var texts := Texts(w.idB, w.idA, w.connect, sent);
      && Orderly(side) && Shape(w, phase', a, side, toB[1..], toA + texts)
      && phase <= phase' <= phase + 1 && (phase < 4 ==> phase' == phase + 1 && ok) && (phase == 4 ==> texts == [])
      && Stream.AllFramed(texts)
  {
    hide Shape, Deliver, Orderly, Honest, Stream.Framed, Texts, Stream.Reading;
    ShapeOf(w, phase, a, b, toB, toA);
    if phase == 1 {
      phase' := 2;
      AcceptorTakesRequest(w, a, b, toB, toA, bytes);
    } else if phase == 3 {
      phase' := 4;
      AcceptorTakesConfirmation(w, a, b, toB, toA, bytes);
    } else {
      phase' := 4;
      AcceptorTakesApplication(w, a, b, toB, toA, bytes);
    }
  }

  /** Where there can be something on the way. */
  lemma ShapeOf(w: World, phase: nat, a: Side, b: Side, toB: seq<Text>, toA: seq<Text>)
    requires Honest(w) && Shape(w, phase, a, b, toB, toA)
    ensures phase <= 4
    ensures toB != [] ==> phase == 1 || phase == 3 || phase == 4
    ensures toA != [] ==> phase == 2 || phase == 4
    ensures a == Unlinked <==> phase == 0
    ensures IsAuthorized(a) <==> phase >= 3
    ensures IsAuthorized(b) <==> phase == 4
    ensures ForwardsToSink(a) ==> phase >= 3
    ensures ForwardsToSink(b) <==> phase == 4
  {
    hide Sessions, Honest, Z85.Clean, RequestPack, ResponsePack, ConfirmationPack, AllApplication;
  }

  lemma AcceptorTakesRequest(w: World, a: Side, b: Side, toB: seq<Text>, toA: seq<Text>, bytes: seq<byte>)
    requires Honest(w) && Shape(w, 1, a, b, toB, toA) && Orderly(b) && LawfulNode(w.nodeB)
    requires Stream.Reading(w.nodeA.digest, toB[0]) == Some(bytes)
    ensures
      var (side, ok, sent) := Deliver(w.nodeB, b, bytes, w.coinsB);
      var texts := Texts(w.idB, w.idA, w.connect, sent);
      && ok && Orderly(side) && Shape(w, 2, a, side, toB[1..], toA + texts) && Stream.AllFramed(texts)
  {
    hide Sessions, Deliver, Orderly, Honest, Stream.Reading, Stream.Framed, RequestPack, ResponsePack,
      ConfirmationPack, Negotiator, Exchanging, Trusted, Texts, Z85.Clean, Z85.Encoding, IsApplication;
    PacksRead(w);
    SidesAreOrderly(w);
    RequestTaken(w);
  }

  lemma AcceptorTakesConfirmation(w: World, a: Side, b: Side, toB: seq<Text>, toA: seq<Text>, bytes: seq<byte>)
    requires Honest(w) && Shape(w, 3, a, b, toB, toA) && Orderly(b) && LawfulNode(w.nodeB)
    requires Stream.Reading(w.nodeA.digest, toB[0]) == Some(bytes)
    ensures
      var (side, ok, sent) := Deliver(w.nodeB, b, bytes, w.coinsB);
      var texts := Texts(w.idB, w.idA, w.connect, sent);
      && ok && Orderly(side) && Shape(w, 4, a, side, toB[1..], toA + texts) && Stream.AllFramed(texts)
  {
    hide Sessions, Deliver, Orderly, Honest, Stream.Reading, Stream.Framed, RequestPack, ResponsePack,
      ConfirmationPack, Negotiator, Exchanging, Trusted, Texts, Z85.Clean, Z85.Encoding, IsApplication,
      IsApplicationText;
    PacksRead(w);
    SidesAreOrderly(w);
    ConfirmationTaken(w);
  }

  lemma AcceptorTakesApplication(w: World, a: Side, b: Side, toB: seq<Text>, toA: seq<Text>, bytes: seq<byte>)
    requires Honest(w) && Shape(w, 4, a, b, toB, toA) && Orderly(b) && LawfulNode(w.nodeB) && toB != []
    ensures
      var (side, ok, sent) := Deliver(w.nodeB, b, bytes, w.coinsB);
      var texts := Texts(w.idB, w.idA, w.connect, sent);
      && Orderly(side) && Shape(w, 4, a, side, toB[1..], toA + texts) && texts == []
  {
    hide Sessions, Deliver, Orderly, Honest, RequestPack, ResponsePack, ConfirmationPack, Trusted, Z85.Clean,
      IsApplicationText;
    SidesAreOrderly(w);
    hide Linked;
    ApplicationArrives(w.nodeB, Sessions(w).b, bytes, w.coinsB);
    assert toA + [] == toA;
  }

  lemma InitiatorTakes(w: World, phase: nat, a: Side, b: Side, toB: seq<Text>, toA: seq<Text>, bytes: seq<byte>)
    returns (phase': nat)
    requires Honest(w) && Shape(w, phase, a, b, toB, toA) && Orderly(a) && Orderly(b)
    requires toA != [] && Stream.Reading(w.nodeA.digest, toA[0]) == Some(bytes)
    requires LawfulNode(w.nodeA)
    ensures
      var (side, ok, sent) := Deliver(w.nodeA, a, bytes, w.coinsA);
      var texts := Texts(w.idA, w.idB, w.connect, sent);
      && Orderly(side) && Shape(w, phase', side, b, toB + texts, toA[1..])
      && phase <= phase' <= phase + 1 && (phase < 4 ==> phase' == phase + 1 && ok) && (phase == 4 ==> texts == [])
      && Stream.AllFramed(texts)
  {
    hide Shape, Deliver, Orderly, Honest, Stream.Framed, Texts, Stream.Reading;
    ShapeOf(w, phase, a, b, toB, toA);
    if phase == 2 {
      phase' := 3;
      InitiatorTakesResponse(w, a, b, toB, toA, bytes);
    } else {
      phase' := 4;
      InitiatorTakesApplication(w, a, b, toB, toA, bytes);
    }
  }

  lemma InitiatorTakesResponse(w: World, a: Side, b: Side, toB: seq<Text>, toA: seq<Text>, bytes: seq<byte>)
    requires Honest(w) && Shape(w, 2, a, b, toB, toA) && Orderly(a) && LawfulNode(w.nodeA)
    requires Stream.Reading(w.nodeA.digest, toA[0]) == Some(bytes)
    ensures
      var (side, ok, sent) := Deliver(w.nodeA, a, bytes, w.coinsA);
      var texts := Texts(w.idA, w.idB, w.connect, sent);
      && ok && Orderly(side) && Shape(w, 3, side, b, toB + texts, toA[1..]) && Stream.AllFramed(texts)
  {
    hide Sessions, Deliver, Orderly, Honest, Stream.Reading, Stream.Framed, RequestPack, ResponsePack,
      ConfirmationPack, Negotiator, Exchanging, Trusted, Texts, Z85.Clean, Z85.Encoding, IsApplication,
      IsApplicationText;
    PacksRead(w);
    SidesAreOrderly(w);
    ResponseTaken(w);
    assert toB + [Z85.Encoding(ConfirmationPack(w)), w.connect] == [Z85.Encoding(ConfirmationPack(w)), w.connect];
  }

  lemma InitiatorTakesApplication(w: World, a: Side, b: Side, toB: seq<Text>, toA: seq<Text>, bytes: seq<byte>)
    requires Honest(w) && Shape(w, 4, a, b, toB, toA) && Orderly(a) && LawfulNode(w.nodeA) && toA != []
    ensures
      var (side, ok, sent) := Deliver(w.nodeA, a, bytes, w.coinsA);
      var texts := Texts(w.idA, w.idB, w.connect, sent);
      && Orderly(side) && Shape(w, 4, side, b, toB + texts, toA[1..]) && texts == []
  {
    hide Sessions, Deliver, Orderly, Honest, RequestPack, ResponsePack, ConfirmationPack, Trusted, Z85.Clean,
      IsApplicationText;
    SidesAreOrderly(w);
    hide Linked;
    ApplicationArrives(w.nodeA, Sessions(w).a, bytes, w.coinsA);
    assert toB + [] == toB;
  }

  lemma RequestTaken(w: World)
    requires Honest(w) && LawfulNode(w.nodeB)
    ensures
      var (side, ok, sent) := Deliver(w.nodeB, Unlinked, RequestPack(w), w.coinsB);
      && side == Talking(Exchanging(Sessions(w).answered)) && ok
      && Texts(w.idB, w.idA, w.connect, sent) == [Z85.Encoding(ResponsePack(w))]
  {
    hide Sessions, HandshakeBytes, Deliver, Honest, Negotiator, Exchanging, Trusted;
    RequestArrives(w);
  }

  lemma ResponseTaken(w: World)
    requires Honest(w) && LawfulNode(w.nodeA) && Orderly(Waiting(Negotiator(false, Sessions(w).prepared)))
    ensures
      var (side, ok, sent) :=
        Deliver(w.nodeA, Waiting(Negotiator(false, Sessions(w).prepared)), ResponsePack(w), w.coinsA);
      && side == Talking(Trusted(Sessions(w).a)) && ok
      && Texts(w.idA, w.idB, w.connect, sent) == [Z85.Encoding(ConfirmationPack(w)), w.connect]
      && IsApplicationText(w.nodeA.digest, w.connect) && Stream.Framed(w.connect)
  {
    ConnectIsApplication(w);
    hide Sessions, HandshakeBytes, Deliver, Honest, Negotiator, Exchanging, Trusted, Resolving, IsApplicationText,
      Stream.Framed, Z85.Encoding, Texts;
    ResponseArrives(w);
    TextsOfAnswer(w.idA, w.idB, w.connect, Handshake.Message(Sessions(w).confirmation));
  }

  lemma TextsOfAnswer(source: Identifier.Container, to: Identifier.Container, connect: Text, payload: seq<byte>)
    ensures Texts(source, to, connect, [HandshakeSent(payload), ConnectSent])
      == [HandshakeText(source, Some(to), payload), connect]
  {
    hide HandshakeText;
  }

  lemma ConnectIsApplication(w: World)
    requires Honest(w)
    ensures IsApplicationText(w.nodeA.digest, w.connect) && Stream.Framed(w.connect)
  {
  }

  lemma ConfirmationTaken(w: World)
    requires Honest(w) && LawfulNode(w.nodeB) && Orderly(Talking(Exchanging(Sessions(w).answered)))
    ensures
      var (side, ok, sent) :=
        Deliver(w.nodeB, Talking(Exchanging(Sessions(w).answered)), ConfirmationPack(w), w.coinsB);
      && side == Talking(Trusted(Sessions(w).b)) && ok && Texts(w.idB, w.idA, w.connect, sent) == []
  {
    hide Sessions, HandshakeBytes, Deliver, Honest, Negotiator, Exchanging, Trusted, Linked;
    ConfirmationArrives(w);
  }

  // ---- The streams ----

  lemma {:induction false} SchedulingKeepsStream(digest: Identifier.Digest, l: Stream.Link, sent: seq<Text>,
                                                 texts: seq<Text>)
    requires Stream.Invariant(digest, l, sent) && Stream.AllFramed(texts)
    ensures Stream.Invariant(digest, Scheduling(l, texts), sent + texts)
  {
    hide Stream.Invariant, Stream.Framed;
    if texts == [] {
      assert Scheduling(l, texts) == l && sent + texts == sent;
    } else {
      var front, last := texts[..|texts| - 1], texts[|texts| - 1];
      SchedulingKeepsStream(digest, l, sent, front);
      assert Stream.Framed(last);
      FramedIsNonempty(last);
      Stream.StepKeepsInvariant(digest, Scheduling(l, front), sent + front, Stream.Schedule(last));
      assert Scheduling(l, texts) == Stream.Next(digest, Scheduling(l, front), Stream.Schedule(last));
      assert sent + texts == (sent + front) + [last];
    }
  }

  lemma FramedIsNonempty(text: Text)
    requires Stream.Framed(text)
    ensures text != []
  {
  }

  /** A step that hands nothing on leaves what is on its way to the node. */
  lemma QuietStep(digest: Identifier.Digest, l: Stream.Link, sent: seq<Text>, step: Stream.Step)
    requires Stream.Invariant(digest, l, sent) && Stream.Enabled(l, step) && !step.Schedule?
    requires Arriving(digest, l, step) == None
    ensures
      var next := Stream.Next(digest, l, step);
      && Stream.Invariant(digest, next, sent) && next.delivered == l.delivered
      && (next.phase == Stream.Refused ==> l.phase == Stream.Refused)
  {
    hide Stream.Invariant, Stream.HeaderRead, Stream.BodyRead;
    Stream.StepKeepsInvariant(digest, l, sent, step);
    if step.DecodeBody? { Stream.BodyIsComplete(digest, l, sent); }
  }

  /** A step that hands a message on hands on what the first text on its way is read as. */
  lemma DeliveringStep(digest: Identifier.Digest, l: Stream.Link, sent: seq<Text>, step: Stream.Step)
    requires Stream.Invariant(digest, l, sent) && Stream.Enabled(l, step)
    requires Arriving(digest, l, step).Some?
    ensures
      var next := Stream.Next(digest, l, step);
      && Stream.Invariant(digest, next, sent)
      && |next.delivered| == |l.delivered| + 1 <= |sent|
      && Stream.Reading(digest, sent[|l.delivered|]) == Arriving(digest, l, step)
      && (step.accepted ==> next.phase == Stream.Header)
  {
    hide Stream.Invariant, Stream.HeaderRead, Stream.BodyRead, Stream.Reading;
    Stream.StepKeepsInvariant(digest, l, sent, step);
    Stream.BodyIsComplete(digest, l, sent);
    Stream.BodyNext(digest, l, step.accepted);
  }

  lemma StreamBounds(digest: Identifier.Digest, l: Stream.Link, sent: seq<Text>)
    requires Stream.Invariant(digest, l, sent)
    ensures |l.delivered| <= |sent| && Stream.Queued(l)
  {
  }

  lemma Onward(sent: seq<Text>, texts: seq<Text>, k: nat)
    requires k <= |sent|
    ensures (sent + texts)[k..] == sent[k..] + texts
  {
  }

  // ---- Every step keeps to the phases ----

  lemma StartsFirst(w: World, s: State)
    requires Honest(w) && InPhase(w, s, 0) && LawfulNode(w.nodeA) && LawfulNode(w.nodeB)
    ensures Enabled(w, s, Start) && InPhase(w, Next(w, s, Start), 1)
  {
    hide Sessions, HandshakeBytes, Deliver, Honest, Stream.Invariant, Stream.Framed, Stream.Reading, Setup,
      Z85.Encoding, Z85.Clean, Negotiator, IsApplication;
    Started(w);
    SidesAreOrderly(w);
    PacksRead(w);
    var text := Z85.Encoding(RequestPack(w));
    SchedulingKeepsStream(w.nodeA.digest, s.ab, s.sentAB, [text]);
    StreamBounds(w.nodeA.digest, s.ab, s.sentAB);
    Onward(s.sentAB, [text], |s.ab.delivered|);
  }

  lemma AcceptorSteps(w: World, s: State, phase: nat, t: Stream.Step) returns (phase': nat)
    requires Honest(w) && InPhase(w, s, phase) && LawfulNode(w.nodeA) && LawfulNode(w.nodeB)
    requires Enabled(w, s, OnAB(t)) && w.nodeA.digest == w.nodeB.digest
    ensures InPhase(w, Next(w, s, OnAB(t)), phase')
    ensures phase <= phase' <= phase + 1
    ensures phase' == phase ==> Next(w, s, OnAB(t)).ba == s.ba
  {
    hide Stream.Invariant, Stream.Framed, Stream.Reading, Deliver, Shape, Honest, Orderly, Texts, Stream.Next,
      Stream.BodyRead, Stream.Enabled;
    var digest := w.nodeA.digest;
    StreamBounds(digest, s.ab, s.sentAB);
    StreamBounds(digest, s.ba, s.sentBA);
    match Arriving(digest, s.ab, t) {
      case None =>
        QuietStep(digest, s.ab, s.sentAB, t);
        phase' := phase;
      case Some(bytes) =>
        DeliveringStep(digest, s.ab, s.sentAB, t);
        ShapeOf(w, phase, s.a, s.b, ToB(s), ToA(s));
        phase' := AcceptorTakes(w, phase, s.a, s.b, ToB(s), ToA(s), bytes);
        var texts := Texts(w.idB, w.idA, w.connect, Deliver(w.nodeB, s.b, bytes, w.coinsB).2);
        SchedulingKeepsStream(digest, s.ba, s.sentBA, texts);
        Onward(s.sentBA, texts, |s.ba.delivered|);
        NothingToSchedule(s);
    }
  }

  lemma InitiatorSteps(w: World, s: State, phase: nat, t: Stream.Step) returns (phase': nat)
    requires Honest(w) && InPhase(w, s, phase) && LawfulNode(w.nodeA) && LawfulNode(w.nodeB)
    requires Enabled(w, s, OnBA(t)) && w.nodeA.digest == w.nodeB.digest
    ensures InPhase(w, Next(w, s, OnBA(t)), phase')
    ensures phase <= phase' <= phase + 1
    ensures phase' == phase ==> Next(w, s, OnBA(t)).ab == s.ab
  {
    hide Stream.Invariant, Stream.Framed, Stream.Reading, Deliver, Shape, Honest, Orderly, Texts, Stream.Next,
      Stream.BodyRead, Stream.Enabled;
    var digest := w.nodeA.digest;
    StreamBounds(digest, s.ab, s.sentAB);
    StreamBounds(digest, s.ba, s.sentBA);
    match Arriving(digest, s.ba, t) {
      case None =>
        QuietStep(digest, s.ba, s.sentBA, t);
        phase' := phase;
      case Some(bytes) =>
        DeliveringStep(digest, s.ba, s.sentBA, t);
        ShapeOf(w, phase, s.a, s.b, ToB(s), ToA(s));
        phase' := InitiatorTakes(w, phase, s.a, s.b, ToB(s), ToA(s), bytes);
        var texts := Texts(w.idA, w.idB, w.connect, Deliver(w.nodeA, s.a, bytes, w.coinsA).2);
        SchedulingKeepsStream(digest, s.ab, s.sentAB, texts);
        Onward(s.sentAB, texts, |s.ab.delivered|);
        NothingToSchedule(s);
    }
  }

  lemma NothingToSchedule(s: State)
    ensures Scheduling(s.ab, []) == s.ab && Scheduling(s.ba, []) == s.ba
  {
    assert s.ab.events + [] == s.ab.events && s.ba.events + [] == s.ba.events;
  }

  /** Application messages are sent in the last two phases. */
  lemma SendsKeepPhase(w: World, s: State, phase: nat, step: Step)
    requires Honest(w) && InPhase(w, s, phase) && LawfulNode(w.nodeA) && LawfulNode(w.nodeB)
    requires Enabled(w, s, step) && (step.SendA? || step.SendB?)
    ensures InPhase(w, Next(w, s, step), phase)
  {
    hide Stream.Invariant, Honest, Orderly, Shape, Stream.Framed, Stream.Reading;
    var digest, texts := w.nodeA.digest, [step.text];
    StreamBounds(digest, s.ab, s.sentAB);
    StreamBounds(digest, s.ba, s.sentBA);
    ApplicationSent(w, phase, s.a, s.b, ToB(s), ToA(s), step.text);
    if step.SendA? {
      SchedulingKeepsStream(digest, s.ab, s.sentAB, texts);
      Onward(s.sentAB, texts, |s.ab.delivered|);
    } else {
      SchedulingKeepsStream(digest, s.ba, s.sentBA, texts);
      Onward(s.sentBA, texts, |s.ba.delivered|);
    }
  }

  lemma ApplicationSent(w: World, phase: nat, a: Side, b: Side, toB: seq<Text>, toA: seq<Text>, text: Text)
    requires Honest(w) && Shape(w, phase, a, b, toB, toA) && IsApplicationText(w.nodeA.digest, text)
    ensures IsAuthorized(a) ==> Shape(w, phase, a, b, toB + [text], toA)
    ensures IsAuthorized(b) ==> Shape(w, phase, a, b, toB, toA + [text])
  {
    hide Honest, Sessions, RequestPack, ResponsePack, ConfirmationPack, Trusted, Exchanging, Z85.Clean, Z85.Encoding,
      IsApplicationText;
    ShapeOf(w, phase, a, b, toB, toA);
    if phase == 3 { assert (toB + [text])[1..] == toB[1..] + [text]; }
  }

  /** Every step keeps the phase or goes on to the next one. */
  lemma PhaseAdvances(w: World, s: State, phase: nat, step: Step) returns (phase': nat)
    requires Honest(w) && InPhase(w, s, phase) && LawfulNode(w.nodeA) && LawfulNode(w.nodeB)
    requires Enabled(w, s, step)
    ensures InPhase(w, Next(w, s, step), phase') && phase <= phase' <= phase + 1
  {
    hide Shape, Next, Honest, Stream.Invariant, StreamEnabled;
    HonestParts(w);
    match step {
      case Start =>
        PhaseOfSides(w, s, phase);
        StartsFirst(w, s);
        phase' := 1;
      case OnAB(t) => phase' := AcceptorSteps(w, s, phase, t);
      case OnBA(t) => phase' := InitiatorSteps(w, s, phase, t);
      case _ =>
        SendsKeepPhase(w, s, phase, step);
        phase' := phase;
    }
  }

  lemma PhaseOfSides(w: World, s: State, phase: nat)
    requires Honest(w) && InPhase(w, s, phase)
    ensures phase == 4 - Remaining(s) <= 4
    ensures s.a == Unlinked <==> phase == 0
    ensures IsAuthorized(s.a) <==> phase >= 3
    ensures IsAuthorized(s.b) <==> phase == 4
  {
    hide Honest, Sessions, RequestPack, ResponsePack, ConfirmationPack, AllApplication, Orderly, Stream.Invariant,
      Z85.Clean, Z85.Encoding;
  }

  /** How many packs have to arrive before both sides are authorized, counting the start. */
  function Remaining(s: State): (n: nat)
    ensures n <= 4
  {
    if s.a == Unlinked then 4
    else if s.a.Waiting? && s.b == Unlinked then 3
    else if s.a.Waiting? then 2
    else if !IsAuthorized(s.b) then 1
    else 0
  }

  // ---- Every interleaving ----

  /** The state can be reached by these steps. (That the sides are orderly is what makes the next
      step defined; it is never a restriction, as ReachableIsInPhase shows.) */
  ghost predicate Reachable(w: World, steps: seq<Step>, s: State)
    requires Honest(w)
    decreases |steps|
  {
    if steps == [] then s == INITIALLY
    else
      HonestParts(w);
      exists before: State ::
        && Reachable(w, steps[..|steps| - 1], before)
        && Orderly(before.a) && Orderly(before.b) && Enabled(w, before, steps[|steps| - 1])
        && s == Next(w, before, steps[|steps| - 1])
  }

  lemma {:induction false} ReachableIsInPhase(w: World, steps: seq<Step>, s: State) returns (phase: nat)
    requires Honest(w) && Reachable(w, steps, s)
    ensures phase <= 4 && InPhase(w, s, phase) && Orderly(s.a) && Orderly(s.b)
    decreases |steps|
  {
    if steps == [] {
      InitialPhase(w);
      return 0;
    }
    HonestParts(w);
    var last := steps[|steps| - 1];
    var before: State :|
      && Reachable(w, steps[..|steps| - 1], before)
      && Orderly(before.a) && Orderly(before.b) && Enabled(w, before, last) && s == Next(w, before, last);
    hide Shape, Next, Orderly, Reachable, Streams, Enabled;
    phase := ReachableIsInPhase(w, steps[..|steps| - 1], before);
    phase := PhaseAdvances(w, before, phase, last);
    PhaseOfSides(w, s, phase);
  }

  lemma InitialPhase(w: World)
    requires Honest(w)
    ensures InPhase(w, INITIALLY, 0)
  {
    hide Stream.Invariant, Honest;
    Stream.NewInvariant(w.nodeA.digest);
    StreamBounds(w.nodeA.digest, Stream.NEW, []);
  }

  predicate HasInvalidProcessor(side: Side) {
    match side
    case Unlinked => false
    case Waiting(mediator) => mediator.processor.Some? && mediator.processor.value.stage == Invalid
    case Talking(peer) => peer.mediator.processor.Some? && peer.mediator.processor.value.stage == Invalid
  }

  /** Nothing can happen any more, unless another application message is sent. */
  ghost predicate Finished(w: World, s: State)
    requires LawfulNode(w.nodeA) && LawfulNode(w.nodeB) && Orderly(s.a) && Orderly(s.b)
  {
    forall step :: Enabled(w, s, step) ==> step.SendA? || step.SendB?
  }

  /** What an exchange depends on: no pack of its three messages has an aligned block FF FF FF FF. */
  ghost predicate PacksAreClean(w: World)
    requires Honest(w)
  {
    Z85.Clean(RequestPack(w)) && Z85.Clean(ResponsePack(w)) && Z85.Clean(ConfirmationPack(w))
  }

  /** For every interleaving, down to single characters: no exchange processor becomes invalid; an
      application message only ever reaches a peer that forwards it to the authorized sink; a side is
      authorized only if the packs that it depends on could be read; and when nothing can happen any
      more, that is an equivalence. */
  lemma HonestRunsAuthorize(w: World, steps: seq<Step>, s: State)
    requires Honest(w) && Reachable(w, steps, s)
    ensures !HasInvalidProcessor(s.a) && !HasInvalidProcessor(s.b)
    ensures |s.ab.delivered| <= |s.sentAB| && |s.ba.delivered| <= |s.sentBA|
    ensures ToB(s) != [] && HoldsApplication(w.nodeA.digest, ToB(s)[0]) ==> ForwardsToSink(s.b)
    ensures ToA(s) != [] && HoldsApplication(w.nodeA.digest, ToA(s)[0]) ==> ForwardsToSink(s.a)
    ensures IsAuthorized(s.a) ==> Z85.Clean(RequestPack(w)) && Z85.Clean(ResponsePack(w))
    ensures IsAuthorized(s.b) ==> PacksAreClean(w)
    ensures LawfulNode(w.nodeA) && LawfulNode(w.nodeB) && Orderly(s.a) && Orderly(s.b)
    ensures Finished(w, s) ==>
      && (IsAuthorized(s.a) <==> Z85.Clean(RequestPack(w)) && Z85.Clean(ResponsePack(w)))
      && (IsAuthorized(s.b) <==> PacksAreClean(w))
  {
    hide Sessions, HandshakeBytes, Reachable, Orderly, Honest, Stream.Invariant, Finished, Z85.Clean;
    var phase := ReachableIsInPhase(w, steps, s);
    HonestParts(w);
    StreamBounds(w.nodeA.digest, s.ab, s.sentAB);
    StreamBounds(w.nodeA.digest, s.ba, s.sentBA);
    PhaseIsSafe(w, phase, s.a, s.b, ToB(s), ToA(s));
    if Finished(w, s) { FinishedIsExact(w, s, phase); }
  }

  predicate HoldsApplication(digest: Identifier.Digest, text: Text) {
    var bytes := Stream.Reading(digest, text);
    bytes.Some? && IsApplication(bytes.value)
  }

  lemma PhaseIsSafe(w: World, phase: nat, a: Side, b: Side, toB: seq<Text>, toA: seq<Text>)
    requires Honest(w) && Shape(w, phase, a, b, toB, toA)
    ensures !HasInvalidProcessor(a) && !HasInvalidProcessor(b)
    ensures toB != [] && HoldsApplication(w.nodeA.digest, toB[0]) ==> ForwardsToSink(b)
    ensures toA != [] && HoldsApplication(w.nodeA.digest, toA[0]) ==> ForwardsToSink(a)
    ensures IsAuthorized(a) ==> Z85.Clean(RequestPack(w)) && Z85.Clean(ResponsePack(w))
    ensures IsAuthorized(b) ==> PacksAreClean(w)
  {
    hide Sessions, RequestPack, ResponsePack, ConfirmationPack, Honest, Stream.Reading, Stream.Framed, Z85.Clean,
      Z85.Encoding, IsApplication, AllApplication;
    PacksRead(w);
  }

  /** When nothing can happen in a run, nothing can happen in its streams. */
  lemma FinishedIsSettled(w: World, s: State)
    requires LawfulNode(w.nodeA) && LawfulNode(w.nodeB) && Orderly(s.a) && Orderly(s.b) && Finished(w, s)
    ensures Stream.Settled(s.ab) && Stream.Settled(s.ba) && s.a != Unlinked
  {
    hide Deliver, Orderly, Stream.Enabled, Stream.BodyRead;
    assert !Enabled(w, s, Start);
    forall t | Stream.Enabled(s.ab, t) ensures t.Schedule? {
      if !t.Schedule? { StreamMovesOn(w, s, true, t); }
    }
    forall t | Stream.Enabled(s.ba, t) ensures t.Schedule? {
      if !t.Schedule? { StreamMovesOn(w, s, false, t); }
    }
  }

  lemma StreamMovesOn(w: World, s: State, toB: bool, t: Stream.Step)
    requires LawfulNode(w.nodeA) && LawfulNode(w.nodeB) && Orderly(s.a) && Orderly(s.b)
    requires Stream.Enabled(if toB then s.ab else s.ba, t) && !t.Schedule?
    ensures exists step :: Enabled(w, s, step) && !step.SendA? && !step.SendB?
  {
    hide StreamEnabled, Orderly;
    if toB {
      var t' := Answered(w.nodeB, s.b, w.coinsB, s.ab, t);
      assert Enabled(w, s, OnAB(t'));
    } else {
      var t' := Answered(w.nodeA, s.a, w.coinsA, s.ba, t);
      assert Enabled(w, s, OnBA(t'));
    }
  }

  /** The same step of a stream, with the answer that the node gives. */
  lemma Answered(node: Node, side: Side, coins: S.Coins, l: Stream.Link, t: Stream.Step) returns (t': Stream.Step)
    requires LawfulNode(node) && Orderly(side) && Stream.Enabled(l, t) && !t.Schedule?
    ensures StreamEnabled(node, side, coins, l, t')
  {
    hide Deliver, Orderly, Stream.BodyRead;
    t' := t;
    if t.DecodeBody? && Arriving(node.digest, l, t).Some? {
      t' := Stream.DecodeBody(Deliver(node, side, Arriving(node.digest, l, t).value, coins).1);
    }
  }

  lemma FinishedIsExact(w: World, s: State, phase: nat)
    requires Honest(w) && InPhase(w, s, phase) && LawfulNode(w.nodeA) && LawfulNode(w.nodeB) && Finished(w, s)
    ensures IsAuthorized(s.a) <==> Z85.Clean(RequestPack(w)) && Z85.Clean(ResponsePack(w))
    ensures IsAuthorized(s.b) <==> PacksAreClean(w)
  {
    hide Orderly, Honest, Stream.Invariant, Stream.Reading, Stream.Settled, Stream.Framed, Finished, RequestPack,
      ResponsePack, ConfirmationPack, Z85.Clean, Z85.Encoding, Sessions, AllApplication;
    var digest := w.nodeA.digest;
    FinishedIsSettled(w, s);
    PhaseOfSides(w, s, phase);
    PacksRead(w);
    StreamBounds(digest, s.ab, s.sentAB);
    StreamBounds(digest, s.ba, s.sentBA);
    if phase == 2 {
      FailsOnHead(digest, s.ba, s.sentBA);
    } else if phase < 4 {
      FailsOnHead(digest, s.ab, s.sentAB);
    }
  }

  /** A stream that comes to rest with something on its way could not read the head of that. */
  lemma FailsOnHead(digest: Identifier.Digest, l: Stream.Link, sent: seq<Text>)
    requires Stream.Invariant(digest, l, sent) && Stream.Settled(l) && l.phase != Stream.Refused
    requires |l.delivered| < |sent|
    ensures Stream.Reading(digest, sent[|l.delivered|]) == None
  {
    hide Stream.Invariant, Stream.Reading;
    Stream.SettledIsDone(digest, l, sent);
    Stream.FailedOnHead(digest, l, sent);
  }

  // ---- Progress ----

  /** What is left to be done in the two streams. */
  function Work(s: State): (work: int)
    requires Stream.Queued(s.ab) && Stream.Queued(s.ba)
    ensures work >= 0
  {
    Stream.Work(s.ab) + Stream.Work(s.ba)
  }

  ghost predicate Closer(next: State, s: State)
    requires Stream.Queued(s.ab) && Stream.Queued(s.ba)
  {
    && Stream.Queued(next.ab) && Stream.Queued(next.ba)
    && (Remaining(next) < Remaining(s) || (Remaining(next) == Remaining(s) && Work(next) < Work(s)))
  }

  /** Every step but sending application messages brings a run closer to its end. */
  lemma StepGetsCloser(w: World, s: State, phase: nat, step: Step)
    requires Honest(w) && InPhase(w, s, phase) && LawfulNode(w.nodeA) && LawfulNode(w.nodeB)
    requires Enabled(w, s, step) && !step.SendA? && !step.SendB?
    ensures Stream.Queued(s.ab) && Stream.Queued(s.ba)
    ensures Closer(Next(w, s, step), s)
  {
    hide Shape, Honest, Stream.Invariant, Stream.Framed, Stream.Reading, Deliver, Orderly, Texts, Stream.Next,
      Stream.BodyRead, Stream.Enabled, Stream.Work, Remaining;
    var digest, next := w.nodeA.digest, Next(w, s, step);
    HonestParts(w);
    StreamBounds(digest, s.ab, s.sentAB);
    StreamBounds(digest, s.ba, s.sentBA);
    PhaseOfSides(w, s, phase);
    match step {
      case OnAB(t) =>
        var phase' := AcceptorSteps(w, s, phase, t);
        PhaseOfSides(w, next, phase');
        Stream.WorkDecreases(digest, s.ab, s.sentAB, t);
      case OnBA(t) =>
        var phase' := InitiatorSteps(w, s, phase, t);
        PhaseOfSides(w, next, phase');
        Stream.WorkDecreases(digest, s.ba, s.sentBA, t);
      case Start =>
        StartsFirst(w, s);
        PhaseOfSides(w, next, 1);
    }
  }

  /** Whatever happens in a run, other than another application message, brings it closer to its end:
      it cannot go on for ever. */
  lemma EveryStepGetsCloser(w: World, steps: seq<Step>, s: State, step: Step)
    requires Honest(w) && Reachable(w, steps, s)
    requires LawfulNode(w.nodeA) && LawfulNode(w.nodeB) && Orderly(s.a) && Orderly(s.b) && Enabled(w, s, step)
    requires !step.SendA? && !step.SendB?
    ensures Stream.Queued(s.ab) && Stream.Queued(s.ba)
    ensures Closer(Next(w, s, step), s)
  {
    hide Honest, Orderly, Reachable, InPhase, Next, Enabled;
    var phase := ReachableIsInPhase(w, steps, s);
    StepGetsCloser(w, s, phase, step);
  }

  /** From every state that can be reached, a run can go on to its end without another application
      message, and then both sides are authorized exactly if the three packs are clean. */
  lemma ExchangeEnds(w: World, steps: seq<Step>, s: State) returns (all: seq<Step>, last: State)
    requires Honest(w) && Reachable(w, steps, s)
    ensures steps <= all && Reachable(w, all, last)
    ensures LawfulNode(w.nodeA) && LawfulNode(w.nodeB) && Orderly(last.a) && Orderly(last.b) && Finished(w, last)
    ensures IsAuthorized(last.a) && IsAuthorized(last.b) <==> PacksAreClean(w)
  {
    hide Honest, Orderly, Reachable, Shape, Enabled, Finished, Stream.Invariant;
    var phase := ReachableIsInPhase(w, steps, s);
    StreamBounds(w.nodeA.digest, s.ab, s.sentAB);
    StreamBounds(w.nodeA.digest, s.ba, s.sentBA);
    all, last := RunsToItsEnd(w, steps, s);
    HonestRunsAuthorize(w, all, last);
  }

  lemma {:induction false} RunsToItsEnd(w: World, steps: seq<Step>, s: State) returns (all: seq<Step>, last: State)
    requires Honest(w) && Reachable(w, steps, s)
    requires Stream.Queued(s.ab) && Stream.Queued(s.ba)
    ensures steps <= all && Reachable(w, all, last)
    ensures LawfulNode(w.nodeA) && LawfulNode(w.nodeB) && Orderly(last.a) && Orderly(last.b) && Finished(w, last)
    decreases Remaining(s), Work(s)
  {
    hide Honest, Orderly, Reachable, InPhase, Next, Enabled, Remaining, Work, Stream.Queued;
    HonestParts(w);
    var phase := ReachableIsInPhase(w, steps, s);
    if Finished(w, s) {
      return steps, s;
    }
    var step :| Enabled(w, s, step) && !step.SendA? && !step.SendB?;
    StepGetsCloser(w, s, phase, step);
    ExtendRun(w, steps, s, step);
    all, last := RunsToItsEnd(w, steps + [step], Next(w, s, step));
  }

  lemma ExtendRun(w: World, steps: seq<Step>, s: State, step: Step)
    requires Honest(w) && Reachable(w, steps, s) && LawfulNode(w.nodeA) && LawfulNode(w.nodeB)
    requires Orderly(s.a) && Orderly(s.b) && Enabled(w, s, step)
    ensures Reachable(w, steps + [step], Next(w, s, step))
  {
    hide Honest, Orderly, Next, Enabled;
    assert (steps + [step])[..|steps + [step]| - 1] == steps;
  }

  // ---- The keys of authorized sides ----

  /** Two sides that are authorized can read what the other one encrypts and signs. */
  lemma AuthorizedSidesArePaired(w: World, steps: seq<Step>, s: State)
    requires Honest(w) && Reachable(w, steps, s) && IsAuthorized(s.a) && IsAuthorized(s.b)
    ensures s.a.peer.mediator.strategy.Some? && s.b.peer.mediator.strategy.Some?
    ensures
      var a := Handshake.Handlers(w.nodeA.primitives, s.a.peer.mediator.strategy.value.store);
      var b := Handshake.Handlers(w.nodeB.primitives, s.b.peer.mediator.strategy.value.store);
      A.Paired(a, b) && A.Paired(b, a)
  {
    hide Reachable, Sessions, HandshakeBytes, IsApplication, A.Paired, Handshake.Handlers, Z85.Clean, AllApplication,
      Orderly, Stream.Invariant;
    var phase := ReachableIsInPhase(w, steps, s);
    PhaseOfSides(w, s, phase);
    var h := Sessions(w);
    SessionsComplete(w);
    Handshake.HandlersArePaired(w.nodeA.primitives, h.a.store, h.b.store);
    Handshake.HandlersArePaired(w.nodeA.primitives, h.b.store, h.a.store);
  }
}
