/** Both outcomes of a run of two honest nodes occur: there is a world in which they get authorized, and one
    in which they do not, because of the initiator's seed alone. */
module Outcomes {
  import opened Bytes
  import opened Authorization
  import opened HonestWorld
  import opened TwoNodes
  import Base58
  import Identifier
  import Positional
  import K = KeyStore
  import N = NetworkMessage
  import H = MessageHeader
  import PackUtils
  import S = Strategy
  import Z85
  import Handshake
  import Stream

  // ---- A seed that fails ----

  lemma PayloadInPack(m: N.Message)
    ensures
      var first := |H.Packed(m.header)| + 5;
      && |N.Packed(m)| % 4 == 0 && |N.Packed(m)| >= first + |m.payload|
      && N.Packed(m)[first..first + |m.payload|] == m.payload
  {
    hide H.Packed;
    var header, first := H.Packed(m.header), |H.Packed(m.header)| + 5;
    var front := header + ([N.KindByte(m.kind)] + PackUtils.Chunk(|m.payload|, 4));
    var bytes := header + N.Body(m);
    assert bytes == front + (m.payload + [0]);
    assert bytes[first..first + |m.payload|] == m.payload;
  }

  /** Seven bytes FF in a row hold an aligned block. */
  lemma SevenInARow(bytes: seq<byte>, first: nat)
    requires |bytes| % 4 == 0 && first + 7 <= |bytes|
    requires forall i :: first <= i < first + 7 ==> bytes[i] == 0xFF
    ensures !Z85.Clean(bytes)
  {
    var k := (first + 3) / 4;
    assert Z85.ZeroPadded(bytes) == bytes;
    assert Z85.ByteBlock(bytes, k) == Z85.LAST_BLOCK;
  }

  /** If all bytes of the initiator's seed are FF, which may happen, the acceptor cannot read the
      request, and nobody is ever authorized. */
  lemma SeedThatFails(w: World, steps: seq<Step>, s: TwoNodes.State)
    requires Honest(w) && Reachable(w, steps, s)
    requires w.coinsA.seed == Some(seq(S.SEED_SIZE, _ => 0xFF))
    ensures !Z85.Clean(RequestPack(w)) && !IsAuthorized(s.a) && !IsAuthorized(s.b)
    ensures LawfulNode(w.nodeA) && LawfulNode(w.nodeB) && Orderly(s.a) && Orderly(s.b)
    ensures Finished(w, s) ==> s.ab.phase == Stream.Failed
  {
    hide Reachable, Orderly, Finished, Z85.Clean;
    RequestHoldsSeed(w);
    HonestRunsAuthorize(w, steps, s);
    if Finished(w, s) { FailsWithRequest(w, steps, s); }
  }

  lemma FailsWithRequest(w: World, steps: seq<Step>, s: TwoNodes.State)
    requires Honest(w) && Reachable(w, steps, s) && !Z85.Clean(RequestPack(w))
    requires LawfulNode(w.nodeA) && LawfulNode(w.nodeB) && Orderly(s.a) && Orderly(s.b) && Finished(w, s)
    ensures s.ab.phase == Stream.Failed
  {
    hide Reachable, Orderly, Finished, Z85.Clean, Stream.Invariant, Stream.Settled, Honest, Sessions, RequestPack,
      ResponsePack, ConfirmationPack, AllApplication, Z85.Encoding;
    var phase := ReachableIsInPhase(w, steps, s);
    FinishedIsSettled(w, s);
    StreamBounds(w.nodeA.digest, s.ab, s.sentAB);
    Stream.SettledIsDone(w.nodeA.digest, s.ab, s.sentAB);
  }

  lemma RequestHoldsSeed(w: World)
    requires Honest(w) && w.coinsA.seed == Some(seq(S.SEED_SIZE, _ => 0xFF))
    ensures !Z85.Clean(RequestPack(w))
  {
    hide N.Packed, H.Packed, Z85.Clean, Sessions, Honest, HandshakeMessage;
    SessionsComplete(w);
    var payload := Sessions(w).request.message;
    RequestMessage(w, payload);
    var m := HandshakeMessage(w.idA, None, payload);
    MessageIsHandshake(w.idA, None, payload);
    PayloadInPack(m);
    var first := |H.Packed(m.header)| + 5;
    forall i | first + 2 <= i < first + 9 ensures N.Packed(m)[i] == 0xFF {
      assert N.Packed(m)[first..first + |payload|][i - first] == payload[i - first];
    }
    SevenInARow(N.Packed(m), first + 2);
  }

  lemma RequestMessage(w: World, payload: seq<byte>)
    requires Honest(w) && w.coinsA.seed == Some(seq(S.SEED_SIZE, _ => 0xFF))
    requires Sessions(w).request == S.Done(payload)
    ensures |payload| >= 34 && forall i :: 2 <= i < 34 ==> payload[i] == 0xFF
  {
    hide Sessions, S.PrepareSynchronization;
    Unfolded(w);
    KeyIsWorking(w);
    Handshake.RequestIsType(w.nodeA.primitives, w.nodeA.context, S.New(K.Initiator), w.coinsA);
  }

  lemma KeyIsWorking(w: World)
    requires Honest(w)
    ensures w.nodeA.context.publicKey != []
  {
  }

  /** In the world without secrets, it is. */
  lemma FailingWorldExists() returns (w: World)
    ensures Honest(w) && w.coinsA.seed == Some(seq(S.SEED_SIZE, _ => 0xFF)) && !Z85.Clean(RequestPack(w))
  {
    hide Honest, Z85.Clean;
    var seed: seq<byte> := seq(S.SEED_SIZE, _ => 0xFF);
    TrivialWorldIsHonest(seed);
    w := TrivialWorld(seed);
    RequestHoldsSeed(w);
  }

  // ---- A seed that does not ----

  predicate Low(bytes: seq<byte>) {
    forall i :: 0 <= i < |bytes| ==> bytes[i] != 0xFF
  }

  /** No two bytes FF follow each other, and the first is not FF: this survives concatenation. */
  predicate Quiet(bytes: seq<byte>) {
    && (bytes != [] ==> bytes[0] != 0xFF)
    && forall i :: 0 <= i < |bytes| - 1 ==> bytes[i] != 0xFF || bytes[i + 1] != 0xFF
  }

  lemma QuietAppend(a: seq<byte>, b: seq<byte>)
    requires Quiet(a) && Quiet(b)
    ensures Quiet(a + b)
  {
    forall i | 0 <= i < |a + b| - 1 ensures (a + b)[i] != 0xFF || (a + b)[i + 1] != 0xFF {
      if i >= |a| { assert b[i - |a|] != 0xFF || b[i - |a| + 1] != 0xFF; }
    }
  }

  lemma QuietIsClean(bytes: seq<byte>)
    requires Quiet(bytes)
    ensures Z85.Clean(bytes)
  {
    var n := Z85.DecodedBlocks(|bytes|);
    var padded := Z85.ZeroPadded(bytes);
    QuietAppend(bytes, Positional.Zeros(Z85.PaddingBytes(|bytes|)));
    hide Quiet, Z85.ZeroPadded, Z85.DecodedBlocks;
    forall k | 0 <= k < n ensures Z85.ByteBlock(padded, k) != Z85.LAST_BLOCK {
      QuietBlock(padded, k);
    }
  }

  lemma QuietBlock(bytes: seq<byte>, k: nat)
    requires Quiet(bytes) && 4 * k + 4 <= |bytes|
    ensures Z85.ByteBlock(bytes, k) != Z85.LAST_BLOCK
  {
    var i := 4 * k;
    assert bytes[i] != 0xFF || bytes[i + 1] != 0xFF;
    assert Z85.ByteBlock(bytes, k)[0] == bytes[i] && Z85.ByteBlock(bytes, k)[1] == bytes[i + 1];
  }

  lemma SmallChunk(value: nat)
    requires value < 0xFF00
    ensures Quiet(PackUtils.Chunk(value, 4))
  {
    assert Positional.Digits(256, value, 4)
      == Positional.Digits(256, value / 256, 3) + [value % 256];
    assert Positional.Digits(256, value / 256, 3)
      == Positional.Digits(256, value / 256 / 256, 2) + [value / 256 % 256];
    assert Positional.Digits(256, value / 256 / 256, 2)
      == Positional.Digits(256, value / 256 / 256 / 256, 1) + [value / 256 / 256 % 256];
  }

  lemma SizedIsQuiet(source: seq<byte>)
    requires Low(source) && |source| < 0xFF
    ensures Quiet(PackUtils.SizedChunk(source, 1))
  {
    PackUtils.ByteChunk(|source|);
    QuietAppend(PackUtils.Chunk(|source|, 1), source);
  }

  lemma BodyIsQuiet(m: N.Message)
    requires Low(m.payload) && |m.payload| < 0xFF00
    ensures Quiet(N.Body(m))
  {
    hide PackUtils.Chunk;
    var kind, sized := [N.KindByte(m.kind)], PackUtils.SizedChunk(m.payload, 4);
    SmallChunk(|m.payload|);
    QuietAppend(PackUtils.Chunk(|m.payload|, 4), m.payload);
    QuietAppend(kind, sized);
    QuietAppend(kind + sized, [0]);
  }

  lemma HeaderIsQuiet(h: H.Header)
    requires h.major == h.minor == 0 && h.size < 0xFF00
    requires Low(h.source.network) && |h.source.network| < 0xFF
    requires Low(H.NetworkText(h.to)) && |H.NetworkText(h.to)| < 0xFF
    ensures Quiet(H.Packed(h))
  {
    hide PackUtils.Chunk, PackUtils.SizedChunk;
    var source, to := PackUtils.SizedChunk(h.source.network, 1), PackUtils.SizedChunk(H.NetworkText(h.to), 1);
    var destination := [H.DestinationByte(h.destination)];
    SmallChunk(h.size);
    QuietAppend([H.ProtocolByte(h.protocol), h.major, h.minor], PackUtils.Chunk(h.size, 4));
    SizedIsQuiet(h.source.network);
    SizedIsQuiet(H.NetworkText(h.to));
    QuietAppend(source, destination);
    QuietAppend(source + destination, to);
    QuietAppend(source + destination + to, [0]);
    QuietAppend(H.PackedStart(h), H.PackedRoute(h));
  }

  /** The packed form of a small handshake message without a byte FF in it. */
  lemma HandshakeIsClean(source: Identifier.Container, to: Option<Identifier.Container>, payload: seq<byte>)
    requires Low(source.network) && |source.network| < 0xFF
    requires to.Some? ==> Low(to.value.network) && |to.value.network| < 0xFF
    requires Low(payload) && |payload| <= 2000
    ensures Z85.Clean(HandshakeBytes(source, to, payload))
  {
    var m := HandshakeMessage(source, to, payload);
    SizeIsSmall(m);
    hide Quiet, H.Packed, N.Body, Z85.Clean;
    HeaderIsQuiet(m.header);
    BodyIsQuiet(m);
    QuietAppend(H.Packed(m.header), N.Body(m));
    QuietIsClean(H.Packed(m.header) + N.Body(m));
    PaddedIsClean(H.Packed(m.header) + N.Body(m));
  }

  lemma SizeIsSmall(m: N.Message)
    requires |m.payload| <= 2000 && |m.header.source.network| < 0xFF && |H.NetworkText(m.header.to)| < 0xFF
    ensures N.PackSize(m) < 0xFF00
  {
  }

  lemma PaddedIsClean(bytes: seq<byte>)
    requires Z85.Clean(bytes)
    ensures Z85.Clean(Z85.ZeroPadded(bytes))
  {
    hide Z85.Encodable;
    N.PaddedOnce(bytes);
  }

  // ---- The world without secrets ----

  lemma IdentifierIsLow()
    ensures Low(TrivialIdentifier().network) && |TrivialIdentifier().network| < 0xFF
  {
    hide Identifier.Payload, Base58.Encoding;
    var x := 0x1_00_0000_0000_0000_0000_0000_0000;
    TrivialIsParsable(x);
    Base58.DecodeEncode(Identifier.Payload(TrivialDigest, x));
  }

  /** Nothing but zeros and the type of the messages is ever sent. */
  lemma GeneratedIsLow(store: K.Store, role: K.Role, secret: seq<byte>)
    requires K.Lawful(Handshake.Trivial(0))
    ensures
      var (ok, next) := K.Generated(Handshake.Trivial(0), store, role, secret, S.CONTENT_KEY_SIZE, K.SIGNATURE_SIZE);
      ok ==> next.verification.Some? && Low(next.verification.value)
  {
  }

  lemma ResponseIsLow(s: S.Session, seed: seq<byte>, encapsulation: seq<byte>)
    requires s.store.verification.Some? ==> Low(s.store.verification.value)
    requires Low(seed) && Low(encapsulation)
    ensures
      var outcome := S.Response(Handshake.Trivial(0), s, seed, encapsulation).1;
      outcome.Done? ==> Low(outcome.message)
  {
  }

  lemma ConfirmationIsLow(s: S.Session)
    requires s.store.verification.Some? ==> Low(s.store.verification.value)
    ensures
      var outcome := S.VerificationRequest(Handshake.Trivial(0), s).1;
      outcome.Done? ==> Low(outcome.message)
  {
  }

  lemma AcceptorIsLow(s: S.Session, request: seq<byte>, coins: S.Coins)
    requires K.Lawful(Handshake.Trivial(0)) && (coins.seed.Some? ==> Low(coins.seed.value))
    ensures
      var outcome := S.AcceptorInitialization(Handshake.Trivial(0), s, request, coins).1;
      outcome.Done? ==> Low(outcome.message)
  {
    var p := Handshake.Trivial(0);
    if S.HasType(request) && |request| == S.REQUEST_SIZE && coins.seed.Some? {
      var store := s.store.(seed := s.store.seed + request[2..34] + coins.seed.value,
                            peerPublicKey := Some(request[34..964]));
      var (encapsulation, secret) := p.encapsulate(request[34..964], coins.kem).value;
      hide K.Generated, S.Response;
      GeneratedIsLow(store, K.Acceptor, secret);
      var (ok, keyed) := K.Generated(p, store, K.Acceptor, secret, S.CONTENT_KEY_SIZE, K.SIGNATURE_SIZE);
      if ok {
        ResponseIsLow(s.(store := keyed, transaction := s.transaction + request), coins.seed.value, encapsulation);
      }
    }
  }

  lemma InitiatorIsLow(context: S.Context, s: S.Session, response: seq<byte>)
    requires K.Lawful(Handshake.Trivial(0))
    ensures
      var outcome := S.InitiatorInitialization(Handshake.Trivial(0), context, s, response).1;
      outcome.Done? ==> Low(outcome.message)
  {
    var p := Handshake.Trivial(0);
    if S.HasType(response) && |response| == S.RESPONSE_SIZE && context.decapsulate(response[34..964]).Some? {
      var store := s.store.(seed := s.store.seed + response[2..34]);
      var secret := context.decapsulate(response[34..964]).value;
      hide K.Generated, S.VerificationRequest, S.Verify, S.VerifyKeyShare;
      GeneratedIsLow(store, K.Initiator, secret);
      var (ok, keyed) := K.Generated(p, store, K.Initiator, secret, S.CONTENT_KEY_SIZE, K.SIGNATURE_SIZE);
      if ok { ConfirmationIsLow(s.(store := keyed, transaction := s.transaction + response)); }
    }
  }

  lemma AnswerIsLow(context: S.Context, s: S.Session, buffer: seq<byte>, coins: S.Coins)
    requires K.Lawful(Handshake.Trivial(0)) && (coins.seed.Some? ==> Low(coins.seed.value)) && s.stage == 0
    ensures Low(Handshake.Message(S.Synchronize(Handshake.Trivial(0), context, s, buffer, coins).1))
  {
    hide S.AcceptorInitialization, S.InitiatorInitialization;
    match s.role {
      case Acceptor => AcceptorIsLow(s, buffer, coins);
      case Initiator => InitiatorIsLow(context, s, buffer);
    }
  }

  lemma PreparationIsLow(context: S.Context, s: S.Session, coins: S.Coins)
    requires Low(context.publicKey) && (coins.seed.Some? ==> Low(coins.seed.value))
    ensures
      var (next, outcome) := S.PrepareSynchronization(Handshake.Trivial(0), context, s, coins);
      next.stage == 0 && Low(Handshake.Message(outcome))
  {
  }

  lemma MessagesAreLow(w: World)
    requires Honest(w) && w.nodeA.primitives == Handshake.Trivial(0) && Low(w.nodeA.context.publicKey)
    requires Low(w.coinsA.seed.value) && Low(w.coinsB.seed.value) && Low(w.nodeB.context.publicKey)
    ensures
      var h := Sessions(w);
      && Low(Handshake.Message(h.request)) && Low(Handshake.Message(h.response))
      && Low(Handshake.Message(h.confirmation))
  {
    Unfolded(w);
    HonestParts(w);
    var h := Sessions(w);
    hide Sessions, Honest, S.PrepareSynchronization, S.Synchronize, Handshake.Message, Handshake.Trivial, Low;
    PreparationIsLow(w.nodeA.context, S.New(K.Initiator), w.coinsA);
    PreparationIsLow(w.nodeB.context, S.New(K.Acceptor), w.coinsB);
    AnswerIsLow(w.nodeB.context, h.waiting, Handshake.Message(h.request), w.coinsB);
    AnswerIsLow(w.nodeA.context, h.prepared, Handshake.Message(h.response), w.coinsA);
  }

  lemma TrivialSecretsAreLow()
    ensures
      var w := TrivialWorld(seq(S.SEED_SIZE, _ => 0));
      && w.nodeA.primitives == Handshake.Trivial(0) && Low(w.nodeA.context.publicKey) && w.nodeB == w.nodeA
      && w.coinsA == w.coinsB && w.coinsA.seed.Some? && Low(w.coinsA.seed.value)
      && w.idA == w.idB == TrivialIdentifier()
  {
    hide TrivialIdentifier, Handshake.Trivial;
  }

  lemma MessageLengths(w: World)
    requires Honest(w)
    ensures
      var h := Sessions(w);
      && |Handshake.Message(h.request)| <= 2000 && |Handshake.Message(h.response)| <= 2000
      && |Handshake.Message(h.confirmation)| <= 2000
  {
    hide Sessions, Honest;
    SessionsComplete(w);
  }

  /** With a seed of zeros the three packs are clean. */
  lemma CleanWorldExists() returns (w: World)
    ensures Honest(w) && PacksAreClean(w)
  {
    hide Sessions, Honest, HandshakeBytes, Z85.Clean, Low, TrivialIdentifier, TrivialWorld, Handshake.Message;
    var seed: seq<byte> := seq(S.SEED_SIZE, _ => 0);
    TrivialWorldIsHonest(seed);
    w := TrivialWorld(seed);
    TrivialSecretsAreLow();
    MessagesAreLow(w);
    MessageLengths(w);
    IdentifierIsLow();
    var h := Sessions(w);
    HandshakeIsClean(w.idA, None, Handshake.Message(h.request));
    HandshakeIsClean(w.idB, Some(w.idA), Handshake.Message(h.response));
    HandshakeIsClean(w.idA, Some(w.idB), Handshake.Message(h.confirmation));
  }

  /** So there is a run after which both sides are authorized. */
  lemma AuthorizedRunExists() returns (w: World, steps: seq<Step>, s: TwoNodes.State)
    ensures Honest(w) && Reachable(w, steps, s) && IsAuthorized(s.a) && IsAuthorized(s.b)
  {
    hide Honest, PacksAreClean, Finished, IsAuthorized, Orderly;
    w := CleanWorldExists();
    assert Reachable(w, [], INITIALLY);
    steps, s := ExchangeEnds(w, [], INITIALLY);
  }
}
