/** Two strategies that exchange the messages of an honest handshake. */
module Handshake {
  import opened Bytes
  import opened KeyStore
  import opened Strategy
  import A = ApplicationMessage
  import Identifier

  /** The key pair works: what is encapsulated for the public key can be decapsulated. */
  ghost predicate WorkingContext(p: Primitives, context: Context) {
    && |context.publicKey| == PUBLIC_KEY_SIZE
    && forall coins :: p.encapsulate(context.publicKey, coins).Some? ==>
         context.decapsulate(p.encapsulate(context.publicKey, coins).value.0)
         == Some(p.encapsulate(context.publicKey, coins).value.1)
  }

  /** No primitive fails but, perhaps, the one that makes signatures. */
  ghost predicate DerivesKeys(p: Primitives) {
    && (forall data, size :: p.digest(data, size).Some?)
    && (forall key, coins :: p.encapsulate(key, coins).Some?)
    && (forall key, nonce, plain :: p.encrypt(key, nonce, plain).Some?)
  }

  ghost predicate Reliable(p: Primitives) {
    DerivesKeys(p) && forall key, data :: p.mac(key, data).Some?
  }

  // ---- Two sides with the same keys ----

  predicate Keyed(store: Store) {
    && store.hasKeys && HoldsKeys(store, CONTENT_KEY_SIZE, SIGNATURE_SIZE)
    && store.verification.Some? && |store.verification.value| == VERIFICATION_SIZE
  }

  lemma SharedVerification(p: Primitives, a: Store, b: Store)
    requires Lawful(p) && Keyed(a) && Keyed(b) && Mirrored(a, b)
    ensures
      var data := GenerateVerificationData(p, a);
      && !data.Threw?
      && (data.Done? ==> |data.message| == VERIFICATION_SIZE && VerifyKeyShare(p, b, data.message) == Done([]))
  {
  }

  // ---- The three messages ----

  /** What follows the type and the seed in a response, up to the signature. */
  function ResponseBody(seed: seq<byte>, encapsulation: seq<byte>, data: seq<byte>): seq<byte> {
    TYPE + seed + encapsulation + data
  }

  /** The shape of a response: the acceptor has signed the request together with it, if it could. */
  ghost predicate ResponseTo(p: Primitives, b: Session, request: seq<byte>, seed: seq<byte>,
                             encapsulation: seq<byte>, outcome: Outcome) {
    var data := GenerateVerificationData(p, b.store);
    data.Done? &&
      var body := ResponseBody(seed, encapsulation, data.message);
      b.transaction == request + body && outcome == WithSignature(body, Sign(p, b.store, b.transaction))
  }

  /** The acceptor can make a secret for the initiator, derive keys from it and encrypt with them. */
  ghost predicate Answerable(p: Primitives, store: Store, publicKey: seq<byte>, coins: seq<byte>)
    requires Lawful(p)
  {
    && p.encapsulate(publicKey, coins).Some?
    && var (ok, keyed) := Generated(p, store, Acceptor, p.encapsulate(publicKey, coins).value.1, CONTENT_KEY_SIZE,
                                    SIGNATURE_SIZE);
       ok && GenerateVerificationData(p, keyed).Done?
  }

  /** The initiator's request makes the acceptor derive keys and respond, if the primitives let it. */
  lemma Request(p: Primitives, context: Context, b: Session, seed: seq<byte>, coins: Coins)
    requires Lawful(p) && WorkingContext(p, context) && |seed| == SEED_SIZE
    requires b.role == Acceptor && b.status == Processing && b.stage == 0 && b.transaction == []
    requires IsCoins(coins) && coins.seed.Some?
    ensures
      var request := TYPE + seed + context.publicKey;
      var (b', response) := AcceptorInitialization(p, b, request, coins);
      && !response.Threw? && b'.role == Acceptor
      && (response.Done? <==> Answerable(p, b.store, context.publicKey, coins.kem))
      && (response.Failed? ==> b'.stage == 0)
      && (response.Done? ==>
            var secret := p.encapsulate(context.publicKey, coins.kem).value;
            var keyed := Generated(p, b.store, Acceptor, secret.1, CONTENT_KEY_SIZE, SIGNATURE_SIZE).1;
            && b' == b.(stage := 1, store := keyed.(seed := b.store.seed + seed + coins.seed.value,
                                                    peerPublicKey := Some(context.publicKey)),
                        transaction := b'.transaction)
            && Keyed(b'.store)
            && ResponseTo(p, b', request, coins.seed.value, secret.0, response))
  {
    var request := TYPE + seed + context.publicKey;
    assert |request| == REQUEST_SIZE && TYPE <= request;
    assert request[2..34] == seed && request[34..964] == context.publicKey;
    match p.encapsulate(context.publicKey, coins.kem) {
      case None =>
      case Some(secret) =>
        var seeded := b.store.(seed := b.store.seed + seed + coins.seed.value,
                               peerPublicKey := Some(context.publicKey));
        hide Response;
        GeneratedDependsOnSecret(p, b.store, seeded, Acceptor, secret.1);
        var keyed := Generated(p, seeded, Acceptor, secret.1, CONTENT_KEY_SIZE, SIGNATURE_SIZE);
        assert b.transaction + request == request;
        if keyed.0 { Responds(p, b.(store := keyed.1, transaction := request), coins.seed.value, secret.0); }
        hide Generated;
    }
  }

  lemma GeneratedDependsOnSecret(p: Primitives, store: Store, seeded: Store, role: Role, secret: seq<byte>)
    requires Lawful(p)
    requires seeded == store.(seed := seeded.seed, peerPublicKey := seeded.peerPublicKey)
    ensures
      var (ok, plain) := Generated(p, store, role, secret, CONTENT_KEY_SIZE, SIGNATURE_SIZE);
      && (ok ==> Keyed(plain))
      && Generated(p, seeded, role, secret, CONTENT_KEY_SIZE, SIGNATURE_SIZE)
         == (ok, plain.(seed := seeded.seed, peerPublicKey := seeded.peerPublicKey))
  {
  }

  lemma Responds(p: Primitives, b: Session, seed: seq<byte>, encapsulation: seq<byte>)
    requires Lawful(p) && Keyed(b.store)
    ensures
      var (b', outcome) := Response(p, b, seed, encapsulation);
      && !outcome.Threw?
      && (outcome.Done? <==> GenerateVerificationData(p, b.store).Done?)
      && (outcome.Failed? ==> b' == b.(status := Error))
      && (outcome.Done? ==>
            && b' == b.(stage := 1, transaction := b'.transaction)
            && ResponseTo(p, b', b.transaction, seed, encapsulation, outcome))
  {
  }

  lemma ResponseFields(p: Primitives, b: Session, request: seq<byte>, seed: seq<byte>, encapsulation: seq<byte>,
                       message: seq<byte>)
    requires Lawful(p) && Keyed(b.store)
    requires |seed| == SEED_SIZE && |encapsulation| == ENCAPSULATION_SIZE
    requires ResponseTo(p, b, request, seed, encapsulation, Done(message))
    ensures |message| == if Sign(p, b.store, b.transaction).Done? then RESPONSE_SIZE else UNSIGNED_RESPONSE_SIZE
    ensures HasType(message)
    ensures message[2..34] == seed && message[34..964] == encapsulation
    ensures message[964..996] == GenerateVerificationData(p, b.store).message
    ensures |message| == RESPONSE_SIZE ==>
      request + message == b.transaction + Sign(p, b.store, b.transaction).message
  {
    var data := GenerateVerificationData(p, b.store).message;
    var body := ResponseBody(seed, encapsulation, data);
    assert |data| == VERIFICATION_SIZE;
    SignatureLength(p, b.store, b.transaction);
    hide GenerateVerificationData, Sign;
    assert message[..996] == body;
    assert message[2..34] == body[2..34] == seed;
    assert message[34..964] == body[34..964] == encapsulation;
    assert message[964..996] == body[964..996] == data;
    assert message[..2] == TYPE;
  }

  lemma SignatureLength(p: Primitives, store: Store, source: seq<byte>)
    requires Lawful(p) && store.hasKeys
    ensures !Sign(p, store, source).Threw?
    ensures Sign(p, store, source).Done? ==> source != [] && |Sign(p, store, source).message| == SIGNATURE_SIZE
  {
  }

  /** A response of full size makes the initiator derive the mirrored keys and, unless it cannot encrypt
      its verification data, finish. */
  lemma Answer(p: Primitives, context: Context, a: Session, b: Session, request: seq<byte>, seed: seq<byte>,
               coins: seq<byte>, response: Outcome)
    requires Lawful(p) && WorkingContext(p, context)
    requires a.role == Initiator && a.stage == 0 && a.transaction == request && |seed| == SEED_SIZE
    requires Keyed(b.store) && p.encapsulate(context.publicKey, coins).Some?
    requires response.Done? && |response.message| == RESPONSE_SIZE
    requires
      var secret := p.encapsulate(context.publicKey, coins).value;
      var (ok, store) := Generated(p, a.store, Initiator, secret.1, CONTENT_KEY_SIZE, SIGNATURE_SIZE);
      && ResponseTo(p, b, request, seed, secret.0, response)
      && ok && Mirrored(store, b.store)
    ensures
      var (a', confirmation) := InitiatorInitialization(p, context, a, response.message);
      && Keyed(a'.store) && Mirrored(a'.store, b.store) && a'.store.seed == a.store.seed + seed
      && ConfirmationOf(p, a', confirmation) && a'.role == Initiator
      && (confirmation.Failed? ==> a'.status == Error)
      && (confirmation.Done? ==> a' == a.(status := Ready, stage := 1, transaction := [], store := a'.store))
  {
    var secret := p.encapsulate(context.publicKey, coins).value;
    var seeded := a.store.(seed := a.store.seed + seed);
    GeneratedDependsOnSecret(p, a.store, seeded, Initiator, secret.1);
    hide Generated;
    var a1 := a.(store := Generated(p, seeded, Initiator, secret.1, CONTENT_KEY_SIZE, SIGNATURE_SIZE).1);
    var message := response.message;
    ResponseFields(p, b, request, seed, secret.0, message);
    assert Mirrored(a1.store, b.store);
    ResponseVerifies(p, a1, b, request, seed, secret.0, message);
    Confirms(p, a1.(transaction := request + message));
    hide VerificationRequest, Verify, VerifyKeyShare, ResponseTo, ConfirmationOf;
  }

  lemma ResponseVerifies(p: Primitives, a: Session, b: Session, request: seq<byte>, seed: seq<byte>,
                         encapsulation: seq<byte>, message: seq<byte>)
    requires Lawful(p) && Keyed(a.store) && Keyed(b.store) && Mirrored(a.store, b.store)
    requires |seed| == SEED_SIZE && |encapsulation| == ENCAPSULATION_SIZE && |message| == RESPONSE_SIZE
    requires ResponseTo(p, b, request, seed, encapsulation, Done(message))
    ensures VerifyKeyShare(p, a.store, GenerateVerificationData(p, b.store).message) == Done([])
    ensures Verify(p, a.store, request + message) == Done([])
  {
    SharedVerification(p, b.store, a.store);
    ResponseFields(p, b, request, seed, encapsulation, message);
    SignatureLength(p, b.store, b.transaction);
    SignatureVerifies(p, b.store, a.store, b.transaction);
    hide GenerateVerificationData, Sign, Verify, VerifyKeyShare;
  }

  /** The initiator's last message: its verification data, signed if it can be. */
  ghost predicate ConfirmationOf(p: Primitives, a: Session, outcome: Outcome) {
    var data := GenerateVerificationData(p, a.store);
    match data
    case Threw => false
    case Failed => outcome == Failed
    case Done(data) => outcome == WithSignature(TYPE + data, Sign(p, a.store, TYPE + data))
  }

  lemma Confirms(p: Primitives, a: Session)
    requires Lawful(p) && Keyed(a.store)
    ensures
      var (a', outcome) := VerificationRequest(p, a);
      && a' == (if outcome.Done? then a.(status := Ready, stage := 1, transaction := []) else a.(status := Error))
      && ConfirmationOf(p, a, outcome) && !outcome.Threw?
  {
  }

  lemma ConfirmationFields(p: Primitives, a: Session, message: seq<byte>)
    requires Lawful(p) && Keyed(a.store) && ConfirmationOf(p, a, Done(message))
    ensures
      var data := GenerateVerificationData(p, a.store);
      && data.Done? && |data.message| == VERIFICATION_SIZE
      && |message| == (if Sign(p, a.store, TYPE + data.message).Done? then VERIFICATION_REQUEST_SIZE
                       else UNSIGNED_VERIFICATION_REQUEST_SIZE)
      && message[..2] == TYPE && message[2..34] == data.message
      && (|message| == VERIFICATION_REQUEST_SIZE ==>
            message == (TYPE + data.message) + Sign(p, a.store, TYPE + data.message).message)
  {
    var data := GenerateVerificationData(p, a.store).message;
    assert |data| == VERIFICATION_SIZE;
    SignatureLength(p, a.store, TYPE + data);
    hide GenerateVerificationData, Sign;
    assert message[..34] == TYPE + data;
    assert message[..2] == message[..34][..2] && message[2..34] == message[..34][2..];
  }

  /** A confirmation of full size makes the acceptor finish. */
  lemma Confirm(p: Primitives, a: Session, b: Session, confirmation: Outcome)
    requires Lawful(p) && b.role == Acceptor && b.stage == 1
    requires Keyed(a.store) && Keyed(b.store) && Mirrored(a.store, b.store)
    requires ConfirmationOf(p, a, confirmation)
    requires confirmation.Done? && |confirmation.message| == VERIFICATION_REQUEST_SIZE
    ensures AcceptorVerification(p, b, confirmation.message)
      == (b.(status := Ready, stage := 2, transaction := []), Done([]))
  {
    var data, message := GenerateVerificationData(p, a.store), confirmation.message;
    ConfirmationFields(p, a, message);
    SharedVerification(p, a.store, b.store);
    SignatureVerifies(p, a.store, b.store, TYPE + data.message);
    hide GenerateVerificationData, Sign, Verify, VerifyKeyShare, ConfirmationOf;
  }

  // ---- The whole handshake ----

  /** The sessions of an honest handshake and the messages that are exchanged. */
  datatype Handshake = Handshake(
    prepared: Session,    // of the initiator
    waiting: Session,     // of the acceptor
    answered: Session,    // of the acceptor
    a: Session,
    b: Session,
    request: Outcome,
    response: Outcome,
    confirmation: Outcome,
    last: Outcome)

  ghost function Exchange(p: Primitives, contextA: Context, contextB: Context, a: Session, b: Session,
                          coinsA: Coins, coinsB: Coins): Handshake
    requires Lawful(p)
  {
    var (a1, request) := PrepareSynchronization(p, contextA, a, coinsA);
    var (b1, _) := PrepareSynchronization(p, contextB, b, coinsB);
    var (b2, response) := Synchronize(p, contextB, b1, Message(request), coinsB);
    var (a2, confirmation) := Synchronize(p, contextA, a1, Message(response), coinsA);
    var (b3, last) := Synchronize(p, contextB, b2, Message(confirmation), coinsB);
    Handshake(a1, b1, b2, a2, b3, request, response, confirmation, last)
  }

  function Message(outcome: Outcome): seq<byte> {
    match outcome case Done(message) => message case _ => []
  }

  /** The acceptor can make every part of its response, and sign it. */
  ghost predicate Responded(p: Primitives, h: Handshake) {
    && h.answered.status == Processing && h.answered.stage == 1
    && Sign(p, h.answered.store, h.answered.transaction).Done?
  }

  /** The first two messages of an honest handshake, whatever primitives fail: the acceptor answers with
      a full response exactly if it could also sign it. */
  lemma Responding(p: Primitives, contextA: Context, contextB: Context, a: Session, b: Session, coinsA: Coins,
                   coinsB: Coins)
    requires Lawful(p) && WorkingContext(p, contextA)
    requires a.role == Initiator && b.role == Acceptor
    requires IsCoins(coinsA) && coinsA.seed.Some? && IsCoins(coinsB) && coinsB.seed.Some?
    ensures
      var h := Exchange(p, contextA, contextB, a, b, coinsA, coinsB);
      && h.prepared.status == Processing && h.waiting.status == Processing
      && h.prepared.stage == 0 && h.waiting.stage == 0 && h.prepared.role == Initiator && h.waiting.role == Acceptor
      && h.request == Done(h.prepared.transaction) && |h.request.message| == REQUEST_SIZE
      && h.answered.role == Acceptor && h.answered.stage <= 1
      && (h.answered.stage == 1 <==> Answerable(p, h.waiting.store, contextA.publicKey, coinsB.kem))
      && (h.answered.stage == 0 ==> h.response == Done([]) && h.answered.status == Error)
      && (h.answered.stage == 1 ==>
            && h.answered.status == Processing && Keyed(h.answered.store) && h.response.Done?
            && p.encapsulate(contextA.publicKey, coinsB.kem).Some?
            && var secret := p.encapsulate(contextA.publicKey, coinsB.kem).value;
            && ResponseTo(p, h.answered, h.prepared.transaction, coinsB.seed.value, secret.0, h.response)
            && var (ok, store) := Generated(p, h.prepared.store, Initiator, secret.1, CONTENT_KEY_SIZE, SIGNATURE_SIZE);
            && ok && Mirrored(store, h.answered.store)
            && h.prepared.store.seed == (if a.store.hasKeys then [] else a.store.seed) + coinsA.seed.value
            && h.answered.store.seed
               == (if b.store.hasKeys then [] else b.store.seed) + coinsA.seed.value + coinsB.seed.value)
      && (|Message(h.response)| == RESPONSE_SIZE <==> Responded(p, h))
  {
    var (a1, request) := PrepareSynchronization(p, contextA, a, coinsA);
    var (b1, _) := PrepareSynchronization(p, contextB, b, coinsB);
    assert request.message == TYPE + coinsA.seed.value + contextA.publicKey;
    Request(p, contextA, b1, coinsA.seed.value, coinsB);
    var (b2, response) := AcceptorInitialization(p, b1, request.message, coinsB);
    hide AcceptorInitialization, InitiatorInitialization, AcceptorVerification, ResponseTo;
    if response.Done? {
      var secret := p.encapsulate(contextA.publicKey, coinsB.kem).value;
      SameSecretMirrors(p, a1.store, b1.store, secret.1, CONTENT_KEY_SIZE, SIGNATURE_SIZE);
      ResponseFields(p, b2, request.message, coinsB.seed.value, secret.0, response.message);
      hide Generated;
    }
  }

  lemma PreparedIsSafe(p: Primitives, context: Context, s: Session, coins: Coins)
    ensures
      var (next, outcome) := PrepareSynchronization(p, context, s, coins);
      Invariant(next) && !next.store.hasKeys
  {
  }

  /** The initiator's last message is one of full size exactly if it got ready and could sign it. */
  ghost predicate Confirmed(p: Primitives, h: Handshake) {
    && h.a.status == Ready && GenerateVerificationData(p, h.a.store).Done?
    && Sign(p, h.a.store, TYPE + GenerateVerificationData(p, h.a.store).message).Done?
  }

  /** An honest handshake, from whatever states the two strategies are in and whatever primitives fail
      on the way: the initiator gets ready exactly if it received a full response and could encrypt its
      verification data, and the acceptor exactly if the initiator could also sign that. Otherwise
      the sides that do not get ready end in error. Sides that are ready hold mirrored keys. */
  lemma CompletesExactly(p: Primitives, contextA: Context, contextB: Context, a: Session, b: Session,
                         coinsA: Coins, coinsB: Coins)
    requires Lawful(p) && WorkingContext(p, contextA)
    requires a.role == Initiator && b.role == Acceptor
    requires IsCoins(coinsA) && coinsA.seed.Some? && IsCoins(coinsB) && coinsB.seed.Some?
    ensures
      var h := Exchange(p, contextA, contextB, a, b, coinsA, coinsB);
      && (|Message(h.response)| == RESPONSE_SIZE <==> Responded(p, h))
      && (h.a.status == Ready <==> Responded(p, h) && GenerateVerificationData(p, h.a.store).Done?)
      && (h.a.status != Ready ==> h.a.status == Error)
      && (|Message(h.confirmation)| == VERIFICATION_REQUEST_SIZE <==> Confirmed(p, h))
      && (h.b.status == Ready <==> Confirmed(p, h))
      && (h.b.status != Ready ==> h.b.status == Error)
      && (Responded(p, h) ==>
            Keyed(h.a.store) && Keyed(h.answered.store) && Mirrored(h.a.store, h.answered.store))
      && (h.a.status == Ready ==> h.a.stage == INITIATOR_STAGES && h.confirmation.Done?)
      && (h.b.status == Ready ==>
            && h.b.stage == ACCEPTOR_STAGES && h.last == Done([]) && h.b.store == h.answered.store
            && (a.store.seed == b.store.seed && !a.store.hasKeys && !b.store.hasKeys ==>
                  h.a.store.seed == h.b.store.seed))
  {
    var h := Exchange(p, contextA, contextB, a, b, coinsA, coinsB);
    Responding(p, contextA, contextB, a, b, coinsA, coinsB);
    PreparedIsSafe(p, contextA, a, coinsA);
    PreparedIsSafe(p, contextB, b, coinsB);
    StepIsSafe(p, contextB, h.waiting, Receive(Message(h.request), coinsB));
    hide AcceptorInitialization, InitiatorInitialization, AcceptorVerification, ResponseTo, ConfirmationOf,
      GenerateVerificationData, Sign, PrepareSynchronization, Invariant, Generated;
    if Responded(p, h) {
      var secret := p.encapsulate(contextA.publicKey, coinsB.kem).value;
      Answer(p, contextA, h.prepared, h.answered, h.prepared.transaction, coinsB.seed.value, coinsB.kem, h.response);
      if h.a.status == Ready {
        ConfirmationFields(p, h.a, h.confirmation.message);
        if Confirmed(p, h) { Confirm(p, h.a, h.answered, h.confirmation); }
      }
    } else {
      WrongSizeIsTurnedDown(p, contextA, h.prepared, Message(h.response), coinsA);
    }
    if !Confirmed(p, h) {
      WrongSizeIsTurnedDown(p, contextB, h.answered, Message(h.confirmation), coinsB);
    }
  }

  /** What is in the three messages, byte by byte: the number of the strategy and, in order, seed and public
      key; seed, encapsulated secret, encrypted verification data and signature; encrypted verification
      data and signature. */
  lemma MessageLayouts(p: Primitives, contextA: Context, contextB: Context, a: Session, b: Session,
                       coinsA: Coins, coinsB: Coins)
    requires Lawful(p) && WorkingContext(p, contextA)
    requires a.role == Initiator && b.role == Acceptor
    requires IsCoins(coinsA) && coinsA.seed.Some? && IsCoins(coinsB) && coinsB.seed.Some?
    ensures
      var h := Exchange(p, contextA, contextB, a, b, coinsA, coinsB);
      && Message(h.request) == [0x10, 0x03] + coinsA.seed.value + contextA.publicKey
      && (Responded(p, h) ==>
            && h.response.Done? && |h.response.message| == 1044
            && var m := h.response.message;
            && m[..2] == [0x10, 0x03] && m[2..34] == coinsB.seed.value
            && Some(m[34..964]) == First(p.encapsulate(contextA.publicKey, coinsB.kem))
            && IsShare(p, h.answered.store, m[964..996])
            && IsSignature(p, h.answered.store, Message(h.request) + m[..996], m[996..]))
      && (Confirmed(p, h) ==>
            && h.confirmation.Done? && |h.confirmation.message| == 82
            && var m := h.confirmation.message;
            && m[..2] == [0x10, 0x03] && IsShare(p, h.a.store, m[2..34])
            && IsSignature(p, h.a.store, m[..34], m[34..]))
  {
    var h := Exchange(p, contextA, contextB, a, b, coinsA, coinsB);
    Responding(p, contextA, contextB, a, b, coinsA, coinsB);
    CompletesExactly(p, contextA, contextB, a, b, coinsA, coinsB);
    RequestIsType(p, contextA, a, coinsA);
    hide Exchange, ResponseTo, Generated, Answerable, Keyed, Mirrored, ConfirmationOf, IsShare, IsSignature,
      GenerateVerificationData, Sign, WorkingContext;
    if Responded(p, h) {
      var encapsulation := p.encapsulate(contextA.publicKey, coinsB.kem).value.0;
      ResponseLayout(p, h.answered, h.prepared.transaction, coinsB.seed.value, encapsulation, h.response.message);
      if Confirmed(p, h) {
        HonestConfirmation(p, contextA, contextB, a, b, coinsA, coinsB);
        ConfirmationLayout(p, h.a, h.confirmation.message);
      }
    }
  }

  function First(pair: Option<(seq<byte>, seq<byte>)>): Option<seq<byte>> {
    match pair case None => None case Some((first, _)) => Some(first)
  }

  /** The encrypted verification data of a store, and its signature of some content. */
  predicate IsShare(p: Primitives, store: Store, share: seq<byte>) {
    && store.content.Some? && store.verification.Some?
    && p.encrypt(store.content.value, 0, store.verification.value) == Some(share)
  }

  predicate IsSignature(p: Primitives, store: Store, content: seq<byte>, signature: seq<byte>) {
    store.signature.Some? && p.mac(store.signature.value, content) == Some(signature)
  }

  lemma RequestIsType(p: Primitives, context: Context, a: Session, coins: Coins)
    requires a.role == Initiator && coins.seed.Some? && context.publicKey != []
    ensures PrepareSynchronization(p, context, a, coins).1
      == Done([0x10, 0x03] + coins.seed.value + context.publicKey)
  {
  }

  lemma ResponseLayout(p: Primitives, b: Session, request: seq<byte>, seed: seq<byte>, encapsulation: seq<byte>,
                       message: seq<byte>)
    requires Lawful(p) && Keyed(b.store) && |seed| == SEED_SIZE && |encapsulation| == ENCAPSULATION_SIZE
    requires ResponseTo(p, b, request, seed, encapsulation, Done(message)) && Sign(p, b.store, b.transaction).Done?
    ensures |message| == 1044 && message[..2] == [0x10, 0x03] && message[2..34] == seed
    ensures message[34..964] == encapsulation && IsShare(p, b.store, message[964..996])
    ensures IsSignature(p, b.store, request + message[..996], message[996..])
  {
    ResponseFields(p, b, request, seed, encapsulation, message);
    var body := ResponseBody(seed, encapsulation, GenerateVerificationData(p, b.store).message);
    assert message == body + Sign(p, b.store, b.transaction).message;
    assert message[..996] == body && message[996..] == Sign(p, b.store, b.transaction).message;
    hide ResponseBody;
  }

  lemma HonestConfirmation(p: Primitives, contextA: Context, contextB: Context, a: Session, b: Session,
                           coinsA: Coins, coinsB: Coins)
    requires Lawful(p) && WorkingContext(p, contextA)
    requires a.role == Initiator && b.role == Acceptor
    requires IsCoins(coinsA) && coinsA.seed.Some? && IsCoins(coinsB) && coinsB.seed.Some?
    ensures
      var h := Exchange(p, contextA, contextB, a, b, coinsA, coinsB);
      Responded(p, h) && h.a.status == Ready ==> ConfirmationOf(p, h.a, h.confirmation)
  {
    var h := Exchange(p, contextA, contextB, a, b, coinsA, coinsB);
    Responding(p, contextA, contextB, a, b, coinsA, coinsB);
    hide AcceptorInitialization, InitiatorInitialization, AcceptorVerification, ResponseTo, ConfirmationOf,
      GenerateVerificationData, Sign, PrepareSynchronization, Generated;
    if Responded(p, h) {
      Answer(p, contextA, h.prepared, h.answered, h.prepared.transaction, coinsB.seed.value, coinsB.kem, h.response);
    }
  }

  lemma ConfirmationLayout(p: Primitives, a: Session, message: seq<byte>)
    requires Lawful(p) && Keyed(a.store) && ConfirmationOf(p, a, Done(message))
    requires |message| == VERIFICATION_REQUEST_SIZE
    ensures |message| == 82 && message[..2] == [0x10, 0x03] && IsShare(p, a.store, message[2..34])
    ensures IsSignature(p, a.store, message[..34], message[34..])
  {
    ConfirmationFields(p, a, message);
    var body := TYPE + GenerateVerificationData(p, a.store).message;
    assert message[..34] == body && message[34..] == Sign(p, a.store, body).message;
  }

  /** If the primitives do not fail, both sides get ready. When both are new, their seeds agree too. */
  lemma Completes(p: Primitives, contextA: Context, contextB: Context, a: Session, b: Session,
                  coinsA: Coins, coinsB: Coins)
    requires Lawful(p) && Reliable(p) && WorkingContext(p, contextA)
    requires a.role == Initiator && b.role == Acceptor
    requires IsCoins(coinsA) && coinsA.seed.Some? && IsCoins(coinsB) && coinsB.seed.Some?
    ensures
      var h := Exchange(p, contextA, contextB, a, b, coinsA, coinsB);
      && h.a.status == Ready && h.b.status == Ready
      && h.a.stage == INITIATOR_STAGES && h.b.stage == ACCEPTOR_STAGES
      && h.last == Done([])
      && h.prepared.status == Processing && h.waiting.status == Processing && h.answered.status == Processing
      && h.request.Done? && |h.request.message| == REQUEST_SIZE
      && h.response.Done? && |h.response.message| == RESPONSE_SIZE
      && h.confirmation.Done? && |h.confirmation.message| == VERIFICATION_REQUEST_SIZE
      && Keyed(h.a.store) && Keyed(h.b.store) && Mirrored(h.a.store, h.b.store)
      && (a.store.seed == b.store.seed && !a.store.hasKeys && !b.store.hasKeys ==>
            h.a.store.seed == h.b.store.seed)
  {
    OnlySigningFails(p, contextA, contextB, a, b, coinsA, coinsB);
    CompletesExactly(p, contextA, contextB, a, b, coinsA, coinsB);
    Responding(p, contextA, contextB, a, b, coinsA, coinsB);
    hide Exchange, Keyed, Generated, ResponseTo, Sign, GenerateVerificationData, Answerable;
  }

  /** If nothing fails but signing, which does not stop the side that it fails for: the initiator gets
      ready exactly if the response could be signed, and the acceptor exactly if the confirmation could
      be signed too. An initiator that cannot sign ends ready, and the acceptor in error. */
  lemma OnlySigningFails(p: Primitives, contextA: Context, contextB: Context, a: Session, b: Session,
                         coinsA: Coins, coinsB: Coins)
    requires Lawful(p) && DerivesKeys(p) && WorkingContext(p, contextA)
    requires a.role == Initiator && b.role == Acceptor
    requires IsCoins(coinsA) && coinsA.seed.Some? && IsCoins(coinsB) && coinsB.seed.Some?
    ensures
      var h := Exchange(p, contextA, contextB, a, b, coinsA, coinsB);
      && h.answered.status == Processing && h.answered.store.signature.Some?
      && var signs := p.mac(h.answered.store.signature.value, h.answered.transaction).Some?;
      && |Message(h.response)| == (if signs then RESPONSE_SIZE else UNSIGNED_RESPONSE_SIZE)
      && h.a.status == (if signs then Ready else Error)
      && h.b.status in {Ready, Error}
      && (signs ==>
            && h.a.store.signature.Some? && GenerateVerificationData(p, h.a.store).Done?
            && var confirms :=
                 p.mac(h.a.store.signature.value, TYPE + GenerateVerificationData(p, h.a.store).message).Some?;
            && |Message(h.confirmation)|
               == (if confirms then VERIFICATION_REQUEST_SIZE else UNSIGNED_VERIFICATION_REQUEST_SIZE)
            && h.b.status == (if confirms then Ready else Error))
      && (!signs ==> h.b.status == Error)
  {
    var h := Exchange(p, contextA, contextB, a, b, coinsA, coinsB);
    Responding(p, contextA, contextB, a, b, coinsA, coinsB);
    CompletesExactly(p, contextA, contextB, a, b, coinsA, coinsB);
    hide Exchange, ResponseTo, Generated, WorkingContext, Mirrored, Answerable, Sign, GenerateVerificationData,
      DerivesKeys;
    KeysSuffice(p, h.waiting.store, contextA.publicKey, coinsB.kem);
    var secret := p.encapsulate(contextA.publicKey, coinsB.kem).value;
    ResponseFields(p, h.answered, h.prepared.transaction, coinsB.seed.value, secret.0, h.response.message);
    TransactionHoldsRequest(p, h.answered, h.prepared.transaction, coinsB.seed.value, secret.0, h.response);
    SignsByMac(p, h.answered.store, h.answered.transaction);
    if Responded(p, h) {
      VerificationLength(p, h.a.store);
      SignsByMac(p, h.a.store, TYPE + GenerateVerificationData(p, h.a.store).message);
    }
  }

  lemma TransactionHoldsRequest(p: Primitives, b: Session, request: seq<byte>, seed: seq<byte>,
                                encapsulation: seq<byte>, outcome: Outcome)
    requires ResponseTo(p, b, request, seed, encapsulation, outcome)
    ensures |b.transaction| >= |request|
  {
  }

  lemma KeysSuffice(p: Primitives, store: Store, publicKey: seq<byte>, coins: seq<byte>)
    requires Lawful(p) && DerivesKeys(p)
    ensures Answerable(p, store, publicKey, coins)
  {
  }

  lemma SignsByMac(p: Primitives, store: Store, source: seq<byte>)
    requires Keyed(store) && source != []
    ensures Sign(p, store, source).Done? <==> p.mac(store.signature.value, source).Some?
  {
  }

  lemma VerificationLength(p: Primitives, store: Store)
    requires Lawful(p) && Keyed(store)
    ensures !GenerateVerificationData(p, store).Threw?
    ensures GenerateVerificationData(p, store).Done? ==>
      |GenerateVerificationData(p, store).message| == VERIFICATION_SIZE
    ensures DerivesKeys(p) ==> GenerateVerificationData(p, store).Done?
  {
  }

  /** Primitives that keep nothing secret, and sign everything but data of one size. */
  function Trivial(unsignable: nat): Primitives {
    Primitives(
      (data: seq<byte>, size: nat) => Some(seq(size, _ => 0)),
      (key: seq<byte>, coins: seq<byte>) => Some((seq(ENCAPSULATION_SIZE, _ => 0), [])),
      (key: seq<byte>, nonce: nat, plain: seq<byte>) => Some(plain),
      (key: seq<byte>, nonce: nat, data: seq<byte>) => Some(data),
      (key: seq<byte>, data: seq<byte>) =>
        if |data| == unsignable > 0 then None else Some(seq(SIGNATURE_SIZE, _ => 0)))
  }

  function TrivialContext(): Context {
    Context(seq(PUBLIC_KEY_SIZE, _ => 0), _ => Some([]))
  }

  lemma TrivialIsLawful(unsignable: nat)
    ensures Lawful(Trivial(unsignable)) && DerivesKeys(Trivial(unsignable))
    ensures WorkingContext(Trivial(unsignable), TrivialContext())
    ensures unsignable == 0 ==> Reliable(Trivial(unsignable))
  {
  }

  /** An initiator that can sign everything but its confirmation ends ready, while the acceptor turns the
      unsigned confirmation down. */
  lemma OneSideReady(p: Primitives, context: Context, a: Session, b: Session, coinsA: Coins, coinsB: Coins)
    requires Lawful(p) && DerivesKeys(p) && WorkingContext(p, context)
    requires forall key, data :: p.mac(key, data).Some? <==> |data| != |TYPE| + VERIFICATION_SIZE
    requires a.role == Initiator && b.role == Acceptor
    requires IsCoins(coinsA) && coinsA.seed.Some? && IsCoins(coinsB) && coinsB.seed.Some?
    ensures
      var h := Exchange(p, context, context, a, b, coinsA, coinsB);
      && h.a.status == Ready && h.b.status == Error
      && h.confirmation.Done? && |h.confirmation.message| == UNSIGNED_VERIFICATION_REQUEST_SIZE
  {
    OnlySigningFails(p, context, context, a, b, coinsA, coinsB);
    Responding(p, context, context, a, b, coinsA, coinsB);
    CompletesExactly(p, context, context, a, b, coinsA, coinsB);
    var h := Exchange(p, context, context, a, b, coinsA, coinsB);
    hide Exchange, WorkingContext, Generated, ResponseTo, Answerable, Sign, DerivesKeys, Mirrored;
    TransactionHoldsRequest(p, h.answered, h.prepared.transaction, coinsB.seed.value,
                            p.encapsulate(context.publicKey, coinsB.kem).value.0, h.response);
    VerificationLength(p, h.a.store);
  }

  /** There are such primitives. */
  lemma SuchPrimitivesExist() returns (p: Primitives, context: Context)
    ensures Lawful(p) && DerivesKeys(p) && WorkingContext(p, context)
    ensures forall key, data :: p.mac(key, data).Some? <==> |data| != |TYPE| + VERIFICATION_SIZE
  {
    p, context := Trivial(|TYPE| + VERIFICATION_SIZE), TrivialContext();
    TrivialIsLawful(|TYPE| + VERIFICATION_SIZE);
  }

  // ---- What the keys are used for ----

  function Result(outcome: Outcome): Option<seq<byte>> {
    match outcome case Done(data) => Some(data) case _ => None
  }

  /** The handlers that a session binds to the contexts of application messages. */
  function Handlers(p: Primitives, store: Store): A.Handlers {
    A.Handlers(
      (plain, nonce) => Result(Encrypt(p, store, plain, nonce)),
      (data, nonce) => Result(Decrypt(p, store, data, nonce)),
      data => Result(Sign(p, store, data)),
      data => Verify(p, store, data).Done?,
      SIGNATURE_SIZE)
  }

  /** After a handshake, what one side encrypts and signs the other side decrypts and accepts. */
  lemma HandlersArePaired(p: Primitives, a: Store, b: Store)
    requires Lawful(p) && Keyed(a) && Keyed(b) && Mirrored(a, b)
    ensures A.Paired(Handlers(p, a), Handlers(p, b))
  {
    var sender, receiver := Handlers(p, a), Handlers(p, b);
    forall bytes: seq<byte> | sender.sign(bytes).Some? && bytes != []
      ensures |sender.sign(bytes).value| == SIGNATURE_SIZE
      ensures receiver.verify(bytes + sender.sign(bytes).value)
    {
      SignatureVerifies(p, a, b, bytes);
    }
    forall plain: seq<byte>, nonce: nat | sender.encrypt(plain, nonce).Some?
      ensures receiver.decrypt(sender.encrypt(plain, nonce).value, nonce) == Some(plain)
    {
      CipherDecrypts(p, a, b, plain, nonce);
    }
    hide Encrypt, Decrypt, Sign, Verify;
  }

  lemma SignatureVerifies(p: Primitives, a: Store, b: Store, source: seq<byte>)
    requires Lawful(p) && Keyed(a) && Keyed(b) && Mirrored(a, b)
    requires source != [] && Sign(p, a, source).Done?
    ensures
      var signature := Sign(p, a, source).message;
      |signature| == SIGNATURE_SIZE && Verify(p, b, source + signature) == Done([])
  {
    var signature := Sign(p, a, source).message;
    var buffer := source + signature;
    assert buffer[..|buffer| - SIGNATURE_SIZE] == source && buffer[|buffer| - SIGNATURE_SIZE..] == signature;
  }

  lemma CipherDecrypts(p: Primitives, a: Store, b: Store, plain: seq<byte>, nonce: nat)
    requires Lawful(p) && Keyed(a) && Keyed(b) && Mirrored(a, b)
    requires Encrypt(p, a, plain, nonce).Done?
    ensures Decrypt(p, b, Encrypt(p, a, plain, nonce).message, nonce) == Done(plain)
  {
  }

  /** What a role encrypts and signs with, and what it decrypts and verifies with, as sections of the digest
      of the shared secret. */
  ghost predicate UsesSections(p: Primitives, handlers: A.Handlers, role: Role, principal: seq<byte>)
    requires |principal| == 192
  {
    var (own, peers) := if role == Initiator then (principal[..32], principal[32..64])
                        else (principal[32..64], principal[..32]);
    var (ownSignature, peersSignature) := if role == Initiator then (principal[64..112], principal[112..160])
                                          else (principal[112..160], principal[64..112]);
    && (forall plain, nonce ::
          handlers.encrypt(plain, nonce) == if plain == [] then None else p.encrypt(own, nonce, plain))
    && (forall data, nonce ::
          handlers.decrypt(data, nonce) == if data == [] then None else p.decrypt(peers, nonce, data))
    && (forall data :: handlers.sign(data) == if data == [] then None else p.mac(ownSignature, data))
    && (forall data :: handlers.verify(data) <==>
          |data| > 48 && p.mac(peersSignature, data[..|data| - 48]) == Some(data[|data| - 48..]))
  }

  lemma HandlersByKeys(p: Primitives, store: Store, data: seq<byte>, nonce: nat)
    requires Keyed(store)
    ensures
      var handlers := Handlers(p, store);
      && handlers.encrypt(data, nonce) == (if data == [] then None else p.encrypt(store.content.value, nonce, data))
      && handlers.decrypt(data, nonce) == (if data == [] then None else p.decrypt(store.peerContent.value, nonce, data))
      && handlers.sign(data) == (if data == [] then None else p.mac(store.signature.value, data))
      && (handlers.verify(data) <==>
            |data| > 48 && p.mac(store.peerSignature.value, data[..|data| - 48]) == Some(data[|data| - 48..]))
  {
    if |data| > 48 {
      VerifyIsByMac(p, store, data[..|data| - 48], data[|data| - 48..]);
      assert data == data[..|data| - 48] + data[|data| - 48..];
    }
  }

  lemma SectionsAreUsed(p: Primitives, store: Store, role: Role, principal: seq<byte>)
    requires Keyed(store) && |principal| == 192 && AreSections(store, role, principal, 32, 48)
    ensures UsesSections(p, Handlers(p, store), role, principal)
  {
    hide Handlers, Keyed;
    KeysAreSections(store, role, principal);
    hide AreSections;
    forall data, nonce {
      HandlersByKeys(p, store, data, nonce);
    }
    forall data {
      HandlersByKeys(p, store, data, 0);
    }
  }

  lemma KeysAreSections(store: Store, role: Role, principal: seq<byte>)
    requires |principal| == 192 && AreSections(store, role, principal, 32, 48)
    ensures store.content == Some(if role == Initiator then principal[..32] else principal[32..64])
    ensures store.peerContent == Some(if role == Initiator then principal[32..64] else principal[..32])
    ensures store.signature == Some(if role == Initiator then principal[64..112] else principal[112..160])
    ensures store.peerSignature == Some(if role == Initiator then principal[112..160] else principal[64..112])
  {
  }

  /** After an honest handshake both sides encrypt, decrypt, sign and verify with the sections of the digest
      of the secret that the acceptor encapsulated, each with those of its role. */
  lemma SecretGivesHandlers(p: Primitives, contextA: Context, contextB: Context, a: Session, b: Session,
                            coinsA: Coins, coinsB: Coins)
    requires Lawful(p) && WorkingContext(p, contextA)
    requires a.role == Initiator && b.role == Acceptor
    requires IsCoins(coinsA) && coinsA.seed.Some? && IsCoins(coinsB) && coinsB.seed.Some?
    ensures
      var h := Exchange(p, contextA, contextB, a, b, coinsA, coinsB);
      h.b.status == Ready ==>
        && p.encapsulate(contextA.publicKey, coinsB.kem).Some?
        && var principal := p.digest(p.encapsulate(contextA.publicKey, coinsB.kem).value.1, 192);
        && principal.Some? && |principal.value| == 192
        && UsesSections(p, Handlers(p, h.a.store), Initiator, principal.value)
        && UsesSections(p, Handlers(p, h.b.store), Acceptor, principal.value)
  {
    var h := Exchange(p, contextA, contextB, a, b, coinsA, coinsB);
    Responding(p, contextA, contextB, a, b, coinsA, coinsB);
    CompletesExactly(p, contextA, contextB, a, b, coinsA, coinsB);
    hide Exchange, UsesSections, Handlers, ResponseTo, Generated, Answerable, Sign, GenerateVerificationData;
    if h.b.status == Ready {
      var secret := p.encapsulate(contextA.publicKey, coinsB.kem).value.1;
      KeysComeFromSecret(p, h.prepared.store, Initiator, secret, CONTENT_KEY_SIZE, SIGNATURE_SIZE);
      var principal := p.digest(secret, 192).value;
      SectionsAreUsed(p, h.a.store, Initiator, principal);
      SectionsAreUsed(p, h.b.store, Acceptor, principal);
    }
  }

  /** An application message is accepted only with the signature that the peer's key makes for it. */
  lemma OnlySignedIsReceived(p: Primitives, store: Store, digest: Identifier.Digest, now: nat, content: seq<byte>,
                             signature: seq<byte>)
    requires Keyed(store) && |signature| == SIGNATURE_SIZE
    ensures A.Received(Handlers(p, store), digest, now, content + signature).Some? ==>
      SignedByPeer(p, store, content, signature)
  {
    VerifyIsByMac(p, store, content, signature);
    A.ReceivedIsVerified(Handlers(p, store), digest, now, content + signature);
    hide A.Received, SignedByPeer, Verify;
  }
}
