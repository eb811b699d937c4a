/** The security strategy: a synchronization of one stage for the initiator and of two for the
    acceptor (src/Components/Security/PostQuantum/NISTSecurityLevelThree.cpp). */
module Strategy {
  import opened Bytes
  import opened KeyStore

  datatype Status = Error | Processing | Ready

  const INITIATOR_STAGES: nat := 1
  const ACCEPTOR_STAGES: nat := 2

  const SEED_SIZE: nat := 32
  const PUBLIC_KEY_SIZE: nat := 930
  const CONTENT_KEY_SIZE: nat := 32

  const TYPE: seq<byte> := [0x10, 0x03]

  const REQUEST_SIZE: nat := 964       // type, seed, public key
  const RESPONSE_SIZE: nat := 1044     // type, seed, encapsulation, verification data, signature
  const VERIFICATION_REQUEST_SIZE: nat := 82    // type, verification data, signature

  const UNSIGNED_RESPONSE_SIZE: nat := RESPONSE_SIZE - SIGNATURE_SIZE
  const UNSIGNED_VERIFICATION_REQUEST_SIZE: nat := VERIFICATION_REQUEST_SIZE - SIGNATURE_SIZE

  /** The long term key pair of a node. */
  datatype Context = Context(publicKey: seq<byte>, decapsulate: seq<byte> -> Option<seq<byte>>)

  /** The randomness of one call: a seed, if one could be generated, and the coins of the KEM. */
  datatype Coins = Coins(seed: Option<seq<byte>>, kem: seq<byte>)

  predicate IsCoins(coins: Coins) {
    coins.seed.Some? ==> |coins.seed.value| == SEED_SIZE
  }

  /** The state of a strategy: its role, the synchronization tracker and the key store. */
  datatype Session = Session(role: Role, status: Status, stage: nat, transaction: seq<byte>, store: Store)

  /** The result of an operation that may also throw. */
  datatype Outcome = Threw | Failed | Done(message: seq<byte>)

  function CompleteStage(role: Role): nat {
    match role case Initiator => INITIATOR_STAGES case Acceptor => ACCEPTOR_STAGES
  }

  function New(role: Role): Session {
    Session(role, Processing, 0, [], EMPTY)
  }

  // ---- Using the keys ----

  function Encrypt(p: Primitives, store: Store, buffer: seq<byte>, nonce: nat): Outcome {
    if !store.hasKeys then Threw
    else if buffer == [] || store.content == None then Failed
    else match p.encrypt(store.content.value, nonce, buffer) case None => Failed case Some(data) => Done(data)
  }

  function Decrypt(p: Primitives, store: Store, buffer: seq<byte>, nonce: nat): Outcome {
    if !store.hasKeys then Threw
    else if buffer == [] || store.peerContent == None then Failed
    else match p.decrypt(store.peerContent.value, nonce, buffer) case None => Failed case Some(data) => Done(data)
  }

  function GenerateSignature(p: Primitives, key: seq<byte>, data: seq<byte>): Option<seq<byte>> {
    if data == [] then None else p.mac(key, data)
  }

  /** The signature of a source, or Failed for the return value -1. */
  function Sign(p: Primitives, store: Store, source: seq<byte>): Outcome {
    if !store.hasKeys then Threw
    else if store.signature == None then Failed
    else match GenerateSignature(p, store.signature.value, source)
      case None => Failed
      case Some(signature) => Done(signature)
  }

  function Verify(p: Primitives, store: Store, buffer: seq<byte>): (r: Outcome)
    ensures r.Done? ==> r == Done([]) && |buffer| > SIGNATURE_SIZE
  {
    if !store.hasKeys then Threw
    else if |buffer| <= SIGNATURE_SIZE || store.peerSignature == None then Failed
    else
      var content, attached := buffer[..|buffer| - SIGNATURE_SIZE], buffer[|buffer| - SIGNATURE_SIZE..];
      match GenerateSignature(p, store.peerSignature.value, content)
      case None => Failed
      case Some(signature) => if signature == attached then Done([]) else Failed
  }

  function GenerateVerificationData(p: Primitives, store: Store): Outcome {
    if store.verification == None then Failed else Encrypt(p, store, store.verification.value, 0)
  }

  function VerifyKeyShare(p: Primitives, store: Store, buffer: seq<byte>): (r: Outcome)
    ensures r.Done? ==> r == Done([]) && store.verification.Some?
  {
    if store.verification == None then Failed
    else match Decrypt(p, store, buffer, 0)
      case Threw => Threw
      case Failed => Failed
      case Done(data) => if store.verification.value <= data then Done([]) else Failed
  }

  /** A message with its signature. A signature that cannot be made is no reason to stop: the code
      compares the result of signing to 0, and a failure is -1. */
  function WithSignature(message: seq<byte>, signed: Outcome): Outcome {
    match signed case Threw => Threw case Failed => Done(message) case Done(signature) => Done(message + signature)
  }

  // ---- Steps ----

  function PrepareSynchronization(p: Primitives, context: Context, s: Session, coins: Coins): (r: (Session, Outcome))
  {
    var reset := s.(status := Processing, stage := 0, transaction := [],
                    store := if s.store.hasKeys then EMPTY.(seed := []) else s.store);
    match s.role
    case Acceptor => (reset, Done([]))
    case Initiator =>
      match coins.seed
      case None => (reset.(status := Error), Done([]))
      case Some(seed) =>
        var request := TYPE + seed + context.publicKey;
        var expanded := reset.(store := reset.store.(seed := reset.store.seed + seed));
        if context.publicKey == [] then (expanded.(status := Error), Done([]))
        else (expanded.(transaction := request), Done(request))
  }

  function Synchronize(p: Primitives, context: Context, s: Session, buffer: seq<byte>, coins: Coins)
    : (r: (Session, Outcome))
    requires Lawful(p)
  {
    match s.role
    case Initiator =>
      if s.stage == 0 then Finished(InitiatorInitialization(p, context, s, buffer))
      else (s.(status := Error), Done([]))
    case Acceptor =>
      if s.stage == 0 then Finished(AcceptorInitialization(p, s, buffer, coins))
      else if s.stage == 1 then Finished(AcceptorVerification(p, s, buffer))
      else (s.(status := Error), Done([]))
  }

  /** A step that fails sets the error status and has an empty message. */
  function Finished(step: (Session, Outcome)): (Session, Outcome) {
    if step.1.Failed? then (step.0.(status := Error), Done([])) else step
  }

  predicate HasType(buffer: seq<byte>) {
    TYPE <= buffer
  }

  function InitiatorInitialization(p: Primitives, context: Context, s: Session, response: seq<byte>)
    : (Session, Outcome)
    requires Lawful(p)
  {
    if !HasType(response) || |response| != RESPONSE_SIZE then (s, Failed)
    else
      var s1 := s.(store := s.store.(seed := s.store.seed + response[2..34]));
      match context.decapsulate(response[34..964])
      case None => (s1, Failed)
      case Some(secret) =>
        var (ok, store) := Generated(p, s1.store, Initiator, secret, CONTENT_KEY_SIZE, SIGNATURE_SIZE);
        var s2 := s1.(store := store);
        if !ok then (s2, Failed) else ConfirmResponse(p, s2, response)
  }

  /** The initiator has keys: do they match the peer's, and was nothing altered so far? */
  function ConfirmResponse(p: Primitives, s: Session, response: seq<byte>): (Session, Outcome)
    requires |response| == RESPONSE_SIZE
  {
    var share := VerifyKeyShare(p, s.store, response[964..996]);
    if !share.Done? then (s, share)
    else
      var s1 := s.(transaction := s.transaction + response);
      var verified := Verify(p, s1.store, s1.transaction);
      if !verified.Done? then (s1, verified) else VerificationRequest(p, s1)
  }

  function VerificationRequest(p: Primitives, s: Session): (Session, Outcome) {
    match GenerateVerificationData(p, s.store)
    case Threw => (s, Threw)
    case Failed => (s.(status := Error), Failed)
    case Done(data) =>
      var request := WithSignature(TYPE + data, Sign(p, s.store, TYPE + data));
      if request.Threw? then (s, Threw)
      else (s.(status := Ready, transaction := [], stage := INITIATOR_STAGES), request)
  }

  function AcceptorInitialization(p: Primitives, s: Session, request: seq<byte>, coins: Coins): (Session, Outcome)
    requires Lawful(p)
  {
    if !HasType(request) || |request| != REQUEST_SIZE then (s, Failed)
    else
      var peerKey := request[34..964];
      var s1 := s.(store := s.store.(seed := s.store.seed + request[2..34], peerPublicKey := Some(peerKey)),
                   transaction := s.transaction + request);
      match coins.seed
      case None => (s1, Failed)
      case Some(seed) =>
        var s2 := s1.(store := s1.store.(seed := s1.store.seed + seed));
        match p.encapsulate(peerKey, coins.kem)
        case None => (s2, Failed)
        case Some((encapsulation, secret)) =>
          var (ok, store) := Generated(p, s2.store, Acceptor, secret, CONTENT_KEY_SIZE, SIGNATURE_SIZE);
          var s3 := s2.(store := store);
          if !ok then (s3, Failed) else Response(p, s3, seed, encapsulation)
  }

  function Response(p: Primitives, s: Session, seed: seq<byte>, encapsulation: seq<byte>): (Session, Outcome) {
    match GenerateVerificationData(p, s.store)
    case Threw => (s, Threw)
    case Failed => (s.(status := Error), Failed)
    case Done(data) =>
      var response := TYPE + seed + encapsulation + data;
      var s1 := s.(stage := 1, transaction := s.transaction + response);
      (s1, WithSignature(response, Sign(p, s1.store, s1.transaction)))
  }

  function AcceptorVerification(p: Primitives, s: Session, request: seq<byte>): (Session, Outcome) {
    var verified := Verify(p, s.store, request);
    if !verified.Done? then (s, verified)
    else if !HasType(request) || |request| != VERIFICATION_REQUEST_SIZE then (s, Failed)
    else
      var share := VerifyKeyShare(p, s.store, request[2..34]);
      if !share.Done? then (s, share)
      else (s.(status := Ready, transaction := [], stage := ACCEPTOR_STAGES), Done([]))
  }

  // ---- Safety of every run ----

  ghost predicate Invariant(s: Session) {
    && s.stage <= CompleteStage(s.role)
    && (s.stage > 0 ==> s.store.hasKeys)
    && (s.store.hasKeys ==> HoldsKeys(s.store, CONTENT_KEY_SIZE, SIGNATURE_SIZE))
    && (s.status == Ready ==> s.stage == CompleteStage(s.role) && s.store.hasKeys && s.transaction == [])
  }

  datatype Call = Prepare(coins: Coins) | Receive(buffer: seq<byte>, coins: Coins)

  function Step(p: Primitives, context: Context, s: Session, call: Call): (Session, Outcome)
    requires Lawful(p)
  {
    match call
    case Prepare(coins) => PrepareSynchronization(p, context, s, coins)
    case Receive(buffer, coins) => Synchronize(p, context, s, buffer, coins)
  }

  lemma GeneratedKeepsInvariant(p: Primitives, s: Session, store: Store, role: Role, secret: seq<byte>)
    requires Lawful(p) && Invariant(s) && s.role == role
    requires store.(seed := s.store.seed, peerPublicKey := s.store.peerPublicKey) == s.store
    ensures
      var (ok, next) := Generated(p, store, role, secret, CONTENT_KEY_SIZE, SIGNATURE_SIZE);
      && Invariant(s.(store := next))
      && (ok ==> next.hasKeys)
  {
    GeneratedKeepsKeys(p, store, role, secret, CONTENT_KEY_SIZE, SIGNATURE_SIZE);
  }

  lemma InitiatorStep(p: Primitives, context: Context, s: Session, buffer: seq<byte>)
    requires Lawful(p) && Invariant(s) && s.role == Initiator && s.stage == 0
    ensures
      var (next, outcome) := InitiatorInitialization(p, context, s, buffer);
      && Invariant(next) && next.role == s.role && !outcome.Threw?
      && next.stage <= 1
  {
    hide Generated;
    if HasType(buffer) && |buffer| == RESPONSE_SIZE && context.decapsulate(buffer[34..964]).Some? {
      var store := s.store.(seed := s.store.seed + buffer[2..34]);
      GeneratedKeepsInvariant(p, s, store, Initiator, context.decapsulate(buffer[34..964]).value);
    }
  }

  lemma AcceptorStep(p: Primitives, s: Session, buffer: seq<byte>, coins: Coins)
    requires Lawful(p) && Invariant(s) && s.role == Acceptor && s.stage == 0
    ensures
      var (next, outcome) := AcceptorInitialization(p, s, buffer, coins);
      && Invariant(next) && next.role == s.role && !outcome.Threw?
      && next.stage <= 1
  {
    hide Generated;
    if HasType(buffer) && |buffer| == REQUEST_SIZE && coins.seed.Some? {
      var peerKey := buffer[34..964];
      var store := s.store.(seed := s.store.seed + buffer[2..34] + coins.seed.value, peerPublicKey := Some(peerKey));
      if p.encapsulate(peerKey, coins.kem).Some? {
        GeneratedKeepsInvariant(p, s, store, Acceptor, p.encapsulate(peerKey, coins.kem).value.1);
      }
    }
  }

  /** Whatever is received, in whatever order: no call throws, a session that is ready is complete,
      has its keys and no transaction, and only preparing lowers the stage. */
  lemma StepIsSafe(p: Primitives, context: Context, s: Session, call: Call)
    requires Lawful(p) && Invariant(s)
    ensures
      var (next, outcome) := Step(p, context, s, call);
      && Invariant(next) && next.role == s.role && outcome.Done?
      && (if call.Prepare? then next.stage == 0 else s.stage <= next.stage <= s.stage + 1)
  {
    hide InitiatorInitialization, AcceptorInitialization;
    if call.Receive? && s.stage == 0 {
      match s.role
      case Initiator => InitiatorStep(p, context, s, call.buffer);
      case Acceptor => AcceptorStep(p, s, call.buffer, call.coins);
    }
  }

  /** The states of a run, from a new strategy through a sequence of calls. */
  function Run(p: Primitives, context: Context, role: Role, calls: seq<Call>): Session
    requires Lawful(p)
  {
    if calls == [] then New(role)
    else Step(p, context, Run(p, context, role, calls[..|calls| - 1]), calls[|calls| - 1]).0
  }

  lemma {:induction false} RunIsSafe(p: Primitives, context: Context, role: Role, calls: seq<Call>)
    requires Lawful(p)
    ensures Invariant(Run(p, context, role, calls)) && Run(p, context, role, calls).role == role
    decreases |calls|
  {
    hide Invariant, Step;
    if calls == [] {
      NewIsSafe(role);
    } else {
      RunIsSafe(p, context, role, calls[..|calls| - 1]);
      StepIsSafe(p, context, Run(p, context, role, calls[..|calls| - 1]), calls[|calls| - 1]);
    }
  }

  lemma NewIsSafe(role: Role)
    ensures Invariant(New(role))
  {
  }

  /** No run gets ready with fewer calls than the role has stages. */
  lemma {:induction false} ReadyTakesAllStages(p: Primitives, context: Context, role: Role, calls: seq<Call>)
    requires Lawful(p)
    ensures Run(p, context, role, calls).stage <= Received(calls)
    ensures Run(p, context, role, calls).status == Ready ==> Received(calls) >= CompleteStage(role)
    decreases |calls|
  {
    RunIsSafe(p, context, role, calls);
    hide Step;
    if calls != [] {
      var before := calls[..|calls| - 1];
      ReadyTakesAllStages(p, context, role, before);
      RunIsSafe(p, context, role, before);
      StepIsSafe(p, context, Run(p, context, role, before), calls[|calls| - 1]);
    }
  }

  /** How many messages were handed to the strategy since it was last prepared. */
  function Received(calls: seq<Call>): nat {
    if calls == [] || calls[|calls| - 1].Prepare? then 0 else Received(calls[..|calls| - 1]) + 1
  }

  // ---- What the checks mean ----

  /** The signature is the one that the peer's key makes for this content. */
  predicate SignedByPeer(p: Primitives, store: Store, content: seq<byte>, signature: seq<byte>) {
    && content != [] && store.peerSignature.Some?
    && p.mac(store.peerSignature.value, content) == Some(signature)
  }

  /** The share is decrypted, with the peer's key, to data that starts with the own verification data. */
  predicate SharesKeys(p: Primitives, store: Store, share: seq<byte>) {
    && share != [] && store.verification.Some? && store.peerContent.Some?
    && var data := p.decrypt(store.peerContent.value, 0, share);
       data.Some? && store.verification.value <= data.value
  }

  /** A buffer is accepted exactly if what precedes its last bytes is not empty, and these are the MAC of
      that under the peer's key. */
  lemma VerifyIsByMac(p: Primitives, store: Store, content: seq<byte>, signature: seq<byte>)
    requires store.hasKeys && |signature| == SIGNATURE_SIZE
    ensures Verify(p, store, content + signature)
      == if SignedByPeer(p, store, content, signature) then Done([]) else Failed
  {
    var buffer := content + signature;
    assert buffer[..|buffer| - SIGNATURE_SIZE] == content && buffer[|buffer| - SIGNATURE_SIZE..] == signature;
  }

  lemma KeyShareIsByCipher(p: Primitives, store: Store, share: seq<byte>)
    requires store.hasKeys
    ensures VerifyKeyShare(p, store, share) == if SharesKeys(p, store, share) then Done([]) else Failed
  {
  }

  /** A response that the initiator accepts: keys can be derived from the secret in it, it proves the same
      keys, is signed together with everything before it, and the initiator can answer. */
  ghost predicate AcceptsResponse(p: Primitives, context: Context, s: Session, response: seq<byte>)
    requires Lawful(p)
  {
    && HasType(response) && |response| == RESPONSE_SIZE
    && context.decapsulate(response[34..964]).Some?
    && var (ok, store) := Generated(p, s.store, Initiator, context.decapsulate(response[34..964]).value,
                                    CONTENT_KEY_SIZE, SIGNATURE_SIZE);
    && ok && SharesKeys(p, store, response[964..996])
    && SignedByPeer(p, store, s.transaction + response[..996], response[996..])
    && store.content.Some? && p.encrypt(store.content.value, 0, store.verification.value).Some?
  }

  /** A confirmation that the acceptor accepts. */
  predicate AcceptsConfirmation(p: Primitives, s: Session, request: seq<byte>) {
    && HasType(request) && |request| == VERIFICATION_REQUEST_SIZE
    && SignedByPeer(p, s.store, request[..34], request[34..])
    && SharesKeys(p, s.store, request[2..34])
  }

  /** A request that the acceptor answers: a secret can be encapsulated for the key in it, keys derived from
      that, and the verification data encrypted. */
  ghost predicate AcceptsRequest(p: Primitives, s: Session, request: seq<byte>, coins: Coins)
    requires Lawful(p)
  {
    && HasType(request) && |request| == REQUEST_SIZE && coins.seed.Some?
    && p.encapsulate(request[34..964], coins.kem).Some?
    && var (ok, store) := Generated(p, s.store, Acceptor, p.encapsulate(request[34..964], coins.kem).value.1,
                                    CONTENT_KEY_SIZE, SIGNATURE_SIZE);
    && ok && store.content.Some? && p.encrypt(store.content.value, 0, store.verification.value).Some?
  }

  /** The acceptor answers exactly such requests, and goes on to wait for the confirmation; on all others it
      ends in error. */
  lemma RequestIsAnswered(p: Primitives, context: Context, s: Session, request: seq<byte>, coins: Coins)
    requires Lawful(p) && Invariant(s) && s.role == Acceptor && s.stage == 0
    ensures
      var (next, outcome) := Synchronize(p, context, s, request, coins);
      if AcceptsRequest(p, s, request, coins) then
        next.stage == 1 && next.status == s.status && outcome.Done? && outcome.message != []
      else next.stage == 0 && next.status == Error && outcome == Done([])
  {
    if HasType(request) && |request| == REQUEST_SIZE && coins.seed.Some? {
      var peerKey, seed := request[34..964], s.store.seed + request[2..34] + coins.seed.value;
      var store := s.store.(seed := seed, peerPublicKey := Some(peerKey));
      match p.encapsulate(peerKey, coins.kem) {
        case None =>
        case Some((encapsulation, secret)) =>
          GeneratedIgnoresRest(p, s.store, store, Acceptor, secret);
          GeneratedKeepsKeys(p, store, Acceptor, secret, CONTENT_KEY_SIZE, SIGNATURE_SIZE);
          hide Generated;
          var (ok, keyed) := Generated(p, store, Acceptor, secret, CONTENT_KEY_SIZE, SIGNATURE_SIZE);
          if ok {
            AnswerIsMade(p, s.(store := keyed, transaction := s.transaction + request), coins.seed.value,
                         encapsulation);
            hide Response;
          }
      }
    }
  }

  lemma GeneratedIgnoresRest(p: Primitives, store: Store, seeded: Store, role: Role, secret: seq<byte>)
    requires Lawful(p) && seeded == store.(seed := seeded.seed, peerPublicKey := seeded.peerPublicKey)
    ensures
      var (ok, plain) := Generated(p, store, role, secret, CONTENT_KEY_SIZE, SIGNATURE_SIZE);
      Generated(p, seeded, role, secret, CONTENT_KEY_SIZE, SIGNATURE_SIZE)
      == (ok, plain.(seed := seeded.seed, peerPublicKey := seeded.peerPublicKey))
  {
  }

  lemma AnswerIsMade(p: Primitives, s: Session, seed: seq<byte>, encapsulation: seq<byte>)
    requires Lawful(p) && s.store.hasKeys && HoldsKeys(s.store, CONTENT_KEY_SIZE, SIGNATURE_SIZE)
    requires s.store.verification.Some? && |s.store.verification.value| == VERIFICATION_SIZE
    ensures
      var (next, outcome) := Response(p, s, seed, encapsulation);
      if p.encrypt(s.store.content.value, 0, s.store.verification.value).Some? then
        next.stage == 1 && next.status == s.status && outcome.Done? && outcome.message != []
      else next == s.(status := Error) && outcome == Failed
  {
  }

  lemma {:induction false} ResponseIsVerified(p: Primitives, context: Context, s: Session, response: seq<byte>)
    requires Lawful(p) && Invariant(s) && s.role == Initiator && s.stage == 0
    ensures
      var (next, outcome) := InitiatorInitialization(p, context, s, response);
      && (outcome.Done? <==> AcceptsResponse(p, context, s, response))
      && (outcome.Done? ==> next.status == Ready)
  {
    if HasType(response) && |response| == RESPONSE_SIZE && context.decapsulate(response[34..964]).Some? {
      var seeded := s.store.(seed := s.store.seed + response[2..34]);
      var secret := context.decapsulate(response[34..964]).value;
      SeedIsIgnored(p, s.store, seeded.seed, Initiator, secret, CONTENT_KEY_SIZE, SIGNATURE_SIZE);
      GeneratedKeepsKeys(p, seeded, Initiator, secret, CONTENT_KEY_SIZE, SIGNATURE_SIZE);
      hide Generated;
      var (ok, store) := Generated(p, seeded, Initiator, secret, CONTENT_KEY_SIZE, SIGNATURE_SIZE);
      if ok {
        ResponseIsChecked(p, s.(store := store), response);
      }
    }
  }

  lemma ResponseIsChecked(p: Primitives, s: Session, response: seq<byte>)
    requires Lawful(p) && |response| == RESPONSE_SIZE
    requires s.store.hasKeys && HoldsKeys(s.store, CONTENT_KEY_SIZE, SIGNATURE_SIZE)
    requires s.store.verification.Some? && |s.store.verification.value| == VERIFICATION_SIZE
    ensures
      var (next, outcome) := ConfirmResponse(p, s, response);
      && (outcome.Done? <==>
            && SharesKeys(p, s.store, response[964..996])
            && SignedByPeer(p, s.store, s.transaction + response[..996], response[996..])
            && p.encrypt(s.store.content.value, 0, s.store.verification.value).Some?)
      && (outcome.Done? ==> next.status == Ready)
  {
    KeyShareIsByCipher(p, s.store, response[964..996]);
    assert s.transaction + response == (s.transaction + response[..996]) + response[996..];
    VerifyIsByMac(p, s.store, s.transaction + response[..996], response[996..]);
    RequestMayBeUnsigned(p, s.(transaction := s.transaction + response));
    hide Verify, VerifyKeyShare, VerificationRequest, SharesKeys, SignedByPeer;
  }

  lemma ConfirmationIsVerified(p: Primitives, s: Session, request: seq<byte>)
    requires Invariant(s) && s.role == Acceptor && s.stage == 1
    ensures
      var (next, outcome) := AcceptorVerification(p, s, request);
      && (outcome.Done? <==> AcceptsConfirmation(p, s, request))
      && (outcome.Done? ==> next.status == Ready)
  {
    if |request| == VERIFICATION_REQUEST_SIZE {
      assert request == request[..34] + request[34..];
      VerifyIsByMac(p, s.store, request[..34], request[34..]);
      KeyShareIsByCipher(p, s.store, request[2..34]);
    }
    hide Verify, VerifyKeyShare, SharesKeys, SignedByPeer;
  }

  /** What gets a strategy ready, over the primitives: an initiator an acceptable response, an acceptor that
      has answered an acceptable confirmation, and nothing else. Every other message ends in error. */
  lemma ReadyIsVerified(p: Primitives, context: Context, s: Session, buffer: seq<byte>, coins: Coins)
    requires Lawful(p) && Invariant(s)
    ensures
      var (next, outcome) := Synchronize(p, context, s, buffer, coins);
      var accepted := match s.role
        case Initiator => s.stage == 0 && AcceptsResponse(p, context, s, buffer)
        case Acceptor => s.stage == 1 && AcceptsConfirmation(p, s, buffer);
      && (next.status == Ready <==> accepted)
      && (!accepted && (s.role == Initiator || s.stage > 0) ==> next.status == Error && outcome == Done([]))
  {
    hide AcceptsResponse, AcceptsConfirmation, InitiatorInitialization, AcceptorInitialization, AcceptorVerification;
    StepIsSafe(p, context, s, Receive(buffer, coins));
    match s.role {
      case Initiator => if s.stage == 0 {
        InitiatorStep(p, context, s, buffer);
        ResponseIsVerified(p, context, s, buffer);
      }
      case Acceptor => if s.stage == 1 {
        ConfirmationStep(p, s, buffer);
        ConfirmationIsVerified(p, s, buffer);
      } else if s.stage == 0 {
        AcceptorStep(p, s, buffer, coins);
      }
    }
  }

  lemma ConfirmationStep(p: Primitives, s: Session, buffer: seq<byte>)
    requires Invariant(s) && s.role == Acceptor && s.stage == 1
    ensures !AcceptorVerification(p, s, buffer).1.Threw?
    ensures AcceptorVerification(p, s, buffer).1.Done? ==> AcceptorVerification(p, s, buffer).1 == Done([])
  {
  }

  /** Another signature on an acceptable message is turned down, whatever it is. */
  lemma ForgedIsTurnedDown(p: Primitives, context: Context, s: Session, buffer: seq<byte>, forged: seq<byte>,
                           coins: Coins)
    requires Lawful(p) && Invariant(s) && Synchronize(p, context, s, buffer, coins).0.status == Ready
    requires |forged| == |buffer| >= SIGNATURE_SIZE && forged != buffer
    requires forged[..|buffer| - SIGNATURE_SIZE] == buffer[..|buffer| - SIGNATURE_SIZE]
    ensures
      var (next, outcome) := Synchronize(p, context, s, forged, coins);
      next.status == Error && outcome == Done([])
  {
    hide Synchronize, Invariant, Generated, SharesKeys, SignedByPeer;
    ReadyIsVerified(p, context, s, buffer, coins);
    ReadyIsVerified(p, context, s, forged, coins);
    var n := |buffer| - SIGNATURE_SIZE;
    assert buffer == buffer[..n] + buffer[n..] && forged == forged[..n] + forged[n..];
    match s.role {
      case Initiator => ForgedResponse(p, context, s, buffer, forged);
      case Acceptor => ForgedConfirmation(p, s, buffer, forged);
    }
  }

  lemma ForgedResponse(p: Primitives, context: Context, s: Session, response: seq<byte>, forged: seq<byte>)
    requires Lawful(p) && AcceptsResponse(p, context, s, response)
    requires |forged| == RESPONSE_SIZE && forged[..996] == response[..996] && forged[996..] != response[996..]
    ensures !AcceptsResponse(p, context, s, forged)
  {
    assert forged[34..964] == forged[..996][34..964] == response[34..964];
    hide Generated, SharesKeys;
  }

  lemma ForgedConfirmation(p: Primitives, s: Session, request: seq<byte>, forged: seq<byte>)
    requires AcceptsConfirmation(p, s, request)
    requires |forged| == VERIFICATION_REQUEST_SIZE && forged[..34] == request[..34] && forged[34..] != request[34..]
    ensures !AcceptsConfirmation(p, s, forged)
  {
    hide SharesKeys;
  }

  // ---- Messages without their signature ----

  /** The initiator gets ready whether or not it can sign: its confirmation has its full size exactly if
      it could, and is the same message without a signature if it could not. */
  lemma ConfirmationMayBeUnsigned(p: Primitives, context: Context, s: Session, response: seq<byte>, coins: Coins)
    requires Lawful(p) && Invariant(s) && s.role == Initiator
    ensures
      var (next, outcome) := Synchronize(p, context, s, response, coins);
      next.status == Ready ==>
        && outcome.Done? && GenerateVerificationData(p, next.store).Done? && next.store.signature.Some?
        && var body := TYPE + GenerateVerificationData(p, next.store).message;
           var signature := p.mac(next.store.signature.value, body);
        && outcome.message == (if signature.Some? then body + signature.value else body)
        && (|outcome.message| == VERIFICATION_REQUEST_SIZE <==> signature.Some?)
        && (|outcome.message| == UNSIGNED_VERIFICATION_REQUEST_SIZE <==> signature == None)
  {
    hide Generated;
    if s.stage == 0 && HasType(response) && |response| == RESPONSE_SIZE {
      var s1 := s.(store := s.store.(seed := s.store.seed + response[2..34]));
      match context.decapsulate(response[34..964]) {
        case None =>
        case Some(secret) =>
          GeneratedKeepsKeys(p, s1.store, Initiator, secret, CONTENT_KEY_SIZE, SIGNATURE_SIZE);
          var (ok, store) := Generated(p, s1.store, Initiator, secret, CONTENT_KEY_SIZE, SIGNATURE_SIZE);
          hide Verify, VerifyKeyShare;
          if ok { RequestMayBeUnsigned(p, s1.(store := store, transaction := s.transaction + response)); }
      }
    }
  }

  lemma RequestMayBeUnsigned(p: Primitives, s: Session)
    requires Lawful(p) && s.store.hasKeys && HoldsKeys(s.store, CONTENT_KEY_SIZE, SIGNATURE_SIZE)
    requires s.store.verification.Some? && |s.store.verification.value| == VERIFICATION_SIZE
    ensures
      var (next, outcome) := VerificationRequest(p, s);
      var data := GenerateVerificationData(p, s.store);
      && !data.Threw?
      && (data.Failed? ==> next == s.(status := Error) && outcome == Failed)
      && (data.Done? ==>
            && next == s.(status := Ready, stage := 1, transaction := []) && outcome.Done?
            && var signature := p.mac(s.store.signature.value, TYPE + data.message);
            && outcome.message == TYPE + data.message + (if signature.Some? then signature.value else [])
            && (|outcome.message| == VERIFICATION_REQUEST_SIZE <==> signature.Some?)
            && (|outcome.message| == UNSIGNED_VERIFICATION_REQUEST_SIZE <==> signature == None))
  {
  }

  /** The same for the acceptor's response, which is signed together with the request. */
  lemma ResponseMayBeUnsigned(p: Primitives, context: Context, s: Session, request: seq<byte>, coins: Coins)
    requires Lawful(p) && Invariant(s) && s.role == Acceptor && s.stage == 0 && IsCoins(coins)
    ensures
      var (next, outcome) := Synchronize(p, context, s, request, coins);
      next.stage == 1 ==>
        && outcome.Done? && next.store.signature.Some?
        && var signature := p.mac(next.store.signature.value, next.transaction);
        && (|outcome.message| == RESPONSE_SIZE <==> signature.Some?)
        && (|outcome.message| == UNSIGNED_RESPONSE_SIZE <==> signature == None)
        && (signature.Some? ==> next.transaction + signature.value == s.transaction + request + outcome.message)
        && (signature == None ==> next.transaction == s.transaction + request + outcome.message)
  {
    hide Generated;
    if HasType(request) && |request| == REQUEST_SIZE && coins.seed.Some? {
      var peerKey := request[34..964];
      var store := s.store.(seed := s.store.seed + request[2..34] + coins.seed.value, peerPublicKey := Some(peerKey));
      match p.encapsulate(peerKey, coins.kem) {
        case None =>
        case Some((encapsulation, secret)) =>
          GeneratedKeepsKeys(p, store, Acceptor, secret, CONTENT_KEY_SIZE, SIGNATURE_SIZE);
          var (ok, keyed) := Generated(p, store, Acceptor, secret, CONTENT_KEY_SIZE, SIGNATURE_SIZE);
          if ok {
            AnswerMayBeUnsigned(p, s.(store := keyed, transaction := s.transaction + request), coins.seed.value,
                                encapsulation);
          }
      }
    }
  }

  lemma AnswerMayBeUnsigned(p: Primitives, s: Session, seed: seq<byte>, encapsulation: seq<byte>)
    requires Lawful(p) && s.store.hasKeys && HoldsKeys(s.store, CONTENT_KEY_SIZE, SIGNATURE_SIZE)
    requires s.store.verification.Some? && |s.store.verification.value| == VERIFICATION_SIZE
    requires |seed| == SEED_SIZE && |encapsulation| == ENCAPSULATION_SIZE
    ensures
      var (next, outcome) := Response(p, s, seed, encapsulation);
      var data := GenerateVerificationData(p, s.store);
      && !data.Threw?
      && (data.Failed? ==> next == s.(status := Error) && outcome == Failed)
      && (data.Done? ==>
            && var body := TYPE + seed + encapsulation + data.message;
            && next == s.(stage := 1, transaction := s.transaction + body) && outcome.Done?
            && var signature := p.mac(s.store.signature.value, next.transaction);
            && outcome.message == body + (if signature.Some? then signature.value else [])
            && s.transaction + outcome.message
               == next.transaction + (if signature.Some? then signature.value else [])
            && (|outcome.message| == RESPONSE_SIZE <==> signature.Some?)
            && (|outcome.message| == UNSIGNED_RESPONSE_SIZE <==> signature == None))
  {
  }

  /** A message without its signature has the wrong size for the other side, whose strategy fails. */
  lemma WrongSizeIsTurnedDown(p: Primitives, context: Context, s: Session, message: seq<byte>, coins: Coins)
    requires Lawful(p) && Invariant(s)
    requires
      || (s.role == Initiator && s.stage == 0 && |message| != RESPONSE_SIZE)
      || (s.role == Acceptor && s.stage == 0 && |message| != REQUEST_SIZE)
      || (s.role == Acceptor && s.stage == 1 && |message| != VERIFICATION_REQUEST_SIZE)
    ensures Synchronize(p, context, s, message, coins) == (s.(status := Error), Done([]))
  {
    hide Generated;
  }

  /** The error status is not final: an initiator that turned down one response takes the next. */
  lemma ErrorIsNotFinal(p: Primitives, context: Context, s: Session, junk: seq<byte>, coins: Coins)
    requires Lawful(p) && Invariant(s) && s.role == Initiator && s.stage == 0
    requires |junk| != RESPONSE_SIZE
    ensures
      var failed := Synchronize(p, context, s, junk, coins).0;
      && failed == s.(status := Error)
      && forall response :: Synchronize(p, context, failed, response, coins).0.status == Ready <==>
           Synchronize(p, context, s, response, coins).0.status == Ready
  {
    hide ConfirmResponse, Generated;
    var failed := s.(status := Error);
    forall response {
      StatusDoesNotMatter(p, context, s, response);
    }
  }

  lemma StatusDoesNotMatter(p: Primitives, context: Context, s: Session, response: seq<byte>)
    requires Lawful(p) && Invariant(s) && s.role == Initiator && s.stage == 0
    ensures
      var (a, outcomeA) := Finished(InitiatorInitialization(p, context, s, response));
      var (b, outcomeB) := Finished(InitiatorInitialization(p, context, s.(status := Error), response));
      outcomeA == outcomeB && (a.status == Ready <==> b.status == Ready)
  {
    InitiatorStep(p, context, s, response);
    hide Generated;
  }
}
