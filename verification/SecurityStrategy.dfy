/** The strategy as the objects of the code, which update their state in place, call by call. */
module SecurityStrategy {
  import opened Bytes
  import opened KeyStore
  import opened Strategy

  class SynchronizationTracker {
    var status: Status
    var stage: nat
    var transaction: seq<byte>

    constructor ()
      ensures status == Processing && stage == 0 && transaction == []
    {
      status, stage, transaction := Processing, 0, [];
    }

    method SetError()
      modifies `status
      ensures status == Error
    {
      status := Error;
    }

    method SetStage(s: nat)
      modifies `stage
      ensures stage == s
    {
      stage := s;
    }

    method UpdateTransaction(buffer: seq<byte>)
      modifies `transaction
      ensures transaction == old(transaction) + buffer
    {
      transaction := transaction + buffer;
    }

    method Finalize(s: nat)
      modifies this
      ensures status == Ready && stage == s && transaction == []
    {
      status := Ready;
      transaction := [];
      SetStage(s);
    }

    method ResetState()
      modifies this
      ensures status == Processing && stage == 0 && transaction == []
    {
      status, stage, transaction := Processing, 0, [];
    }
  }

  class SecurityStrategy {
    const p: Primitives
    const context: Context
    const role: Role
    const tracker: SynchronizationTracker
    const store: KeyStore

    function Value(): Session
      reads tracker, store
    {
      Session(role, tracker.status, tracker.stage, tracker.transaction, store.Value())
    }

    ghost predicate Valid()
      reads tracker, store
    {
      Lawful(p) && Invariant(Value())
    }

    constructor (p: Primitives, context: Context, role: Role)
      requires Lawful(p)
      ensures this.p == p && this.context == context && Value() == New(role)
      ensures fresh(tracker) && fresh(store) && Valid()
    {
      this.p, this.context, this.role := p, context, role;
      tracker := new SynchronizationTracker();
      store := new KeyStore();
    }

    /** Whatever was under way before is forgotten, and the role's first message made. */
    method PrepareSynchronization(coins: Coins) returns (outcome: Outcome)
      requires Valid()
      modifies tracker, store
      ensures (Value(), outcome) == Strategy.PrepareSynchronization(p, context, old(Value()), coins)
      ensures Valid() && outcome.Done? && tracker.stage == 0 && !store.hasKeys
      ensures tracker.status == Error <==> role == Initiator && (coins.seed == None || context.publicKey == [])
      ensures outcome.message == tracker.transaction
    {
      hide Invariant;
      StepIsSafe(p, context, Value(), Prepare(coins));
      tracker.ResetState();
      if store.hasKeys { store.ResetState(); }
      match role {
        case Acceptor => return Done([]);
        case Initiator =>
          var request := GenerateInitializationRequest(coins);
          if request == None {
            tracker.SetError();
            return Done([]);
          }
          assert tracker.transaction == request.value;
          return Done(request.value);
      }
    }

    method GenerateInitializationRequest(coins: Coins) returns (request: Option<seq<byte>>)
      modifies tracker`transaction, store
      ensures request == if coins.seed == None || context.publicKey == [] then None
                         else Some(TYPE + coins.seed.value + context.publicKey)
      ensures tracker.transaction ==
        if request == None then old(tracker.transaction) else old(tracker.transaction) + request.value
      ensures store.Value() ==
        if coins.seed == None then old(store.Value())
        else old(store.Value()).(seed := old(store.seed) + coins.seed.value)
    {
      if coins.seed == None { return None; }
      store.ExpandSessionSeed(coins.seed.value);
      var buffer := TYPE;
      buffer := buffer + coins.seed.value;
      buffer := buffer + context.publicKey;
      if |context.publicKey| == 0 { return None; }
      tracker.UpdateTransaction(buffer);
      return Some(buffer);
    }

    /** Nothing that is received makes the strategy throw, takes it back a stage or makes it ready before it
        has gone through its stages and has its keys. */
    method Synchronize(buffer: seq<byte>, coins: Coins) returns (outcome: Outcome)
      requires Valid()
      modifies tracker, store
      ensures (Value(), outcome) == Strategy.Synchronize(p, context, old(Value()), buffer, coins)
      ensures Valid() && outcome.Done?
      ensures old(tracker.stage) <= tracker.stage <= old(tracker.stage) + 1 && tracker.stage <= CompleteStage(role)
      ensures tracker.status == Ready ==>
        tracker.stage == CompleteStage(role) && tracker.transaction == []
        && store.hasKeys && HoldsKeys(store.Value(), CONTENT_KEY_SIZE, SIGNATURE_SIZE)
      ensures tracker.status == Ready <==>
        if role == Initiator then old(tracker.stage) == 0 && AcceptsResponse(p, context, old(Value()), buffer)
        else old(tracker.stage) == 1 && AcceptsConfirmation(p, old(Value()), buffer)
    {
      hide InitiatorInitialization, AcceptorInitialization, AcceptorVerification, HoldsKeys, AcceptsResponse,
        AcceptsConfirmation;
      ReadyIsVerified(p, context, Value(), buffer, coins);
      StepIsSafe(p, context, Value(), Receive(buffer, coins));
      if role == Initiator && tracker.stage == 0 {
        outcome := HandleInitiatorInitialization(buffer);
      } else if role == Acceptor && tracker.stage == 0 {
        outcome := HandleAcceptorInitialization(buffer, coins);
      } else if role == Acceptor && tracker.stage == 1 {
        outcome := HandleAcceptorVerification(buffer);
      } else {
        outcome := Failed;
      }
      if outcome.Failed? {
        tracker.SetError();
        outcome := Done([]);
      }
    }

    method HandleInitiatorInitialization(response: seq<byte>) returns (outcome: Outcome)
      requires Lawful(p) && role == Initiator
      modifies tracker, store
      ensures (Value(), outcome) == InitiatorInitialization(p, context, old(Value()), response)
      ensures old(Invariant(Value()) && tracker.stage == 0) ==>
        (outcome.Done? <==> AcceptsResponse(p, context, old(Value()), response))
    {
      hide Generated, Verify, VerifyKeyShare, VerificationRequest, AcceptsResponse, Invariant;
      if Invariant(Value()) && tracker.stage == 0 { ResponseIsVerified(p, context, Value(), response); }
      if !HasType(response) || |response| != RESPONSE_SIZE { return Failed; }
      store.ExpandSessionSeed(response[2..34]);
      var secret := context.decapsulate(response[34..964]);
      if secret == None { return Failed; }
      var ok := store.GenerateSessionKeys(p, role, secret.value, CONTENT_KEY_SIZE, SIGNATURE_SIZE);
      if !ok { return Failed; }
      outcome := VerifyKeyShare(p, store.Value(), response[964..996]);
      if !outcome.Done? { return; }
      tracker.UpdateTransaction(response);
      outcome := Verify(p, store.Value(), tracker.transaction);
      if !outcome.Done? { return; }
      outcome := GenerateVerificationRequest();
    }

    method GenerateVerificationRequest() returns (outcome: Outcome)
      requires role == Initiator
      modifies tracker
      ensures (Value(), outcome) == VerificationRequest(p, old(Value()))
    {
      hide Sign, GenerateVerificationData;
      outcome := GenerateVerificationData(p, store.Value());
      if outcome.Failed? { tracker.SetError(); }
      if !outcome.Done? { return; }
      var request := TYPE + outcome.message;
      outcome := WithSignature(request, Sign(p, store.Value(), request));
      if outcome.Threw? { return; }
      tracker.Finalize(INITIATOR_STAGES);
    }

    method HandleAcceptorInitialization(request: seq<byte>, coins: Coins) returns (outcome: Outcome)
      requires Lawful(p) && role == Acceptor
      modifies tracker, store
      ensures (Value(), outcome) == AcceptorInitialization(p, old(Value()), request, coins)
    {
      hide Generated, Response;
      if !HasType(request) || |request| != REQUEST_SIZE { return Failed; }
      store.ExpandSessionSeed(request[2..34]);
      store.SetPeerPublicKey(request[34..964]);
      tracker.UpdateTransaction(request);
      if coins.seed == None { return Failed; }
      store.ExpandSessionSeed(coins.seed.value);
      var encapsulated := p.encapsulate(request[34..964], coins.kem);
      if encapsulated == None { return Failed; }
      var ok := store.GenerateSessionKeys(p, role, encapsulated.value.1, CONTENT_KEY_SIZE, SIGNATURE_SIZE);
      if !ok { return Failed; }
      outcome := GenerateInitializationResponse(coins.seed.value, encapsulated.value.0);
    }

    method GenerateInitializationResponse(seed: seq<byte>, encapsulation: seq<byte>) returns (outcome: Outcome)
      modifies tracker
      ensures (Value(), outcome) == Response(p, old(Value()), seed, encapsulation)
    {
      hide Sign, GenerateVerificationData;
      outcome := GenerateVerificationData(p, store.Value());
      if outcome.Failed? { tracker.SetError(); }
      if !outcome.Done? { return; }
      var response := TYPE;
      response := response + seed;
      response := response + encapsulation;
      response := response + outcome.message;
      tracker.SetStage(1);
      tracker.UpdateTransaction(response);
      outcome := WithSignature(response, Sign(p, store.Value(), tracker.transaction));
    }

    method HandleAcceptorVerification(request: seq<byte>) returns (outcome: Outcome)
      requires role == Acceptor
      modifies tracker
      ensures (Value(), outcome) == AcceptorVerification(p, old(Value()), request)
      ensures old(Invariant(Value()) && tracker.stage == 1) ==>
        (outcome.Done? <==> AcceptsConfirmation(p, old(Value()), request))
    {
      hide Verify, VerifyKeyShare, AcceptsConfirmation, Invariant;
      if Invariant(Value()) && tracker.stage == 1 { ConfirmationIsVerified(p, Value(), request); }
      outcome := Verify(p, store.Value(), request);
      if !outcome.Done? { return; }
      if !HasType(request) || |request| != VERIFICATION_REQUEST_SIZE { return Failed; }
      outcome := VerifyKeyShare(p, store.Value(), request[2..34]);
      if !outcome.Done? { return; }
      tracker.Finalize(ACCEPTOR_STAGES);
      outcome := Done([]);
    }
  }
}
