/** The keys of a session (src/Components/Security/KeyStore.cpp). */
module KeyStore {
  import opened Bytes

  datatype Role = Initiator | Acceptor

  /** The cryptographic primitives, as functions that may fail. Nothing about their strength is
      modelled. `digest` is SHAKE-256 cut to a length; encapsulation takes its randomness as an
      argument. */
  datatype Primitives = Primitives(
    digest: (seq<byte>, nat) -> Option<seq<byte>>,
    encapsulate: (seq<byte>, seq<byte>) -> Option<(seq<byte>, seq<byte>)>,
    encrypt: (seq<byte>, nat, seq<byte>) -> Option<seq<byte>>,
    decrypt: (seq<byte>, nat, seq<byte>) -> Option<seq<byte>>,
    mac: (seq<byte>, seq<byte>) -> Option<seq<byte>>)

  const MINIMUM_KEY_SIZE: nat := 16
  const VERIFICATION_SIZE: nat := 32
  const SIGNATURE_SIZE: nat := 48
  const ENCAPSULATION_SIZE: nat := 930

  /** Results have the length that is asked for, and decrypting undoes encrypting. */
  ghost predicate Lawful(p: Primitives) {
    && (forall data, size :: p.digest(data, size).Some? ==> |p.digest(data, size).value| == size)
    && (forall key, coins :: p.encapsulate(key, coins).Some? ==>
          |p.encapsulate(key, coins).value.0| == ENCAPSULATION_SIZE)
    && (forall key, nonce, plain :: p.encrypt(key, nonce, plain).Some? ==>
          |p.encrypt(key, nonce, plain).value| == |plain|
          && p.decrypt(key, nonce, p.encrypt(key, nonce, plain).value) == Some(plain))
    && (forall key, data :: p.mac(key, data).Some? ==> |p.mac(key, data).value| == SIGNATURE_SIZE)
  }

  /** The state of a store. The cordons are the sections of the principal key that the store hands
      out as keys. */
  datatype Store = Store(
    peerPublicKey: Option<seq<byte>>,
    seed: seq<byte>,
    principal: Option<seq<byte>>,
    verification: Option<seq<byte>>,
    content: Option<seq<byte>>,
    peerContent: Option<seq<byte>>,
    signature: Option<seq<byte>>,
    peerSignature: Option<seq<byte>>,
    hasKeys: bool)

  /** The ASCII text expansion-seed. */
  const BASE_EXPANSION_SEED: seq<byte> := [101, 120, 112, 97, 110, 115, 105, 111, 110, 45, 115, 101, 101, 100]

  /** The ASCII text verify. */
  const VERIFICATION_DATA: seq<byte> := [118, 101, 114, 105, 102, 121]

  lemma TextsAreAscii(i: nat)
    ensures |BASE_EXPANSION_SEED| == 14 && |VERIFICATION_DATA| == 6
    ensures i < 14 ==> BASE_EXPANSION_SEED[i] == "expansion-seed"[i] as int
    ensures i < 6 ==> VERIFICATION_DATA[i] == "verify"[i] as int
  {
  }

  const EMPTY: Store := Store(None, BASE_EXPANSION_SEED, None, None, None, None, None, None, false)

  // ---- Generating keys ----

  function DerivationSize(contentSize: nat, signatureSize: nat): nat {
    2 * contentSize + 2 * signatureSize + VERIFICATION_SIZE
  }

  /** The section of the principal key at an offset. */
  function Cordon(principal: seq<byte>, offset: nat, size: nat): (key: seq<byte>)
    requires offset + size <= |principal|
    ensures |key| == size
  {
    principal[offset..offset + size]
  }

  function Partitioned(store: Store, role: Role, principal: seq<byte>, contentSize: nat, signatureSize: nat): Store
    requires |principal| == DerivationSize(contentSize, signatureSize)
  {
    var content1 := Some(Cordon(principal, 0, contentSize));
    var content2 := Some(Cordon(principal, contentSize, contentSize));
    var signature1 := Some(Cordon(principal, 2 * contentSize, signatureSize));
    var signature2 := Some(Cordon(principal, 2 * contentSize + signatureSize, signatureSize));
    match role
    case Initiator => store.(principal := Some(principal), content := content1, peerContent := content2,
                             signature := signature1, peerSignature := signature2)
    case Acceptor => store.(principal := Some(principal), content := content2, peerContent := content1,
                            signature := signature2, peerSignature := signature1)
  }

  /** The store after the keys were derived from a secret, and whether that succeeded. Although the
      seed is meant to go into the derivation, it is appended to a buffer that the secret has been
      moved out of, so only the secret counts. */
  function Generated(p: Primitives, store: Store, role: Role, secret: seq<byte>, contentSize: nat,
                     signatureSize: nat): (r: (bool, Store))
    requires Lawful(p)
  {
    if contentSize < MINIMUM_KEY_SIZE || signatureSize < MINIMUM_KEY_SIZE then (false, store)
    else match p.digest(secret, DerivationSize(contentSize, signatureSize))
      case None => (false, store)
      case Some(principal) =>
        var keyed := Partitioned(store, role, principal, contentSize, signatureSize);
        match VerificationOf(p, principal)
        case None => (false, keyed.(verification := None))
        case Some(data) => (true, keyed.(verification := Some(data), hasKeys := true))
  }

  /** The data that proves knowledge of the keys: a digest of the last bytes of the principal key. */
  function VerificationOf(p: Primitives, principal: seq<byte>): Option<seq<byte>>
    requires |principal| >= VERIFICATION_SIZE
  {
    p.digest(principal[|principal| - VERIFICATION_SIZE..] + VERIFICATION_DATA, VERIFICATION_SIZE)
  }

  class KeyStore {
    var peerPublicKey: Option<seq<byte>>
    var seed: seq<byte>
    var principal: Option<seq<byte>>
    var verification: Option<seq<byte>>
    var content: Option<seq<byte>>
    var peerContent: Option<seq<byte>>
    var signature: Option<seq<byte>>
    var peerSignature: Option<seq<byte>>
    var hasKeys: bool

    function Value(): Store
      reads this
    {
      Store(peerPublicKey, seed, principal, verification, content, peerContent, signature, peerSignature, hasKeys)
    }

    constructor ()
      ensures Value() == EMPTY
    {
      peerPublicKey, seed, principal, verification := None, BASE_EXPANSION_SEED, None, None;
      content, peerContent, signature, peerSignature, hasKeys := None, None, None, None, false;
    }

    method SetPeerPublicKey(key: seq<byte>)
      modifies this
      ensures Value() == old(Value()).(peerPublicKey := Some(key))
    {
      peerPublicKey := Some(key);
    }

    method ExpandSessionSeed(buffer: seq<byte>)
      modifies this
      ensures Value() == old(Value()).(seed := old(seed) + buffer)
    {
      seed := seed + buffer;
    }

    method GenerateSessionKeys(p: Primitives, role: Role, buffer: seq<byte>, contentSize: nat, signatureSize: nat)
      returns (ok: bool)
      requires Lawful(p)
      modifies this
      ensures (ok, Value()) == Generated(p, old(Value()), role, buffer, contentSize, signatureSize)
    {
      if contentSize < MINIMUM_KEY_SIZE || signatureSize < MINIMUM_KEY_SIZE { return false; }

      var principalSize := 2 * contentSize + 2 * signatureSize;
      var derivation := buffer;
      var moved: seq<byte> := [];
      moved := moved + seed;    // never looked at again
      var derived := p.digest(derivation, principalSize + VERIFICATION_SIZE);
      if derived == None { return false; }
      principal := derived;

      var partitioned;
      match role {
        case Initiator => partitioned := SetInitiatorKeyCordons(contentSize, signatureSize);
        case Acceptor => partitioned := SetAcceptorKeyCordons(contentSize, signatureSize);
      }

      assert principal.value[partitioned..] == Cordon(principal.value, partitioned, VERIFICATION_SIZE);
      verification := p.digest(Cordon(principal.value, partitioned, VERIFICATION_SIZE) + VERIFICATION_DATA,
                               VERIFICATION_SIZE);
      if verification == None { return false; }

      hasKeys := true;
      return true;
    }

    method SetInitiatorKeyCordons(contentSize: nat, signatureSize: nat) returns (offset: nat)
      requires principal.Some? && |principal.value| == DerivationSize(contentSize, signatureSize)
      modifies `content, `peerContent, `signature, `peerSignature
      ensures Value() == Partitioned(old(Value()), Initiator, principal.value, contentSize, signatureSize)
      ensures offset == 2 * contentSize + 2 * signatureSize
    {
      offset := 0;
      content := Some(Cordon(principal.value, offset, contentSize));
      offset := offset + contentSize;
      peerContent := Some(Cordon(principal.value, offset, contentSize));
      offset := offset + contentSize;
      signature := Some(Cordon(principal.value, offset, signatureSize));
      offset := offset + signatureSize;
      peerSignature := Some(Cordon(principal.value, offset, signatureSize));
      offset := offset + signatureSize;
    }

    method SetAcceptorKeyCordons(contentSize: nat, signatureSize: nat) returns (offset: nat)
      requires principal.Some? && |principal.value| == DerivationSize(contentSize, signatureSize)
      modifies `content, `peerContent, `signature, `peerSignature
      ensures Value() == Partitioned(old(Value()), Acceptor, principal.value, contentSize, signatureSize)
      ensures offset == 2 * contentSize + 2 * signatureSize
    {
      offset := 0;
      peerContent := Some(Cordon(principal.value, offset, contentSize));
      offset := offset + contentSize;
      content := Some(Cordon(principal.value, offset, contentSize));
      offset := offset + contentSize;
      peerSignature := Some(Cordon(principal.value, offset, signatureSize));
      offset := offset + signatureSize;
      signature := Some(Cordon(principal.value, offset, signatureSize));
      offset := offset + signatureSize;
    }

    method ResetState()
      modifies this
      ensures Value() == EMPTY.(seed := [])
    {
      peerPublicKey, seed, principal, verification := None, [], None, None;
      content, peerContent, signature, peerSignature, hasKeys := None, None, None, None, false;
    }
  }

  // ---- What the keys are for ----

  /** All four keys are there, with the lengths that the strategy asked for. */
  predicate HoldsKeys(store: Store, contentSize: nat, signatureSize: nat) {
    && store.content.Some? && |store.content.value| == contentSize
    && store.peerContent.Some? && |store.peerContent.value| == contentSize
    && store.signature.Some? && |store.signature.value| == signatureSize
    && store.peerSignature.Some? && |store.peerSignature.value| == signatureSize
  }

  /** The keys and the verification key are disjoint sections that make up the principal key. */
  lemma PartitionTiles(store: Store, principal: seq<byte>, contentSize: nat, signatureSize: nat)
    requires |principal| == DerivationSize(contentSize, signatureSize)
    ensures
      var keyed := Partitioned(store, Initiator, principal, contentSize, signatureSize);
      && HoldsKeys(keyed, contentSize, signatureSize)
      && principal == keyed.content.value + keyed.peerContent.value + keyed.signature.value
                      + keyed.peerSignature.value + principal[|principal| - VERIFICATION_SIZE..]
  {
    var c, s := contentSize, signatureSize;
    assert principal == principal[..c] + principal[c..c + c] + principal[2 * c..2 * c + s]
                        + principal[2 * c + s..2 * c + s + s] + principal[2 * c + 2 * s..];
  }

  /** The two ends of a session see the same keys from opposite sides. */
  ghost predicate Mirrored(a: Store, b: Store) {
    && a.content == b.peerContent && b.content == a.peerContent
    && a.signature == b.peerSignature && b.signature == a.peerSignature
    && a.verification == b.verification
  }

  /** Whoever derives keys from the same secret in the other role gets the mirror image, whatever
      seeds and earlier keys either of them holds. */
  lemma SameSecretMirrors(p: Primitives, a: Store, b: Store, secret: seq<byte>, contentSize: nat, signatureSize: nat)
    requires Lawful(p)
    ensures
      var (okA, a') := Generated(p, a, Initiator, secret, contentSize, signatureSize);
      var (okB, b') := Generated(p, b, Acceptor, secret, contentSize, signatureSize);
      && okA == okB
      && (okA ==> Mirrored(a', b') && a'.hasKeys && b'.hasKeys && a'.verification.Some?
                  && HoldsKeys(a', contentSize, signatureSize) && HoldsKeys(b', contentSize, signatureSize))
  {
  }

  /** What the keys are, as sections of a digest of the secret: each role's keys by their places in it. */
  predicate AreSections(store: Store, role: Role, principal: seq<byte>, contentSize: nat, signatureSize: nat)
    requires |principal| == 2 * contentSize + 2 * signatureSize + 32
  {
    var c, s := contentSize, signatureSize;
    var content1, content2 := Some(principal[..c]), Some(principal[c..2 * c]);
    var signature1 := Some(principal[2 * c..2 * c + s]);
    var signature2 := Some(principal[2 * c + s..2 * c + 2 * s]);
    match role
    case Initiator =>
      && store.content == content1 && store.peerContent == content2
      && store.signature == signature1 && store.peerSignature == signature2
    case Acceptor =>
      && store.content == content2 && store.peerContent == content1
      && store.signature == signature2 && store.peerSignature == signature1
  }

  /** The derivation over the digest alone. It succeeds exactly if the digest of the secret and the one of its
      last bytes and the text verify can be made; then these are the principal key, whose sections are the
      keys, and the verification data. A failure on the second one leaves the new keys behind, but never
      says that there are any. */
  lemma KeysComeFromSecret(p: Primitives, store: Store, role: Role, secret: seq<byte>, contentSize: nat,
                           signatureSize: nat)
    requires Lawful(p)
    ensures
      var (ok, next) := Generated(p, store, role, secret, contentSize, signatureSize);
      var principal := p.digest(secret, 2 * contentSize + 2 * signatureSize + 32);
      && (principal.Some? && contentSize >= 16 && signatureSize >= 16 ==>
            && |principal.value| == 2 * contentSize + 2 * signatureSize + 32
            && next.principal == principal && AreSections(next, role, principal.value, contentSize, signatureSize)
            && next.verification
               == p.digest(principal.value[|principal.value| - 32..] + [118, 101, 114, 105, 102, 121], 32))
      && (ok <==> principal.Some? && contentSize >= 16 && signatureSize >= 16 && next.verification.Some?)
      && (principal == None || contentSize < 16 || signatureSize < 16 ==> next == store)
      && next.hasKeys == (ok || store.hasKeys)
      && next.seed == store.seed && next.peerPublicKey == store.peerPublicKey
  {
  }

  /** All the key material is used once: the four keys in the order of the initiator, and the bytes behind the
      verification data, are the whole digest of the secret. */
  lemma KeysAreTheDigest(p: Primitives, store: Store, role: Role, secret: seq<byte>, contentSize: nat,
                         signatureSize: nat)
    requires Lawful(p) && Generated(p, store, role, secret, contentSize, signatureSize).0
    ensures
      var next := Generated(p, store, role, secret, contentSize, signatureSize).1;
      && HoldsKeys(next, contentSize, signatureSize) && next.verification.Some?
      && var principal := p.digest(secret, 2 * contentSize + 2 * signatureSize + 32);
      && principal.Some?
      && var last := principal.value[|principal.value| - 32..];
      && principal.value == (match role
           case Initiator =>
             next.content.value + next.peerContent.value + next.signature.value + next.peerSignature.value + last
           case Acceptor =>
             next.peerContent.value + next.content.value + next.peerSignature.value + next.signature.value + last)
      && next.verification == p.digest(last + VERIFICATION_DATA, 32)
  {
    KeysComeFromSecret(p, store, role, secret, contentSize, signatureSize);
    PartitionTiles(store, p.digest(secret, 2 * contentSize + 2 * signatureSize + 32).value, contentSize,
                   signatureSize);
  }

  /** The seed has no influence on the keys: a second session with the same secret has the same
      keys, which the derivation was meant to rule out. */
  lemma SeedIsIgnored(p: Primitives, store: Store, seed: seq<byte>, role: Role, secret: seq<byte>,
                      contentSize: nat, signatureSize: nat)
    requires Lawful(p)
    ensures
      var (ok, plain) := Generated(p, store, role, secret, contentSize, signatureSize);
      Generated(p, store.(seed := seed), role, secret, contentSize, signatureSize)
      == (ok, plain.(seed := seed))
  {
  }

  /** Deriving keys again keeps a store in good order even when it fails half way. */
  lemma GeneratedKeepsKeys(p: Primitives, store: Store, role: Role, secret: seq<byte>, contentSize: nat,
                           signatureSize: nat)
    requires Lawful(p)
    requires store.hasKeys ==> HoldsKeys(store, contentSize, signatureSize)
    ensures
      var (ok, next) := Generated(p, store, role, secret, contentSize, signatureSize);
      && (ok ==> next.hasKeys && next.verification.Some? && |next.verification.value| == VERIFICATION_SIZE)
      && (next.hasKeys ==> HoldsKeys(next, contentSize, signatureSize))
      && (store.hasKeys ==> next.hasKeys)
  {
  }
}
