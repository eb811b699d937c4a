# Brypt node: verified model

A Dafny 4.11 model of a Brypt peer-to-peer node, from the characters on a TCP connection up to the
moment two nodes trust each other. `dafny verify dfyconfig.toml` checks it.

The layers build on each other:

1. Codecs. `Positional` holds the arithmetic of positional number systems. `Z85` and `Base58` are the
   loops of the code over arrays, proved against a change of base, with exact round trips. `Identifier`
   is the pair of representations of a node's identifier.
2. Messages and streams. `PackUtils`, `MessageHeader`, `NetworkMessage` and `ApplicationMessage` are the
   packed formats with their builders and parsers. `Stream` is one direction of a TCP session as a state
   machine: event queue, batches, partial writes, partial reads, and the receiver that cuts messages out
   of the stream; `Traffic` sends the messages of both formats through it.
3. The handshake. `KeyStore` and `Strategy` are the key derivation and the synchronization stages as
   functions on their state; the classes of `KeyStore` and `SecurityStrategy` are the objects of the code,
   which keep the invariants proved of these. `Handshake` runs two strategies against each other, also with
   primitives that fail. `Authorization` is what messages do to a peer and its mediator, `SecurityMediator`
   the same as three objects that call each other back, and `PeerManager` the peers of a node. `HonestWorld`
   takes the messages of an honest handshake through two nodes, `ManagedNodes` through their peer managers,
   `TwoNodes` puts the two streams of a session between them, under every interleaving of their steps, and
   `Outcomes` shows that both ways in which a run can end occur.
4. Trackers. `ResponseTracker`, `TrackingManager`, `ConnectionTracker` and `AuthorizedProcessor`.

Conventions. Text is a sequence of bytes, as the code treats its `char`s. Cryptographic primitives (the
digest, the KEM, the cipher and the MAC) are function values that may fail; the laws they need (lengths,
decryption undoes encryption, decapsulation undoes encapsulation) are stated as predicates, and nothing is
claimed about their strength. Randomness, the time and the outcome of sends are parameters. An exception is
a value of the result, which is proved not to occur where the code relies on that. Machine integers wrap
explicitly where they can. What a check or a field means is stated over the primitives and the places of bytes
(`Strategy.ReadyIsVerified`, `KeyStore.KeysComeFromSecret`, `MessageHeader.ParsedFields`), not over the
functions that compute it. A function that computes what the code computes has a method beside it, in the form of the code, whose
contract equates the two.

Where the code differs from its own intent the model follows the code, and says for which inputs that happens:

- The Z85 guard rejects the legal encoding of an aligned block FF FF FF FF (`Z85.LastBlockIsLost`). Every
  result about texts states this exception exactly, from the codec (`Z85.DecodeEncode`) to the exchange of
  two nodes: both get authorized exactly if none of the three handshake packs has such a block
  (`TwoNodes.HonestRunsAuthorize`), which a seed of bytes FF is enough to break (`Outcomes.SeedThatFails`).
- The session seed is appended to a buffer that the secret was moved out of, so the keys depend on the
  secret alone (`KeyStore.SeedIsIgnored`).
- The number of extensions of an application message only decides whether they are read; they are read to
  the end of the buffer, signature included, so that the await tracker comes back exactly under the condition
  of `ApplicationMessage.SafeTracker` (`ApplicationMessage.TrackerIsLost` for an input where it does not).
- A signature that cannot be made in the handshake is left out instead of ending it, because the failure
  value -1 is compared with 0 (`Strategy.ConfirmationMayBeUnsigned`, `Strategy.ResponseMayBeUnsigned`). The
  other side turns the short message down (`Strategy.WrongSizeIsTurnedDown`), so that the initiator may end
  ready and the acceptor in error: `Handshake.OnlySigningFails` says exactly when, `Handshake.OneSideReady`
  is an instance.
- A handshake answer that cannot be sent closes the exchange, and the handling then goes on and may still
  authorize the peer: exactly when is `Authorization.UnsentAnswer`, an honest response for which it does
  is `HonestWorld.UnsentConfirmation`.
- The network message builder reads the type before it looks at the protocol
  (`NetworkMessage.ApplicationPassesForNetwork`).
- A tracker is completed but can become fulfilled again: exactly when is
  `ResponseTracker.CompletedIsNotFinal`, and `ResponseTracker.AnswersAgain` that it nearly always does.
- An answer that could not be signed by its sender is empty; it is counted without filling an entry, so that
  one peer can fulfil a request to several alone (`ResponseTracker.EmptyAnswersFulfil`, and
  `ResponseTracker.WhenFulfilled` for the exact condition).
- Identifiers below 2^104 may have a text that the header parser refuses
  (`Identifier.SmallIdentifiersDoNotFit`, and `Identifier.Window` for the exact condition).

## Model

| member | source | states |
|---|---|---|
| `Z85.WriteZ85` | src/Utilities/Z85.hpp:115-117 | a 32 bit value is written as the five base 85 digits that denote it, through the alphabet table |
| `Z85.WriteBase256` | src/Utilities/Z85.hpp:170-172 | a 32 bit value is written as the four bytes that denote it |
| `Z85.EncodeInto` | src/Utilities/Z85.hpp:98-141 | fails exactly on a destination of the wrong size and then writes nothing; otherwise every four byte block, the last one zero padded, becomes its five base 85 digits, and no write leaves the destination |
| `Z85.Encode` | src/Utilities/Z85.hpp:145-151 | the text of the encoding, of the advertised length |
| `Z85.DecodeCharacter` | src/Utilities/Z85.hpp:180-194 | one turn of the decoder: the running value stays a 32 bit number, and the turn fails only on texts that no decoding accepts |
| `Z85.DecodeInto` | src/Utilities/Z85.hpp:155-201 | succeeds exactly on texts of 5k >= 5 alphabet characters whose every block denotes less than 2^32 - 1, and writes the bytes of each block |
| `Z85.Decode` | src/Utilities/Z85.hpp:212-217 | the decoded bytes, or nothing for a rejected text |
| `Z85.DecodeEncode` | src/Utilities/Z85.hpp:98-201 | an encoding is accepted exactly when it is not empty and no aligned block of the padded bytes is FF FF FF FF, and then decodes to the bytes and their padding |
| `Z85.EncodeDecode` | src/Utilities/Z85.hpp:98-201 | every accepted text is the encoding of what it decodes to |
| `Z85.LastBlockIsLost` | src/Utilities/Z85.hpp:193 | four bytes FF encode to %nSc0, a legal block of the standard, which the guard rejects |
| `Z85.DecodeInPieces` | src/Utilities/Z85.hpp:180-194 | a text cut between blocks is accepted exactly when both parts are, and decodes to the parts put together |
| `Z85.DigitOfEncodeMapping` | src/Utilities/Z85.hpp:34-58 | the decoding table inverts the alphabet |
| `Z85.TableLookup` | src/Utilities/Z85.hpp:34-58 | for every byte value: the decoding table, with its bound, has an entry exactly if the byte is the image of one of the 85 digits under the encoding table, and the entry is that digit |
| `Z85.BlockDenotesNumber` | src/Utilities/Z85.hpp:98-141 | the four bytes and the five digits of a block denote the same number, the first one counting most |
| `Z85.AlphabetIsStandard` | src/Utilities/Z85.hpp:34-44 | the encoding table is the alphabet of ZeroMQ RFC 32 |
| `Base58.EstimateSuffices` | src/Utilities/Base58.hpp:57-60 | 256^n <= 58^(n * 138 / 100 + 1): the estimated array holds every digit of n bytes |
| `Base58.MultiplyAdd` | src/Utilities/Base58.hpp:72-76 | the in-place inner loop multiplies the number in the digit array and adds a byte, with a carry of at most 255 |
| `Base58.AppendCarry` | src/Utilities/Base58.hpp:78-81 | the carry is spread over new digits, none of which is outside the array |
| `Base58.Encode` | src/Utilities/Base58.hpp:64-93 | the digit array ends up holding the base 58 digits of the whole input, and the text starts with one 1 for every leading zero byte but the last |
| `Base58.Decode` | src/Utilities/Base58.hpp:97-126 | the same for base 256, for every string of characters, including those outside the alphabet |
| `Base58.TranscodeInverts` | src/Utilities/Base58.hpp:64-126 | changing the base there and back, with leading zeros kept, is the identity |
| `Base58.DecodeEncode` | src/Utilities/Base58.hpp:64-126 | every nonempty byte string survives, leading and all-zero bytes included |
| `Base58.EncodeDecode` | src/Utilities/Base58.hpp:64-126 | every nonempty string over the alphabet is the encoding of what it decodes to |
| `Base58.AlphabetIsUsual` | src/Utilities/Base58.hpp:18-26 | the encoding table is the usual alphabet |
| `Identifier.ConvertToNetworkRepresentation` | src/BryptIdentifier/BryptIdentifier.cpp:339-377 | the text is the prefix and the Base58 encoding of the 16 bytes with their checksum |
| `Identifier.ConvertToInternalRepresentation` | src/BryptIdentifier/BryptIdentifier.cpp:75-117 | the number of a text with the right prefix, checksum and length, and of no other |
| `Identifier.RoundTrip` | src/BryptIdentifier/BryptIdentifier.cpp:75-117 | for every number below 2^128 and every checksum function the network representation leads back to the number |
| `Identifier.Canonical` | src/BryptIdentifier/BryptIdentifier.cpp:75-117 | of the texts that stand for a number exactly one is spelled in the alphabet |
| `Identifier.Window` | src/BryptMessage/MessageHeader.cpp:221-223 | the text never has more than 33 characters, and has at least 31 exactly when its 20 bytes, with z zeros in front, denote at least 58^(25 - z) |
| `Identifier.LargeIdentifiersFit` | src/BryptMessage/MessageHeader.cpp:221-223 | every number whose top three bytes are not all zero has a text of 31 to 33 characters |
| `Identifier.SmallIdentifiersDoNotFit` | src/BryptMessage/MessageHeader.cpp:221-223 | the identifier 1 has a text that the header parser refuses, whatever the checksum function is |
| `Identifier.ReservedIsZero` | src/BryptIdentifier/ReservedIdentifiers.hpp:45 | no number but 0 has the reserved text |
| `Identifier.ContainersAreWellFormed` | src/BryptIdentifier/BryptIdentifier.cpp:252-280 | every container is either the reserved invalid one, or the one that its own text leads to |
| `Identifier.SameIdentifiers` | src/BryptIdentifier/BryptIdentifier.cpp:208-213 | identifiers are the same exactly if their nonzero numbers are; the reserved text and number 0 give the invalid one, which is not the same as itself |
| `Identifier.TextsAreAscii` | src/BryptIdentifier/ReservedIdentifiers.hpp:45 | the prefix and the reserved text, character by character |
| `PackUtils.TakeChunk` | src/BryptMessage/PackUtils.hpp:30-113 | unpacking an integer undoes packing it, whatever follows |
| `PackUtils.ChunkTaken` | src/BryptMessage/PackUtils.hpp:99-113 | what was unpacked packs to the bytes it was read from, and fits the field |
| `PackUtils.IntegersAt` | src/BryptMessage/PackUtils.hpp:99-113 | what is read at a place is the number whose first byte counts most, spelled out for two, four and eight bytes |
| `PackUtils.Cursor.UnpackInteger` | src/BryptMessage/PackUtils.hpp:99-113 | a short read fails and leaves the cursor; otherwise the big-endian value is read and the cursor moves behind it |
| `PackUtils.Cursor.UnpackBytes` | src/BryptMessage/PackUtils.hpp:124-140 | the same for a byte string of a given size |
| `PackUtils.Buffer.PackSized` | src/BryptMessage/PackUtils.hpp:54-68 | a byte string is appended behind its size, of which the low-order bytes are kept; the size has to fit into space that was reserved, the bytes make their own |
| `PackUtils.Buffer.PackInteger` | src/BryptMessage/PackUtils.hpp:30-44 | big-endian bytes are appended; the store goes through the address from before the enlargement, so the space has to be reserved |
| `MessageHeader.GetPackedBuffer` | src/BryptMessage/MessageHeader.cpp:98-137 | the packed header, section by section, within the space that is reserved first |
| `MessageHeader.MessageHeader.ParseBuffer` | src/BryptMessage/MessageHeader.cpp:159-197 | fails exactly on bytes that hold no header, and otherwise sets all fields and leaves the cursor behind the header |
| `MessageHeader.UnpackIdentifier` | src/BryptMessage/MessageHeader.cpp:214-231 | an identifier whose size byte is outside 31..33 or that is cut short is absent, having consumed the size byte at most |
| `MessageHeader.ParsePacked` | src/BryptMessage/MessageHeader.cpp:98-197 | parsing a packed header returns its fields and what follows it, for identifiers in the window |
| `MessageHeader.UnparsableSource` | src/BryptMessage/MessageHeader.cpp:181-182 | a header whose source text is outside the window cannot be parsed back |
| `MessageHeader.ParsedFields` | src/BryptMessage/MessageHeader.cpp:159-231 | for any bytes, place by place: exactly which hold a header, which field is found where, and what follows |
| `MessageHeader.PeeksAgree` | src/BryptMessage/MessageUtils.cpp:29-103 | wherever the parser finds a header, the peeking functions see the same protocol, size (if not zero) and source (if valid) |
| `MessageHeader.PeekableSizeSuffices` | src/BryptMessage/MessageUtils.cpp:43-63 | the size that is peeked depends on the first eight bytes only |
| `MessageHeader.PeekableSize` | src/BryptMessage/MessageHeader.hpp:54-65 | ten characters are the encoding of those eight bytes |
| `MessageHeader.PeekedFields` | src/BryptMessage/MessageUtils.cpp:29-103 | what is peeked at in any bytes, place by place |
| `NetworkMessage.GetPack` | src/BryptMessage/NetworkMessage.cpp:125-151 | the text of the padded packed message, with every integer stored inside the reserved space if the size in the header is large enough |
| `NetworkMessage.BuiltHasRoom` | src/BryptMessage/NetworkMessage.cpp:109-151 | which it is in every message that the builder makes, below 4 GiB |
| `NetworkMessage.AdvertisedSize` | src/BryptMessage/NetworkMessage.cpp:109-151 | the advertised size is the length of the text, for every message |
| `NetworkMessage.NetworkBuilder.Unpack` | src/BryptMessage/NetworkMessage.cpp:337-374 | behind a header, the builder holds what could be read, and what is missing keeps its first value; without one the type stays invalid |
| `NetworkMessage.NetworkBuilder.ValidatedBuild` | src/BryptMessage/NetworkMessage.cpp:322-330 | sets the size field, and yields the message exactly when it is valid |
| `NetworkMessage.Receive` | src/BryptMessage/NetworkMessage.cpp:300-330 | the message that a text yields, or none |
| `NetworkMessage.ReceiveDecoded` | src/BryptMessage/NetworkMessage.cpp:289-330 | the same for decoded bytes |
| `NetworkMessage.RoundTrip` | src/BryptMessage/NetworkMessage.cpp:125-374 | unpacking packed bytes returns source, destination, type and payload, whatever follows the message |
| `NetworkMessage.TextRoundTrip` | src/BryptMessage/NetworkMessage.cpp:125-330 | the text of a message yields that message exactly when none of its aligned blocks is FF FF FF FF, and no message otherwise |
| `NetworkMessage.ApplicationPassesForNetwork` | src/BryptMessage/NetworkMessage.cpp:346-354 | the type is read before the protocol is checked: says exactly when an application pack is taken for a network message |
| `NetworkMessage.ReceivedFields` | src/BryptMessage/NetworkMessage.cpp:289-374 | exactly which bytes behind a header hold a network message, with its type and payload by their places; what is cut short has no payload |
| `NetworkMessage.ValidatedWhen` | src/BryptMessage/NetworkMessage.cpp:322-330 | what a builder needs to yield a message |
| `ApplicationMessage.GetPack` | src/BryptMessage/ApplicationMessage.cpp:173-219 | the text of the padded, signed message, or nothing when it cannot be signed, with every integer stored inside the reserved space |
| `ApplicationMessage.BuiltHasRoom` | src/BryptMessage/ApplicationMessage.cpp:151-176 | the size that the builder sets reserves enough, below 4 GiB |
| `ApplicationMessage.AdvertisedSize` | src/BryptMessage/ApplicationMessage.cpp:151-219 | the advertised size is the length of the text exactly when the paddings of content and signature add up to at most 3; so it is for signatures of whole blocks |
| `ApplicationMessage.ApplicationBuilder.Unpack` | src/BryptMessage/ApplicationMessage.cpp:462-509 | behind a header, the builder holds what could be read, and what is missing keeps the value of a new message; without one the command stays invalid |
| `ApplicationMessage.ApplicationBuilder.UnpackExtensions` | src/BryptMessage/ApplicationMessage.cpp:513-531 | extensions are read to the end of the buffer or the first unknown type; the last tracker read stays |
| `ApplicationMessage.UnpackAwaitTracker` | src/BryptMessage/ApplicationMessage.cpp:556-582 | a tracker of sufficient size with a known binding, or none, and how much was consumed |
| `ApplicationMessage.Receive` | src/BryptMessage/ApplicationMessage.cpp:419-455 | the message that a text yields; there is one only if the text can be decoded and what it decodes to verifies |
| `ApplicationMessage.RoundTrip` | src/BryptMessage/ApplicationMessage.cpp:462-582 | every field comes back but the await tracker, which is the last one that the bytes behind the extensions hold |
| `ApplicationMessage.SafeTracker` | src/BryptMessage/ApplicationMessage.cpp:513-531 | the tracker comes back exactly if there is padding, or no tracker, or the signature does not start with 1, or the signature happens to read as the tracker; otherwise it becomes what the signature reads as |
| `ApplicationMessage.TrackerIsLost` | src/BryptMessage/ApplicationMessage.cpp:513-531 | without padding, a signature that starts 01 00 00 00 erases the tracker |
| `ApplicationMessage.ReadAsSent` | src/BryptMessage/ApplicationMessage.cpp:513-531 | what is read is the message that was sent exactly under that condition |
| `ApplicationMessage.TextRoundTrip` | src/BryptMessage/ApplicationMessage.cpp:173-582 | between paired handlers the text of every signed message yields that message, with the tracker that the bytes determine, exactly when no aligned block is FF FF FF FF, and none otherwise |
| `ApplicationMessage.PayloadRoundTrip` | src/BryptMessage/ApplicationMessage.cpp:121-130 | the payload that was encrypted is the one that is decrypted |
| `ApplicationMessage.NothingInClear` | src/BryptMessage/ApplicationMessage.cpp:371-379 | a payload that cannot be encrypted is left out, one that cannot be decrypted is empty |
| `ApplicationMessage.ReceivedTextIsVerified` | src/BryptMessage/ApplicationMessage.cpp:419-455 | whatever the text, whatever the handlers: nothing that does not verify yields a message |
| `ApplicationMessage.AlteredIsRefused` | src/BryptMessage/ApplicationMessage.cpp:419-455 | the content of any message with a signature that the receiver turns down yields no message |
| `ApplicationMessage.ReceivedWhen` | src/BryptMessage/ApplicationMessage.cpp:427-509 | exactly which bytes yield a message: verified ones from a valid source with a known command and a time |
| `ApplicationMessage.UnpackedFields` | src/BryptMessage/ApplicationMessage.cpp:462-509 | command, phase, payload, time and extensions by their places, whatever is cut short |
| `ApplicationMessage.TrackerFields` | src/BryptMessage/ApplicationMessage.cpp:513-582 | size, binding and key of an extension by their places |
| `ApplicationMessage.ValidatedWhen` | src/BryptMessage/ApplicationMessage.cpp:440-455 | what a builder needs to yield a message |
| `Stream.EventQueue.ScheduleSend` | src/Components/Network/TCP/Endpoint.cpp:261-278 | empty messages are refused, others queued at the end |
| `Stream.EventQueue.TakeEvents` | src/Components/Network/TCP/Endpoint.cpp:310-321 | a batch is the first ten events, or all if there are fewer; the others stay in order |
| `Stream.TakesTen` | src/Components/Network/TCP/Endpoint.cpp:310-321 | in the model of a stream too: ten events at a time, from the front |
| `Stream.Session.Write` | src/Components/Network/TCP/Session.cpp:279-285 | the socket takes some more characters of the first queued text |
| `Stream.Receiver.DecodeHeader` | src/Components/Network/TCP/Session.cpp:179-207 | the first ten characters give the first bytes and the size that they announce |
| `Stream.Receiver.DecodeBody` | src/Components/Network/TCP/Session.cpp:227-236 | the rest of the characters completes the message |
| `Stream.ReadingIsDecoding` | src/Components/Network/TCP/Session.cpp:179-236 | a text that is cut out of a stream and decoded in two parts can be read exactly when it decodes as a whole, announces its own length and names its source, and then yields what the whole decodes to |
| `Stream.StepKeepsInvariant` | src/Components/Network/TCP/Session.cpp:159-302 | in every state what was delivered, followed by what is half read, on the wire, half written, queued or taken from the events, is exactly what was scheduled |
| `Stream.DeliveredIsSent` | src/Components/Network/TCP/Session.cpp:159-302 | in every run the messages delivered are the first texts scheduled, none lost, split or merged; the receiver fails exactly on the first text that cannot be read, which is never delivered, nor is anything behind it; once nothing can happen all the texts before it have been |
| `Stream.SettledIsDone` | src/Components/Network/TCP/Session.cpp:159-302 | a stream in which nothing can happen any more has delivered everything or failed, unless a message was refused |
| `Stream.WorkDecreases` | src/Components/Network/TCP/Endpoint.cpp:308-337 | every step but scheduling leaves less to be done |
| `Stream.SomethingIsEnabled` | src/Components/Network/TCP/Session.cpp:169-302 | while something is on its way, no message was refused and the receiver has not failed, a step can be taken |
| `Traffic.PackIsFramed` | src/Components/Network/TCP/Session.cpp:179-236 | whole blocks that start with a header announcing the length of their text can be cut out of a stream, and read exactly when none of the blocks is FF FF FF FF |
| `Traffic.NetworkPack` | src/BryptMessage/NetworkMessage.cpp:109-151 | so for the packs of all network messages |
| `Traffic.ApplicationPack` | src/BryptMessage/ApplicationMessage.cpp:151-219 | and for those of all signed application messages |
| `Traffic.MessagesArrive` | src/Components/Network/TCP/Session.cpp:159-302 | messages of both kinds in any order: at every point of every run those delivered parse to the first that were scheduled, field by field, and at the end these are all before the first one with an aligned block FF FF FF FF |
| `KeyStore.KeyStore.GenerateSessionKeys` | src/Components/Security/KeyStore.cpp:68-142 | the new state of the store, success or not, which KeysComeFromSecret describes |
| `KeyStore.KeyStore.SetInitiatorKeyCordons` | src/Components/Security/KeyStore.cpp:210-224 | the cordons of the initiator and the offset behind them |
| `KeyStore.KeyStore.SetAcceptorKeyCordons` | src/Components/Security/KeyStore.cpp:228-242 | the cordons of the acceptor, swapped |
| `KeyStore.KeyStore.ResetState` | src/Components/Security/KeyStore.cpp:195-206 | everything is emptied, also the seed that a new store has |
| `KeyStore.PartitionTiles` | src/Components/Security/KeyStore.cpp:109-134 | the four keys and the verification key are disjoint sections that make up the principal key |
| `KeyStore.KeysComeFromSecret` | src/Components/Security/KeyStore.cpp:68-142 | over the digest alone: when keys are derived, that they are the sections of the digest of the secret by their places, for either role, what the verification data is, and what a failure leaves behind |
| `KeyStore.KeysAreTheDigest` | src/Components/Security/KeyStore.cpp:88-142 | the four keys in the order of the initiator and the bytes behind the verification data are the whole digest of the secret |
| `KeyStore.SameSecretMirrors` | src/Components/Security/KeyStore.cpp:68-142 | initiator and acceptor derive mirrored keys from one secret, whatever seeds and older keys they hold |
| `KeyStore.SeedIsIgnored` | src/Components/Security/KeyStore.cpp:88-99 | the seed has no influence on the keys, against what the comment in the source intends |
| `SecurityStrategy.SynchronizationTracker.Finalize` | src/Components/Security/PostQuantum/NISTSecurityLevelThree.cpp:256-261 | ready, complete, and the transaction emptied |
| `SecurityStrategy.SecurityStrategy.PrepareSynchronization` | src/Components/Security/PostQuantum/NISTSecurityLevelThree.cpp:353-381 | the new state and the message: any previous synchronization is forgotten; it fails exactly for an initiator without a seed or a key, and the object stays valid |
| `SecurityStrategy.SecurityStrategy.Synchronize` | src/Components/Security/PostQuantum/NISTSecurityLevelThree.cpp:385-393 | the new state and result for every role, stage and buffer: nothing throws, the stage never falls and rises by one at most, ready means complete, keyed and without a transaction, and is reached exactly by an acceptable response or confirmation |
| `SecurityStrategy.SecurityStrategy.HandleInitiatorInitialization` | src/Components/Security/PostQuantum/NISTSecurityLevelThree.cpp:919-985 | the checks on a response, in order, what each failure leaves behind, and that it succeeds exactly if the response decapsulates, proves the keys and carries the MAC of the transaction |
| `SecurityStrategy.SecurityStrategy.GenerateVerificationRequest` | src/Components/Security/PostQuantum/NISTSecurityLevelThree.cpp:989-1017 | the last message of the initiator; a signature that cannot be made is left out |
| `SecurityStrategy.SecurityStrategy.HandleAcceptorInitialization` | src/Components/Security/PostQuantum/NISTSecurityLevelThree.cpp:811-841 | the checks on a request, the derivation of the keys and the response |
| `SecurityStrategy.SecurityStrategy.GenerateInitializationResponse` | src/Components/Security/PostQuantum/NISTSecurityLevelThree.cpp:1088-1107 | the response, signed together with the request |
| `SecurityStrategy.SecurityStrategy.HandleAcceptorVerification` | src/Components/Security/PostQuantum/NISTSecurityLevelThree.cpp:1112-1154 | the checks on the confirmation, and that it succeeds exactly if that proves the keys and carries its MAC |
| `Strategy.StepIsSafe` | src/Components/Security/PostQuantum/NISTSecurityLevelThree.cpp:353-393 | for every buffer: nothing throws, ready means complete with keys and an empty transaction, only preparing lowers the stage, and no call raises it by more than one |
| `Strategy.RunIsSafe` | src/Components/Security/PostQuantum/NISTSecurityLevelThree.cpp:353-393 | this holds after every sequence of calls |
| `Strategy.ReadyTakesAllStages` | src/Components/Security/PostQuantum/NISTSecurityLevelThree.cpp:335-342 | no run is ready with fewer messages than the role has stages |
| `Strategy.ReadyIsVerified` | src/Components/Security/PostQuantum/NISTSecurityLevelThree.cpp:811-1154 | over the primitives: a strategy gets ready exactly by a response or confirmation of the right type and size whose last 48 bytes are the MAC of everything before under the key of the peer, and whose share decrypts to the verification data; all others end in error |
| `Strategy.VerifyIsByMac` | src/Components/Security/PostQuantum/NISTSecurityLevelThree.cpp:532-562 | a buffer is accepted exactly if it ends in the MAC of what precedes, which is not empty |
| `Strategy.KeyShareIsByCipher` | src/Components/Security/PostQuantum/NISTSecurityLevelThree.cpp:674-691 | a share is accepted exactly if it decrypts to data that starts with the own verification data |
| `Strategy.RequestIsAnswered` | src/Components/Security/PostQuantum/NISTSecurityLevelThree.cpp:811-841 | exactly which requests the acceptor answers |
| `Strategy.ForgedIsTurnedDown` | src/Components/Security/PostQuantum/NISTSecurityLevelThree.cpp:532-562 | an acceptable message with any other signature ends in error |
| `Strategy.ErrorIsNotFinal` | src/Components/Security/PostQuantum/NISTSecurityLevelThree.cpp:739-784 | an initiator that turned down one message takes the next as if nothing had happened |
| `Strategy.ConfirmationMayBeUnsigned` | src/Components/Security/PostQuantum/NISTSecurityLevelThree.cpp:989-1017 | an initiator that accepts a response gets ready whether it can sign or not: its confirmation has full size exactly if the MAC succeeds, and is 48 bytes shorter if it fails |
| `Strategy.ResponseMayBeUnsigned` | src/Components/Security/PostQuantum/NISTSecurityLevelThree.cpp:1088-1107 | the same for the response of the acceptor, which is signed with the whole transaction |
| `Strategy.WrongSizeIsTurnedDown` | src/Components/Security/PostQuantum/NISTSecurityLevelThree.cpp:811-1130 | every message of a wrong size, in particular one without its signature, leaves the other side in error with nothing else changed |
| `Handshake.CompletesExactly` | src/Components/Security/PostQuantum/NISTSecurityLevelThree.cpp:887-1154 | an honest handshake with primitives that may fail anywhere: the initiator gets ready exactly if the response came signed and it can encrypt, the acceptor exactly if the confirmation came signed too, and whoever does not ends in error |
| `Handshake.OnlySigningFails` | src/Components/Security/PostQuantum/NISTSecurityLevelThree.cpp:989-1107 | if nothing but the MAC fails, its two results decide who gets ready |
| `Handshake.OneSideReady` | src/Components/Security/PostQuantum/NISTSecurityLevelThree.cpp:989-1017 | an initiator whose MAC fails for its confirmation alone ends ready, and the acceptor in error |
| `Handshake.SuchPrimitivesExist` | src/Components/Security/PostQuantum/NISTSecurityLevelThree.cpp:989-1017 | such primitives exist |
| `Handshake.Completes` | src/Components/Security/PostQuantum/NISTSecurityLevelThree.cpp:887-1154 | for any seeds and any working KEM, and primitives that do not fail, the three honest messages pass every check: after one call for the initiator and two for the acceptor both are ready with mirrored keys, and with equal seeds if both were new |
| `Handshake.Request` | src/Components/Security/PostQuantum/NISTSecurityLevelThree.cpp:1021-1108 | the request makes the acceptor derive keys and respond, exactly if it can encapsulate, derive and encrypt |
| `Handshake.Answer` | src/Components/Security/PostQuantum/NISTSecurityLevelThree.cpp:919-1017 | a signed response makes the initiator derive the mirrored keys, check them and, if it can encrypt, finish |
| `Handshake.Confirm` | src/Components/Security/PostQuantum/NISTSecurityLevelThree.cpp:1112-1154 | a signed confirmation makes the acceptor finish |
| `Handshake.HandlersArePaired` | src/Components/Security/PostQuantum/NISTSecurityLevelThree.cpp:397-562 | with mirrored keys each side decrypts and accepts what the other encrypts and signs |
| `Handshake.SecretGivesHandlers` | src/Components/Security/PostQuantum/NISTSecurityLevelThree.cpp:397-562 | after an honest handshake both sides encrypt, decrypt, sign and verify with the sections of the digest of the encapsulated secret that belong to their roles |
| `Handshake.MessageLayouts` | src/Components/Security/PostQuantum/NISTSecurityLevelThree.cpp:879-1108 | the three messages, field by field and byte by byte |
| `Handshake.OnlySignedIsReceived` | src/BryptMessage/ApplicationMessage.cpp:427-429 | an application message is accepted only with the MAC that the key of the peer makes for its content |
| `SecurityMediator.SecurityMediator.OnExchangeClose` | src/Components/Security/SecurityMediator.cpp:63-87 | state, receiver and processor after an exchange closed; nothing happens without a peer, and the mediator stays valid if a success comes with a ready strategy |
| `SecurityMediator.SecurityMediator.Bind` | src/Components/Security/SecurityMediator.cpp:107-132 | binds once, and only after a setup; the peer then receives with the processor if there is one; a mediator that waited for its peer is linked to it |
| `SecurityMediator.SecurityMediator.SetupExchange` | src/Components/Security/SecurityMediator.cpp:178-236 | a processor for a new strategy, prepared, and the request; only on a mediator that has neither; without a peer the mediator then waits for one |
| `SecurityMediator.ExchangeProcessor.Prepare` | src/Components/MessageControl/ExchangeProcessor.cpp:108-131 | the prepared strategy, or an invalid stage and, on a bound mediator, a closed exchange |
| `SecurityMediator.ExchangeProcessor.CollectMessage` | src/Components/MessageControl/ExchangeProcessor.cpp:66-104 | what some bytes do to processor, mediator and peer, call-backs included; the mediator stays valid, and is authorized exactly when the peer forwards to the authorized sink, with a ready strategy and no processor |
| `SecurityMediator.ExchangeProcessor.HandleMessage` | src/Components/MessageControl/ExchangeProcessor.cpp:135-154 | a failure closes the exchange |
| `SecurityMediator.ExchangeProcessor.HandleSynchronizationMessage` | src/Components/MessageControl/ExchangeProcessor.cpp:158-227 | the whole effect of a message, also when its answer cannot be sent, which closes the exchange and goes on |
| `Authorization.SetupResolves` | src/Components/Security/SecurityMediator.cpp:178-236 | a new mediator can be set up for either role, unless an initiator lacks randomness or a key |
| `Authorization.BindingLinks` | src/Components/Security/SecurityMediator.cpp:107-132 | a mediator that was set up and never bound can be bound, so none of the exceptions is thrown |
| `Authorization.RespondKeepsLink` | src/Components/MessageControl/ExchangeProcessor.cpp:178-226 | answering, handing over and closing keep the peer in order, also when a send fails half way |
| `Authorization.ReceiveKeepsLink` | src/Components/BryptPeer/BryptPeer.cpp:115-136 | every message keeps it that the receiver is the exchange processor exactly while the mediator owns one, and the authorized sink exactly while the state is authorized, with a ready strategy held |
| `Authorization.AuthorizedByReadiness` | src/Components/MessageControl/ExchangeProcessor.cpp:158-227 | exactly which messages authorize a peer |
| `Authorization.ReceiveOutcome` | src/Components/MessageControl/ExchangeProcessor.cpp:66-227 | everything that any bytes do to a peer in exchange, case by case: the peer that results, what is returned and what is sent |
| `Authorization.BoundOnce` | src/Components/Security/SecurityMediator.cpp:107-132 | a mediator is bound once, and only after a setup |
| `Authorization.ClosedIsFinal` | src/Components/Security/SecurityMediator.cpp:63-87 | closing has no effect without a peer, and after it the peer takes no more messages |
| `Authorization.UnsentAnswer` | src/Components/MessageControl/ExchangeProcessor.cpp:178-227 | if the answer cannot be sent: the peer is authorized exactly if the message made the strategy ready and, for an initiator, the first application message went out; otherwise it is left closed; the answer is never sent |
| `HonestWorld.UnsentConfirmation` | src/Components/MessageControl/ExchangeProcessor.cpp:178-227 | a failing input: the honest response at an initiator that cannot send its confirmation, which gets authorized although the acceptor hears nothing |
| `Authorization.CollectingKeepsSound` | src/Components/MessageControl/ExchangeProcessor.cpp:66-104 | what every mediator keeps, also one whose preparation failed |
| `Authorization.InvalidIsFinal` | src/Components/MessageControl/ExchangeProcessor.cpp:72-85 | an application message ends the exchange for good, without the mediator hearing of it |
| `PeerManager.PeerManager.DeclareResolvingPeer` | src/Components/BryptPeer/PeerManager.cpp:69-120 | a heartbeat for a known peer, a new exchange for an unknown one, nothing for an address that is being resolved |
| `PeerManager.PeerManager.UndeclareResolvingPeer` | src/Components/BryptPeer/PeerManager.cpp:124-129 | the mediator of the address is dropped and nothing else changes |
| `PeerManager.PeerManager.LinkPeer` | src/Components/BryptPeer/PeerManager.cpp:133-179 | a tracked peer is found again; a new one gets the very mediator that waited at its address, which waits no longer, or a new one that accepts |
| `PeerManager.LinkNeverThrows` | src/Components/BryptPeer/PeerManager.cpp:133-179 | linking a valid identifier always succeeds, and leaves the other peers alone |
| `PeerManager.LinkedAs` | src/Components/BryptPeer/PeerManager.cpp:148-179 | which peer a new identifier gets, and that nothing else changes |
| `PeerManager.DeclaredWaits` | src/Components/BryptPeer/PeerManager.cpp:69-120 | which mediator then waits at a new address, and the request that is to be sent |
| `PeerManager.DeclaredAgain` | src/Components/BryptPeer/PeerManager.cpp:69-120 | a heartbeat exactly for a tracked peer at an address that is not being resolved; nothing changes |
| `PeerManager.OthersAreLeftAlone` | src/Components/BryptPeer/PeerManager.cpp:69-179 | no operation touches another peer |
| `ManagedNodes.ArrivesAsDelivered` | src/Components/BryptPeer/PeerManager.cpp:133-179 | what a node does with a message its manager does, from linking the sender on, and nothing else |
| `ManagedNodes.ManagersAuthorize` | src/Components/BryptPeer/PeerManager.cpp:69-179 | declaring an address, and linking and receiving request, response and confirmation, leaves both managers with the other as an authorized peer |
| `PeerManager.OperationKeepsValid` | src/Components/BryptPeer/PeerManager.cpp:69-179 | every operation and every message keeps all peers and all resolving mediators in order |
| `PeerManager.AuthorizedHoldsKeys` | src/Components/BryptPeer/PeerManager.cpp:69-179 | in every run an authorized peer holds a complete strategy with all its keys |
| `HonestWorld.TrivialWorldIsHonest` | src/Components/Security/PostQuantum/NISTSecurityLevelThree.cpp:887-1154 | what is required of two honest nodes can be met, whatever the seed of the initiator is |
| `HonestWorld.HandshakeArrives` | src/Components/MessageControl/ExchangeProcessor.cpp:178-190 | the bytes of a handshake message parse to the message that was built |
| `HonestWorld.HandshakeTextReads` | src/Components/Network/TCP/Session.cpp:179-236 | its text can be cut out of a stream, and read exactly when its bytes have no aligned block FF FF FF FF |
| `HonestWorld.RequestArrives` | src/Components/MessageControl/ExchangeProcessor.cpp:158-227 | the decoded request links the peer and is answered |
| `HonestWorld.ResponseArrives` | src/Components/MessageControl/ExchangeProcessor.cpp:158-227 | the decoded response authorizes the initiator, which sends the confirmation and then its first application message |
| `HonestWorld.ConfirmationArrives` | src/Components/MessageControl/ExchangeProcessor.cpp:158-227 | the decoded confirmation authorizes the acceptor |
| `TwoNodes.PhaseAdvances` | src/Components/MessageControl/ExchangeProcessor.cpp:66-227 | every step of two honest nodes and of the two streams between them, character by character, stays in its phase or goes on to the next |
| `TwoNodes.HonestRunsAuthorize` | src/Components/MessageControl/ExchangeProcessor.cpp:66-227 | for every interleaving no processor becomes invalid, application messages only ever reach an authorized sink, and a side is authorized only if the packs it depends on could be read; when nothing can happen any more, the initiator is authorized exactly if the packs of request and response have no aligned block FF FF FF FF, and the acceptor exactly if the confirmation has none either |
| `TwoNodes.EveryStepGetsCloser` | src/Components/MessageControl/ExchangeProcessor.cpp:66-227 | no run goes on for ever without another application message |
| `TwoNodes.ExchangeEnds` | src/Components/MessageControl/ExchangeProcessor.cpp:66-227 | every run can be brought to its end, and then both sides are authorized exactly if the three packs are clean |
| `TwoNodes.AuthorizedSidesArePaired` | src/Components/Security/SecurityMediator.cpp:136-174 | two authorized sides can read what the other encrypts and signs |
| `Outcomes.SeedThatFails` | src/Utilities/Z85.hpp:193 | the failing input: if the bytes of the initiator seed are all FF, the acceptor fails on the request and nobody is ever authorized |
| `Outcomes.FailingWorldExists` | src/Utilities/Z85.hpp:193 | there is an honest world with that seed |
| `Outcomes.AuthorizedRunExists` | src/Components/MessageControl/ExchangeProcessor.cpp:66-227 | there is an honest world with a run after which both sides are authorized |
| `ResponseTracker.ResponseTracker.ForPeers` | src/Components/Await/ResponseTracker.cpp:50-70 | every identifier handed in is expected; null ones, the requestor and repeated peers are not entered |
| `ResponseTracker.ResponseTracker.UpdateResponse` | src/Components/Await/ResponseTracker.cpp:87-106 | the new state and result for a response from any peer |
| `ResponseTracker.ResponseTracker.CheckResponseStatus` | src/Components/Await/ResponseTracker.cpp:115-122 | a complete or expired tracker is fulfilled |
| `ResponseTracker.ResponseTracker.SendFulfilledResponse` | src/Components/Await/ResponseTracker.cpp:140-185 | an answer is made of the entries exactly if the tracker is fulfilled and the request has a destination; it completes the tracker and clears its entries |
| `ResponseTracker.UpdateCounts` | src/Components/Await/ResponseTracker.cpp:87-106 | any response: counted exactly if its source was asked and has an empty entry; an empty one is counted without filling the entry, and a second one from the same peer is turned down exactly if the first was not empty |
| `ResponseTracker.EnteredAre` | src/Components/Await/ResponseTracker.cpp:60-68 | who is asked: everybody who is named but the requestor |
| `ResponseTracker.EntriesAreFirstAnswers` | src/Components/Await/ResponseTracker.cpp:87-98 | what an answer holds: the first nonempty response of each peer, as it came |
| `ResponseTracker.UnaddressedIsRepeatable` | src/Components/Await/ResponseTracker.cpp:140-160 | an attempt without a destination leaves later ones as they were |
| `ResponseTracker.WhenFulfilled` | src/Components/Await/ResponseTracker.cpp:50-122 | after any responses in any order: fulfilled exactly when as many of them count as identifiers were given, or when the time is over |
| `ResponseTracker.WhenOneFulfilled` | src/Components/Await/ResponseTracker.cpp:27-46 | for one peer: exactly when that peer has answered or the time is over; without an identifier only when the time is over |
| `ResponseTracker.WhenAllAnswered` | src/Components/Await/ResponseTracker.cpp:50-122 | if no answer is empty the count never passes what was asked for, so that the tests >= and == agree: fulfilled exactly when the time is over, or no identifier was left out or repeated and all have answered |
| `ResponseTracker.EmptyAnswersFulfil` | src/Components/Await/ResponseTracker.cpp:98-103 | the failing input: one peer of a request to several fulfils it alone, by empty answers, with no entry filled |
| `ResponseTracker.CompletedIsNotFinal` | src/Components/Await/ResponseTracker.cpp:115-185 | a tracker that has answered with its entries answers again, with none, exactly if its count is the expected one or its time is over by then |
| `ResponseTracker.AnswersAgain` | src/Components/Await/ResponseTracker.cpp:115-185 | which is so for every tracker that never got an empty answer |
| `TrackingManager.TrackingManager.PushRequest` | src/Components/Await/TrackingManager.cpp:48-59 | a request to several peers under the hash of its text; one whose key is taken is dropped |
| `TrackingManager.TrackingManager.PushRequestToOne` | src/Components/Await/TrackingManager.cpp:28-39 | the same for one peer |
| `TrackingManager.TrackingManager.PushResponse` | src/Components/Await/TrackingManager.cpp:68-118 | a response reaches the tracker of its key and no other |
| `TrackingManager.TrackingManager.ProcessFulfilledRequests` | src/Components/Await/TrackingManager.cpp:125-145 | the pass ends; a tracker is asked to send, once, and is erased exactly if its count is the expected one, it was fulfilled, or its time is over; all others are unchanged |
| `TrackingManager.OperationAccounts` | src/Components/Await/TrackingManager.cpp:28-145 | every request ever made waits, was answered once, or was dropped when it was made, and only one of these |
| `TrackingManager.AnsweredOnce` | src/Components/Await/TrackingManager.cpp:28-145 | over all runs no request is answered twice, and none that was entered is lost |
| `TrackingManager.AnsweredWhenDue` | src/Components/Await/TrackingManager.cpp:28-145 | whatever else happens, a request that was entered is answered exactly if it was due in some pass, and until then keeps the responses to it |
| `TrackingManager.SeveralAnsweredWhen` | src/Components/Await/TrackingManager.cpp:48-145 | a request to several peers is answered exactly by a pass that finds enough responses counted or the time over |
| `TrackingManager.OneAnsweredWhen` | src/Components/Await/TrackingManager.cpp:28-145 | a request to one peer, by a pass after that peer answered or the time was over |
| `TrackingManager.HistoryFollowsManager` | src/Components/Await/TrackingManager.cpp:28-145 | the runs do to the trackers what the methods do |
| `ConnectionTracker.ModifyAgrees` | src/Components/Network/ConnectionTracker.hpp:698-718 | an index that is updated for one changed entry agrees with the table again |
| `ConnectionTracker.PromotedEntry` | src/Components/Network/ConnectionTracker.hpp:306-335 | what an entry becomes by a promotion, field by field, and that no other changes |
| `ConnectionTracker.ConnectionTracker.TrackConnection` | src/Components/Network/ConnectionTracker.hpp:202-211 | a new connection without details; a tracked one is left alone |
| `ConnectionTracker.ConnectionTracker.TrackConnectionAt` | src/Components/Network/ConnectionTracker.hpp:215-229 | the same with an address, if that is valid |
| `ConnectionTracker.ConnectionTracker.TrackConnectionWith` | src/Components/Network/ConnectionTracker.hpp:233-243 | the same with details |
| `ConnectionTracker.ConnectionTracker.UntrackConnection` | src/Components/Network/ConnectionTracker.hpp:262-266 | the connection leaves the table and all indices |
| `ConnectionTracker.ConnectionTracker.UpdateOneConnection` | src/Components/Network/ConnectionTracker.hpp:283-302 | details are updated, and all indices with them |
| `ConnectionTracker.ConnectionTracker.UpdateOrPromoteConnection` | src/Components/Network/ConnectionTracker.hpp:306-335 | a promoted connection is updated; the details of another one are assigned, which keeps the address |
| `ConnectionTracker.ConnectionTracker.Translate` | src/Components/Network/ConnectionTracker.hpp:632-642 | the identifier of the peer of a connection |
| `ConnectionTracker.ConnectionTracker.TranslateIdentifier` | src/Components/Network/ConnectionTracker.hpp:646-654 | a lookup finds a connection exactly when a scan over all of them does |
| `ConnectionTracker.ConnectionTracker.IsUriTracked` | src/Components/Network/ConnectionTracker.hpp:658-666 | a URI is tracked exactly when some entry has it |
| `ConnectionTracker.UriStaysTracked` | src/Components/Network/TCP/Endpoint.cpp:601-659 | from the start of a session to its end its URI is tracked, in particular after promotion with details that have no address |
| `ConnectionTracker.EntryTellsHistory` | src/Components/Network/TCP/Endpoint.cpp:601-659 | what the entry of a session says after any operations: its address, the peer of the first message, the number of messages from that one on, and whether it is resolving, connected or disconnected |
| `ConnectionTracker.UntrackedIsGone` | src/Components/Network/TCP/Endpoint.cpp:601-659 | the end of an active session takes its connection out, until it is started again |
| `ConnectionTracker.PromotedOnce` | src/Components/Network/TCP/Endpoint.cpp:618-649 | the first message of a peer promotes a connection, which then stays with that peer |
| `AuthorizedProcessor.AuthorizedProcessor.CollectMessage` | src/Components/MessageControl/AuthorizedProcessor.cpp:40-74 | application messages join the end of the queue, network messages are handled, anything else changes nothing |
| `AuthorizedProcessor.AuthorizedProcessor.HandleMessage` | src/Components/MessageControl/AuthorizedProcessor.cpp:110-165 | which messages are answered, and with what; none when the peer is gone |
| `AuthorizedProcessor.QueuedIsVerified` | src/Components/MessageControl/AuthorizedProcessor.cpp:40-106 | only verified application messages are queued |
| `AuthorizedProcessor.SignedIsQueued` | src/Components/MessageControl/AuthorizedProcessor.cpp:40-106 | every signed message of a paired peer is queued as it is read |
| `AuthorizedProcessor.SentIsAnswered` | src/Components/MessageControl/AuthorizedProcessor.cpp:110-165 | what becomes of each network message for this node |
| `AuthorizedProcessor.RepliesArrive` | src/Components/MessageControl/AuthorizedProcessor.cpp:119-165 | a reply comes from this node, goes to whoever asked, and is taken there as such |
| `AuthorizedProcessor.OthersAreIgnored` | src/Components/MessageControl/AuthorizedProcessor.cpp:110-134 | messages for others have no effect |
| `AuthorizedProcessor.AuthorizedProcessor.PopIncomingMessage` | src/Components/MessageControl/AuthorizedProcessor.cpp:86-95 | the queue is first in, first out |
| `AuthorizedProcessor.DeliveryDrains` | src/Components/MessageControl/AuthorizedProcessor.cpp:110-165 | a delivery takes one message away and adds at most one of a smaller rank |
| `AuthorizedProcessor.TrafficDrains` | src/Components/MessageControl/AuthorizedProcessor.cpp:110-165 | from any messages in flight, in any order of deliveries: at most as many replies as the ranks add up to, and every run ends |
| `AuthorizedProcessor.TwoRepliesToAHandshake` | src/Components/MessageControl/AuthorizedProcessor.cpp:119-158 | a handshake that reaches an authorized node has a reply, which has one too |

## Left out

- Strength of the cryptography, adversaries, and the internals of OpenSSL and liboqs; buffers over 2 GiB.
- Sockets, coroutines, timers, threads and mutexes: steps are atomic, a link delivers in order. Object
  lifetime is not modelled either, in particular that an exchange processor is destroyed while it runs.
- Assertions of the code are taken to be absent, as in a release build, except where they are what a caller
  has to guarantee (sizes that fit their fields).
- JSON, configuration, persistence, logging, address parsing, the message handlers, other endpoints.
- MessageHeader.MessageHeader.ParseBuffer: says nothing about the fields that a failing call leaves behind;
  the validated builders never show them.
- NetworkMessage.NetworkBuilder.Unpack: says nothing about the header's fields when that cannot be parsed,
  for the same reason.
- ApplicationMessage.ApplicationBuilder.Unpack: likewise.
- PackUtils.Buffer.PackInteger: requires the space to be reserved, since the code stores through an address
  that is taken before the vector grows; how far a vector grows beyond what was asked for is left open.
- Z85.DecodeInto: requires a destination of the size that the code's callers allocate, and says nothing
  about its contents when the text is rejected.
- Base58.Encode: requires a nonempty source, since the code computes size - 1 of it.
- Base58.Decode: requires a nonempty source for the same reason.
- Identifier.ConvertToInternalRepresentation: a text that ends with the prefix, or decodes to less than the
  four bytes of a checksum, is undefined behaviour in the code and has no number here.
- Identifier.ConvertToNetworkRepresentation: failures of the digest context are not modelled.
- PackUtils.Cursor.UnpackBytes: takes the size to read as an argument, where the code uses the capacity that
  was reserved; the two are equal when reserving on an empty vector allocates no more than asked for.
- Z85.EncodeByte, Z85.EncodePadding, Z85.DecodeCharacter, Base58.MultiplyAdd, Base58.AppendCarry,
  Base58.WriteOut and Base58.Finish are the bodies of loops of the code, as methods of their own.
- HonestWorld.Deliver: sends always succeed and only one side resolves the other; `Authorization` and
  `PeerManager` have no such restriction.
- TwoNodes.HonestRunsAuthorize: the primitives are taken not to fail (`Handshake.CompletesExactly` has no such
  restriction), and when the receiver of one direction fails the other direction is taken to go on, whereas
  the code stops the session in both.
- Authorization.Setup: the initiator is taken to have been given a connect protocol, as the node always does.
- Authorization.ScheduleReceive: what the authorized sink does with a message is in `AuthorizedProcessor`;
  it does not change the peer.
- Stream.EventQueue.ScheduleSend: the lookup of the session, which refuses unknown and inactive ones, is not
  part of it.
- Stream.Link: one session at a time, and of the endpoint's events only those that dispatch on it. The
  decision of the message handler to refuse a message is a parameter.
- SecurityMediator.SecurityMediator.SetupExchange: a preparation that fails calls the mediator back while that
  holds its mutex, which is not recursive; the model goes on as if it were.
- SecurityMediator.SecurityMediator: strategies are held by value, and a peer keeps only its receiver; the
  registration of endpoints and message contexts is not modelled.
- PeerManager.PeerManager: the peers and mediators of the maps are values, so that sharing is not captured;
  observers, counting and iteration are left out.
- TrackingManager.TrackingManager.PushRequest: the key is any function of the text, where the code truncates
  its MD5 digest.
- ResponseTracker.ResponseTracker.SendFulfilledResponse: the JSON text of the answer and the sending itself,
  whose result is only logged, are not modelled.
- ConnectionTracker.ConnectionTracker: the callbacks are pure functions on details; the promotion method
  that nothing calls and the filtered loops over all connections are left out, as are update times.
