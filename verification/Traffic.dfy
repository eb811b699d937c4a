/** Network and application messages on a stream: from one node's builders to the other's parsers. */
module Traffic {
  import opened Bytes
  import Identifier
  import Z85
  import H = MessageHeader
  import N = NetworkMessage
  import A = ApplicationMessage
  import opened Stream

  /** The first ten characters of a text are the encoding of the first eight bytes. */
  lemma HeaderCharacters(bytes: seq<byte>, n: nat)
    requires |bytes| == 4 * n && n > 2
    ensures |Z85.EncodeBlocks(bytes, n)| == 5 * n
    ensures Z85.EncodeBlocks(bytes, n)[..HEADER_SIZE] == Z85.EncodeBlocks(bytes[..8], 2)
  {
    hide Z85.EncodeBlocks;
    assert bytes == bytes[..8] + bytes[8..];
    Z85.EncodeInPieces(bytes[..8], 2, bytes[8..], n - 2);
  }

  /** A header that can be read yields the eight bytes it was made from. */
  lemma HeaderBytes(bytes: seq<byte>)
    requires |bytes| == 8 && Z85.Accepts(Z85.EncodeBlocks(bytes, 2))
    ensures Z85.Decoding(Z85.EncodeBlocks(bytes, 2)) == bytes
  {
    hide Z85.EncodeBlocks, Z85.Accepts, Z85.Decoding, Z85.Encodable, Z85.AcceptsBlocks, Z85.DecodeBlocks;
    Z85.AcceptsAsBlocks(Z85.EncodeBlocks(bytes, 2), 2);
    Z85.DecodeEncodeBlocks(bytes, 2);
  }

  /** Whole blocks that start with a header announcing the length of their text: the text is framed,
      and can be read exactly when none of the blocks is FF FF FF FF. */
  lemma PackIsFramed(digest: Identifier.Digest, h: H.Header, bytes: seq<byte>, rest: seq<byte>)
    requires H.ParsableHeader(digest, h) && bytes == H.Packed(h) + rest
    requires Z85.ZeroPadded(bytes) == bytes && h.size == |Z85.Encoding(bytes)|
    ensures Framed(Z85.Encoding(bytes))
    ensures Reading(digest, Z85.Encoding(bytes)) == if Z85.Clean(bytes) then Some(bytes) else None
  {
    assert |bytes| >= H.FIXED_PACK_SIZE;
    hide Z85.Accepts, Z85.Decoding, Z85.Clean, Z85.EncodeBlocks, H.Packed, H.PeekSource, H.PeekSize, H.ParsableHeader,
      HeaderRead, Reading, Framed, Z85.Encoding, Z85.ZeroPadded;
    H.ParsePacked(digest, h, rest);
    ParsableIsValid(digest, h);
    H.PeeksAgree(digest, bytes);
    HeaderIsFramed(h, bytes);
    Z85.DecodeEncode(bytes);
    ReadingIsDecoding(digest, Z85.Encoding(bytes));
    HonestIsAccepted(digest, Z85.Encoding(bytes));
  }

  lemma ParsableIsValid(digest: Identifier.Digest, h: H.Header)
    requires H.ParsableHeader(digest, h)
    ensures h.source.valid
  {
  }

  lemma HonestIsAccepted(digest: Identifier.Digest, text: Text)
    ensures Honest(digest, text) <==>
      && Z85.Accepts(text) && |text| > HEADER_SIZE
      && H.PeekSize(Z85.Decoding(text)) == Some(|text|) && H.PeekSource(digest, Z85.Decoding(text)).Some?
  {
  }

  lemma HeaderIsFramed(h: H.Header, bytes: seq<byte>)
    requires |bytes| >= H.FIXED_PACK_SIZE && Z85.ZeroPadded(bytes) == bytes
    requires h.size == |Z85.Encoding(bytes)|
    requires H.PeekSize(bytes) == if h.size == 0 then None else Some(h.size)
    ensures |Z85.Encoding(bytes)| > HEADER_SIZE && Framed(Z85.Encoding(bytes))
  {
    hide Z85.Accepts, Z85.Decoding, Z85.EncodeBlocks, H.PeekSize, HeaderRead;
    var n := Z85.DecodedBlocks(|bytes|);
    assert |bytes| == 4 * n && Z85.Encoding(bytes) == Z85.EncodeBlocks(bytes, n);
    hide Z85.Encoding, Z85.ZeroPadded, Z85.DecodedBlocks;
    HeaderCharacters(bytes, n);
    HeaderSaysSize(bytes, |Z85.Encoding(bytes)|);
  }

  lemma HeaderSaysSize(bytes: seq<byte>, size: nat)
    requires |bytes| >= 8 && H.PeekSize(bytes) == Some(size) && size > HEADER_SIZE
    ensures HeaderRead(Z85.EncodeBlocks(bytes[..8], 2)).0 in {Failed, Body(size)}
  {
    hide Z85.Accepts, Z85.Decoding, Z85.EncodeBlocks, H.PeekSize;
    var first := bytes[..8];
    assert first + bytes[8..] == bytes;
    H.PeekableSizeSuffices(first, bytes[8..]);
    if Z85.Accepts(Z85.EncodeBlocks(first, 2)) { HeaderBytes(first); }
  }

  // ---- Messages of both kinds ----

  datatype Message = Network(network: N.Message) | Application(application: A.Message)

  /** What the builders make, with a signature if one is needed. */
  ghost predicate Sendable(sender: A.Handlers, digest: Identifier.Digest, m: Message) {
    match m
    case Network(n) => N.Sendable(digest, n)
    case Application(a) => A.Sendable(sender, digest, a) && A.Signed(sender, a).Some?
  }

  function PackedBytes(sender: A.Handlers, m: Message): seq<byte> {
    match m
    case Network(n) => N.Packed(n)
    case Application(a) => match A.Signed(sender, a) case None => [] case Some(bytes) => bytes
  }

  /** The text that is scheduled for a message. */
  function Pack(sender: A.Handlers, m: Message): Text {
    Z85.Encoding(PackedBytes(sender, m))
  }

  function Packs(sender: A.Handlers, messages: seq<Message>): (texts: seq<Text>)
    ensures |texts| == |messages|
  {
    seq(|messages|, i requires 0 <= i < |messages| => Pack(sender, messages[i]))
  }

  /** How many messages there are before the first one that has a block FF FF FF FF. */
  function CleanMessages(sender: A.Handlers, messages: seq<Message>): nat {
    if messages == [] || !Z85.Clean(PackedBytes(sender, messages[0])) then 0
    else 1 + CleanMessages(sender, messages[1..])
  }

  lemma NetworkPack(digest: Identifier.Digest, n: N.Message)
    requires N.Sendable(digest, n)
    ensures
      var bytes := N.Packed(n);
      && Framed(Z85.Encoding(bytes))
      && Reading(digest, Z85.Encoding(bytes)) == if Z85.Clean(bytes) then Some(bytes) else None
  {
    var bytes := N.Packed(n);
    var padding: seq<byte> := bytes[|H.Packed(n.header)| + |N.Body(n)|..];
    N.AdvertisedSize(n);
    N.PaddedOnce(H.Packed(n.header) + N.Body(n));
    Regrouped(H.Packed(n.header), N.Body(n), padding);
    hide N.PackSize, N.Body, Z85.Clean, Z85.Encoding, H.Packed, H.ParsableHeader, Framed, Reading;
    PackIsFramed(digest, n.header, bytes, N.Body(n) + padding);
  }

  lemma ApplicationPack(sender: A.Handlers, digest: Identifier.Digest, a: A.Message)
    requires A.Sendable(sender, digest, a) && A.Signed(sender, a).Some?
    requires |A.SignatureOf(sender, a)| == sender.signatureSize && sender.signatureSize % 4 == 0
    ensures
      var bytes := A.Signed(sender, a).value;
      && Framed(Z85.Encoding(bytes))
      && Reading(digest, Z85.Encoding(bytes)) == if Z85.Clean(bytes) then Some(bytes) else None
  {
    var bytes := A.Signed(sender, a).value;
    A.SignedBytes(sender, a);
    A.AdvertisedSize(sender, a);
    Regrouped(H.Packed(a.header), A.Body(a), A.SignedTail(sender, a));
    hide A.Content, A.Body, A.SignedTail, A.PackSize, A.ContentSize;
    hide Z85.ZeroPadded, Z85.Clean, Z85.Encoding, H.Packed, H.ParsableHeader, Framed, Reading;
    PackIsFramed(digest, a.header, bytes, A.Body(a) + A.SignedTail(sender, a));
  }

  /** What every message packs to is framed, and can be read exactly when it is clean. */
  lemma PackReads(sender: A.Handlers, receiver: A.Handlers, digest: Identifier.Digest, m: Message)
    requires A.Paired(sender, receiver) && sender.signatureSize % 4 == 0 && Sendable(sender, digest, m)
    ensures Framed(Pack(sender, m))
    ensures Reading(digest, Pack(sender, m))
      == if Z85.Clean(PackedBytes(sender, m)) then Some(PackedBytes(sender, m)) else None
  {
    hide Framed, Reading, Z85.Clean, Z85.Encoding, N.Sendable, A.Sendable, N.Packed, A.Signed;
    match m {
      case Network(n) => NetworkPack(digest, n);
      case Application(a) =>
        A.SignatureIsAccepted(sender, receiver, a);
        ApplicationPack(sender, digest, a);
    }
  }

  /** The parsers of the receiver make of some bytes the message that was sent, up to the await
      tracker of an application message (see `ApplicationMessage.ReadAsSent`). */
  ghost predicate Arrived(sender: A.Handlers, receiver: A.Handlers, digest: Identifier.Digest, now: nat, m: Message,
                          bytes: seq<byte>) {
    match m
    case Network(n) => N.Received(digest, bytes) == Some(n)
    case Application(a) =>
      A.Signed(sender, a).Some? && A.Received(receiver, digest, now, bytes) == Some(A.AsRead(sender, a))
  }

  lemma PackArrives(sender: A.Handlers, receiver: A.Handlers, digest: Identifier.Digest, now: nat, m: Message)
    requires A.Paired(sender, receiver) && sender.signatureSize % 4 == 0 && Sendable(sender, digest, m)
    ensures Arrived(sender, receiver, digest, now, m, PackedBytes(sender, m))
  {
    hide N.Sendable, A.Sendable, N.Received, A.Received, A.AsRead, A.Signed;
    match m {
      case Network(n) => N.PackedRoundTrip(digest, n);
      case Application(a) => A.BytesRoundTrip(sender, receiver, digest, a, now);
    }
  }

  lemma {:induction false} CleanIsReadable(sender: A.Handlers, receiver: A.Handlers, digest: Identifier.Digest,
                                           messages: seq<Message>)
    requires A.Paired(sender, receiver) && sender.signatureSize % 4 == 0
    requires forall i :: 0 <= i < |messages| ==> Sendable(sender, digest, messages[i])
    ensures Readable(digest, Packs(sender, messages)) == CleanMessages(sender, messages)
  {
    hide Framed, Reading, Sendable, Pack, Z85.Clean, PackedBytes, A.Paired;
    if messages != [] {
      assert Packs(sender, messages)[1..] == Packs(sender, messages[1..]);
      PackReads(sender, receiver, digest, messages[0]);
      CleanIsReadable(sender, receiver, digest, messages[1..]);
    }
  }

  /** Whatever messages of both kinds are scheduled: at every point of every run those delivered so
      far parse to the first ones that were scheduled, field by field. When nothing can happen any more
      and no handler refused a message, these are all the messages before the first one that has an
      aligned block FF FF FF FF, on which, if there is one, the receiver has failed. */
  lemma MessagesArrive(sender: A.Handlers, receiver: A.Handlers, digest: Identifier.Digest, now: nat,
                       messages: seq<Message>, steps: seq<Step>)
    requires A.Paired(sender, receiver) && sender.signatureSize % 4 == 0
    requires forall i :: 0 <= i < |messages| ==> Sendable(sender, digest, messages[i])
    requires IsRun(digest, NEW, steps) && Scheduled(steps) == Packs(sender, messages)
    ensures
      var l, clean := Last(digest, NEW, steps), CleanMessages(sender, messages);
      && |l.delivered| <= clean <= |messages|
      && (forall i :: 0 <= i < |l.delivered| ==>
            Arrived(sender, receiver, digest, now, messages[i], l.delivered[i]))
      && (Settled(l) && l.phase != Refused ==> |l.delivered| == clean && (l.phase == Failed <==> clean < |messages|))
  {
    hide Last, IsRun, Scheduled, Settled, Sendable, Framed, Reading, Arrived, A.Paired, Z85.Clean, PackedBytes, Pack;
    DeliveredIsSent(digest, steps);
    CleanIsReadable(sender, receiver, digest, messages);
    var delivered := Last(digest, NEW, steps).delivered;
    forall i | 0 <= i < |delivered|
      ensures Arrived(sender, receiver, digest, now, messages[i], delivered[i])
    {
      assert Reading(digest, Packs(sender, messages)[i]) == Some(delivered[i]);
      PackReads(sender, receiver, digest, messages[i]);
      PackArrives(sender, receiver, digest, now, messages[i]);
    }
  }
}
