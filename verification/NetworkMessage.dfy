/** Handshake and heartbeat messages (src/BryptMessage/NetworkMessage.cpp). */
module NetworkMessage {
  import opened Bytes
  import opened Positional
  import opened PackUtils
  import Z85
  import Identifier
  import H = MessageHeader

  datatype Kind = Invalid | Handshake | HeartbeatRequest | HeartbeatResponse

  function KindByte(k: Kind): byte {
    match k case Invalid => 0 case Handshake => 1 case HeartbeatRequest => 2 case HeartbeatResponse => 3
  }

  function ConvertToKind(b: byte): Kind {
    if b == 1 then Handshake else if b == 2 then HeartbeatRequest else if b == 3 then HeartbeatResponse
    else Invalid
  }

  datatype Message = Message(header: H.Header, kind: Kind, payload: seq<byte>)

  const FIXED_PACK_SIZE: nat := 6

  // ---- The packed form ----

  function PackSize(m: Message): nat {
    Z85.EncodedSize(FIXED_PACK_SIZE + H.PackSize(m.header) + |m.payload|)
  }

  function Body(m: Message): (bytes: seq<byte>)
    ensures |bytes| == FIXED_PACK_SIZE + |m.payload|
  {
    [KindByte(m.kind)] + SizedChunk(m.payload, 4) + [0]
  }

  /** The packed bytes, padded so that the text codec has nothing to add. */
  function Packed(m: Message): seq<byte> {
    Z85.ZeroPadded(H.Packed(m.header) + Body(m))
  }

  method PackBody(m: Message, buffer: Buffer)
    requires |buffer.data| + |Body(m)| <= buffer.capacity
    modifies buffer
    ensures buffer.Valid() && buffer.data == old(buffer.data) + Body(m)
  {
    hide Chunk, SizedChunk;
    buffer.PackByte(KindByte(m.kind));
    buffer.PackSized(m.payload, 4);
    buffer.PackByte(0);
    assert buffer.data == old(buffer.data) + Body(m);
  }

  /** The size in the header is what is reserved for the packed bytes. */
  predicate HasRoom(m: Message) {
    |H.Packed(m.header)| + |Body(m)| <= m.header.size
  }

  /** The builder sets it to the length of the text, which is more than enough as long as that fits the
      field. */
  lemma BuiltHasRoom(m: Message)
    requires PackSize(m) < 0x1_0000_0000
    ensures HasRoom(Built(m))
  {
  }

  /** Nothing is stored outside of the space that was reserved. */
  method GetPack(m: Message) returns (text: Text)
    requires HasRoom(m)
    ensures text == Z85.Encoding(Packed(m))
  {
    hide Z85.Encoding, Z85.PaddingBytes, Body, H.Packed;
    var buffer := H.GetPackedBuffer(m.header);
    buffer.Reserve(m.header.size);
    PackBody(m, buffer);
    var padding: seq<byte> := Zeros(Z85.PaddingBytes(|buffer.data|));
    buffer.PackBytes(padding);
    text := Z85.Encode(buffer.data);
  }

  /** Padding twice is padding once. */
  lemma PaddedOnce(bytes: seq<byte>)
    ensures Z85.EncodedSize(|Z85.ZeroPadded(bytes)|) == Z85.EncodedSize(|bytes|)
    ensures Z85.ZeroPadded(Z85.ZeroPadded(bytes)) == Z85.ZeroPadded(bytes)
  {
  }

  /** The size that is advertised in the header is the length of the text. */
  lemma AdvertisedSize(m: Message)
    ensures |Z85.Encoding(Packed(m))| == PackSize(m)
  {
    hide Z85.EncodedSize, Z85.ZeroPadded;
    PaddedOnce(H.Packed(m.header) + Body(m));
  }

  // ---- Building ----

  function Built(m: Message): Message {
    m.(header := m.header.(size := PackSize(m) % 0x1_0000_0000))
  }

  function Validated(m: Message): Option<Message> {
    if H.IsValid(Built(m).header) && m.kind != Invalid then Some(Built(m)) else None
  }

  /** What a builder yields: a message with a protocol, a type and a valid source, whose size is that of its
      text, and none if anything of that is missing. */
  lemma ValidatedWhen(m: Message)
    ensures Validated(m).Some? <==>
      && m.header.protocol != H.Protocol.Invalid && m.header.source.valid && m.kind != Invalid
      && PackSize(m) % 0x1_0000_0000 != 0
    ensures Validated(m).Some? ==> Validated(m).value == m.(header := m.header.(size := PackSize(m) % 0x1_0000_0000))
  {
    hide PackSize;
  }

  // ---- Unpacking ----

  function PayloadAt(bytes: seq<byte>): seq<byte> {
    match TakeInteger(bytes, 4)
    case Short => []
    case Taken(size, rest) =>
      match TakeBytes(rest, size)
      case Short => []
      case Taken(payload, _) => payload
  }

  /** What the builder holds after a header `h` with `rest` behind it. Whatever is missing is left
      as it was; a message for another protocol keeps its type and has no payload. */
  function Unpacked(h: H.Header, rest: seq<byte>): Message {
    var kind := if rest == [] then Invalid else ConvertToKind(rest[0]);
    if kind == Invalid || h.protocol != H.Protocol.Network then Message(h, kind, [])
    else Message(h, kind, PayloadAt(rest[1..]))
  }

  /** The message that a node accepts from some decoded bytes. */
  function Received(digest: Identifier.Digest, bytes: seq<byte>): Option<Message> {
    match H.Parse(digest, bytes)
    case Short => None
    case Taken(h, rest) => Validated(Unpacked(h, rest))
  }

  function ReceivedText(digest: Identifier.Digest, text: Text): Option<Message> {
    Received(digest, if Z85.Accepts(text) then Z85.Decoding(text) else [])
  }

  class NetworkBuilder {
    const header: H.MessageHeader
    var kind: Kind
    var payload: seq<byte>

    function Value(): Message
      reads this, header
    {
      Message(header.Value(), kind, payload)
    }

    constructor ()
      ensures fresh(header) && kind == Invalid && payload == []
    {
      header := new H.MessageHeader();
      kind, payload := Invalid, [];
      new;
      header.protocol := H.Protocol.Network;
    }

    method Unpack(digest: Identifier.Digest, buffer: seq<byte>)
      requires kind == Invalid && payload == []
      modifies this, header
      ensures
        match H.Parse(digest, buffer)
        case Short => kind == Invalid
        case Taken(h, rest) => Value() == Unpacked(h, rest)
    {
      hide H.Parse, TakeInteger, TakeBytes;
      var cursor := new Cursor(buffer);
      var ok := header.ParseBuffer(digest, cursor);
      if !ok { return; }
      var first := cursor.UnpackByte();
      kind := ConvertToKind(H.ByteOr(first, 0));
      if kind == Invalid { return; }
      if header.protocol != H.Protocol.Network { return; }
      var size := cursor.UnpackInteger(4);
      if size == None { return; }
      var data := cursor.UnpackBytes(size.value);
      if data == None { return; }
      payload := data.value;
      var extensions := cursor.UnpackByte();
      if extensions == None { return; }
      if extensions != Some(0) { UnpackExtensions(cursor); }
    }

    /** There are no extensions yet: the first one, whatever it is, ends the source's loop. */
    method UnpackExtensions(cursor: Cursor)
      requires cursor.Valid()
      modifies cursor
      ensures cursor.Valid()
    {
      if cursor.begin != |cursor.data| {
        var extension := cursor.UnpackByte();
      }
    }

    method FromDecodedPack(digest: Identifier.Digest, buffer: seq<byte>)
      requires kind == Invalid && payload == []
      modifies this, header
      ensures
        match H.Parse(digest, buffer)
        case Short => kind == Invalid
        case Taken(h, rest) => Value() == Unpacked(h, rest)
    {
      if |buffer| == 0 { return; }
      Unpack(digest, buffer);
    }

    method ValidatedBuild() returns (m: Option<Message>)
      modifies header
      ensures m == Validated(old(Value()))
    {
      header.size := PackSize(Value()) % 0x1_0000_0000;
      if !H.IsValid(header.Value()) || kind == Invalid { return None; }
      return Some(Value());
    }
  }

  method Receive(digest: Identifier.Digest, text: Text) returns (m: Option<Message>)
    ensures m == ReceivedText(digest, text)
  {
    hide H.Parse, Unpacked;
    var builder := new NetworkBuilder();
    if |text| > 0 {
      var buffer := Z85.Decode(text);
      builder.Unpack(digest, buffer);
    }
    EmptyHoldsNoHeader(digest);
    m := builder.ValidatedBuild();
  }

  /** The same for bytes that have been decoded already. */
  method ReceiveDecoded(digest: Identifier.Digest, buffer: seq<byte>) returns (m: Option<Message>)
    ensures m == Received(digest, buffer)
  {
    hide H.Parse, Unpacked;
    var builder := new NetworkBuilder();
    builder.FromDecodedPack(digest, buffer);
    m := builder.ValidatedBuild();
  }

  lemma EmptyHoldsNoHeader(digest: Identifier.Digest)
    ensures H.Parse(digest, []) == Short
  {
  }

  // ---- Round trip ----

  /** What a builder that was given a source, a type and a payload makes. */
  ghost predicate Sendable(digest: Identifier.Digest, m: Message) {
    && m.kind != Invalid && m.header.protocol == H.Protocol.Network
    && H.ParsableHeader(digest, m.header)
    && |m.payload| < 0x1_0000_0000
    && m.header.size == PackSize(m) < 0x1_0000_0000
  }

  lemma PayloadOfChunk(payload: seq<byte>, tail: seq<byte>)
    requires |payload| < 0x1_0000_0000
    ensures PayloadAt(SizedChunk(payload, 4) + tail) == payload
  {
    hide Chunk, TakeInteger, TakeBytes;
    Widths();
    assert SizedChunk(payload, 4) + tail == Chunk(|payload|, 4) + (payload + tail);
    TakeChunk(|payload|, 4, payload + tail);
    TakeFront(payload, tail);
  }

  lemma PayloadOfBody(m: Message, tail: seq<byte>)
    requires |m.payload| < 0x1_0000_0000
    ensures PayloadAt((Body(m) + tail)[1..]) == m.payload
  {
    hide PayloadAt, SizedChunk;
    assert (Body(m) + tail)[1..] == SizedChunk(m.payload, 4) + ([0] + tail);
    PayloadOfChunk(m.payload, [0] + tail);
  }

  lemma UnpackedBody(m: Message, tail: seq<byte>)
    requires m.header.protocol == H.Protocol.Network && |m.payload| < 0x1_0000_0000
    ensures Unpacked(m.header, Body(m) + tail) == m.(payload := if m.kind == Invalid then [] else m.payload)
  {
    PayloadOfBody(m, tail);
    hide PayloadAt;
    assert (Body(m) + tail)[0] == KindByte(m.kind);
  }

  /** The receiver gets every field that the sender packed, whatever follows the message. */
  lemma RoundTrip(digest: Identifier.Digest, m: Message, tail: seq<byte>)
    requires Sendable(digest, m)
    ensures Received(digest, (H.Packed(m.header) + Body(m)) + tail) == Some(m)
  {
    hide H.Parse, H.Packed, Body, Unpacked, H.ParsableHeader;
    assert (H.Packed(m.header) + Body(m)) + tail == H.Packed(m.header) + (Body(m) + tail);
    ParsableIsValid(digest, m.header);
    H.ParsePacked(digest, m.header, Body(m) + tail);
    UnpackedBody(m, tail);
    assert PackSize(m) > 0;
  }

  lemma ParsableIsValid(digest: Identifier.Digest, h: H.Header)
    requires H.ParsableHeader(digest, h)
    ensures h.source.valid && h.protocol != H.Protocol.Invalid
  {
  }

  lemma PackedRoundTrip(digest: Identifier.Digest, m: Message)
    requires Sendable(digest, m)
    ensures Received(digest, Packed(m)) == Some(m)
  {
    hide Z85.PaddingBytes, Sendable, Received;
    RoundTrip(digest, m, Zeros(Z85.PaddingBytes(|H.Packed(m.header) + Body(m)|)));
  }

  /** The text of a message comes through exactly when none of its aligned blocks is FF FF FF FF;
      otherwise the receiver has no message at all. */
  lemma TextRoundTrip(digest: Identifier.Digest, m: Message)
    requires Sendable(digest, m)
    ensures
      var bytes := Packed(m);
      if Z85.Clean(bytes)
      then ReceivedText(digest, Z85.Encoding(bytes)) == Some(m)
      else ReceivedText(digest, Z85.Encoding(bytes)) == None
  {
    hide Z85.Encoding, Z85.Decoding, Z85.Accepts, Z85.Clean, Z85.EncodedSize, Z85.PaddingBytes;
    Z85.DecodeEncode(Packed(m));
    PaddedOnce(H.Packed(m.header) + Body(m));
    PackedRoundTrip(digest, m);
    EmptyHoldsNoHeader(digest);
  }

  /** The type is read before the protocol is looked at: the start of an application message whose
      first body byte is 1, 2 or 3 passes for a network message without payload. */
  lemma ApplicationPassesForNetwork(h: H.Header, rest: seq<byte>)
    requires h.protocol == H.Protocol.Application && rest != []
    ensures Unpacked(h, rest) == Message(h, ConvertToKind(rest[0]), [])
    ensures Validated(Unpacked(h, rest)).Some? <==>
      1 <= rest[0] <= 3 && h.source.valid && PackSize(Message(h, Handshake, [])) % 0x1_0000_0000 != 0
  {
  }

  // ---- Byte by byte ----

  /** What is accepted as a network message behind a header `h`: a type from 1 to 3, from a valid source.
      (That the size is not zero modulo 2^32 is no restriction below 4 GiB.) */
  predicate IsAccepted(h: H.Header, rest: seq<byte>) {
    && h.source.valid && rest != [] && 1 <= rest[0] <= 3
    && PackSize(Unpacked(h, rest)) % 0x1_0000_0000 != 0
  }

  /** The payload is there as a whole, behind its size. */
  predicate HasPayload(rest: seq<byte>) {
    |rest| >= 5 && |rest| >= 5 + FourBytes(rest, 1)
  }

  /** Exactly which bytes hold a network message, and its fields. Payloads that are cut short, and those of
      application messages that are taken for network messages, are empty. */
  lemma ReceivedFields(digest: Identifier.Digest, bytes: seq<byte>)
    ensures
      match H.Parse(digest, bytes)
      case Short => Received(digest, bytes) == None
      case Taken(h, rest) =>
        && (Received(digest, bytes).Some? <==> IsAccepted(h, rest))
        && (IsAccepted(h, rest) ==>
              var m := Received(digest, bytes).value;
              && m.kind == (if rest[0] == 1 then Handshake else if rest[0] == 2 then HeartbeatRequest
                            else HeartbeatResponse)
              && m.payload == (if h.protocol == H.Protocol.Network && HasPayload(rest)
                               then rest[5..5 + FourBytes(rest, 1)] else [])
              && m.header == h.(size := PackSize(m) % 0x1_0000_0000))
  {
    hide H.Parse, PayloadAt, HasPayload, FourBytes, PackSize;
    match H.Parse(digest, bytes) {
      case Short =>
      case Taken(h, rest) =>
        ParsedProtocol(digest, bytes);
        BuiltSize(Unpacked(h, rest));
        if rest != [] { PayloadBytes(rest); }
    }
  }

  lemma BuiltSize(m: Message)
    ensures PackSize(Built(m)) == PackSize(m)
  {
    hide Z85.EncodedSize;
  }

  lemma ParsedProtocol(digest: Identifier.Digest, bytes: seq<byte>)
    requires H.Parse(digest, bytes).Taken?
    ensures H.Parse(digest, bytes).value.protocol != H.Protocol.Invalid
  {
    hide H.TakeIdentifier;
  }

  lemma PayloadBytes(rest: seq<byte>)
    requires rest != []
    ensures PayloadAt(rest[1..]) == if HasPayload(rest) then rest[5..5 + FourBytes(rest, 1)] else []
  {
    if |rest| >= 5 {
      IntegersAt(rest, 1);
      hide TakeInteger, FourBytes;
      var size := FourBytes(rest, 1);
      if |rest| >= 5 + size { assert rest[5..][..size] == rest[5..5 + size]; }
    }
  }
}
