/** Encrypted and signed application messages (src/BryptMessage/ApplicationMessage.cpp). */
module ApplicationMessage {
  import opened Bytes
  import opened Positional
  import opened PackUtils
  import Z85
  import Identifier
  import H = MessageHeader

  datatype Command = Invalid | Connect | Information | Query | Election

  function CommandByte(c: Command): byte {
    match c case Invalid => 0 case Connect => 1 case Information => 2 case Query => 3 case Election => 4
  }

  function ConvertToCommand(b: byte): Command {
    if b == 1 then Connect else if b == 2 then Information else if b == 3 then Query
    else if b == 4 then Election else Command.Invalid
  }

  datatype Binding = Invalid | Source | Destination

  function BindingByte(b: Binding): byte {
    match b case Invalid => 0 case Source => 1 case Destination => 2
  }

  datatype Tracker = Tracker(binding: Binding, key: uint32)

  datatype Message = Message(
    header: H.Header,
    command: Command,
    phase: byte,
    payload: seq<byte>,    // encrypted
    timestamp: nat,
    tracker: Option<Tracker>)

  /** The handlers that the security strategy binds to a message's context. `sign` is the signature
      it appends to a buffer. */
  datatype Handlers = Handlers(
    encrypt: (seq<byte>, nat) -> Option<seq<byte>>,
    decrypt: (seq<byte>, nat) -> Option<seq<byte>>,
    sign: seq<byte> -> Option<seq<byte>>,
    verify: seq<byte> -> bool,
    signatureSize: nat)

  /** What the sender's handlers make, the receiver's accept. */
  ghost predicate Paired(sender: Handlers, receiver: Handlers) {
    && sender.signatureSize == receiver.signatureSize
    && (forall bytes :: sender.sign(bytes).Some? && bytes != [] ==>
          |sender.sign(bytes).value| == sender.signatureSize
          && receiver.verify(bytes + sender.sign(bytes).value))
    && (forall plain, nonce :: sender.encrypt(plain, nonce).Some? ==>
          receiver.decrypt(sender.encrypt(plain, nonce).value, nonce) == Some(plain))
  }

  const FIXED_PACK_SIZE: nat := 15
  const FIXED_AWAIT_EXTENSION_SIZE: nat := 8

  // ---- The packed form ----

  function TrackerSize(tracker: Option<Tracker>): nat {
    if tracker == None then 0 else FIXED_AWAIT_EXTENSION_SIZE
  }

  function ContentSize(m: Message): nat {
    FIXED_PACK_SIZE + H.PackSize(m.header) + |m.payload| + TrackerSize(m.tracker)
  }

  function PackSize(handlers: Handlers, m: Message): nat {
    Z85.EncodedSize(ContentSize(m) + handlers.signatureSize)
  }

  function Extensions(tracker: Option<Tracker>): (bytes: seq<byte>)
    ensures |bytes| == 1 + TrackerSize(tracker)
  {
    match tracker
    case None => [0]
    case Some(t) => [1] + ([1] + AwaitExtension(t))
  }

  function AwaitExtension(t: Tracker): (bytes: seq<byte>)
    ensures |bytes| == 7
  {
    Chunk(FIXED_AWAIT_EXTENSION_SIZE, 2) + [BindingByte(t.binding)] + Chunk(t.key, 4)
  }

  function Body(m: Message): (bytes: seq<byte>)
    ensures |bytes| == FIXED_PACK_SIZE + |m.payload| + TrackerSize(m.tracker)
  {
    [CommandByte(m.command)] + [m.phase] + SizedChunk(m.payload, 4) + Chunk(m.timestamp, 8) + Extensions(m.tracker)
  }

  function Content(m: Message): (bytes: seq<byte>)
    ensures |bytes| == ContentSize(m)
  {
    H.Packed(m.header) + Body(m)
  }

  /** The padded content with its signature, or None when it could not be signed. */
  function Signed(handlers: Handlers, m: Message): Option<seq<byte>> {
    var padded := Z85.ZeroPadded(Content(m));
    match handlers.sign(padded) case None => None case Some(signature) => Some(padded + signature)
  }

  function Pack(handlers: Handlers, m: Message): Text {
    match Signed(handlers, m) case None => [] case Some(bytes) => Z85.Encoding(bytes)
  }

  method PackAwaitExtension(t: Tracker, buffer: Buffer)
    requires |buffer.data| + FIXED_AWAIT_EXTENSION_SIZE <= buffer.capacity
    modifies buffer`data
    ensures buffer.Valid() && buffer.data == old(buffer.data) + ([1] + AwaitExtension(t))
  {
    hide Chunk;
    buffer.PackByte(1);
    buffer.PackInteger(FIXED_AWAIT_EXTENSION_SIZE, 2);
    buffer.PackByte(BindingByte(t.binding));
    buffer.PackInteger(t.key, 4);
    assert buffer.data == old(buffer.data) + ([1] + AwaitExtension(t));
  }

  method PackExtensions(tracker: Option<Tracker>, buffer: Buffer)
    requires |buffer.data| + |Extensions(tracker)| <= buffer.capacity
    modifies buffer
    ensures buffer.Valid() && buffer.data == old(buffer.data) + Extensions(tracker)
  {
    hide Chunk, AwaitExtension;
    var count := |buffer.data|;
    buffer.PackByte(0);
    match tracker {
      case None =>
      case Some(t) =>
        buffer.data := buffer.data[count := 1];
        assert buffer.data == old(buffer.data) + [1];
        PackAwaitExtension(t, buffer);
        assert buffer.data == old(buffer.data) + ([1] + ([1] + AwaitExtension(t)));
    }
  }

  method PackBody(m: Message, buffer: Buffer)
    requires |buffer.data| + |Body(m)| <= buffer.capacity
    modifies buffer
    ensures buffer.Valid() && buffer.data == old(buffer.data) + Body(m)
  {
    hide Chunk, SizedChunk, Extensions;
    buffer.PackByte(CommandByte(m.command));
    buffer.PackByte(m.phase);
    buffer.PackSized(m.payload, 4);
    buffer.PackInteger(m.timestamp, 8);
    PackExtensions(m.tracker, buffer);
    assert buffer.data == old(buffer.data) + Body(m);
  }

  /** The size in the header is what is reserved for the content. */
  predicate HasRoom(m: Message) {
    ContentSize(m) <= m.header.size
  }

  lemma BuiltHasRoom(handlers: Handlers, m: Message)
    requires PackSize(handlers, m) < 0x1_0000_0000
    ensures HasRoom(Built(handlers, m))
  {
  }

  method GetPack(handlers: Handlers, m: Message) returns (text: Text)
    requires HasRoom(m)
    ensures text == Pack(handlers, m)
  {
    hide Z85.Encoding, Z85.PaddingBytes, Body, H.Packed;
    var buffer := H.GetPackedBuffer(m.header);
    buffer.Reserve(m.header.size);
    PackBody(m, buffer);
    var padding: seq<byte> := Zeros(Z85.PaddingBytes(|buffer.data|));
    buffer.PackBytes(padding);
    var signature := handlers.sign(buffer.data);
    if signature == None { return []; }
    buffer.PackBytes(signature.value);
    text := Z85.Encode(buffer.data);
  }

  lemma PaddedTwice(n: nat, signature: nat)
    ensures Z85.DecodedBlocks(4 * Z85.DecodedBlocks(n) + signature)
      == Z85.DecodedBlocks(n) + Z85.DecodedBlocks(signature)
    ensures Z85.DecodedBlocks(n) + Z85.DecodedBlocks(signature) == Z85.DecodedBlocks(n + signature)
      <==> Z85.PaddingBytes(n) + Z85.PaddingBytes(signature) <= 3
  {
  }

  /** The advertised size is the length of the text exactly when the padding of the content and of
      the signature stay within one block; so it is for every signature of whole blocks. */
  lemma AdvertisedSize(handlers: Handlers, m: Message)
    requires Signed(handlers, m).Some?
    requires |Signed(handlers, m).value| == 4 * Z85.DecodedBlocks(ContentSize(m)) + handlers.signatureSize
    ensures |Pack(handlers, m)| == PackSize(handlers, m)
      <==> Z85.PaddingBytes(ContentSize(m)) + Z85.PaddingBytes(handlers.signatureSize) <= 3
    ensures handlers.signatureSize % 4 == 0 ==> |Pack(handlers, m)| == PackSize(handlers, m)
  {
    var n, s := ContentSize(m), handlers.signatureSize;
    hide Content, ContentSize, Z85.PaddingBytes, Z85.DecodedBlocks, Z85.EncodedSize, Z85.Encoding;
    WholeBlocks(n, s);
    PaddedTwice(n, s);
    var bytes := Signed(handlers, m).value;
    assert |Z85.Encoding(bytes)| == 5 * Z85.DecodedBlocks(|bytes|);
    assert PackSize(handlers, m) == 5 * Z85.DecodedBlocks(n + s);
  }

  lemma WholeBlocks(n: nat, size: nat)
    ensures Z85.PaddingBytes(n) <= 3
    ensures size % 4 == 0 ==> Z85.PaddingBytes(size) == 0
  {
  }

  // ---- Building ----

  function Built(handlers: Handlers, m: Message): Message {
    m.(header := m.header.(size := PackSize(handlers, m) % 0x1_0000_0000))
  }

  function Validated(handlers: Handlers, m: Message): Option<Message> {
    var built := Built(handlers, m);
    if H.IsValid(built.header) && m.command != Command.Invalid && m.timestamp != 0 then Some(built) else None
  }

  /** What a builder yields: a message with a protocol, a command, a valid source and a time, whose size is the
      advertised one, and none if anything of that is missing. */
  lemma ValidatedWhen(handlers: Handlers, m: Message)
    ensures Validated(handlers, m).Some? <==>
      && m.header.protocol != H.Protocol.Invalid && m.header.source.valid && m.command != Command.Invalid
      && m.timestamp != 0 && PackSize(handlers, m) % 0x1_0000_0000 != 0
    ensures Validated(handlers, m).Some? ==>
      Validated(handlers, m).value == m.(header := m.header.(size := PackSize(handlers, m) % 0x1_0000_0000))
  {
    hide PackSize;
  }

  /** Sets the encrypted payload, or leaves it as it is when there is nothing to encrypt. */
  function WithPayload(handlers: Handlers, m: Message, plain: seq<byte>): Message {
    match handlers.encrypt(plain, m.timestamp) case None => m case Some(data) => m.(payload := data)
  }

  function GetPayload(handlers: Handlers, m: Message): seq<byte> {
    match handlers.decrypt(m.payload, m.timestamp) case None => [] case Some(plain) => plain
  }

  // ---- Unpacking ----

  function TakeTracker(bytes: seq<byte>): (r: (Option<Tracker>, seq<byte>))
    ensures |r.1| <= |bytes|
  {
    match TakeInteger(bytes, 2)
    case Short => (None, bytes)
    case Taken(size, rest) =>
      if size < FIXED_AWAIT_EXTENSION_SIZE then (None, rest)
      else match TakeByte(rest)
        case Short => (None, rest)
        case Taken(binding, rest) => TakeKey(binding, rest)
  }

  function TakeKey(binding: byte, bytes: seq<byte>): (r: (Option<Tracker>, seq<byte>))
    ensures |r.1| <= |bytes|
  {
    match TakeInteger(bytes, 4)
    case Short => (None, bytes)
    case Taken(key, rest) =>
      KeyFits(bytes);
      (if binding == 1 then Some(Tracker(Source, key))
       else if binding == 2 then Some(Tracker(Destination, key)) else None, rest)
  }

  lemma KeyFits(bytes: seq<byte>)
    requires TakeInteger(bytes, 4).Taken?
    ensures TakeInteger(bytes, 4).value < 0x1_0000_0000
  {
    Widths();
    ChunkTaken(bytes, 4);
  }

  /** Extensions are read until the end of the buffer or the first unknown type, however many
      were announced: the last tracker that is read, or the failure to read one, stays. */
  function TrackerIn(bytes: seq<byte>, tracker: Option<Tracker>): Option<Tracker>
    decreases |bytes|
  {
    if bytes == [] || bytes[0] != 1 then tracker
    else
      var (read, rest) := TakeTracker(bytes[1..]);
      TrackerIn(rest, read)
  }

  function UnpackedEnd(m: Message, bytes: seq<byte>): Message {
    match TakeInteger(bytes, 8)
    case Short => m
    case Taken(timestamp, rest) =>
      match TakeByte(rest)
      case Short => m.(timestamp := timestamp)
      case Taken(extensions, rest) =>
        m.(timestamp := timestamp, tracker := if extensions == 0 then m.tracker else TrackerIn(rest, m.tracker))
  }

  function UnpackedPayload(m: Message, bytes: seq<byte>): Message {
    match TakeInteger(bytes, 4)
    case Short => m
    case Taken(size, rest) =>
      match TakeBytes(rest, size)
      case Short => m
      case Taken(payload, rest) => UnpackedEnd(m.(payload := payload), rest)
  }

  /** What the builder holds after a header `h` with `rest` behind it; what is missing keeps the
      value that a new message has, in particular the time `now` at which it was made. */
  function Unpacked(h: H.Header, now: nat, rest: seq<byte>): Message {
    var command :=
      if h.protocol != H.Protocol.Application || rest == [] then Command.Invalid else ConvertToCommand(rest[0]);
    var m := Message(h, command, 0, [], now, None);
    if command == Command.Invalid then m
    else match TakeByte(rest[1..])
      case Short => m
      case Taken(phase, rest) => UnpackedPayload(m.(phase := phase), rest)
  }

  /** The message that a node accepts from some decoded bytes: only signed ones are looked at. */
  function Received(handlers: Handlers, digest: Identifier.Digest, now: nat, bytes: seq<byte>): Option<Message> {
    if !handlers.verify(bytes) then None
    else match H.Parse(digest, bytes)
      case Short => None
      case Taken(h, rest) => Validated(handlers, Unpacked(h, now, rest))
  }

  function ReceivedText(handlers: Handlers, digest: Identifier.Digest, now: nat, text: Text): Option<Message> {
    if text == [] then None
    else Received(handlers, digest, now, if Z85.Accepts(text) then Z85.Decoding(text) else [])
  }

  class ApplicationBuilder {
    const header: H.MessageHeader
    var command: Command
    var phase: byte
    var payload: seq<byte>
    var timestamp: nat
    var tracker: Option<Tracker>

    function Value(): Message
      reads this, header
    {
      Message(header.Value(), command, phase, payload, timestamp, tracker)
    }

    predicate Fresh(now: nat)
      reads this
    {
      command == Command.Invalid && phase == 0 && payload == [] && timestamp == now && tracker == None
    }

    constructor (now: nat)
      ensures fresh(header) && Fresh(now)
    {
      header := new H.MessageHeader();
      command, phase, payload, timestamp, tracker := Command.Invalid, 0, [], now, None;
      new;
      header.protocol := H.Protocol.Application;
    }

    method Unpack(digest: Identifier.Digest, ghost now: nat, buffer: seq<byte>)
      requires Fresh(now)
      modifies this, header
      ensures
        match H.Parse(digest, buffer)
        case Short => command == Command.Invalid
        case Taken(h, rest) => Value() == Unpacked(h, now, rest)
    {
      hide H.Parse, UnpackedPayload;
      var cursor := new Cursor(buffer);
      var ok := header.ParseBuffer(digest, cursor);
      if !ok { return; }
      if header.protocol != H.Protocol.Application { return; }
      var first := cursor.UnpackByte();
      command := ConvertToCommand(H.ByteOr(first, 0));
      if command == Command.Invalid { return; }
      var second := cursor.UnpackByte();
      if second == None { return; }
      phase := second.value;
      UnpackPayload(cursor);
    }

    method UnpackPayload(cursor: Cursor)
      requires cursor.Valid()
      modifies `payload, `timestamp, `tracker, cursor
      ensures cursor.Valid()
      ensures Value() == UnpackedPayload(old(Value()), old(cursor.Rest()))
    {
      hide TakeInteger, TakeBytes, TrackerIn;
      var size := cursor.UnpackInteger(4);
      if size == None { return; }
      var data := cursor.UnpackBytes(size.value);
      if data == None { return; }
      payload := data.value;
      var time := cursor.UnpackInteger(8);
      if time == None { return; }
      timestamp := time.value;
      var extensions := cursor.UnpackByte();
      if extensions == None { return; }
      if extensions != Some(0) { UnpackExtensions(cursor); }
    }

    method UnpackExtensions(cursor: Cursor)
      requires cursor.Valid()
      modifies `tracker, cursor
      ensures cursor.Valid()
      ensures tracker == TrackerIn(old(cursor.Rest()), old(tracker))
    {
      ghost var start := cursor.Rest();
      while cursor.begin != |cursor.data|
        invariant cursor.Valid()
        invariant TrackerIn(cursor.Rest(), tracker) == TrackerIn(start, old(tracker))
        decreases |cursor.data| - cursor.begin
      {
        var extension := cursor.UnpackByte();
        if extension != Some(1) { return; }
        tracker := UnpackAwaitTracker(cursor);
      }
    }

    method ValidatedBuild(handlers: Handlers) returns (m: Option<Message>)
      modifies header
      ensures m == Validated(handlers, old(Value()))
    {
      header.size := PackSize(handlers, Value()) % 0x1_0000_0000;
      if !H.IsValid(header.Value()) || command == Command.Invalid || timestamp == 0 { return None; }
      return Some(Value());
    }
  }

  method UnpackAwaitTracker(cursor: Cursor) returns (tracker: Option<Tracker>)
    requires cursor.Valid()
    modifies cursor
    ensures cursor.Valid()
    ensures (tracker, cursor.Rest()) == TakeTracker(old(cursor.Rest()))
  {
    hide TakeInteger;
    var size := cursor.UnpackInteger(2);
    if size == None || size.value < FIXED_AWAIT_EXTENSION_SIZE { return None; }
    var binding := cursor.UnpackByte();
    if binding == None { return None; }
    KeyAt(cursor.Rest());
    var key := cursor.UnpackInteger(4);
    if key == None { return None; }
    if binding.value == 1 { return Some(Tracker(Source, key.value)); }
    if binding.value == 2 { return Some(Tracker(Destination, key.value)); }
    return None;
  }

  lemma KeyAt(bytes: seq<byte>)
    ensures TakeInteger(bytes, 4).Taken? ==> TakeInteger(bytes, 4).value < 0x1_0000_0000
  {
    if TakeInteger(bytes, 4).Taken? { KeyFits(bytes); }
  }

  method Receive(handlers: Handlers, digest: Identifier.Digest, now: nat, text: Text) returns (m: Option<Message>)
    ensures m == ReceivedText(handlers, digest, now, text)
    ensures m.Some? ==> Z85.Accepts(text) && handlers.verify(Z85.Decoding(text))
  {
    hide H.Parse, Unpacked, Z85.Accepts, Z85.Decoding;
    ReceivedTextIsVerified(handlers, digest, now, text);
    var builder := new ApplicationBuilder(now);
    if |text| > 0 {
      var buffer := Z85.Decode(text);
      if handlers.verify(buffer) {
        builder.Unpack(digest, now, buffer);
      }
    }
    m := builder.ValidatedBuild(handlers);
  }

  // ---- Round trip ----

  /** What a builder that was given a source, a command and a payload makes. */
  ghost predicate Sendable(handlers: Handlers, digest: Identifier.Digest, m: Message) {
    && m.command != Command.Invalid && m.header.protocol == H.Protocol.Application
    && H.ParsableHeader(digest, m.header)
    && |m.payload| < 0x1_0000_0000
    && 0 < m.timestamp < 0x1_0000_0000_0000_0000
    && (m.tracker.Some? ==> m.tracker.value.binding != Binding.Invalid)
    && m.header.size == PackSize(handlers, m) < 0x1_0000_0000
  }

  /** The tracker that the receiver reads when `tail` follows the packed content. */
  function TrackerRead(tracker: Option<Tracker>, tail: seq<byte>): Option<Tracker> {
    if tracker == None then None else TrackerIn(tail, tracker)
  }

  lemma TakeAwaitExtension(t: Tracker, tail: seq<byte>)
    requires t.binding != Binding.Invalid
    ensures TakeTracker(AwaitExtension(t) + tail) == (Some(t), tail)
  {
    hide Chunk, TakeInteger;
    var afterSize := [BindingByte(t.binding)] + (Chunk(t.key, 4) + tail);
    assert AwaitExtension(t) + tail == Chunk(FIXED_AWAIT_EXTENSION_SIZE, 2) + afterSize;
    Widths();
    TakeChunk(FIXED_AWAIT_EXTENSION_SIZE, 2, afterSize);
    TakeOne(BindingByte(t.binding), Chunk(t.key, 4) + tail);
    TakeChunk(t.key, 4, tail);
  }

  lemma UnpackedExtensions(m: Message, timestamp: nat, tracker: Option<Tracker>, tail: seq<byte>)
    requires m.tracker == None && timestamp < 0x1_0000_0000_0000_0000
    requires tracker.Some? ==> tracker.value.binding != Binding.Invalid
    ensures UnpackedEnd(m, Chunk(timestamp, 8) + (Extensions(tracker) + tail))
      == m.(timestamp := timestamp, tracker := TrackerRead(tracker, tail))
  {
    hide Chunk, TakeInteger, TakeTracker, AwaitExtension;
    Widths();
    TakeChunk(timestamp, 8, Extensions(tracker) + tail);
    match tracker {
      case None => TakeOne(0, tail);
      case Some(t) =>
        var extension := [1] + (AwaitExtension(t) + tail);
        assert Extensions(tracker) + tail == [1] + extension;
        TakeOne(1, extension);
        assert extension[1..] == AwaitExtension(t) + tail;
        TakeAwaitExtension(t, tail);
    }
  }

  lemma UnpackedBody(m: Message, now: nat, tail: seq<byte>)
    requires m.header.protocol == H.Protocol.Application && m.command != Command.Invalid
    requires |m.payload| < 0x1_0000_0000 && m.timestamp < 0x1_0000_0000_0000_0000
    requires m.tracker.Some? ==> m.tracker.value.binding != Binding.Invalid
    ensures Unpacked(m.header, now, Body(m) + tail) == m.(tracker := TrackerRead(m.tracker, tail))
  {
    hide Chunk, TakeInteger, TakeBytes, UnpackedEnd, Extensions, TrackerRead;
    var afterPayload := Chunk(m.timestamp, 8) + (Extensions(m.tracker) + tail);
    var afterPhase := Chunk(|m.payload|, 4) + (m.payload + afterPayload);
    assert Body(m) + tail == [CommandByte(m.command)] + ([m.phase] + afterPhase);
    assert ([CommandByte(m.command)] + ([m.phase] + afterPhase))[1..] == [m.phase] + afterPhase;
    TakeOne(m.phase, afterPhase);
    Widths();
    TakeChunk(|m.payload|, 4, m.payload + afterPayload);
    TakeFront(m.payload, afterPayload);
    var read := Message(m.header, m.command, m.phase, m.payload, now, None);
    UnpackedExtensions(read, m.timestamp, m.tracker, tail);
  }

  /** Every field comes back but the await tracker, which may be overwritten by what is read from
      the bytes behind the extensions. */
  lemma RoundTrip(handlers: Handlers, digest: Identifier.Digest, m: Message, now: nat, tail: seq<byte>)
    requires Sendable(handlers, digest, m) && handlers.verify(Content(m) + tail)
    ensures Received(handlers, digest, now, Content(m) + tail)
      == Some(Built(handlers, m.(tracker := TrackerRead(m.tracker, tail))))
  {
    SmallerSize(handlers, m, tail);
    hide H.Parse, H.Packed, Body, Unpacked, TrackerRead, H.ParsableHeader;
    assert Content(m) + tail == H.Packed(m.header) + (Body(m) + tail);
    ParsableIsValid(digest, m.header);
    H.ParsePacked(digest, m.header, Body(m) + tail);
    UnpackedBody(m, now, tail);
  }

  lemma SmallerSize(handlers: Handlers, m: Message, tail: seq<byte>)
    ensures 0 < PackSize(handlers, m.(tracker := TrackerRead(m.tracker, tail))) <= PackSize(handlers, m)
  {
    hide TrackerIn;
  }

  lemma ParsableIsValid(digest: Identifier.Digest, h: H.Header)
    requires H.ParsableHeader(digest, h)
    ensures h.source.valid && h.protocol != H.Protocol.Invalid
  {
  }

  /** The tracker is safe whenever there is padding, or else when the signature that follows the
      extensions directly does not start with the type of an extension. */
  predicate TrackerIsSafe(m: Message, signature: seq<byte>) {
    m.tracker == None || Z85.PaddingBytes(ContentSize(m)) > 0 || signature == [] || signature[0] != 1
  }

  /** The tracker comes back exactly when it is safe or happens to be what the signature reads as. */
  lemma SafeTracker(m: Message, signature: seq<byte>)
    ensures
      var read := TrackerRead(m.tracker, Zeros(Z85.PaddingBytes(ContentSize(m))) + signature);
      && (read == m.tracker <==> TrackerIsSafe(m, signature) || TrackerIn(signature, None) == m.tracker)
      && (!TrackerIsSafe(m, signature) ==> read == TrackerIn(signature, None))
  {
    assert Z85.PaddingBytes(ContentSize(m)) == 0 ==>
      Zeros(Z85.PaddingBytes(ContentSize(m))) + signature == signature;
    if !TrackerIsSafe(m, signature) {
      TypeDecides(signature, m.tracker);
    }
  }

  /** What was read before does not matter once an extension is read. */
  lemma TypeDecides(bytes: seq<byte>, tracker: Option<Tracker>)
    requires bytes != [] && bytes[0] == 1
    ensures TrackerIn(bytes, tracker) == TrackerIn(bytes, None)
  {
    hide TakeTracker;
  }

  /** An await tracker is lost when there is no padding and the signature starts like an extension
      that is too short to hold one. */
  lemma TrackerIsLost(m: Message, signature: seq<byte>)
    requires m.tracker.Some? && Z85.PaddingBytes(ContentSize(m)) == 0
    requires |signature| == 48 && signature[..4] == [1, 0, 0, 0]
    ensures TrackerRead(m.tracker, Zeros(0) + signature) == None
  {
    assert Zeros(0) + signature == signature;
    var rest := signature[1..];
    assert signature[0] == signature[..4][0] && signature[1] == signature[..4][1];
    assert signature[2] == signature[..4][2] && signature[3] == signature[..4][3];
    assert rest[..2] == Zeros(2);
    ValueOfZeros(256, 2);
    assert TakeTracker(rest) == (None, rest[2..]);
    assert rest[2..][0] == 0;
    assert TrackerIn(signature, m.tracker) == TrackerIn(rest[2..], None);
  }

  function SignatureOf(handlers: Handlers, m: Message): seq<byte>
    requires Signed(handlers, m).Some?
  {
    handlers.sign(Z85.ZeroPadded(Content(m))).value
  }

  /** The padding and the signature behind the content. */
  function SignedTail(handlers: Handlers, m: Message): seq<byte>
    requires Signed(handlers, m).Some?
  {
    Zeros(Z85.PaddingBytes(ContentSize(m))) + SignatureOf(handlers, m)
  }

  /** The message as its receiver reads it. */
  function AsRead(handlers: Handlers, m: Message): Message
    requires Signed(handlers, m).Some?
  {
    Built(handlers, m.(tracker := TrackerRead(m.tracker, SignedTail(handlers, m))))
  }

  /** The receiver reads the very message that was sent exactly when the tracker comes back. */
  lemma ReadAsSent(handlers: Handlers, digest: Identifier.Digest, m: Message)
    requires Sendable(handlers, digest, m) && Signed(handlers, m).Some?
    ensures AsRead(handlers, m) == m
      <==> TrackerIsSafe(m, SignatureOf(handlers, m)) || TrackerIn(SignatureOf(handlers, m), None) == m.tracker
  {
    hide TrackerRead, TrackerIsSafe, TrackerIn, H.ParsableHeader, Content, PackSize, Built, SignatureOf, Signed;
    SafeTracker(m, SignatureOf(handlers, m));
    BuiltWithTracker(handlers, m, TrackerRead(m.tracker, SignedTail(handlers, m)));
  }

  lemma BuiltWithTracker(handlers: Handlers, m: Message, tracker: Option<Tracker>)
    requires m.header.size == PackSize(handlers, m) < 0x1_0000_0000
    ensures Built(handlers, m.(tracker := tracker)) == m <==> tracker == m.tracker
  {
    hide PackSize;
    if tracker == m.tracker {
      assert m.(tracker := tracker) == m && m.header.(size := m.header.size) == m.header;
    }
  }

  /** The text of a signed message: without an aligned block FF FF FF FF the receiver reads what
      `AsRead` says, with the payload that was encrypted since the handlers are paired; with such a
      block it has no message. */
  lemma TextRoundTrip(sender: Handlers, receiver: Handlers, digest: Identifier.Digest, m: Message, now: nat)
    requires Paired(sender, receiver) && sender.signatureSize % 4 == 0
    requires Sendable(sender, digest, m) && Signed(sender, m).Some?
    ensures
      var bytes := Signed(sender, m).value;
      ReceivedText(receiver, digest, now, Pack(sender, m))
      == if Z85.Clean(bytes) then Some(AsRead(sender, m)) else None
  {
    var bytes := Signed(sender, m).value;
    SignedBytes(sender, m);
    SignatureIsAccepted(sender, receiver, m);
    hide Z85.ZeroPadded, Content, Signed, SignedTail, Received, PackSize, H.ParsableHeader, Sendable, AsRead;
    ReceivedEncoding(receiver, digest, now, bytes);
    BytesRoundTrip(sender, receiver, digest, m, now);
  }

  lemma BytesRoundTrip(sender: Handlers, receiver: Handlers, digest: Identifier.Digest, m: Message, now: nat)
    requires Paired(sender, receiver) && sender.signatureSize % 4 == 0
    requires Sendable(sender, digest, m) && Signed(sender, m).Some?
    ensures Received(receiver, digest, now, Signed(sender, m).value) == Some(AsRead(sender, m))
  {
    SignatureIsAccepted(sender, receiver, m);
    SignedBytes(sender, m);
    hide Z85.ZeroPadded, Content, Signed, SignedTail, Received, H.ParsableHeader, Sendable, TrackerRead;
    SendableByPeer(sender, receiver, digest, m);
    RoundTrip(receiver, digest, m, now, SignedTail(sender, m));
  }

  lemma SignedBytes(handlers: Handlers, m: Message)
    requires Signed(handlers, m).Some? && |SignatureOf(handlers, m)| % 4 == 0
    ensures Signed(handlers, m).value == Content(m) + SignedTail(handlers, m) != []
    ensures Z85.ZeroPadded(Signed(handlers, m).value) == Signed(handlers, m).value
  {
    WholePadded(Content(m), SignatureOf(handlers, m));
    assert ContentSize(m) > 0;
    hide Content, ContentSize, Z85.PaddingBytes, Z85.ZeroPadded;
  }

  lemma WholePadded(content: seq<byte>, signature: seq<byte>)
    requires |signature| % 4 == 0
    ensures Z85.ZeroPadded(content) + signature
      == content + (Zeros(Z85.PaddingBytes(|content|)) + signature)
    ensures Z85.ZeroPadded(Z85.ZeroPadded(content) + signature) == Z85.ZeroPadded(content) + signature
  {
    var padding: seq<byte> := Zeros(Z85.PaddingBytes(|content|));
    assert (content + padding) + signature == content + (padding + signature);
    PaddedSignature(Z85.ZeroPadded(content), signature);
  }

  lemma SignatureIsAccepted(sender: Handlers, receiver: Handlers, m: Message)
    requires Paired(sender, receiver) && Signed(sender, m).Some?
    ensures receiver.verify(Signed(sender, m).value)
    ensures |SignatureOf(sender, m)| == sender.signatureSize
  {
    assert |Z85.ZeroPadded(Content(m))| >= FIXED_PACK_SIZE;
    assert Z85.ZeroPadded(Content(m)) != [];
  }

  /** The receiver sees whole blocks as they were encoded, or nothing at all. */
  lemma ReceivedEncoding(handlers: Handlers, digest: Identifier.Digest, now: nat, bytes: seq<byte>)
    requires Z85.ZeroPadded(bytes) == bytes && bytes != []
    ensures ReceivedText(handlers, digest, now, Z85.Encoding(bytes))
      == if Z85.Clean(bytes)
         then Received(handlers, digest, now, bytes) else None
  {
    Z85.DecodeEncode(bytes);
    EmptyIsNoMessage(handlers, digest, now);
    assert Z85.EncodedSize(|bytes|) > 0;
    hide Z85.Encoding, Z85.Decoding, Z85.Accepts, Z85.Clean, Z85.ZeroPadded, Z85.DecodedBlocks, Received;
  }

  lemma SendableByPeer(sender: Handlers, receiver: Handlers, digest: Identifier.Digest, m: Message)
    requires sender.signatureSize == receiver.signatureSize && Sendable(sender, digest, m)
    ensures Sendable(receiver, digest, m)
    ensures forall other :: Built(receiver, other) == Built(sender, other)
  {
    assert m.header.(size := m.header.size) == m.header;
  }

  /** What does not verify is not looked at: no bytes yield a message unless they verify. */
  lemma ReceivedIsVerified(handlers: Handlers, digest: Identifier.Digest, now: nat, bytes: seq<byte>)
    ensures Received(handlers, digest, now, bytes).Some? ==> handlers.verify(bytes)
  {
    hide H.Parse, Validated, Unpacked;
  }

  /** Nor does any text, unless it can be decoded and what it decodes to verifies. */
  lemma ReceivedTextIsVerified(handlers: Handlers, digest: Identifier.Digest, now: nat, text: Text)
    ensures ReceivedText(handlers, digest, now, text).Some? ==>
      Z85.Accepts(text) && handlers.verify(Z85.Decoding(text))
  {
    hide Z85.Accepts, Z85.Decoding, Received;
    EmptyIsNoMessage(handlers, digest, now);
    ReceivedIsVerified(handlers, digest, now, if Z85.Accepts(text) then Z85.Decoding(text) else []);
  }

  /** The negative half of the round trip: the content of a message with a signature that the receiver turns
      down yields no message. */
  lemma AlteredIsRefused(receiver: Handlers, digest: Identifier.Digest, m: Message, signature: seq<byte>, now: nat)
    requires |signature| % 4 == 0 && !receiver.verify(Z85.ZeroPadded(Content(m)) + signature)
    ensures ReceivedText(receiver, digest, now, Z85.Encoding(Z85.ZeroPadded(Content(m)) + signature)) == None
  {
    var bytes := Z85.ZeroPadded(Content(m)) + signature;
    hide Z85.Accepts, Z85.Decoding, Z85.Encoding, Content, Received, ReceivedText;
    WholePadded(Content(m), signature);
    Z85.DecodeEncode(bytes);
    ReceivedTextIsVerified(receiver, digest, now, Z85.Encoding(bytes));
  }

  lemma PaddedSignature(padded: seq<byte>, signature: seq<byte>)
    requires |padded| % 4 == 0 && |signature| % 4 == 0
    ensures Z85.ZeroPadded(padded + signature) == padded + signature
  {
  }

  lemma EmptyIsNoMessage(handlers: Handlers, digest: Identifier.Digest, now: nat)
    ensures Received(handlers, digest, now, []) == None
  {
  }

  /** What cannot be encrypted is left out, and never packed as it is; what cannot be decrypted is empty. */
  lemma NothingInClear(handlers: Handlers, m: Message, plain: seq<byte>)
    ensures handlers.encrypt(plain, m.timestamp) == None ==> WithPayload(handlers, m, plain) == m
    ensures handlers.decrypt(m.payload, m.timestamp) == None ==> GetPayload(handlers, m) == []
  {
  }

  /** The payload that the application set is the one that the peer gets. */
  lemma PayloadRoundTrip(sender: Handlers, receiver: Handlers, m: Message, plain: seq<byte>)
    requires Paired(sender, receiver) && sender.encrypt(plain, m.timestamp).Some?
    ensures WithPayload(sender, m, plain) == m.(payload := sender.encrypt(plain, m.timestamp).value)
    ensures GetPayload(receiver, WithPayload(sender, m, plain)) == plain
  {
    assert receiver.decrypt(sender.encrypt(plain, m.timestamp).value, m.timestamp) == Some(plain);
  }

  // ---- Byte by byte ----

  /** The payload behind a command and a phase is there as a whole, and the timestamp behind it. */
  predicate HasPayload(rest: seq<byte>) {
    |rest| >= 6 && |rest| >= 6 + FourBytes(rest, 2)
  }

  function EndOfPayload(rest: seq<byte>): nat
    requires HasPayload(rest)
  {
    6 + FourBytes(rest, 2)
  }

  predicate HasTimestamp(rest: seq<byte>) {
    HasPayload(rest) && |rest| >= EndOfPayload(rest) + 8
  }

  /** What any bytes behind the header of an application message are read as: the command, the phase, the size
      of the payload and the payload, the time, and the extensions if their number is not zero. */
  lemma UnpackedFields(h: H.Header, now: nat, rest: seq<byte>)
    requires h.protocol == H.Protocol.Application && rest != []
    ensures
      var m := Unpacked(h, now, rest);
      && m.header == h
      && m.command == (if rest[0] == 1 then Connect else if rest[0] == 2 then Information
                       else if rest[0] == 3 then Query else if rest[0] == 4 then Election else Command.Invalid)
      && (1 <= rest[0] <= 4 ==>
            && m.phase == (if |rest| > 1 then rest[1] else 0)
            && m.payload == (if HasPayload(rest) then rest[6..EndOfPayload(rest)] else [])
            && m.timestamp == (if HasTimestamp(rest) then EightBytes(rest, EndOfPayload(rest)) else now)
            && m.tracker == (if HasTimestamp(rest) && |rest| > EndOfPayload(rest) + 8
                                && rest[EndOfPayload(rest) + 8] != 0
                             then TrackerIn(rest[EndOfPayload(rest) + 9..], None) else None))
  {
    hide TrackerIn;
    if |rest| > 1 {
      assert rest[1..][0] == rest[1] && rest[1..][1..] == rest[2..];
      ShortOf(rest);
      IntegersAt(rest, 2);
      if HasPayload(rest) {
        var end := EndOfPayload(rest);
        assert rest[6..][..end - 6] == rest[6..end] && rest[6..][end - 6..] == rest[end..];
        IntegersAt(rest, end);
        ExtensionsAt(rest, end + 8);
      }
      hide TakeInteger, FourBytes, EightBytes;
    }
  }

  lemma ShortOf(rest: seq<byte>)
    requires |rest| > 1
    ensures |rest| < 6 ==> TakeInteger(rest[2..], 4) == Short
  {
  }

  lemma ExtensionsAt(rest: seq<byte>, at: nat)
    ensures at < |rest| ==> rest[at..][0] == rest[at] && rest[at..][1..] == rest[at + 1..]
  {
  }

  /** An extension of type 1 is a size of at least 8, a binding and a key: with binding 1 or 2 it is a tracker,
      and anything else is none. What is not of type 1 ends the extensions. */
  lemma TrackerFields(bytes: seq<byte>, before: Option<Tracker>)
    ensures bytes == [] || bytes[0] != 1 ==> TrackerIn(bytes, before) == before
    ensures |bytes| >= 8 && bytes[0] == 1 && TwoBytes(bytes, 1) >= 8 ==>
      TrackerIn(bytes, before) == TrackerIn(bytes[8..],
        if bytes[3] == 1 then Some(Tracker(Source, FourBytes(bytes, 4)))
        else if bytes[3] == 2 then Some(Tracker(Destination, FourBytes(bytes, 4))) else None)
    ensures |bytes| >= 3 && bytes[0] == 1 && TwoBytes(bytes, 1) < 8 ==>
      TrackerIn(bytes, before) == TrackerIn(bytes[3..], None)
  {
    if |bytes| >= 3 {
      IntegersAt(bytes, 1);
      if |bytes| >= 8 {
        IntegersAt(bytes, 4);
        assert bytes[3..][0] == bytes[3] && bytes[3..][1..] == bytes[4..];
      }
      hide TakeInteger, FourBytes, TwoBytes;
    }
  }

  /** Exactly which bytes hold an application message. */
  lemma ReceivedWhen(handlers: Handlers, digest: Identifier.Digest, now: nat, bytes: seq<byte>)
    ensures
      match H.Parse(digest, bytes)
      case Short => Received(handlers, digest, now, bytes) == None
      case Taken(h, rest) =>
        var m := Unpacked(h, now, rest);
        Received(handlers, digest, now, bytes) ==
          if handlers.verify(bytes) && h.protocol == H.Protocol.Application && h.source.valid
             && rest != [] && 1 <= rest[0] <= 4 && m.timestamp != 0 && PackSize(handlers, m) % 0x1_0000_0000 != 0
          then Some(m.(header := h.(size := PackSize(handlers, m) % 0x1_0000_0000))) else None
  {
    hide H.Parse;
    match H.Parse(digest, bytes) {
      case Short =>
      case Taken(h, rest) =>
        if h.protocol == H.Protocol.Application && rest != [] { UnpackedFields(h, now, rest); }
    }
  }
}
