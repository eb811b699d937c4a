/** The header in front of every message (src/BryptMessage/MessageHeader.cpp), and the functions
    that peek at one without parsing it (src/BryptMessage/MessageUtils.cpp). */
module MessageHeader {
  import opened Bytes
  import opened Positional
  import opened PackUtils
  import Identifier
  import Z85

  datatype Protocol = Invalid | Network | Application

  datatype Destination = Invalid | Node | Cluster | Network

  function ProtocolByte(p: Protocol): byte {
    match p case Invalid => 0x00 case Network => 0x01 case Application => 0x10
  }

  function ConvertToProtocol(b: byte): Protocol {
    if b == 0x10 then Protocol.Application else if b == 0x01 then Protocol.Network else Protocol.Invalid
  }

  function DestinationByte(d: Destination): byte {
    match d case Invalid => 0x00 case Node => 0x01 case Cluster => 0x02 case Network => 0x03
  }

  function ConvertToDestination(b: byte): Destination {
    if b == 0x01 then Node else if b == 0x02 then Cluster else if b == 0x03 then Destination.Network
    else Destination.Invalid
  }

  datatype Header = Header(
    protocol: Protocol,
    major: byte,
    minor: byte,
    size: uint32,
    source: Identifier.Container,
    destination: Destination,
    to: Option<Identifier.Container>)

  predicate IsValid(h: Header) {
    h.protocol != Protocol.Invalid && h.size != 0 && h.source.valid
  }

  const FIXED_PACK_SIZE: nat := 11
  const PEEKABLE_ENCODED_SIZE: nat := 10

  lemma PeekableSize()
    ensures PEEKABLE_ENCODED_SIZE == Z85.EncodedSize(8) && Z85.DecodedSize(PEEKABLE_ENCODED_SIZE) == 8
  {
  }

  // ---- The packed form ----

  function NetworkText(to: Option<Identifier.Container>): Text {
    match to case None => [] case Some(c) => c.network
  }

  function PackSize(h: Header): nat {
    FIXED_PACK_SIZE + |h.source.network| + |NetworkText(h.to)|
  }

  function PackedStart(h: Header): (bytes: seq<byte>)
    ensures |bytes| == 7
  {
    [ProtocolByte(h.protocol), h.major, h.minor] + Chunk(h.size, 4)
  }

  function PackedRoute(h: Header): (bytes: seq<byte>)
    ensures |bytes| == 4 + |h.source.network| + |NetworkText(h.to)|
  {
    SizedChunk(h.source.network, 1) + [DestinationByte(h.destination)] + SizedChunk(NetworkText(h.to), 1) + [0]
  }

  function Packed(h: Header): (bytes: seq<byte>)
    ensures |bytes| == PackSize(h)
  {
    PackedStart(h) + PackedRoute(h)
  }

  lemma EmptyChunk()
    ensures SizedChunk([], 1) == Chunk(0, 1)
  {
    assert Chunk(0, 1) + [] == Chunk(0, 1);
  }

  /** Everything fits into the space that is reserved first. */
  method GetPackedBuffer(h: Header) returns (buffer: Buffer)
    ensures fresh(buffer) && buffer.Valid() && buffer.data == Packed(h)
  {
    hide Chunk, SizedChunk;
    EmptyChunk();
    buffer := new Buffer();
    buffer.Reserve(PackSize(h));
    buffer.PackByte(ProtocolByte(h.protocol));
    buffer.PackByte(h.major);
    buffer.PackByte(h.minor);
    buffer.PackInteger(h.size, 4);
    assert buffer.data == PackedStart(h);
    buffer.PackSized(h.source.network, 1);
    buffer.PackByte(DestinationByte(h.destination));
    match h.to {
      case Some(c) => buffer.PackSized(c.network, 1);
      case None => buffer.PackInteger(0, 1);
    }
    buffer.PackByte(0);
    assert buffer.data == PackedStart(h) + PackedRoute(h);
  }

  // ---- Parsing ----

  /** The identifier at the front of some bytes, if its size byte is in the window, and what
      follows it. When there is none, at most the size byte is consumed. */
  function TakeIdentifier(digest: Identifier.Digest, bytes: seq<byte>): (r: (Option<Identifier.Container>, seq<byte>)) {
    match TakeByte(bytes)
    case Short => (None, bytes)
    case Taken(size, rest) =>
      if size < Identifier.MINIMUM_LENGTH || size > Identifier.MAXIMUM_LENGTH then (None, rest)
      else match TakeBytes(rest, size)
        case Short => (None, rest)
        case Taken(text, rest') => (Some(Identifier.FromNetwork(digest, text)), rest')
  }

  function ByteOr(b: Option<byte>, default: byte): byte {
    match b case None => default case Some(v) => v
  }

  function Parse(digest: Identifier.Digest, bytes: seq<byte>): Taken<Header> {
    if |bytes| < FIXED_PACK_SIZE then Short
    else
      var protocol := ConvertToProtocol(bytes[0]);
      if protocol == Protocol.Invalid then Short
      else ParseRoute(digest, protocol, bytes[1], bytes[2], SizeField(bytes), bytes[7..])
  }

  function SizeField(bytes: seq<byte>): (size: uint32)
    requires |bytes| >= 7
  {
    ValueBound(256, bytes[3..7]);
    Widths();
    Value(256, bytes[3..7])
  }

  function ParseRoute(digest: Identifier.Digest, protocol: Protocol, major: byte, minor: byte, size: uint32,
                      bytes: seq<byte>): Taken<Header> {
    var (source, bytes1) := TakeIdentifier(digest, bytes);
    if source == None || bytes1 == [] || ConvertToDestination(bytes1[0]) == Destination.Invalid then Short
    else
      var (to, bytes2) := TakeIdentifier(digest, bytes1[1..]);
      if bytes2 == [] then Short
      else
        Taken(Header(protocol, major, minor, size, source.value, ConvertToDestination(bytes1[0]), to),
              bytes2[1..])
  }

  method UnpackIdentifier(digest: Identifier.Digest, cursor: Cursor)
    returns (identifier: Option<Identifier.Container>)
    requires cursor.Valid()
    modifies cursor
    ensures cursor.Valid()
    ensures (identifier, cursor.Rest()) == TakeIdentifier(digest, old(cursor.Rest()))
  {
    var size := cursor.UnpackByte();
    if size == None { return None; }
    if size.value < Identifier.MINIMUM_LENGTH || size.value > Identifier.MAXIMUM_LENGTH { return None; }
    var text := cursor.UnpackBytes(size.value);
    if text == None { return None; }
    return Some(Identifier.FromNetwork(digest, text.value));
  }

  class MessageHeader {
    var protocol: Protocol
    var major: byte
    var minor: byte
    var size: uint32
    var source: Identifier.Container
    var destination: Destination
    var to: Option<Identifier.Container>

    function Value(): Header
      reads this
    {
      Header(protocol, major, minor, size, source, destination, to)
    }

    constructor ()
      ensures Value() == Header(Protocol.Invalid, 0, 0, 0, Identifier.INVALID, Node, None)
    {
      protocol, major, minor, size := Protocol.Invalid, 0, 0, 0;
      source, destination, to := Identifier.INVALID, Node, None;
    }

    /** Fails exactly when the bytes hold no header, and otherwise leaves the cursor behind it. The
        fields that a failing call leaves behind are not specified. */
    method ParseBuffer(digest: Identifier.Digest, cursor: Cursor) returns (ok: bool)
      requires cursor.Valid()
      modifies this, cursor
      ensures cursor.Valid()
      ensures
        match Parse(digest, old(cursor.Rest()))
        case Short => !ok
        case Taken(h, rest) => ok && Value() == h && cursor.Rest() == rest
    {
      hide TakeIdentifier;
      if |cursor.data| - cursor.begin < FIXED_PACK_SIZE { return false; }
      ghost var bytes := cursor.Rest();

      var first := cursor.UnpackByte();
      protocol := ConvertToProtocol(ByteOr(first, 0));
      if protocol == Protocol.Invalid { return false; }

      var version := cursor.UnpackByte();
      if version == None { return false; }
      major := version.value;
      var second := cursor.UnpackByte();
      if second == None { return false; }
      minor := second.value;

      var field := cursor.UnpackInteger(4);
      if field == None { return false; }
      assert bytes[3..][..4] == bytes[3..7];
      SizeIs(bytes, field.value);
      size := field.value;

      assert cursor.Rest() == bytes[7..];
      ok := ParseIdentifiers(digest, cursor);
    }

    method ParseIdentifiers(digest: Identifier.Digest, cursor: Cursor) returns (ok: bool)
      requires cursor.Valid()
      modifies `source, `destination, `to, cursor
      ensures cursor.Valid()
      ensures
        match ParseRoute(digest, protocol, major, minor, size, old(cursor.Rest()))
        case Short => !ok
        case Taken(h, rest) => ok && Value() == h && cursor.Rest() == rest
    {
      hide TakeIdentifier;
      var optSource := UnpackIdentifier(digest, cursor);
      if optSource == None { return false; }
      source := optSource.value;

      var next := cursor.UnpackByte();
      destination := ConvertToDestination(ByteOr(next, 0));
      if destination == Destination.Invalid { return false; }

      to := UnpackIdentifier(digest, cursor);

      var extensions := cursor.UnpackByte();
      ok := extensions != None;
    }
  }

  lemma SizeIs(bytes: seq<byte>, value: nat)
    requires |bytes| >= 7 && value == Positional.Value(256, bytes[3..7])
    ensures value < 0x1_0000_0000 && value == SizeField(bytes)
  {
    ValueBound(256, bytes[3..7]);
    Widths();
  }

  // ---- Round trip ----

  /** An identifier that the parser can take: a valid one whose text has 31 to 33 characters. */
  ghost predicate Parsable(digest: Identifier.Digest, c: Identifier.Container) {
    && c.valid && Identifier.WellFormed(digest, c)
    && Identifier.MINIMUM_LENGTH <= |c.network| <= Identifier.MAXIMUM_LENGTH
  }

  ghost predicate ParsableHeader(digest: Identifier.Digest, h: Header) {
    && h.protocol != Protocol.Invalid && h.destination != Destination.Invalid
    && Parsable(digest, h.source)
    && (h.to.Some? ==> Parsable(digest, h.to.value))
  }

  lemma TakePackedIdentifier(digest: Identifier.Digest, text: Text, tail: seq<byte>)
    requires |text| < 256
    ensures
      TakeIdentifier(digest, SizedChunk(text, 1) + tail)
      == if Identifier.MINIMUM_LENGTH <= |text| <= Identifier.MAXIMUM_LENGTH
         then (Some(Identifier.FromNetwork(digest, text)), tail)
         else (None, text + tail)
  {
    hide Identifier.FromNetwork;
    ByteChunk(|text|);
    assert SizedChunk(text, 1) + tail == [|text|] + (text + tail);
    TakeOne(|text|, text + tail);
    TakeFront(text, tail);
  }

  lemma FixedFields(h: Header, bytes: seq<byte>, rest: seq<byte>)
    requires bytes == PackedStart(h) + rest
    ensures bytes[0] == ProtocolByte(h.protocol) && bytes[1] == h.major && bytes[2] == h.minor
    ensures SizeField(bytes) == h.size
    ensures bytes[7..] == rest
  {
    Widths();
    assert bytes[3..7] == Chunk(h.size, 4);
    ValueOfDigits(256, h.size, 4);
  }

  lemma ParsePackedStart(digest: Identifier.Digest, h: Header, rest: seq<byte>)
    requires h.protocol != Protocol.Invalid && |rest| >= 4
    ensures
      Parse(digest, PackedStart(h) + rest) == ParseRoute(digest, h.protocol, h.major, h.minor, h.size, rest)
  {
    hide PackedStart, SizeField, ParseRoute;
    FixedFields(h, PackedStart(h) + rest, rest);
  }

  /** Packing a header and parsing it, whatever follows it. */
  lemma ParsePacked(digest: Identifier.Digest, h: Header, tail: seq<byte>)
    requires ParsableHeader(digest, h)
    ensures Parse(digest, Packed(h) + tail) == Taken(h, tail)
  {
    hide Identifier.FromNetwork, Parse, ParseRoute, PackedStart, PackedRoute;
    assert Packed(h) + tail == PackedStart(h) + (PackedRoute(h) + tail);
    ParsePackedStart(digest, h, PackedRoute(h) + tail);
    ParsePackedRoute(digest, h, tail);
  }

  lemma ParsePackedRoute(digest: Identifier.Digest, h: Header, tail: seq<byte>)
    requires ParsableHeader(digest, h)
    ensures ParseRoute(digest, h.protocol, h.major, h.minor, h.size, PackedRoute(h) + tail) == Taken(h, tail)
  {
    hide Identifier.FromNetwork, TakeIdentifier, SizedChunk;
    var afterTo := [0] + tail;
    var afterSource := [DestinationByte(h.destination)] + (SizedChunk(NetworkText(h.to), 1) + afterTo);
    assert PackedRoute(h) + tail == SizedChunk(h.source.network, 1) + afterSource;
    TakePackedIdentifier(digest, h.source.network, afterSource);
    TakePackedIdentifier(digest, NetworkText(h.to), afterTo);
    assert afterSource[1..] == SizedChunk(NetworkText(h.to), 1) + afterTo;
    assert afterTo[1..] == tail;
    assert [] + afterTo == afterTo;
  }

  /** A header whose source text is not in the window cannot be parsed back. */
  lemma UnparsableSource(digest: Identifier.Digest, h: Header, tail: seq<byte>)
    requires |h.source.network| < 256
    requires !(Identifier.MINIMUM_LENGTH <= |h.source.network| <= Identifier.MAXIMUM_LENGTH)
    ensures Parse(digest, Packed(h) + tail) == Short
  {
    assert Packed(h) + tail == PackedStart(h) + (PackedRoute(h) + tail);
    UnparsableRoute(digest, h, tail);
    hide Identifier.FromNetwork, ParseRoute, PackedStart, PackedRoute;
    if h.protocol != Protocol.Invalid {
      ParsePackedStart(digest, h, PackedRoute(h) + tail);
    } else {
      assert (PackedStart(h) + (PackedRoute(h) + tail))[0] == PackedStart(h)[0];
      FixedFields(h, PackedStart(h) + (PackedRoute(h) + tail), PackedRoute(h) + tail);
    }
  }

  lemma UnparsableRoute(digest: Identifier.Digest, h: Header, tail: seq<byte>)
    requires |h.source.network| < 256
    requires !(Identifier.MINIMUM_LENGTH <= |h.source.network| <= Identifier.MAXIMUM_LENGTH)
    ensures ParseRoute(digest, h.protocol, h.major, h.minor, h.size, PackedRoute(h) + tail) == Short
  {
    hide Identifier.FromNetwork, TakeIdentifier, SizedChunk;
    var afterSource :=
      [DestinationByte(h.destination)] + (SizedChunk(NetworkText(h.to), 1) + ([0] + tail));
    assert PackedRoute(h) + tail == SizedChunk(h.source.network, 1) + afterSource;
    TakePackedIdentifier(digest, h.source.network, afterSource);
  }

  // ---- Byte by byte ----

  /** Whether there is a text of acceptable size at a place, behind its size byte. */
  predicate HasText(bytes: seq<byte>, at: nat) {
    |bytes| > at && 31 <= bytes[at] <= 33 && |bytes| >= at + 1 + bytes[at] as int
  }

  function TextAt(bytes: seq<byte>, at: nat): Text
    requires HasText(bytes, at)
  {
    bytes[at + 1..at + 1 + bytes[at] as int]
  }

  /** Anything else counts as no identifier, of which only the size byte is skipped. */
  function EndOfText(bytes: seq<byte>, at: nat): nat
    requires |bytes| > at
  {
    if HasText(bytes, at) then at + 1 + bytes[at] as int else at + 1
  }

  /** The bytes of a header: protocol 1 or 16, two bytes of version, four of size, the size and text of the
      source, a destination type from 1 to 3, the size and text of a destination, and one more byte. */
  predicate IsHeader(bytes: seq<byte>) {
    && |bytes| >= 11 && bytes[0] in {0x01, 0x10} && HasText(bytes, 7)
    && var at := 8 + bytes[7] as int;
       |bytes| > at + 1 && 1 <= bytes[at] <= 3 && |bytes| > EndOfText(bytes, at + 1)
  }

  /** The header that is found in any bytes, field by field, and what follows it. */
  lemma ParsedFields(digest: Identifier.Digest, bytes: seq<byte>)
    ensures Parse(digest, bytes).Taken? ==> IsHeader(bytes)
    ensures IsHeader(bytes) ==>
      var at := 8 + bytes[7] as int;
      Parse(digest, bytes) == Taken(
        Header(if bytes[0] == 0x10 then Protocol.Application else Protocol.Network,
               bytes[1], bytes[2], FourBytes(bytes, 3),
               Identifier.FromNetwork(digest, TextAt(bytes, 7)),
               if bytes[at] == 1 then Node else if bytes[at] == 2 then Cluster else Destination.Network,
               if HasText(bytes, at + 1) then Some(Identifier.FromNetwork(digest, TextAt(bytes, at + 1))) else None),
        bytes[EndOfText(bytes, at + 1) + 1..])
  {
    hide Identifier.FromNetwork, TakeIdentifier, HasText, EndOfText, TextAt;
    if |bytes| >= 11 {
      FourBytesAt(bytes, 3);
      IdentifierAt(digest, bytes, 7);
      if HasText(bytes, 7) {
        var at := EndOfText(bytes, 7);
        if |bytes| > at {
          assert bytes[at..][0] == bytes[at] && bytes[at..][1..] == bytes[at + 1..];
          RestAt(digest, bytes, at + 1);
        }
      }
    }
  }

  lemma RestAt(digest: Identifier.Digest, bytes: seq<byte>, at: nat)
    requires at <= |bytes|
    ensures
      var (to, rest) := TakeIdentifier(digest, bytes[at..]);
      && (rest != [] <==> |bytes| > at && |bytes| > EndOfText(bytes, at))
      && (rest != [] ==>
            && to == (if HasText(bytes, at) then Some(Identifier.FromNetwork(digest, TextAt(bytes, at))) else None)
            && rest[1..] == bytes[EndOfText(bytes, at) + 1..])
  {
    hide Identifier.FromNetwork;
    if at < |bytes| {
      IdentifierAt(digest, bytes, at);
      var end := EndOfText(bytes, at);
      assert bytes[end..] == [] || bytes[end..][1..] == bytes[end + 1..];
    }
  }

  lemma IdentifierAt(digest: Identifier.Digest, bytes: seq<byte>, at: nat)
    requires at < |bytes|
    ensures EndOfText(bytes, at) <= |bytes|
    ensures EndOfText(bytes, at) == if HasText(bytes, at) then at + 1 + bytes[at] as int else at + 1
    ensures TakeIdentifier(digest, bytes[at..]) ==
      (if HasText(bytes, at) then Some(Identifier.FromNetwork(digest, TextAt(bytes, at))) else None,
       bytes[EndOfText(bytes, at)..])
  {
    hide Identifier.FromNetwork;
    assert bytes[at..][1..] == bytes[at + 1..];
    if HasText(bytes, at) {
      var n := bytes[at] as int;
      assert bytes[at + 1..][..n] == bytes[at + 1..at + 1 + n];
      assert bytes[at + 1..][n..] == bytes[at + 1 + n..];
    }
  }

  // ---- Peeking ----

  function PeekProtocol(bytes: seq<byte>): Option<Protocol> {
    if |bytes| < 1 then None
    else
      var protocol := ConvertToProtocol(bytes[0]);
      if protocol == Protocol.Invalid then None else Some(protocol)
  }

  function PeekSize(bytes: seq<byte>): Option<nat> {
    if |bytes| < 3 then None
    else match TakeInteger(bytes[3..], 4)
      case Short => None
      case Taken(size, _) => if size == 0 then None else Some(size)
  }

  function PeekSource(digest: Identifier.Digest, bytes: seq<byte>): Option<Identifier.Container> {
    if |bytes| < 8 then None
    else
      var size := bytes[7];
      if size < Identifier.MINIMUM_LENGTH || size > Identifier.MAXIMUM_LENGTH then None
      else if |bytes| < 8 + size then None
      else
        var identifier := Identifier.FromNetwork(digest, bytes[8..8 + size]);
        if !identifier.valid then None else Some(identifier)
  }

  /** Wherever the parser finds a header, the peeking functions see the same fields; a zero size
      and an invalid source, which the parser lets through, are what they do not report. */
  lemma PeeksAgree(digest: Identifier.Digest, bytes: seq<byte>)
    requires Parse(digest, bytes).Taken?
    ensures
      var h := Parse(digest, bytes).value;
      && PeekProtocol(bytes) == Some(h.protocol)
      && PeekSize(bytes) == (if h.size == 0 then None else Some(h.size))
      && PeekSource(digest, bytes) == (if h.source.valid then Some(h.source) else None)
  {
    hide Identifier.FromNetwork;
    var size := bytes[7];
    assert bytes[3..][..4] == bytes[3..7];
    assert bytes[7..][1..] == bytes[8..];
    if |bytes| >= 8 + size { assert bytes[8..][..size] == bytes[8..8 + size]; }
  }

  /** The size can be read off the first eight bytes: the ten characters that a receiver waits for. */
  lemma PeekableSizeSuffices(bytes: seq<byte>, tail: seq<byte>)
    requires |bytes| >= 8
    ensures PeekSize(bytes + tail) == PeekSize(bytes)
  {
    assert (bytes + tail)[3..][..4] == bytes[3..][..4];
  }

  /** What the peeking functions see in any bytes, whether or not they hold a header. */
  lemma PeekedFields(digest: Identifier.Digest, bytes: seq<byte>)
    ensures PeekProtocol(bytes) ==
      if bytes == [] then None
      else if bytes[0] == 0x01 then Some(Protocol.Network)
      else if bytes[0] == 0x10 then Some(Protocol.Application) else None
    ensures PeekSize(bytes) == if |bytes| < 7 || FourBytes(bytes, 3) == 0 then None else Some(FourBytes(bytes, 3))
    ensures PeekSource(digest, bytes) ==
      if HasText(bytes, 7) && Identifier.FromNetwork(digest, TextAt(bytes, 7)).valid
      then Some(Identifier.FromNetwork(digest, TextAt(bytes, 7))) else None
  {
    hide Identifier.FromNetwork;
    if |bytes| >= 7 { FourBytesAt(bytes, 3); }
  }
}
