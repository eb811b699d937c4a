/** One direction of a TCP session: the endpoint's events, the outgoing queue, the characters on
    the wire, and the receiver that cuts them into messages again
    (src/Components/Network/TCP/Session.cpp and Endpoint.cpp). */
module Stream {
  import opened Bytes
  import Identifier
  import Z85
  import H = MessageHeader

  const EVENT_PROCESSING_LIMIT: nat := 10
  const HEADER_SIZE: nat := H.PEEKABLE_ENCODED_SIZE

  /** What the receiver waits for: the characters of a header, or a message of a known size. It
      ends when it cannot read a message or when the handler of a message refuses it. */
  datatype Phase = Header | Body(size: nat) | Failed | Refused

  datatype Link = Link(
    events: seq<Text>,        // scheduled by the endpoint's users
    batch: seq<Text>,         // taken by the event loop, not yet handed to the session
    outgoing: seq<Text>,      // the session's queue
    written: nat,             // how much of the first outgoing text is on the wire
    wire: Text,
    phase: Phase,
    buffer: Text,             // characters of the current message
    message: seq<byte>,       // its bytes, as far as they are decoded
    delivered: seq<seq<byte>>)

  const NEW: Link := Link([], [], [], 0, [], Header, [], [], [])

  datatype Step =
    | Schedule(text: Text)
    | TakeEvents
    | HandOver
    | Write(count: nat)
    | Dispatched
    | Read(count: nat)
    | DecodeHeader
    | DecodeBody(accepted: bool)

  /** How many characters the pending read asks for in all. */
  function Wanted(phase: Phase): nat {
    match phase case Header => HEADER_SIZE case Body(size) => size case _ => 0
  }

  predicate Enabled(l: Link, step: Step) {
    match step
    case Schedule(text) => text != []
    case TakeEvents => l.batch == [] && l.events != []
    case HandOver => l.batch != []
    case Write(count) => l.outgoing != [] && 0 < count && l.written + count <= |l.outgoing[0]|
    case Dispatched => l.outgoing != [] && l.written == |l.outgoing[0]|
    case Read(count) => 0 < count <= |l.wire| && |l.buffer| + count <= Wanted(l.phase)
    case DecodeHeader => l.phase == Header && |l.buffer| == HEADER_SIZE
    case DecodeBody(_) => l.phase.Body? && |l.buffer| == l.phase.size
  }

  function Batched(events: seq<Text>): nat {
    if |events| < EVENT_PROCESSING_LIMIT then |events| else EVENT_PROCESSING_LIMIT
  }

  /** The receiver after the first characters of a message: its first bytes and the size they
      announce. A size that leaves no room for the rest cannot be read. */
  function HeaderRead(buffer: Text): (r: (Phase, seq<byte>))
    ensures r.0 == Failed || (r.0.Body? && r.0.size >= HEADER_SIZE)
  {
    if !Z85.Accepts(buffer) then (Failed, [])
    else
      var message := Z85.Decoding(buffer);
      match H.PeekSize(message)
      case None => (Failed, message)
      case Some(size) => (if size < HEADER_SIZE then Failed else Body(size), message)
  }

  /** The message once all its characters are there, if they decode and name a source. */
  function BodyRead(digest: Identifier.Digest, buffer: Text, message: seq<byte>): Option<seq<byte>>
    requires |buffer| >= HEADER_SIZE
  {
    if !Z85.Accepts(buffer[HEADER_SIZE..]) then None
    else
      var whole := message + Z85.Decoding(buffer[HEADER_SIZE..]);
      if H.PeekSource(digest, whole) == None then None else Some(whole)
  }

  function Next(digest: Identifier.Digest, l: Link, step: Step): Link
    requires Enabled(l, step)
  {
    match step
    case Schedule(text) => l.(events := l.events + [text])
    case TakeEvents => l.(batch := l.events[..Batched(l.events)], events := l.events[Batched(l.events)..])
    case HandOver => l.(outgoing := l.outgoing + [l.batch[0]], batch := l.batch[1..])
    case Write(count) =>
      l.(wire := l.wire + l.outgoing[0][l.written..l.written + count], written := l.written + count)
    case Dispatched => l.(outgoing := l.outgoing[1..], written := 0)
    case Read(count) => l.(buffer := l.buffer + l.wire[..count], wire := l.wire[count..])
    case DecodeHeader =>
      var (phase, message) := HeaderRead(l.buffer);
      l.(phase := phase, message := message)
    case DecodeBody(accepted) =>
      if |l.buffer| < HEADER_SIZE then l.(phase := Failed)
      else match BodyRead(digest, l.buffer, l.message)
        case None => l.(phase := Failed)
        case Some(whole) =>
          if accepted then l.(phase := Header, buffer := [], message := [], delivered := l.delivered + [whole])
          else l.(phase := Refused, buffer := [], message := whole, delivered := l.delivered + [whole])
  }

  /** The event loop takes ten events at a time, or all if there are fewer, from the front. */
  lemma TakesTen(digest: Identifier.Digest, l: Link)
    requires Enabled(l, TakeEvents)
    ensures
      var next := Next(digest, l, TakeEvents);
      && next.batch + next.events == l.events
      && (|next.batch| == 10 || (|next.batch| < 10 && next.events == []))
  {
  }

  // ---- The loops of the code ----

  class EventQueue {
    var events: seq<Text>

    constructor ()
      ensures events == []
    {
      events := [];
    }

    /** Empty messages are not sent. */
    method ScheduleSend(message: Text) returns (ok: bool)
      modifies this
      ensures ok <==> message != []
      ensures events == if ok then old(events) + [message] else old(events)
    {
      if |message| == 0 { return false; }
      events := events + [message];
      return true;
    }

    /** The first part of the event loop: at most ten events are taken out. */
    method TakeEvents() returns (batch: seq<Text>)
      modifies this
      ensures batch == old(events)[..Batched(old(events))]
      ensures |batch| == 10 || (|batch| < 10 && events == [])
      ensures events == old(events)[Batched(old(events))..]
    {
      batch := [];
      var index := 0;
      while index < EVENT_PROCESSING_LIMIT
        invariant index <= Batched(old(events)) && index <= EVENT_PROCESSING_LIMIT
        invariant batch == old(events)[..index] && events == old(events)[index..]
      {
        if |events| == 0 { break; }
        batch := batch + [events[0]];
        events := events[1..];
        index := index + 1;
      }
    }
  }

  class Session {
    var outgoing: seq<Text>
    var written: nat

    ghost predicate Valid()
      reads this
    {
      if outgoing == [] then written == 0 else written <= |outgoing[0]|
    }

    constructor ()
      ensures Valid() && outgoing == []
    {
      outgoing, written := [], 0;
    }

    method ScheduleSend(message: Text) returns (ok: bool)
      requires Valid()
      modifies this
      ensures Valid() && ok && outgoing == old(outgoing) + [message] && written == old(written)
    {
      outgoing := outgoing + [message];
      return true;
    }

    /** The socket takes some more characters of the first message. */
    method Write(count: nat) returns (chunk: Text)
      requires Valid() && outgoing != [] && written + count <= |outgoing[0]|
      modifies this
      ensures Valid() && outgoing == old(outgoing) && written == old(written) + count
      ensures chunk == outgoing[0][old(written)..written]
    {
      chunk := outgoing[0][written..written + count];
      written := written + count;
    }

    /** The write of the first message has completed. */
    method Dispatched()
      requires Valid() && outgoing != [] && written == |outgoing[0]|
      modifies this
      ensures Valid() && outgoing == old(outgoing)[1..] && written == 0
    {
      outgoing, written := outgoing[1..], 0;
    }
  }

  class Receiver {
    var buffer: Text
    var message: seq<byte>

    constructor ()
      ensures buffer == [] && message == []
    {
      buffer, message := [], [];
    }

    /** What follows the read of the fixed header data. */
    method DecodeHeader() returns (phase: Phase)
      modifies `message
      ensures (phase, message) == HeaderRead(buffer)
    {
      hide Z85.Accepts, Z85.Decoding, H.PeekSize;
      message := Z85.Decode(buffer);
      AcceptedIsNonempty(buffer);
      if message == [] { return Failed; }
      var size := H.PeekSize(message);
      if size == None || size.value < HEADER_SIZE { return Failed; }
      return Body(size.value);
    }

    /** What follows the read of the rest of a message. */
    method DecodeBody(digest: Identifier.Digest) returns (whole: Option<seq<byte>>)
      requires |buffer| >= HEADER_SIZE
      modifies this
      ensures whole == BodyRead(digest, old(buffer), old(message))
      ensures whole.Some? ==> buffer == [] && message == whole.value
    {
      hide Z85.Accepts, Z85.Decoding, H.PeekSource;
      var rest := Z85.Decode(buffer[HEADER_SIZE..]);
      AcceptedIsNonempty(buffer[HEADER_SIZE..]);
      if rest == [] { return None; }
      message := message + rest;
      buffer := [];
      var source := H.PeekSource(digest, message);
      if source == None { return None; }
      return Some(message);
    }
  }

  lemma AcceptedIsNonempty(text: Text)
    ensures Z85.Accepts(text) ==> Z85.Decoding(text) != []
  {
  }

  // ---- Streams of texts ----

  function Flatten(texts: seq<Text>): Text {
    if texts == [] then [] else texts[0] + Flatten(texts[1..])
  }

  lemma {:induction false} FlattenAppend(a: seq<Text>, b: seq<Text>)
    ensures Flatten(a + b) == Flatten(a) + Flatten(b)
  {
    if a == [] {
      assert a + b == b;
    } else {
      assert (a + b)[1..] == a[1..] + b;
      FlattenAppend(a[1..], b);
    }
  }

  lemma FlattenOne(text: Text)
    ensures Flatten([text]) == text
  {
    assert [text][1..] == [];
  }

  /** The texts that are not completely written yet, in the order in which they will be. */
  function Queue(l: Link): seq<Text> {
    l.outgoing + l.batch + l.events
  }

  predicate Queued(l: Link) {
    if l.outgoing == [] then l.written == 0 else l.written <= |l.outgoing[0]|
  }

  lemma QueuedInFlat(l: Link)
    requires Queued(l)
    ensures l.written <= |Flatten(Queue(l))|
  {
    if l.outgoing != [] { assert Queue(l)[0] == l.outgoing[0]; }
  }

  /** The characters that are still to be written. */
  function Unwritten(l: Link): Text
    requires Queued(l)
  {
    QueuedInFlat(l);
    Flatten(Queue(l))[l.written..]
  }

  // ---- Texts that can be cut out of a stream ----

  /** What the receiver makes of a text that reaches it whole. */
  function Reading(digest: Identifier.Digest, text: Text): Option<seq<byte>> {
    if |text| <= HEADER_SIZE then None
    else
      var (phase, message) := HeaderRead(text[..HEADER_SIZE]);
      if phase == Failed then None else BodyRead(digest, text, message)
  }

  /** A text whose header cannot be read, or else announces the length of the text. */
  predicate Framed(text: Text) {
    |text| > HEADER_SIZE && HeaderRead(text[..HEADER_SIZE]).0 in {Failed, Body(|text|)}
  }

  predicate AllFramed(texts: seq<Text>) {
    forall i :: 0 <= i < |texts| ==> Framed(texts[i])
  }

  /** A text that decodes as a whole, says its own length and names its source. */
  predicate Honest(digest: Identifier.Digest, text: Text) {
    && Z85.Accepts(text) && |text| > HEADER_SIZE
    && H.PeekSize(Z85.Decoding(text)) == Some(|text|)
    && H.PeekSource(digest, Z85.Decoding(text)).Some?
  }

  /** How many texts can be read before the first one that cannot. */
  function Readable(digest: Identifier.Digest, texts: seq<Text>): (n: nat)
    ensures n <= |texts|
    ensures forall i :: 0 <= i < n ==> Reading(digest, texts[i]).Some?
    ensures n < |texts| ==> Reading(digest, texts[n]) == None
  {
    if texts == [] || Reading(digest, texts[0]) == None then 0 else 1 + Readable(digest, texts[1..])
  }

  /** A text is decodable exactly when both its header and the rest are. */
  lemma CutAfterHeader(text: Text)
    requires |text| > HEADER_SIZE
    ensures
      var first, rest := text[..HEADER_SIZE], text[HEADER_SIZE..];
      && (Z85.Accepts(text) <==> Z85.Accepts(first) && Z85.Accepts(rest))
      && (Z85.Accepts(text) ==> |Z85.Decoding(first)| == 8
                                && Z85.Decoding(text) == Z85.Decoding(first) + Z85.Decoding(rest))
  {
    var first, rest := text[..HEADER_SIZE], text[HEADER_SIZE..];
    assert text == first + rest;
    if |rest| % 5 == 0 {
      WholePieces(text, |text| / 5, first, rest);
    } else {
      assert |text| % 5 != 0;
    }
  }

  lemma WholePieces(text: Text, n: nat, first: Text, rest: Text)
    requires |text| == 5 * n && |first| == 5 * 2 && |rest| == 5 * (n - 2) && n > 2
    requires text == first + rest
    ensures Z85.Accepts(text) <==> Z85.Accepts(first) && Z85.Accepts(rest)
    ensures Z85.Accepts(first) ==> |Z85.Decoding(first)| == 8
    ensures Z85.Accepts(text) ==> Z85.Decoding(text) == Z85.Decoding(first) + Z85.Decoding(rest)
  {
    hide Z85.Accepts, Z85.Decoding, Z85.AcceptsBlocks, Z85.DecodeBlocks;
    Z85.AcceptsAsBlocks(text, n);
    Z85.AcceptsAsBlocks(first, 2);
    Z85.AcceptsAsBlocks(rest, n - 2);
    Z85.DecodeInPieces(first, 2, rest, n - 2);
  }

  /** Reading in two parts is decoding the whole: a framed text can be read exactly when it is
      honest, and then yields the bytes that it decodes to. */
  lemma ReadingIsDecoding(digest: Identifier.Digest, text: Text)
    ensures Framed(text) && Reading(digest, text).Some? <==> Honest(digest, text)
    ensures Honest(digest, text) ==> Reading(digest, text) == Some(Z85.Decoding(text))
  {
    if |text| > HEADER_SIZE && Z85.Accepts(text) {
      DecodableReading(digest, text);
    } else if |text| > HEADER_SIZE {
      BrokenReading(digest, text);
    }
    hide Z85.Accepts, Z85.Decoding, H.PeekSize, H.PeekSource, Reading, Framed;
  }

  lemma DecodableReading(digest: Identifier.Digest, text: Text)
    requires |text| > HEADER_SIZE && Z85.Accepts(text)
    ensures
      var bytes := Z85.Decoding(text);
      && (Framed(text) && Reading(digest, text).Some? <==>
            H.PeekSize(bytes) == Some(|text|) && H.PeekSource(digest, bytes).Some?)
      && (H.PeekSize(bytes) == Some(|text|) && H.PeekSource(digest, bytes).Some? ==>
            Reading(digest, text) == Some(bytes))
  {
    hide Z85.Accepts, Z85.Decoding, H.PeekSize, H.PeekSource, HeaderRead, BodyRead;
    CutAfterHeader(text);
    HeaderReads(text[..HEADER_SIZE]);
    BodyReads(digest, text, Z85.Decoding(text[..HEADER_SIZE]));
    H.PeekableSizeSuffices(Z85.Decoding(text[..HEADER_SIZE]), Z85.Decoding(text[HEADER_SIZE..]));
  }

  lemma HeaderReads(buffer: Text)
    requires Z85.Accepts(buffer)
    ensures HeaderRead(buffer).1 == Z85.Decoding(buffer)
    ensures forall size: nat :: size >= HEADER_SIZE ==>
      (HeaderRead(buffer).0 == Body(size) <==> H.PeekSize(Z85.Decoding(buffer)) == Some(size))
  {
    hide Z85.Accepts, Z85.Decoding, H.PeekSize;
  }

  lemma BodyReads(digest: Identifier.Digest, text: Text, message: seq<byte>)
    requires |text| > HEADER_SIZE && Z85.Accepts(text[HEADER_SIZE..])
    ensures
      var whole := message + Z85.Decoding(text[HEADER_SIZE..]);
      BodyRead(digest, text, message) == if H.PeekSource(digest, whole).Some? then Some(whole) else None
  {
    hide Z85.Accepts, Z85.Decoding, H.PeekSource;
  }

  lemma BrokenReading(digest: Identifier.Digest, text: Text)
    requires |text| > HEADER_SIZE && !Z85.Accepts(text)
    ensures Reading(digest, text) == None
  {
    CutAfterHeader(text);
    hide Z85.Accepts, Z85.Decoding, H.PeekSize, H.PeekSource;
  }

  // ---- The invariant ----

  /** What the receiver has read of the text it is working on; it fails on a text that cannot be
      read and on no other. */
  ghost predicate Receiving(digest: Identifier.Digest, l: Link, rest: seq<Text>) {
    match l.phase
    case Header => l.message == [] && |l.buffer| <= HEADER_SIZE
    case Body(size) =>
      && rest != [] && HEADER_SIZE < size == |rest[0]| && HEADER_SIZE <= |l.buffer| <= size
      && HeaderRead(rest[0][..HEADER_SIZE]) == (Body(size), l.message)
    case Failed => rest != [] && Reading(digest, rest[0]) == None
    case Refused => l.buffer == []
  }

  /** The messages are what the receiver makes of the first texts. */
  ghost predicate AreReadings(digest: Identifier.Digest, messages: seq<seq<byte>>, texts: seq<Text>) {
    |messages| <= |texts| && forall i :: 0 <= i < |messages| ==> Reading(digest, texts[i]) == Some(messages[i])
  }

  /** What has been delivered, followed by what is half read, on the wire or queued, is what was
      scheduled: in order, none lost, split or merged. */
  ghost predicate Invariant(digest: Identifier.Digest, l: Link, sent: seq<Text>) {
    && AllFramed(sent)
    && Queued(l)
    && AreReadings(digest, l.delivered, sent)
    && l.buffer + (l.wire + Unwritten(l)) == Flatten(sent[|l.delivered|..])
    && Receiving(digest, l, sent[|l.delivered|..])
  }

  function Sent(sent: seq<Text>, step: Step): seq<Text> {
    if step.Schedule? then sent + [step.text] else sent
  }

  predicate IsSending(step: Step) {
    step.Schedule? || step.TakeEvents? || step.HandOver? || step.Write? || step.Dispatched?
  }

  /** What the sending side does to the characters that are on the wire or to come. */
  lemma SendingSteps(digest: Identifier.Digest, l: Link, step: Step)
    requires Queued(l) && Enabled(l, step) && IsSending(step)
    ensures
      var next := Next(digest, l, step);
      && next == l.(events := next.events, batch := next.batch, outgoing := next.outgoing,
                    written := next.written, wire := next.wire)
      && Queued(next)
      && next.wire + Unwritten(next)
         == l.wire + Unwritten(l) + (if step.Schedule? then step.text else [])
  {
    hide Flatten;
    match step {
      case Schedule(text) => ScheduleStep(digest, l, text);
      case TakeEvents => assert Queue(Next(digest, l, step)) == Queue(l);
      case HandOver => assert Queue(Next(digest, l, step)) == Queue(l);
      case Write(count) => WriteStep(digest, l, count);
      case Dispatched => DispatchedStep(digest, l);
    }
  }

  lemma ScheduleStep(digest: Identifier.Digest, l: Link, text: Text)
    requires Queued(l) && Enabled(l, Schedule(text))
    ensures Unwritten(Next(digest, l, Schedule(text))) == Unwritten(l) + text
  {
    QueuedInFlat(l);
    assert Queue(Next(digest, l, Schedule(text))) == Queue(l) + [text];
    FlattenAppend(Queue(l), [text]);
    FlattenOne(text);
  }

  lemma WriteStep(digest: Identifier.Digest, l: Link, count: nat)
    requires Queued(l) && Enabled(l, Write(count))
    ensures
      var next := Next(digest, l, Write(count));
      next.wire + Unwritten(next) == l.wire + Unwritten(l)
  {
    var queue, flat := Queue(l), Flatten(Queue(l));
    assert queue[0] == l.outgoing[0] && flat == queue[0] + Flatten(queue[1..]);
    var chunk := queue[0][l.written..l.written + count];
    assert chunk == flat[l.written..l.written + count];
    hide Flatten;
    assert flat[l.written..] == chunk + flat[l.written + count..];
    assert Queue(Next(digest, l, Write(count))) == queue;
  }

  lemma DispatchedStep(digest: Identifier.Digest, l: Link)
    requires Queued(l) && Enabled(l, Dispatched)
    ensures Unwritten(Next(digest, l, Dispatched)) == Unwritten(l)
  {
    var queue := Queue(l);
    assert queue[0] == l.outgoing[0] && Queue(Next(digest, l, Dispatched)) == queue[1..];
    assert Flatten(queue) == queue[0] + Flatten(queue[1..]);
  }

  lemma SendingKeepsInvariant(digest: Identifier.Digest, l: Link, sent: seq<Text>, step: Step)
    requires Invariant(digest, l, sent) && Enabled(l, step) && IsSending(step)
    requires step.Schedule? ==> Framed(step.text)
    ensures Invariant(digest, Next(digest, l, step), Sent(sent, step))
  {
    hide Framed, HeaderRead, Unwritten, Next, Flatten, Reading;
    SendingSteps(digest, l, step);
    if step.Schedule? { SentGrows(sent, |l.delivered|, step.text); }
  }

  lemma SentGrows(sent: seq<Text>, k: nat, text: Text)
    requires AllFramed(sent) && Framed(text) && k <= |sent|
    ensures AllFramed(sent + [text])
    ensures (sent + [text])[k..] == sent[k..] + [text]
    ensures Flatten((sent + [text])[k..]) == Flatten(sent[k..]) + text
  {
    hide Framed;
    assert (sent + [text])[k..] == sent[k..] + [text];
    FlattenAppend(sent[k..], [text]);
    FlattenOne(text);
  }

  /** As long as no more than the current text is read, the buffer holds the start of it. */
  lemma BufferIsPrefix(buffer: Text, rest: Text, texts: seq<Text>)
    requires buffer + rest == Flatten(texts) && texts != [] && |buffer| <= |texts[0]|
    ensures buffer == texts[0][..|buffer|]
    ensures |buffer| == |texts[0]| ==> rest == Flatten(texts[1..])
  {
    assert Flatten(texts) == texts[0] + Flatten(texts[1..]);
    assert buffer == Flatten(texts)[..|buffer|];
    assert rest == Flatten(texts)[|buffer|..];
  }

  lemma ReadKeepsInvariant(digest: Identifier.Digest, l: Link, sent: seq<Text>, count: nat)
    requires Invariant(digest, l, sent) && Enabled(l, Read(count))
    ensures Invariant(digest, Next(digest, l, Read(count)), sent)
  {
    hide Framed, HeaderRead, Flatten, Reading;
    var next := Next(digest, l, Read(count));
    assert Queue(next) == Queue(l);
    assert next.buffer + (next.wire + Unwritten(next)) == l.buffer + (l.wire + Unwritten(l));
  }

  lemma SameQueue(digest: Identifier.Digest, l: Link, step: Step)
    requires Queued(l) && Enabled(l, step) && (step.DecodeHeader? || step.DecodeBody?)
    ensures
      var next := Next(digest, l, step);
      && Queued(next) && Unwritten(next) == Unwritten(l) && next.wire == l.wire
      && next.events == l.events && next.batch == l.batch && next.outgoing == l.outgoing
  {
    hide Flatten, HeaderRead, BodyRead;
    assert Queue(Next(digest, l, step)) == Queue(l);
  }

  /** The buffer holds the start of the current text. */
  lemma HeaderIsComplete(digest: Identifier.Digest, l: Link, sent: seq<Text>)
    requires Invariant(digest, l, sent) && l.phase == Header && |l.buffer| == HEADER_SIZE
    ensures |l.delivered| < |sent| && Framed(sent[|l.delivered|])
    ensures |sent[|l.delivered|]| > HEADER_SIZE && l.buffer == sent[|l.delivered|][..HEADER_SIZE]
  {
    var rest := sent[|l.delivered|..];
    assert rest != [] && Framed(rest[0]);
    BufferIsPrefix(l.buffer, l.wire + Unwritten(l), rest);
  }

  lemma HeaderKeepsInvariant(digest: Identifier.Digest, l: Link, sent: seq<Text>)
    requires Invariant(digest, l, sent) && Enabled(l, DecodeHeader)
    ensures Invariant(digest, Next(digest, l, DecodeHeader), sent)
  {
    hide HeaderRead, BodyRead, Flatten, Unwritten, Queued, AllFramed, AreReadings;
    HeaderIsComplete(digest, l, sent);
    SameQueue(digest, l, DecodeHeader);
    assert sent[|l.delivered|..][0] == sent[|l.delivered|];
  }

  /** The buffer holds exactly the current text, and what follows is the rest of the stream. */
  lemma BodyIsComplete(digest: Identifier.Digest, l: Link, sent: seq<Text>)
    requires Invariant(digest, l, sent) && l.phase.Body? && |l.buffer| == l.phase.size
    ensures |l.delivered| < |sent| && |l.buffer| > HEADER_SIZE
    ensures l.buffer == sent[|l.delivered|]
    ensures BodyRead(digest, l.buffer, l.message) == Reading(digest, l.buffer)
    ensures l.wire + Unwritten(l) == Flatten(sent[|l.delivered| + 1..])
  {
    var k := |l.delivered|;
    var rest := sent[k..];
    assert rest != [] && rest[0] == sent[k];
    BufferIsPrefix(l.buffer, l.wire + Unwritten(l), rest);
    hide Framed, HeaderRead, BodyRead, Flatten;
    assert l.buffer == rest[0];
    assert sent[k + 1..] == rest[1..];
  }

  lemma BodyNext(digest: Identifier.Digest, l: Link, accepted: bool)
    requires Enabled(l, DecodeBody(accepted)) && |l.buffer| >= HEADER_SIZE
    ensures
      var next := Next(digest, l, DecodeBody(accepted));
      match BodyRead(digest, l.buffer, l.message)
      case None => next == l.(phase := Failed)
      case Some(whole) =>
        next == l.(phase := if accepted then Header else Refused, buffer := [],
                   message := if accepted then [] else whole, delivered := l.delivered + [whole])
  {
    hide BodyRead;
  }

  lemma BodyKeepsInvariant(digest: Identifier.Digest, l: Link, sent: seq<Text>, accepted: bool)
    requires Invariant(digest, l, sent) && Enabled(l, DecodeBody(accepted))
    ensures Invariant(digest, Next(digest, l, DecodeBody(accepted)), sent)
  {
    hide HeaderRead, BodyRead, Reading, Flatten, Unwritten, Queued, Next, AllFramed;
    BodyIsComplete(digest, l, sent);
    BodyNext(digest, l, accepted);
    SameQueue(digest, l, DecodeBody(accepted));
    assert sent[|l.delivered|..][0] == sent[|l.delivered|];
    assert [] + (l.wire + Unwritten(l)) == l.wire + Unwritten(l);
  }

  /** In every state what was delivered, followed by what is on its way, is what was scheduled. */
  lemma StepKeepsInvariant(digest: Identifier.Digest, l: Link, sent: seq<Text>, step: Step)
    requires Invariant(digest, l, sent) && Enabled(l, step)
    requires step.Schedule? ==> Framed(step.text)
    ensures Invariant(digest, Next(digest, l, step), Sent(sent, step))
  {
    hide Invariant, Next, Framed;
    match step {
      case Read(count) => ReadKeepsInvariant(digest, l, sent, count);
      case DecodeHeader => HeaderKeepsInvariant(digest, l, sent);
      case DecodeBody(accepted) => BodyKeepsInvariant(digest, l, sent, accepted);
      case _ => SendingKeepsInvariant(digest, l, sent, step);
    }
  }

  // ---- Runs ----

  /** The steps can be taken one after the other, and only framed texts are scheduled. */
  ghost predicate IsRun(digest: Identifier.Digest, l: Link, steps: seq<Step>)
    decreases |steps|
  {
    steps == [] ||
    (&& Enabled(l, steps[0])
     && (steps[0].Schedule? ==> Framed(steps[0].text))
     && IsRun(digest, Next(digest, l, steps[0]), steps[1..]))
  }

  ghost function Last(digest: Identifier.Digest, l: Link, steps: seq<Step>): Link
    requires IsRun(digest, l, steps)
    decreases |steps|
  {
    if steps == [] then l else Last(digest, Next(digest, l, steps[0]), steps[1..])
  }

  function Scheduled(steps: seq<Step>): seq<Text> {
    if steps == [] then [] else Sent([], steps[0]) + Scheduled(steps[1..])
  }

  lemma {:induction false} RunKeepsInvariant(digest: Identifier.Digest, l: Link, sent: seq<Text>, steps: seq<Step>)
    requires Invariant(digest, l, sent) && IsRun(digest, l, steps)
    ensures Invariant(digest, Last(digest, l, steps), sent + Scheduled(steps))
    decreases |steps|
  {
    hide Invariant, Enabled, Next, Framed, Sent;
    if steps == [] {
      assert sent + Scheduled(steps) == sent;
    } else {
      StepKeepsInvariant(digest, l, sent, steps[0]);
      RunKeepsInvariant(digest, Next(digest, l, steps[0]), Sent(sent, steps[0]), steps[1..]);
      SentFirst(sent, steps);
    }
  }

  lemma SentFirst(sent: seq<Text>, steps: seq<Step>)
    requires steps != []
    ensures sent + Scheduled(steps) == Sent(sent, steps[0]) + Scheduled(steps[1..])
  {
    SentAppends(sent, steps[0]);
    ScheduledFirst(steps);
    Regrouped(sent, Sent([], steps[0]), Scheduled(steps[1..]));
    hide Scheduled, Sent;
  }

  lemma SentAppends(sent: seq<Text>, step: Step)
    ensures Sent(sent, step) == sent + Sent([], step)
  {
    if step.Schedule? { assert [] + [step.text] == [step.text]; }
  }

  lemma Regrouped<T>(a: seq<T>, b: seq<T>, c: seq<T>)
    ensures (a + b) + c == a + (b + c)
  {
  }

  lemma ScheduledFirst(steps: seq<Step>)
    requires steps != []
    ensures Scheduled(steps) == Sent([], steps[0]) + Scheduled(steps[1..])
  {
  }

  lemma NewInvariant(digest: Identifier.Digest)
    ensures Invariant(digest, NEW, [])
  {
  }

  predicate Idle(l: Link) {
    l.events == [] && l.batch == [] && l.outgoing == [] && l.wire == [] && l.buffer == []
  }

  /** Nothing can happen any more, unless something is scheduled. */
  ghost predicate Settled(l: Link) {
    forall step: Step :: Enabled(l, step) ==> step.Schedule?
  }

  /** In every run, the messages delivered so far are what the first scheduled texts are read as; none
      of them is lost, split or merged. The receiver fails on the first text that cannot be read, and
      neither that one nor anything behind it is ever delivered. Once nothing can happen any more, and
      no handler refused a message, all the texts before that one have been delivered. */
  lemma DeliveredIsSent(digest: Identifier.Digest, steps: seq<Step>)
    requires IsRun(digest, NEW, steps)
    ensures
      var l, sent := Last(digest, NEW, steps), Scheduled(steps);
      && AreReadings(digest, l.delivered, sent)
      && |l.delivered| <= Readable(digest, sent)
      && (l.phase == Failed ==> |l.delivered| == Readable(digest, sent) < |sent|)
      && (Settled(l) && l.phase != Refused ==>
            |l.delivered| == Readable(digest, sent) && (l.phase == Failed <==> Readable(digest, sent) < |sent|))
  {
    NewInvariant(digest);
    RunKeepsInvariant(digest, NEW, [], steps);
    var l, sent := Last(digest, NEW, steps), Scheduled(steps);
    assert [] + sent == sent;
    hide IsRun, Last, Scheduled;
    DeliveredIsReadable(digest, l, sent);
    if Settled(l) && l.phase != Refused { SettledIsDone(digest, l, sent); }
  }

  lemma DeliveredIsReadable(digest: Identifier.Digest, l: Link, sent: seq<Text>)
    requires Invariant(digest, l, sent)
    ensures |l.delivered| <= Readable(digest, sent)
    ensures l.phase == Failed ==> |l.delivered| == Readable(digest, sent) < |sent|
  {
    hide Framed, Reading, Flatten, Unwritten, HeaderRead;
    var k := |l.delivered|;
    assert forall i :: 0 <= i < k ==> Reading(digest, sent[i]).Some?;
    if l.phase == Failed { assert sent[k..][0] == sent[k]; }
  }

  /** When nothing can happen any more, the receiver has failed, or refused a message, or everything
      has been delivered. */
  lemma SettledIsDone(digest: Identifier.Digest, l: Link, sent: seq<Text>)
    requires Invariant(digest, l, sent) && Settled(l) && l.phase != Refused
    ensures l.phase == Failed || |l.delivered| == |sent|
  {
    hide Invariant;
    if l.phase != Failed {
      if !Idle(l) { SomethingIsEnabled(digest, l, sent); }
      IdleIsDone(digest, l, sent);
    }
  }

  /** The receiver only fails on a text that cannot be read. */
  lemma FailedOnHead(digest: Identifier.Digest, l: Link, sent: seq<Text>)
    requires Invariant(digest, l, sent) && l.phase == Failed
    ensures |l.delivered| < |sent| && Reading(digest, sent[|l.delivered|]) == None
  {
    hide Framed, Reading, Flatten, Unwritten, HeaderRead;
    assert sent[|l.delivered|..][0] == sent[|l.delivered|];
  }

  lemma IdleIsDone(digest: Identifier.Digest, l: Link, sent: seq<Text>)
    requires Invariant(digest, l, sent) && Idle(l)
    ensures |l.delivered| == |sent|
  {
    hide Framed, Reading, HeaderRead, Receiving;
    assert Unwritten(l) == [] by { assert Queue(l) == []; }
    if |l.delivered| < |sent| { RestIsLong(sent[|l.delivered|..]); }
  }

  lemma RestIsLong(texts: seq<Text>)
    requires AllFramed(texts)
    ensures texts != [] ==> |Flatten(texts)| >= |texts[0]| > HEADER_SIZE
  {
    if texts != [] { assert Framed(texts[0]); }
  }

  // ---- Progress ----

  function Weight(phase: Phase): nat {
    match phase case Header => 2 case Body(_) => 1 case _ => 0
  }

  /** What is left to be done on the way, weighted so that every step but scheduling makes it less. */
  function Work(l: Link): (work: int)
    requires Queued(l)
    ensures work >= 0
  {
    5 * |l.events| + 4 * |l.batch| + 3 * |l.outgoing| + 3 * |Unwritten(l)| + 2 * |l.wire| + |l.buffer|
    + Weight(l.phase)
  }

  /** Every step but scheduling leaves less to be done, so between two scheduled texts only finitely
      many steps can be taken. */
  lemma WorkDecreases(digest: Identifier.Digest, l: Link, sent: seq<Text>, step: Step)
    requires Invariant(digest, l, sent) && Enabled(l, step) && !step.Schedule?
    ensures Queued(Next(digest, l, step))
    ensures Work(Next(digest, l, step)) < Work(l)
  {
    hide Invariant, Next, Unwritten;
    InvariantIsQueued(digest, l, sent);
    if IsSending(step) {
      SendingSteps(digest, l, step);
      CountSending(digest, l, step);
    } else {
      CountReceiving(digest, l, sent, step);
    }
  }

  lemma CountReceiving(digest: Identifier.Digest, l: Link, sent: seq<Text>, step: Step)
    requires Invariant(digest, l, sent) && Enabled(l, step) && !IsSending(step)
    ensures
      var next := Next(digest, l, step);
      && Queued(next) && Unwritten(next) == Unwritten(l)
      && next.events == l.events && next.batch == l.batch && next.outgoing == l.outgoing
      && 2 * |next.wire| + |next.buffer| + Weight(next.phase) < 2 * |l.wire| + |l.buffer| + Weight(l.phase)
  {
    hide Flatten, Framed, Receiving, HeaderRead, BodyRead, Reading, Invariant;
    InvariantIsQueued(digest, l, sent);
    match step {
      case Read(count) => assert Queue(Next(digest, l, step)) == Queue(l);
      case DecodeHeader => SameQueue(digest, l, step);
      case DecodeBody(accepted) =>
        BodyIsComplete(digest, l, sent);
        BodyNext(digest, l, accepted);
        SameQueue(digest, l, step);
    }
  }

  lemma InvariantIsQueued(digest: Identifier.Digest, l: Link, sent: seq<Text>)
    requires Invariant(digest, l, sent)
    ensures Queued(l)
  {
  }

  lemma CountSending(digest: Identifier.Digest, l: Link, step: Step)
    requires Queued(l) && Enabled(l, step) && IsSending(step) && !step.Schedule?
    ensures
      var next := Next(digest, l, step);
      && next.phase == l.phase && next.buffer == l.buffer
      && 5 * |next.events| + 4 * |next.batch| + 3 * |next.outgoing| - |next.wire|
         < 5 * |l.events| + 4 * |l.batch| + 3 * |l.outgoing| - |l.wire|
  {
  }

  /** While something is on its way, some step can be taken, unless a handler refused a message or
      the receiver failed. */
  lemma SomethingIsEnabled(digest: Identifier.Digest, l: Link, sent: seq<Text>)
    requires Invariant(digest, l, sent) && !Idle(l) && l.phase != Refused && l.phase != Failed
    ensures exists step: Step :: !step.Schedule? && Enabled(l, step)
  {
    hide Invariant;
    InvariantIsQueued(digest, l, sent);
    if l.batch != [] {
      assert Enabled(l, HandOver);
    } else if l.events != [] {
      assert Enabled(l, TakeEvents);
    } else if l.outgoing != [] {
      assert Enabled(l, Dispatched) || Enabled(l, Write(1));
    } else {
      ReceiverIsEnabled(digest, l, sent);
    }
  }

  lemma ReceiverIsEnabled(digest: Identifier.Digest, l: Link, sent: seq<Text>)
    requires Invariant(digest, l, sent) && (l.wire != [] || l.buffer != []) && l.phase != Refused && l.phase != Failed
    requires l.batch == [] && l.events == [] && l.outgoing == []
    ensures Enabled(l, Read(1)) || Enabled(l, DecodeHeader) || Enabled(l, DecodeBody(true))
  {
    hide Invariant;
    ReceivingBounds(digest, l, sent);
    if l.wire == [] { BufferIsFull(digest, l, sent); }
  }

  lemma ReceivingBounds(digest: Identifier.Digest, l: Link, sent: seq<Text>)
    requires Invariant(digest, l, sent) && l.phase != Failed
    ensures |l.buffer| <= Wanted(l.phase)
  {
    hide Framed, HeaderRead, Flatten, Reading, AreReadings;
  }

  lemma BufferIsFull(digest: Identifier.Digest, l: Link, sent: seq<Text>)
    requires Invariant(digest, l, sent) && l.phase != Refused && l.phase != Failed
    requires l.batch == [] && l.events == [] && l.outgoing == [] && l.wire == [] && l.buffer != []
    ensures |l.buffer| >= Wanted(l.phase)
  {
    hide Framed, HeaderRead, Reading;
    var rest := sent[|l.delivered|..];
    assert Unwritten(l) == [] by { assert Queue(l) == []; }
    assert rest != [];
    hide Flatten, Unwritten;
    assert l.buffer == Flatten(rest);
    RestIsLong(rest);
  }
}
