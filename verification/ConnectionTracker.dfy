/** The connections of an endpoint (src/Components/Network/ConnectionTracker.hpp and
    ConnectionDetails.hpp): a container with three indices, by connection, by the identifier of the
    peer and by URI. */
module ConnectionTracker {
  import opened Bytes

  datatype ConnectionState = Connected | Disconnected | ResolvingState | Unknown

  /** The parsing of addresses is not modelled. */
  datatype Address = Address(uri: Text, valid: bool)

  const NO_ADDRESS: Address := Address([], false)

  /** A peer is known by its internal identifier. */
  datatype Details = Details(address: Address, sequence: uint32, state: ConnectionState, peer: Option<nat>)

  type Connection = nat

  type Table = map<Connection, Option<Details>>

  // ---- Details ----

  function DetailsAt(address: Address): Details {
    Details(address, 0, ResolvingState, None)
  }

  function DetailsOf(peer: nat): Details {
    Details(NO_ADDRESS, 0, ResolvingState, Some(peer))
  }

  /** Assigning details leaves the address as it is when the new ones have no valid address. */
  function Assigned(target: Details, source: Details): Details {
    if source.address.valid then source else source.(address := target.address)
  }

  function Incremented(d: Details): Details {
    d.(sequence := (d.sequence + 1) % 0x1_0000_0000)
  }

  /** The key of the identifier index; 0 is the identifier that no peer has. */
  function PeerKey(entry: Option<Details>): nat {
    if entry == None || entry.value.peer == None then 0 else entry.value.peer.value
  }

  /** The key of the URI index. */
  function UriKey(entry: Option<Details>): Text {
    if entry == None then [] else entry.value.address.uri
  }

  // ---- What the operations do to the table ----

  function Tracked(t: Table, c: Connection, entry: Option<Details>): Table {
    if c in t then t else t[c := entry]
  }

  function UpdatedOne(t: Table, c: Connection, update: Details -> Details): Table {
    if c !in t || t[c] == None then t else t[c := Some(update(t[c].value))]
  }

  /** The details of an unpromoted connection are made from its address and assigned. */
  function Promoted(t: Table, c: Connection, update: Details -> Details, promote: Address -> Details): Table {
    if c !in t then t
    else match t[c]
      case None => t[c := Some(promote(NO_ADDRESS))]
      case Some(d) =>
        t[c := Some(if d.peer.Some? then update(d) else Assigned(d, promote(d.address)))]
  }

  /** What an entry becomes: only a tracked connection is touched; one without a peer takes over what was made
      from its address, but keeps the address unless it got another valid one. */
  lemma PromotedEntry(t: Table, c: Connection, update: Details -> Details, promote: Address -> Details)
    ensures
      var next := Promoted(t, c, update, promote);
      && next.Keys == t.Keys
      && (forall k <- t :: k != c ==> next[k] == t[k])
      && (c in t ==> next[c].Some?)
      && (c in t ==>
            match t[c]
            case None => next[c].value == promote(NO_ADDRESS)
            case Some(d) =>
              if d.peer.Some? then next[c].value == update(d)
              else
                var made := promote(d.address);
                && next[c].value.sequence == made.sequence && next[c].value.state == made.state
                && next[c].value.peer == made.peer
                && next[c].value.address == if made.address.valid then made.address else d.address)
  {
  }

  // ---- The indices ----

  /** The connections under one key of an index. */
  function Under<K(==)>(index: map<K, set<Connection>>, key: K): set<Connection> {
    if key in index then index[key] else {}
  }

  function Inserted<K(==)>(index: map<K, set<Connection>>, key: K, c: Connection): map<K, set<Connection>> {
    index[key := Under(index, key) + {c}]
  }

  function Erased<K(==)>(index: map<K, set<Connection>>, key: K, c: Connection): map<K, set<Connection>> {
    index[key := Under(index, key) - {c}]
  }

  /** An index lists every entry under its own key and under no other. */
  ghost predicate Agrees<K(!new)>(index: map<K, set<Connection>>, t: Table, keyOf: Option<Details> -> K) {
    forall key, c :: c in Under(index, key) <==> c in t && keyOf(t[c]) == key
  }

  lemma InsertAgrees<K(!new)>(index: map<K, set<Connection>>, t: Table, keyOf: Option<Details> -> K,
                              c: Connection, entry: Option<Details>)
    requires Agrees(index, t, keyOf) && c !in t
    ensures Agrees(Inserted(index, keyOf(entry), c), t[c := entry], keyOf)
  {
    var next := Inserted(index, keyOf(entry), c);
    forall key, k: Connection
      ensures k in Under(next, key) <==> k in t[c := entry] && keyOf(t[c := entry][k]) == key
    {
      assert Under(next, key) == if key == keyOf(entry) then Under(index, key) + {c} else Under(index, key);
    }
  }

  lemma EraseAgrees<K(!new)>(index: map<K, set<Connection>>, t: Table, keyOf: Option<Details> -> K, c: Connection)
    requires Agrees(index, t, keyOf) && c in t
    ensures Agrees(Erased(index, keyOf(t[c]), c), t - {c}, keyOf)
  {
    var next := Erased(index, keyOf(t[c]), c);
    forall key, k: Connection
      ensures k in Under(next, key) <==> k in t - {c} && keyOf((t - {c})[k]) == key
    {
      assert Under(next, key) == if key == keyOf(t[c]) then Under(index, key) - {c} else Under(index, key);
    }
  }

  lemma ModifyAgrees<K(!new)>(index: map<K, set<Connection>>, t: Table, keyOf: Option<Details> -> K,
                              c: Connection, entry: Option<Details>)
    requires Agrees(index, t, keyOf) && c in t
    ensures Agrees(Inserted(Erased(index, keyOf(t[c]), c), keyOf(entry), c), t[c := entry], keyOf)
  {
    EraseAgrees(index, t, keyOf, c);
    InsertAgrees(Erased(index, keyOf(t[c]), c), t - {c}, keyOf, c, entry);
    assert (t - {c})[c := entry] == t[c := entry];
  }

  // ---- The object ----

  class ConnectionTracker {
    var entries: Table
    var byIdentifier: map<nat, set<Connection>>
    var byUri: map<Text, set<Connection>>

    ghost predicate Valid()
      reads this
    {
      && Agrees(byIdentifier, entries, PeerKey)
      && Agrees(byUri, entries, UriKey)
    }

    constructor ()
      ensures Valid() && entries == map[]
    {
      entries, byIdentifier, byUri := map[], map[], map[];
    }

    // How the container keeps its indices.

    method Emplace(c: Connection, entry: Option<Details>)
      requires Valid() && c !in entries
      modifies this
      ensures Valid() && entries == old(entries)[c := entry]
    {
      InsertAgrees(byIdentifier, entries, PeerKey, c, entry);
      InsertAgrees(byUri, entries, UriKey, c, entry);
      byIdentifier := Inserted(byIdentifier, PeerKey(entry), c);
      byUri := Inserted(byUri, UriKey(entry), c);
      entries := entries[c := entry];
    }

    method Modify(c: Connection, entry: Option<Details>)
      requires Valid() && c in entries
      modifies this
      ensures Valid() && entries == old(entries)[c := entry]
    {
      ModifyAgrees(byIdentifier, entries, PeerKey, c, entry);
      ModifyAgrees(byUri, entries, UriKey, c, entry);
      byIdentifier := Inserted(Erased(byIdentifier, PeerKey(entries[c]), c), PeerKey(entry), c);
      byUri := Inserted(Erased(byUri, UriKey(entries[c]), c), UriKey(entry), c);
      entries := entries[c := entry];
    }

    // The operations.

    method TrackConnection(c: Connection)
      requires Valid()
      modifies this
      ensures Valid() && entries == Tracked(old(entries), c, None)
    {
      if c in entries { return; }
      Emplace(c, None);
    }

    method TrackConnectionAt(c: Connection, address: Address)
      requires Valid()
      modifies this
      ensures Valid()
      ensures entries == if address.valid then Tracked(old(entries), c, Some(DetailsAt(address))) else old(entries)
    {
      if !address.valid { return; }
      if c in entries { return; }
      Emplace(c, Some(DetailsAt(address)));
    }

    method TrackConnectionWith(c: Connection, details: Details)
      requires Valid()
      modifies this
      ensures Valid() && entries == Tracked(old(entries), c, Some(details))
    {
      if c in entries { return; }
      Emplace(c, Some(details));
    }

    method UntrackConnection(c: Connection)
      requires Valid()
      modifies this
      ensures Valid() && entries == old(entries) - {c}
    {
      if c in entries {
        EraseAgrees(byIdentifier, entries, PeerKey, c);
        EraseAgrees(byUri, entries, UriKey, c);
        byIdentifier := Erased(byIdentifier, PeerKey(entries[c]), c);
        byUri := Erased(byUri, UriKey(entries[c]), c);
        entries := entries - {c};
      }
    }

    method UpdateOneConnection(c: Connection, update: Details -> Details) returns (found: bool)
      requires Valid()
      modifies this
      ensures Valid() && entries == UpdatedOne(old(entries), c, update)
      ensures found <==> c in old(entries) && old(entries)[c].Some?
    {
      if c !in entries { return false; }
      found := false;
      if entries[c].Some? {
        Modify(c, Some(update(entries[c].value)));
        found := true;
      }
    }

    /** Returns true for a connection that is not tracked, and false for one that is promoted now. */
    method UpdateOrPromoteConnection(c: Connection, update: Details -> Details, promote: Address -> Details)
      returns (found: bool)
      requires Valid()
      modifies this
      ensures Valid() && entries == Promoted(old(entries), c, update, promote)
      ensures found <==> c !in old(entries) || (old(entries)[c].Some? && old(entries)[c].value.peer.Some?)
    {
      if c !in entries { return true; }
      found := false;
      match entries[c] {
        case None => Modify(c, Some(promote(NO_ADDRESS)));
        case Some(details) =>
          if details.peer.Some? {
            Modify(c, Some(update(details)));
            found := true;
          } else {
            Modify(c, Some(Assigned(details, promote(details.address))));
          }
      }
    }

    method Translate(c: Connection) returns (identifier: Option<nat>)
      requires Valid()
      ensures identifier == if c in entries && entries[c].Some? then entries[c].value.peer else None
    {
      if c !in entries || entries[c] == None { return None; }
      return entries[c].value.peer;
    }

    /** Looking an identifier up finds a connection exactly when a scan over all of them would: one
        whose peer has this identifier. (Identifier 0, which no peer has, finds a connection without
        a peer.) */
    method TranslateIdentifier(identifier: nat) returns (c: Option<Connection>)
      requires Valid()
      ensures c == None <==> forall k <- entries :: PeerKey(entries[k]) != identifier
      ensures c.Some? ==> c.value in entries && PeerKey(entries[c.value]) == identifier
      ensures identifier != 0 ==>
        if c.Some? then entries[c.value].Some? && entries[c.value].value.peer == Some(identifier)
        else forall k <- entries :: entries[k] == None || entries[k].value.peer != Some(identifier)
    {
      var found := Under(byIdentifier, identifier);
      if found == {} {
        assert forall k <- entries :: k !in Under(byIdentifier, identifier);
        return None;
      }
      var k :| k in found;
      assert k in entries && PeerKey(entries[k]) == identifier;
      return Some(k);
    }

    method IsUriTracked(uri: Text) returns (tracked: bool)
      requires Valid()
      ensures tracked <==> IsUriIn(entries, uri)
    {
      var found := Under(byUri, uri);
      if found == {} {
        assert forall k <- entries :: k !in Under(byUri, uri);
        return false;
      }
      var k :| k in found;
      assert k in entries && UriKey(entries[k]) == uri;
      return true;
    }
  }

  ghost predicate IsUriIn(t: Table, uri: Text) {
    exists c <- t :: UriKey(t[c]) == uri
  }

  // ---- Runs of an endpoint ----

  /** What the TCP endpoint does with its tracker. */
  datatype Operation =
    | Start(c: Connection, address: Address)    // a session is started
    | Received(c: Connection, peer: nat)        // a message of a peer arrives
    | Dispatched(c: Connection)
    | Stopped(c: Connection, active: bool)      // the session ended

  /** The details that the endpoint makes for a peer that it has just linked. */
  function LinkedDetails(peer: nat): Details {
    Incremented(DetailsOf(peer).(state := Connected))
  }

  function Apply(t: Table, op: Operation): Table {
    match op
    case Start(c, address) => if address.valid then Tracked(t, c, Some(DetailsAt(address))) else t
    case Received(c, peer) => Promoted(t, c, Incremented, _ => LinkedDetails(peer))
    case Dispatched(c) => UpdatedOne(t, c, Incremented)
    case Stopped(c, active) =>
      var updated := UpdatedOne(t, c, (d: Details) => d.(state := Disconnected));
      if active then updated - {c} else updated
  }

  function Run(t: Table, ops: seq<Operation>): Table {
    if ops == [] then t else Apply(Run(t, ops[..|ops| - 1]), ops[|ops| - 1])
  }

  predicate Untracks(op: Operation, c: Connection) {
    op.Stopped? && op.c == c && op.active
  }

  /** From the start of a session until it is untracked, its URI can be looked up, whatever happens
      to this and to other connections: in particular while its details are replaced by those of a
      peer, which have no address of their own. */
  lemma {:induction false} UriStaysTracked(t: Table, c: Connection, address: Address, ops: seq<Operation>)
    requires address.valid && c !in t
    requires forall i :: 0 <= i < |ops| ==> !Untracks(ops[i], c)
    ensures
      var now := Run(Apply(t, Start(c, address)), ops);
      && c in now && now[c].Some? && now[c].value.address == address
      && IsUriIn(now, address.uri)
  {
    if ops != [] {
      UriStaysTracked(t, c, address, ops[..|ops| - 1]);
    }
    assert UriKey(Run(Apply(t, Start(c, address)), ops)[c]) == address.uri;
  }

  /** A connection is promoted by the first message that arrives on it, and then belongs to that peer
      for good. */
  lemma {:induction false} PromotedOnce(t: Table, c: Connection, peer: nat, ops: seq<Operation>)
    requires c in t && t[c].Some? && t[c].value.peer == None
    requires forall i :: 0 <= i < |ops| ==> !Untracks(ops[i], c)
    ensures
      var now := Run(Apply(t, Received(c, peer)), ops);
      && c in now && now[c].Some? && now[c].value.peer == Some(peer)
      && now[c].value.address == t[c].value.address
  {
    if ops != [] {
      PromotedOnce(t, c, peer, ops[..|ops| - 1]);
    }
  }

  // ---- What an entry says ----

  predicate IsReceived(op: Operation, c: Connection) {
    op.Received? && op.c == c
  }

  predicate IsStopped(op: Operation, c: Connection) {
    op.Stopped? && op.c == c
  }

  /** The place of the first message that arrived on a connection, or the end if there was none. */
  function FirstReceived(ops: seq<Operation>, c: Connection): (i: nat)
    ensures i <= |ops|
    ensures forall j :: 0 <= j < i ==> !IsReceived(ops[j], c)
    ensures i < |ops| ==> IsReceived(ops[i], c)
  {
    if ops == [] then 0
    else if IsReceived(ops[0], c) then 0
    else 1 + FirstReceived(ops[1..], c)
  }

  /** How many messages arrived or were sent on a connection from some place on. */
  function Messages(ops: seq<Operation>, c: Connection, from: nat): (n: nat) {
    if |ops| <= from then 0
    else
      var last := ops[|ops| - 1];
      Messages(ops[..|ops| - 1], c, from) + (if (last.Received? || last.Dispatched?) && last.c == c then 1 else 0)
  }

  /** The end of an active session takes its connection out, and nothing but a new start brings it back. */
  lemma {:induction false} UntrackedIsGone(t: Table, c: Connection, ops: seq<Operation>)
    requires forall i :: 0 <= i < |ops| ==> !(ops[i].Start? && ops[i].c == c)
    ensures c !in Run(Apply(t, Stopped(c, true)), ops)
  {
    if ops != [] {
      UntrackedIsGone(t, c, ops[..|ops| - 1]);
    }
  }

  /** What the entry of a connection should say after some operations on the endpoint: the address of the
      start, the peer of the first message, and how many messages there were from that one on (or from the
      start, as long as none has arrived); it is resolving until that message, then connected, and
      disconnected after the end of the session. */
  function Told(address: Address, ops: seq<Operation>, c: Connection): Details {
    var first := FirstReceived(ops, c);
    var from := if first < |ops| then first else 0;
    Details(address, Messages(ops, c, from) % 0x1_0000_0000,
            if HasStopped(ops, c, from) then Disconnected else if first < |ops| then Connected else ResolvingState,
            if first < |ops| then Some(ops[first].peer) else None)
  }

  /** From the start of a session until it is untracked, its entry tells its history. */
  lemma {:induction false} EntryTellsHistory(t: Table, c: Connection, address: Address, ops: seq<Operation>)
    requires address.valid && c !in t
    requires forall i :: 0 <= i < |ops| ==> !Untracks(ops[i], c)
    ensures
      var now := Run(Apply(t, Start(c, address)), ops);
      c in now && now[c] == Some(Told(address, ops, c))
  {
    if ops == [] {
    } else {
      hide Told, Apply;
      var front := ops[..|ops| - 1];
      EntryTellsHistory(t, c, address, front);
      EntryAfter(Run(Apply(t, Start(c, address)), front), c, ops[|ops| - 1]);
      ToldAfter(address, ops, c);
    }
  }

  /** What an operation does to the details of a connection. */
  function After(d: Details, op: Operation, c: Connection): Details {
    if op.c != c then d
    else match op
      case Start(_, _) => d
      case Received(_, peer) =>
        if d.peer.Some? then d.(sequence := (d.sequence + 1) % 0x1_0000_0000)
        else Details(d.address, 1, Connected, Some(peer))
      case Dispatched(_) => d.(sequence := (d.sequence + 1) % 0x1_0000_0000)
      case Stopped(_, _) => d.(state := Disconnected)
  }

  lemma EntryAfter(t: Table, c: Connection, op: Operation)
    requires c in t && t[c].Some? && !Untracks(op, c)
    ensures c in Apply(t, op) && Apply(t, op)[c] == Some(After(t[c].value, op, c))
  {
  }

  lemma ToldAfter(address: Address, ops: seq<Operation>, c: Connection)
    requires ops != []
    ensures Told(address, ops, c) == After(Told(address, ops[..|ops| - 1], c), ops[|ops| - 1], c)
  {
    hide HasStopped, Messages, FirstReceived;
    var front := ops[..|ops| - 1];
    FirstReceivedLast(ops, c);
    var first := FirstReceived(front, c);
    var from := if first < |front| then first else 0;
    HasStoppedLast(ops, c, from);
    HasStoppedLast(ops, c, |front|);
    NothingStopped(front, c);
    MessagesLast(ops, c, from);
    MessagesLast(ops, c, |front|);
    CountWraps(Messages(front, c, from));
  }

  lemma MessagesLast(ops: seq<Operation>, c: Connection, from: nat)
    requires ops != [] && from < |ops|
    ensures
      var front, last := ops[..|ops| - 1], ops[|ops| - 1];
      && Messages(ops, c, from)
         == Messages(front, c, from) + (if (last.Received? || last.Dispatched?) && last.c == c then 1 else 0)
      && Messages(front, c, |front|) == 0
  {
  }

  lemma NothingStopped(ops: seq<Operation>, c: Connection)
    ensures !HasStopped(ops, c, |ops|)
  {
  }

  predicate HasStopped(ops: seq<Operation>, c: Connection, from: nat) {
    exists j :: from <= j < |ops| && IsStopped(ops[j], c)
  }

  lemma HasStoppedLast(ops: seq<Operation>, c: Connection, from: nat)
    requires ops != [] && from < |ops|
    ensures
      var front, last := ops[..|ops| - 1], ops[|ops| - 1];
      HasStopped(ops, c, from) <==> HasStopped(front, c, from) || IsStopped(last, c)
  {
    var front := ops[..|ops| - 1];
    if j :| from <= j < |front| && IsStopped(front[j], c) { assert ops[j] == front[j]; }
    if j :| from <= j < |ops| && IsStopped(ops[j], c) {
      if j < |front| { assert ops[j] == front[j]; }
    }
  }

  lemma FirstReceivedLast(ops: seq<Operation>, c: Connection)
    requires ops != []
    ensures
      var front := ops[..|ops| - 1];
      FirstReceived(ops, c) ==
        if FirstReceived(front, c) < |front| then FirstReceived(front, c)
        else if IsReceived(ops[|ops| - 1], c) then |front| else |ops|
  {
    var front := ops[..|ops| - 1];
    var first := FirstReceived(front, c);
    assert forall j :: 0 <= j < |front| ==> ops[j] == front[j];
    if first < |front| { assert IsReceived(ops[first], c); }
  }

  lemma CountWraps(n: nat)
    ensures (n % 0x1_0000_0000 + 1) % 0x1_0000_0000 == (n + 1) % 0x1_0000_0000
  {
  }
}
