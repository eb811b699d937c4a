/** A request that waits for the responses of other peers (src/Components/Await/ResponseTracker.cpp). */
module ResponseTracker {
  import opened Bytes
  import Identifier

  datatype ResponseStatus = Unfulfilled | Fulfilled | Completed

  datatype UpdateStatus = Expired | Unexpected | Success | NowFulfilled

  /** The entries map the internal identifiers of the peers that are asked to the text of their
      response, which is empty until it arrives. */
  datatype Tracker = Tracker(
    status: ResponseStatus,
    expected: uint32,
    received: uint32,
    entries: map<nat, Text>,
    expire: nat)

  // ---- Construction ----

  /** The identifiers are shared objects, so some may be null and several may name one peer. */
  predicate Filtered(identifier: Option<Identifier.Container>, source: Identifier.Container) {
    identifier == None || Identifier.Same(identifier.value, source)
  }

  /** The entries for the peers to be asked: null ones and the requestor are left out, and a peer
      that is named again is not entered again. */
  function Entries(identifiers: seq<Option<Identifier.Container>>, source: Identifier.Container): map<nat, Text> {
    if identifiers == [] then map[]
    else
      var entries := Entries(identifiers[..|identifiers| - 1], source);
      var last := identifiers[|identifiers| - 1];
      if Filtered(last, source) || last.value.internal in entries then entries
      else entries[last.value.internal := []]
  }

  /** All the identifiers count as expected, also those that are not entered. */
  function ForSeveral(identifiers: seq<Option<Identifier.Container>>, source: Identifier.Container, expire: nat)
    : Tracker
  {
    Tracker(Unfulfilled, |identifiers| % 0x1_0000_0000, 0, Entries(identifiers, source), expire)
  }

  function ForOne(identifier: Option<Identifier.Container>, expire: nat): Tracker {
    Tracker(Unfulfilled, 1, 0, if identifier == None then map[] else map[identifier.value.internal := []], expire)
  }

  // ---- Operations ----

  function Answered(t: Tracker, source: nat, pack: Text, now: nat): (r: (Tracker, UpdateStatus)) {
    if source !in t.entries || t.entries[source] != [] then
      (t, if t.expire < now then Expired else Unexpected)
    else
      var next := t.(entries := t.entries[source := pack], received := (t.received + 1) % 0x1_0000_0000);
      if next.received >= t.expected then (next.(status := Fulfilled), NowFulfilled) else (next, Success)
  }

  /** A tracker whose responses are complete or whose time is over is fulfilled, even if it has been
      completed before. */
  function Checked(t: Tracker, now: nat): Tracker {
    if t.received == t.expected || t.expire < now then t.(status := Fulfilled) else t
  }

  /** The tracker after an attempt to answer, and the responses that the answer is made of. Without a
      destination in the request there is nobody to answer as. */
  function Sent(t: Tracker, now: nat, addressed: bool): (r: (Tracker, Option<map<nat, Text>>)) {
    var checked := Checked(t, now);
    if checked.status != Fulfilled || !addressed then (checked, None)
    else (checked.(status := Completed, entries := map[]), Some(checked.entries))
  }

  // ---- Counting ----

  function FilledIn(t: Tracker): (filled: set<nat>)
    ensures filled <= t.entries.Keys
  {
    set id <- t.entries | t.entries[id] != []
  }

  lemma SubsetCount(a: set<nat>, b: set<nat>)
    requires a <= b
    ensures |a| <= |b| && (|a| == |b| ==> a == b)
  {
    var rest := b - a;
    assert b == a + rest && a !! rest;
  }

  lemma {:induction false} EntriesStartEmpty(identifiers: seq<Option<Identifier.Container>>,
                                            source: Identifier.Container)
    ensures forall id <- Entries(identifiers, source) :: Entries(identifiers, source)[id] == []
  {
    if identifiers != [] { EntriesStartEmpty(identifiers[..|identifiers| - 1], source); }
  }

  lemma {:induction false} Named(identifiers: seq<Option<Identifier.Container>>, source: Identifier.Container, i: nat)
    requires i < |identifiers| && !Filtered(identifiers[i], source)
    ensures identifiers[i].value.internal in Entries(identifiers, source)
  {
    if i < |identifiers| - 1 { Named(identifiers[..|identifiers| - 1], source, i); }
  }

  lemma {:induction false} EntriesCount(identifiers: seq<Option<Identifier.Container>>, source: Identifier.Container)
    ensures |Entries(identifiers, source)| <= |identifiers|
    ensures |Entries(identifiers, source)| == |identifiers| <==> AllEntered(identifiers, source)
  {
    if identifiers != [] {
      var n := |identifiers| - 1;
      var front, last := identifiers[..n], identifiers[n];
      EntriesCount(front, source);
      if last.Some? {
        NamedBefore(front, source, last.value.internal);
        forall i: nat | i < n && !Filtered(front[i], source)
          ensures front[i].value.internal in Entries(front, source)
        {
          Named(front, source, i);
        }
      }
    }
  }

  /** Who is asked: everybody who is named, but the requestor. */
  lemma {:induction false} EnteredAre(identifiers: seq<Option<Identifier.Container>>, source: Identifier.Container,
                                      id: nat)
    ensures id in Entries(identifiers, source) <==>
      exists i :: 0 <= i < |identifiers| && identifiers[i].Some? && identifiers[i].value.internal == id
                  && !Identifier.Same(identifiers[i].value, source)
    ensures source.valid && id == source.internal ==> id !in Entries(identifiers, source)
  {
    if identifiers != [] {
      var front, last := identifiers[..|identifiers| - 1], identifiers[|identifiers| - 1];
      EnteredAre(front, source, id);
      assert forall i :: 0 <= i < |front| ==> front[i] == identifiers[i];
    }
  }

  lemma {:induction false} NamedBefore(identifiers: seq<Option<Identifier.Container>>, source: Identifier.Container,
                                       id: nat)
    ensures id in Entries(identifiers, source) ==>
      exists i :: 0 <= i < |identifiers| && !Filtered(identifiers[i], source) && identifiers[i].value.internal == id
  {
    if identifiers != [] {
      var front, last := identifiers[..|identifiers| - 1], identifiers[|identifiers| - 1];
      NamedBefore(front, source, id);
      if id in Entries(identifiers, source) && id !in Entries(front, source) {
        assert !Filtered(identifiers[|identifiers| - 1], source);
      }
    }
  }

  /** No identifier is left out and none is named twice. */
  predicate AllEntered(identifiers: seq<Option<Identifier.Container>>, source: Identifier.Container) {
    && (forall i :: 0 <= i < |identifiers| ==> !Filtered(identifiers[i], source))
    && (forall i, j :: 0 <= i < j < |identifiers| && identifiers[i].Some? && identifiers[j].Some? ==>
          identifiers[i].value.internal != identifiers[j].value.internal)
  }

  /** What one response does: it is counted exactly if its source was asked and has nothing in its entry
      yet. An empty one, which is what the sender's failure to sign it leaves, is counted but does not
      fill the entry, so that the same peer can be counted again. */
  lemma UpdateCounts(t: Tracker, source: nat, pack: Text, now: nat)
    ensures
      var (next, status) := Answered(t, source, pack, now);
      && (status in {Success, NowFulfilled} <==> source in t.entries && source !in FilledIn(t))
      && (status in {Success, NowFulfilled} ==>
            && next.received == (if t.received == 0xFFFF_FFFF then 0 else t.received + 1)
            && next.entries.Keys == t.entries.Keys
            && FilledIn(next) == FilledIn(t) + (if pack == [] then {} else {source})
            && (status == NowFulfilled <==> next.received >= next.expected)
            && forall again, later ::
                 Answered(next, source, again, later).1 in {Expired, Unexpected} <==> pack != [])
      && (status in {Expired, Unexpected} ==> next == t && (status == Expired <==> t.expire < now))
  {
    var next := Answered(t, source, pack, now).0;
    if source in t.entries && t.entries[source] == [] {
      assert FilledIn(next) == FilledIn(t) + (if pack == [] then {} else {source});
    }
  }

  /** The responses of a run, each from a peer and at a time. */
  datatype Response = Response(source: nat, pack: Text, now: nat)

  function Updated(t: Tracker, responses: seq<Response>): Tracker {
    if responses == [] then t
    else
      var last := responses[|responses| - 1];
      Answered(Updated(t, responses[..|responses| - 1]), last.source, last.pack, last.now).0
  }

  /** A response counts if its source was asked and has not sent anything but empty ones before. */
  predicate Counts(asked: set<nat>, responses: seq<Response>, i: nat)
    requires i < |responses|
  {
    && responses[i].source in asked
    && forall j :: 0 <= j < i && responses[j].source == responses[i].source ==> responses[j].pack == []
  }

  function Counted(asked: set<nat>, responses: seq<Response>): (n: nat)
    ensures n <= |responses|
  {
    if responses == [] then 0
    else
      Counted(asked, responses[..|responses| - 1]) + (if Counts(asked, responses, |responses| - 1) then 1 else 0)
  }

  /** A tracker as it is made. */
  predicate IsNew(t: Tracker) {
    t.status == Unfulfilled && t.received == 0 && forall id <- t.entries :: t.entries[id] == []
  }

  lemma {:induction false} EntriesFollow(t: Tracker, responses: seq<Response>)
    requires IsNew(t)
    ensures
      var u := Updated(t, responses);
      && u.entries.Keys == t.entries.Keys && u.expected == t.expected && u.expire == t.expire
      && forall id <- u.entries :: u.entries[id] == [] <==> OnlyEmpty(responses, id)
  {
    if responses != [] {
      EntriesFollow(t, responses[..|responses| - 1]);
      forall id {
        OnlyEmptyLast(responses, id);
      }
      hide OnlyEmpty;
    }
  }

  /** What a tracker has become through some responses, whatever they are. */
  lemma {:induction false} RunCounts(t: Tracker, responses: seq<Response>)
    requires IsNew(t)
    ensures
      var u, n := Updated(t, responses), Counted(t.entries.Keys, responses);
      && u.entries.Keys == t.entries.Keys && u.expected == t.expected && u.expire == t.expire
      && u.received == n % 0x1_0000_0000
      && u.status == (if n > 0 && n >= t.expected then Fulfilled else Unfulfilled)
      && forall id <- u.entries :: u.entries[id] == [] <==> OnlyEmpty(responses, id)
  {
    EntriesFollow(t, responses);
    if responses != [] {
      hide OnlyEmpty, Counted, Answered;
      var front := responses[..|responses| - 1];
      RunCounts(t, front);
      CountedLast(t.entries.Keys, responses);
      StepCounts(Updated(t, front), Counted(t.entries.Keys, front), responses[|responses| - 1]);
    }
  }

  lemma StepCounts(u: Tracker, n: nat, last: Response)
    requires u.received == n % 0x1_0000_0000
    requires u.status == if n > 0 && n >= u.expected then Fulfilled else Unfulfilled
    ensures
      var next := Answered(u, last.source, last.pack, last.now).0;
      if last.source in u.entries && u.entries[last.source] == [] then
        next == u.(received := (n + 1) % 0x1_0000_0000, entries := u.entries[last.source := last.pack],
                   status := if n + 1 >= u.expected then Fulfilled else Unfulfilled)
      else next == u
  {
  }

  lemma CountedLast(asked: set<nat>, responses: seq<Response>)
    requires responses != []
    ensures
      var front, last := responses[..|responses| - 1], responses[|responses| - 1];
      Counted(asked, responses)
      == Counted(asked, front) + (if last.source in asked && OnlyEmpty(front, last.source) then 1 else 0)
  {
    var front, last := responses[..|responses| - 1], responses[|responses| - 1];
    OnlyEmptyLast(responses, last.source);
    assert OnlyEmpty(front, last.source) <==>
      forall j :: 0 <= j < |front| && responses[j].source == last.source ==> responses[j].pack == [];
  }

  predicate OnlyEmpty(responses: seq<Response>, id: nat) {
    forall j :: 0 <= j < |responses| && responses[j].source == id ==> responses[j].pack == []
  }

  lemma OnlyEmptyLast(responses: seq<Response>, id: nat)
    requires responses != []
    ensures
      var front, last := responses[..|responses| - 1], responses[|responses| - 1];
      OnlyEmpty(responses, id) <==> OnlyEmpty(front, id) && (last.source == id ==> last.pack == [])
  {
    var front, last := responses[..|responses| - 1], responses[|responses| - 1];
    if OnlyEmpty(front, id) && (last.source == id ==> last.pack == []) {
      forall j | 0 <= j < |responses| && responses[j].source == id ensures responses[j].pack == [] {
        if j < |front| { assert front[j] == responses[j]; }
      }
    }
    if OnlyEmpty(responses, id) {
      forall j | 0 <= j < |front| && front[j].source == id ensures front[j].pack == [] {
        assert front[j] == responses[j];
      }
    }
  }

  /** The pack of the first response of a peer that is not empty. */
  predicate IsFirstAnswer(responses: seq<Response>, id: nat, pack: Text) {
    pack != [] && exists i :: 0 <= i < |responses| && IsAnswerAt(responses, id, pack, i)
  }

  predicate IsAnswerAt(responses: seq<Response>, id: nat, pack: Text, i: nat)
    requires i < |responses|
  {
    responses[i].source == id && responses[i].pack == pack && OnlyEmpty(responses[..i], id)
  }

  /** What an answer is made of: the first response of each peer that is not empty, as it came, and nothing for
      peers that have not sent one. */
  lemma {:induction false} EntriesAreFirstAnswers(t: Tracker, responses: seq<Response>, id: nat)
    requires IsNew(t) && id in t.entries
    ensures
      var u := Updated(t, responses);
      id in u.entries && if u.entries[id] == [] then OnlyEmpty(responses, id)
                         else IsFirstAnswer(responses, id, u.entries[id])
  {
    EntriesFollow(t, responses);
    if responses != [] {
      hide OnlyEmpty, IsFirstAnswer, Answered, IsNew;
      var front, last := responses[..|responses| - 1], responses[|responses| - 1];
      EntriesFollow(t, front);
      EntriesAreFirstAnswers(t, front, id);
      EntryAfter(Updated(t, front), last, id);
      FirstAnswerLast(responses, id, Updated(t, responses).entries[id]);
    }
  }

  lemma EntryAfter(t: Tracker, last: Response, id: nat)
    requires id in t.entries
    ensures
      var next := Answered(t, last.source, last.pack, last.now).0;
      && id in next.entries
      && next.entries[id] == if last.source == id && t.entries[id] == [] then last.pack else t.entries[id]
  {
  }

  lemma FirstAnswerLast(responses: seq<Response>, id: nat, pack: Text)
    requires responses != []
    ensures
      var front, last := responses[..|responses| - 1], responses[|responses| - 1];
      && (IsFirstAnswer(front, id, pack) ==> IsFirstAnswer(responses, id, pack))
      && (OnlyEmpty(front, id) && last.source == id && last.pack == pack != [] ==> IsFirstAnswer(responses, id, pack))
  {
    hide OnlyEmpty;
    var front, last := responses[..|responses| - 1], responses[|responses| - 1];
    if i :| 0 <= i < |front| && IsAnswerAt(front, id, pack, i) {
      assert front[..i] == responses[..i] && front[i] == responses[i];
      assert IsAnswerAt(responses, id, pack, i);
    }
    if OnlyEmpty(front, id) && last.source == id && last.pack == pack {
      assert IsAnswerAt(responses, id, pack, |front|);
    }
  }

  lemma NewIsNew(identifiers: seq<Option<Identifier.Container>>, source: Identifier.Container, expire: nat)
    ensures IsNew(ForSeveral(identifiers, source, expire))
  {
    EntriesStartEmpty(identifiers, source);
  }

  /** Whatever answers arrive, in whatever order: a request is fulfilled exactly when as many of them
      count as identifiers were given, or when it has expired. */
  lemma WhenFulfilled(identifiers: seq<Option<Identifier.Container>>, source: Identifier.Container, expire: nat,
                      responses: seq<Response>, now: nat)
    ensures
      Checked(Updated(ForSeveral(identifiers, source, expire), responses), now).status == Fulfilled <==>
        || Counted(Entries(identifiers, source).Keys, responses) >= |identifiers| % 0x1_0000_0000
        || expire < now
  {
    var t := ForSeveral(identifiers, source, expire);
    NewIsNew(identifiers, source, expire);
    RunCounts(t, responses);
  }

  predicate HasAnswered(peer: nat, responses: seq<Response>) {
    exists i :: 0 <= i < |responses| && responses[i].source == peer
  }

  /** For a request to one peer: when that peer has answered, or when it has expired. Without an
      identifier nothing but expiry fulfils it. */
  lemma WhenOneFulfilled(identifier: Option<Identifier.Container>, expire: nat, responses: seq<Response>, now: nat)
    ensures
      Checked(Updated(ForOne(identifier, expire), responses), now).status == Fulfilled <==>
        || (identifier.Some? && HasAnswered(identifier.value.internal, responses))
        || expire < now
  {
    var t := ForOne(identifier, expire);
    RunCounts(t, responses);
    CountedOnce(t.entries.Keys, responses);
  }

  lemma {:induction false} CountedOnce(asked: set<nat>, responses: seq<Response>)
    ensures Counted(asked, responses) > 0 <==> exists i :: 0 <= i < |responses| && responses[i].source in asked
  {
    if responses != [] {
      var front, last := responses[..|responses| - 1], responses[|responses| - 1];
      CountedOnce(asked, front);
      if i :| 0 <= i < |responses| && responses[i].source in asked {
        if i < |front| { assert front[i] == responses[i]; }
        assert exists k :: 0 <= k < |responses| && responses[k].source in asked;
        if forall k :: 0 <= k < |front| ==> front[k].source !in asked {
          forall j | 0 <= j < |front| ensures responses[j].source !in asked {
            assert front[j] == responses[j];
          }
          assert Counts(asked, responses, |front|);
        }
      }
    }
  }

  /** If no answer is empty, no more of them count than were asked for, and they are as many as there are
      entries filled: a request is then fulfilled before it expires exactly when no identifier was left
      out or named twice, and all of them have answered. */
  lemma WhenAllAnswered(identifiers: seq<Option<Identifier.Container>>, source: Identifier.Container, expire: nat,
                        responses: seq<Response>, now: nat)
    requires |identifiers| < 0x1_0000_0000
    requires forall i :: 0 <= i < |responses| ==> responses[i].pack != []
    ensures
      var t := Updated(ForSeveral(identifiers, source, expire), responses);
      && t.received == |FilledIn(t)| <= t.expected
      && (Checked(t, now).status == Fulfilled <==>
            (AllEntered(identifiers, source) && FilledIn(t) == t.entries.Keys) || expire < now)
  {
    var initial := ForSeveral(identifiers, source, expire);
    NewIsNew(identifiers, source, expire);
    EntriesCount(identifiers, source);
    RunCounts(initial, responses);
    CountedAreFilled(initial, responses);
    var t := Updated(initial, responses);
    SubsetCount(FilledIn(t), t.entries.Keys);
    assert |t.entries| == |t.entries.Keys| == |initial.entries.Keys|;
  }

  lemma FilledAre(t: Tracker, id: nat)
    ensures id in FilledIn(t) <==> id in t.entries && t.entries[id] != []
  {
  }

  lemma {:induction false} CountedAreFilled(t: Tracker, responses: seq<Response>)
    requires IsNew(t)
    requires forall i :: 0 <= i < |responses| ==> responses[i].pack != []
    ensures Counted(t.entries.Keys, responses) == |FilledIn(Updated(t, responses))|
  {
    if responses == [] {
      assert FilledIn(t) == {};
    } else {
      hide Counted, OnlyEmpty, Answered, FilledIn;
      var front, last := responses[..|responses| - 1], responses[|responses| - 1];
      CountedAreFilled(t, front);
      EntriesFollow(t, front);
      UpdateCounts(Updated(t, front), last.source, last.pack, last.now);
      FilledAre(Updated(t, front), last.source);
      CountedLast(t.entries.Keys, responses);
    }
  }

  /** The failing side: any one of the peers that were asked can fulfil the request alone, by as many empty
      answers as identifiers were given, while no entry is filled. */
  lemma EmptyAnswersFulfil(identifiers: seq<Option<Identifier.Container>>, source: Identifier.Container, expire: nat,
                           id: nat, now: nat)
    requires |identifiers| < 0x1_0000_0000 && id in Entries(identifiers, source)
    ensures
      var t := Updated(ForSeveral(identifiers, source, expire), seq(|identifiers|, _ => Response(id, [], now)));
      FilledIn(t) == {} && Checked(t, now).status == Fulfilled
  {
    var t, responses := ForSeveral(identifiers, source, expire), seq(|identifiers|, _ => Response(id, [], now));
    NewIsNew(identifiers, source, expire);
    RunCounts(t, responses);
    AllCounted(t.entries.Keys, id, now, |identifiers|);
    WhenFulfilled(identifiers, source, expire, responses, now);
  }

  lemma {:induction false} AllCounted(asked: set<nat>, id: nat, now: nat, n: nat)
    requires id in asked
    ensures Counted(asked, seq(n, _ => Response(id, [], now))) == n
  {
    if n > 0 {
      assert seq(n, _ => Response(id, [], now))[..n - 1] == seq(n - 1, _ => Response(id, [], now));
      AllCounted(asked, id, now, n - 1);
    }
  }

  /** Completion does not last: a tracker that has answered with what it had answers again, with nothing
      in it, exactly if its count is the expected one or its time is over by then. */
  lemma CompletedIsNotFinal(t: Tracker, now: nat, later: nat)
    requires Checked(t, now).status == Fulfilled
    ensures
      var (once, answer) := Sent(t, now, true);
      && answer == Some(t.entries) && once.status == Completed && once.entries == map[]
      && Sent(once, later, true)
         == (once, if t.received == t.expected || t.expire < later then Some(map[]) else None)
  {
  }

  /** An attempt without a destination to answer as has no effect on a later one. */
  lemma UnaddressedIsRepeatable(t: Tracker, now: nat, later: nat)
    requires now <= later
    ensures Sent(t, now, false) == (Checked(t, now), None)
    ensures Sent(Sent(t, now, false).0, later, true) == Sent(t, later, true)
  {
  }

  /** Trackers that never got an empty answer always answer again; that they are not asked to is the work
      of whoever owns them. */
  lemma AnswersAgain(identifiers: seq<Option<Identifier.Container>>, source: Identifier.Container, expire: nat,
                     responses: seq<Response>, now: nat, later: nat)
    requires |identifiers| < 0x1_0000_0000 && now <= later
    requires forall i :: 0 <= i < |responses| ==> responses[i].pack != []
    requires Checked(Updated(ForSeveral(identifiers, source, expire), responses), now).status == Fulfilled
    ensures
      var once := Sent(Updated(ForSeveral(identifiers, source, expire), responses), now, true).0;
      Sent(once, later, true) == (once, Some(map[]))
  {
    WhenAllAnswered(identifiers, source, expire, responses, now);
    EntriesCount(identifiers, source);
    var t := Updated(ForSeveral(identifiers, source, expire), responses);
    NewIsNew(identifiers, source, expire);
    RunCounts(ForSeveral(identifiers, source, expire), responses);
    CompletedIsNotFinal(t, now, later);
    assert |t.entries| == |t.entries.Keys|;
  }

  // ---- The object ----

  class ResponseTracker {
    var status: ResponseStatus
    var expected: uint32
    var received: uint32
    var entries: map<nat, Text>
    const expire: nat

    function Value(): Tracker
      reads this
    {
      Tracker(status, expected, received, entries, expire)
    }

    constructor ForPeer(identifier: Option<Identifier.Container>, expire: nat)
      ensures Value() == ForOne(identifier, expire)
    {
      status, expected, received, this.expire := Unfulfilled, 1, 0, expire;
      entries := if identifier == None then map[] else map[identifier.value.internal := []];
    }

    constructor ForPeers(identifiers: seq<Option<Identifier.Container>>, source: Identifier.Container, expire: nat)
      ensures Value() == ForSeveral(identifiers, source, expire)
    {
      status, expected, received, this.expire := Unfulfilled, |identifiers| % 0x1_0000_0000, 0, expire;
      entries := map[];
      new;
      var i := 0;
      while i < |identifiers|
        invariant i <= |identifiers|
        invariant status == Unfulfilled && expected == |identifiers| % 0x1_0000_0000 && received == 0
        invariant entries == Entries(identifiers[..i], source)
      {
        assert identifiers[..i + 1][..i] == identifiers[..i];
        var identifier := identifiers[i];
        if !(identifier == None || Identifier.Same(identifier.value, source)) {
          if identifier.value.internal !in entries { entries := entries[identifier.value.internal := []]; }
        }
        i := i + 1;
      }
      assert identifiers[..i] == identifiers;
    }

    method UpdateResponse(source: nat, pack: Text, now: nat) returns (result: UpdateStatus)
      modifies this
      ensures (Value(), result) == Answered(old(Value()), source, pack, now)
    {
      if source !in entries || entries[source] != [] {
        if expire < now { return Expired; }
        return Unexpected;
      }
      entries := entries[source := pack];
      received := (received + 1) % 0x1_0000_0000;
      if received >= expected {
        status := Fulfilled;
        return NowFulfilled;
      }
      return Success;
    }

    method CheckResponseStatus(now: nat) returns (result: ResponseStatus)
      modifies `status
      ensures Value() == Checked(old(Value()), now) && result == status
    {
      if received == expected || expire < now { status := Fulfilled; }
      return status;
    }

    method SendFulfilledResponse(now: nat, addressed: bool) returns (answer: Option<map<nat, Text>>)
      modifies this
      ensures (Value(), answer) == Sent(old(Value()), now, addressed)
    {
      var checked := CheckResponseStatus(now);
      if checked != Fulfilled { return None; }
      answer := Some(entries);
      if !addressed { return None; }
      entries := map[];
      status := Completed;
    }
  }
}
