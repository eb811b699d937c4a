/** The requests that await responses, and the loop that answers them
    (src/Components/Await/TrackingManager.cpp). */
module TrackingManager {
  import opened Bytes
  import Identifier
  import R = ResponseTracker

  /** A request is due when its tracker is fulfilled or expired at the time it is looked at. */
  predicate Due(t: R.Tracker, now: nat) {
    R.Checked(t, now).status == R.Fulfilled
  }

  /** Enough answers have been counted, now or when the last one came, or the time is over. */
  lemma DueWhen(t: R.Tracker, now: nat)
    ensures Due(t, now) <==> t.received == t.expected || t.status == R.Fulfilled || t.expire < now
  {
  }

  /** The keys of what is due when the loop looks at every tracker once, each at its own time. */
  function DueKeys(awaiting: map<uint32, R.Tracker>, clock: uint32 -> nat): (due: set<uint32>)
    ensures due <= awaiting.Keys
  {
    set key <- awaiting | Due(awaiting[key], clock(key))
  }

  // ---- The object ----

  class TrackingManager {
    /** The first bytes of a digest of a request's text. */
    const hash: Text -> uint32
    var awaiting: map<uint32, R.ResponseTracker>

    /** No two keys share a tracker. */
    ghost predicate Valid()
      reads this
    {
      forall key1, key2 :: key1 in awaiting && key2 in awaiting && key1 != key2 ==> awaiting[key1] != awaiting[key2]
    }

    ghost function Trackers(): map<uint32, R.Tracker>
      reads this, awaiting.Values
    {
      map key <- awaiting :: awaiting[key].Value()
    }

    constructor (hash: Text -> uint32)
      ensures this.hash == hash && Valid() && Trackers() == map[]
    {
      this.hash, awaiting := hash, map[];
    }

    /** A request to several peers. One whose key is taken is dropped: the older one stays. */
    method PushRequest(pack: Text, identifiers: seq<Option<Identifier.Container>>, source: Identifier.Container,
                       expire: nat)
      returns (key: uint32)
      requires Valid()
      modifies this
      ensures Valid() && key == hash(pack)
      ensures Trackers() == if key in old(Trackers()) then old(Trackers())
                            else old(Trackers())[key := R.ForSeveral(identifiers, source, expire)]
      ensures forall t <- awaiting.Values :: t in old(awaiting.Values) || fresh(t)
    {
      key := hash(pack);
      var tracker := new R.ResponseTracker.ForPeers(identifiers, source, expire);
      if key !in awaiting { awaiting := awaiting[key := tracker]; }
    }

    method PushRequestToOne(pack: Text, identifier: Option<Identifier.Container>, expire: nat) returns (key: uint32)
      requires Valid()
      modifies this
      ensures Valid() && key == hash(pack)
      ensures Trackers() == if key in old(Trackers()) then old(Trackers())
                            else old(Trackers())[key := R.ForOne(identifier, expire)]
      ensures forall t <- awaiting.Values :: t in old(awaiting.Values) || fresh(t)
    {
      key := hash(pack);
      var tracker := new R.ResponseTracker.ForPeer(identifier, expire);
      if key !in awaiting { awaiting := awaiting[key := tracker]; }
    }

    method PushResponse(key: Option<uint32>, source: nat, pack: Text, now: nat) returns (ok: bool)
      requires Valid()
      modifies awaiting.Values
      ensures Valid() && awaiting == old(awaiting)
      ensures
        if key == None || key.value !in old(Trackers()) then !ok && Trackers() == old(Trackers())
        else
          var (next, status) := R.Answered(old(Trackers())[key.value], source, pack, now);
          && Trackers() == old(Trackers())[key.value := next]
          && (ok <==> status in {R.Success, R.NowFulfilled})
    {
      if key == None || key.value !in awaiting { return false; }
      var status := awaiting[key.value].UpdateResponse(source, pack, now);
      return status == R.Success || status == R.NowFulfilled;
    }

    /** What the loop has done when it has looked at some of the keys. */
    ghost predicate Processed(before: map<uint32, R.Tracker>, objects: map<uint32, R.ResponseTracker>,
                              visited: set<uint32>, clock: uint32 -> nat)
      reads this, objects.Values
    {
      && before.Keys == objects.Keys
      && (forall key1, key2 :: key1 in objects && key2 in objects && key1 != key2 ==> objects[key1] != objects[key2])
      && awaiting.Keys == before.Keys - DueAmong(before, visited, clock)
      && (forall key <- awaiting :: awaiting[key] == objects[key] && objects[key].Value() == before[key])
    }

    lemma ProcessedAll(before: map<uint32, R.Tracker>, objects: map<uint32, R.ResponseTracker>,
                       clock: uint32 -> nat)
      requires Processed(before, objects, before.Keys, clock)
      ensures Valid() && awaiting.Values <= objects.Values
      ensures Trackers() == before - DueKeys(before, clock)
      ensures DueAmong(before, before.Keys, clock) == DueKeys(before, clock)
    {
    }

    /** One turn of the loop. */
    method ProcessOne(key: uint32, clock: uint32 -> nat, addressed: bool, ghost before: map<uint32, R.Tracker>,
                      ghost objects: map<uint32, R.ResponseTracker>, ghost visited: set<uint32>)
      returns (due: bool, sent: bool)
      requires key in before && key !in visited && Processed(before, objects, visited, clock)
      modifies `awaiting, objects.Values
      ensures Processed(before, objects, visited + {key}, clock)
      ensures due <==> Due(before[key], clock(key))
      ensures sent <==> due && addressed
    {
      DueGrows(before, visited, key, clock);
      var tracker := awaiting[key];
      var status := tracker.CheckResponseStatus(clock(key));
      due := status == R.Fulfilled;
      sent := false;
      if due {
        var answer := tracker.SendFulfilledResponse(clock(key), addressed);
        sent := answer.Some?;
        awaiting := awaiting - {key};
      }
    }

    /** One pass over all trackers, in an order that is not specified: each one that is due is asked
        once to send its answer and is erased, whether that succeeds or not; all the others stay as
        they are. */
    method ProcessFulfilledRequests(clock: uint32 -> nat, addressed: uint32 -> bool)
      returns (attempts: seq<uint32>, sent: seq<uint32>)
      requires Valid()
      modifies this, awaiting.Values
      ensures Valid() && awaiting.Values <= old(awaiting.Values)
      ensures multiset(attempts) == multiset(DueKeys(old(Trackers()), clock))
      ensures Trackers() == old(Trackers()) - DueKeys(old(Trackers()), clock)
      ensures forall key <- old(Trackers()) ::
        var t := old(Trackers())[key];
        && (key in attempts <==> t.received == t.expected || t.status == R.Fulfilled || t.expire < clock(key))
        && (key in Trackers() <==> key !in attempts)
      ensures forall key :: key in sent <==> key in attempts && addressed(key)
    {
      attempts, sent := [], [];
      ghost var before, objects, visited: set<uint32> := Trackers(), awaiting, {};
      var remaining := awaiting.Keys;
      assert Processed(before, objects, visited, clock) && DueAmong(before, visited, clock) == {};
      hide Processed, DueAmong, Due, Tally;
      EmptyTally(addressed);
      while remaining != {}
        invariant remaining <= before.Keys && visited == before.Keys - remaining
        invariant Processed(before, objects, visited, clock)
        invariant Tally(attempts, sent, DueAmong(before, visited, clock), addressed)
        decreases |remaining|
      {
        var key :| key in remaining;
        DueGrows(before, visited, key, clock);
        var due, success := ProcessOne(key, clock, addressed(key), before, objects, visited);
        TallyGrows(attempts, sent, DueAmong(before, visited, clock), key, addressed);
        VisitGrows(before.Keys, remaining, key);
        if due { attempts := attempts + [key]; }
        if success { sent := sent + [key]; }
        visited, remaining := visited + {key}, remaining - {key};
      }
      assert visited == before.Keys;
      ProcessedAll(before, objects, clock);
      TallyMeans(attempts, sent, DueKeys(before, clock), addressed);
      AttemptedWhen(before, attempts, clock);
    }
  }

  lemma DueGrows(awaiting: map<uint32, R.Tracker>, visited: set<uint32>, key: uint32, clock: uint32 -> nat)
    requires key in awaiting && key !in visited
    ensures DueAmong(awaiting, visited + {key}, clock)
      == DueAmong(awaiting, visited, clock) + (if Due(awaiting[key], clock(key)) then {key} else {})
    ensures key !in DueAmong(awaiting, visited, clock)
  {
  }

  /** What is due has been attempted once, and what was attempted with an address has been sent. */
  ghost predicate Tally(attempts: seq<uint32>, sent: seq<uint32>, due: set<uint32>, addressed: uint32 -> bool) {
    && multiset(attempts) == multiset(due)
    && forall key :: key in sent <==> key in attempts && addressed(key)
  }

  lemma EmptyTally(addressed: uint32 -> bool)
    ensures Tally([], [], {}, addressed)
  {
  }

  lemma TallyMeans(attempts: seq<uint32>, sent: seq<uint32>, due: set<uint32>, addressed: uint32 -> bool)
    requires Tally(attempts, sent, due, addressed)
    ensures multiset(attempts) == multiset(due)
    ensures forall key :: key in sent <==> key in attempts && addressed(key)
  {
  }

  lemma TallyGrows(attempts: seq<uint32>, sent: seq<uint32>, due: set<uint32>, key: uint32, addressed: uint32 -> bool)
    requires Tally(attempts, sent, due, addressed) && key !in due
    ensures Tally(attempts, sent, due + {}, addressed)
    ensures Tally(attempts + [key], if addressed(key) then sent + [key] else sent, due + {key}, addressed)
  {
    assert due + {} == due;
    var next := if addressed(key) then sent + [key] else sent;
    forall k: uint32
      ensures k in next <==> k in attempts + [key] && addressed(k)
    {
    }
  }

  lemma AttemptedWhen(before: map<uint32, R.Tracker>, attempts: seq<uint32>, clock: uint32 -> nat)
    requires multiset(attempts) == multiset(DueKeys(before, clock))
    ensures forall key <- before ::
      var t := before[key];
      && (key in attempts <==> t.received == t.expected || t.status == R.Fulfilled || t.expire < clock(key))
      && (key in attempts <==> key in DueKeys(before, clock))
  {
    forall key <- before
      ensures key in attempts <==> key in DueKeys(before, clock)
    {
      assert key in multiset(attempts) <==> key in multiset(DueKeys(before, clock));
    }
    forall key <- before {
      DueWhen(before[key], clock(key));
    }
    hide Due;
  }

  lemma VisitGrows(all: set<uint32>, remaining: set<uint32>, key: uint32)
    requires key in remaining && remaining <= all
    ensures all - remaining + {key} == all - (remaining - {key}) && |remaining - {key}| < |remaining|
  {
  }

  /** What is due of the trackers that have been looked at. */
  function DueAmong(awaiting: map<uint32, R.Tracker>, keys: set<uint32>, clock: uint32 -> nat): set<uint32> {
    set key <- awaiting | key in keys && Due(awaiting[key], clock(key))
  }

  // ---- Answers over all runs ----

  /** The awaiting requests of a run, each with a number of its own, and the numbers of those that
      were asked to send their answer. */
  datatype History = History(awaiting: map<uint32, (nat, R.Tracker)>, pushed: nat, attempted: multiset<nat>,
                             dropped: set<nat>)

  const NOTHING: History := History(map[], 0, multiset{}, {})

  datatype Operation =
    | Request(key: uint32, tracker: R.Tracker)
    | Response(key: uint32, source: nat, pack: Text, now: nat)
    | Process(clock: uint32 -> nat)

  ghost function Trackers(h: History): map<uint32, R.Tracker> {
    map key <- h.awaiting :: h.awaiting[key].1
  }

  ghost function Apply(h: History, op: Operation): History {
    match op
    case Request(key, tracker) =>
      if key in h.awaiting then h.(pushed := h.pushed + 1, dropped := h.dropped + {h.pushed})
      else h.(awaiting := h.awaiting[key := (h.pushed, tracker)], pushed := h.pushed + 1)
    case Response(key, source, pack, now) =>
      if key !in h.awaiting then h
      else
        var (number, tracker) := h.awaiting[key];
        h.(awaiting := h.awaiting[key := (number, R.Answered(tracker, source, pack, now).0)])
    case Process(clock) =>
      var due := DueKeys(Trackers(h), clock);
      h.(awaiting := map key <- h.awaiting | key !in due :: h.awaiting[key],
         attempted := h.attempted + multiset(Numbers(h.awaiting, due)))
  }

  /** A history follows what the manager's methods do to its trackers. */
  lemma HistoryFollowsManager(h: History, op: Operation)
    ensures
      var before, after := Trackers(h), Trackers(Apply(h, op));
      match op
      case Request(key, tracker) => after == if key in before then before else before[key := tracker]
      case Response(key, source, pack, now) =>
        after == if key in before then before[key := R.Answered(before[key], source, pack, now).0] else before
      case Process(clock) => after == before - DueKeys(before, clock)
  {
  }

  /** The numbers of the requests under some keys. */
  ghost function Numbers(awaiting: map<uint32, (nat, R.Tracker)>, keys: set<uint32>): set<nat>
    requires keys <= awaiting.Keys
  {
    set key <- keys :: awaiting[key].0
  }

  ghost predicate IsWaiting(h: History, number: nat) {
    exists key <- h.awaiting :: h.awaiting[key].0 == number
  }

  /** The numbers of the waiting requests are their own, and neither answered nor dropped. */
  ghost predicate Distinct(h: History) {
    && (forall key <- h.awaiting :: h.awaiting[key].0 < h.pushed && h.awaiting[key].0 !in h.dropped
                                    && h.awaiting[key].0 !in h.attempted)
    && (forall key1, key2 :: key1 in h.awaiting && key2 in h.awaiting && key1 != key2 ==>
          h.awaiting[key1].0 != h.awaiting[key2].0)
    && (forall number <- h.attempted :: number < h.pushed && number !in h.dropped && h.attempted[number] == 1)
    && (forall number <- h.dropped :: number < h.pushed)
  }

  /** Every request that was ever made is in exactly one place: it still waits, it has been answered
      once, or it was dropped when it was made. */
  ghost predicate Accounted(h: History) {
    && Distinct(h)
    && forall number: nat :: number < h.pushed ==> number in h.attempted || number in h.dropped || IsWaiting(h, number)
  }

  lemma RequestDropped(h: History, key: uint32, tracker: R.Tracker)
    requires Accounted(h) && key in h.awaiting
    ensures Accounted(Apply(h, Request(key, tracker)))
  {
    StillWaiting(h, Apply(h, Request(key, tracker)));
    hide IsWaiting;
  }

  lemma RequestEntered(h: History, key: uint32, tracker: R.Tracker)
    requires Accounted(h) && key !in h.awaiting
    ensures Accounted(Apply(h, Request(key, tracker)))
  {
    var next := Apply(h, Request(key, tracker));
    StillWaiting(h, next);
    assert key in next.awaiting && next.awaiting[key].0 == h.pushed;
    assert IsWaiting(next, h.pushed);
    hide IsWaiting;
  }

  lemma StillWaiting(h: History, next: History)
    requires forall k <- h.awaiting :: k in next.awaiting && next.awaiting[k].0 == h.awaiting[k].0
    ensures forall number: nat :: IsWaiting(h, number) ==> IsWaiting(next, number)
  {
    forall number: nat | IsWaiting(h, number)
      ensures IsWaiting(next, number)
    {
      var k :| k in h.awaiting && h.awaiting[k].0 == number;
      assert k in next.awaiting && next.awaiting[k].0 == number;
    }
  }

  lemma ResponseAccounts(h: History, key: uint32, source: nat, pack: Text, now: nat)
    requires Accounted(h)
    ensures Accounted(Apply(h, Response(key, source, pack, now)))
  {
    var next := Apply(h, Response(key, source, pack, now));
    assert forall k <- h.awaiting :: k in next.awaiting && next.awaiting[k].0 == h.awaiting[k].0;
    StillWaiting(h, next);
    hide IsWaiting;
  }

  lemma ProcessAccounts(h: History, clock: uint32 -> nat)
    requires Accounted(h)
    ensures Accounted(Apply(h, Process(clock)))
  {
    var next := Apply(h, Process(clock));
    var due := DueKeys(Trackers(h), clock);
    var numbers := Numbers(h.awaiting, due);
    assert forall number :: number in next.attempted <==> number in h.attempted || number in numbers;
    assert forall number <- numbers :: number !in h.attempted;
    assert forall key <- next.awaiting :: next.awaiting[key].0 !in numbers;
    forall number: nat | number < next.pushed
      ensures number in next.attempted || number in next.dropped || IsWaiting(next, number)
    {
      if IsWaiting(h, number) {
        var k :| k in h.awaiting && h.awaiting[k].0 == number;
        if k in due {
          assert number in numbers;
        } else {
          assert k in next.awaiting && next.awaiting[k].0 == number;
        }
      }
    }
  }

  lemma OperationAccounts(h: History, op: Operation)
    requires Accounted(h)
    ensures Accounted(Apply(h, op))
  {
    hide Accounted, Apply;
    match op {
      case Request(key, tracker) =>
        if key in h.awaiting { RequestDropped(h, key, tracker); } else { RequestEntered(h, key, tracker); }
      case Response(key, source, pack, now) => ResponseAccounts(h, key, source, pack, now);
      case Process(clock) => ProcessAccounts(h, clock);
    }
  }

  ghost function Run(ops: seq<Operation>): History {
    if ops == [] then NOTHING else Apply(Run(ops[..|ops| - 1]), ops[|ops| - 1])
  }

  lemma {:induction false} RunAccounts(ops: seq<Operation>)
    ensures Accounted(Run(ops))
  {
    if ops != [] {
      RunAccounts(ops[..|ops| - 1]);
      OperationAccounts(Run(ops[..|ops| - 1]), ops[|ops| - 1]);
    }
  }

  /** Over every run no request is answered twice, and none is lost: after a pass at a time at which
      everything has expired, every request that was not dropped has been answered once. */
  lemma AnsweredOnce(ops: seq<Operation>, clock: uint32 -> nat)
    ensures forall number: nat :: Run(ops).attempted[number] <= 1
    ensures
      var h := Run(ops);
      (forall key <- h.awaiting :: h.awaiting[key].1.expire < clock(key)) ==>
        forall number: nat :: number < h.pushed ==>
          (Apply(h, Process(clock)).attempted[number] == 1 <==> number !in h.dropped)
  {
    hide Run, Apply, Distinct;
    RunAccounts(ops);
    AtMostOnce(Run(ops));
    ProcessAccounts(Run(ops), clock);
    if forall key <- Run(ops).awaiting :: Run(ops).awaiting[key].1.expire < clock(key) {
      NothingWaits(Run(ops), clock);
      AtMostOnce(Apply(Run(ops), Process(clock)));
    }
  }

  lemma AtMostOnce(h: History)
    requires Accounted(h)
    ensures forall number: nat :: h.attempted[number] <= 1
    ensures forall number: nat :: number in h.attempted ==> number !in h.dropped
  {
    assert forall number: nat :: number !in h.attempted ==> h.attempted[number] == 0;
  }

  lemma NothingWaits(h: History, clock: uint32 -> nat)
    requires forall key <- h.awaiting :: h.awaiting[key].1.expire < clock(key)
    ensures
      var next := Apply(h, Process(clock));
      next.pushed == h.pushed && next.dropped == h.dropped && forall number: nat :: !IsWaiting(next, number)
  {
    assert DueKeys(Trackers(h), clock) == h.awaiting.Keys;
  }

  // ---- When a request is answered ----

  /** The responses to the request under a key, of all that happens. */
  function ResponsesTo(key: uint32, ops: seq<Operation>): seq<R.Response> {
    if ops == [] then []
    else
      var front, last := ResponsesTo(key, ops[..|ops| - 1]), ops[|ops| - 1];
      if last.Response? && last.key == key then front + [R.Response(last.source, last.pack, last.now)] else front
  }

  ghost function RunFrom(h: History, ops: seq<Operation>): History {
    if ops == [] then h else Apply(RunFrom(h, ops[..|ops| - 1]), ops[|ops| - 1])
  }

  /** The request is due, with the responses so far, in a pass of the loop. */
  ghost predicate DueIn(tracker: R.Tracker, key: uint32, ops: seq<Operation>, i: nat)
    requires i < |ops|
  {
    ops[i].Process? && Due(R.Updated(tracker, ResponsesTo(key, ops[..i])), ops[i].clock(key))
  }

  /** Whatever happens after a request was entered: it is answered exactly if it was due in some pass, and
      until then it waits with the responses that came for it. */
  lemma {:induction false} AnsweredWhenDue(h: History, key: uint32, tracker: R.Tracker, ops: seq<Operation>)
    requires Accounted(h) && key !in h.awaiting
    ensures
      var now := RunFrom(Apply(h, Request(key, tracker)), ops);
      && Accounted(now) && h.pushed < now.pushed
      && (h.pushed in now.attempted <==> exists i :: 0 <= i < |ops| && DueIn(tracker, key, ops, i))
      && (h.pushed !in now.attempted ==>
            key in now.awaiting && now.awaiting[key] == (h.pushed, R.Updated(tracker, ResponsesTo(key, ops))))
  {
    var start := Apply(h, Request(key, tracker));
    if ops == [] {
      OperationAccounts(h, Request(key, tracker));
      NotAnsweredYet(h);
    } else {
      var front, last := ops[..|ops| - 1], ops[|ops| - 1];
      AnsweredWhenDue(h, key, tracker, front);
      OperationAccounts(RunFrom(start, front), last);
      DueBefore(tracker, key, ops);
      hide Accounted, DueIn;
      StepAnswers(RunFrom(start, front), h.pushed, key, R.Updated(tracker, ResponsesTo(key, front)), last);
    }
  }

  lemma NotAnsweredYet(h: History)
    requires Accounted(h)
    ensures h.pushed !in h.attempted
  {
  }

  lemma DueBefore(tracker: R.Tracker, key: uint32, ops: seq<Operation>)
    requires ops != []
    ensures
      var front := ops[..|ops| - 1];
      (exists i :: 0 <= i < |ops| && DueIn(tracker, key, ops, i)) <==>
        || (exists i :: 0 <= i < |front| && DueIn(tracker, key, front, i))
        || DueIn(tracker, key, ops, |front|)
  {
    hide Due;
    var front := ops[..|ops| - 1];
    forall i | 0 <= i < |front| ensures DueIn(tracker, key, ops, i) <==> DueIn(tracker, key, front, i) {
      assert front[..i] == ops[..i];
    }
    if i :| 0 <= i < |ops| && DueIn(tracker, key, ops, i) {
      if i < |front| { assert DueIn(tracker, key, front, i); }
    }
  }

  /** What one operation does to a request that waits, or that was answered. */
  lemma StepAnswers(h: History, number: nat, key: uint32, tracker: R.Tracker, op: Operation)
    requires Accounted(h)
    requires number !in h.attempted ==> key in h.awaiting && h.awaiting[key] == (number, tracker)
    ensures
      var next := Apply(h, op);
      && (number in next.attempted <==>
            number in h.attempted || (op.Process? && Due(tracker, op.clock(key))))
      && (number !in next.attempted ==>
            && key in next.awaiting
            && next.awaiting[key]
               == (number, if op.Response? && op.key == key then R.Answered(tracker, op.source, op.pack, op.now).0
                           else tracker))
  {
    hide R.Answered, R.Checked;
    if op.Process? {
      var due := DueKeys(Trackers(h), op.clock);
      var numbers := Numbers(h.awaiting, due);
      assert number in Apply(h, op).attempted <==> number in h.attempted || number in numbers;
    }
  }

  /** In a pass of the loop, enough of the responses to a request to several peers count, or its time is over. */
  ghost predicate SeveralDueIn(identifiers: seq<Option<Identifier.Container>>, source: Identifier.Container,
                               expire: nat, key: uint32, ops: seq<Operation>, i: nat)
    requires i < |ops|
  {
    ops[i].Process? &&
    (|| R.Counted(R.Entries(identifiers, source).Keys, ResponsesTo(key, ops[..i])) >= |identifiers| % 0x1_0000_0000
     || expire < ops[i].clock(key))
  }

  /** A request to several peers is answered exactly if there is such a pass. */
  lemma SeveralAnsweredWhen(h: History, key: uint32, identifiers: seq<Option<Identifier.Container>>,
                            source: Identifier.Container, expire: nat, ops: seq<Operation>)
    requires Accounted(h) && key !in h.awaiting
    ensures
      var now := RunFrom(Apply(h, Request(key, R.ForSeveral(identifiers, source, expire))), ops);
      h.pushed in now.attempted <==>
        exists i :: 0 <= i < |ops| && SeveralDueIn(identifiers, source, expire, key, ops, i)
  {
    var tracker := R.ForSeveral(identifiers, source, expire);
    AnsweredWhenDue(h, key, tracker, ops);
    hide RunFrom, Apply, Accounted, R.ForSeveral, DueIn, SeveralDueIn;
    forall i | 0 <= i < |ops|
      ensures DueIn(tracker, key, ops, i) <==> SeveralDueIn(identifiers, source, expire, key, ops, i)
    {
      SeveralDue(identifiers, source, expire, key, ops, i);
    }
  }

  lemma SeveralDue(identifiers: seq<Option<Identifier.Container>>, source: Identifier.Container, expire: nat,
                   key: uint32, ops: seq<Operation>, i: nat)
    requires i < |ops|
    ensures DueIn(R.ForSeveral(identifiers, source, expire), key, ops, i)
      <==> SeveralDueIn(identifiers, source, expire, key, ops, i)
  {
    hide R.Updated, R.Checked, R.Counted, R.Entries, ResponsesTo, R.ForSeveral;
    if ops[i].Process? {
      R.WhenFulfilled(identifiers, source, expire, ResponsesTo(key, ops[..i]), ops[i].clock(key));
    }
  }

  /** In a pass of the loop, the one peer that was asked has answered, or the time is over. */
  ghost predicate OneDueIn(identifier: Option<Identifier.Container>, expire: nat, key: uint32, ops: seq<Operation>,
                           i: nat)
    requires i < |ops|
  {
    ops[i].Process? &&
    (|| (identifier.Some? && IsAnswered(key, identifier.value.internal, ops[..i]))
     || expire < ops[i].clock(key))
  }

  /** A response of this peer has come for the request under a key. */
  predicate IsAnswered(key: uint32, peer: nat, ops: seq<Operation>) {
    exists j :: 0 <= j < |ops| && ops[j].Response? && ops[j].key == key && ops[j].source == peer
  }

  /** A request to one peer is answered exactly if there is such a pass. */
  lemma OneAnsweredWhen(h: History, key: uint32, identifier: Option<Identifier.Container>, expire: nat,
                        ops: seq<Operation>)
    requires Accounted(h) && key !in h.awaiting
    ensures
      var now := RunFrom(Apply(h, Request(key, R.ForOne(identifier, expire))), ops);
      h.pushed in now.attempted <==> exists i :: 0 <= i < |ops| && OneDueIn(identifier, expire, key, ops, i)
  {
    var tracker := R.ForOne(identifier, expire);
    AnsweredWhenDue(h, key, tracker, ops);
    hide RunFrom, Apply, Accounted, R.ForOne, DueIn, OneDueIn;
    forall i | 0 <= i < |ops|
      ensures DueIn(tracker, key, ops, i) <==> OneDueIn(identifier, expire, key, ops, i)
    {
      OneDue(identifier, expire, key, ops, i);
    }
  }

  lemma OneDue(identifier: Option<Identifier.Container>, expire: nat, key: uint32, ops: seq<Operation>, i: nat)
    requires i < |ops|
    ensures DueIn(R.ForOne(identifier, expire), key, ops, i) <==> OneDueIn(identifier, expire, key, ops, i)
  {
    hide R.Updated, R.Checked, ResponsesTo, R.ForOne, IsAnswered, R.HasAnswered;
    if ops[i].Process? {
      R.WhenOneFulfilled(identifier, expire, ResponsesTo(key, ops[..i]), ops[i].clock(key));
      if identifier.Some? { AnswersAmong(key, identifier.value.internal, ops[..i]); }
    }
  }

  lemma {:induction false} AnswersAmong(key: uint32, peer: nat, ops: seq<Operation>)
    ensures R.HasAnswered(peer, ResponsesTo(key, ops)) <==> IsAnswered(key, peer, ops)
  {
    if ops != [] {
      var front, last := ops[..|ops| - 1], ops[|ops| - 1];
      AnswersAmong(key, peer, front);
      AnsweredLast(key, peer, ops);
      if last.Response? && last.key == key {
        HasAnsweredLast(peer, ResponsesTo(key, front), R.Response(last.source, last.pack, last.now));
      }
      hide IsAnswered, R.HasAnswered;
    }
  }

  lemma AnsweredLast(key: uint32, peer: nat, ops: seq<Operation>)
    requires ops != []
    ensures
      var front, last := ops[..|ops| - 1], ops[|ops| - 1];
      IsAnswered(key, peer, ops)
      <==> IsAnswered(key, peer, front) || (last.Response? && last.key == key && last.source == peer)
  {
    var front := ops[..|ops| - 1];
    if j :| 0 <= j < |front| && front[j].Response? && front[j].key == key && front[j].source == peer {
      assert ops[j] == front[j];
    }
    if j :| 0 <= j < |ops| && ops[j].Response? && ops[j].key == key && ops[j].source == peer {
      if j < |front| { assert ops[j] == front[j]; }
    }
  }

  lemma HasAnsweredLast(peer: nat, before: seq<R.Response>, last: R.Response)
    ensures R.HasAnswered(peer, before + [last]) <==> R.HasAnswered(peer, before) || last.source == peer
  {
    var now := before + [last];
    assert now[|before|] == last;
    if i :| 0 <= i < |before| && before[i].source == peer { assert now[i] == before[i]; }
    if i :| 0 <= i < |now| && now[i].source == peer {
      if i < |before| { assert now[i] == before[i]; }
    }
  }
}
