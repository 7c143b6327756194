/** The life of a command over whole runs: the dispatcher's pending table, the manager's tracked table and the
    events pushed for each command, under a queue that may refuse. */
module CommandLifecycle {
  import opened Common
  import opened Counting
  import opened CoreTypes
  import opened CommandDispatcher

  datatype Tracked = Tracked(command: CoreCommand, retriesLeft: u8)

  datatype Tables = Tables(pending: map<u32, CoreCommand>, tracked: map<u32, Tracked>)

  const NO_COMMANDS: Tables := Tables(map[], map[])

  /** What holds between calls: every tracked command is pending, under its own id. */
  ghost predicate Sane(t: Tables) {
    && WellKeyed(t.pending) && |t.pending| <= MAX_PENDING
    && t.tracked.Keys <= t.pending.Keys
    && (forall id | id in t.tracked ::
          t.tracked[id].command.correlationId == id && Submittable(t.tracked[id].command))
  }

  // ---------------------------------------------------------------------------------------------
  // The operations. `room` is how many of the call's pushes the event queue admits. The queue's only consumer
  // is the thread making the call, so whatever other producers do meanwhile, once a push is refused every
  // later push of the same call is refused too: what is admitted is a prefix.
  // ---------------------------------------------------------------------------------------------

  datatype Outcome = Outcome(tables: Tables, err: CoreError, pushed: seq<CoreEvent>)

  function Admit(room: nat, e: CoreEvent): seq<CoreEvent> {
    if room > 0 then [e] else []
  }

  /** `submit_command_internal`. */
  function Submit(t: Tables, c: CoreCommand, maxRetries: u8, room: nat): Outcome {
    var err := SubmitVerdict(t.pending, c);
    if err != Ok then Outcome(t, err, [])
    else
      var id := c.correlationId;
      Outcome(Tables(t.pending[id := c], t.tracked[id := Tracked(c, maxRetries)]),
              if room > 0 then Ok else NoCapacity, Admit(room, RequestEvent(c)))
  }

  /** `resolve_command_result`. */
  function Resolve(t: Tables, result: CommandResult, room: nat): Outcome {
    var id := result.correlationId;
    if id == NO_CORRELATION_ID then Outcome(t, InvalidArgument, [])
    else if id !in t.pending then Outcome(t, NotFound, [])
    else
      Outcome(Tables(t.pending - {id}, t.tracked - {id}), if room > 0 then Ok else NoCapacity,
              Admit(room, TerminalEvent(t.pending[id], ResultEventType(result.kind), result.completedAtMs)))
  }

  /** What `process_timeouts` does with one expired command, once the dispatcher has dropped it: retry while
      the tracked entry has retries, otherwise (or when the retry cannot be queued) give it up. */
  function ExpireOne(t: Tables, timeoutEvent: CoreEvent, nowMs: u32, room: nat): Outcome {
    var id := timeoutEvent.correlationId;
    if id in t.tracked && t.tracked[id].retriesLeft > 0 then
      var again := t.tracked[id].command.(issuedAtMs := nowMs);
      var err := SubmitVerdict(t.pending, again);
      var pending := if err == Ok then t.pending[id := again] else t.pending;
      if err == Ok && room > 0 then
        Outcome(Tables(pending, t.tracked[id := Tracked(again, t.tracked[id].retriesLeft - 1)]), Ok,
                [RequestEvent(again)])
      else
        Outcome(Tables(pending, t.tracked - {id}), err, Admit(room, timeoutEvent))
    else
      Outcome(Tables(t.pending, t.tracked - {id}), NotFound, Admit(room, timeoutEvent))
  }

  function ExpireEach(t: Tables, events: seq<CoreEvent>, nowMs: u32, room: nat): (r: Outcome)
    ensures |r.pushed| <= room
    decreases |events|
  {
    if events == [] then Outcome(t, Ok, [])
    else
      var n := |events| - 1;
      var before := ExpireEach(t, events[..n], nowMs, room);
      var last := ExpireOne(before.tables, events[n], nowMs, room - |before.pushed|);
      Outcome(last.tables, Ok, before.pushed + last.pushed)
  }

  lemma PushesAtMostOne(t: Tables, timeoutEvent: CoreEvent, nowMs: u32, room: nat)
    ensures |ExpireOne(t, timeoutEvent, nowMs, room).pushed| <= 1
  {
  }

  /** The tables once the dispatcher has dropped the commands it reports as expired. */
  function Dropped(t: Tables, order: seq<u32>): Tables {
    Tables(map id | id in t.pending && id !in order :: t.pending[id], t.tracked)
  }

  /** `process_timeouts`, `order` being the order in which the dispatcher reports the expired commands. */
  function ProcessTimeouts(t: Tables, nowMs: u32, order: seq<u32>, room: nat): Outcome {
    ExpireEach(Dropped(t, order), TimeoutEvents(t.pending, order, nowMs), nowMs, room)
  }

  // ---------------------------------------------------------------------------------------------
  // Runs
  // ---------------------------------------------------------------------------------------------

  datatype Op =
    | SubmitOp(c: CoreCommand, maxRetries: u8, room: nat)
    | ResolveOp(result: CommandResult, room: nat)
    | TimeoutsOp(nowMs: u32, timeoutMs: u32, order: seq<u32>, room: nat)

  ghost predicate Enabled(t: Tables, op: Op) {
    op.TimeoutsOp? ==> IsExpiryOrder(t.pending, op.nowMs, op.timeoutMs, op.order, MAX_PENDING)
  }

  function Perform(t: Tables, op: Op): Outcome {
    match op
    case SubmitOp(c, maxRetries, room) => Submit(t, c, maxRetries, room)
    case ResolveOp(result, room) => Resolve(t, result, room)
    case TimeoutsOp(nowMs, _, order, room) => ProcessTimeouts(t, nowMs, order, room)
  }

  /** Whether the operation makes the dispatcher accept a new command under `id`. */
  predicate Accepts(t: Tables, op: Op, id: u32) {
    op.SubmitOp? && op.c.correlationId == id && SubmitVerdict(t.pending, op.c) == Ok
  }

  predicate IsRequest(e: CoreEvent, id: u32) {
    e.correlationId == id
    && (e.kind == CommandSetDevicePowerRequested || e.kind == CommandRefreshNetworkRequested)
  }

  predicate IsTerminal(e: CoreEvent, id: u32) {
    e.correlationId == id
    && (e.kind == CommandResultSuccess || e.kind == CommandResultTimeout || e.kind == CommandResultFailed)
  }

  function CountRequests(events: seq<CoreEvent>, id: u32): nat {
    if events == [] then 0
    else CountRequests(events[..|events| - 1], id) + if IsRequest(events[|events| - 1], id) then 1 else 0
  }

  function CountTerminals(events: seq<CoreEvent>, id: u32): nat {
    if events == [] then 0
    else CountTerminals(events[..|events| - 1], id) + if IsTerminal(events[|events| - 1], id) then 1 else 0
  }

  lemma {:induction false} CountsAdd(a: seq<CoreEvent>, b: seq<CoreEvent>, id: u32)
    ensures CountRequests(a + b, id) == CountRequests(a, id) + CountRequests(b, id)
    ensures CountTerminals(a + b, id) == CountTerminals(a, id) + CountTerminals(b, id)
  {
    if b == [] {
      assert a + b == a;
    } else {
      var n := |b| - 1;
      CountsAdd(a, b[..n], id);
      assert (a + b)[..|a + b| - 1] == a + b[..n];
    }
  }

  /** What has happened to `id` since it was last accepted: its retry allowance (None if never accepted) and
      the requests, terminal events and expiries counted since. */
  datatype Life = Life(allowance: Option<u8>, requests: nat, terminals: nat, expiries: nat)

  const UNBORN: Life := Life(None, 0, 0, 0)

  function Lived(life: Life, t: Tables, op: Op, id: u32): Life {
    var born := if Accepts(t, op, id) then Life(Some(op.maxRetries), 0, 0, 0) else life;
    var pushed := Perform(t, op).pushed;
    Life(born.allowance, born.requests + CountRequests(pushed, id), born.terminals + CountTerminals(pushed, id),
         born.expiries + if op.TimeoutsOp? && id in op.order then 1 else 0)
  }

  ghost predicate Run(trace: seq<Tables>, ops: seq<Op>) {
    && |trace| == |ops| + 1
    && trace[0] == NO_COMMANDS
    && (forall i | 0 <= i < |ops| :: Enabled(trace[i], ops[i]) && trace[i + 1] == Perform(trace[i], ops[i]).tables)
  }

  function LifeAt(trace: seq<Tables>, ops: seq<Op>, i: nat, id: u32): Life
    requires |trace| == |ops| + 1 && i <= |ops|
  {
    if i == 0 then UNBORN else Lived(LifeAt(trace, ops, i - 1, id), trace[i - 1], ops[i - 1], id)
  }

  /** How many expiries the command can still go through: the measure each expiry consumes. */
  function Patience(t: Tables, id: u32): nat {
    if id !in t.pending then 0 else if id in t.tracked then t.tracked[id].retriesLeft + 1 else 1
  }

  /** How many requests a command may be sent at most. */
  function Budget(life: Life): nat {
    if life.allowance.Some? then 1 + life.allowance.value else 0
  }

  function RetriesLeft(t: Tables, id: u32): nat {
    if id in t.tracked then t.tracked[id].retriesLeft else 0
  }

  ghost predicate LifeSane(t: Tables, life: Life, id: u32) {
    && (id in t.pending ==> life.allowance.Some? && life.terminals == 0)
    && life.terminals <= (if life.allowance.Some? then 1 else 0)
    && life.requests + RetriesLeft(t, id) <= Budget(life)
    && life.expiries + Patience(t, id) <= Budget(life)
  }

  // ---------------------------------------------------------------------------------------------
  // The expiry loop
  // ---------------------------------------------------------------------------------------------

  /** Between two iterations: the ids still to be handled are out of the dispatcher, and leave room in it. */
  ghost predicate MidSane(t: Tables, rest: seq<u32>) {
    && WellKeyed(t.pending) && |t.pending| + |rest| <= MAX_PENDING
    && NoDuplicates(rest)
    && (forall id | id in rest :: id !in t.pending)
    && t.tracked.Keys <= t.pending.Keys + SetOf(rest)
    && (forall id | id in t.tracked ::
          t.tracked[id].command.correlationId == id && Submittable(t.tracked[id].command))
  }

  ghost predicate Untouched(t: Tables, after: Tables, pushed: seq<CoreEvent>, id: u32) {
    && (id in t.pending <==> id in after.pending)
    && (id in t.tracked <==> id in after.tracked)
    && (id in t.tracked ==> after.tracked[id] == t.tracked[id])
    && CountRequests(pushed, id) == 0 && CountTerminals(pushed, id) == 0
  }

  /** The three fates of an expired command: sent again; still waiting but no longer tracked, because the queue
      refused the retry and therefore the timeout event too; or gone with at most one terminal event. */
  ghost predicate ExpiredFate(t: Tables, after: Tables, pushed: seq<CoreEvent>, id: u32) {
    if RetriesLeft(t, id) > 0 then
      && id in after.pending && CountTerminals(pushed, id) == 0
      && (if id in after.tracked
          then after.tracked[id].retriesLeft == t.tracked[id].retriesLeft - 1 && CountRequests(pushed, id) == 1
          else CountRequests(pushed, id) == 0)
    else
      id !in after.pending && id !in after.tracked && CountRequests(pushed, id) == 0 && CountTerminals(pushed, id) <= 1
  }

  lemma CountSingle(e: CoreEvent, id: u32)
    ensures CountRequests([e], id) == if IsRequest(e, id) then 1 else 0
    ensures CountTerminals([e], id) == if IsTerminal(e, id) then 1 else 0
  {
    assert [e][..0] == [];
  }

  lemma CountAdmitted(room: nat, e: CoreEvent, id: u32)
    ensures CountRequests(Admit(room, e), id) == if room > 0 && IsRequest(e, id) then 1 else 0
    ensures CountTerminals(Admit(room, e), id) == if room > 0 && IsTerminal(e, id) then 1 else 0
  {
    CountSingle(e, id);
  }

  /** Dropping the tracked entry, or resubmitting the command, both settle the first id of the list. */
  lemma DropKeepsMidSane(t: Tables, rest: seq<u32>)
    requires rest != [] && MidSane(t, rest)
    ensures MidSane(Tables(t.pending, t.tracked - {rest[0]}), rest[1..])
  {
    hide WellKeyed, Submittable;
    RestOfList(rest);
    hide NoDuplicates, SetOf;
  }

  lemma ResubmitKeepsMidSane(t: Tables, c: CoreCommand, tracked: map<u32, Tracked>, rest: seq<u32>)
    requires rest != [] && MidSane(t, rest) && c.correlationId == rest[0] && Submittable(c)
    requires tracked.Keys <= t.tracked.Keys + {rest[0]}
    requires forall id | id in tracked :: tracked[id].command.correlationId == id && Submittable(tracked[id].command)
    ensures MidSane(Tables(t.pending[rest[0] := c], tracked), rest[1..])
  {
    hide Submittable, SetOf, NoDuplicates;
    RestOfList(rest);
    PendingGrowsByOne(t.pending, c);
    var pending := t.pending[rest[0] := c];
    assert forall other | other in rest[1..] :: other !in pending;
  }

  lemma PendingGrowsByOne(pending: map<u32, CoreCommand>, c: CoreCommand)
    requires WellKeyed(pending) && Submittable(c)
    ensures WellKeyed(pending[c.correlationId := c])
    ensures |pending[c.correlationId := c]| == |pending| + if c.correlationId in pending then 0 else 1
  {
    assert pending[c.correlationId := c].Keys == pending.Keys + {c.correlationId};
  }

  lemma RestOfList(rest: seq<u32>)
    requires rest != [] && NoDuplicates(rest)
    ensures SetOf(rest) == SetOf(rest[1..]) + {rest[0]} && NoDuplicates(rest[1..])
    ensures forall other | other in rest[1..] :: other in rest && other != rest[0]
  {
  }

  lemma ExpireOneKeepsMidSane(t: Tables, e: CoreEvent, nowMs: u32, room: nat, rest: seq<u32>)
    requires rest != [] && MidSane(t, rest) && e.correlationId == rest[0]
    ensures MidSane(ExpireOne(t, e, nowMs, room).tables, rest[1..])
    ensures |ExpireOne(t, e, nowMs, room).pushed| <= room
  {
    var id := rest[0];
    DropKeepsMidSane(t, rest);
    if id in t.tracked && t.tracked[id].retriesLeft > 0 {
      ResubmissionAccepted(t, nowMs, rest);
      var again := t.tracked[id].command.(issuedAtMs := nowMs);
      ResubmitKeepsMidSane(t, again, t.tracked[id := Tracked(again, t.tracked[id].retriesLeft - 1)], rest);
      ResubmitKeepsMidSane(t, again, t.tracked - {id}, rest);
    }
  }

  /** Resubmitting an expired command never fails. */
  lemma ResubmissionAccepted(t: Tables, nowMs: u32, rest: seq<u32>)
    requires rest != [] && MidSane(t, rest) && rest[0] in t.tracked
    ensures SubmitVerdict(t.pending, t.tracked[rest[0]].command.(issuedAtMs := nowMs)) == Ok
  {
    assert rest[0] in rest;
  }

  lemma MidSaneHead(t: Tables, rest: seq<u32>)
    requires rest != [] && MidSane(t, rest)
    ensures rest[0] !in t.pending
    ensures rest[0] in t.tracked ==> t.tracked[rest[0]].command.correlationId == rest[0]
                                     && Submittable(t.tracked[rest[0]].command)
  {
    assert rest[0] in rest;
  }

  lemma RequestCounts(c: CoreCommand)
    requires Submittable(c)
    ensures CountRequests([RequestEvent(c)], c.correlationId) == 1
    ensures CountTerminals([RequestEvent(c)], c.correlationId) == 0
  {
    CountSingle(RequestEvent(c), c.correlationId);
  }

  lemma NothingCounted(id: u32)
    ensures CountRequests([], id) == 0 && CountTerminals([], id) == 0
  {
  }

  lemma RetryFate(t: Tables, e: CoreEvent, nowMs: u32, room: nat)
    requires RetriesLeft(t, e.correlationId) > 0
    requires var c := t.tracked[e.correlationId].command; c.correlationId == e.correlationId && Submittable(c)
    requires SubmitVerdict(t.pending, t.tracked[e.correlationId].command.(issuedAtMs := nowMs)) == Ok
    ensures var r := ExpireOne(t, e, nowMs, room); ExpiredFate(t, r.tables, r.pushed, e.correlationId)
  {
    var again := t.tracked[e.correlationId].command.(issuedAtMs := nowMs);
    assert Submittable(again);
    RequestCounts(again);
    NothingCounted(e.correlationId);
    hide CountRequests, CountTerminals, RequestEvent, Submittable, SubmitVerdict;
  }

  lemma GiveUpFate(t: Tables, e: CoreEvent, nowMs: u32, room: nat)
    requires e.kind == CommandResultTimeout && RetriesLeft(t, e.correlationId) == 0 && e.correlationId !in t.pending
    ensures var r := ExpireOne(t, e, nowMs, room); ExpiredFate(t, r.tables, r.pushed, e.correlationId)
  {
    CountAdmitted(room, e, e.correlationId);
    hide CountRequests, CountTerminals, RequestEvent, Admit;
  }

  lemma ExpireOneFate(t: Tables, e: CoreEvent, nowMs: u32, room: nat, rest: seq<u32>)
    requires rest != [] && MidSane(t, rest) && e.correlationId == rest[0] && e.kind == CommandResultTimeout
    ensures var r := ExpireOne(t, e, nowMs, room); ExpiredFate(t, r.tables, r.pushed, rest[0])
  {
    hide ExpireOne, ExpiredFate, MidSane;
    MidSaneHead(t, rest);
    if RetriesLeft(t, rest[0]) > 0 {
      ResubmissionAccepted(t, nowMs, rest);
      RetryFate(t, e, nowMs, room);
    } else {
      GiveUpFate(t, e, nowMs, room);
    }
  }

  lemma ExpireOneSparesOthers(t: Tables, e: CoreEvent, nowMs: u32, room: nat, id: u32)
    requires e.correlationId != id
    requires e.correlationId in t.tracked ==> t.tracked[e.correlationId].command.correlationId == e.correlationId
    ensures var r := ExpireOne(t, e, nowMs, room); Untouched(t, r.tables, r.pushed, id)
  {
    CountAdmitted(room, e, id);
    if e.correlationId in t.tracked {
      CountSingle(RequestEvent(t.tracked[e.correlationId].command.(issuedAtMs := nowMs)), id);
    }
  }

  lemma TimeoutEventsAt(pending: map<u32, CoreCommand>, order: seq<u32>, nowMs: u32)
    requires order != [] && WellKeyed(pending) && forall id | id in order :: id in pending
    ensures var events := TimeoutEvents(pending, order, nowMs);
            var n := |order| - 1;
            && events[..n] == TimeoutEvents(pending, order[..n], nowMs)
            && events[n] == TerminalEvent(pending[order[n]], CommandResultTimeout, nowMs)
            && events[n].correlationId == order[n]
  {
    assert order[|order| - 1] in order;
  }

  /** Splitting off the last step of the loop. */
  lemma LastExpiry(pending: map<u32, CoreCommand>, t: Tables, order: seq<u32>, nowMs: u32, room: nat)
    returns (before: Outcome, last: Outcome)
    requires order != [] && WellKeyed(pending) && forall id | id in order :: id in pending
    ensures var n := |order| - 1;
            var e := TerminalEvent(pending[order[n]], CommandResultTimeout, nowMs);
            && e.correlationId == order[n]
            && before == ExpireEach(t, TimeoutEvents(pending, order[..n], nowMs), nowMs, room)
            && |before.pushed| <= room
            && last == ExpireOne(before.tables, e, nowMs, room - |before.pushed|)
            && ExpireEach(t, TimeoutEvents(pending, order, nowMs), nowMs, room)
               == Outcome(last.tables, Ok, before.pushed + last.pushed)
  {
    var n := |order| - 1;
    assert order[n] in order;
    TimeoutEventsAt(pending, order, nowMs);
    before := ExpireEach(t, TimeoutEvents(pending, order[..n], nowMs), nowMs, room);
    last := ExpireOne(before.tables, TerminalEvent(pending[order[n]], CommandResultTimeout, nowMs), nowMs,
                      room - |before.pushed|);
  }

  /** The loop invariant: after the first ids of `order`, the rest is still to come. */
  lemma {:induction false} ExpireEachKeepsMidSane(pending: map<u32, CoreCommand>, t: Tables, done: seq<u32>,
                                                  rest: seq<u32>, nowMs: u32, room: nat)
    requires WellKeyed(pending) && (forall id | id in done :: id in pending)
    requires MidSane(t, done + rest)
    ensures MidSane(ExpireEach(t, TimeoutEvents(pending, done, nowMs), nowMs, room).tables, rest)
    decreases |done|
  {
    hide ExpireOne, ExpireEach, TimeoutEvents, TerminalEvent, MidSane, WellKeyed;
    if done == [] {
      EmptyLoop(pending, t, nowMs, room, 0);
      assert done + rest == rest;
    } else {
      var n := |done| - 1;
      assert done[..n] + ([done[n]] + rest) == done + rest;
      ExpireEachKeepsMidSane(pending, t, done[..n], [done[n]] + rest, nowMs, room);
      var before, last := LastExpiry(pending, t, done, nowMs, room);
      assert ([done[n]] + rest)[1..] == rest;
      assert done[n] in done;
      ExpireOneKeepsMidSane(before.tables, TerminalEvent(pending[done[n]], CommandResultTimeout, nowMs), nowMs,
                            room - |before.pushed|, [done[n]] + rest);
    }
  }

  lemma MidSaneTracked(t: Tables, rest: seq<u32>)
    requires MidSane(t, rest)
    ensures forall id | id in t.tracked :: t.tracked[id].command.correlationId == id
  {
  }

  lemma EmptyLoop(pending: map<u32, CoreCommand>, t: Tables, nowMs: u32, room: nat, id: u32)
    ensures var r := ExpireEach(t, TimeoutEvents(pending, [], nowMs), nowMs, room);
            r.tables == t && r.pushed == [] && Untouched(t, r.tables, r.pushed, id)
  {
  }

  /** Ids not in the list go through the loop untouched. */
  lemma {:induction false} LoopSparesOthers(pending: map<u32, CoreCommand>, t: Tables, done: seq<u32>,
                                            rest: seq<u32>, nowMs: u32, room: nat, id: u32)
    requires WellKeyed(pending) && (forall x | x in done :: x in pending)
    requires MidSane(t, done + rest) && id !in done
    ensures var r := ExpireEach(t, TimeoutEvents(pending, done, nowMs), nowMs, room);
            Untouched(t, r.tables, r.pushed, id)
    decreases |done|
  {
    EmptyLoop(pending, t, nowMs, room, id);
    hide ExpireOne, MidSane, IsRequest, IsTerminal, TimeoutEvents, ExpireEach;
    if done == [] {
    } else {
      var n := |done| - 1;
      var rest' := [done[n]] + rest;
      assert done[..n] + rest' == done + rest;
      LoopSparesOthers(pending, t, done[..n], rest', nowMs, room, id);
      ExpireEachKeepsMidSane(pending, t, done[..n], rest', nowMs, room);
      var before, last := LastExpiry(pending, t, done, nowMs, room);
      MidSaneTracked(before.tables, rest');
      assert done[n] in done;
      ExpireOneSparesOthers(before.tables, TerminalEvent(pending[done[n]], CommandResultTimeout, nowMs), nowMs,
                            room - |before.pushed|, id);
      CountsAdd(before.pushed, last.pushed, id);
    }
  }

  /** Each id in the list meets exactly one of the three fates. */
  lemma {:induction false} LoopFates(pending: map<u32, CoreCommand>, t: Tables, done: seq<u32>, rest: seq<u32>,
                                     nowMs: u32, room: nat, id: u32)
    requires WellKeyed(pending) && (forall x | x in done :: x in pending)
    requires MidSane(t, done + rest) && id in done
    ensures var r := ExpireEach(t, TimeoutEvents(pending, done, nowMs), nowMs, room);
            ExpiredFate(t, r.tables, r.pushed, id)
    decreases |done|
  {
    hide ExpireOne, MidSane, IsRequest, IsTerminal, TimeoutEvents, ExpireEach;
    var n := |done| - 1;
    var rest' := [done[n]] + rest;
    assert done[..n] + rest' == done + rest;
    var before, last := LastExpiry(pending, t, done, nowMs, room);
    var e := TerminalEvent(pending[done[n]], CommandResultTimeout, nowMs);
    ExpireEachKeepsMidSane(pending, t, done[..n], rest', nowMs, room);
    MidSaneTracked(before.tables, rest');
    CountsAdd(before.pushed, last.pushed, id);
    if id == done[n] {
      ListedOnce(t, done, rest);
      LoopSparesOthers(pending, t, done[..n], rest', nowMs, room, id);
      ExpireOneFate(before.tables, e, nowMs, room - |before.pushed|, rest');
    } else {
      LoopFates(pending, t, done[..n], rest', nowMs, room, id);
      ExpireOneSparesOthers(before.tables, e, nowMs, room - |before.pushed|, id);
    }
  }

  lemma ListedOnce(t: Tables, done: seq<u32>, rest: seq<u32>)
    requires MidSane(t, done + rest) && done != []
    ensures done[|done| - 1] !in done[..|done| - 1]
  {
    var all := done + rest;
    forall k | 0 <= k < |done| - 1 ensures done[k] != done[|done| - 1] {
      assert all[k] != all[|done| - 1];
    }
  }

  // ---------------------------------------------------------------------------------------------
  // One operation
  // ---------------------------------------------------------------------------------------------

  lemma DroppedSize(t: Tables, order: seq<u32>)
    requires NoDuplicates(order) && forall id | id in order :: id in t.pending
    ensures |Dropped(t, order).pending| + |order| == |t.pending|
  {
    hide NoDuplicates;
    var dropped := Dropped(t, order).pending;
    ListSize(order);
    assert dropped.Keys + SetOf(order) == t.pending.Keys && dropped.Keys !! SetOf(order);
    assert |dropped| == |dropped.Keys| && |t.pending| == |t.pending.Keys|;
  }

  lemma DroppedIsMidSane(t: Tables, order: seq<u32>)
    requires Sane(t) && NoDuplicates(order) && forall id | id in order :: id in t.pending
    ensures MidSane(Dropped(t, order), order + [])
  {
    hide NoDuplicates;
    assert order + [] == order;
    DroppedSize(t, order);
  }

  lemma {:induction false} ListSize(ids: seq<u32>)
    requires NoDuplicates(ids)
    ensures |SetOf(ids)| == |ids|
  {
    if ids == [] {
      assert SetOf(ids) == {};
    } else {
      var n := |ids| - 1;
      ListSize(ids[..n]);
      assert ids == ids[..n] + [ids[n]];
      assert SetOf(ids) == SetOf(ids[..n]) + {ids[n]};
      assert ids[n] !in SetOf(ids[..n]);
    }
  }

  lemma MidSaneDone(t: Tables)
    requires MidSane(t, [])
    ensures Sane(t)
  {
    assert SetOf([]) == {};
  }

  lemma TimeoutsKeepSane(t: Tables, nowMs: u32, timeoutMs: u32, order: seq<u32>, room: nat)
    requires Sane(t) && IsExpiryOrder(t.pending, nowMs, timeoutMs, order, MAX_PENDING)
    ensures Sane(ProcessTimeouts(t, nowMs, order, room).tables)
  {
    DroppedIsMidSane(t, order);
    ExpireEachKeepsMidSane(t.pending, Dropped(t, order), order, [], nowMs, room);
    MidSaneDone(ProcessTimeouts(t, nowMs, order, room).tables);
  }

  lemma SubmitKeepsSane(t: Tables, c: CoreCommand, maxRetries: u8, room: nat)
    requires Sane(t)
    ensures Sane(Submit(t, c, maxRetries, room).tables)
  {
    if SubmitVerdict(t.pending, c) == Ok {
      PendingGrowsByOne(t.pending, c);
    }
  }

  lemma ResolveKeepsSane(t: Tables, result: CommandResult, room: nat)
    requires Sane(t)
    ensures Sane(Resolve(t, result, room).tables)
  {
    var after := t.pending - {result.correlationId};
    assert after.Keys == t.pending.Keys - {result.correlationId};
    assert |after.Keys| <= |t.pending.Keys|;
  }

  /** Between calls, tracked commands are pending commands and the dispatcher is within bounds. */
  lemma PerformKeepsSane(t: Tables, op: Op)
    requires Sane(t) && Enabled(t, op)
    ensures Sane(Perform(t, op).tables)
  {
    hide Submit, Resolve, ProcessTimeouts, Sane, IsExpiryOrder;
    match op {
      case SubmitOp(c, maxRetries, room) => SubmitKeepsSane(t, c, maxRetries, room);
      case ResolveOp(result, room) => ResolveKeepsSane(t, result, room);
      case TimeoutsOp(nowMs, timeoutMs, order, room) => TimeoutsKeepSane(t, nowMs, timeoutMs, order, room);
    }
  }

  /** What one call of `process_timeouts` does for one command. */
  lemma TimeoutsPerCommand(t: Tables, nowMs: u32, timeoutMs: u32, order: seq<u32>, room: nat, id: u32)
    requires Sane(t) && IsExpiryOrder(t.pending, nowMs, timeoutMs, order, MAX_PENDING)
    ensures var r := ProcessTimeouts(t, nowMs, order, room);
            if id in order then ExpiredFate(t, r.tables, r.pushed, id) else Untouched(t, r.tables, r.pushed, id)
  {
    hide IsExpiryOrder, MidSane, Sane, ExpireEach, TimeoutEvents, CountRequests, CountTerminals, WellKeyed;
    OrderIsPending(t, nowMs, timeoutMs, order);
    DroppedIsMidSane(t, order);
    var start := Dropped(t, order);
    if id in order {
      LoopFates(t.pending, start, order, [], nowMs, room, id);
    } else {
      LoopSparesOthers(t.pending, start, order, [], nowMs, room, id);
    }
  }

  lemma OrderIsPending(t: Tables, nowMs: u32, timeoutMs: u32, order: seq<u32>)
    requires Sane(t) && IsExpiryOrder(t.pending, nowMs, timeoutMs, order, MAX_PENDING)
    ensures WellKeyed(t.pending) && NoDuplicates(order) && forall x | x in order :: x in t.pending
  {
  }

  /** Each expiry of a command strictly consumes its patience; without expiry it stays. */
  lemma ExpiryConsumesPatience(t: Tables, nowMs: u32, timeoutMs: u32, order: seq<u32>, room: nat, id: u32)
    requires Sane(t) && IsExpiryOrder(t.pending, nowMs, timeoutMs, order, MAX_PENDING)
    ensures var after := ProcessTimeouts(t, nowMs, order, room).tables;
            if id in order then Patience(after, id) < Patience(t, id) else Patience(after, id) == Patience(t, id)
  {
    TimeoutsPerCommand(t, nowMs, timeoutMs, order, room, id);
    OrderIsPending(t, nowMs, timeoutMs, order);
    hide ProcessTimeouts;
  }

  lemma SubmitKeepsLife(t: Tables, c: CoreCommand, maxRetries: u8, room: nat, life: Life, id: u32)
    requires Sane(t) && LifeSane(t, life, id)
    ensures LifeSane(Submit(t, c, maxRetries, room).tables, Lived(life, t, SubmitOp(c, maxRetries, room), id), id)
  {
    CountAdmitted(room, RequestEvent(c), id);
  }

  lemma ResolveKeepsLife(t: Tables, result: CommandResult, room: nat, life: Life, id: u32)
    requires Sane(t) && LifeSane(t, life, id)
    ensures LifeSane(Resolve(t, result, room).tables, Lived(life, t, ResolveOp(result, room), id), id)
  {
    if result.correlationId in t.pending {
      CountAdmitted(room, TerminalEvent(t.pending[result.correlationId], ResultEventType(result.kind),
                                        result.completedAtMs), id);
    }
  }

  lemma TimeoutsKeepLife(t: Tables, nowMs: u32, timeoutMs: u32, order: seq<u32>, room: nat, life: Life, id: u32)
    requires Sane(t) && LifeSane(t, life, id) && IsExpiryOrder(t.pending, nowMs, timeoutMs, order, MAX_PENDING)
    ensures LifeSane(ProcessTimeouts(t, nowMs, order, room).tables,
                     Lived(life, t, TimeoutsOp(nowMs, timeoutMs, order, room), id), id)
  {
    TimeoutsPerCommand(t, nowMs, timeoutMs, order, room, id);
    OrderIsPending(t, nowMs, timeoutMs, order);
    hide ProcessTimeouts, IsExpiryOrder;
  }

  lemma PerformKeepsLife(t: Tables, op: Op, life: Life, id: u32)
    requires Sane(t) && Enabled(t, op) && LifeSane(t, life, id)
    ensures LifeSane(Perform(t, op).tables, Lived(life, t, op, id), id)
  {
    hide Submit, Resolve, ProcessTimeouts, Sane, IsExpiryOrder, LifeSane, Lived;
    match op {
      case SubmitOp(c, maxRetries, room) => SubmitKeepsLife(t, c, maxRetries, room, life, id);
      case ResolveOp(result, room) => ResolveKeepsLife(t, result, room, life, id);
      case TimeoutsOp(nowMs, timeoutMs, order, room) => TimeoutsKeepLife(t, nowMs, timeoutMs, order, room, life, id);
    }
  }

  // ---------------------------------------------------------------------------------------------
  // Whole runs
  // ---------------------------------------------------------------------------------------------

  lemma {:induction false} RunSane(trace: seq<Tables>, ops: seq<Op>, i: nat, id: u32)
    requires Run(trace, ops) && i <= |ops|
    ensures Sane(trace[i]) && LifeSane(trace[i], LifeAt(trace, ops, i, id), id)
  {
    hide Perform, Lived, Enabled;
    if i > 0 {
      RunSane(trace, ops, i - 1, id);
      hide Sane, LifeSane;
      PerformKeepsSane(trace[i - 1], ops[i - 1]);
      PerformKeepsLife(trace[i - 1], ops[i - 1], LifeAt(trace, ops, i - 1, id), id);
    }
  }

  /** In every run, whatever the queue refuses: since its last acceptance a command has produced at most one
      terminal event and at most one request per allowed attempt, and has expired at most that often; a command
      never accepted has produced nothing; and once a terminal event is out, or the attempts are used up, the
      command has left the dispatcher. */
  lemma CommandBounds(trace: seq<Tables>, ops: seq<Op>, i: nat, id: u32)
    requires Run(trace, ops) && i <= |ops|
    ensures var life := LifeAt(trace, ops, i, id);
            && life.terminals <= 1
            && (life.allowance.None? ==> life == UNBORN)
            && (life.allowance.Some? ==>
                 life.requests <= 1 + life.allowance.value && life.expiries <= 1 + life.allowance.value)
            && (life.terminals == 1 ==> id !in trace[i].pending)
            && (life.allowance.Some? && life.expiries == 1 + life.allowance.value ==> id !in trace[i].pending)
  {
    RunSane(trace, ops, i, id);
  }

  /** At every call boundary of every run: ids are nonzero, tracked commands are pending, there are at most
      sixteen; so after a submission is accepted there is a free tracking slot for it. */
  lemma TablesAgree(trace: seq<Tables>, ops: seq<Op>, i: nat)
    requires Run(trace, ops) && i <= |ops|
    ensures trace[i].tracked.Keys <= trace[i].pending.Keys && |trace[i].pending| <= MAX_PENDING
    ensures NO_CORRELATION_ID !in trace[i].pending
    ensures forall c: CoreCommand {:trigger SubmitVerdict(trace[i].pending, c)} ::
              SubmitVerdict(trace[i].pending, c) == Ok ==>
                c.correlationId !in trace[i].tracked && |trace[i].tracked| < MAX_PENDING
  {
    RunSane(trace, ops, i, 0);
    SubsetSize(trace[i].tracked.Keys, trace[i].pending.Keys);
  }
}
