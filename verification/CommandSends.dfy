/** What commands send: exact counts while the event queue has room, what the events carry, and what they make the
    reducer ask of the radio. */
module CommandSends {
  import opened Common
  import opened CoreTypes
  import opened CommandDispatcher
  import opened CommandLifecycle
  import Reducer
  import ReducerHistory

  // ---------------------------------------------------------------------------------------------
  // One call
  // ---------------------------------------------------------------------------------------------

  /** `e` tells the rest of the gateway about command `c`. */
  predicate IsAbout(e: CoreEvent, c: CoreCommand) {
    e.correlationId == c.correlationId && e.deviceId == c.deviceId && e.shortAddr == c.shortAddr
  }

  /** `e` asks for what command `c` wants. */
  predicate AsksFor(e: CoreEvent, c: CoreCommand) {
    && IsAbout(e, c) && e.valueBool == c.desiredPowerOn
    && e.kind == if c.kind == SetDevicePower then CommandSetDevicePowerRequested else CommandRefreshNetworkRequested
  }

  /** A submission is accepted exactly if it has an id that is not pending, asks for one of the two supported things and
      fewer than sixteen commands are pending; it then sends exactly one event, asking for what the command wants, unless
      the queue is full. */
  lemma SubmissionSends(t: Tables, c: CoreCommand, maxRetries: u8, room: nat)
    ensures SubmitVerdict(t.pending, c) == Ok <==>
              c.correlationId != 0 && c.kind in {SetDevicePower, RefreshNetworkCommand}
              && c.correlationId !in t.pending && |t.pending| < 16
    ensures var r := Submit(t, c, maxRetries, room);
            if SubmitVerdict(t.pending, c) != Ok then r == Outcome(t, SubmitVerdict(t.pending, c), [])
            else
              && c.correlationId in r.tables.pending && r.tables.pending[c.correlationId] == c
              && c.correlationId in r.tables.tracked
              && r.tables.tracked[c.correlationId] == Tracked(c, maxRetries)
              && (room > 0 ==>
                    r.err == Ok && |r.pushed| == 1 && AsksFor(r.pushed[0], c) && r.pushed[0].valueU32 == c.issuedAtMs)
              && (room == 0 ==> r.err == NoCapacity && r.pushed == [])
  {
  }

  /** A result for a pending command sends exactly one event, of the result's own kind, unless the queue is full. */
  lemma ResolutionReports(t: Tables, result: CommandResult, room: nat)
    requires Sane(t)
    ensures var r := Resolve(t, result, room);
            var id := result.correlationId;
            if id !in t.pending then r.tables == t && r.pushed == [] && r.err != Ok
            else
              && id !in r.tables.pending && id !in r.tables.tracked
              && (room == 0 ==> r.err == NoCapacity && r.pushed == [])
              && (room > 0 ==>
                    && r.err == Ok && |r.pushed| == 1 && IsAbout(r.pushed[0], t.pending[id])
                    && r.pushed[0].valueU32 == result.completedAtMs
                    && (r.pushed[0].valueBool <==> result.kind == Success)
                    && (r.pushed[0].kind == CommandResultSuccess <==> result.kind == Success)
                    && (r.pushed[0].kind == CommandResultTimeout <==> result.kind == TimedOut)
                    && (r.pushed[0].kind == CommandResultFailed <==> result.kind == Failed))
  {
  }

  /** In true time: a command expires once its timeout has passed, across a wrap of the clock, as long as it is looked
      at within one turn of the clock; a zero timeout never expires anything. */
  lemma ExpiredInTrueTime(c: CoreCommand, issued: nat, now: nat, timeoutMs: u32)
    requires c.issuedAtMs == Wrap32(issued) && issued <= now < issued + TWO_TO_THE_32
    ensures Expired(c, Wrap32(now), timeoutMs) <==> timeoutMs != 0 && now - issued >= timeoutMs
  {
    var a, b := now / TWO_TO_THE_32, issued / TWO_TO_THE_32;
    assert Wrap32(now) == now - a * TWO_TO_THE_32 && Wrap32(issued) == issued - b * TWO_TO_THE_32;
    assert Wrap32(now) - Wrap32(issued) == now - issued || Wrap32(now) - Wrap32(issued) == now - issued - TWO_TO_THE_32;
  }

  /** End to end: the event an accepted power command pushes makes the reducer ask the radio, once, for the power
      wanted, at the device's address; the event of its result is announced with the right status. */
  lemma PowerCommandReachesRadio(s: CoreState, e: CoreEvent, c: CoreCommand)
    requires s.WellFormed() && AsksFor(e, c) && Submittable(c)
    ensures c.kind == SetDevicePower ==>
              Reducer.Reduce(s, e) == (s, [CoreEffect(SendZigbeeOnOff, c.correlationId, c.shortAddr, 0, c.desiredPowerOn)])
    ensures c.kind == RefreshNetworkCommand ==>
              Reducer.Reduce(s, e) == (s, [CoreEffect(RefreshNetwork, c.correlationId, UNKNOWN_SHORT_ADDR, 0, false)])
  {
    ReducerHistory.CommandEffects(s, e);
  }

  // ---------------------------------------------------------------------------------------------
  // Exact counts
  // ---------------------------------------------------------------------------------------------

  /** The queue admits everything the call pushes. */
  predicate Roomy(op: Op) {
    match op
    case SubmitOp(_, _, room) => room > 0
    case ResolveOp(_, room) => room > 0
    case TimeoutsOp(_, _, order, room) => room >= |order|
  }

  /** With room, an expiry either sends the command again, still tracked, or reports it timed out and forgets it. */
  ghost predicate RoomyFate(t: Tables, after: Tables, pushed: seq<CoreEvent>, id: u32) {
    if RetriesLeft(t, id) > 0 then
      && id in after.pending && id in after.tracked
      && after.tracked[id].retriesLeft == t.tracked[id].retriesLeft - 1
      && CountRequests(pushed, id) == 1 && CountTerminals(pushed, id) == 0
    else
      && id !in after.pending && id !in after.tracked
      && CountRequests(pushed, id) == 0 && CountTerminals(pushed, id) == 1
  }

  lemma RetrySucceeds(t: Tables, e: CoreEvent, nowMs: u32, room: nat)
    requires room > 0 && RetriesLeft(t, e.correlationId) > 0
    requires var c := t.tracked[e.correlationId].command; c.correlationId == e.correlationId && Submittable(c)
    requires SubmitVerdict(t.pending, t.tracked[e.correlationId].command.(issuedAtMs := nowMs)) == Ok
    ensures var r := ExpireOne(t, e, nowMs, room); RoomyFate(t, r.tables, r.pushed, e.correlationId)
  {
    var again := t.tracked[e.correlationId].command.(issuedAtMs := nowMs);
    assert Submittable(again);
    RequestCounts(again);
    hide CountRequests, CountTerminals, RequestEvent, Submittable, SubmitVerdict;
  }

  lemma GiveUpReports(t: Tables, e: CoreEvent, nowMs: u32, room: nat)
    requires room > 0 && e.kind == CommandResultTimeout && RetriesLeft(t, e.correlationId) == 0
    requires e.correlationId !in t.pending
    ensures var r := ExpireOne(t, e, nowMs, room); RoomyFate(t, r.tables, r.pushed, e.correlationId)
  {
    CountAdmitted(room, e, e.correlationId);
    hide CountRequests, CountTerminals, RequestEvent, Admit;
  }

  lemma RoomyExpireOne(t: Tables, e: CoreEvent, nowMs: u32, room: nat, rest: seq<u32>)
    requires rest != [] && MidSane(t, rest) && e.correlationId == rest[0] && e.kind == CommandResultTimeout && room > 0
    ensures var r := ExpireOne(t, e, nowMs, room); RoomyFate(t, r.tables, r.pushed, rest[0])
  {
    hide ExpireOne, RoomyFate, MidSane;
    MidSaneHead(t, rest);
    if RetriesLeft(t, rest[0]) > 0 {
      ResubmissionAccepted(t, nowMs, rest);
      RetrySucceeds(t, e, nowMs, room);
    } else {
      GiveUpReports(t, e, nowMs, room);
    }
  }

  /** The loop pushes at most one event per command. */
  lemma {:induction false} OnePushEach(t: Tables, events: seq<CoreEvent>, nowMs: u32, room: nat)
    ensures |ExpireEach(t, events, nowMs, room).pushed| <= |events|
    decreases |events|
  {
    if events != [] {
      var n := |events| - 1;
      OnePushEach(t, events[..n], nowMs, room);
      var before := ExpireEach(t, events[..n], nowMs, room);
      PushesAtMostOne(before.tables, events[n], nowMs, room - |before.pushed|);
      hide ExpireOne;
    }
  }

  lemma {:induction false} RoomyLoop(pending: map<u32, CoreCommand>, t: Tables, done: seq<u32>, rest: seq<u32>,
                                     nowMs: u32, room: nat, id: u32)
    requires WellKeyed(pending) && (forall x | x in done :: x in pending)
    requires MidSane(t, done + rest) && id in done && room >= |done|
    ensures var r := ExpireEach(t, TimeoutEvents(pending, done, nowMs), nowMs, room);
            RoomyFate(t, r.tables, r.pushed, id)
    decreases |done|
  {
    hide ExpireOne, MidSane, IsRequest, IsTerminal, TimeoutEvents, ExpireEach;
    var n := |done| - 1;
    var rest' := [done[n]] + rest;
    assert done[..n] + rest' == done + rest;
    var before, last := LastExpiry(pending, t, done, nowMs, room);
    OnePushEach(t, TimeoutEvents(pending, done[..n], nowMs), nowMs, room);
    var e := TerminalEvent(pending[done[n]], CommandResultTimeout, nowMs);
    ExpireEachKeepsMidSane(pending, t, done[..n], rest', nowMs, room);
    MidSaneTracked(before.tables, rest');
    CountsAdd(before.pushed, last.pushed, id);
    if id == done[n] {
      ListedOnce(t, done, rest);
      LoopSparesOthers(pending, t, done[..n], rest', nowMs, room, id);
      RoomyExpireOne(before.tables, e, nowMs, room - |before.pushed|, rest');
    } else {
      RoomyLoop(pending, t, done[..n], rest', nowMs, room, id);
      ExpireOneSparesOthers(before.tables, e, nowMs, room - |before.pushed|, id);
    }
  }

  lemma RoomyTimeouts(t: Tables, nowMs: u32, timeoutMs: u32, order: seq<u32>, room: nat, id: u32)
    requires Sane(t) && IsExpiryOrder(t.pending, nowMs, timeoutMs, order, MAX_PENDING)
    requires id in order && room >= |order|
    ensures var r := ProcessTimeouts(t, nowMs, order, room);
            RoomyFate(t, r.tables, r.pushed, id) && id in t.pending
  {
    hide IsExpiryOrder, MidSane, Sane, ExpireEach, TimeoutEvents, CountRequests, CountTerminals, WellKeyed;
    OrderIsPending(t, nowMs, timeoutMs, order);
    DroppedIsMidSane(t, order);
    RoomyLoop(t.pending, Dropped(t, order), order, [], nowMs, room, id);
  }

  /** The expiries of `id` since its last acceptance after which it was sent again. */
  function Retried(trace: seq<Tables>, ops: seq<Op>, i: nat, id: u32): nat
    requires |trace| == |ops| + 1 && i <= |ops|
  {
    if i == 0 || Accepts(trace[i - 1], ops[i - 1], id) then 0
    else
      Retried(trace, ops, i - 1, id)
      + if ops[i - 1].TimeoutsOp? && id in ops[i - 1].order && id in trace[i].pending then 1 else 0
  }

  ghost predicate ExactLife(t: Tables, life: Life, retried: nat, id: u32) {
    && (life.allowance.None? ==> life == UNBORN && id !in t.pending && id !in t.tracked)
    && (life.allowance.Some? ==>
          && life.requests == 1 + retried
          && (id in t.pending ==>
                && life.terminals == 0 && life.expiries == retried
                && id in t.tracked && t.tracked[id].retriesLeft == life.allowance.value - retried)
          && (id !in t.pending ==> life.terminals == 1 && id !in t.tracked))
  }

  lemma ExactSubmit(t: Tables, op: Op, life: Life, retried: nat, id: u32)
    requires Sane(t) && op.SubmitOp? && Roomy(op) && ExactLife(t, life, retried, id)
    ensures ExactLife(Perform(t, op).tables, Lived(life, t, op, id), if Accepts(t, op, id) then 0 else retried, id)
  {
    NothingCounted(id);
    if SubmitVerdict(t.pending, op.c) == Ok {
      CountAdmitted(op.room, RequestEvent(op.c), id);
    }
    hide CountRequests, CountTerminals;
  }

  lemma ExactResolve(t: Tables, op: Op, life: Life, retried: nat, id: u32)
    requires Sane(t) && op.ResolveOp? && Roomy(op) && ExactLife(t, life, retried, id)
    ensures ExactLife(Perform(t, op).tables, Lived(life, t, op, id), retried, id)
  {
    NothingCounted(id);
    if op.result.correlationId in t.pending {
      CountAdmitted(op.room, TerminalEvent(t.pending[op.result.correlationId], ResultEventType(op.result.kind),
                                           op.result.completedAtMs), id);
    }
    hide CountRequests, CountTerminals;
  }

  lemma ExactTimeouts(t: Tables, op: Op, life: Life, retried: nat, id: u32)
    requires Sane(t) && Enabled(t, op) && op.TimeoutsOp? && Roomy(op) && ExactLife(t, life, retried, id)
    ensures ExactLife(Perform(t, op).tables, Lived(life, t, op, id),
                      retried + if id in op.order && id in Perform(t, op).tables.pending then 1 else 0, id)
  {
    if id in op.order {
      RoomyTimeouts(t, op.nowMs, op.timeoutMs, op.order, op.room, id);
    } else {
      TimeoutsPerCommand(t, op.nowMs, op.timeoutMs, op.order, op.room, id);
    }
    hide ProcessTimeouts, IsExpiryOrder, CountRequests, CountTerminals, Sane;
  }

  lemma {:induction false} ExactRun(trace: seq<Tables>, ops: seq<Op>, i: nat, id: u32)
    requires Run(trace, ops) && i <= |ops| && forall k | 0 <= k < |ops| :: Roomy(ops[k])
    ensures Sane(trace[i]) && ExactLife(trace[i], LifeAt(trace, ops, i, id), Retried(trace, ops, i, id), id)
  {
    RunSane(trace, ops, i, id);
    if i > 0 {
      ExactRun(trace, ops, i - 1, id);
      var t, op, life, retried := trace[i - 1], ops[i - 1], LifeAt(trace, ops, i - 1, id), Retried(trace, ops, i - 1, id);
      hide Perform, Lived, Enabled, Sane, ExactLife, Roomy, LifeSane;
      match op
      case SubmitOp(_, _, _) => ExactSubmit(t, op, life, retried, id);
      case ResolveOp(_, _) => ExactResolve(t, op, life, retried, id);
      case TimeoutsOp(_, _, _, _) => ExactTimeouts(t, op, life, retried, id);
    }
  }

  /** In every run in which the queue refuses nothing: since a command was last accepted it has been sent once, and once
      more for every expiry it survived; and it has produced its one terminal event if and only if it has left the
      dispatcher. */
  lemma ExactCounts(trace: seq<Tables>, ops: seq<Op>, i: nat, id: u32)
    requires Run(trace, ops) && i <= |ops| && forall k | 0 <= k < |ops| :: Roomy(ops[k])
    ensures var life := LifeAt(trace, ops, i, id);
            life.allowance.Some? ==>
              && life.requests == 1 + Retried(trace, ops, i, id)
              && (life.terminals == 1 <==> id !in trace[i].pending)
              && (id in trace[i].pending ==> life.expiries == Retried(trace, ops, i, id) <= life.allowance.value)
  {
    ExactRun(trace, ops, i, id);
  }

  // ---------------------------------------------------------------------------------------------
  // What the events of a run carry
  // ---------------------------------------------------------------------------------------------

  /** The same command, but for when it was issued. */
  predicate SameCommand(a: CoreCommand, b: CoreCommand) {
    && a.kind == b.kind && a.correlationId == b.correlationId && a.deviceId == b.deviceId && a.shortAddr == b.shortAddr
    && a.desiredPowerOn == b.desiredPowerOn
  }

  /** `c` is a command the tables hold for `id`. */
  ghost predicate Held(t: Tables, id: u32, c: CoreCommand) {
    || (id in t.pending && SameCommand(t.pending[id], c))
    || (id in t.tracked && SameCommand(t.tracked[id].command, c))
  }

  /** Whatever the later tables hold, the earlier ones held. */
  ghost predicate Descends(t: Tables, after: Tables) {
    forall id, c | Held(after, id, c) :: Held(t, id, c)
  }

  /** The event reports on a command the tables hold: a request for what it wants, or its end. */
  ghost predicate Reports(t: Tables, e: CoreEvent) {
    exists c :: Held(t, e.correlationId, c) && EventFor(e, c)
  }

  predicate EventFor(e: CoreEvent, c: CoreCommand) {
    || AsksFor(e, c)
    || (IsAbout(e, c) && IsTerminal(e, c.correlationId) && (e.valueBool <==> e.kind == CommandResultSuccess))
  }

  lemma ExpireOneReports(t: Tables, e: CoreEvent, nowMs: u32, room: nat)
    requires e.correlationId in t.tracked ==>
               t.tracked[e.correlationId].command.correlationId == e.correlationId
               && Submittable(t.tracked[e.correlationId].command)
    ensures var r := ExpireOne(t, e, nowMs, room);
            && Descends(t, r.tables)
            && forall i | 0 <= i < |r.pushed| :: r.pushed[i] == e || Reports(t, r.pushed[i])
  {
    var r, id := ExpireOne(t, e, nowMs, room), e.correlationId;
    if id in t.tracked {
      var again := t.tracked[id].command.(issuedAtMs := nowMs);
      assert Held(t, id, again) && AsksFor(RequestEvent(again), again);
    }
    forall x, c | Held(r.tables, x, c) ensures Held(t, x, c) {
      if x != id {
        assert (x in r.tables.pending <==> x in t.pending) && (x in r.tables.tracked <==> x in t.tracked);
      }
    }
  }

  lemma ReportsEarlier(t: Tables, after: Tables, e: CoreEvent)
    requires Descends(t, after) && Reports(after, e)
    ensures Reports(t, e)
  {
    var c :| Held(after, e.correlationId, c) && EventFor(e, c);
    assert Held(t, e.correlationId, c);
  }

  /** The loop reports only on commands that were pending or tracked when it began. */
  lemma {:induction false} LoopReports(pending: map<u32, CoreCommand>, t: Tables, done: seq<u32>, rest: seq<u32>,
                                       nowMs: u32, room: nat)
    requires WellKeyed(pending) && (forall x | x in done :: x in pending) && MidSane(t, done + rest)
    ensures var r := ExpireEach(t, TimeoutEvents(pending, done, nowMs), nowMs, room);
            && Descends(t, r.tables)
            && forall i | 0 <= i < |r.pushed| ::
                 Reports(t, r.pushed[i]) || ReportsDropped(pending, done, r.pushed[i])
    decreases |done|
  {
    hide ExpireOne, MidSane, TimeoutEvents, ExpireEach, Descends, Reports;
    if done == [] {
      EmptyLoop(pending, t, nowMs, room, 0);
      DescendsItself(t);
    } else {
      var n := |done| - 1;
      var rest' := [done[n]] + rest;
      assert done[..n] + rest' == done + rest && done[n] in done;
      LoopReports(pending, t, done[..n], rest', nowMs, room);
      var before, last := LastExpiry(pending, t, done, nowMs, room);
      var e := TerminalEvent(pending[done[n]], CommandResultTimeout, nowMs);
      ExpireEachKeepsMidSane(pending, t, done[..n], rest', nowMs, room);
      MidSaneHead(before.tables, rest');
      ExpireOneReports(before.tables, e, nowMs, room - |before.pushed|);
      DescendsTrans(t, before.tables, last.tables);
      var pushed := before.pushed + last.pushed;
      forall i | 0 <= i < |pushed| ensures Reports(t, pushed[i]) || ReportsDropped(pending, done, pushed[i]) {
        if i >= |before.pushed| && pushed[i] != e {
          ReportsEarlier(t, before.tables, pushed[i]);
        }
      }
    }
  }

  /** The event is the timeout of one of the commands the dispatcher dropped. */
  ghost predicate ReportsDropped(pending: map<u32, CoreCommand>, done: seq<u32>, e: CoreEvent) {
    && e.correlationId in done && e.correlationId in pending
    && IsAbout(e, pending[e.correlationId]) && e.kind == CommandResultTimeout && !e.valueBool
  }

  lemma DescendsItself(t: Tables)
    ensures Descends(t, t)
  {
  }

  lemma DescendsTrans(t: Tables, u: Tables, v: Tables)
    requires Descends(t, u) && Descends(u, v)
    ensures Descends(t, v)
  {
  }

  lemma TimeoutsReport(t: Tables, nowMs: u32, timeoutMs: u32, order: seq<u32>, room: nat)
    requires Sane(t) && IsExpiryOrder(t.pending, nowMs, timeoutMs, order, MAX_PENDING)
    ensures var r := ProcessTimeouts(t, nowMs, order, room);
            Descends(t, r.tables) && forall i | 0 <= i < |r.pushed| :: Reports(t, r.pushed[i])
  {
    hide IsExpiryOrder, MidSane, Sane, ExpireEach, TimeoutEvents, Descends, Reports;
    OrderIsPending(t, nowMs, timeoutMs, order);
    DroppedIsMidSane(t, order);
    var start := Dropped(t, order);
    assert order + [] == order;
    LoopReports(t.pending, start, order, [], nowMs, room);
    DroppedDescends(t, order);
    var r := ProcessTimeouts(t, nowMs, order, room);
    DescendsTrans(t, start, r.tables);
    forall i | 0 <= i < |r.pushed| ensures Reports(t, r.pushed[i]) {
      if Reports(start, r.pushed[i]) {
        ReportsEarlier(t, start, r.pushed[i]);
      } else {
        DroppedReports(t, order, r.pushed[i]);
      }
    }
  }

  lemma DroppedDescends(t: Tables, order: seq<u32>)
    ensures Descends(t, Dropped(t, order))
  {
  }

  lemma DroppedReports(t: Tables, order: seq<u32>, e: CoreEvent)
    requires WellKeyed(t.pending) && ReportsDropped(t.pending, order, e)
    ensures Reports(t, e)
  {
    assert Held(t, e.correlationId, t.pending[e.correlationId]) && EventFor(e, t.pending[e.correlationId]);
  }

  /** What a timeout pass sends is stamped with its own time: the new time of issue of a command sent again, the time at
      which one was given up. */
  lemma {:induction false} TimeoutsAreStamped(pending: map<u32, CoreCommand>, t: Tables, done: seq<u32>, nowMs: u32,
                                              room: nat)
    requires WellKeyed(pending) && forall x | x in done :: x in pending
    ensures forall e | e in ExpireEach(t, TimeoutEvents(pending, done, nowMs), nowMs, room).pushed :: e.valueU32 == nowMs
    decreases |done|
  {
    hide TimeoutEvents, ExpireEach, ExpireOne;
    if done == [] {
      EmptyLoop(pending, t, nowMs, room, 0);
    } else {
      var n := |done| - 1;
      assert done[n] in done;
      TimeoutsAreStamped(pending, t, done[..n], nowMs, room);
      var before, last := LastExpiry(pending, t, done, nowMs, room);
      ExpireOneStamps(before.tables, TerminalEvent(pending[done[n]], CommandResultTimeout, nowMs), nowMs,
                      room - |before.pushed|);
    }
  }

  lemma ExpireOneStamps(t: Tables, e: CoreEvent, nowMs: u32, room: nat)
    requires e.valueU32 == nowMs
    ensures forall x | x in ExpireOne(t, e, nowMs, room).pushed :: x.valueU32 == nowMs
  {
  }

  /** The command last accepted under `id`. */
  function AcceptedAt(trace: seq<Tables>, ops: seq<Op>, i: nat, id: u32): Option<CoreCommand>
    requires |trace| == |ops| + 1 && i <= |ops|
  {
    if i == 0 then None
    else if Accepts(trace[i - 1], ops[i - 1], id) then Some(ops[i - 1].c)
    else AcceptedAt(trace, ops, i - 1, id)
  }

  /** All the tables hold for `id` is the command accepted under it. */
  ghost predicate HoldsAccepted(t: Tables, id: u32, accepted: Option<CoreCommand>) {
    forall c | Held(t, id, c) :: accepted.Some? && SameCommand(accepted.value, c)
  }

  lemma OperationReports(t: Tables, op: Op, id: u32, accepted: Option<CoreCommand>)
    requires Sane(t) && Enabled(t, op) && HoldsAccepted(t, id, accepted)
    ensures var r, now := Perform(t, op), if Accepts(t, op, id) then Some(op.c) else accepted;
            && HoldsAccepted(r.tables, id, now)
            && forall i | 0 <= i < |r.pushed| && r.pushed[i].correlationId == id ::
                 now.Some? && EventFor(r.pushed[i], now.value)
  {
    match op
    case SubmitOp(c, maxRetries, room) => SubmitReports(t, c, maxRetries, room, id, accepted);
    case ResolveOp(result, room) => ResolveReports(t, result, room, id, accepted);
    case TimeoutsOp(nowMs, timeoutMs, order, room) =>
      TimeoutsReport(t, nowMs, timeoutMs, order, room);
      hide Sane, ProcessTimeouts, IsExpiryOrder;
      ReportsAccepted(t, id, accepted);
  }

  lemma SubmitReports(t: Tables, c: CoreCommand, maxRetries: u8, room: nat, id: u32, accepted: Option<CoreCommand>)
    requires Sane(t) && HoldsAccepted(t, id, accepted)
    ensures var op := SubmitOp(c, maxRetries, room);
            var r, now := Submit(t, c, maxRetries, room), if Accepts(t, op, id) then Some(c) else accepted;
            && HoldsAccepted(r.tables, id, now)
            && forall i | 0 <= i < |r.pushed| && r.pushed[i].correlationId == id ::
                 now.Some? && EventFor(r.pushed[i], now.value)
  {
    var r := Submit(t, c, maxRetries, room);
    if c.correlationId != id || SubmitVerdict(t.pending, c) != Ok {
      forall x | Held(r.tables, id, x) ensures Held(t, id, x) {
      }
    }
  }

  lemma ResolveReports(t: Tables, result: CommandResult, room: nat, id: u32, accepted: Option<CoreCommand>)
    requires Sane(t) && HoldsAccepted(t, id, accepted)
    ensures var r := Resolve(t, result, room);
            && HoldsAccepted(r.tables, id, accepted)
            && forall i | 0 <= i < |r.pushed| && r.pushed[i].correlationId == id ::
                 accepted.Some? && EventFor(r.pushed[i], accepted.value)
  {
    var r := Resolve(t, result, room);
    forall x | Held(r.tables, id, x) ensures Held(t, id, x) {
    }
    if result.correlationId == id && id in t.pending {
      assert Held(t, id, t.pending[id]);
    }
  }

  lemma ReportsAccepted(t: Tables, id: u32, accepted: Option<CoreCommand>)
    requires HoldsAccepted(t, id, accepted)
    ensures forall e | Reports(t, e) && e.correlationId == id :: accepted.Some? && EventFor(e, accepted.value)
    ensures forall after | Descends(t, after) :: HoldsAccepted(after, id, accepted)
  {
  }

  /** In every run, whatever is refused: each event pushed under an id carries the device, the address and, if it is a
      request, the kind and the power wanted of the command last accepted under it. Retries repeat the command. */
  lemma {:induction false} EventsCarryTheCommand(trace: seq<Tables>, ops: seq<Op>, i: nat, id: u32)
    requires Run(trace, ops) && i <= |ops|
    ensures HoldsAccepted(trace[i], id, AcceptedAt(trace, ops, i, id))
    ensures i > 0 ==>
              forall e | e in Perform(trace[i - 1], ops[i - 1]).pushed && e.correlationId == id ::
                AcceptedAt(trace, ops, i, id).Some? && EventFor(e, AcceptedAt(trace, ops, i, id).value)
  {
    if i > 0 {
      EventsCarryTheCommand(trace, ops, i - 1, id);
      RunSane(trace, ops, i - 1, id);
      OperationReports(trace[i - 1], ops[i - 1], id, AcceptedAt(trace, ops, i - 1, id));
      hide Perform, HoldsAccepted, Sane, LifeSane, EventFor;
    }
  }
}
