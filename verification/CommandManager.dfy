/** The command manager as an object: the tracked commands in a slot array, the dispatcher, and the calls that
    push events, each proved equal to its operation on the tables of `CommandLifecycle`. */
module CommandManager {
  import opened Common
  import opened Counting
  import opened CoreTypes
  import opened Slots
  import opened Ring
  import opened CommandDispatcher
  import L = CommandLifecycle

  function TrackedId(t: L.Tracked): u32 {
    t.command.correlationId
  }

  /** The fate of every event the loop of `process_timeouts` handles, one event further. */
  lemma ExpireEachSnoc(t: L.Tables, events: seq<CoreEvent>, e: CoreEvent, nowMs: u32, room: nat)
    ensures var before := L.ExpireEach(t, events, nowMs, room);
            var last := L.ExpireOne(before.tables, e, nowMs, room - |before.pushed|);
            L.ExpireEach(t, events + [e], nowMs, room) == L.Outcome(last.tables, Ok, before.pushed + last.pushed)
  {
    hide L.ExpireOne;
    assert (events + [e])[..|events|] == events;
  }

  class CommandManager {
    const tracked: array<Option<L.Tracked>>
    const dispatcher: CoreCommandDispatcher

    /** What must hold even in the middle of a call. */
    ghost predicate Wired()
      reads this, tracked, dispatcher, dispatcher.pending
    {
      && tracked.Length == MAX_PENDING && DistinctKeys(tracked[..], TrackedId)
      && dispatcher.Valid()
      && (tracked as object) != (dispatcher.pending as object)
    }

    ghost predicate Valid()
      reads this, tracked, dispatcher, dispatcher.pending
    {
      Wired() && L.Sane(Tables())
    }

    ghost function Tables(): L.Tables
      reads this, tracked, dispatcher, dispatcher.pending
    {
      L.Tables(dispatcher.Pending(), View(tracked[..], TrackedId))
    }

    /** The event queue belongs to the runtime; the manager's own memory is disjoint from it. */
    ghost predicate Uses(queue: Ring<CoreEvent>)
      reads this, queue, queue.buffer
    {
      && queue.Valid()
      && (queue.buffer as object) != (tracked as object)
      && (queue.buffer as object) != (dispatcher.pending as object)
    }

    constructor ()
      ensures Valid() && Tables() == L.NO_COMMANDS
      ensures fresh(tracked) && fresh(dispatcher) && fresh(dispatcher.pending)
    {
      tracked := new Option<L.Tracked>[MAX_PENDING](_ => None);
      dispatcher := new CoreCommandDispatcher();
      new;
      assert View(tracked[..], TrackedId) == map[];
    }

    method FindTracked(id: u32) returns (index: int)
      requires Wired()
      ensures index == -1 <==> id == NO_CORRELATION_ID || id !in Tables().tracked
      ensures index != -1 ==> 0 <= index < MAX_PENDING && tracked[index].Some?
                              && tracked[index].value == Tables().tracked[id] && TrackedId(tracked[index].value) == id
    {
      if id == NO_CORRELATION_ID {
        return -1;
      }
      var i := 0;
      while i < MAX_PENDING
        invariant 0 <= i <= MAX_PENDING
        invariant forall j | 0 <= j < i && tracked[j].Some? :: TrackedId(tracked[j].value) != id
      {
        if tracked[i].Some? && tracked[i].value.command.correlationId == id {
          ViewAt(tracked[..], TrackedId, i);
          return i;
        }
        i := i + 1;
      }
      ViewLacks(tracked[..], TrackedId, id);
      return -1;
    }

    /** The first free tracking slot; there is one whenever fewer than sixteen commands are tracked. */
    method FindFreeTracked() returns (index: int)
      requires Wired()
      ensures index == -1 <==> |Tables().tracked| >= MAX_PENDING
      ensures index != -1 ==> 0 <= index < MAX_PENDING && tracked[index] == None
    {
      hide View, UsedSlots, DistinctKeys;
      FreeSlotIffRoom(tracked[..], TrackedId);
      var i := 0;
      while i < MAX_PENDING
        invariant 0 <= i <= MAX_PENDING
        invariant forall j | 0 <= j < i :: tracked[j].Some?
      {
        if tracked[i] == None {
          assert tracked[..][i] == None;
          return i;
        }
        i := i + 1;
      }
      return -1;
    }

    method Store(index: nat, t: L.Tracked)
      requires Wired() && index < MAX_PENDING
      requires if tracked[index].Some? then TrackedId(tracked[index].value) == TrackedId(t)
               else TrackedId(t) !in Tables().tracked
      modifies tracked
      ensures Wired()
      ensures Tables() == old(Tables()).(tracked := old(Tables()).tracked[TrackedId(t) := t])
    {
      hide View, UsedSlots;
      ViewAfterPut(tracked[..], TrackedId, index, t);
      tracked[index] := Some(t);
      assert tracked[..] == old(tracked[..])[index := Some(t)];
    }

    method ReleaseTracked(id: u32)
      requires Wired() && id != NO_CORRELATION_ID
      modifies tracked
      ensures Wired()
      ensures Tables() == old(Tables()).(tracked := old(Tables()).tracked - {id})
    {
      hide View, UsedSlots;
      var index := FindTracked(id);
      if index != -1 {
        ViewAfterClear(tracked[..], TrackedId, index);
        tracked[index] := None;
        assert tracked[..] == old(tracked[..])[index := None];
      }
    }

    /** `submit_command_internal`: the tracked slot it needs is always there. */
    method SubmitCommand(queue: Ring<CoreEvent>, c: CoreCommand, maxRetries: u8) returns (err: CoreError)
      requires Valid() && Uses(queue)
      modifies tracked, dispatcher, dispatcher.pending, queue, queue.buffer
      ensures Valid() && Uses(queue)
      ensures var r := L.Submit(old(Tables()), c, maxRetries, queue.buffer.Length - |old(queue.Contents())|);
              && Tables() == r.tables && err == r.err
              && queue.Contents() == old(queue.Contents()) + r.pushed
    {
      hide View, UsedSlots, Unrolled;
      ghost var before := Tables();
      L.SubmitKeepsSane(before, c, maxRetries, queue.buffer.Length - |queue.Contents()|);
      var requestEvent;
      err, requestEvent := dispatcher.Submit(c);
      if err != Ok {
        return;
      }
      SubsetSize(before.tracked.Keys, before.pending.Keys);
      var index := FindTracked(c.correlationId);
      if index == -1 {
        index := FindFreeTracked();
      }
      if index == -1 {
        return NoCapacity;
      }
      Store(index, L.Tracked(c, maxRetries));
      var ok := queue.Push(requestEvent);
      err := if ok then Ok else NoCapacity;
    }

    /** `resolve_command_result`. */
    method ResolveResult(queue: Ring<CoreEvent>, result: CommandResult) returns (err: CoreError)
      requires Valid() && Uses(queue)
      modifies tracked, dispatcher, dispatcher.pending, queue, queue.buffer
      ensures Valid() && Uses(queue)
      ensures var r := L.Resolve(old(Tables()), result, queue.buffer.Length - |old(queue.Contents())|);
              && Tables() == r.tables && err == r.err
              && queue.Contents() == old(queue.Contents()) + r.pushed
    {
      hide View, UsedSlots, Unrolled, TerminalEvent, L.Sane;
      L.ResolveKeepsSane(Tables(), result, queue.buffer.Length - |queue.Contents()|);
      var completionEvent;
      err, completionEvent := dispatcher.Resolve(result);
      if err != Ok {
        return;
      }
      ReleaseTracked(result.correlationId);
      var ok := queue.Push(completionEvent);
      err := if ok then Ok else NoCapacity;
    }

    /** One iteration of the loop of `process_timeouts`. */
    method HandleExpired(queue: Ring<CoreEvent>, timeoutEvent: CoreEvent, nowMs: u32) returns (queued: bool)
      requires Wired() && Uses(queue) && timeoutEvent.correlationId != NO_CORRELATION_ID
      modifies tracked, dispatcher, dispatcher.pending, queue, queue.buffer
      ensures Wired() && Uses(queue)
      ensures var r := L.ExpireOne(old(Tables()), timeoutEvent, nowMs, queue.buffer.Length - |old(queue.Contents())|);
              && Tables() == r.tables
              && queue.Contents() == old(queue.Contents()) + r.pushed
              && queued == (r.pushed != [])
    {
      hide View, UsedSlots, Unrolled, RequestEvent, TerminalEvent;
      var id := timeoutEvent.correlationId;
      var index := FindTracked(id);
      if index != -1 && tracked[index].value.retriesLeft > 0 {
        queued := Retry(queue, index, nowMs);
        if queued {
          return;
        }
      }
      ReleaseTracked(id);
      queued := queue.Push(timeoutEvent);
    }

    /** The retry of a tracked command: it spends one retry whether or not it gets through. */
    method Retry(queue: Ring<CoreEvent>, index: nat, nowMs: u32) returns (queued: bool)
      requires Wired() && Uses(queue)
      requires index < MAX_PENDING && tracked[index].Some? && tracked[index].value.retriesLeft > 0
      requires var t := tracked[index].value; TrackedId(t) in Tables().tracked && Tables().tracked[TrackedId(t)] == t
      modifies tracked, dispatcher, dispatcher.pending, queue, queue.buffer
      ensures Wired() && Uses(queue)
      ensures var t, again := old(tracked[index].value), old(tracked[index].value).command.(issuedAtMs := nowMs);
              var accepted := SubmitVerdict(old(Tables()).pending, again) == Ok;
              && queued == (accepted && |old(queue.Contents())| < queue.buffer.Length)
              && Tables() == L.Tables(if accepted then old(Tables()).pending[TrackedId(t) := again]
                                      else old(Tables()).pending,
                                      old(Tables()).tracked[TrackedId(t) := L.Tracked(again, t.retriesLeft - 1)])
              && queue.Contents() == old(queue.Contents()) + if queued then [RequestEvent(again)] else []
    {
      hide View, UsedSlots, Unrolled, RequestEvent, TerminalEvent;
      var again := tracked[index].value.command.(issuedAtMs := nowMs);
      Store(index, L.Tracked(again, tracked[index].value.retriesLeft - 1));
      var retrySubmit, retryRequest := dispatcher.Submit(again);
      queued := false;
      if retrySubmit == Ok {
        queued := queue.Push(retryRequest);
      }
    }

    /** `process_timeouts`: `order` is the order in which the dispatcher found the expired commands. */
    method ProcessTimeouts(queue: Ring<CoreEvent>, nowMs: u32, timeoutMs: u32)
      returns (queued: nat, ghost order: seq<u32>)
      requires Valid() && Uses(queue)
      modifies tracked, dispatcher, dispatcher.pending, queue, queue.buffer
      ensures Valid() && Uses(queue)
      ensures IsExpiryOrder(old(Tables()).pending, nowMs, timeoutMs, order, MAX_PENDING)
      ensures var r := L.ProcessTimeouts(old(Tables()), nowMs, order, queue.buffer.Length - |old(queue.Contents())|);
              && Tables() == r.tables
              && queue.Contents() == old(queue.Contents()) + r.pushed
    {
      hide View, UsedSlots, Unrolled, L.ExpireEach, IsExpiryOrder, L.Sane, TimeoutEvents, Ids;
      ghost var before, room := Tables(), queue.buffer.Length - |queue.Contents()|;
      var expired := dispatcher.ExpireTimeouts(nowMs, timeoutMs, MAX_PENDING);
      order := Ids(expired);
      ExpiredIdsAreReal(before, nowMs, timeoutMs, expired, order);
      L.TimeoutsKeepSane(before, nowMs, timeoutMs, order, room);
      assert Tables() == L.Dropped(before, order);
      queued := HandleAllExpired(queue, expired, nowMs);
    }

    /** The loop of `process_timeouts`. */
    method HandleAllExpired(queue: Ring<CoreEvent>, expired: seq<CoreEvent>, nowMs: u32) returns (queued: nat)
      requires Wired() && Uses(queue)
      requires forall i | 0 <= i < |expired| :: expired[i].correlationId != NO_CORRELATION_ID
      modifies tracked, dispatcher, dispatcher.pending, queue, queue.buffer
      ensures Wired() && Uses(queue)
      ensures var r := L.ExpireEach(old(Tables()), expired, nowMs, queue.buffer.Length - |old(queue.Contents())|);
              && Tables() == r.tables
              && queue.Contents() == old(queue.Contents()) + r.pushed
              && queued == |r.pushed|
    {
      hide View, UsedSlots, Unrolled, L.ExpireOne, L.ExpireEach, LoopAt;
      ghost var start, queuedBefore := Tables(), queue.Contents();
      LoopStarts(queue, start, nowMs);
      queued := 0;
      var i := 0;
      while i < |expired|
        invariant 0 <= i <= |expired|
        invariant LoopAt(queue, queuedBefore, start, expired[..i], nowMs, queued)
      {
        assert expired[..i + 1] == expired[..i] + [expired[i]];
        LoopEnds(queue, queuedBefore, start, expired[..i], nowMs, queued);
        queued := ExpireStep(queue, queuedBefore, start, expired[..i], expired[i], nowMs, queued);
        i := i + 1;
      }
      assert expired[..i] == expired;
      LoopEnds(queue, queuedBefore, start, expired, nowMs, queued);
    }

    /** The tables and the queue are those of the first `done` iterations. */
    ghost predicate LoopAt(queue: Ring<CoreEvent>, queuedBefore: seq<CoreEvent>, start: L.Tables, done: seq<CoreEvent>,
                           nowMs: u32, queued: nat)
      reads this, tracked, dispatcher, dispatcher.pending, queue, queue.buffer
    {
      && Wired() && Uses(queue) && |queuedBefore| <= queue.buffer.Length
      && var r := L.ExpireEach(start, done, nowMs, queue.buffer.Length - |queuedBefore|);
         Tables() == r.tables && queue.Contents() == queuedBefore + r.pushed && queued == |r.pushed|
    }

    lemma LoopStarts(queue: Ring<CoreEvent>, start: L.Tables, nowMs: u32)
      requires Wired() && Uses(queue) && Tables() == start
      ensures LoopAt(queue, queue.Contents(), start, [], nowMs, 0)
    {
    }

    lemma LoopEnds(queue: Ring<CoreEvent>, queuedBefore: seq<CoreEvent>, start: L.Tables, done: seq<CoreEvent>,
                   nowMs: u32, queued: nat)
      requires LoopAt(queue, queuedBefore, start, done, nowMs, queued)
      ensures Wired() && Uses(queue) && |queuedBefore| <= queue.buffer.Length
      ensures var r := L.ExpireEach(start, done, nowMs, queue.buffer.Length - |queuedBefore|);
              Tables() == r.tables && queue.Contents() == queuedBefore + r.pushed && queued == |r.pushed|
    {
    }

    method ExpireStep(queue: Ring<CoreEvent>, ghost queuedBefore: seq<CoreEvent>, ghost start: L.Tables,
                      ghost done: seq<CoreEvent>, timeoutEvent: CoreEvent, nowMs: u32, queued: nat)
      returns (queuedAfter: nat)
      requires LoopAt(queue, queuedBefore, start, done, nowMs, queued)
      requires timeoutEvent.correlationId != NO_CORRELATION_ID && Uses(queue)
      modifies tracked, dispatcher, dispatcher.pending, queue, queue.buffer
      ensures LoopAt(queue, queuedBefore, start, done + [timeoutEvent], nowMs, queuedAfter)
    {
      hide View, UsedSlots, Unrolled, L.ExpireOne, L.ExpireEach;
      ExpireEachSnoc(start, done, timeoutEvent, nowMs, queue.buffer.Length - |queuedBefore|);
      L.PushesAtMostOne(L.ExpireEach(start, done, nowMs, queue.buffer.Length - |queuedBefore|).tables, timeoutEvent,
                        nowMs, queue.buffer.Length - |queue.Contents()|);
      var ok := HandleExpired(queue, timeoutEvent, nowMs);
      queuedAfter := if ok then queued + 1 else queued;
    }

    lemma ExpiredIdsAreReal(before: L.Tables, nowMs: u32, timeoutMs: u32, expired: seq<CoreEvent>, order: seq<u32>)
      requires L.Sane(before) && order == Ids(expired)
      requires IsExpiryOrder(before.pending, nowMs, timeoutMs, order, MAX_PENDING)
      ensures forall i | 0 <= i < |expired| :: expired[i].correlationId != NO_CORRELATION_ID
      ensures L.Dropped(before, order).pending == before.pending - SetOf(order)
    {
      hide View, UsedSlots, Unrolled, RequestEvent, TerminalEvent, NoDuplicates;
      forall i | 0 <= i < |expired| ensures expired[i].correlationId != NO_CORRELATION_ID {
        assert order[i] in order;
      }
    }
  }
}
