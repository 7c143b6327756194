/** The manager's two inboxes: commands and results posted by other threads, and the loops that drain them into
    the command tables, or, for results of initialisation steps, into the Tuya coordinator. */
module CommandIngress {
  import opened Common
  import opened CoreTypes
  import opened Ring
  import opened CommandDispatcher
  import L = CommandLifecycle
  import M = CommandManager
  import T = TuyaInit
  import TuyaInitRuns

  const INBOX_CAPACITY: nat := MAX_PENDING

  /** `drain_command_requests`: each command in turn; one refused does not stop the others. */
  function SubmitEach(t: L.Tables, commands: seq<CoreCommand>, maxRetries: u8, room: nat): (r: L.Outcome)
    ensures |r.pushed| <= room
    decreases |commands|
  {
    if commands == [] then L.Outcome(t, Ok, [])
    else
      var n := |commands| - 1;
      var before := SubmitEach(t, commands[..n], maxRetries, room);
      var last := L.Submit(before.tables, commands[n], maxRetries, room - |before.pushed|);
      L.Outcome(last.tables, last.err, before.pushed + last.pushed)
  }

  /** `try_route_tuya_init_result`: whether the coordinator takes the result. */
  ghost predicate Taken(c: T.Coordinator, r: CommandResult) {
    r.correlationId >= T.CORRELATION_BASE && T.Ack(c, r.correlationId, r.kind == Success).1
  }

  ghost function Routed(c: T.Coordinator, r: CommandResult): T.Coordinator {
    if Taken(c, r) then T.Ack(c, r.correlationId, r.kind == Success).0 else c
  }

  /** `drain_command_results`. */
  ghost function RouteEach(t: L.Tables, c: T.Coordinator, results: seq<CommandResult>, room: nat)
    : (r: (L.Outcome, T.Coordinator))
    ensures |r.0.pushed| <= room
    decreases |results|
  {
    if results == [] then (L.Outcome(t, Ok, []), c)
    else
      var n := |results| - 1;
      var (before, coordinator) := RouteEach(t, c, results[..n], room);
      if Taken(coordinator, results[n]) then (before, Routed(coordinator, results[n]))
      else
        var last := L.Resolve(before.tables, results[n], room - |before.pushed|);
        (L.Outcome(last.tables, last.err, before.pushed + last.pushed), coordinator)
  }

  // ---------------------------------------------------------------------------------------------
  // The two kinds of results do not interfere
  // ---------------------------------------------------------------------------------------------

  /** In every run of the coordinator: it takes a result exactly when a slot waits under its id, as the acknowledgement
      that the result is, positive for a success and negative otherwise; a result not taken changes nothing there. */
  lemma ResultsAcknowledge(ops: seq<TuyaInitRuns.Op>, k: nat, r: CommandResult)
    requires k <= |ops| && TuyaInitRuns.Bounded(ops)
    ensures var c := TuyaInitRuns.StateAt(ops, k);
            && |c.slots| == T.MAX_SLOTS
            && (Taken(c, r) <==> exists j :: 0 <= j < T.MAX_SLOTS && TuyaInitRuns.WaitsFor(c.slots[j], r.correlationId))
            && Routed(c, r) == TuyaInitRuns.Perform(c, TuyaInitRuns.AckOp(r.correlationId, r.kind == Success))
            && (!Taken(c, r) ==> Routed(c, r) == c)
  {
    TuyaInitRuns.AckHitsExactlyLatest(ops, k, r.correlationId, r.kind == Success);
    TuyaInitRuns.ReachableSane(ops, k);
    hide T.Ack, TuyaInitRuns.StateAt, TuyaInitRuns.Apart;
  }

  /** The coordinator after the results it takes. */
  ghost function CoordinatorAfter(c: T.Coordinator, results: seq<CommandResult>): T.Coordinator {
    if results == [] then c else Routed(CoordinatorAfter(c, results[..|results| - 1]), results[|results| - 1])
  }

  /** The results the coordinator leaves to the command tables, in order. */
  ghost function Left(c: T.Coordinator, results: seq<CommandResult>): seq<CommandResult> {
    if results == [] then []
    else
      var n := |results| - 1;
      Left(c, results[..n]) + if Taken(CoordinatorAfter(c, results[..n]), results[n]) then [] else [results[n]]
  }

  function ResolveEach(t: L.Tables, results: seq<CommandResult>, room: nat): (r: L.Outcome)
    ensures |r.pushed| <= room
    decreases |results|
  {
    if results == [] then L.Outcome(t, Ok, [])
    else
      var n := |results| - 1;
      var before := ResolveEach(t, results[..n], room);
      var last := L.Resolve(before.tables, results[n], room - |before.pushed|);
      L.Outcome(last.tables, last.err, before.pushed + last.pushed)
  }

  /** Draining mixed results does to the tables what the results left to them do alone, and to the coordinator what
      its own results do alone. */
  lemma {:induction false} RoutingSplits(t: L.Tables, c: T.Coordinator, results: seq<CommandResult>, room: nat)
    ensures RouteEach(t, c, results, room) == (ResolveEach(t, Left(c, results), room), CoordinatorAfter(c, results))
  {
    hide L.Resolve, Taken, Routed;
    if results != [] {
      var front, last := results[..|results| - 1], results[|results| - 1];
      RoutingSplits(t, c, front, room);
      if Taken(CoordinatorAfter(c, front), last) {
        assert Left(c, results) == Left(c, front) + [] == Left(c, front);
      } else {
        LeftAlone(CoordinatorAfter(c, front), last);
        ResolveEachSnoc(t, Left(c, front), last, room);
      }
    }
  }

  lemma ResolveEachSnoc(t: L.Tables, results: seq<CommandResult>, r: CommandResult, room: nat)
    ensures var before := ResolveEach(t, results, room);
            var last := L.Resolve(before.tables, r, room - |before.pushed|);
            ResolveEach(t, results + [r], room) == L.Outcome(last.tables, last.err, before.pushed + last.pushed)
  {
    hide L.Resolve;
    var all := results + [r];
    assert all[..|all| - 1] == results && all[|all| - 1] == r;
  }

  /** Results with an id below the coordinator's range are all left to the tables, in order. */
  lemma {:induction false} CommandResultsReachTables(c: T.Coordinator, results: seq<CommandResult>)
    requires forall i | 0 <= i < |results| :: results[i].correlationId < T.CORRELATION_BASE
    ensures Left(c, results) == results && CoordinatorAfter(c, results) == c
  {
    hide T.Ack;
    if results != [] {
      CommandResultsReachTables(c, results[..|results| - 1]);
    }
  }

  lemma SubmitEachSnoc(t: L.Tables, commands: seq<CoreCommand>, c: CoreCommand, maxRetries: u8, room: nat)
    ensures var before := SubmitEach(t, commands, maxRetries, room);
            var last := L.Submit(before.tables, c, maxRetries, room - |before.pushed|);
            SubmitEach(t, commands + [c], maxRetries, room) == L.Outcome(last.tables, last.err, before.pushed + last.pushed)
  {
    hide L.Submit;
    var all := commands + [c];
    assert all[..|all| - 1] == commands && all[|all| - 1] == c;
  }

  lemma RouteEachSnoc(t: L.Tables, c: T.Coordinator, results: seq<CommandResult>, r: CommandResult, room: nat)
    ensures var (before, coordinator) := RouteEach(t, c, results, room);
            RouteEach(t, c, results + [r], room)
            == if Taken(coordinator, r) then (before, Routed(coordinator, r))
               else
                 var last := L.Resolve(before.tables, r, room - |before.pushed|);
                 (L.Outcome(last.tables, last.err, before.pushed + last.pushed), coordinator)
  {
    hide L.Resolve, Taken, Routed;
    var all := results + [r];
    assert all[..|all| - 1] == results && all[|all| - 1] == r;
  }

  lemma TakeNext<X>(all: seq<X>, k: nat)
    requires k < |all|
    ensures all[..k + 1] == all[..k] + [all[k]] && all[k..][0] == all[k] && all[k..][1..] == all[k + 1..]
  {
  }

  class CommandIngress {
    const requests: Ring<CoreCommand>
    const results: Ring<CommandResult>

    ghost predicate Valid()
      reads this, requests, requests.buffer, results, results.buffer
    {
      && requests.Valid() && requests.buffer.Length == INBOX_CAPACITY
      && results.Valid() && results.buffer.Length == INBOX_CAPACITY
      && (requests as object) != (results as object) && (requests.buffer as object) != (results.buffer as object)
    }

    /** The inboxes share no memory with the objects they are drained into. */
    ghost predicate Feeds(m: M.CommandManager, queue: Ring<CoreEvent>)
      reads this, requests, results, m, m.dispatcher, queue
    {
      && (requests as object) != (queue as object) && (results as object) != (queue as object)
      && (requests.buffer as object) != (queue.buffer as object) && (results.buffer as object) != (queue.buffer as object)
      && (requests.buffer as object) != (m.tracked as object) && (results.buffer as object) != (m.tracked as object)
      && (requests.buffer as object) != (m.dispatcher.pending as object)
      && (results.buffer as object) != (m.dispatcher.pending as object)
    }

    constructor ()
      ensures Valid() && requests.Contents() == [] && results.Contents() == []
      ensures fresh(requests) && fresh(requests.buffer) && fresh(results) && fresh(results.buffer)
    {
      requests := new Ring(INBOX_CAPACITY, CoreCommand(UnknownCommand, 0, 0, UNKNOWN_SHORT_ADDR, false, 0));
      results := new Ring(INBOX_CAPACITY, CommandResult(0, Failed, 0));
    }

    method PostCommand(c: CoreCommand) returns (err: CoreError)
      requires Valid()
      modifies requests, requests.buffer
      ensures Valid()
      ensures err == if c.correlationId == NO_CORRELATION_ID || c.kind == UnknownCommand then InvalidArgument
                     else if |old(requests.Contents())| >= INBOX_CAPACITY then NoCapacity else Ok
      ensures requests.Contents() == if err == Ok then old(requests.Contents()) + [c] else old(requests.Contents())
    {
      if c.correlationId == NO_CORRELATION_ID || c.kind == UnknownCommand {
        return InvalidArgument;
      }
      var ok := requests.Push(c);
      err := if ok then Ok else NoCapacity;
    }

    method HandleCommandResult(r: CommandResult) returns (err: CoreError)
      requires Valid()
      modifies results, results.buffer
      ensures Valid()
      ensures err == if r.correlationId == NO_CORRELATION_ID then InvalidArgument
                     else if |old(results.Contents())| >= INBOX_CAPACITY then NoCapacity else Ok
      ensures results.Contents() == if err == Ok then old(results.Contents()) + [r] else old(results.Contents())
    {
      if r.correlationId == NO_CORRELATION_ID {
        return InvalidArgument;
      }
      var ok := results.Push(r);
      err := if ok then Ok else NoCapacity;
    }

    /** Every command posted is submitted exactly once, in the order posted. */
    method DrainRequests(m: M.CommandManager, queue: Ring<CoreEvent>, maxRetries: u8) returns (drained: bool)
      requires Valid() && m.Valid() && m.Uses(queue) && Feeds(m, queue)
      modifies requests, m.tracked, m.dispatcher, m.dispatcher.pending, queue, queue.buffer
      ensures Valid() && m.Valid() && m.Uses(queue)
      ensures requests.Contents() == [] && results.Contents() == old(results.Contents())
      ensures drained == (old(requests.Contents()) != [])
      ensures var r := SubmitEach(old(m.Tables()), old(requests.Contents()), maxRetries,
                                  queue.buffer.Length - |old(queue.Contents())|);
              m.Tables() == r.tables && queue.Contents() == old(queue.Contents()) + r.pushed
    {
      hide DrainedTo, Submitted, SubmitEach, Unrolled, M.CommandManager.Valid, M.CommandManager.Tables;
      ghost var start, before := m.Tables(), queue.Contents();
      ghost var all, kept, k := requests.Contents(), results.Contents(), 0;
      SubmitStarts(m, queue, maxRetries);
      DrainStarts(m, queue, maxRetries);
      drained := false;
      while true
        invariant 0 <= k <= |all| && drained == (k > 0)
        invariant DrainedTo(m, queue, maxRetries, start, before, all, kept, k)
        decreases |all| - k
      {
        var more := DrainOneRequest(m, queue, maxRetries, start, before, all, kept, k);
        if !more {
          break;
        }
        drained := true;
        k := k + 1;
      }
      DrainEnds(m, queue, maxRetries, start, before, all, kept, k);
      SubmitEnds(m, queue, start, before, all, maxRetries);
    }

    /** The first `k` commands of the inbox have been submitted, and nothing else has moved. */
    ghost predicate DrainedTo(m: M.CommandManager, queue: Ring<CoreEvent>, maxRetries: u8, start: L.Tables,
                              before: seq<CoreEvent>, all: seq<CoreCommand>, kept: seq<CommandResult>, k: nat)
      reads this, requests, requests.buffer, results, results.buffer
      reads m, m.tracked, m.dispatcher, m.dispatcher.pending, queue, queue.buffer
    {
      && Valid() && Feeds(m, queue)
      && k <= |all| && requests.Contents() == all[k..] && results.Contents() == kept
      && Submitted(m, queue, start, before, all[..k], maxRetries)
    }

    lemma DrainStarts(m: M.CommandManager, queue: Ring<CoreEvent>, maxRetries: u8)
      requires Valid() && Feeds(m, queue) && queue.Valid()
      requires Submitted(m, queue, m.Tables(), queue.Contents(), [], maxRetries)
      ensures DrainedTo(m, queue, maxRetries, m.Tables(), queue.Contents(), requests.Contents(), results.Contents(), 0)
    {
      hide Submitted, Unrolled, M.CommandManager.Tables;
      assert requests.Contents()[..0] == [];
    }

    lemma DrainEnds(m: M.CommandManager, queue: Ring<CoreEvent>, maxRetries: u8, start: L.Tables,
                    before: seq<CoreEvent>, all: seq<CoreCommand>, kept: seq<CommandResult>, k: nat)
      requires DrainedTo(m, queue, maxRetries, start, before, all, kept, k) && k == |all|
      ensures Valid() && requests.Contents() == [] && results.Contents() == kept
      ensures Submitted(m, queue, start, before, all, maxRetries)
    {
      hide Submitted, Unrolled;
      assert all[..k] == all;
    }

    /** One turn of the loop. */
    method DrainOneRequest(m: M.CommandManager, queue: Ring<CoreEvent>, maxRetries: u8, ghost start: L.Tables,
                           ghost before: seq<CoreEvent>, ghost all: seq<CoreCommand>, ghost kept: seq<CommandResult>,
                           ghost k: nat)
      returns (more: bool)
      requires DrainedTo(m, queue, maxRetries, start, before, all, kept, k)
      modifies requests, m.tracked, m.dispatcher, m.dispatcher.pending, queue, queue.buffer
      ensures more == (k < |all|)
      ensures DrainedTo(m, queue, maxRetries, start, before, all, kept, if more then k + 1 else k)
    {
      hide Submitted, SubmitEach, Unrolled, M.CommandManager.Valid, M.CommandManager.Tables;
      var c := requests.Pop();
      more := c.Some?;
      if more {
        TakeNext(all, k);
        SubmitNext(m, queue, c.value, maxRetries, start, before, all[..k]);
      }
    }

    /** The tables and the queue are those after the commands `done`. */
    ghost predicate Submitted(m: M.CommandManager, queue: Ring<CoreEvent>, start: L.Tables, before: seq<CoreEvent>,
                              done: seq<CoreCommand>, maxRetries: u8)
      reads m, m.tracked, m.dispatcher, m.dispatcher.pending, queue, queue.buffer
    {
      && m.Valid() && m.Uses(queue) && |before| <= queue.buffer.Length
      && var r := SubmitEach(start, done, maxRetries, queue.buffer.Length - |before|);
         m.Tables() == r.tables && queue.Contents() == before + r.pushed
    }

    lemma SubmitStarts(m: M.CommandManager, queue: Ring<CoreEvent>, maxRetries: u8)
      requires m.Valid() && m.Uses(queue)
      ensures Submitted(m, queue, m.Tables(), queue.Contents(), [], maxRetries)
    {
      hide L.Sane, Unrolled;
    }

    lemma SubmitEnds(m: M.CommandManager, queue: Ring<CoreEvent>, start: L.Tables, before: seq<CoreEvent>,
                     done: seq<CoreCommand>, maxRetries: u8)
      requires Submitted(m, queue, start, before, done, maxRetries)
      ensures m.Valid() && m.Uses(queue) && |before| <= queue.buffer.Length
      ensures var r := SubmitEach(start, done, maxRetries, queue.buffer.Length - |before|);
              m.Tables() == r.tables && queue.Contents() == before + r.pushed
    {
      hide L.Sane, Unrolled, SubmitEach;
    }

    method SubmitNext(m: M.CommandManager, queue: Ring<CoreEvent>, c: CoreCommand, maxRetries: u8,
                      ghost start: L.Tables, ghost before: seq<CoreEvent>, ghost done: seq<CoreCommand>)
      requires Submitted(m, queue, start, before, done, maxRetries)
      modifies m.tracked, m.dispatcher, m.dispatcher.pending, queue, queue.buffer
      ensures Submitted(m, queue, start, before, done + [c], maxRetries)
    {
      hide Unrolled, SubmitEach, L.Submit, L.Sane, M.CommandManager.Tables;
      ghost var room := queue.buffer.Length - |before|;
      SubmitEachSnoc(start, done, c, maxRetries, room);
      ghost var pushed := SubmitEach(start, done, maxRetries, room).pushed;
      var err := m.SubmitCommand(queue, c, maxRetries);
      Regroup(before, pushed, L.Submit(SubmitEach(start, done, maxRetries, room).tables, c, maxRetries,
                                       room - |pushed|).pushed);
    }

    /** Every result posted goes exactly once, in the order posted, to the coordinator or to the tables. */
    method DrainResults(m: M.CommandManager, queue: Ring<CoreEvent>, init: T.TuyaInitCoordinator)
      returns (drained: bool)
      requires Valid() && m.Valid() && m.Uses(queue) && Feeds(m, queue) && init.Valid()
      requires SlotsApart(m, queue, init)
      modifies results, m.tracked, m.dispatcher, m.dispatcher.pending, queue, queue.buffer, init.entries
      ensures Valid() && m.Valid() && m.Uses(queue)
      ensures results.Contents() == [] && requests.Contents() == old(requests.Contents())
      ensures drained == (old(results.Contents()) != [])
      ensures var (r, coordinator) := RouteEach(old(m.Tables()), old(init.State()), old(results.Contents()),
                                                queue.buffer.Length - |old(queue.Contents())|);
              && m.Tables() == r.tables && queue.Contents() == old(queue.Contents()) + r.pushed
              && init.State() == coordinator
    {
      hide DeliveredTo, Delivered, RouteEach, Unrolled, M.CommandManager.Valid, M.CommandManager.Tables;
      ghost var start, first, before := m.Tables(), init.State(), queue.Contents();
      ghost var all, kept, k := results.Contents(), requests.Contents(), 0;
      DeliveryStarts(m, queue, init);
      DeliveringStarts(m, queue, init);
      drained := false;
      while true
        invariant 0 <= k <= |all| && drained == (k > 0)
        invariant DeliveredTo(m, queue, init, start, first, before, all, kept, k)
        decreases |all| - k
      {
        var more := DeliverOneResult(m, queue, init, start, first, before, all, kept, k);
        if !more {
          break;
        }
        drained := true;
        k := k + 1;
      }
      DeliveringEnds(m, queue, init, start, first, before, all, kept, k);
      DeliveryEnds(m, queue, init, start, first, before, all);
    }

    /** The coordinator's slots are memory of its own. */
    ghost predicate SlotsApart(m: M.CommandManager, queue: Ring<CoreEvent>, init: T.TuyaInitCoordinator)
      reads this, requests, results, m, m.dispatcher, queue, init
    {
      && (init.entries as object) != (requests.buffer as object)
      && (init.entries as object) != (results.buffer as object)
      && (init.entries as object) != (queue.buffer as object)
      && (init.entries as object) != (m.tracked as object)
      && (init.entries as object) != (m.dispatcher.pending as object)
    }

    /** The first `k` results of the inbox have been delivered, and nothing else has moved. */
    ghost predicate DeliveredTo(m: M.CommandManager, queue: Ring<CoreEvent>, init: T.TuyaInitCoordinator,
                                start: L.Tables, first: T.Coordinator, before: seq<CoreEvent>,
                                all: seq<CommandResult>, kept: seq<CoreCommand>, k: nat)
      reads this, requests, requests.buffer, results, results.buffer, init, init.entries
      reads m, m.tracked, m.dispatcher, m.dispatcher.pending, queue, queue.buffer
    {
      && Valid() && Feeds(m, queue) && SlotsApart(m, queue, init)
      && k <= |all| && results.Contents() == all[k..] && requests.Contents() == kept
      && Delivered(m, queue, init, start, first, before, all[..k])
    }

    lemma DeliveringStarts(m: M.CommandManager, queue: Ring<CoreEvent>, init: T.TuyaInitCoordinator)
      requires Valid() && Feeds(m, queue) && SlotsApart(m, queue, init) && queue.Valid()
      requires Delivered(m, queue, init, m.Tables(), init.State(), queue.Contents(), [])
      ensures DeliveredTo(m, queue, init, m.Tables(), init.State(), queue.Contents(), results.Contents(),
                          requests.Contents(), 0)
    {
      hide Delivered, Unrolled, M.CommandManager.Tables;
      assert results.Contents()[..0] == [];
    }

    lemma DeliveringEnds(m: M.CommandManager, queue: Ring<CoreEvent>, init: T.TuyaInitCoordinator, start: L.Tables,
                         first: T.Coordinator, before: seq<CoreEvent>, all: seq<CommandResult>, kept: seq<CoreCommand>,
                         k: nat)
      requires DeliveredTo(m, queue, init, start, first, before, all, kept, k) && k == |all|
      ensures Valid() && results.Contents() == [] && requests.Contents() == kept
      ensures Delivered(m, queue, init, start, first, before, all)
    {
      hide Delivered, Unrolled;
      assert all[..k] == all;
    }

    /** One turn of the loop. */
    method DeliverOneResult(m: M.CommandManager, queue: Ring<CoreEvent>, init: T.TuyaInitCoordinator,
                            ghost start: L.Tables, ghost first: T.Coordinator, ghost before: seq<CoreEvent>,
                            ghost all: seq<CommandResult>, ghost kept: seq<CoreCommand>, ghost k: nat)
      returns (more: bool)
      requires DeliveredTo(m, queue, init, start, first, before, all, kept, k)
      modifies results, m.tracked, m.dispatcher, m.dispatcher.pending, queue, queue.buffer, init.entries
      ensures more == (k < |all|)
      ensures DeliveredTo(m, queue, init, start, first, before, all, kept, if more then k + 1 else k)
    {
      hide Delivered, RouteEach, Unrolled, M.CommandManager.Valid, M.CommandManager.Tables;
      var r := results.Pop();
      more := r.Some?;
      if more {
        TakeNext(all, k);
        DeliverNext(m, queue, init, r.value, start, first, before, all[..k]);
      }
    }

    /** The tables, the queue and the coordinator are those after the results `done`. */
    ghost predicate Delivered(m: M.CommandManager, queue: Ring<CoreEvent>, init: T.TuyaInitCoordinator, start: L.Tables,
                              first: T.Coordinator, before: seq<CoreEvent>, done: seq<CommandResult>)
      reads m, m.tracked, m.dispatcher, m.dispatcher.pending, queue, queue.buffer, init, init.entries
    {
      && m.Valid() && m.Uses(queue) && init.Valid() && |before| <= queue.buffer.Length
      && var (r, coordinator) := RouteEach(start, first, done, queue.buffer.Length - |before|);
         && m.Tables() == r.tables && queue.Contents() == before + r.pushed
         && init.State() == coordinator
    }

    lemma DeliveryStarts(m: M.CommandManager, queue: Ring<CoreEvent>, init: T.TuyaInitCoordinator)
      requires m.Valid() && m.Uses(queue) && init.Valid()
      ensures Delivered(m, queue, init, m.Tables(), init.State(), queue.Contents(), [])
    {
      hide L.Sane, Unrolled;
    }

    lemma DeliveryEnds(m: M.CommandManager, queue: Ring<CoreEvent>, init: T.TuyaInitCoordinator, start: L.Tables,
                       first: T.Coordinator, before: seq<CoreEvent>, done: seq<CommandResult>)
      requires Delivered(m, queue, init, start, first, before, done)
      ensures m.Valid() && m.Uses(queue) && |before| <= queue.buffer.Length
      ensures var (r, coordinator) := RouteEach(start, first, done, queue.buffer.Length - |before|);
              && m.Tables() == r.tables && queue.Contents() == before + r.pushed
              && init.State() == coordinator
    {
      hide L.Sane, Unrolled, RouteEach;
    }

    method DeliverNext(m: M.CommandManager, queue: Ring<CoreEvent>, init: T.TuyaInitCoordinator, r: CommandResult,
                       ghost start: L.Tables, ghost first: T.Coordinator, ghost before: seq<CoreEvent>,
                       ghost done: seq<CommandResult>)
      requires Delivered(m, queue, init, start, first, before, done)
      requires (init.entries as object) != (queue.buffer as object) && (init.entries as object) != (m.tracked as object)
      requires (init.entries as object) != (m.dispatcher.pending as object)
      modifies m.tracked, m.dispatcher, m.dispatcher.pending, queue, queue.buffer, init.entries
      ensures Delivered(m, queue, init, start, first, before, done + [r])
    {
      hide Unrolled, RouteEach, L.Resolve, L.Sane, M.CommandManager.Tables, T.Ack, Taken, Routed;
      ghost var room := queue.buffer.Length - |before|;
      NextDelivery(start, first, before, done, r, room);
      var taken := RouteToInit(init, r);
      if !taken {
        var err := m.ResolveResult(queue, r);
      }
    }

    /** What the next result does to tables, queue and coordinator, in the shape in which it is done. */
    lemma NextDelivery(start: L.Tables, first: T.Coordinator, before: seq<CoreEvent>, done: seq<CommandResult>,
                       r: CommandResult, room: nat)
      ensures var (so, coordinator) := RouteEach(start, first, done, room);
              var (next, after) := RouteEach(start, first, done + [r], room);
              && after == Routed(coordinator, r)
              && (Taken(coordinator, r) ==> next == so)
              && (!Taken(coordinator, r) ==>
                    after == coordinator
                    && var last := L.Resolve(so.tables, r, room - |so.pushed|);
                       && next.tables == last.tables
                       && before + next.pushed == before + so.pushed + last.pushed)
    {
      hide RouteEach, L.Resolve, T.Ack;
      RouteEachSnoc(start, first, done, r, room);
      var (so, coordinator) := RouteEach(start, first, done, room);
      Regroup(before, so.pushed, L.Resolve(so.tables, r, room - |so.pushed|).pushed);
    }

    method RouteToInit(init: T.TuyaInitCoordinator, r: CommandResult) returns (taken: bool)
      requires init.Valid()
      modifies init.entries
      ensures taken == Taken(old(init.State()), r) && init.State() == Routed(old(init.State()), r)
    {
      hide T.Ack;
      if r.correlationId < T.CORRELATION_BASE {
        return false;
      }
      AckRefusedChangesNothing(init.State(), r);
      taken := init.NotifyAck(r.correlationId, r.kind == Success);
    }
  }

  lemma LeftAlone(c: T.Coordinator, r: CommandResult)
    requires !Taken(c, r)
    ensures Routed(c, r) == c
  {
  }

  lemma AckRefusedChangesNothing(c: T.Coordinator, r: CommandResult)
    ensures !T.Ack(c, r.correlationId, r.kind == Success).1 ==> T.Ack(c, r.correlationId, r.kind == Success).0 == c
  {
  }
}
