/** The dispatcher: a 16-slot table of commands awaiting their result. */
module CommandDispatcher {
  import opened Common
  import opened CoreTypes
  import opened Slots

  const MAX_PENDING: nat := 16

  datatype CommandType = UnknownCommand | SetDevicePower | RefreshNetworkCommand | UpdateReportingProfile

  datatype CoreCommand = CoreCommand(
    kind: CommandType,
    correlationId: u32,
    deviceId: DeviceId,
    shortAddr: u16,
    desiredPowerOn: bool,
    issuedAtMs: u32)

  datatype ResultType = Success | TimedOut | Failed

  datatype CommandResult = CommandResult(correlationId: u32, kind: ResultType, completedAtMs: u32)

  datatype CoreError = Ok | InvalidArgument | NotFound | Busy | NoCapacity | Internal

  predicate Supported(kind: CommandType) {
    kind == SetDevicePower || kind == RefreshNetworkCommand
  }

  function CorrelationOf(c: CoreCommand): u32 {
    c.correlationId
  }

  function RequestEvent(c: CoreCommand): CoreEvent {
    DEFAULT_EVENT.(
      kind := match c.kind
              case SetDevicePower => CommandSetDevicePowerRequested
              case RefreshNetworkCommand => CommandRefreshNetworkRequested
              case _ => EvUnknown,
      correlationId := c.correlationId, deviceId := c.deviceId, shortAddr := c.shortAddr,
      valueBool := c.desiredPowerOn, valueU32 := c.issuedAtMs)
  }

  function TerminalEvent(c: CoreCommand, kind: EventType, atMs: u32): CoreEvent {
    DEFAULT_EVENT.(kind := kind, correlationId := c.correlationId, deviceId := c.deviceId, shortAddr := c.shortAddr,
                   valueU32 := atMs, valueBool := kind == CommandResultSuccess)
  }

  function ResultEventType(kind: ResultType): EventType {
    match kind
    case Success => CommandResultSuccess
    case TimedOut => CommandResultTimeout
    case Failed => CommandResultFailed
  }

  /** The age is taken modulo 2^32, so it stays right across a wrap of the millisecond clock. */
  predicate Expired(c: CoreCommand, nowMs: u32, timeoutMs: u32) {
    timeoutMs != 0 && Wrap32(nowMs - c.issuedAtMs) >= timeoutMs
  }

  predicate Submittable(c: CoreCommand) {
    c.correlationId != NO_CORRELATION_ID && Supported(c.kind)
  }

  /** The verdict on a submission, from the commands already pending. */
  function SubmitVerdict(pending: map<u32, CoreCommand>, c: CoreCommand): CoreError {
    if !Submittable(c) then InvalidArgument
    else if |pending| >= MAX_PENDING then NoCapacity
    else if c.correlationId in pending then Busy
    else Ok
  }

  predicate WellKeyed(pending: map<u32, CoreCommand>) {
    forall id | id in pending :: pending[id].correlationId == id && Submittable(pending[id])
  }

  class CoreCommandDispatcher {
    const pending: array<Option<CoreCommand>>
    var pendingCount: nat

    ghost predicate Valid()
      reads this, pending
    {
      && pending.Length == MAX_PENDING
      && DistinctKeys(pending[..], CorrelationOf)
      && (forall i | 0 <= i < MAX_PENDING && pending[i].Some? :: Submittable(pending[i].value))
      && pendingCount == |Pending()|
    }

    ghost function Pending(): map<u32, CoreCommand>
      reads this, pending
    {
      View(pending[..], CorrelationOf)
    }

    constructor ()
      ensures Valid() && fresh(pending) && Pending() == map[]
    {
      pending := new Option<CoreCommand>[MAX_PENDING](_ => None);
      pendingCount := 0;
    }

    lemma PendingIsWellKeyed()
      requires Valid()
      ensures WellKeyed(Pending()) && |Pending()| <= MAX_PENDING
    {
      forall id | id in Pending() ensures Pending()[id].correlationId == id && Submittable(Pending()[id]) {
        ViewHas(pending[..], CorrelationOf, id);
      }
      FreeSlotIffRoom(pending[..], CorrelationOf);
    }

    /** The slot holding `id`, or -1. */
    method FindPending(id: u32) returns (index: int)
      requires Valid()
      ensures index == -1 <==> id !in Pending()
      ensures index != -1 ==> 0 <= index < MAX_PENDING && pending[index].Some? && pending[index].value == Pending()[id]
      ensures index != -1 ==> pending[index].value.correlationId == id
    {
      var i := 0;
      while i < MAX_PENDING
        invariant 0 <= i <= MAX_PENDING
        invariant forall j | 0 <= j < i && pending[j].Some? :: pending[j].value.correlationId != id
      {
        if pending[i].Some? && pending[i].value.correlationId == id {
          ViewAt(pending[..], CorrelationOf, i);
          return i;
        }
        i := i + 1;
      }
      ViewLacks(pending[..], CorrelationOf, id);
      return -1;
    }

    method FindFree() returns (index: int)
      requires Valid()
      ensures index == -1 <==> |Pending()| >= MAX_PENDING
      ensures index != -1 ==> 0 <= index < MAX_PENDING && pending[index] == None
    {
      FreeSlotIffRoom(pending[..], CorrelationOf);
      var i := 0;
      while i < MAX_PENDING
        invariant 0 <= i <= MAX_PENDING
        invariant forall j | 0 <= j < i :: pending[j].Some?
      {
        if pending[i] == None {
          assert pending[..][i] == None;
          return i;
        }
        i := i + 1;
      }
      return -1;
    }

    method Submit(c: CoreCommand) returns (err: CoreError, requestEvent: CoreEvent)
      requires Valid()
      modifies this, pending
      ensures Valid()
      ensures err == SubmitVerdict(old(Pending()), c)
      ensures Pending() == if err == Ok then old(Pending())[c.correlationId := c] else old(Pending())
      ensures err == Ok ==> requestEvent == RequestEvent(c)
    {
      hide View, UsedSlots;
      requestEvent := DEFAULT_EVENT;
      if c.correlationId == NO_CORRELATION_ID || !Supported(c.kind) {
        return InvalidArgument, requestEvent;
      }
      if pendingCount >= MAX_PENDING {
        return NoCapacity, requestEvent;
      }
      var taken := FindPending(c.correlationId);
      if taken != -1 {
        return Busy, requestEvent;
      }
      var free := FindFree();
      if free == -1 {
        return Internal, requestEvent;
      }
      ViewAfterPut(pending[..], CorrelationOf, free, c);
      pending[free] := Some(c);
      assert pending[..] == old(pending[..])[free := Some(c)];
      pendingCount := pendingCount + 1;
      return Ok, RequestEvent(c);
    }

    method Resolve(result: CommandResult) returns (err: CoreError, completionEvent: CoreEvent)
      requires Valid()
      modifies this, pending
      ensures Valid()
      ensures err == if result.correlationId == NO_CORRELATION_ID then InvalidArgument
                     else if result.correlationId in old(Pending()) then Ok else NotFound
      ensures Pending() == if err == Ok then old(Pending()) - {result.correlationId} else old(Pending())
      ensures err == Ok ==>
                completionEvent == TerminalEvent(old(Pending())[result.correlationId], ResultEventType(result.kind),
                                                 result.completedAtMs)
    {
      hide View, UsedSlots;
      completionEvent := DEFAULT_EVENT;
      if result.correlationId == NO_CORRELATION_ID {
        return InvalidArgument, completionEvent;
      }
      var i := FindPending(result.correlationId);
      if i == -1 {
        return NotFound, completionEvent;
      }
      completionEvent := TerminalEvent(pending[i].value, ResultEventType(result.kind), result.completedAtMs);
      Clear(i);
      return Ok, completionEvent;
    }

    /** `entry = PendingEntry{}` with its guarded count decrement. */
    method Clear(i: nat)
      requires Valid() && i < MAX_PENDING && pending[i].Some?
      modifies this, pending
      ensures Valid()
      ensures Pending() == old(Pending()) - {old(pending[i].value.correlationId)}
      ensures pending[..] == old(pending[..])[i := None]
    {
      hide View, UsedSlots;
      ViewAfterClear(pending[..], CorrelationOf, i);
      pending[i] := None;
      assert pending[..] == old(pending[..])[i := None];
      if pendingCount > 0 {
        pendingCount := pendingCount - 1;
      }
    }

    /** Removes the expired commands slot by slot and reports each with a timeout event, at most `capacity`. */
    method ExpireTimeouts(nowMs: u32, timeoutMs: u32, capacity: nat) returns (events: seq<CoreEvent>)
      requires Valid()
      modifies this, pending
      ensures Valid() && |events| <= capacity
      ensures IsExpiryOrder(old(Pending()), nowMs, timeoutMs, Ids(events), capacity)
      ensures events == TimeoutEvents(old(Pending()), Ids(events), nowMs)
      ensures Pending() == old(Pending()) - SetOf(Ids(events))
    {
      hide View, UsedSlots, Ids, TimeoutEvents, TerminalEvent, ExpiredOnce, SetOf, IsExpiryOrder, SweptTo, Expired,
        DistinctKeys, Submittable;
      ghost var before := Pending();
      NothingReported(before, nowMs, timeoutMs, capacity);
      events := [];
      if capacity == 0 || timeoutMs == 0 {
        return;
      }
      NothingSwept(nowMs, timeoutMs);
      var i := 0;
      while i < MAX_PENDING && |events| < capacity
        invariant Valid() && 0 <= i <= MAX_PENDING && |events| <= capacity && |events| <= i
        invariant Pending() == before - SetOf(Ids(events))
        invariant ExpiredOnce(before, nowMs, timeoutMs, Ids(events))
        invariant events == TimeoutEvents(before, Ids(events), nowMs)
        invariant SweptTo(i, nowMs, timeoutMs)
      {
        var fired := ExpireSlot(i, nowMs, timeoutMs);
        if fired.Some? {
          AppendExpired(before, events, fired.value, nowMs, timeoutMs);
          events := events + [TerminalEvent(fired.value, CommandResultTimeout, nowMs)];
        }
        i := i + 1;
      }
      if i == MAX_PENDING {
        NothingLeft(nowMs, timeoutMs);
        ExpiryComplete(before, nowMs, timeoutMs, Ids(events), capacity);
      } else {
        ExpiryCut(before, nowMs, timeoutMs, Ids(events), capacity);
      }
    }

    /** The slots below `i` hold no expired command. */
    ghost predicate SweptTo(i: nat, nowMs: u32, timeoutMs: u32)
      reads pending
    {
      i <= pending.Length
      && forall j | 0 <= j < i && pending[j].Some? :: !Expired(pending[j].value, nowMs, timeoutMs)
    }

    lemma NothingSwept(nowMs: u32, timeoutMs: u32)
      ensures SweptTo(0, nowMs, timeoutMs)
    {
    }

    /** One slot of the expiry loop: cleared if its command has timed out. */
    method ExpireSlot(i: nat, nowMs: u32, timeoutMs: u32) returns (fired: Option<CoreCommand>)
      requires Valid() && i < MAX_PENDING && timeoutMs != 0 && SweptTo(i, nowMs, timeoutMs)
      modifies this, pending
      ensures Valid() && SweptTo(i + 1, nowMs, timeoutMs)
      ensures fired == None ==> Pending() == old(Pending())
      ensures fired.Some? ==>
                var c := fired.value;
                && Expired(c, nowMs, timeoutMs)
                && c.correlationId in old(Pending()) && old(Pending())[c.correlationId] == c
                && Pending() == old(Pending()) - {c.correlationId}
    {
      hide View, UsedSlots;
      if pending[i] == None {
        return None;
      }
      var c := pending[i].value;
      var age := Wrap32(nowMs - c.issuedAtMs);
      if age < timeoutMs {
        return None;
      }
      ViewAt(pending[..], CorrelationOf, i);
      Clear(i);
      assert forall j | 0 <= j < i :: pending[..][j] == old(pending[..])[j];
      fired := Some(c);
    }

    lemma NothingLeft(nowMs: u32, timeoutMs: u32)
      requires Valid() && SweptTo(MAX_PENDING, nowMs, timeoutMs)
      ensures forall id | id in Pending() :: !Expired(Pending()[id], nowMs, timeoutMs)
    {
      forall id | id in Pending() ensures !Expired(Pending()[id], nowMs, timeoutMs) {
        ViewHas(pending[..], CorrelationOf, id);
      }
    }
  }

  // ---------------------------------------------------------------------------------------------
  // Lists of events and ids
  // ---------------------------------------------------------------------------------------------

  function Ids(events: seq<CoreEvent>): (ids: seq<u32>)
    ensures |ids| == |events|
    ensures forall k | 0 <= k < |events| :: ids[k] == events[k].correlationId
  {
    if events == [] then [] else Ids(events[..|events| - 1]) + [events[|events| - 1].correlationId]
  }

  ghost function SetOf(ids: seq<u32>): set<u32> {
    set id | id in ids
  }

  predicate NoDuplicates(ids: seq<u32>) {
    forall j, k | 0 <= j < k < |ids| :: ids[j] != ids[k]
  }

  function TimeoutEvents(pending: map<u32, CoreCommand>, ids: seq<u32>, nowMs: u32): (events: seq<CoreEvent>)
    ensures |events| == |ids|
  {
    if ids == [] then []
    else
      var n := |ids| - 1;
      TimeoutEvents(pending, ids[..n], nowMs)
      + [if ids[n] in pending then TerminalEvent(pending[ids[n]], CommandResultTimeout, nowMs) else DEFAULT_EVENT]
  }

  /** `ids` lists expired commands, once each. */
  ghost predicate ExpiredOnce(pending: map<u32, CoreCommand>, nowMs: u32, timeoutMs: u32, ids: seq<u32>) {
    NoDuplicates(ids) && forall id | id in ids :: id in pending && Expired(pending[id], nowMs, timeoutMs)
  }

  /** `ids` lists expired commands once each, and all of them unless `capacity` cut the list short. */
  ghost predicate IsExpiryOrder(pending: map<u32, CoreCommand>, nowMs: u32, timeoutMs: u32, ids: seq<u32>,
                                capacity: nat)
  {
    && ExpiredOnce(pending, nowMs, timeoutMs, ids)
    && (|ids| < capacity || capacity >= MAX_PENDING ==>
         forall id | id in pending && Expired(pending[id], nowMs, timeoutMs) :: id in ids)
  }

  lemma NothingReported(before: map<u32, CoreCommand>, nowMs: u32, timeoutMs: u32, capacity: nat)
    ensures Ids([]) == [] && TimeoutEvents(before, [], nowMs) == [] && before - SetOf([]) == before
    ensures ExpiredOnce(before, nowMs, timeoutMs, [])
    ensures capacity == 0 || timeoutMs == 0 ==> IsExpiryOrder(before, nowMs, timeoutMs, [], capacity)
  {
  }

  lemma ExpiryComplete(before: map<u32, CoreCommand>, nowMs: u32, timeoutMs: u32, ids: seq<u32>, capacity: nat)
    requires ExpiredOnce(before, nowMs, timeoutMs, ids)
    requires var after := before - SetOf(ids); forall id | id in after :: !Expired(after[id], nowMs, timeoutMs)
    ensures IsExpiryOrder(before, nowMs, timeoutMs, ids, capacity)
  {
    var after := before - SetOf(ids);
    forall id | id in before && Expired(before[id], nowMs, timeoutMs) ensures id in ids {
      assert id in after <==> id !in ids;
    }
  }

  lemma ExpiryCut(before: map<u32, CoreCommand>, nowMs: u32, timeoutMs: u32, ids: seq<u32>, capacity: nat)
    requires ExpiredOnce(before, nowMs, timeoutMs, ids) && capacity <= |ids| < MAX_PENDING
    ensures IsExpiryOrder(before, nowMs, timeoutMs, ids, capacity)
  {
  }

  lemma AppendExpired(before: map<u32, CoreCommand>, events: seq<CoreEvent>, c: CoreCommand, nowMs: u32,
                      timeoutMs: u32)
    requires ExpiredOnce(before, nowMs, timeoutMs, Ids(events)) && events == TimeoutEvents(before, Ids(events), nowMs)
    requires Expired(c, nowMs, timeoutMs)
    requires c.correlationId in before - SetOf(Ids(events)) && before[c.correlationId] == c
    ensures var more := events + [TerminalEvent(c, CommandResultTimeout, nowMs)];
            && Ids(more) == Ids(events) + [c.correlationId]
            && ExpiredOnce(before, nowMs, timeoutMs, Ids(more))
            && more == TimeoutEvents(before, Ids(more), nowMs)
            && before - SetOf(Ids(more)) == before - SetOf(Ids(events)) - {c.correlationId}
  {
    var more := events + [TerminalEvent(c, CommandResultTimeout, nowMs)];
    assert more[..|events|] == events;
    assert Ids(more)[..|events|] == Ids(events);
  }
}
