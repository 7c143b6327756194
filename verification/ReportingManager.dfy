/** The reporting manager as an object: 64 slots of entries, found by network address. */
module ReportingManager {
  import opened Common
  import opened CoreTypes
  import opened Slots
  import opened ReportingEntry

  type Entries = map<u16, Entry>

  function ShortOf(e: Entry): u16 {
    e.shortAddr
  }

  // ---------------------------------------------------------------------------------------------
  // The operations on the entries as a map
  // ---------------------------------------------------------------------------------------------

  /** `handle_event`: a join may take a slot, a leave gives it back. */
  function Handled(d: Entries, event: CoreEvent): (Entries, Actions) {
    var s := event.shortAddr;
    if !ValidShort(s) || (s !in d && (event.kind != DeviceJoined || |d| >= MAX_DEVICES)) then (d, NO_ACTIONS)
    else
      var (next, actions) := OnEvent(if s in d then d[s] else FreshEntry(s), event);
      (if next.Some? then d[s := next.value] else d - {s}, actions)
  }

  /** `report_operation_failure`. */
  function Failed(d: Entries, s: u16, target: RetryTarget, reason: FailureReason, nowMs: u32): (Entries, Actions) {
    if !ValidShort(s) || target == NoTarget || reason == NoFailure || s !in d then (d, NO_ACTIONS)
    else var (next, actions) := OnFailure(d[s], target, reason, nowMs); (d[s := next], actions)
  }

  /** `process_timeouts`: every due retry fires in the same call. */
  function Ticked(d: Entries, nowMs: u32): Entries {
    map s | s in d :: OnTimer(d[s], nowMs)
  }

  ghost predicate FiresFor(d: Entries, nowMs: u32, target: RetryTarget) {
    exists s :: s in d && Fires(d[s], nowMs) && d[s].retry.target == target
  }

  /** `normalize_occupancy_report`: the first report of an unknown device takes a slot. */
  function Normalized(d: Entries, s: u16, occupied: bool, nowMs: u32, policy: Policy): (Entries, Option<CoreEvent>) {
    if !ValidShort(s) || (s !in d && |d| >= MAX_DEVICES) then (d, None)
    else
      var e := if s in d then d[s] else FreshEntry(s);
      var (track, emit) := OnReport(e.occupancy, occupied, nowMs, policy);
      (d[s := e.(occupancy := track)], if emit then Some(OccupancyEvent(s, occupied, nowMs)) else None)
  }

  function OccupancyEvent(s: u16, occupied: bool, nowMs: u32): CoreEvent {
    DEFAULT_EVENT.(kind := DeviceTelemetryUpdated, shortAddr := s, valueU32 := nowMs, telemetryKind := Occupancy,
                   telemetryI32 := if occupied then 1 else 0, telemetryValid := true)
  }

  /** Of all calls only occupancy reports, and the device leaving, touch a device's occupancy filter; so what the
      runs of reports promise is not disturbed by the others. */
  lemma OnlyReportsTouchOccupancy(d: Entries, s: u16, event: CoreEvent, target: RetryTarget, reason: FailureReason,
                                  nowMs: u32, other: u16, occupied: bool, policy: Policy)
    requires s in d && d[s].shortAddr == s
    ensures s in Ticked(d, nowMs) && Ticked(d, nowMs)[s].occupancy == d[s].occupancy
    ensures s in Failed(d, event.shortAddr, target, reason, nowMs).0
            && Failed(d, event.shortAddr, target, reason, nowMs).0[s].occupancy == d[s].occupancy
    ensures event.kind != DeviceLeft || event.shortAddr != s ==>
              s in Handled(d, event).0 && Handled(d, event).0[s].occupancy == d[s].occupancy
    ensures other != s ==> s in Normalized(d, other, occupied, nowMs, policy).0
                           && Normalized(d, other, occupied, nowMs, policy).0[s] == d[s]
  {
  }

  /** The emitted event carries the new stable value of the filter. */
  lemma EmittedEventIsStable(d: Entries, s: u16, occupied: bool, nowMs: u32, policy: Policy)
    requires s in d
    ensures var (next, event) := Normalized(d, s, occupied, nowMs, policy);
            event.Some? ==>
              && event.value.kind == DeviceTelemetryUpdated && event.value.telemetryKind == Occupancy
              && event.value.telemetryValid && event.value.shortAddr == s && event.value.valueU32 == nowMs
              && (event.value.telemetryI32 == 1 <==> next[s].occupancy.stable)
              && (d[s].occupancy.valid ==> next[s].occupancy.stable != d[s].occupancy.stable)
  {
  }

  class ReportingManager {
    const entries: array<Option<Entry>>

    ghost predicate Valid()
      reads this, entries
    {
      && entries.Length == MAX_DEVICES && DistinctKeys(entries[..], ShortOf)
      && (forall i | 0 <= i < MAX_DEVICES && entries[i].Some? :: ValidShort(entries[i].value.shortAddr))
    }

    ghost function Entries(): Entries
      reads this, entries
    {
      View(entries[..], ShortOf)
    }

    constructor ()
      ensures Valid() && fresh(entries) && Entries() == map[]
    {
      entries := new Option<Entry>[MAX_DEVICES](_ => None);
      new;
      assert View(entries[..], ShortOf) == map[];
    }

    method FindIndex(s: u16) returns (index: int)
      requires Valid()
      ensures index == -1 <==> s !in Entries()
      ensures index != -1 ==> 0 <= index < MAX_DEVICES && entries[index].Some? && entries[index].value == Entries()[s]
                              && entries[index].value.shortAddr == s
    {
      hide View;
      var i := 0;
      while i < MAX_DEVICES
        invariant 0 <= i <= MAX_DEVICES
        invariant forall j | 0 <= j < i && entries[j].Some? :: ShortOf(entries[j].value) != s
      {
        if entries[i].Some? && entries[i].value.shortAddr == s {
          ViewAt(entries[..], ShortOf, i);
          return i;
        }
        i := i + 1;
      }
      ViewLacks(entries[..], ShortOf, s);
      index := -1;
    }

    method FindFreeIndex() returns (index: int)
      requires Valid()
      ensures index == -1 <==> |Entries()| >= MAX_DEVICES
      ensures index != -1 ==> 0 <= index < MAX_DEVICES && entries[index] == None
    {
      hide View, UsedSlots, DistinctKeys;
      FreeSlotIffRoom(entries[..], ShortOf);
      var i := 0;
      while i < MAX_DEVICES
        invariant 0 <= i <= MAX_DEVICES
        invariant forall j | 0 <= j < i :: entries[j].Some?
      {
        if entries[i] == None {
          assert entries[..][i] == None;
          return i;
        }
        i := i + 1;
      }
      index := -1;
    }

    method Store(index: nat, e: Entry)
      requires Valid() && index < MAX_DEVICES && ValidShort(e.shortAddr)
      requires if entries[index].Some? then entries[index].value.shortAddr == e.shortAddr else e.shortAddr !in Entries()
      modifies entries
      ensures Valid() && Entries() == old(Entries())[e.shortAddr := e]
      ensures entries[index] == Some(e)
    {
      hide View, UsedSlots;
      ViewAfterPut(entries[..], ShortOf, index, e);
      entries[index] := Some(e);
      assert entries[..] == old(entries[..])[index := Some(e)];
    }

    method Free(index: nat)
      requires Valid() && index < MAX_DEVICES && entries[index].Some?
      modifies entries
      ensures Valid() && Entries() == old(Entries()) - {old(entries[index].value.shortAddr)}
    {
      hide View, UsedSlots;
      ViewAfterClear(entries[..], ShortOf, index);
      entries[index] := None;
      assert entries[..] == old(entries[..])[index := None];
    }

    method HandleEvent(event: CoreEvent) returns (actions: Actions)
      requires Valid()
      modifies entries
      ensures Valid()
      ensures (Entries(), actions) == Handled(old(Entries()), event)
    {
      hide View, UsedSlots, OnEvent, DistinctKeys;
      if !ValidShort(event.shortAddr) {
        return NO_ACTIONS;
      }
      var index := FindIndex(event.shortAddr);
      var e := FreshEntry(event.shortAddr);
      if index >= 0 {
        e := entries[index].value;
      } else if event.kind == DeviceJoined {
        index := FindFreeIndex();
      }
      if index < 0 {
        return NO_ACTIONS;
      }
      OnEventKeepsAddress(e, event);
      var (next, todo) := OnEvent(e, event);
      if next.Some? {
        Store(index, next.value);
      } else {
        Free(index);
      }
      actions := todo;
    }

    method ReportOperationFailure(s: u16, target: RetryTarget, reason: FailureReason, nowMs: u32)
      returns (actions: Actions)
      requires Valid()
      modifies entries
      ensures Valid()
      ensures (Entries(), actions) == Failed(old(Entries()), s, target, reason, nowMs)
    {
      hide View, UsedSlots, DistinctKeys, Backoff;
      if !ValidShort(s) || target == NoTarget || reason == NoFailure {
        return NO_ACTIONS;
      }
      var index := FindIndex(s);
      if index < 0 {
        return NO_ACTIONS;
      }
      var e := entries[index].value;
      var noted := e.retry.(target := target, reason := reason);
      if !Retryable(reason) || noted.attempt >= MAX_RETRY_ATTEMPTS {
        Store(index, e.(stage := Degraded, retry := noted.(pending := false)));
        return NO_ACTIONS.(degraded := true);
      }
      var attempt := noted.attempt + 1;
      var delay := ComputeBackoff(attempt);
      Store(index, e.(retry := noted.(attempt := attempt, pending := true, nextAtMs := Wrap32(nowMs + delay))));
      actions := NO_ACTIONS;
    }

    method NormalizeOccupancyReport(s: u16, occupied: bool, nowMs: u32, policy: Policy)
      returns (event: Option<CoreEvent>)
      requires Valid()
      modifies entries
      ensures Valid()
      ensures (Entries(), event) == Normalized(old(Entries()), s, occupied, nowMs, policy)
    {
      hide View, UsedSlots, DistinctKeys, OnReport;
      if !ValidShort(s) {
        return None;
      }
      var index := FindIndex(s);
      var e := FreshEntry(s);
      if index >= 0 {
        e := entries[index].value;
      } else {
        index := FindFreeIndex();
        if index < 0 {
          return None;
        }
      }
      var (track, emit) := OnReport(e.occupancy, occupied, nowMs, policy);
      Store(index, e.(occupancy := track));
      event := if emit then Some(OccupancyEvent(s, occupied, nowMs)) else None;
    }

    /** `process_timeouts`. */
    method ProcessTimeouts(nowMs: u32) returns (actions: Actions)
      requires Valid()
      modifies entries
      ensures Valid()
      ensures Entries() == Ticked(old(Entries()), nowMs)
      ensures actions.bind <==> FiresFor(old(Entries()), nowMs, BindTarget)
      ensures actions.configure <==> FiresFor(old(Entries()), nowMs, ConfigureTarget)
      ensures !actions.interview && !actions.degraded
    {
      hide View, OnTimer, Fires, FiresFor, DistinctKeys;
      ghost var before := entries[..];
      actions := NO_ACTIONS;
      var i := 0;
      while i < MAX_DEVICES
        invariant 0 <= i <= MAX_DEVICES
        invariant forall j | 0 <= j < i :: entries[j] == TickedSlot(before[j], nowMs)
        invariant forall j | i <= j < MAX_DEVICES :: entries[j] == before[j]
        invariant actions == NO_ACTIONS.(bind := SomeFires(before[..i], nowMs, BindTarget),
                                         configure := SomeFires(before[..i], nowMs, ConfigureTarget))
      {
        SomeFiresStep(before, i, nowMs);
        if entries[i].Some? {
          var e := entries[i].value;
          if Fires(e, nowMs) && e.retry.target == BindTarget {
            actions := actions.(bind := true);
          } else if Fires(e, nowMs) && e.retry.target == ConfigureTarget {
            actions := actions.(configure := true);
          }
          entries[i] := Some(OnTimer(e, nowMs));
        }
        i := i + 1;
      }
      assert before[..i] == before;
      TickedView(before, entries[..], nowMs);
      SomeFiresMeans(before, nowMs, BindTarget);
      SomeFiresMeans(before, nowMs, ConfigureTarget);
    }
  }

  function TickedSlot(slot: Option<Entry>, nowMs: u32): Option<Entry> {
    if slot.Some? then Some(OnTimer(slot.value, nowMs)) else None
  }

  lemma OnEventKeepsAddress(e: Entry, event: CoreEvent)
    ensures OnEvent(e, event).0.Some? ==> OnEvent(e, event).0.value.shortAddr == e.shortAddr
    ensures OnEvent(e, event).0 == None <==> event.kind == DeviceLeft
  {
  }

  /** Whether a slot of the list holds a retry for `target` that is due. */
  function SomeFires(slots: seq<Option<Entry>>, nowMs: u32, target: RetryTarget): bool {
    exists j :: 0 <= j < |slots| && slots[j].Some? && Fires(slots[j].value, nowMs) && slots[j].value.retry.target == target
  }

  lemma SomeFiresStep(slots: seq<Option<Entry>>, i: nat, nowMs: u32)
    requires i < |slots|
    ensures forall target ::
              SomeFires(slots[..i + 1], nowMs, target) <==>
              SomeFires(slots[..i], nowMs, target)
              || (slots[i].Some? && Fires(slots[i].value, nowMs) && slots[i].value.retry.target == target)
  {
    hide Fires;
    forall target
      ensures SomeFires(slots[..i + 1], nowMs, target) <==>
              SomeFires(slots[..i], nowMs, target)
              || (slots[i].Some? && Fires(slots[i].value, nowMs) && slots[i].value.retry.target == target)
    {
      assert slots[..i + 1] == slots[..i] + [slots[i]];
      if SomeFires(slots[..i], nowMs, target) {
        var j :| 0 <= j < i && slots[..i][j].Some? && Fires(slots[..i][j].value, nowMs)
                 && slots[..i][j].value.retry.target == target;
        assert slots[..i + 1][j] == slots[..i][j];
      }
      if slots[i].Some? && Fires(slots[i].value, nowMs) && slots[i].value.retry.target == target {
        assert slots[..i + 1][i] == slots[i];
      }
    }
  }

  lemma SomeFiresMeans(slots: seq<Option<Entry>>, nowMs: u32, target: RetryTarget)
    requires DistinctKeys(slots, ShortOf)
    ensures SomeFires(slots, nowMs, target) <==> FiresFor(View(slots, ShortOf), nowMs, target)
  {
    hide View, Fires;
    var d := View(slots, ShortOf);
    if SomeFires(slots, nowMs, target) {
      var j :| 0 <= j < |slots| && slots[j].Some? && Fires(slots[j].value, nowMs) && slots[j].value.retry.target == target;
      ViewAt(slots, ShortOf, j);
    }
    if FiresFor(d, nowMs, target) {
      var s :| s in d && Fires(d[s], nowMs) && d[s].retry.target == target;
      ViewHas(slots, ShortOf, s);
    }
  }

  lemma TickedView(before: seq<Option<Entry>>, after: seq<Option<Entry>>, nowMs: u32)
    requires DistinctKeys(before, ShortOf) && |after| == |before|
    requires forall j | 0 <= j < |before| :: after[j] == TickedSlot(before[j], nowMs)
    ensures DistinctKeys(after, ShortOf) && View(after, ShortOf) == Ticked(View(before, ShortOf), nowMs)
    ensures forall j | 0 <= j < |after| && after[j].Some? ::
              before[j].Some? && after[j].value.shortAddr == before[j].value.shortAddr
  {
    TimerKeepsAddress(nowMs);
    hide View, OnTimer;
    var m := Ticked(View(before, ShortOf), nowMs);
    forall j | 0 <= j < |after| && after[j].Some?
      ensures ShortOf(after[j].value) in m && m[ShortOf(after[j].value)] == after[j].value
    {
      ViewAt(before, ShortOf, j);
    }
    forall k | k in m ensures exists j :: At(after, ShortOf, j, k) {
      ViewHas(before, ShortOf, k);
      assert At(after, ShortOf, SlotOf(before, ShortOf, k), k);
    }
    ViewIs<u16, Entry>(after, ShortOf, m);
  }

  lemma TimerKeepsAddress(nowMs: u32)
    ensures forall e :: OnTimer(e, nowMs).shortAddr == e.shortAddr
  {
  }
}
