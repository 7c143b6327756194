/** Sequencing of Tuya initialisation steps: one step in flight per device, retried and timed out, one send per
    tick. The operations, as functions of the slot array. */
module TuyaInit {
  import opened Common
  import opened CoreTypes
  import opened TuyaDpParser

  const MAX_SLOTS: nat := 16
  const MAX_INIT_RETRIES: nat := 3
  const STEP_TIMEOUT_MS: u32 := 5000
  const MAX_STEPS: nat := 4
  const CORRELATION_BASE: nat := 0x8000_0000

  datatype InitStatus = NotStarted | Ready | InitPending | WaitingAck | Degraded

  datatype Step = Step(endpoint: u8, dpId: u8, dpType: DpType, value: seq<u8>)

  datatype Entry = Entry(
    shortAddr: u16,
    status: InitStatus,
    currentStep: nat,
    retriesLeft: nat,
    deadlineMs: u32,
    correlationId: nat,
    plan: seq<Step>)

  datatype Action = Action(shortAddr: u16, step: Step, correlationId: nat)

  type Slots = seq<Option<Entry>>

  datatype Coordinator = Coordinator(slots: Slots, counter: nat)

  /** A step that was not acknowledged: once more, or give up. */
  function FailStep(e: Entry): Entry {
    if e.retriesLeft > 0 then e.(retriesLeft := e.retriesLeft - 1, status := InitPending)
    else e.(status := Degraded)
  }

  /** The deadline comparison is not modular: a deadline that wrapped past zero expires at the next tick. */
  predicate TimedOut(e: Entry, nowMs: u32) {
    e.status == WaitingAck && nowMs >= e.deadlineMs
  }

  function AckStep(e: Entry, success: bool): Entry {
    if !success then FailStep(e)
    else
      e.(currentStep := e.currentStep + 1, retriesLeft := MAX_INIT_RETRIES,
         status := if e.currentStep + 1 >= |e.plan| then Ready else InitPending)
  }

  function Started(shortAddr: u16, plan: seq<Step>): Entry {
    Entry(shortAddr, if plan == [] then Ready else InitPending, 0, MAX_INIT_RETRIES, 0, 0, plan)
  }

  // ---------------------------------------------------------------------------------------------
  // Slots
  // ---------------------------------------------------------------------------------------------

  function TimeoutSlot(slot: Option<Entry>, nowMs: u32): Option<Entry> {
    if slot.Some? && TimedOut(slot.value, nowMs) then Some(FailStep(slot.value)) else slot
  }

  function TimeoutAll(slots: Slots, nowMs: u32): (r: Slots)
    ensures |r| == |slots|
    ensures forall i | 0 <= i < |slots| :: r[i] == TimeoutSlot(slots[i], nowMs)
  {
    seq(|slots|, i requires 0 <= i < |slots| => TimeoutSlot(slots[i], nowMs))
  }

  predicate IsPending(slot: Option<Entry>) {
    slot.Some? && slot.value.status == InitPending
  }

  function Sent(e: Entry, counter: nat, nowMs: u32): Entry {
    e.(correlationId := counter, deadlineMs := Wrap32(nowMs + STEP_TIMEOUT_MS), status := WaitingAck)
  }

  /** From slot `i` on: the first pending entry with a step left sends it; pending entries without one are ready. */
  function SendFirst(slots: Slots, i: nat, counter: nat, nowMs: u32): (Slots, Option<(nat, Action)>)
    requires i <= |slots|
    decreases |slots| - i
  {
    if i == |slots| then (slots, None)
    else if !IsPending(slots[i]) then SendFirst(slots, i + 1, counter, nowMs)
    else
      var e := slots[i].value;
      if e.currentStep >= |e.plan| then SendFirst(slots[i := Some(e.(status := Ready))], i + 1, counter, nowMs)
      else (slots[i := Some(Sent(e, counter, nowMs))], Some((i, Action(e.shortAddr, e.plan[e.currentStep], counter))))
  }

  /** `tick`: the coordinator after it, and the slot that sent with what it sent. */
  function Ticked(c: Coordinator, nowMs: u32): (Coordinator, Option<(nat, Action)>) {
    var (slots, sent) := SendFirst(TimeoutAll(c.slots, nowMs), 0, c.counter, nowMs);
    (Coordinator(slots, if sent.Some? then c.counter + 1 else c.counter), sent)
  }

  /** The first slot satisfying `p` from `i` on, or the length. */
  ghost function FirstSlot(slots: Slots, p: Option<Entry> -> bool, i: nat): (r: nat)
    requires i <= |slots|
    ensures i <= r <= |slots| && (r < |slots| ==> p(slots[r]))
    ensures forall j | i <= j < r :: !p(slots[j])
    decreases |slots| - i
  {
    if i == |slots| || p(slots[i]) then i else FirstSlot(slots, p, i + 1)
  }

  lemma {:induction false} FirstSlotIs(slots: Slots, p: Option<Entry> -> bool, i: nat, r: nat)
    requires i <= r <= |slots| && (r < |slots| ==> p(slots[r])) && forall j | i <= j < r :: !p(slots[j])
    ensures FirstSlot(slots, p, i) == r
    decreases |slots| - i
  {
    if i < r {
      FirstSlotIs(slots, p, i + 1, r);
    }
  }

  predicate HasAddr(slot: Option<Entry>, shortAddr: u16) {
    slot.Some? && slot.value.shortAddr == shortAddr
  }

  predicate HasId(slot: Option<Entry>, id: nat) {
    slot.Some? && slot.value.correlationId == id
  }

  ghost function SlotByAddr(slots: Slots, shortAddr: u16): nat {
    FirstSlot(slots, s => HasAddr(s, shortAddr), 0)
  }

  ghost function SlotById(slots: Slots, id: nat): nat {
    FirstSlot(slots, s => HasId(s, id), 0)
  }

  ghost function FreeSlot(slots: Slots): nat {
    FirstSlot(slots, s => s == None, 0)
  }

  /** `notify_ack`. */
  ghost function Ack(c: Coordinator, id: nat, success: bool): (Coordinator, bool) {
    var i := SlotById(c.slots, id);
    if i == |c.slots| || c.slots[i].value.status != WaitingAck then (c, false)
    else (c.(slots := c.slots[i := Some(AckStep(c.slots[i].value, success))]), true)
  }

  /** The slot `notify_device_resolved` uses: the device's own, else the first free one, else none. */
  ghost function TargetSlot(slots: Slots, shortAddr: u16): nat {
    var own := SlotByAddr(slots, shortAddr);
    if own < |slots| then own else FreeSlot(slots)
  }

  /** `notify_device_resolved`. */
  ghost function Resolve(c: Coordinator, shortAddr: u16, plan: seq<Step>): Coordinator {
    var i := TargetSlot(c.slots, shortAddr);
    if i == |c.slots| then c else c.(slots := c.slots[i := Some(Started(shortAddr, plan))])
  }

  /** `notify_device_removed`. */
  ghost function Remove(c: Coordinator, shortAddr: u16): Coordinator {
    var i := SlotByAddr(c.slots, shortAddr);
    if i == |c.slots| then c else c.(slots := c.slots[i := None])
  }

  class TuyaInitCoordinator {
    const entries: array<Option<Entry>>
    var counter: nat

    ghost predicate Valid()
      reads this
    {
      entries.Length == MAX_SLOTS
    }

    ghost function State(): Coordinator
      reads this, entries
    {
      Coordinator(entries[..], counter)
    }

    constructor ()
      ensures Valid() && fresh(entries) && State() == Coordinator(seq(MAX_SLOTS, _ => None), CORRELATION_BASE)
    {
      entries := new Option<Entry>[MAX_SLOTS](_ => None);
      counter := CORRELATION_BASE;
    }

    method FindByAddr(shortAddr: u16) returns (index: nat)
      requires Valid()
      ensures index == SlotByAddr(entries[..], shortAddr)
    {
      index := 0;
      while index < MAX_SLOTS
        invariant index <= MAX_SLOTS && forall j | 0 <= j < index :: !HasAddr(entries[j], shortAddr)
      {
        if entries[index].Some? && entries[index].value.shortAddr == shortAddr {
          break;
        }
        index := index + 1;
      }
      FirstSlotIs(entries[..], s => HasAddr(s, shortAddr), 0, index);
    }

    method FindByCorrelationId(id: nat) returns (index: nat)
      requires Valid()
      ensures index == SlotById(entries[..], id)
    {
      index := 0;
      while index < MAX_SLOTS
        invariant index <= MAX_SLOTS && forall j | 0 <= j < index :: !HasId(entries[j], id)
      {
        if entries[index].Some? && entries[index].value.correlationId == id {
          break;
        }
        index := index + 1;
      }
      FirstSlotIs(entries[..], s => HasId(s, id), 0, index);
    }

    method FindFree() returns (index: nat)
      requires Valid()
      ensures index == FreeSlot(entries[..])
    {
      index := 0;
      while index < MAX_SLOTS
        invariant index <= MAX_SLOTS && forall j | 0 <= j < index :: entries[j].Some?
      {
        if entries[index] == None {
          break;
        }
        index := index + 1;
      }
      FirstSlotIs(entries[..], s => s == None, 0, index);
    }

    method NotifyDeviceResolved(shortAddr: u16, plan: seq<Step>)
      requires Valid() && |plan| <= MAX_STEPS
      modifies entries
      ensures State() == Resolve(old(State()), shortAddr, plan)
    {
      var index := FindByAddr(shortAddr);
      if index == MAX_SLOTS {
        index := FindFree();
      }
      if index == MAX_SLOTS {
        return;
      }
      entries[index] := Some(Started(shortAddr, plan));
      assert entries[..] == old(entries[..])[index := Some(Started(shortAddr, plan))];
    }

    method NotifyDeviceRemoved(shortAddr: u16)
      requires Valid()
      modifies entries
      ensures State() == Remove(old(State()), shortAddr)
    {
      var index := FindByAddr(shortAddr);
      if index < MAX_SLOTS {
        entries[index] := None;
        assert entries[..] == old(entries[..])[index := None];
      }
    }

    method NotifyAck(id: nat, success: bool) returns (handled: bool)
      requires Valid()
      modifies entries
      ensures (State(), handled) == Ack(old(State()), id, success)
    {
      var index := FindByCorrelationId(id);
      if index == MAX_SLOTS || entries[index].value.status != WaitingAck {
        return false;
      }
      var e := entries[index].value;
      if success {
        e := e.(currentStep := e.currentStep + 1, retriesLeft := MAX_INIT_RETRIES);
        e := e.(status := if e.currentStep >= |e.plan| then Ready else InitPending);
      } else if e.retriesLeft > 0 {
        e := e.(retriesLeft := e.retriesLeft - 1, status := InitPending);
      } else {
        e := e.(status := Degraded);
      }
      entries[index] := Some(e);
      assert entries[..] == old(entries[..])[index := Some(e)];
      handled := true;
    }

    /** The first loop of `tick`. */
    method ExpireWaiting(nowMs: u32)
      requires Valid()
      modifies entries
      ensures entries[..] == TimeoutAll(old(entries[..]), nowMs)
    {
      ghost var before := entries[..];
      var i := 0;
      while i < MAX_SLOTS
        invariant 0 <= i <= MAX_SLOTS
        invariant forall j | 0 <= j < i :: entries[j] == TimeoutSlot(before[j], nowMs)
        invariant forall j | i <= j < MAX_SLOTS :: entries[j] == before[j]
      {
        if entries[i].Some? && entries[i].value.status == WaitingAck && nowMs >= entries[i].value.deadlineMs {
          entries[i] := Some(FailStep(entries[i].value));
        }
        i := i + 1;
      }
    }

    method Tick(nowMs: u32) returns (sent: Option<(nat, Action)>)
      requires Valid()
      modifies this`counter, entries
      ensures (State(), sent) == Ticked(old(State()), nowMs)
    {
      ExpireWaiting(nowMs);
      ghost var start := entries[..];
      var i := 0;
      while i < MAX_SLOTS
        invariant 0 <= i <= MAX_SLOTS && counter == old(counter)
        invariant SendFirst(entries[..], i, counter, nowMs) == SendFirst(start, 0, counter, nowMs)
      {
        if IsPending(entries[i]) {
          var e := entries[i].value;
          if e.currentStep < |e.plan| {
            var action := Action(e.shortAddr, e.plan[e.currentStep], counter);
            ghost var before := entries[..];
            entries[i] := Some(Sent(e, counter, nowMs));
            assert entries[..] == before[i := Some(Sent(e, counter, nowMs))];
            counter := counter + 1;
            return Some((i, action));
          }
          ghost var before := entries[..];
          entries[i] := Some(e.(status := Ready));
          assert entries[..] == before[i := Some(e.(status := Ready))];
        }
        i := i + 1;
      }
      sent := None;
    }
  }
}
