/** What initialisation transmits: the actions that leave the coordinator, against the plans it was given and the
    acknowledgements it took. */
module TuyaInitSends {
  import opened Common
  import opened CoreTypes
  import opened TuyaDpParser
  import opened TuyaInit
  import opened TuyaInitRuns

  /** The device and plan slot `j` was last handed, from the calls alone. */
  datatype Assignment = Assignment(shortAddr: u16, plan: seq<Step>)

  ghost function AssignedAt(ops: seq<Op>, k: nat, j: nat): Option<Assignment>
    requires k <= |ops|
  {
    if k == 0 then None
    else
      var slots := StateAt(ops, k - 1).slots;
      match ops[k - 1]
      case ResolveOp(shortAddr, plan) =>
        if TargetSlot(slots, shortAddr) == j then Some(Assignment(shortAddr, plan)) else AssignedAt(ops, k - 1, j)
      case RemoveOp(shortAddr) => if SlotByAddr(slots, shortAddr) == j then None else AssignedAt(ops, k - 1, j)
      case _ => AssignedAt(ops, k - 1, j)
  }

  /** The positive acknowledgements taken for slot `j` since its device was resolved. */
  ghost function AckedAt(ops: seq<Op>, k: nat, j: nat): nat
    requires k <= |ops| && j < MAX_SLOTS
  {
    if k == 0 then 0
    else
      var c := StateAt(ops, k - 1);
      if Reassigns(c, ops[k - 1], j) then 0
      else
        AckedAt(ops, k - 1, j)
        + if ops[k - 1].AckOp? && ops[k - 1].success && WaitsFor(SlotAt(c, j), ops[k - 1].id) then 1 else 0
  }

  /** Everything transmitted so far, with the slot it was for. */
  ghost function SentBy(ops: seq<Op>, k: nat): seq<(nat, Action)>
    requires k <= |ops|
  {
    if k == 0 then []
    else
      SentBy(ops, k - 1)
      + if ops[k - 1].TickOp? && Ticked(StateAt(ops, k - 1), ops[k - 1].nowMs).1.Some?
        then [Ticked(StateAt(ops, k - 1), ops[k - 1].nowMs).1.value] else []
  }

  /** The slot's entry is what its assignment and its acknowledgements make it. */
  ghost predicate Follows(slot: Option<Entry>, given: Option<Assignment>, acked: nat) {
    && (slot.Some? <==> given.Some?)
    && (slot.Some? ==>
          slot.value.shortAddr == given.value.shortAddr && slot.value.plan == given.value.plan
          && slot.value.currentStep == acked)
  }

  lemma TickKeepsFollowing(c: Coordinator, nowMs: u32, j: nat, given: Option<Assignment>, acked: nat)
    requires Sane(c) && j < MAX_SLOTS && Follows(c.slots[j], given, acked)
    ensures |Ticked(c, nowMs).0.slots| == MAX_SLOTS && Follows(Ticked(c, nowMs).0.slots[j], given, acked)
  {
    hide SendFirst, Apart;
    TimeoutKeepsSane(c, nowMs);
    SendFirstSends(TimeoutAll(c.slots, nowMs), 0, c.counter, nowMs);
  }

  lemma AckKeepsFollowing(c: Coordinator, id: nat, success: bool, j: nat, given: Option<Assignment>, acked: nat)
    requires Sane(c) && j < MAX_SLOTS && Follows(c.slots[j], given, acked)
    ensures |Ack(c, id, success).0.slots| == MAX_SLOTS
    ensures Follows(Ack(c, id, success).0.slots[j], given,
                    acked + if success && WaitsFor(c.slots[j], id) then 1 else 0)
  {
    hide FirstSlot, AllGood;
    var i := SlotById(c.slots, id);
    if WaitsFor(c.slots[j], id) {
      WaitingIsFirst(c, id, j);
    } else if i < |c.slots| {
      assert HasId(c.slots[i], id);
    }
  }

  lemma {:induction false} SlotsFollow(ops: seq<Op>, k: nat, j: nat)
    requires k <= |ops| && Bounded(ops) && j < MAX_SLOTS
    ensures Sane(StateAt(ops, k)) && Follows(StateAt(ops, k).slots[j], AssignedAt(ops, k, j), AckedAt(ops, k, j))
  {
    ReachableSane(ops, k);
    if k > 0 {
      SlotsFollow(ops, k - 1, j);
      var c, given, acked := StateAt(ops, k - 1), AssignedAt(ops, k - 1, j), AckedAt(ops, k - 1, j);
      assert StateAt(ops, k) == Perform(c, ops[k - 1]);
      hide FirstSlot, Sane;
      match ops[k - 1]
      case TickOp(nowMs) => TickKeepsFollowing(c, nowMs, j, given, acked);
      case AckOp(id, success) => AckKeepsFollowing(c, id, success, j, given, acked);
      case ResolveOp(shortAddr, plan) => assert |c.slots| == MAX_SLOTS by { SaneIsSized(c); }
      case RemoveOp(shortAddr) => assert |c.slots| == MAX_SLOTS by { SaneIsSized(c); }
    }
  }

  lemma SaneIsSized(c: Coordinator)
    requires Sane(c)
    ensures |c.slots| == MAX_SLOTS
  {
  }

  /** What goes out is the plan: over any run, the action a tick returns for a slot carries the step of the plan given
      at resolution that follows the steps acknowledged since, the resolved address, and the id under which the slot
      then waits. */
  lemma ActionsFollowPlan(ops: seq<Op>, k: nat)
    requires k < |ops| && Bounded(ops) && ops[k].TickOp?
    ensures Ticked(StateAt(ops, k), ops[k].nowMs).1.Some? ==>
              var (j, action) := Ticked(StateAt(ops, k), ops[k].nowMs).1.value;
              && j < MAX_SLOTS && AssignedAt(ops, k, j).Some?
              && var plan, n := AssignedAt(ops, k, j).value.plan, AckedAt(ops, k, j);
                 && n < |plan| && action.step == plan[n]
                 && action.shortAddr == AssignedAt(ops, k, j).value.shortAddr
                 && WaitsFor(SlotAt(StateAt(ops, k + 1), j), action.correlationId)
                 && LogAt(ops, k + 1, j) == LogAt(ops, k, j) + [n]
  {
    ReachableSane(ops, k);
    var c, nowMs := StateAt(ops, k), ops[k].nowMs;
    var sent := Ticked(c, nowMs).1;
    assert StateAt(ops, k + 1) == Perform(c, ops[k]);
    if sent.Some? {
      var j := sent.value.0;
      TickSends(c, nowMs);
      SlotsFollow(ops, k, j);
      assert LogAt(ops, k + 1, j) == Logged(LogAt(ops, k, j), c, ops[k], j);
      hide StateAt, AssignedAt, AckedAt, LogAt, SendFirst, Sane;
    }
  }

  /** The action of a tick, in terms of the slot as it was before. */
  lemma TickSends(c: Coordinator, nowMs: u32)
    requires Sane(c)
    ensures Ticked(c, nowMs).1.Some? ==>
              var (j, action) := Ticked(c, nowMs).1.value;
              && j < MAX_SLOTS && c.slots[j].Some? && c.slots[j].value.currentStep < |c.slots[j].value.plan|
              && action == Action(c.slots[j].value.shortAddr, c.slots[j].value.plan[c.slots[j].value.currentStep], c.counter)
              && |Ticked(c, nowMs).0.slots| == MAX_SLOTS
              && WaitsFor(Ticked(c, nowMs).0.slots[j], c.counter)
              && Ticked(c, nowMs).0.counter == c.counter + 1
    ensures Ticked(c, nowMs).1.None? ==> Ticked(c, nowMs).0.counter == c.counter
  {
    TimeoutKeepsSane(c, nowMs);
    var expired := TimeoutAll(c.slots, nowMs);
    FirstSends(expired, 0, c.counter, nowMs);
    hide SendFirst, Apart;
    var sent := SendFirst(expired, 0, c.counter, nowMs).1;
    if sent.Some? {
      assert expired[sent.value.0] == TimeoutSlot(c.slots[sent.value.0], nowMs);
    }
  }

  lemma {:induction false} FirstSends(slots: Slots, i: nat, counter: nat, nowMs: u32)
    requires i <= |slots| && AllGood(slots, counter)
    ensures var (after, sent) := SendFirst(slots, i, counter, nowMs);
            && |after| == |slots|
            && (sent.Some? ==>
                  var (j, action) := sent.value;
                  && j < |slots| && slots[j].Some? && slots[j].value.currentStep < |slots[j].value.plan|
                  && action == Action(slots[j].value.shortAddr, slots[j].value.plan[slots[j].value.currentStep], counter)
                  && WaitsFor(after[j], counter))
    decreases |slots| - i
  {
    if i < |slots| && !IsPending(slots[i]) {
      FirstSends(slots, i + 1, counter, nowMs);
    }
  }

  /** Correlation ids are handed out one by one: the m-th action transmitted carries the m-th id. */
  lemma {:induction false} IdsAreConsecutive(ops: seq<Op>, k: nat, m: nat)
    requires k <= |ops| && Bounded(ops)
    ensures StateAt(ops, k).counter == CORRELATION_BASE + |SentBy(ops, k)|
    ensures m < |SentBy(ops, k)| ==> SentBy(ops, k)[m].1.correlationId == CORRELATION_BASE + m
  {
    if k > 0 {
      IdsAreConsecutive(ops, k - 1, m);
      ReachableSane(ops, k - 1);
      var c := StateAt(ops, k - 1);
      if ops[k - 1].TickOp? {
        TickSends(c, ops[k - 1].nowMs);
        hide Ticked, Sane;
      } else {
        hide FirstSlot, Sane;
      }
    }
  }
}
