/** Initialisation over whole runs: plan order, bounded sends, acknowledgements that count, and termination. */
module TuyaInitRuns {
  import opened Common
  import opened CoreTypes
  import opened TuyaInit

  datatype Op =
    | TickOp(nowMs: u32)
    | AckOp(id: nat, success: bool)
    | ResolveOp(shortAddr: u16, plan: seq<Step>)
    | RemoveOp(shortAddr: u16)

  ghost function Perform(c: Coordinator, op: Op): Coordinator {
    match op
    case TickOp(nowMs) => Ticked(c, nowMs).0
    case AckOp(id, success) => Ack(c, id, success).0
    case ResolveOp(shortAddr, plan) => Resolve(c, shortAddr, plan)
    case RemoveOp(shortAddr) => Remove(c, shortAddr)
  }

  // ---------------------------------------------------------------------------------------------
  // What holds between calls
  // ---------------------------------------------------------------------------------------------

  predicate GoodEntry(e: Entry, counter: nat) {
    && e.retriesLeft <= MAX_INIT_RETRIES && |e.plan| <= MAX_STEPS && e.status != NotStarted
    && (if e.status == Ready then e.currentStep == |e.plan| && e.retriesLeft == MAX_INIT_RETRIES
        else e.currentStep < |e.plan|)
    && (e.status == Degraded ==> e.retriesLeft == 0)
    && (e.correlationId == 0 || CORRELATION_BASE <= e.correlationId < counter)
    && (e.status == WaitingAck ==> e.correlationId != 0)
  }

  ghost predicate AllGood(slots: Slots, counter: nat) {
    forall i | 0 <= i < |slots| && slots[i].Some? :: GoodEntry(slots[i].value, counter)
  }

  ghost predicate Apart(slots: Slots) {
    forall i, j | 0 <= i < j < |slots| && slots[i].Some? && slots[j].Some? ::
      && slots[i].value.shortAddr != slots[j].value.shortAddr
      && (slots[i].value.correlationId != 0 ==> slots[i].value.correlationId != slots[j].value.correlationId)
  }

  ghost predicate Sane(c: Coordinator) {
    |c.slots| == MAX_SLOTS && c.counter >= CORRELATION_BASE && AllGood(c.slots, c.counter) && Apart(c.slots)
  }

  /** What a tick does once nothing is pending without a step: time out every slot, then send from the first pending
      one. */
  lemma {:induction false} SendFirstSends(slots: Slots, i: nat, counter: nat, nowMs: u32)
    requires i <= |slots| && AllGood(slots, counter)
    ensures var (after, sent) := SendFirst(slots, i, counter, nowMs);
            if sent.None?
            then after == slots && forall j | i <= j < |slots| :: !IsPending(slots[j])
            else
              var k := sent.value.0;
              && i <= k < |slots| && IsPending(slots[k]) && (forall j | i <= j < k :: !IsPending(slots[j]))
              && slots[k].value.currentStep < |slots[k].value.plan|
              && after == slots[k := Some(Sent(slots[k].value, counter, nowMs))]
    decreases |slots| - i
  {
    if i < |slots| && !IsPending(slots[i]) {
      SendFirstSends(slots, i + 1, counter, nowMs);
    }
  }

  lemma TimeoutKeepsSane(c: Coordinator, nowMs: u32)
    requires Sane(c)
    ensures Sane(c.(slots := TimeoutAll(c.slots, nowMs)))
  {
  }

  lemma ReplaceKeepsSane(c: Coordinator, i: nat, e: Entry, counter: nat)
    requires Sane(c) && i < MAX_SLOTS && counter >= c.counter && GoodEntry(e, counter)
    requires forall j | 0 <= j < MAX_SLOTS && j != i && c.slots[j].Some? :: c.slots[j].value.shortAddr != e.shortAddr
    requires e.correlationId == 0 || e.correlationId == c.counter
             || (c.slots[i].Some? && e.correlationId == c.slots[i].value.correlationId)
    ensures Sane(Coordinator(c.slots[i := Some(e)], counter))
  {
    var after := c.slots[i := Some(e)];
    forall j, k | 0 <= j < k < MAX_SLOTS && after[j].Some? && after[k].Some?
      ensures after[j].value.shortAddr != after[k].value.shortAddr
      ensures after[j].value.correlationId != 0 ==> after[j].value.correlationId != after[k].value.correlationId
    {
      assert j != i ==> GoodEntry(c.slots[j].value, c.counter);
      assert k != i ==> GoodEntry(c.slots[k].value, c.counter);
    }
  }

  lemma PerformKeepsSane(c: Coordinator, op: Op)
    requires Sane(c) && (op.ResolveOp? ==> |op.plan| <= MAX_STEPS)
    ensures Sane(Perform(c, op))
  {
    hide SendFirst, FirstSlot, AllGood, Apart;
    match op
    case TickOp(nowMs) => TickKeepsSane(c, nowMs);
    case AckOp(id, success) =>
      var i := SlotById(c.slots, id);
      if i < |c.slots| && c.slots[i].value.status == WaitingAck {
        SlotIsGood(c, i);
        ReplaceKeepsSane(c, i, AckStep(c.slots[i].value, success), c.counter);
      }
    case ResolveOp(shortAddr, plan) =>
      var i := TargetSlot(c.slots, shortAddr);
      if i < |c.slots| {
        TargetIsFresh(c, shortAddr);
        ReplaceKeepsSane(c, i, Started(shortAddr, plan), c.counter);
      }
    case RemoveOp(shortAddr) =>
      var i := SlotByAddr(c.slots, shortAddr);
      if i < |c.slots| {
        ClearKeepsSane(c, i);
      }
  }

  lemma SlotIsGood(c: Coordinator, i: nat)
    requires Sane(c) && i < |c.slots| && c.slots[i].Some?
    ensures GoodEntry(c.slots[i].value, c.counter)
    ensures forall j | 0 <= j < MAX_SLOTS && j != i && c.slots[j].Some? ::
              c.slots[j].value.shortAddr != c.slots[i].value.shortAddr
  {
  }

  lemma ClearKeepsSane(c: Coordinator, i: nat)
    requires Sane(c) && i < |c.slots|
    ensures Sane(c.(slots := c.slots[i := None]))
  {
  }

  /** The slot a device gets holds nobody else, and nobody else has its address. */
  lemma TargetIsFresh(c: Coordinator, shortAddr: u16)
    requires Sane(c) && TargetSlot(c.slots, shortAddr) < |c.slots|
    ensures var i := TargetSlot(c.slots, shortAddr);
            && (c.slots[i] == None || c.slots[i].value.shortAddr == shortAddr)
            && forall j | 0 <= j < MAX_SLOTS && j != i && c.slots[j].Some? :: c.slots[j].value.shortAddr != shortAddr
  {
    hide FirstSlot, AllGood;
    var own := SlotByAddr(c.slots, shortAddr);
    if own < |c.slots| {
      assert HasAddr(c.slots[own], shortAddr);
      SlotIsGood(c, own);
    } else {
      assert forall j | 0 <= j < |c.slots| :: !HasAddr(c.slots[j], shortAddr);
    }
  }

  lemma TickKeepsSane(c: Coordinator, nowMs: u32)
    requires Sane(c)
    ensures Sane(Ticked(c, nowMs).0)
  {
    hide SendFirst, Apart, AllGood;
    var expired := c.(slots := TimeoutAll(c.slots, nowMs));
    TimeoutKeepsSane(c, nowMs);
    SendFirstSends(expired.slots, 0, c.counter, nowMs);
    var sent := SendFirst(expired.slots, 0, c.counter, nowMs).1;
    if sent.Some? {
      SlotIsGood(expired, sent.value.0);
      ReplaceKeepsSane(expired, sent.value.0, Sent(expired.slots[sent.value.0].value, c.counter, nowMs), c.counter + 1);
    }
  }

  ghost function StateAt(ops: seq<Op>, k: nat): Coordinator
    requires k <= |ops|
  {
    if k == 0 then Coordinator(seq(MAX_SLOTS, _ => None), CORRELATION_BASE) else Perform(StateAt(ops, k - 1), ops[k - 1])
  }

  ghost predicate Bounded(ops: seq<Op>) {
    forall i | 0 <= i < |ops| && ops[i].ResolveOp? :: |ops[i].plan| <= MAX_STEPS
  }

  lemma {:induction false} ReachableSane(ops: seq<Op>, k: nat)
    requires k <= |ops| && Bounded(ops)
    ensures Sane(StateAt(ops, k))
  {
    if k > 0 {
      hide Perform, Sane;
      ReachableSane(ops, k - 1);
      PerformKeepsSane(StateAt(ops, k - 1), ops[k - 1]);
    } else {
      NothingIsSane();
    }
  }

  lemma NothingIsSane()
    ensures Sane(Coordinator(seq(MAX_SLOTS, _ => None), CORRELATION_BASE))
  {
  }

  predicate WaitsFor(slot: Option<Entry>, id: nat) {
    slot.Some? && slot.value.status == WaitingAck && slot.value.correlationId == id
  }

  /** An acknowledgement is taken exactly when some slot waits under that very id, which is the id of its latest send;
      then that slot, and no other, moves on. Any other acknowledgement is refused and changes nothing. */
  lemma AckHitsExactlyLatest(ops: seq<Op>, k: nat, id: nat, success: bool)
    requires k <= |ops| && Bounded(ops)
    ensures var c := StateAt(ops, k);
            var (after, handled) := Ack(c, id, success);
            && |c.slots| == |after.slots| == MAX_SLOTS
            && (handled <==> exists j :: 0 <= j < MAX_SLOTS && WaitsFor(c.slots[j], id))
            && (!handled ==> after == c)
            && (forall j | 0 <= j < MAX_SLOTS ::
                  after.slots[j]
                  == if WaitsFor(c.slots[j], id) then Some(AckStep(c.slots[j].value, success)) else c.slots[j])
  {
    hide StateAt, FirstSlot, AckStep;
    ReachableSane(ops, k);
    var c := StateAt(ops, k);
    var i := SlotById(c.slots, id);
    forall j | 0 <= j < MAX_SLOTS && WaitsFor(c.slots[j], id) ensures i == j {
      WaitingIsFirst(c, id, j);
    }
    assert Ack(c, id, success).1 ==> WaitsFor(c.slots[i], id);
  }

  /** No other slot, earlier or later, carries the id a slot waits under. */
  lemma WaitingIsFirst(c: Coordinator, id: nat, j: nat)
    requires Sane(c) && j < MAX_SLOTS && WaitsFor(c.slots[j], id)
    ensures SlotById(c.slots, id) == j
  {
    hide FirstSlot;
    var i := SlotById(c.slots, id);
    assert HasId(c.slots[j], id);
    assert i <= j && HasId(c.slots[i], id);
  }

  // ---------------------------------------------------------------------------------------------
  // The log of a slot: the steps sent for its device since the device was resolved
  // ---------------------------------------------------------------------------------------------

  ghost function Logged(log: seq<nat>, c: Coordinator, op: Op, j: nat): seq<nat> {
    match op
    case TickOp(nowMs) =>
      var sent := Ticked(c, nowMs).1;
      if sent.Some? && sent.value.0 == j && j < |c.slots| && c.slots[j].Some?
      then log + [c.slots[j].value.currentStep] else log
    case AckOp(_, _) => log
    case ResolveOp(shortAddr, _) => if TargetSlot(c.slots, shortAddr) == j then [] else log
    case RemoveOp(shortAddr) => if SlotByAddr(c.slots, shortAddr) == j then [] else log
  }

  ghost function LogAt(ops: seq<Op>, k: nat, j: nat): seq<nat>
    requires k <= |ops|
  {
    if k == 0 then [] else Logged(LogAt(ops, k - 1, j), StateAt(ops, k - 1), ops[k - 1], j)
  }

  function Count(log: seq<nat>, step: nat): nat {
    if log == [] then 0 else Count(log[..|log| - 1], step) + if log[|log| - 1] == step then 1 else 0
  }

  /** In plan order: never back, never past a step that was not sent, nothing beyond the current step. */
  ghost predicate InPlanOrder(log: seq<nat>, current: nat) {
    && (forall a, b | 0 <= a < b < |log| :: log[a] <= log[b])
    && (forall a | 0 <= a < |log| :: log[a] <= current)
    && (forall s: nat | s < current :: 1 <= Count(log, s) <= 1 + MAX_INIT_RETRIES)
  }

  /** How often the current step has been sent, read off the retry counter. */
  function SendsOfCurrent(e: Entry): int {
    MAX_INIT_RETRIES - e.retriesLeft + if e.status == WaitingAck || e.status == Degraded then 1 else 0
  }

  ghost predicate LogFits(log: seq<nat>, e: Entry) {
    InPlanOrder(log, e.currentStep) && Count(log, e.currentStep) == SendsOfCurrent(e)
  }

  lemma {:induction false} NoneBeyond(log: seq<nat>, step: nat)
    requires forall a | 0 <= a < |log| :: log[a] < step
    ensures Count(log, step) == 0
  {
    if log != [] {
      NoneBeyond(log[..|log| - 1], step);
    }
  }

  lemma CountSnoc(log: seq<nat>, x: nat, step: nat)
    ensures Count(log + [x], step) == Count(log, step) + if x == step then 1 else 0
  {
    assert (log + [x])[..|log|] == log;
  }

  lemma LogAfterSend(log: seq<nat>, e: Entry, counter: nat, nowMs: u32)
    requires LogFits(log, e) && e.status == InitPending
    ensures LogFits(log + [e.currentStep], Sent(e, counter, nowMs))
  {
    hide Count;
    forall s: nat ensures Count(log + [e.currentStep], s) == Count(log, s) + if e.currentStep == s then 1 else 0 {
      CountSnoc(log, e.currentStep, s);
    }
  }

  lemma LogAfterAck(log: seq<nat>, e: Entry, counter: nat, success: bool)
    requires LogFits(log, e) && e.status == WaitingAck && GoodEntry(e, counter)
    ensures LogFits(log, AckStep(e, success))
  {
    hide Count;
    if success {
      NoneBeyond(log, e.currentStep + 1);
    }
  }

  ghost predicate SlotLogged(log: seq<nat>, slot: Option<Entry>) {
    if slot == None then log == [] else LogFits(log, slot.value)
  }

  lemma LogFitsStep(log: seq<nat>, c: Coordinator, op: Op, j: nat)
    requires Sane(c) && j < MAX_SLOTS && SlotLogged(log, c.slots[j]) && (op.ResolveOp? ==> |op.plan| <= MAX_STEPS)
    ensures Sane(Perform(c, op)) && SlotLogged(Logged(log, c, op, j), Perform(c, op).slots[j])
  {
    PerformKeepsSane(c, op);
    hide LogFits, FirstSlot, SendFirst, Apart;
    match op
    case TickOp(nowMs) => TickLogged(log, c, nowMs, j);
    case AckOp(id, success) =>
      var i := SlotById(c.slots, id);
      if i == j && c.slots[j].value.status == WaitingAck {
        LogAfterAck(log, c.slots[j].value, c.counter, success);
      }
    case ResolveOp(shortAddr, plan) => EmptyLogFits(shortAddr, plan);
    case RemoveOp(shortAddr) =>
  }

  lemma EmptyLogFits(shortAddr: u16, plan: seq<Step>)
    ensures LogFits([], Started(shortAddr, plan))
  {
  }

  lemma TickLogged(log: seq<nat>, c: Coordinator, nowMs: u32, j: nat)
    requires Sane(c) && j < MAX_SLOTS && SlotLogged(log, c.slots[j])
    ensures var (after, sent) := Ticked(c, nowMs);
            |after.slots| == MAX_SLOTS && SlotLogged(Logged(log, c, TickOp(nowMs), j), after.slots[j])
  {
    hide LogFits, SendFirst, Apart;
    var expired := TimeoutAll(c.slots, nowMs);
    TimeoutKeepsSane(c, nowMs);
    SendFirstSends(expired, 0, c.counter, nowMs);
    if c.slots[j].Some? {
      if TimedOut(c.slots[j].value, nowMs) {
        LogAfterAck(log, c.slots[j].value, c.counter, false);
      }
      assert LogFits(log, expired[j].value);
      if IsPending(expired[j]) {
        LogAfterSend(log, expired[j].value, c.counter, nowMs);
      }
    }
  }

  lemma {:induction false} LogInvariant(ops: seq<Op>, k: nat, j: nat)
    requires k <= |ops| && Bounded(ops) && j < MAX_SLOTS
    ensures Sane(StateAt(ops, k)) && SlotLogged(LogAt(ops, k, j), StateAt(ops, k).slots[j])
  {
    if k == 0 {
      NothingIsSane();
    } else {
      hide SlotLogged, Perform, Logged;
      LogInvariant(ops, k - 1, j);
      LogFitsStep(LogAt(ops, k - 1, j), StateAt(ops, k - 1), ops[k - 1], j);
    }
  }

  /** Whatever ticks, acknowledgements, arrivals and departures happen: since the device of a slot was resolved, its
      steps were sent in plan order, each at most four times; a ready device was sent its whole plan; a degraded one
      was sent the step it is stuck on four times. */
  lemma StepsInOrderAndBounded(ops: seq<Op>, k: nat, j: nat)
    requires k <= |ops| && Bounded(ops) && j < MAX_SLOTS
    ensures |StateAt(ops, k).slots| == MAX_SLOTS
    ensures StateAt(ops, k).slots[j].Some? ==>
              var e, log := StateAt(ops, k).slots[j].value, LogAt(ops, k, j);
              && InPlanOrder(log, e.currentStep)
              && (forall s: nat :: Count(log, s) <= 1 + MAX_INIT_RETRIES)
              && (forall a | 0 <= a < |log| :: log[a] < |e.plan|)
              && (e.status == Ready ==> forall s | 0 <= s < |e.plan| :: Count(log, s) >= 1)
              && (e.status == Degraded ==> Count(log, e.currentStep) == 1 + MAX_INIT_RETRIES)
  {
    LogInvariant(ops, k, j);
    hide StateAt, LogAt, Apart;
    var c, log := StateAt(ops, k), LogAt(ops, k, j);
    if c.slots[j].Some? {
      var e := c.slots[j].value;
      LogWithinPlan(log, e, c.counter);
    }
  }

  lemma LogWithinPlan(log: seq<nat>, e: Entry, counter: nat)
    requires LogFits(log, e) && GoodEntry(e, counter)
    ensures forall s: nat :: Count(log, s) <= 1 + MAX_INIT_RETRIES
    ensures forall a | 0 <= a < |log| :: log[a] < |e.plan|
  {
    forall s: nat ensures Count(log, s) <= 1 + MAX_INIT_RETRIES {
      if s > e.currentStep {
        NoneBeyond(log, s);
      }
    }
    forall a | 0 <= a < |log| ensures log[a] < |e.plan| {
      CountPresent(log, a);
    }
  }

  lemma {:induction false} CountPresent(log: seq<nat>, a: nat)
    requires a < |log|
    ensures Count(log, log[a]) >= 1
  {
    if a < |log| - 1 {
      CountPresent(log[..|log| - 1], a);
      assert log[..|log| - 1][a] == log[a];
    }
  }

  // ---------------------------------------------------------------------------------------------
  // Termination
  // ---------------------------------------------------------------------------------------------

  predicate Settled(slot: Option<Entry>) {
    slot == None || slot.value.status == Ready || slot.value.status == Degraded
  }

  /** The lexicographic measure (steps left, retries left, phase), as one number. */
  function Rank(slot: Option<Entry>): nat {
    if Settled(slot) || slot.value.currentStep >= |slot.value.plan| then 0
    else
      8 * (|slot.value.plan| - slot.value.currentStep - 1) + 2 * slot.value.retriesLeft
      + if slot.value.status == InitPending then 2 else 1
  }

  function TotalRank(slots: Slots): nat {
    if slots == [] then 0 else TotalRank(slots[..|slots| - 1]) + Rank(slots[|slots| - 1])
  }

  lemma RankBound(e: Entry, counter: nat)
    requires GoodEntry(e, counter)
    ensures Rank(Some(e)) <= 8 * |e.plan| <= 8 * MAX_STEPS
    ensures Rank(Some(e)) == 0 <==> Settled(Some(e))
  {
  }

  lemma {:induction false} SumBound(slots: Slots, counter: nat)
    requires AllGood(slots, counter)
    ensures TotalRank(slots) <= 8 * MAX_STEPS * |slots|
    ensures TotalRank(slots) == 0 <==> forall i | 0 <= i < |slots| :: Settled(slots[i])
  {
    hide Rank;
    if slots != [] {
      var n := |slots| - 1;
      assert forall i | 0 <= i < n :: slots[..n][i] == slots[i];
      SumBound(slots[..n], counter);
      if slots[n].Some? {
        RankBound(slots[n].value, counter);
      } else {
        NoRank();
      }
    }
  }

  lemma NoRank()
    ensures Rank(None) == 0 && Settled(None)
  {
  }

  lemma {:induction false} SumShrinks(before: Slots, after: Slots, k: nat)
    requires |after| == |before| && k <= |before|
    requires forall i | 0 <= i < |before| :: Rank(after[i]) <= Rank(before[i])
    requires k < |before| ==> Rank(after[k]) < Rank(before[k])
    ensures TotalRank(after) <= TotalRank(before)
    ensures k < |before| ==> TotalRank(after) < TotalRank(before)
  {
    hide Rank;
    if before != [] {
      var n := |before| - 1;
      SumShrinks(before[..n], after[..n], if k < n then k else n);
    }
  }

  lemma AckShrinks(e: Entry, counter: nat, success: bool)
    requires GoodEntry(e, counter) && e.status == WaitingAck
    ensures Rank(Some(AckStep(e, success))) < Rank(Some(e))
  {
  }

  lemma SendShrinks(e: Entry, counter: nat, nowMs: u32)
    requires e.status == InitPending && e.currentStep < |e.plan|
    ensures Rank(Some(Sent(e, counter, nowMs))) < Rank(Some(e))
  {
  }

  /** A tick has something to do: a step to send, or a deadline that has passed. */
  ghost predicate Live(c: Coordinator, nowMs: u32) {
    exists i :: 0 <= i < |c.slots| && (IsPending(c.slots[i]) || (c.slots[i].Some? && TimedOut(c.slots[i].value, nowMs)))
  }

  lemma TimeoutShrinks(c: Coordinator, nowMs: u32)
    requires Sane(c)
    ensures forall i | 0 <= i < |c.slots| :: Rank(TimeoutAll(c.slots, nowMs)[i]) <= Rank(c.slots[i])
    ensures forall i | 0 <= i < |c.slots| && c.slots[i].Some? && TimedOut(c.slots[i].value, nowMs) ::
              Rank(TimeoutAll(c.slots, nowMs)[i]) < Rank(c.slots[i])
  {
    hide Rank, Apart;
    forall i | 0 <= i < |c.slots| && c.slots[i].Some? && TimedOut(c.slots[i].value, nowMs)
      ensures Rank(TimeoutAll(c.slots, nowMs)[i]) < Rank(c.slots[i])
    {
      AckShrinks(c.slots[i].value, c.counter, false);
    }
  }

  lemma TickShrinks(c: Coordinator, nowMs: u32)
    requires Sane(c)
    ensures TotalRank(Ticked(c, nowMs).0.slots) <= TotalRank(c.slots)
    ensures Live(c, nowMs) ==> TotalRank(Ticked(c, nowMs).0.slots) < TotalRank(c.slots)
  {
    hide Rank, SendFirst, Apart, TotalRank;
    var expired := TimeoutAll(c.slots, nowMs);
    TimeoutKeepsSane(c, nowMs);
    TimeoutShrinks(c, nowMs);
    SumShrinks(c.slots, expired, |c.slots|);
    SendFirstSends(expired, 0, c.counter, nowMs);
    var (after, sent) := SendFirst(expired, 0, c.counter, nowMs);
    if sent.Some? {
      SendShrinks(expired[sent.value.0].value, c.counter, nowMs);
      SumShrinks(expired, after, sent.value.0);
    } else if Live(c, nowMs) {
      var i :| 0 <= i < |c.slots| && (IsPending(c.slots[i]) || (c.slots[i].Some? && TimedOut(c.slots[i].value, nowMs)));
      assert expired[i] == TimeoutSlot(c.slots[i], nowMs) && !IsPending(c.slots[i]);
      SumShrinks(c.slots, expired, i);
    }
  }

  lemma AckOpShrinks(c: Coordinator, id: nat, success: bool)
    requires Sane(c)
    ensures TotalRank(Ack(c, id, success).0.slots) <= TotalRank(c.slots)
    ensures Ack(c, id, success).1 ==> TotalRank(Ack(c, id, success).0.slots) < TotalRank(c.slots)
  {
    hide Rank, FirstSlot, Apart, TotalRank;
    if Ack(c, id, success).1 {
      var i := SlotById(c.slots, id);
      AckShrinks(c.slots[i].value, c.counter, success);
      SumShrinks(c.slots, Ack(c, id, success).0.slots, i);
    }
  }

  ghost function RunFrom(c: Coordinator, ops: seq<Op>, k: nat): Coordinator
    requires k <= |ops|
  {
    if k == 0 then c else Perform(RunFrom(c, ops, k - 1), ops[k - 1])
  }

  ghost predicate AllSettled(c: Coordinator) {
    forall i | 0 <= i < |c.slots| :: Settled(c.slots[i])
  }

  lemma SettledMeansZero(c: Coordinator)
    requires Sane(c)
    ensures TotalRank(c.slots) == 0 <==> AllSettled(c)
    ensures TotalRank(c.slots) <= 8 * MAX_STEPS * MAX_SLOTS
  {
    hide TotalRank, Apart;
    SumBound(c.slots, c.counter);
  }

  /** Ticks and acknowledgements, in any order, at any times and with any outcome. */
  predicate OnlyProgress(ops: seq<Op>) {
    forall i | 0 <= i < |ops| :: ops[i].TickOp? || ops[i].AckOp?
  }

  ghost function LiveTicks(c: Coordinator, ops: seq<Op>, k: nat): nat
    requires k <= |ops|
  {
    if k == 0 then 0
    else
      LiveTicks(c, ops, k - 1)
      + if ops[k - 1].TickOp? && Live(RunFrom(c, ops, k - 1), ops[k - 1].nowMs) then 1 else 0
  }

  ghost function AcksTaken(c: Coordinator, ops: seq<Op>, k: nat): nat
    requires k <= |ops|
  {
    if k == 0 then 0
    else
      AcksTaken(c, ops, k - 1)
      + if ops[k - 1].AckOp? && Ack(RunFrom(c, ops, k - 1), ops[k - 1].id, ops[k - 1].success).1 then 1 else 0
  }

  /** The measure pays for every live tick and every acknowledgement taken, whatever idle ticks and stray
      acknowledgements lie between them. */
  lemma {:induction false} RankPaysForProgress(c: Coordinator, ops: seq<Op>, k: nat)
    requires Sane(c) && OnlyProgress(ops) && k <= |ops|
    ensures Sane(RunFrom(c, ops, k))
    ensures TotalRank(RunFrom(c, ops, k).slots) + LiveTicks(c, ops, k) + AcksTaken(c, ops, k) <= TotalRank(c.slots)
  {
    hide TotalRank, Sane, Live, Ack, Ticked;
    if k > 0 {
      var before, op := RunFrom(c, ops, k - 1), ops[k - 1];
      RankPaysForProgress(c, ops, k - 1);
      PerformKeepsSane(before, op);
      if op.TickOp? {
        TickShrinks(before, op.nowMs);
      } else {
        AckOpShrinks(before, op.id, op.success);
      }
    }
  }

  /** A tick idles exactly when nothing is pending and every wait has its deadline ahead; an idle tick changes
      nothing. */
  lemma IdleTickChangesNothing(c: Coordinator, nowMs: u32)
    requires Sane(c)
    ensures !Live(c, nowMs) <==>
            forall i | 0 <= i < MAX_SLOTS && !Settled(c.slots[i]) ::
              c.slots[i].value.status == WaitingAck && nowMs < c.slots[i].value.deadlineMs
    ensures !Live(c, nowMs) ==> Ticked(c, nowMs) == (c, None)
  {
    hide SendFirst, Apart;
    if !Live(c, nowMs) {
      var expired := TimeoutAll(c.slots, nowMs);
      assert expired == c.slots;
      SendFirstSends(expired, 0, c.counter, nowMs);
    }
  }

  /** While any device is unsettled, ticks are live from some reading of the clock on: only time has to pass. */
  lemma UnsettledBecomesLive(c: Coordinator) returns (deadline: u32)
    requires Sane(c) && !AllSettled(c)
    ensures forall nowMs: u32 | nowMs >= deadline :: Live(c, nowMs)
  {
    var i :| 0 <= i < |c.slots| && !Settled(c.slots[i]);
    SlotIsGood(c, i);
    deadline := c.slots[i].value.deadlineMs;
    forall nowMs: u32 | nowMs >= deadline ensures Live(c, nowMs) {
      assert IsPending(c.slots[i]) || TimedOut(c.slots[i].value, nowMs);
    }
  }

  /** The clock has reached every deadline that is being waited for. */
  ghost predicate Late(c: Coordinator, nowMs: u32) {
    forall i | 0 <= i < |c.slots| && c.slots[i].Some? && c.slots[i].value.status == WaitingAck ::
      nowMs >= c.slots[i].value.deadlineMs
  }

  ghost function LateTicks(c: Coordinator, ops: seq<Op>, k: nat): nat
    requires k <= |ops|
  {
    if k == 0 then 0
    else
      LateTicks(c, ops, k - 1)
      + if ops[k - 1].TickOp? && Late(RunFrom(c, ops, k - 1), ops[k - 1].nowMs) then 1 else 0
  }

  lemma LateIsLive(c: Coordinator, nowMs: u32)
    requires Sane(c) && Late(c, nowMs) && !AllSettled(c)
    ensures Live(c, nowMs)
  {
    var i :| 0 <= i < |c.slots| && !Settled(c.slots[i]);
    SlotIsGood(c, i);
    assert IsPending(c.slots[i]) || TimedOut(c.slots[i].value, nowMs);
  }

  /** Ready and degraded devices stay so under ticks and acknowledgements. */
  lemma SettledStays(c: Coordinator, op: Op)
    requires Sane(c) && AllSettled(c) && (op.TickOp? || op.AckOp?)
    ensures Sane(Perform(c, op)) && AllSettled(Perform(c, op))
  {
    hide Sane, TotalRank, AllSettled, Ack, Ticked;
    PerformKeepsSane(c, op);
    SettledMeansZero(c);
    SettledMeansZero(Perform(c, op));
    if op.TickOp? {
      TickShrinks(c, op.nowMs);
    } else {
      AckOpShrinks(c, op.id, op.success);
    }
  }

  /** As long as something is unsettled, every late tick so far has been a live one. */
  lemma {:induction false} LateTicksAreLive(c: Coordinator, ops: seq<Op>, k: nat)
    requires Sane(c) && OnlyProgress(ops) && k <= |ops|
    ensures Sane(RunFrom(c, ops, k))
    ensures AllSettled(RunFrom(c, ops, k)) || LateTicks(c, ops, k) <= LiveTicks(c, ops, k)
  {
    hide Sane, AllSettled, Late, Live, Perform;
    if k > 0 {
      var before, op := RunFrom(c, ops, k - 1), ops[k - 1];
      LateTicksAreLive(c, ops, k - 1);
      PerformKeepsSane(before, op);
      if AllSettled(before) {
        SettledStays(before, op);
      } else if op.TickOp? && Late(before, op.nowMs) {
        LateIsLive(before, op.nowMs);
      }
    }
  }

  /** Every run of ticks and acknowledgements, whatever idle ticks, stray acknowledgements and outcomes it holds, ends
      with all devices ready or degraded: at the latest after as many ticks past the deadlines as the measure at the
      start counts, which is at most 512. */
  lemma EveryRunSettles(c: Coordinator, ops: seq<Op>, k: nat)
    requires Sane(c) && OnlyProgress(ops) && k <= |ops|
    ensures LateTicks(c, ops, k) >= TotalRank(c.slots) ==> AllSettled(RunFrom(c, ops, k))
    ensures LiveTicks(c, ops, k) + AcksTaken(c, ops, k) <= TotalRank(c.slots) <= 8 * MAX_STEPS * MAX_SLOTS
  {
    hide TotalRank, RunFrom, LiveTicks, LateTicks, AcksTaken, Sane, AllSettled;
    RankPaysForProgress(c, ops, k);
    LateTicksAreLive(c, ops, k);
    SettledMeansZero(c);
    SettledMeansZero(RunFrom(c, ops, k));
  }

  // ---------------------------------------------------------------------------------------------
  // One device among others
  // ---------------------------------------------------------------------------------------------

  /** Whether the operation gives the slot a new device, or takes its device away. */
  ghost predicate Reassigns(c: Coordinator, op: Op, j: nat) {
    || (op.ResolveOp? && TargetSlot(c.slots, op.shortAddr) == j)
    || (op.RemoveOp? && SlotByAddr(c.slots, op.shortAddr) == j)
  }

  /** How often the slot has changed since its device was resolved: sends, timeouts and acknowledgements. */
  ghost function MovesAt(ops: seq<Op>, k: nat, j: nat): nat
    requires k <= |ops|
  {
    if k == 0 then 0
    else
      var c := StateAt(ops, k - 1);
      if Reassigns(c, ops[k - 1], j) then 0
      else MovesAt(ops, k - 1, j) + if SlotAt(Perform(c, ops[k - 1]), j) != SlotAt(c, j) then 1 else 0
  }

  function SlotAt(c: Coordinator, j: nat): Option<Entry> {
    if j < |c.slots| then c.slots[j] else None
  }

  /** The measure of one slot, at the start of its plan. */
  function FullRank(slot: Option<Entry>): nat {
    if slot == None then 0 else 8 * |slot.value.plan|
  }

  lemma TickMovesShrink(c: Coordinator, nowMs: u32, j: nat)
    requires Sane(c) && j < MAX_SLOTS
    ensures |Ticked(c, nowMs).0.slots| == MAX_SLOTS
    ensures var after := Ticked(c, nowMs).0.slots[j];
            && FullRank(after) == FullRank(c.slots[j])
            && (after != c.slots[j] ==> Rank(after) < Rank(c.slots[j]))
  {
    hide Rank, SendFirst, Apart;
    var expired := TimeoutAll(c.slots, nowMs);
    TimeoutKeepsSane(c, nowMs);
    TimeoutShrinks(c, nowMs);
    SendFirstSends(expired, 0, c.counter, nowMs);
    var sent := SendFirst(expired, 0, c.counter, nowMs).1;
    if sent.Some? && sent.value.0 == j {
      SendShrinks(expired[j].value, c.counter, nowMs);
    }
  }

  lemma AckMovesShrink(c: Coordinator, id: nat, success: bool, j: nat)
    requires Sane(c) && j < MAX_SLOTS
    ensures |Ack(c, id, success).0.slots| == MAX_SLOTS
    ensures var after := Ack(c, id, success).0.slots[j];
            && FullRank(after) == FullRank(c.slots[j])
            && (after != c.slots[j] ==> Rank(after) < Rank(c.slots[j]))
  {
    hide Rank, FirstSlot, Apart;
    if Ack(c, id, success).1 && SlotById(c.slots, id) == j {
      AckShrinks(c.slots[j].value, c.counter, success);
    }
  }

  lemma MovesStep(c: Coordinator, op: Op, j: nat)
    requires Sane(c) && j < MAX_SLOTS && (op.ResolveOp? ==> |op.plan| <= MAX_STEPS)
    ensures Sane(Perform(c, op))
    ensures var before, after := SlotAt(c, j), SlotAt(Perform(c, op), j);
            if Reassigns(c, op, j) then Rank(after) <= FullRank(after)
            else FullRank(after) == FullRank(before) && (after != before ==> Rank(after) < Rank(before))
  {
    PerformKeepsSane(c, op);
    if Reassigns(c, op, j) && SlotAt(Perform(c, op), j).Some? {
      RankBound(SlotAt(Perform(c, op), j).value, Perform(c, op).counter);
    }
    hide Rank, FirstSlot, SendFirst, Apart;
    match op
    case TickOp(nowMs) => TickMovesShrink(c, nowMs, j);
    case AckOp(id, success) => AckMovesShrink(c, id, success, j);
    case ResolveOp(_, _) =>
    case RemoveOp(_) => NoRank();
  }

  /** Whatever happens in between, arrivals and departures of other devices included: since its device was resolved a
      slot changes at most eight times per step of its plan, and once it has used them up it is ready or degraded. */
  lemma {:induction false} MovesAreBounded(ops: seq<Op>, k: nat, j: nat)
    requires k <= |ops| && Bounded(ops) && j < MAX_SLOTS
    ensures Sane(StateAt(ops, k))
    ensures var slot := SlotAt(StateAt(ops, k), j);
            && MovesAt(ops, k, j) + Rank(slot) <= FullRank(slot) <= 8 * MAX_STEPS
            && (Rank(slot) == 0 <==> Settled(slot))
  {
    hide Sane, Perform, Rank, FullRank, Reassigns;
    ReachableSane(ops, k);
    SlotRanks(StateAt(ops, k), j);
    if k == 0 {
      EmptyRanks(j);
    } else {
      MovesAreBounded(ops, k - 1, j);
      MovesStep(StateAt(ops, k - 1), ops[k - 1], j);
    }
  }

  lemma EmptyRanks(j: nat)
    ensures Rank(SlotAt(StateAt([], 0), j)) == 0
  {
  }

  lemma SlotRanks(c: Coordinator, j: nat)
    requires Sane(c) && j < MAX_SLOTS
    ensures var slot := SlotAt(c, j); FullRank(slot) <= 8 * MAX_STEPS && (Rank(slot) == 0 <==> Settled(slot))
  {
    hide Apart;
    if c.slots[j].Some? {
      RankBound(c.slots[j].value, c.counter);
    } else {
      NoRank();
    }
  }

  /** The step deadline is compared without regard to clock wrap: a step is sure to be given its five seconds, and no
      more, exactly when the deadline does not wrap past zero. */
  lemma DeadlineNeverEarlyIff(e: Entry, counter: nat, sentAtMs: u32)
    ensures sentAtMs + STEP_TIMEOUT_MS < TWO_TO_THE_32 ==>
              forall now: u32 | now >= sentAtMs + STEP_TIMEOUT_MS :: TimedOut(Sent(e, counter, sentAtMs), now)
    ensures sentAtMs + STEP_TIMEOUT_MS < TWO_TO_THE_32 <==>
            forall now: nat | sentAtMs <= now < sentAtMs + STEP_TIMEOUT_MS ::
              !TimedOut(Sent(e, counter, sentAtMs), Wrap32(now))
  {
    if sentAtMs + STEP_TIMEOUT_MS >= TWO_TO_THE_32 {
      assert Wrap32(sentAtMs) == sentAtMs;
      assert TimedOut(Sent(e, counter, sentAtMs), Wrap32(sentAtMs));
    }
  }
}
