/** One device's reporting entry: retries with backoff, and occupancy reports debounced and held. */
module ReportingEntry {
  import opened Common
  import opened CoreTypes

  const MAX_RETRY_ATTEMPTS: u8 := 3
  const BASE_BACKOFF_MS: u32 := 1000
  const MAX_BACKOFF_MS: u32 := 8000

  datatype Stage = StageUnknown | PendingInterview | PendingBind | PendingConfigureReporting | ReportingActive | Degraded

  datatype RetryTarget = NoTarget | BindTarget | ConfigureTarget

  datatype FailureReason = NoFailure | Timeout | NotSupported | NetworkError | UnsupportedAttr

  datatype Actions = Actions(interview: bool, bind: bool, configure: bool, degraded: bool)

  datatype Retry = Retry(target: RetryTarget, reason: FailureReason, attempt: u8, nextAtMs: u32, pending: bool)

  /** `pending` is the value waiting out the debounce window, and since when. */
  datatype OccupancyTrack = OccupancyTrack(
    valid: bool,
    stable: bool,
    pendingValid: bool,
    pendingTarget: bool,
    pendingSinceMs: u32,
    holdUntilMs: u32)

  datatype Entry = Entry(
    shortAddr: u16,
    stage: Stage,
    retry: Retry,
    lastReportAtMs: u32,
    stalePending: bool,
    occupancy: OccupancyTrack)

  datatype Policy = Policy(debounceMs: u32, holdMs: u32)

  const NO_ACTIONS: Actions := Actions(false, false, false, false)
  const NO_RETRY: Retry := Retry(NoTarget, NoFailure, 0, 0, false)
  const NO_OCCUPANCY: OccupancyTrack := OccupancyTrack(false, false, false, false, 0, 0)

  function FreshEntry(shortAddr: u16): Entry {
    Entry(shortAddr, StageUnknown, NO_RETRY, 0, false, NO_OCCUPANCY)
  }

  predicate ValidShort(shortAddr: u16) {
    shortAddr != UNKNOWN_SHORT_ADDR && shortAddr != 0
  }

  /** `is_due`: the clock has reached the deadline, judged by the sign of the 32-bit difference. */
  predicate Due(nowMs: u32, deadlineMs: u32) {
    Wrap32(nowMs - deadlineMs) < TWO_TO_THE_31
  }

  /** A deadline `window` after `start` is never due early, whatever the clock did in between, exactly when the
      window is at most 2^31. */
  lemma DueIsNeverEarlyIff(window: u32)
    ensures window <= TWO_TO_THE_31 <==>
            forall start: nat, now: nat | start <= now && Due(Wrap32(now), Wrap32(Wrap32(start) + window)) ::
              now - start >= window
  {
    if window <= TWO_TO_THE_31 {
      forall start: nat, now: nat | start <= now && Due(Wrap32(now), Wrap32(Wrap32(start) + window))
        ensures now - start >= window
      {
        DueMeansElapsed(start, now, window);
      }
    } else {
      assert Due(Wrap32(0), Wrap32(Wrap32(0) + window));
    }
  }

  lemma DifferenceIsElapsed(start: nat, now: nat, window: u32)
    ensures Wrap32(Wrap32(now) - Wrap32(Wrap32(start) + window)) == Wrap32(now - start - window)
  {
    var a, b, c := now / TWO_TO_THE_32, start / TWO_TO_THE_32, (Wrap32(start) + window) / TWO_TO_THE_32;
    assert Wrap32(now) == now - a * TWO_TO_THE_32 && Wrap32(start) == start - b * TWO_TO_THE_32;
    assert Wrap32(Wrap32(start) + window) == Wrap32(start) + window - c * TWO_TO_THE_32;
    ShiftByTurns(now - start - window, b + c - a);
  }

  lemma ShiftByTurns(x: int, turns: int)
    ensures Wrap32(x + turns * TWO_TO_THE_32) == Wrap32(x)
  {
    var q := x / TWO_TO_THE_32;
    assert x + turns * TWO_TO_THE_32 == (q + turns) * TWO_TO_THE_32 + x % TWO_TO_THE_32;
    Remainder(q + turns, x % TWO_TO_THE_32);
  }

  lemma Remainder(q: int, r: u32)
    ensures (q * TWO_TO_THE_32 + r) % TWO_TO_THE_32 == r
  {
  }

  /** What a due deadline says about the time that really passed. */
  lemma DueMeansElapsed(start: nat, now: nat, window: u32)
    requires start <= now && Due(Wrap32(now), Wrap32(Wrap32(start) + window))
    ensures now - start >= window || now - start < window - TWO_TO_THE_31
  {
    DifferenceIsElapsed(start, now, window);
    var d := now - start - window;
    if -TWO_TO_THE_31 <= d < 0 {
      ShiftByTurns(d, 1);
    }
  }

  /** Within 2^31 of the start the test is exact for windows up to 2^31, whatever the clock did. */
  lemma DueIffElapsed(start: nat, now: nat, window: u32)
    requires start <= now < start + TWO_TO_THE_31 && window <= TWO_TO_THE_31
    ensures Due(Wrap32(now), Wrap32(Wrap32(start) + window)) <==> now - start >= window
  {
    DifferenceIsElapsed(start, now, window);
    var d := now - start - window;
    if d < 0 {
      ShiftByTurns(d, 1);
    }
  }

  // ---------------------------------------------------------------------------------------------
  // Operations
  // ---------------------------------------------------------------------------------------------

  predicate Retryable(reason: FailureReason) {
    reason == Timeout || reason == NetworkError
  }

  function Pow2(n: nat): (r: nat)
    ensures r >= 1
  {
    if n == 0 then 1 else 2 * Pow2(n - 1)
  }

  /** Exponential backoff: 1 s for the first attempt, doubling, never above 8 s. */
  function Backoff(attempt: u8): u32 {
    var delay := if attempt == 0 then BASE_BACKOFF_MS else BASE_BACKOFF_MS * Pow2(attempt - 1);
    if delay > MAX_BACKOFF_MS then MAX_BACKOFF_MS else delay
  }

  lemma {:induction false} Pow2Grows(m: nat, n: nat)
    requires m <= n
    ensures Pow2(m) <= Pow2(n)
  {
    if m < n {
      Pow2Grows(m, n - 1);
    }
  }

  lemma BackoffGrows(a: u8, b: u8)
    requires a <= b
    ensures BASE_BACKOFF_MS <= Backoff(a) <= Backoff(b) <= MAX_BACKOFF_MS
  {
    if a >= 1 {
      Pow2Grows(a - 1, b - 1);
    }
  }

  /** `compute_backoff_ms`: the doubling loop, with its early exit, computes the closed form. */
  method ComputeBackoff(attempt: u8) returns (delay: u32)
    ensures delay == Backoff(attempt)
  {
    if attempt == 0 {
      return BASE_BACKOFF_MS;
    }
    delay := BASE_BACKOFF_MS;
    var i: u8 := 1;
    while i < attempt
      invariant 1 <= i <= attempt && delay == BASE_BACKOFF_MS * Pow2(i - 1) && delay <= MAX_BACKOFF_MS
    {
      if delay >= MAX_BACKOFF_MS / 2 {
        Pow2Grows(i, attempt - 1);
        delay := MAX_BACKOFF_MS;
        return;
      }
      delay := delay * 2;
      i := i + 1;
    }
    if delay > MAX_BACKOFF_MS {
      delay := MAX_BACKOFF_MS;
    }
  }

  /** The event handler's effect on an entry; None means the entry is given up. */
  function OnEvent(e: Entry, event: CoreEvent): (Option<Entry>, Actions) {
    match event.kind
    case DeviceJoined =>
      (Some(e.(stage := PendingInterview, stalePending := false)), NO_ACTIONS.(interview := e.stage != PendingInterview))
    case DeviceInterviewCompleted =>
      (Some(e.(stage := PendingBind, retry := NO_RETRY)), NO_ACTIONS.(bind := e.stage != PendingBind))
    case DeviceBindingReady =>
      (Some(e.(stage := PendingConfigureReporting, retry := NO_RETRY)),
       NO_ACTIONS.(configure := e.stage != PendingConfigureReporting))
    case DeviceReportingConfigured =>
      (Some(e.(stage := Stage.ReportingActive, retry := NO_RETRY, stalePending := false)), NO_ACTIONS)
    case DeviceTelemetryUpdated =>
      (Some(e.(stage := Stage.ReportingActive, retry := NO_RETRY, stalePending := false,
               lastReportAtMs := if event.valueU32 != 0 then event.valueU32 else e.lastReportAtMs)), NO_ACTIONS)
    case DeviceStale =>
      (Some(e.(stage := Degraded, retry := NO_RETRY, stalePending := false)),
       NO_ACTIONS.(degraded := e.stage != Degraded))
    case DeviceLeft => (None, NO_ACTIONS)
    case _ => (Some(e), NO_ACTIONS)
  }

  /** `report_operation_failure` on the entry it finds. */
  function OnFailure(e: Entry, target: RetryTarget, reason: FailureReason, nowMs: u32): (Entry, Actions) {
    var noted := e.retry.(target := target, reason := reason);
    if !Retryable(reason) || e.retry.attempt >= MAX_RETRY_ATTEMPTS then
      (e.(stage := Degraded, retry := noted.(pending := false)), NO_ACTIONS.(degraded := true))
    else
      var attempt := e.retry.attempt + 1;
      (e.(retry := noted.(attempt := attempt, pending := true, nextAtMs := Wrap32(nowMs + Backoff(attempt)))), NO_ACTIONS)
  }

  predicate Fires(e: Entry, nowMs: u32) {
    e.retry.pending && Due(nowMs, e.retry.nextAtMs)
  }

  /** `process_timeouts` on one entry. */
  function OnTimer(e: Entry, nowMs: u32): Entry {
    if !Fires(e, nowMs) then e
    else
      e.(retry := e.retry.(pending := false),
         stage := match e.retry.target
                  case BindTarget => PendingBind
                  case ConfigureTarget => PendingConfigureReporting
                  case NoTarget => e.stage)
  }

  /** `normalize_occupancy_report` on the entry it finds: the new track, and whether a value is emitted. */
  function OnReport(o: OccupancyTrack, occupied: bool, nowMs: u32, policy: Policy): (OccupancyTrack, bool) {
    if !o.valid then
      (Emitted(o.(valid := true), occupied, nowMs, policy), true)
    else if occupied == o.stable then
      (o.(pendingValid := false), false)
    else if !occupied && policy.holdMs > 0 && !Due(nowMs, o.holdUntilMs) then
      (o, false)
    else if policy.debounceMs == 0 then
      (Emitted(o, occupied, nowMs, policy), true)
    else if !o.pendingValid || o.pendingTarget != occupied then
      (o.(pendingValid := true, pendingTarget := occupied, pendingSinceMs := nowMs), false)
    else if !Due(nowMs, Wrap32(o.pendingSinceMs + policy.debounceMs)) then
      (o, false)
    else
      (Emitted(o, occupied, nowMs, policy), true)
  }

  function Emitted(o: OccupancyTrack, occupied: bool, nowMs: u32, policy: Policy): OccupancyTrack {
    o.(stable := occupied, pendingValid := false,
       holdUntilMs := if occupied && policy.holdMs > 0 then Wrap32(nowMs + policy.holdMs)
                      else if !occupied then 0
                      else o.holdUntilMs)
  }

  // ---------------------------------------------------------------------------------------------
  // What the operations ask for
  // ---------------------------------------------------------------------------------------------

  /** The stage an event brings an entry to; None if it leaves the stage alone. */
  function StageOf(kind: EventType): Option<Stage> {
    match kind
    case DeviceJoined => Some(PendingInterview)
    case DeviceInterviewCompleted => Some(PendingBind)
    case DeviceBindingReady => Some(PendingConfigureReporting)
    case DeviceReportingConfigured => Some(Stage.ReportingActive)
    case DeviceTelemetryUpdated => Some(Stage.ReportingActive)
    case DeviceStale => Some(Degraded)
    case _ => None
  }

  /** An event asks for exactly what the stage it newly brings the entry to waits for; once per stay in a stage. */
  lemma EventsAskOnEntry(e: Entry, event: CoreEvent)
    requires event.kind != DeviceLeft
    ensures OnEvent(e, event).0.Some?
    ensures var (next, actions) := OnEvent(e, event);
            var after := next.value;
            && after.stage == (if StageOf(event.kind).Some? then StageOf(event.kind).value else e.stage)
            && (actions.interview <==> after.stage == PendingInterview && e.stage != PendingInterview)
            && (actions.bind <==> after.stage == PendingBind && e.stage != PendingBind)
            && (actions.configure <==>
                  after.stage == PendingConfigureReporting && e.stage != PendingConfigureReporting)
            && (actions.degraded <==> after.stage == Degraded && e.stage != Degraded)
            && after.shortAddr == e.shortAddr && after.occupancy == e.occupancy
            && after.lastReportAtMs == (if event.kind == DeviceTelemetryUpdated && event.valueU32 != 0 then event.valueU32
                                        else e.lastReportAtMs)
  {
  }

  /** Only a leaving device loses its entry. */
  lemma LeavingFreesEntry(e: Entry, event: CoreEvent)
    ensures OnEvent(e, event).0.None? <==> event.kind == DeviceLeft
    ensures event.kind == DeviceLeft ==> OnEvent(e, event).1 == Actions(false, false, false, false)
  {
  }

  /** A failure worth retrying, with attempts left, schedules the next attempt after its backoff; any other degrades the
      entry, says so, and schedules nothing. */
  lemma FailureSchedulesOrDegrades(e: Entry, target: RetryTarget, reason: FailureReason, nowMs: u32)
    ensures var (after, actions) := OnFailure(e, target, reason, nowMs);
            var again := (reason == Timeout || reason == NetworkError) && e.retry.attempt < 3;
            && after.retry.target == target && after.retry.reason == reason
            && after.retry.pending == again && actions == Actions(false, false, false, !again)
            && (again ==> after.retry.attempt == e.retry.attempt + 1 && after.stage == e.stage
                          && after.retry.nextAtMs == Wrap32(nowMs + Backoff(e.retry.attempt + 1)))
            && (!again ==> after.retry.attempt == e.retry.attempt && after.stage == Degraded)
  {
  }
}
