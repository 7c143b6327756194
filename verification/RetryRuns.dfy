/** Retries of one device over any run of failures, timer ticks and events about it: bounded in number, never before
    their backoff. Times are true times; the manager only sees them modulo 2^32. */
module RetryRuns {
  import opened Common
  import opened CoreTypes
  import opened ReportingEntry

  datatype Happening =
    | Failure(atMs: nat, target: RetryTarget, reason: FailureReason)
    | Tick(atMs: nat)
    | Event(atMs: nat, event: CoreEvent)

  ghost predicate InOrder(run: seq<Happening>) {
    forall i, j | 0 <= i <= j < |run| :: run[i].atMs <= run[j].atMs
  }

  /** What the manager acts on for one entry: failures name a target and a reason, and the device does not leave,
      which would end the entry. */
  predicate Proper(run: seq<Happening>) {
    forall i | 0 <= i < |run| ::
      && (run[i].Failure? ==> run[i].target != NoTarget && run[i].reason != NoFailure)
      && (run[i].Event? ==> run[i].event.kind != DeviceLeft)
  }

  /** The events that start the retry count afresh; a join is not among them. */
  predicate Clears(h: Happening) {
    h.Event? && h.event.kind in {DeviceInterviewCompleted, DeviceBindingReady, DeviceReportingConfigured,
                                 DeviceTelemetryUpdated, DeviceStale}
  }

  function EntryAt(start: Entry, run: seq<Happening>, k: nat): Entry
    requires k <= |run|
  {
    if k == 0 then start
    else
      var e := EntryAt(start, run, k - 1);
      match run[k - 1]
      case Failure(at, target, reason) => OnFailure(e, target, reason, Wrap32(at)).0
      case Tick(at) => OnTimer(e, Wrap32(at))
      case Event(_, event) => if OnEvent(e, event).0.Some? then OnEvent(e, event).0.value else e
  }

  /** Whether step `k` retries the operation that failed. */
  predicate RetriesAt(start: Entry, run: seq<Happening>, k: nat)
    requires k < |run|
  {
    run[k].Tick? && Fires(EntryAt(start, run, k), Wrap32(run[k].atMs))
  }

  /** The retries among the first `k` steps since the last clearing event. */
  function Retries(start: Entry, run: seq<Happening>, k: nat): nat
    requires k <= |run|
  {
    if k == 0 || Clears(run[k - 1]) then 0
    else Retries(start, run, k - 1) + if RetriesAt(start, run, k - 1) then 1 else 0
  }

  /** The failure a pending retry answers, with no clearing event since. */
  ghost predicate Answers(start: Entry, run: seq<Happening>, k: nat, i: nat) {
    && i < k <= |run| && run[i].Failure? && Retryable(run[i].reason)
    && (forall n | i < n < k :: !Clears(run[n]))
    && var r := EntryAt(start, run, k).retry;
       && r.target == run[i].target
       && 1 <= r.attempt <= MAX_RETRY_ATTEMPTS
       && r.nextAtMs == Wrap32(Wrap32(run[i].atMs) + Backoff(r.attempt))
  }

  /** An event either clears the retry state or leaves it alone. */
  lemma EventOnRetry(e: Entry, h: Happening)
    requires h.Event? && h.event.kind != DeviceLeft
    ensures OnEvent(e, h.event).0.Some?
    ensures OnEvent(e, h.event).0.value.retry == if Clears(h) then NO_RETRY else e.retry
  {
  }

  lemma {:induction false} RetryInvariant(start: Entry, run: seq<Happening>, k: nat)
    requires k <= |run| && start.retry == NO_RETRY && Proper(run)
    ensures var r := EntryAt(start, run, k).retry;
            && Retries(start, run, k) + (if r.pending then 1 else 0) <= r.attempt <= MAX_RETRY_ATTEMPTS
            && (r.pending ==> exists i :: Answers(start, run, k, i))
  {
    hide Due, Backoff, OnEvent, Clears;
    if k > 0 {
      RetryInvariant(start, run, k - 1);
      var before, r := EntryAt(start, run, k - 1).retry, EntryAt(start, run, k).retry;
      if run[k - 1].Event? {
        EventOnRetry(EntryAt(start, run, k - 1), run[k - 1]);
      }
      if r.pending {
        if run[k - 1].Failure? {
          assert Answers(start, run, k, k - 1);
        } else {
          assert before == r && !Clears(run[k - 1]) by { OnlyEventsClear(run[k - 1]); }
          var i :| Answers(start, run, k - 1, i);
          assert Answers(start, run, k, i);
        }
      }
    }
  }

  lemma OnlyEventsClear(h: Happening)
    ensures Clears(h) ==> h.Event?
  {
  }

  /** Between two events that clear the retry state an operation is retried at most three times, however many
      failures are reported and however often the device joins again. */
  lemma RetriesAreBounded(start: Entry, run: seq<Happening>, k: nat)
    requires k <= |run| && start.retry == NO_RETRY && Proper(run)
    ensures Retries(start, run, k) <= MAX_RETRY_ATTEMPTS
  {
    RetryInvariant(start, run, k);
  }

  /** A retry repeats the operation of an earlier failure worth retrying, not cleared since, and comes no sooner than
      its backoff step after it, across any wrap of the clock. */
  lemma RetryWaitsForBackoff(start: Entry, run: seq<Happening>, k: nat) returns (i: nat)
    requires k < |run| && start.retry == NO_RETRY && InOrder(run) && Proper(run)
    requires RetriesAt(start, run, k)
    ensures i < k && run[i].Failure? && Retryable(run[i].reason) && forall n | i < n < k :: !Clears(run[n])
    ensures var attempt := EntryAt(start, run, k).retry.attempt;
            1 <= attempt <= MAX_RETRY_ATTEMPTS && run[k].atMs - run[i].atMs >= Backoff(attempt)
    ensures EntryAt(start, run, k + 1).stage
            == if run[i].target == BindTarget then PendingBind else PendingConfigureReporting
  {
    hide Due, Backoff, Clears;
    RetryInvariant(start, run, k);
    i :| Answers(start, run, k, i);
    var attempt := EntryAt(start, run, k).retry.attempt;
    BackoffGrows(attempt, attempt);
    DueMeansElapsed(run[i].atMs, run[k].atMs, Backoff(attempt));
  }

  /** Once the attempts are used up, or for a failure not worth retrying, a failure degrades the device at once, and
      nothing fires until another failure is reported. */
  lemma ExhaustedDegrades(start: Entry, run: seq<Happening>, k: nat)
    requires k < |run| && start.retry == NO_RETRY && run[k].Failure? && Proper(run)
    requires EntryAt(start, run, k).retry.attempt == MAX_RETRY_ATTEMPTS || !Retryable(run[k].reason)
    ensures EntryAt(start, run, k + 1).stage == Degraded && !EntryAt(start, run, k + 1).retry.pending
    ensures forall j | k < j < |run| && (forall n | k < n < j :: !run[n].Failure?) :: !RetriesAt(start, run, j)
  {
    forall j | k < j < |run| && (forall n | k < n < j :: !run[n].Failure?) ensures !RetriesAt(start, run, j) {
      NothingScheduled(start, run, k + 1, j);
    }
  }

  lemma {:induction false} NothingScheduled(start: Entry, run: seq<Happening>, k: nat, j: nat)
    requires k <= j <= |run| && !EntryAt(start, run, k).retry.pending && Proper(run)
    requires forall n | k <= n < j :: !run[n].Failure?
    ensures !EntryAt(start, run, j).retry.pending
  {
    hide OnEvent, Clears;
    if k < j {
      NothingScheduled(start, run, k, j - 1);
      if run[j - 1].Event? {
        EventOnRetry(EntryAt(start, run, j - 1), run[j - 1]);
      }
    }
  }

  /** Between steps `i` and `k` nothing disturbs the retry scheduled at `i`: no failure, no clearing event, and no tick
      as late as `backoff`. */
  ghost predicate Undisturbed(run: seq<Happening>, i: nat, k: nat, backoff: u32) {
    && i < k <= |run|
    && forall n | i < n < k ::
         !run[n].Failure? && !Clears(run[n]) && (run[n].Tick? ==> run[n].atMs - run[i].atMs < backoff)
  }

  lemma {:induction false} StillScheduled(start: Entry, run: seq<Happening>, i: nat, k: nat)
    requires InOrder(run) && Proper(run) && i < |run| && run[i].Failure? && Retryable(run[i].reason)
    requires EntryAt(start, run, i).retry.attempt < MAX_RETRY_ATTEMPTS
    requires var attempt := EntryAt(start, run, i).retry.attempt + 1; Undisturbed(run, i, k, Backoff(attempt))
    ensures var before, r := EntryAt(start, run, i).retry, EntryAt(start, run, k).retry;
            r == Retry(run[i].target, run[i].reason, before.attempt + 1,
                       Wrap32(Wrap32(run[i].atMs) + Backoff(before.attempt + 1)), true)
    decreases k
  {
    var attempt := EntryAt(start, run, i).retry.attempt + 1;
    BackoffGrows(attempt, attempt);
    if k > i + 1 {
      StillScheduled(start, run, i, k - 1);
      if run[k - 1].Event? {
        EventOnRetry(EntryAt(start, run, k - 1), run[k - 1]);
      } else {
        DueIffElapsed(run[i].atMs, run[k - 1].atMs, Backoff(attempt));
      }
    }
    hide Due, Backoff, OnEvent, Clears;
  }

  /** A scheduled retry does fire: after a failure worth retrying, with attempts left, the first tick after the backoff
      repeats the operation, if nothing has cleared it or failed again and the tick comes within 2^31 ms. */
  lemma DueRetryFires(start: Entry, run: seq<Happening>, i: nat, k: nat)
    requires InOrder(run) && Proper(run) && i < k < |run| && run[i].Failure? && Retryable(run[i].reason)
    requires EntryAt(start, run, i).retry.attempt < MAX_RETRY_ATTEMPTS && run[k].Tick?
    requires var backoff := Backoff(EntryAt(start, run, i).retry.attempt + 1);
             Undisturbed(run, i, k, backoff) && backoff <= run[k].atMs - run[i].atMs < TWO_TO_THE_31
    ensures RetriesAt(start, run, k)
    ensures EntryAt(start, run, k + 1).stage
            == if run[i].target == BindTarget then PendingBind else PendingConfigureReporting
    ensures !EntryAt(start, run, k + 1).retry.pending
  {
    StillScheduled(start, run, i, k);
    var attempt := EntryAt(start, run, i).retry.attempt + 1;
    BackoffGrows(attempt, attempt);
    DueIffElapsed(run[i].atMs, run[k].atMs, Backoff(attempt));
    hide Due, Backoff, Clears;
  }
}
