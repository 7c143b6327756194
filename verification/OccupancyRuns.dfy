/** What any sequence of reports for one device makes the occupancy filter emit. Times are true times; the filter
    only sees them modulo 2^32. */
module OccupancyRuns {
  import opened Common
  import opened CoreTypes
  import opened ReportingEntry

  datatype Report = Report(atMs: nat, occupied: bool)

  ghost predicate InOrder(reports: seq<Report>) {
    forall i, j | 0 <= i <= j < |reports| :: reports[i].atMs <= reports[j].atMs
  }

  /** The track after the first `k` reports. */
  function TrackAt(reports: seq<Report>, policy: Policy, k: nat): OccupancyTrack
    requires k <= |reports|
  {
    if k == 0 then NO_OCCUPANCY
    else OnReport(TrackAt(reports, policy, k - 1), reports[k - 1].occupied, Wrap32(reports[k - 1].atMs), policy).0
  }

  predicate Emits(reports: seq<Report>, policy: Policy, k: nat)
    requires k < |reports|
  {
    OnReport(TrackAt(reports, policy, k), reports[k].occupied, Wrap32(reports[k].atMs), policy).1
  }

  /** `a` and `b` are consecutive emissions. */
  ghost predicate Consecutive(reports: seq<Report>, policy: Policy, a: nat, b: nat) {
    && a < b < |reports| && Emits(reports, policy, a) && Emits(reports, policy, b)
    && forall j | a < j < b :: !Emits(reports, policy, j)
  }

  /** From report `i` through report `k - 1`, every report says `value`. */
  ghost predicate Unbroken(reports: seq<Report>, i: nat, k: nat, value: bool) {
    k <= |reports| && forall j | i <= j < k :: reports[j].occupied == value
  }

  /** The last emission before report `k`. */
  ghost predicate LastEmission(reports: seq<Report>, policy: Policy, a: nat, k: nat) {
    a < k <= |reports| && Emits(reports, policy, a) && forall j | a < j < k :: !Emits(reports, policy, j)
  }

  /** What the track remembers, `a` being the last emission. */
  ghost predicate Remembers(reports: seq<Report>, policy: Policy, k: nat, a: nat) {
    && LastEmission(reports, policy, a, k)
    && var o := TrackAt(reports, policy, k);
    && o.valid && o.stable == reports[a].occupied
    && (o.stable && policy.holdMs > 0 ==> o.holdUntilMs == Wrap32(Wrap32(reports[a].atMs) + policy.holdMs))
    && (o.pendingValid ==> o.pendingTarget == !o.stable && exists i :: PendingFrom(reports, k, a, i, o))
  }

  ghost predicate PendingFrom(reports: seq<Report>, k: nat, a: nat, i: nat, o: OccupancyTrack) {
    a < i < k <= |reports| && Unbroken(reports, i, k, o.pendingTarget) && o.pendingSinceMs == Wrap32(reports[i].atMs)
  }

  lemma {:induction false} TrackRemembers(reports: seq<Report>, policy: Policy, k: nat) returns (a: nat)
    requires 0 < k <= |reports|
    ensures Remembers(reports, policy, k, a)
  {
    var n := k - 1;
    if k == 1 {
      a := 0;
    } else {
      var before := TrackRemembers(reports, policy, n);
      a := if Emits(reports, policy, n) then n else before;
      RemembersStep(reports, policy, n, before);
    }
  }

  lemma {:induction false} RemembersStep(reports: seq<Report>, policy: Policy, n: nat, before: nat)
    requires n < |reports| && Remembers(reports, policy, n, before)
    ensures Remembers(reports, policy, n + 1, if Emits(reports, policy, n) then n else before)
    ensures Emits(reports, policy, n) ==> reports[n].occupied != reports[before].occupied
  {
    hide Due;
    var o, next := TrackAt(reports, policy, n), TrackAt(reports, policy, n + 1);
    if !Emits(reports, policy, n) && next.pendingValid {
      if o.pendingValid && o.pendingTarget == next.pendingTarget && o.pendingSinceMs == next.pendingSinceMs {
        var i :| PendingFrom(reports, n, before, i, o);
        assert PendingFrom(reports, n + 1, before, i, next);
      } else {
        assert PendingFrom(reports, n + 1, before, n, next);
      }
    }
  }

  /** The values emitted for a device alternate. */
  lemma EmissionsAlternate(reports: seq<Report>, policy: Policy, a: nat, b: nat)
    requires Consecutive(reports, policy, a, b)
    ensures reports[b].occupied != reports[a].occupied
  {
    var last := TrackRemembers(reports, policy, b);
    LastIs(reports, policy, last, a, b);
    RemembersStep(reports, policy, b, a);
  }

  lemma LastIs(reports: seq<Report>, policy: Policy, last: nat, a: nat, b: nat)
    requires LastEmission(reports, policy, last, b) && Consecutive(reports, policy, a, b)
    ensures last == a
  {
    hide Emits;
    assert !(last < a) && !(a < last);
  }

  /** The debounce promise: every later emission follows an unbroken run of agreeing reports, since the previous
      emission, that spans at least the debounce time. */
  ghost predicate Debounced(reports: seq<Report>, policy: Policy, a: nat, b: nat)
    requires a < b < |reports|
  {
    exists i :: a < i <= b && Unbroken(reports, i, b + 1, reports[b].occupied)
                && reports[b].atMs - reports[i].atMs >= policy.debounceMs
  }

  /** The run behind an emission, and what its pending deadline says. */
  lemma EmissionRun(reports: seq<Report>, policy: Policy, a: nat, b: nat) returns (i: nat)
    requires InOrder(reports) && Consecutive(reports, policy, a, b)
    ensures a < i <= b && Unbroken(reports, i, b + 1, reports[b].occupied)
    ensures var span := reports[b].atMs - reports[i].atMs;
            span >= policy.debounceMs || span < policy.debounceMs - TWO_TO_THE_31
  {
    hide Due;
    var last := TrackRemembers(reports, policy, b);
    LastIs(reports, policy, last, a, b);
    RemembersStep(reports, policy, b, a);
    var o := TrackAt(reports, policy, b);
    if policy.debounceMs == 0 {
      i := b;
    } else {
      i :| PendingFrom(reports, b, a, i, o);
      assert Due(Wrap32(reports[b].atMs), Wrap32(Wrap32(reports[i].atMs) + policy.debounceMs));
      DueMeansElapsed(reports[i].atMs, reports[b].atMs, policy.debounceMs);
    }
  }

  /** The hold check behind a clear. */
  lemma ClearPassedHold(reports: seq<Report>, policy: Policy, a: nat, b: nat)
    requires InOrder(reports) && Consecutive(reports, policy, a, b) && !reports[b].occupied
    ensures var gap := reports[b].atMs - reports[a].atMs;
            gap >= policy.holdMs || gap < policy.holdMs - TWO_TO_THE_31
  {
    hide Due;
    var last := TrackRemembers(reports, policy, b);
    LastIs(reports, policy, last, a, b);
    EmissionsAlternate(reports, policy, a, b);
    if policy.holdMs > 0 {
      assert Due(Wrap32(reports[b].atMs), Wrap32(Wrap32(reports[a].atMs) + policy.holdMs));
      DueMeansElapsed(reports[a].atMs, reports[b].atMs, policy.holdMs);
    }
  }

  // ---------------------------------------------------------------------------------------------
  // Exactly which policies keep the two promises
  // ---------------------------------------------------------------------------------------------

  ghost predicate AlwaysDebounced(policy: Policy) {
    forall reports: seq<Report>, a: nat, b: nat | InOrder(reports) && Consecutive(reports, policy, a, b) ::
      Debounced(reports, policy, a, b)
  }

  /** A clear never comes sooner than the hold time after the occupied value before it. */
  ghost predicate AlwaysHeld(policy: Policy) {
    forall reports: seq<Report>, a: nat, b: nat
      | InOrder(reports) && Consecutive(reports, policy, a, b) && !reports[b].occupied ::
      reports[b].atMs - reports[a].atMs >= policy.holdMs
  }

  predicate HoldIsSafe(policy: Policy) {
    || policy.holdMs <= TWO_TO_THE_31
    || policy.holdMs - TWO_TO_THE_31 <= policy.debounceMs <= TWO_TO_THE_31
  }

  /** The debounce promise holds on every report sequence, across clock wraps, exactly for debounce times up to
      2^31. */
  lemma DebounceSafeIff(policy: Policy)
    ensures AlwaysDebounced(policy) <==> policy.debounceMs <= TWO_TO_THE_31
  {
    if policy.debounceMs <= TWO_TO_THE_31 {
      forall reports: seq<Report>, a: nat, b: nat | InOrder(reports) && Consecutive(reports, policy, a, b)
        ensures Debounced(reports, policy, a, b)
      {
        var i := EmissionRun(reports, policy, a, b);
      }
    } else {
      var reports := [Report(0, false), Report(0, true), Report(0, true)];
      EarlyEmission(policy, false, 0);
      assert Consecutive(reports, policy, 0, 2);
      assert !Debounced(reports, policy, 0, 2);
    }
  }

  /** The first value emitted, its opposite reported twice: the second time it is emitted, if both deadlines read
      as due. */
  lemma EarlyEmission(policy: Policy, first: bool, wait: u32)
    requires policy.debounceMs > 0 && Due(wait, policy.debounceMs)
    requires first && policy.holdMs > 0 ==> Due(0, policy.holdMs) && Due(wait, policy.holdMs)
    ensures var reports := [Report(0, first), Report(0, !first), Report(wait, !first)];
            Emits(reports, policy, 0) && !Emits(reports, policy, 1) && Emits(reports, policy, 2)
  {
    hide Due;
    var reports := [Report(0, first), Report(0, !first), Report(wait, !first)];
    var one, two := TrackAt(reports, policy, 1), TrackAt(reports, policy, 2);
    assert TrackAt(reports, policy, 0) == NO_OCCUPANCY;
    assert one == OnReport(NO_OCCUPANCY, first, 0, policy).0;
    assert two == OnReport(one, !first, 0, policy).0;
    assert two.pendingValid && two.pendingTarget == !first && two.pendingSinceMs == 0;
  }

  /** With no debounce, an occupied value followed at once by a clear. */
  lemma EarlyClear(policy: Policy)
    requires policy.debounceMs == 0 && policy.holdMs > 0 && Due(0, policy.holdMs)
    ensures var reports := [Report(0, true), Report(0, false)];
            Emits(reports, policy, 0) && Emits(reports, policy, 1)
  {
    hide Due;
    var reports := [Report(0, true), Report(0, false)];
    assert TrackAt(reports, policy, 0) == NO_OCCUPANCY;
    assert TrackAt(reports, policy, 1) == OnReport(NO_OCCUPANCY, true, 0, policy).0;
  }

  /** The hold promise holds on every report sequence exactly for hold times up to 2^31, or longer ones whose excess
      the debounce time covers. */
  lemma HoldSafeIff(policy: Policy)
    ensures AlwaysHeld(policy) <==> HoldIsSafe(policy)
  {
    if HoldIsSafe(policy) {
      forall reports: seq<Report>, a: nat, b: nat
        | InOrder(reports) && Consecutive(reports, policy, a, b) && !reports[b].occupied
        ensures reports[b].atMs - reports[a].atMs >= policy.holdMs
      {
        ClearPassedHold(reports, policy, a, b);
        var i := EmissionRun(reports, policy, a, b);
        assert reports[a].atMs <= reports[i].atMs;
      }
    } else {
      HoldBroken(policy);
    }
  }

  lemma HoldBroken(policy: Policy)
    requires !HoldIsSafe(policy)
    ensures !AlwaysHeld(policy)
  {
    if policy.debounceMs == 0 {
      var reports := [Report(0, true), Report(0, false)];
      EarlyClear(policy);
      assert Consecutive(reports, policy, 0, 1) && reports[1].atMs - reports[0].atMs < policy.holdMs;
    } else {
      var wait := if policy.debounceMs <= TWO_TO_THE_31 then policy.debounceMs else 0;
      var reports := [Report(0, true), Report(0, false), Report(wait, false)];
      EarlyEmission(policy, true, wait);
      assert InOrder(reports) && Consecutive(reports, policy, 0, 2);
      assert reports[2].atMs - reports[0].atMs < policy.holdMs;
    }
  }

  // ---------------------------------------------------------------------------------------------
  // Exactly when a value is emitted
  // ---------------------------------------------------------------------------------------------

  /** Since the last emission `a`: from report `i` on everything up to `k` says `value`, and when `i` came a clear was no
      longer held back. */
  ghost predicate Standing(reports: seq<Report>, policy: Policy, a: nat, i: nat, k: nat, value: bool) {
    && a < i < k <= |reports| && Unbroken(reports, i, k, value)
    && (!value ==> reports[i].atMs - reports[a].atMs >= policy.holdMs)
  }

  /** The pending value is `value`, the opposite of the last one emitted, exactly if that stands; and it has been pending
      since the first report from which it stands. */
  ghost predicate PendingIsStanding(reports: seq<Report>, policy: Policy, a: nat, k: nat, value: bool)
    requires k <= |reports|
  {
    var o := TrackAt(reports, policy, k);
    && o.valid && o.stable != value
    && (o.pendingValid ==> o.pendingTarget == value && exists i: nat :: StandsFirst(reports, policy, a, i, k, value, o.pendingSinceMs))
    && (!o.pendingValid ==> forall i: nat :: !Standing(reports, policy, a, i, k, value))
  }

  ghost predicate StandsFirst(reports: seq<Report>, policy: Policy, a: nat, i: nat, k: nat, value: bool, sinceMs: u32) {
    && Standing(reports, policy, a, i, k, value) && sinceMs == Wrap32(reports[i].atMs)
    && forall j: nat | Standing(reports, policy, a, j, k, value) :: i <= j
  }

  /** Windows the modular clock can tell, looked at less than 2^31 after the last emission. */
  ghost predicate Tellable(reports: seq<Report>, policy: Policy, a: nat, k: nat) {
    && a <= k < |reports| && InOrder(reports) && policy.debounceMs <= TWO_TO_THE_31 && policy.holdMs <= TWO_TO_THE_31
    && reports[k].atMs - reports[a].atMs < TWO_TO_THE_31
  }

  /** The hold check lets a clear through exactly from the hold time on. */
  lemma HoldDueIff(reports: seq<Report>, policy: Policy, a: nat, k: nat)
    requires Tellable(reports, policy, a, k) && Remembers(reports, policy, k, a)
    ensures var o := TrackAt(reports, policy, k);
            o.stable && policy.holdMs > 0 ==>
              (Due(Wrap32(reports[k].atMs), o.holdUntilMs) <==> reports[k].atMs - reports[a].atMs >= policy.holdMs)
  {
    hide Due, TrackAt, Emits, Wrap32, PendingFrom, Unbroken, LastEmission;
    DueIffElapsed(reports[a].atMs, reports[k].atMs, policy.holdMs);
  }

  /** What report `k` does to what stands; `n` is `k + 1`. */
  lemma StandingStep(reports: seq<Report>, policy: Policy, a: nat, i: nat, k: nat, n: nat, value: bool)
    requires a < k < |reports| && n == k + 1 && InOrder(reports)
    ensures Standing(reports, policy, a, i, n, value) <==>
            && reports[k].occupied == value
            && if i == k then !value ==> reports[k].atMs - reports[a].atMs >= policy.holdMs
               else Standing(reports, policy, a, i, k, value)
    ensures Standing(reports, policy, a, i, k, value) ==>
              i < k && (!value ==> reports[k].atMs - reports[a].atMs >= policy.holdMs)
  {
  }

  /** The hold check would stop `value` at report `k`. */
  predicate HeldBack(reports: seq<Report>, policy: Policy, a: nat, k: nat, value: bool)
    requires a < |reports| && k < |reports|
  {
    !value && policy.holdMs > 0 && reports[k].atMs - reports[a].atMs < policy.holdMs
  }

  /** The filter's reaction to a report that is not emitted. */
  lemma TrackStep(reports: seq<Report>, policy: Policy, a: nat, k: nat, value: bool)
    requires Tellable(reports, policy, a, k) && Remembers(reports, policy, k, a) && policy.debounceMs > 0
    requires value != reports[a].occupied && !Emits(reports, policy, k)
    ensures var o, next := TrackAt(reports, policy, k), TrackAt(reports, policy, k + 1);
            && next.valid && next.stable == o.stable
            && (reports[k].occupied != value ==> !next.pendingValid)
            && (reports[k].occupied == value && HeldBack(reports, policy, a, k, value) ==> next == o)
            && (reports[k].occupied == value && !HeldBack(reports, policy, a, k, value) ==>
                  if o.pendingValid then next == o
                  else next.pendingValid && next.pendingTarget == value
                       && next.pendingSinceMs == Wrap32(reports[k].atMs))
  {
    HoldDueIff(reports, policy, a, k);
    hide Due;
  }

  lemma {:induction false} PendingKept(reports: seq<Report>, policy: Policy, a: nat, k: nat, n: nat, value: bool)
    requires Tellable(reports, policy, a, k) && Remembers(reports, policy, k, a) && policy.debounceMs > 0
    requires n == k + 1 && value != reports[a].occupied
    requires PendingIsStanding(reports, policy, a, k, value) && !Emits(reports, policy, k)
    ensures PendingIsStanding(reports, policy, a, n, value)
  {
    TrackStep(reports, policy, a, k, value);
    var o, next := TrackAt(reports, policy, k), TrackAt(reports, policy, n);
    forall i: nat
      ensures Standing(reports, policy, a, i, n, value) <==>
              && reports[k].occupied == value
              && if i == k then !HeldBack(reports, policy, a, k, value) else Standing(reports, policy, a, i, k, value)
      ensures Standing(reports, policy, a, i, k, value) ==> i < k && !HeldBack(reports, policy, a, k, value)
    {
      StandingStep(reports, policy, a, i, k, n, value);
    }
    hide TrackAt, Emits, Standing, Remembers, HeldBack;
    if next.pendingValid {
      if o.pendingValid {
        var i: nat :| StandsFirst(reports, policy, a, i, k, value, o.pendingSinceMs);
        assert StandsFirst(reports, policy, a, i, n, value, next.pendingSinceMs);
      } else {
        assert StandsFirst(reports, policy, a, k, n, value, next.pendingSinceMs);
      }
    }
  }

  lemma {:induction false} PendingExact(reports: seq<Report>, policy: Policy, a: nat, k: nat)
    requires Tellable(reports, policy, a, k) && LastEmission(reports, policy, a, k) && policy.debounceMs > 0
    ensures Remembers(reports, policy, k, a) && PendingIsStanding(reports, policy, a, k, !reports[a].occupied)
  {
    var last := TrackRemembers(reports, policy, k);
    assert last == a;
    if k == a + 1 {
      assert !TrackAt(reports, policy, k).pendingValid;
      hide TrackAt, Due;
    } else {
      hide TrackAt, Emits, PendingIsStanding, Remembers;
      PendingExact(reports, policy, a, k - 1);
      PendingKept(reports, policy, a, k - 1, k, !reports[a].occupied);
    }
  }

  /** A report at which `value` has stood for the debounce time. */
  ghost predicate StoodLongEnough(reports: seq<Report>, policy: Policy, a: nat, k: nat, value: bool)
    requires k < |reports|
  {
    exists i: nat :: Standing(reports, policy, a, i, k + 1, value)
                     && reports[k].atMs - reports[i].atMs >= policy.debounceMs
  }

  lemma EmittedAtOnceIff(reports: seq<Report>, policy: Policy, a: nat, k: nat, value: bool)
    requires Tellable(reports, policy, a, k) && Remembers(reports, policy, k, a) && policy.debounceMs == 0
    requires reports[k].occupied == value != reports[a].occupied
    ensures Emits(reports, policy, k) <==> StoodLongEnough(reports, policy, a, k, value)
  {
    HoldDueIff(reports, policy, a, k);
    assert Emits(reports, policy, k) <==> !HeldBack(reports, policy, a, k, value);
    hide Due, TrackAt, Emits, Remembers;
    if !HeldBack(reports, policy, a, k, value) {
      assert Standing(reports, policy, a, k, k + 1, value);
    }
  }

  lemma EmittedAfterDebounceIff(reports: seq<Report>, policy: Policy, a: nat, k: nat, value: bool)
    requires Tellable(reports, policy, a, k) && Remembers(reports, policy, k, a) && policy.debounceMs > 0
    requires reports[k].occupied == value != reports[a].occupied && PendingIsStanding(reports, policy, a, k, value)
    ensures Emits(reports, policy, k) <==> StoodLongEnough(reports, policy, a, k, value)
  {
    var o, n := TrackAt(reports, policy, k), k + 1;
    HoldDueIff(reports, policy, a, k);
    assert !o.pendingValid ==> !Emits(reports, policy, k);
    if o.pendingValid {
      var first: nat :| StandsFirst(reports, policy, a, first, k, value, o.pendingSinceMs);
      StandingStep(reports, policy, a, first, k, n, value);
      DueIffElapsed(reports[first].atMs, reports[k].atMs, policy.debounceMs);
      assert Emits(reports, policy, k) <==> reports[k].atMs - reports[first].atMs >= policy.debounceMs;
      hide Due, TrackAt, Emits, Standing, Remembers;
      if StoodLongEnough(reports, policy, a, k, value) {
        var i: nat :| Standing(reports, policy, a, i, n, value)
                      && reports[k].atMs - reports[i].atMs >= policy.debounceMs;
        StandingStep(reports, policy, a, i, k, n, value);
        assert reports[first].atMs <= reports[i].atMs;
      }
    } else {
      hide Due, TrackAt, Emits, Standing, Remembers;
      if i: nat :| Standing(reports, policy, a, i, n, value) && reports[k].atMs - reports[i].atMs >= policy.debounceMs {
        StandingStep(reports, policy, a, i, k, n, value);
      }
    }
  }

  /** Exactly when a report is emitted, for windows up to 2^31 and less than 2^31 after the last emission: if it says
      the opposite of the last value emitted, and reports have said so without a break for the debounce time, counted,
      for a clear, from no earlier than the end of the hold time. */
  lemma EmittedIff(reports: seq<Report>, policy: Policy, a: nat, k: nat)
    requires Tellable(reports, policy, a, k) && LastEmission(reports, policy, a, k)
    ensures Emits(reports, policy, k) <==>
            reports[k].occupied != reports[a].occupied
            && StoodLongEnough(reports, policy, a, k, reports[k].occupied)
  {
    var last := TrackRemembers(reports, policy, k);
    assert last == a;
    var value := reports[k].occupied;
    if value == reports[a].occupied {
      assert !Emits(reports, policy, k);
    } else if policy.debounceMs == 0 {
      EmittedAtOnceIff(reports, policy, a, k, value);
    } else {
      PendingExact(reports, policy, a, k);
      EmittedAfterDebounceIff(reports, policy, a, k, value);
    }
  }

  /** The first report of a device is always emitted. */
  lemma FirstIsEmitted(reports: seq<Report>, policy: Policy)
    requires reports != []
    ensures Emits(reports, policy, 0)
  {
  }
}
