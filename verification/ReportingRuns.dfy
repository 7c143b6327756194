/** The reporting manager over whole runs of calls: the table keeps its devices apart, so each entry is what the calls
    about its own device make it, and the laws of single devices hold of every device in it. */
module ReportingRuns {
  import opened Common
  import opened CoreTypes
  import opened ReportingEntry
  import opened ReportingManager
  import R = RetryRuns
  import O = OccupancyRuns

  /** A call to the manager, at a true time. */
  datatype Call =
    | HandleCall(atMs: nat, event: CoreEvent)
    | FailureCall(atMs: nat, shortAddr: u16, target: RetryTarget, reason: FailureReason)
    | TickCall(atMs: nat)
    | ReportCall(atMs: nat, shortAddr: u16, occupied: bool)

  type Policies = u16 -> Policy

  function After(d: Entries, c: Call, policies: Policies): Entries {
    match c
    case HandleCall(_, event) => Handled(d, event).0
    case FailureCall(at, s, target, reason) => Failed(d, s, target, reason, Wrap32(at)).0
    case TickCall(at) => Ticked(d, Wrap32(at))
    case ReportCall(at, s, occupied) => Normalized(d, s, occupied, Wrap32(at), policies(s)).0
  }

  /** The table after the calls, starting from the empty one. */
  function EntriesAfter(calls: seq<Call>, policies: Policies): Entries {
    if calls == [] then map[]
    else After(EntriesAfter(calls[..|calls| - 1], policies), calls[|calls| - 1], policies)
  }

  // ---------------------------------------------------------------------------------------------
  // What concerns one device
  // ---------------------------------------------------------------------------------------------

  /** What a call means for the retries of device `s`. */
  function HappeningFor(c: Call, s: u16): seq<R.Happening> {
    match c
    case HandleCall(at, event) => if event.shortAddr == s then [R.Event(at, event)] else []
    case FailureCall(at, other, target, reason) =>
      if other == s && target != NoTarget && reason != NoFailure then [R.Failure(at, target, reason)] else []
    case TickCall(at) => [R.Tick(at)]
    case ReportCall(_, _, _) => []
  }

  function ReportFor(c: Call, s: u16): seq<O.Report> {
    if c.ReportCall? && c.shortAddr == s then [O.Report(c.atMs, c.occupied)] else []
  }

  /** What happened to device `s` since it took its slot, that call included. */
  function Happenings(calls: seq<Call>, policies: Policies, s: u16): seq<R.Happening> {
    if calls == [] || s !in EntriesAfter(calls, policies) then []
    else
      var front, c := calls[..|calls| - 1], calls[|calls| - 1];
      Happenings(front, policies, s) + HappeningFor(c, s)
  }

  /** The occupancy reports of device `s` since it took its slot. */
  function Reports(calls: seq<Call>, policies: Policies, s: u16): seq<O.Report> {
    if calls == [] || s !in EntriesAfter(calls, policies) then []
    else
      var front, c := calls[..|calls| - 1], calls[|calls| - 1];
      Reports(front, policies, s) + ReportFor(c, s)
  }

  /** The entry that `happenings` and `reports` alone lead to. */
  function Alone(s: u16, happenings: seq<R.Happening>, reports: seq<O.Report>, policy: Policy): Entry {
    R.EntryAt(FreshEntry(s), happenings, |happenings|).(occupancy := O.TrackAt(reports, policy, |reports|))
  }

  // ---------------------------------------------------------------------------------------------
  // Prefixes
  // ---------------------------------------------------------------------------------------------

  lemma {:induction false} EntryOfPrefix(start: Entry, run: seq<R.Happening>, h: R.Happening, k: nat)
    requires k <= |run|
    ensures R.EntryAt(start, run + [h], k) == R.EntryAt(start, run, k)
  {
    hide OnEvent, OnFailure, OnTimer, Wrap32;
    if k > 0 {
      EntryOfPrefix(start, run, h, k - 1);
    }
  }

  lemma {:induction false} TrackOfPrefix(reports: seq<O.Report>, r: O.Report, policy: Policy, k: nat)
    requires k <= |reports|
    ensures O.TrackAt(reports + [r], policy, k) == O.TrackAt(reports, policy, k)
  {
    hide OnReport, Wrap32;
    if k > 0 {
      TrackOfPrefix(reports, r, policy, k - 1);
    }
  }

  /** Retries neither see nor touch the occupancy filter. */
  lemma OccupancyApart(e: Entry, o: OccupancyTrack, event: CoreEvent, target: RetryTarget, reason: FailureReason, nowMs: u32)
    ensures OnFailure(e.(occupancy := o), target, reason, nowMs).0 == OnFailure(e, target, reason, nowMs).0.(occupancy := o)
    ensures OnTimer(e.(occupancy := o), nowMs) == OnTimer(e, nowMs).(occupancy := o)
    ensures event.kind != DeviceLeft ==>
              OnEvent(e, event).0.Some?
              && OnEvent(e.(occupancy := o), event).0 == Some(OnEvent(e, event).0.value.(occupancy := o))
  {
  }

  /** Fires and emits alike, with or without the rest of the entry. */
  lemma HappeningAlone(s: u16, run: seq<R.Happening>, reports: seq<O.Report>, policy: Policy, h: R.Happening)
    requires h.Event? ==> h.event.kind != DeviceLeft
    ensures var e := Alone(s, run, reports, policy);
            Alone(s, run + [h], reports, policy)
            == match h
               case Failure(at, target, reason) => OnFailure(e, target, reason, Wrap32(at)).0
               case Tick(at) => OnTimer(e, Wrap32(at))
               case Event(_, event) => if OnEvent(e, event).0.Some? then OnEvent(e, event).0.value else e
  {
    var start, o := FreshEntry(s), O.TrackAt(reports, policy, |reports|);
    EntryOfPrefix(start, run, h, |run|);
    var e := R.EntryAt(start, run, |run|);
    hide OnFailure, OnTimer, OnEvent;
    match h {
      case Failure(at, target, reason) => OccupancyApart(e, o, DEFAULT_EVENT, target, reason, Wrap32(at));
      case Tick(at) => OccupancyApart(e, o, DEFAULT_EVENT, NoTarget, NoFailure, Wrap32(at));
      case Event(at, event) => OccupancyApart(e, o, event, NoTarget, NoFailure, 0);
    }
  }

  lemma ReportAlone(s: u16, run: seq<R.Happening>, reports: seq<O.Report>, policy: Policy, r: O.Report)
    ensures var e := Alone(s, run, reports, policy);
            Alone(s, run, reports + [r], policy)
            == e.(occupancy := OnReport(e.occupancy, r.occupied, Wrap32(r.atMs), policy).0)
  {
    TrackOfPrefix(reports, r, policy, |reports|);
  }

  // ---------------------------------------------------------------------------------------------
  // The table keeps its devices apart
  // ---------------------------------------------------------------------------------------------

  /** Who has an entry after a call: whoever had one and has not left, and, while there is room, a device that joins or
      reports occupancy. */
  lemma EntryTakenIff(d: Entries, c: Call, policies: Policies, s: u16)
    requires forall x | x in d :: ValidShort(x)
    ensures s in After(d, c, policies) <==>
              || (s in d && !(c.HandleCall? && c.event.kind == DeviceLeft && c.event.shortAddr == s))
              || (s !in d && ValidShort(s) && |d| < MAX_DEVICES
                  && ((c.HandleCall? && c.event.kind == DeviceJoined && c.event.shortAddr == s)
                      || (c.ReportCall? && c.shortAddr == s)))
    ensures forall x | x in After(d, c, policies) :: ValidShort(x)
  {
    if c.HandleCall? {
      var other := c.event.shortAddr;
      LeavingFreesEntry(if other in d then d[other] else FreshEntry(other), c.event);
    }
    hide OnEvent, OnReport, OnFailure, OnTimer, Wrap32;
  }

  /** One call on one key: nothing, or what it means for that device alone. */
  lemma CallOnKey(d: Entries, c: Call, policies: Policies, s: u16)
    requires forall x | x in d :: ValidShort(x)
    requires s in After(d, c, policies)
    ensures var e := if s in d then d[s] else FreshEntry(s);
            After(d, c, policies)[s]
            == match c
               case HandleCall(_, event) =>
                 if event.shortAddr == s && OnEvent(e, event).0.Some? then OnEvent(e, event).0.value else e
               case FailureCall(at, other, target, reason) =>
                 if other == s && target != NoTarget && reason != NoFailure then OnFailure(e, target, reason, Wrap32(at)).0
                 else e
               case TickCall(at) => OnTimer(e, Wrap32(at))
               case ReportCall(at, other, occupied) =>
                 if other == s then e.(occupancy := OnReport(e.occupancy, occupied, Wrap32(at), policies(s)).0) else e
    ensures c.HandleCall? && c.event.shortAddr == s ==> c.event.kind != DeviceLeft
    ensures s !in d ==> (c.HandleCall? && c.event.shortAddr == s) || (c.ReportCall? && c.shortAddr == s)
  {
    hide OnReport, OnFailure, OnTimer, Wrap32;
  }

  /** In every run of calls, the entry of each device is what the calls about it alone make of a fresh entry: what
      happens to other devices, and in which order, never shows. The happenings are such as the laws of retries ask for. */
  lemma {:induction false} DevicesAreIndependent(calls: seq<Call>, policies: Policies, s: u16)
    ensures forall x | x in EntriesAfter(calls, policies) :: ValidShort(x)
    ensures s in EntriesAfter(calls, policies) ==>
              EntriesAfter(calls, policies)[s]
              == Alone(s, Happenings(calls, policies, s), Reports(calls, policies, s), policies(s))
    ensures R.Proper(Happenings(calls, policies, s))
    ensures s !in EntriesAfter(calls, policies) ==> Happenings(calls, policies, s) == [] && Reports(calls, policies, s) == []
  {
    hide After, Alone, OnEvent, OnReport, OnFailure, OnTimer, Wrap32;
    if calls != [] {
      var front, c := calls[..|calls| - 1], calls[|calls| - 1];
      var d := EntriesAfter(front, policies);
      DevicesAreIndependent(front, policies, s);
      EntryTakenIff(d, c, policies, s);
      if s in After(d, c, policies) {
        CallOnKey(d, c, policies, s);
        FreshAlone(s, policies(s));
        var run, reports := Happenings(front, policies, s), Reports(front, policies, s);
        CallAlone(s, run, reports, policies(s), c);
      }
    }
  }

  lemma FreshAlone(s: u16, policy: Policy)
    ensures Alone(s, [], [], policy) == FreshEntry(s)
  {
  }

  lemma CallAlone(s: u16, run: seq<R.Happening>, reports: seq<O.Report>, policy: Policy, c: Call)
    requires c.HandleCall? && c.event.shortAddr == s ==> c.event.kind != DeviceLeft
    requires R.Proper(run)
    ensures R.Proper(run + HappeningFor(c, s))
    ensures var e := Alone(s, run, reports, policy);
            Alone(s, run + HappeningFor(c, s), reports + ReportFor(c, s), policy)
            == match c
               case HandleCall(_, event) =>
                 if event.shortAddr == s && OnEvent(e, event).0.Some? then OnEvent(e, event).0.value else e
               case FailureCall(at, other, target, reason) =>
                 if other == s && target != NoTarget && reason != NoFailure then OnFailure(e, target, reason, Wrap32(at)).0
                 else e
               case TickCall(at) => OnTimer(e, Wrap32(at))
               case ReportCall(at, other, occupied) =>
                 if other == s then e.(occupancy := OnReport(e.occupancy, occupied, Wrap32(at), policy).0) else e
  {
    hide Alone, OnEvent, OnReport, OnFailure, OnTimer, Wrap32;
    var happened, reported := HappeningFor(c, s), ReportFor(c, s);
    assert run + [] == run && reports + [] == reports;
    if happened != [] {
      HappeningAlone(s, run, reports, policy, happened[0]);
    }
    if reported != [] {
      ReportAlone(s, run, reports, policy, reported[0]);
    }
  }

  // ---------------------------------------------------------------------------------------------
  // What the manager answers
  // ---------------------------------------------------------------------------------------------

  /** A report is answered with an event exactly when the device's own filter emits it, and with the value reported; the
      reports of other devices play no part. A device the manager has no room for gets no answer. */
  lemma AnswersAreTheFilters(calls: seq<Call>, policies: Policies, s: u16, atMs: nat, occupied: bool)
    ensures var d := EntriesAfter(calls, policies);
            var all := Reports(calls, policies, s) + [O.Report(atMs, occupied)];
            var answer := Normalized(d, s, occupied, Wrap32(atMs), policies(s)).1;
            && (answer.Some? <==>
                  ValidShort(s) && (s in d || |d| < MAX_DEVICES) && O.Emits(all, policies(s), |all| - 1))
            && (answer.Some? ==> answer.value.shortAddr == s && (answer.value.telemetryI32 == 1 <==> occupied))
  {
    var reports := Reports(calls, policies, s);
    DevicesAreIndependent(calls, policies, s);
    TrackOfPrefix(reports, O.Report(atMs, occupied), policies(s), |reports|);
    hide OnReport, OnFailure, OnTimer, Wrap32, EntriesAfter, Reports, Happenings;
  }

  /** A tick asks to repeat an operation exactly when some device's own retry of it is due. */
  lemma TicksFireForDevices(calls: seq<Call>, policies: Policies, atMs: nat, target: RetryTarget)
    ensures FiresFor(EntriesAfter(calls, policies), Wrap32(atMs), target) <==>
            exists s :: s in EntriesAfter(calls, policies) && FiresAlone(Happenings(calls, policies, s), s, atMs, target)
  {
    var d := EntriesAfter(calls, policies);
    forall s | s in d
      ensures FiresAlone(Happenings(calls, policies, s), s, atMs, target)
              <==> Fires(d[s], Wrap32(atMs)) && d[s].retry.target == target
    {
      var run := Happenings(calls, policies, s);
      DevicesAreIndependent(calls, policies, s);
      EntryOfPrefix(FreshEntry(s), run, R.Tick(atMs), |run|);
    }
    hide Fires, FiresAlone;
  }

  /** A tick right after `run` retries `target`. */
  predicate FiresAlone(run: seq<R.Happening>, s: u16, atMs: nat, target: RetryTarget) {
    && R.RetriesAt(FreshEntry(s), run + [R.Tick(atMs)], |run|)
    && R.EntryAt(FreshEntry(s), run, |run|).retry.target == target
  }

  /** In every run of calls: an event asks for the step its device's stage calls for, once per stay in the stage, and a
      failure gives a device up exactly when it is not worth retrying or three attempts were made. Devices without an
      entry ask for nothing, joins apart. */
  lemma CallsAskForSteps(calls: seq<Call>, policies: Policies, event: CoreEvent, target: RetryTarget,
                         reason: FailureReason, nowMs: u32)
    ensures var d, s := EntriesAfter(calls, policies), event.shortAddr;
            var known := s in d || (event.kind == DeviceJoined && ValidShort(s) && |d| < 64);
            var stage := if s in d then d[s].stage else StageUnknown;
            var asked, told := Handled(d, event).1, Failed(d, s, target, reason, nowMs).1;
            && (asked.interview <==> known && event.kind == DeviceJoined && stage != PendingInterview)
            && (asked.bind <==> known && event.kind == DeviceInterviewCompleted && stage != PendingBind)
            && (asked.configure <==> known && event.kind == DeviceBindingReady && stage != PendingConfigureReporting)
            && (asked.degraded <==> known && event.kind == DeviceStale && stage != Degraded)
            && (told.degraded <==> s in d && target != NoTarget && reason != NoFailure
                                   && (reason !in {Timeout, NetworkError} || d[s].retry.attempt >= 3))
            && !told.interview && !told.bind && !told.configure
  {
    DevicesAreIndependent(calls, policies, event.shortAddr);
    hide EntriesAfter, Alone, Happenings, Reports, Wrap32, Backoff;
  }

  ghost predicate CallsInOrder(calls: seq<Call>) {
    forall i, j | 0 <= i <= j < |calls| :: calls[i].atMs <= calls[j].atMs
  }

  /** Calls in the order of time give every device a history in the order of time, as the laws of retries and of the
      occupancy filter ask for. */
  lemma {:induction false} HistoriesInOrder(calls: seq<Call>, policies: Policies, s: u16)
    requires CallsInOrder(calls)
    ensures R.InOrder(Happenings(calls, policies, s)) && O.InOrder(Reports(calls, policies, s))
    ensures forall h | h in Happenings(calls, policies, s) :: calls != [] && h.atMs <= calls[|calls| - 1].atMs
    ensures forall r | r in Reports(calls, policies, s) :: calls != [] && r.atMs <= calls[|calls| - 1].atMs
  {
    hide EntriesAfter;
    if calls != [] {
      var front, c := calls[..|calls| - 1], calls[|calls| - 1];
      HistoriesInOrder(front, policies, s);
      assert front != [] ==> front[|front| - 1].atMs <= c.atMs;
    }
  }

  /** The tick at `k` can repeat what failed at `i`: nothing has cleared it since, and the backoff is over. */
  ghost predicate RetryOf(run: seq<R.Happening>, i: nat, k: nat) {
    && i < k < |run| && run[i].Failure? && Retryable(run[i].reason) && run[k].atMs - run[i].atMs >= BASE_BACKOFF_MS
    && forall n | i < n < k :: !R.Clears(run[n])
  }

  /** So in every run of calls no device is retried more than three times between the events that clear it, and every
      retry waits for the backoff of a failure reported since. */
  lemma ManagerRetriesBehave(calls: seq<Call>, policies: Policies, s: u16, k: nat)
    requires CallsInOrder(calls) && k < |Happenings(calls, policies, s)|
    ensures var run := Happenings(calls, policies, s);
            && R.Retries(FreshEntry(s), run, |run|) <= MAX_RETRY_ATTEMPTS
            && (R.RetriesAt(FreshEntry(s), run, k) ==> exists i :: 0 <= i < k && RetryOf(run, i, k))
  {
    var run := Happenings(calls, policies, s);
    DevicesAreIndependent(calls, policies, s);
    HistoriesInOrder(calls, policies, s);
    R.RetriesAreBounded(FreshEntry(s), run, |run|);
    if R.RetriesAt(FreshEntry(s), run, k) {
      var i := R.RetryWaitsForBackoff(FreshEntry(s), run, k);
      BackoffGrows(1, R.EntryAt(FreshEntry(s), run, k).retry.attempt);
      assert RetryOf(run, i, k);
    }
  }
}
