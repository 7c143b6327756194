/** What the reducer remembers: every field of a device record, read off the events addressed to the device since it
    joined, and what the effects of an event ask for. */
module ReducerHistory {
  import opened Common
  import opened CoreTypes
  import opened Reducer
  import opened DeviceMap
  import opened ReducerInvariant
  import opened ReducerRefinement

  // ---------------------------------------------------------------------------------------------
  // Histories
  // ---------------------------------------------------------------------------------------------

  const EMPTY_GATEWAY: Gateway := Gateway(0, false, 0, map[])

  function RegistryAfter(events: seq<CoreEvent>): map<DeviceKey, DeviceRecord> {
    StepAll(EMPTY_GATEWAY, events).0.registry
  }

  /** The events addressed to `k` since it joined, the join included; empty while it is not registered. */
  function History(events: seq<CoreEvent>, k: DeviceKey): seq<CoreEvent> {
    if events == [] || k !in RegistryAfter(events) then []
    else
      var front, e := events[..|events| - 1], events[|events| - 1];
      if k !in RegistryAfter(front) then [e]
      else if EventKey(e) == Some(k) then History(front, k) + [e]
      else History(front, k)
  }

  /** The last event of the list of which `p` holds. */
  function Latest(h: seq<CoreEvent>, p: CoreEvent -> bool): Option<CoreEvent> {
    if h == [] then None
    else if p(h[|h| - 1]) then Some(h[|h| - 1])
    else Latest(h[..|h| - 1], p)
  }

  lemma LatestSnoc(h: seq<CoreEvent>, e: CoreEvent, p: CoreEvent -> bool)
    ensures Latest(h + [e], p) == if p(e) then Some(e) else Latest(h, p)
  {
    assert (h + [e])[..|h|] == h;
  }

  predicate IsJoin(e: CoreEvent) {
    e.kind == DeviceJoined
  }

  predicate IsOnOff(e: CoreEvent) {
    e.kind == AttributeReported && e.clusterId == 6 && e.attributeId == 0
  }

  predicate IsTelemetry(e: CoreEvent) {
    e.kind == DeviceTelemetryUpdated
  }

  predicate IsReport(e: CoreEvent, kind: TelemetryKind) {
    IsTelemetry(e) && e.telemetryKind == kind
  }

  predicate IsValidReport(e: CoreEvent, kind: TelemetryKind) {
    IsReport(e, kind) && e.telemetryValid
  }

  /** The events that say where a device is on its way to reporting. */
  predicate MovesStage(e: CoreEvent) {
    e.kind in {DeviceInterviewCompleted, DeviceBindingReady, DeviceReportingConfigured, DeviceTelemetryUpdated, DeviceStale}
  }

  // ---------------------------------------------------------------------------------------------
  // What a record says about its history
  // ---------------------------------------------------------------------------------------------

  /** `value` is `x` if that is within the range, else the nearer end of it. */
  predicate Nearest(value: int, x: int, lo: int, hi: int) {
    lo <= value <= hi && (lo <= x <= hi ==> value == x) && (x < lo ==> value == lo) && (x > hi ==> value == hi)
  }

  /** Temperatures keep the low sixteen bits, the others are clamped to what their field holds. */
  predicate InRangeOf(kind: TelemetryKind, value: int, x: int) {
    match kind
    case TemperatureCentiC => -0x8000 <= value <= 0x7FFF && (value - x) % 0x1_0000 == 0
    case BatteryPercent => Nearest(value, x, 0, 100)
    case BatteryVoltageMilliV => Nearest(value, x, 0, 65535)
    case Lqi => Nearest(value, x, 0, 255)
    case RssiDbm => Nearest(value, x, -128, 127)
    case _ => true
  }

  /** A reading is present exactly if the last report of its kind was valid; its value is that of the last valid one. */
  predicate ReadingFits(s: Sensor, h: seq<CoreEvent>, kind: TelemetryKind) {
    var report, valid := Latest(h, e => IsReport(e, kind)), Latest(h, e => IsValidReport(e, kind));
    && (s.present <==> report.Some? && report.value.telemetryValid)
    && if valid.Some? then InRangeOf(kind, s.value, valid.value.telemetryI32) else s.value == 0
  }

  predicate OccupancyFits(o: OccupancyState, h: seq<CoreEvent>) {
    var report := Latest(h, e => IsReport(e, Occupancy));
    if report.None? || !report.value.telemetryValid then o == OccUnknown
    else o == if report.value.telemetryI32 == 0 then NotOccupied else Occupied
  }

  /** Bits 0, 1 and 2 of the zone status; tamper and low battery outlive an invalid report. */
  predicate ContactFits(c: Contact, h: seq<CoreEvent>) {
    var report := Latest(h, e => IsReport(e, ContactIasZoneStatus));
    var valid := Latest(h, e => IsValidReport(e, ContactIasZoneStatus));
    && (if report.None? || !report.value.telemetryValid then c.state == ContactUnknown
        else c.state == if report.value.telemetryI32 % 2 == 1 then Open else Closed)
    && (c.tamper <==> valid.Some? && valid.value.telemetryI32 % 4 in {2, 3})
    && (c.batteryLow <==> valid.Some? && valid.value.telemetryI32 % 8 in {4, 5, 6, 7})
  }

  predicate TelemetryFits(t: Telemetry, h: seq<CoreEvent>) {
    && ReadingFits(t.temperatureCentiC, h, TemperatureCentiC)
    && OccupancyFits(t.occupancy, h)
    && ContactFits(t.contact, h)
    && ReadingFits(t.batteryPercent, h, BatteryPercent)
    && ReadingFits(t.batteryVoltageMv, h, BatteryVoltageMilliV)
    && ReadingFits(t.lqi, h, Lqi)
    && ReadingFits(t.rssiDbm, h, RssiDbm)
  }

  predicate StageFits(r: DeviceRecord, h: seq<CoreEvent>) {
    var moved := Latest(h, MovesStage);
    && (r.stale <==> moved.Some? && moved.value.kind == DeviceStale)
    && (moved.None? ==> r.reportingState == Unknown)
    && (moved.Some? ==>
          && (r.reportingState == InterviewCompleted <==> moved.value.kind == DeviceInterviewCompleted)
          && (r.reportingState == BindingReady <==> moved.value.kind == DeviceBindingReady)
          && (r.reportingState == ReportingConfigured <==> moved.value.kind == DeviceReportingConfigured)
          && (r.reportingState == ReportingActive <==> moved.value.kind == DeviceTelemetryUpdated)
          && (r.reportingState == Stale <==> moved.value.kind == DeviceStale))
  }

  predicate AddressFits(r: DeviceRecord, h: seq<CoreEvent>) {
    var join := Latest(h, IsJoin);
    h != [] && r.deviceId == h[0].deviceId && join.Some? && r.shortAddr == join.value.shortAddr
  }

  /** Every field of the record, from the history alone. */
  predicate RecordFits(r: DeviceRecord, h: seq<CoreEvent>) {
    var onOff, telemetry := Latest(h, IsOnOff), Latest(h, IsTelemetry);
    && AddressFits(r, h) && r.online
    && r.powerOn == (onOff.Some? && onOff.value.valueBool)
    && r.lastReportAtMs == (if telemetry.Some? then telemetry.value.valueU32 else 0)
    && StageFits(r, h)
    && TelemetryFits(r.telemetry, h)
  }

  // ---------------------------------------------------------------------------------------------
  // Preservation
  // ---------------------------------------------------------------------------------------------

  lemma LatestOfOne(e: CoreEvent, p: CoreEvent -> bool)
    ensures Latest([e], p) == if p(e) then Some(e) else None
  {
    LatestSnoc([], e, p);
    assert [] + [e] == [e];
  }

  lemma NothingRead(e: CoreEvent, kind: TelemetryKind)
    requires e.kind == DeviceJoined
    ensures ReadingFits(NO_READING, [e], kind)
  {
    LatestOfOne(e, x => IsReport(x, kind));
    LatestOfOne(e, x => IsValidReport(x, kind));
    hide Latest, InRangeOf;
  }

  lemma NothingKnown(e: CoreEvent)
    requires e.kind == DeviceJoined
    ensures OccupancyFits(OccUnknown, [e]) && ContactFits(Contact(ContactUnknown, false, false), [e])
  {
    LatestOfOne(e, x => IsReport(x, Occupancy));
    LatestOfOne(e, x => IsReport(x, ContactIasZoneStatus));
    LatestOfOne(e, x => IsValidReport(x, ContactIasZoneStatus));
    hide Latest;
  }

  lemma FreshFits(e: CoreEvent)
    requires e.kind == DeviceJoined
    ensures RecordFits(NewRecord(e), [e])
  {
    NothingKnown(e);
    NothingRead(e, TemperatureCentiC);
    NothingRead(e, BatteryPercent);
    NothingRead(e, BatteryVoltageMilliV);
    NothingRead(e, Lqi);
    NothingRead(e, RssiDbm);
    LatestOfOne(e, IsOnOff);
    LatestOfOne(e, IsTelemetry);
    LatestOfOne(e, MovesStage);
    LatestOfOne(e, IsJoin);
    hide Latest, ReadingFits, OccupancyFits, ContactFits;
  }

  lemma ToInt16IsCongruent(x: i32)
    ensures -0x8000 <= ToInt16(x) <= 0x7FFF && (ToInt16(x) - x) % 0x1_0000 == 0
  {
    var q := x / 0x1_0000;
    assert x == q * 0x1_0000 + x % 0x1_0000;
    assert ToInt16(x) - x == -q * 0x1_0000 || ToInt16(x) - x == (-q - 1) * 0x1_0000;
  }

  lemma ReportFits(s: Sensor, h: seq<CoreEvent>, e: CoreEvent, kind: TelemetryKind, value: int)
    requires ReadingFits(s, h, kind) && IsReport(e, kind) && InRangeOf(kind, value, e.telemetryI32)
    ensures ReadingFits(Report(s, e.telemetryValid, value), h + [e], kind)
  {
    LatestSnoc(h, e, x => IsReport(x, kind));
    LatestSnoc(h, e, x => IsValidReport(x, kind));
    hide Latest, InRangeOf;
  }

  lemma OtherReadingKept(s: Sensor, h: seq<CoreEvent>, e: CoreEvent, kind: TelemetryKind)
    requires ReadingFits(s, h, kind) && !IsReport(e, kind)
    ensures ReadingFits(s, h + [e], kind)
  {
    LatestSnoc(h, e, x => IsReport(x, kind));
    LatestSnoc(h, e, x => IsValidReport(x, kind));
    hide Latest, InRangeOf;
  }

  lemma OccupancyKept(o: OccupancyState, h: seq<CoreEvent>, e: CoreEvent)
    requires OccupancyFits(o, h)
    ensures OccupancyFits(if IsReport(e, Occupancy) then OccupancyReport(e.telemetryValid, e.telemetryI32) else o, h + [e])
  {
    LatestSnoc(h, e, x => IsReport(x, Occupancy));
    hide Latest;
  }

  lemma ContactKept(c: Contact, h: seq<CoreEvent>, e: CoreEvent)
    requires ContactFits(c, h)
    ensures ContactFits(if IsReport(e, ContactIasZoneStatus) then ContactReport(c, e.telemetryValid, e.telemetryI32) else c,
                        h + [e])
  {
    LatestSnoc(h, e, x => IsReport(x, ContactIasZoneStatus));
    LatestSnoc(h, e, x => IsValidReport(x, ContactIasZoneStatus));
    hide Latest;
    BitsByRemainder(e.telemetryI32);
  }

  lemma BitsByRemainder(x: i32)
    ensures Bit0(x) <==> x % 2 == 1
    ensures Bit1(x) <==> x % 4 in {2, 3}
    ensures Bit2(x) <==> x % 8 in {4, 5, 6, 7}
  {
  }

  lemma TelemetryKept(t: Telemetry, h: seq<CoreEvent>, e: CoreEvent)
    requires TelemetryFits(t, h)
    ensures TelemetryFits(if IsTelemetry(e) then WithReading(t, e.telemetryKind, e.telemetryValid, e.telemetryI32) else t,
                          h + [e])
  {
    hide ReadingFits, OccupancyFits, ContactFits, Report, OccupancyReport, ContactReport, ToInt16, Clamp;
    OccupancyKept(t.occupancy, h, e);
    ContactKept(t.contact, h, e);
    SensorKept(t.temperatureCentiC, h, e, TemperatureCentiC, ToInt16(e.telemetryI32));
    SensorKept(t.batteryPercent, h, e, BatteryPercent, Clamp(e.telemetryI32, 0, 100));
    SensorKept(t.batteryVoltageMv, h, e, BatteryVoltageMilliV, Clamp(e.telemetryI32, 0, 65535));
    SensorKept(t.lqi, h, e, Lqi, Clamp(e.telemetryI32, 0, 255));
    SensorKept(t.rssiDbm, h, e, RssiDbm, Clamp(e.telemetryI32, -128, 127));
  }

  lemma SensorKept(s: Sensor, h: seq<CoreEvent>, e: CoreEvent, kind: TelemetryKind, value: int)
    requires ReadingFits(s, h, kind)
    requires value == match kind
                      case TemperatureCentiC => ToInt16(e.telemetryI32)
                      case BatteryPercent => Clamp(e.telemetryI32, 0, 100)
                      case BatteryVoltageMilliV => Clamp(e.telemetryI32, 0, 65535)
                      case Lqi => Clamp(e.telemetryI32, 0, 255)
                      case RssiDbm => Clamp(e.telemetryI32, -128, 127)
                      case _ => value
    ensures ReadingFits(if IsReport(e, kind) then Report(s, e.telemetryValid, value) else s, h + [e], kind)
  {
    ToInt16IsCongruent(e.telemetryI32);
    if IsReport(e, kind) {
      ReportFits(s, h, e, kind, value);
    } else {
      OtherReadingKept(s, h, e, kind);
    }
  }

  lemma StageKept(r: DeviceRecord, after: DeviceRecord, h: seq<CoreEvent>, e: CoreEvent)
    requires StageFits(r, h)
    requires if e.kind == DeviceTelemetryUpdated then after.reportingState == ReportingActive && !after.stale
             else if IsPipeline(e.kind)
             then after.reportingState == PipelineState(e.kind) && after.stale == (e.kind == DeviceStale)
             else after.reportingState == r.reportingState && after.stale == r.stale
    ensures StageFits(after, h + [e])
  {
    LatestSnoc(h, e, MovesStage);
    hide Latest;
  }

  lemma AddressKept(r: DeviceRecord, after: DeviceRecord, h: seq<CoreEvent>, e: CoreEvent)
    requires AddressFits(r, h) && after.deviceId == r.deviceId
    requires after.shortAddr == if e.kind == DeviceJoined then e.shortAddr else r.shortAddr
    ensures AddressFits(after, h + [e])
  {
    LatestSnoc(h, e, IsJoin);
    hide Latest;
  }

  lemma UpdateFits(r: DeviceRecord, h: seq<CoreEvent>, e: CoreEvent)
    requires RecordFits(r, h) && e.kind != DeviceJoined
    ensures RecordFits(Updated(r, e), h + [e])
  {
    hide AddressFits, StageFits, TelemetryFits, WithReading, Latest;
    LatestSnoc(h, e, IsOnOff);
    LatestSnoc(h, e, IsTelemetry);
    AddressKept(r, Updated(r, e), h, e);
    StageKept(r, Updated(r, e), h, e);
    TelemetryKept(r.telemetry, h, e);
  }

  lemma RejoinFits(r: DeviceRecord, h: seq<CoreEvent>, e: CoreEvent)
    requires RecordFits(r, h) && e.kind == DeviceJoined
    ensures RecordFits(r.(shortAddr := e.shortAddr), h + [e])
  {
    hide AddressFits, StageFits, TelemetryFits, WithReading, Latest;
    var after := r.(shortAddr := e.shortAddr);
    LatestSnoc(h, e, IsOnOff);
    LatestSnoc(h, e, IsTelemetry);
    AddressKept(r, after, h, e);
    StageKept(r, after, h, e);
    TelemetryKept(r.telemetry, h, e);
  }

  /** One step of the specification on one key. */
  lemma StepOnKey(g: Gateway, e: CoreEvent, k: DeviceKey)
    ensures var after := Step(g, e).0.registry;
            && (k in after && k !in g.registry ==>
                  EventKey(e) == Some(k) && e.kind == DeviceJoined && after[k] == NewRecord(e))
            && (k in after && k in g.registry ==>
                  after[k] == if EventKey(e) != Some(k) then g.registry[k]
                              else if e.kind == DeviceJoined then g.registry[k].(shortAddr := e.shortAddr)
                              else Updated(g.registry[k], e))
  {
    hide NewRecord, FollowUp, Announce, CommandStatus, WithReading, PipelineState;
    if EventKey(e) == Some(k) && e.kind != DeviceJoined && k in g.registry {
      OthersLeaveRecord(g.registry[k], e);
    }
    hide Updated;
  }

  lemma OthersLeaveRecord(r: DeviceRecord, e: CoreEvent)
    ensures (e.kind == EvUnknown || e.kind == NetworkUp || e.kind == NetworkDown || IsCommandRequest(e.kind)
             || IsCommandResult(e.kind)) ==>
              Updated(r, e) == r
  {
  }

  /** Who is registered: a device is after an event if it joined with this event while there was room, or was before
      and has not left with it. */
  lemma RegisteredIff(g: Gateway, e: CoreEvent, k: DeviceKey)
    ensures k in Step(g, e).0.registry <==>
            || (k in g.registry && !(e.kind == DeviceLeft && EventKey(e) == Some(k)))
            || (k !in g.registry && e.kind == DeviceJoined && EventKey(e) == Some(k) && |g.registry| < MAX_DEVICES)
  {
    hide NewRecord, FollowUp, Announce, CommandStatus, Updated;
  }

  /** Every registered device's record says of each field what the events addressed to the device since it joined
      say, and nothing else. */
  lemma {:induction false} RecordsFitHistories(events: seq<CoreEvent>, k: DeviceKey)
    requires k in RegistryAfter(events)
    ensures RecordFits(RegistryAfter(events)[k], History(events, k))
  {
    hide RecordFits, Step, NewRecord, Updated;
    if events != [] {
      var front, e := events[..|events| - 1], events[|events| - 1];
      var g := StepAll(EMPTY_GATEWAY, front).0;
      assert RegistryAfter(events) == Step(g, e).0.registry;
      StepOnKey(g, e, k);
      if k !in g.registry {
        FreshFits(e);
      } else {
        RecordsFitHistories(front, k);
        if EventKey(e) == Some(k) {
          if e.kind == DeviceJoined {
            RejoinFits(g.registry[k], History(front, k), e);
          } else {
            UpdateFits(g.registry[k], History(front, k), e);
          }
        }
      }
    }
  }

  lemma EmptyAbstract()
    ensures Inv(EMPTY_STATE) && Abstract(EMPTY_STATE) == EMPTY_GATEWAY
  {
    EmptyStateInv();
    assert View(EMPTY_STATE.devices) == map[];
  }

  /** The same of the reducer itself: in every run from the empty state, each occupied slot holds what the events
      addressed to its device since it joined say. */
  lemma ReducerRemembers(events: seq<CoreEvent>, i: nat)
    requires i < MAX_DEVICES && InUse(ReduceAll(EMPTY_STATE, events).devices[i])
    ensures var r := ReduceAll(EMPTY_STATE, events).devices[i]; RecordFits(r, History(events, KeyOf(r)))
  {
    hide RecordFits, View, Reduce, StepAll;
    var s := ReduceAll(EMPTY_STATE, events);
    EmptyAbstract();
    LayoutIsInvisible(EMPTY_STATE, EMPTY_STATE, events);
    ViewOfSlot(s.devices, i);
    RecordsFitHistories(events, KeyOf(s.devices[i]));
  }

  // ---------------------------------------------------------------------------------------------
  // Network and command status
  // ---------------------------------------------------------------------------------------------

  predicate IsNetwork(e: CoreEvent) {
    e.kind == NetworkUp || e.kind == NetworkDown
  }

  predicate IsResult(e: CoreEvent) {
    e.kind in {CommandResultSuccess, CommandResultTimeout, CommandResultFailed}
  }

  /** The gateway counts as connected if the last network event was an up; the command status is that of the last
      result: 1 for success, 2 for a timeout, 3 for a failure, 0 before any. */
  lemma {:induction false} StatusFitsHistory(events: seq<CoreEvent>)
    ensures var s := ReduceAll(EMPTY_STATE, events);
            var network, result := Latest(events, IsNetwork), Latest(events, IsResult);
            && (s.networkConnected <==> network.Some? && network.value.kind == NetworkUp)
            && (s.lastCommandStatus == 0 <==> result.None?)
            && (s.lastCommandStatus == 1 <==> result.Some? && result.value.kind == CommandResultSuccess)
            && (s.lastCommandStatus == 2 <==> result.Some? && result.value.kind == CommandResultTimeout)
            && (s.lastCommandStatus == 3 <==> result.Some? && result.value.kind == CommandResultFailed)
  {
    if events != [] {
      var front, e := events[..|events| - 1], events[|events| - 1];
      StatusFitsHistory(front);
      LatestSnoc(front, e, IsNetwork);
      LatestSnoc(front, e, IsResult);
      assert front + [e] == events;
      StatusStep(ReduceAll(EMPTY_STATE, front), e);
      hide Reduce, Latest;
    }
  }

  lemma StatusStep(s: CoreState, e: CoreEvent)
    requires s.WellFormed()
    ensures var n := Reduce(s, e).0;
            && n.networkConnected == (if IsNetwork(e) then e.kind == NetworkUp else s.networkConnected)
            && n.lastCommandStatus == (if e.kind == CommandResultSuccess then 1
                                       else if e.kind == CommandResultTimeout then 2
                                       else if e.kind == CommandResultFailed then 3
                                       else s.lastCommandStatus)
  {
    hide FirstMatch, FirstFree, Updated, FollowUp, PersistAndTelemetry;
  }

  // ---------------------------------------------------------------------------------------------
  // Effects
  // ---------------------------------------------------------------------------------------------

  /** Requests and results pass through as one effect each, with the event's own id, address and value. */
  lemma CommandEffects(s: CoreState, e: CoreEvent)
    requires s.WellFormed()
    ensures e.kind == CommandSetDevicePowerRequested ==>
              Reduce(s, e).1 == [CoreEffect(SendZigbeeOnOff, e.correlationId, e.shortAddr, 0, e.valueBool)]
    ensures e.kind == CommandRefreshNetworkRequested ==>
              Reduce(s, e).1 == [CoreEffect(RefreshNetwork, e.correlationId, UNKNOWN_SHORT_ADDR, 0, false)]
    ensures IsResult(e) ==>
              Reduce(s, e).1 == [CoreEffect(EmitCommandResult, e.correlationId, e.shortAddr,
                                            Reduce(s, e).0.lastCommandStatus, e.kind == CommandResultSuccess)]
  {
  }

  /** Whenever the state is persisted, the number of devices and the connectivity are announced with it. */
  lemma AnnouncementsAgree(s: CoreState, e: CoreEvent)
    requires s.WellFormed()
    ensures forall i | 0 <= i < |Reduce(s, e).1| && Reduce(s, e).1[i].kind == PublishTelemetry ::
              && Reduce(s, e).1[i].argU32 == Reduce(s, e).0.deviceCount
              && Reduce(s, e).1[i].argBool == Reduce(s, e).0.networkConnected
              && i == 1 && Reduce(s, e).1[0].kind == PersistState
    ensures |Reduce(s, e).1| > 0 && Reduce(s, e).1[0].kind == PersistState ==>
              |Reduce(s, e).1| > 1 && Reduce(s, e).1[1].kind == PublishTelemetry
  {
    hide FirstMatch, FirstFree, Updated, Joined;
  }

  /** The step of the onboarding pipeline that a kind of event calls for. */
  predicate CallsFor(event: EventType, effect: EffectType) {
    || (event == DeviceJoined && effect == ZigbeeInterview)
    || (event == DeviceInterviewCompleted && effect == ZigbeeBind)
    || (event == DeviceBindingReady && effect == ZigbeeConfigureReporting)
    || (event == DeviceReportingConfigured && effect == ZigbeeReadAttributes)
  }

  predicate Onboarding(effect: EffectType) {
    effect in {ZigbeeInterview, ZigbeeBind, ZigbeeConfigureReporting, ZigbeeReadAttributes}
  }

  predicate Asks(effects: seq<CoreEffect>, kind: EffectType, addr: u16) {
    exists i :: 0 <= i < |effects| && effects[i].kind == kind && effects[i].shortAddr == addr
  }

  /** Onboarding advances one step per event, at the event's own address: whatever asks for a step was called for by
      this event, and every pipeline event that changes its record, and every new device, gets its step. */
  lemma OnboardingAdvances(s: CoreState, e: CoreEvent)
    requires Inv(s)
    ensures forall i | 0 <= i < |Reduce(s, e).1| && Onboarding(Reduce(s, e).1[i].kind) ::
              CallsFor(e.kind, Reduce(s, e).1[i].kind) && Reduce(s, e).1[i].shortAddr == e.shortAddr
    ensures forall kind | CallsFor(e.kind, kind) && Reduce(s, e).0.devices != s.devices
                          && (e.kind == DeviceJoined ==> Reduce(s, e).0.deviceCount != s.deviceCount) ::
              Asks(Reduce(s, e).1, kind, e.shortAddr)
  {
    hide FirstMatch, FirstFree, Updated, Joined, SlotsInUse, OnlineSlots, View;
    var effects := Reduce(s, e).1;
    if effects != [] {
      assert effects[|effects| - 1] in effects;
      forall kind | CallsFor(e.kind, kind) && Reduce(s, e).0.devices != s.devices
                    && (e.kind == DeviceJoined ==> Reduce(s, e).0.deviceCount != s.deviceCount)
        ensures Asks(effects, kind, e.shortAddr)
      {
        assert effects[|effects| - 1].kind == kind && effects[|effects| - 1].shortAddr == e.shortAddr;
      }
    }
  }
}
