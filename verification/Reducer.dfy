/** The reducer: one core event applied to the device array, written the way the firmware does it and
    proved equal to a declarative update of one record. */
module Reducer {
  import opened Common
  import opened CoreTypes

  /** A slot is in use when it holds a resolved identity or a legacy locator. */
  predicate InUse(r: DeviceRecord) {
    ValidId(r.deviceId) || r.shortAddr != UNKNOWN_SHORT_ADDR
  }

  /** Whether an event addressed to (`id`, `addr`) is about record `r`. A valid identity is the only key
      consulted; without one, only records that own no identity can match. */
  predicate Matches(r: DeviceRecord, id: DeviceId, addr: u16) {
    if ValidId(id) then r.deviceId == id
    else addr != UNKNOWN_SHORT_ADDR && !ValidId(r.deviceId) && r.shortAddr == addr
  }

  /** The first slot from `i` on that matches, or -1. */
  function FirstMatch(d: seq<DeviceRecord>, id: DeviceId, addr: u16, i: nat := 0): (r: int)
    requires i <= |d|
    ensures r == -1 || (i <= r < |d| && Matches(d[r], id, addr))
    ensures forall j | i <= j < (if r == -1 then |d| else r) :: !Matches(d[j], id, addr)
    decreases |d| - i
  {
    if i == |d| then -1
    else if Matches(d[i], id, addr) then i
    else FirstMatch(d, id, addr, i + 1)
  }

  /** The first free slot from `i` on, or -1. */
  function FirstFree(d: seq<DeviceRecord>, i: nat := 0): (r: int)
    requires i <= |d|
    ensures r == -1 || (i <= r < |d| && !InUse(d[r]))
    ensures forall j | i <= j < (if r == -1 then |d| else r) :: InUse(d[j])
    decreases |d| - i
  {
    if i == |d| then -1
    else if !InUse(d[i]) then i
    else FirstFree(d, i + 1)
  }

  // ---------------------------------------------------------------------------------------------
  // The declarative reducer
  // ---------------------------------------------------------------------------------------------

  const ON_OFF_CLUSTER: u16 := 0x0006
  const ON_OFF_ATTRIBUTE: u16 := 0x0000

  /** A valid report replaces the reading; an invalid one only marks it absent. */
  function Report(s: Sensor, valid: bool, value: int): Sensor {
    if valid then Sensor(value, true) else s.(present := false)
  }

  function ContactReport(c: Contact, valid: bool, mask: i32): Contact {
    if valid then Contact(if Bit0(mask) then Open else Closed, Bit1(mask), Bit2(mask))
    else c.(state := ContactUnknown)
  }

  function OccupancyReport(valid: bool, value: i32): OccupancyState {
    if !valid then OccUnknown else if value != 0 then Occupied else NotOccupied
  }

  function WithReading(t: Telemetry, kind: TelemetryKind, valid: bool, x: i32): Telemetry {
    match kind
    case NoTelemetry => t
    case TemperatureCentiC => t.(temperatureCentiC := Report(t.temperatureCentiC, valid, ToInt16(x)))
    case Occupancy => t.(occupancy := OccupancyReport(valid, x))
    case ContactIasZoneStatus => t.(contact := ContactReport(t.contact, valid, x))
    case BatteryPercent => t.(batteryPercent := Report(t.batteryPercent, valid, Clamp(x, 0, 100)))
    case BatteryVoltageMilliV => t.(batteryVoltageMv := Report(t.batteryVoltageMv, valid, Clamp(x, 0, 65535)))
    case Lqi => t.(lqi := Report(t.lqi, valid, Clamp(x, 0, 255)))
    case RssiDbm => t.(rssiDbm := Report(t.rssiDbm, valid, Clamp(x, -128, 127)))
  }

  /** The events that only move a device along (or off) the onboarding pipeline. */
  predicate IsPipeline(kind: EventType) {
    kind == DeviceInterviewCompleted || kind == DeviceBindingReady || kind == DeviceReportingConfigured
    || kind == DeviceStale
  }

  function PipelineState(kind: EventType): ReportingState
    requires IsPipeline(kind)
  {
    match kind
    case DeviceInterviewCompleted => InterviewCompleted
    case DeviceBindingReady => BindingReady
    case DeviceReportingConfigured => ReportingConfigured
    case DeviceStale => Stale
  }

  /** What an in-place event makes of the record it addresses. */
  function Updated(r: DeviceRecord, e: CoreEvent): DeviceRecord {
    match e.kind
    case AttributeReported =>
      if e.clusterId == ON_OFF_CLUSTER && e.attributeId == ON_OFF_ATTRIBUTE
      then r.(powerOn := e.valueBool, online := true) else r
    case DeviceTelemetryUpdated =>
      r.(reportingState := ReportingActive, stale := false, lastReportAtMs := e.valueU32,
         telemetry := WithReading(r.telemetry, e.telemetryKind, e.telemetryValid, e.telemetryI32))
    case _ =>
      if IsPipeline(e.kind) then r.(reportingState := PipelineState(e.kind), stale := e.kind == DeviceStale) else r
  }

  /** The record a first join creates in a free slot `r`. */
  function Joined(r: DeviceRecord, e: CoreEvent): DeviceRecord {
    r.(deviceId := e.deviceId, shortAddr := e.shortAddr, online := true, powerOn := false)
  }

  function SimpleEffect(kind: EffectType, addr: u16): CoreEffect {
    CoreEffect(kind, NO_CORRELATION_ID, addr, 0, false)
  }

  /** The two effects every change of devices or connectivity emits; `revision` is the one before the change. */
  function PersistAndTelemetry(revision: nat, deviceCount: u16, connected: bool): seq<CoreEffect> {
    [CoreEffect(PersistState, NO_CORRELATION_ID, UNKNOWN_SHORT_ADDR, revision + 1, connected),
     CoreEffect(PublishTelemetry, NO_CORRELATION_ID, UNKNOWN_SHORT_ADDR, deviceCount, connected)]
  }

  /** The next step of the onboarding pipeline after an in-place event. */
  function FollowUp(e: CoreEvent): seq<CoreEffect> {
    match e.kind
    case DeviceInterviewCompleted => [SimpleEffect(ZigbeeBind, e.shortAddr)]
    case DeviceBindingReady => [SimpleEffect(ZigbeeConfigureReporting, e.shortAddr)]
    case DeviceReportingConfigured => [SimpleEffect(ZigbeeReadAttributes, e.shortAddr)]
    case _ => []
  }

  function IncCount(c: u16): u16 { (c + 1) % TWO_TO_THE_16 }

  function CommandStatus(kind: EventType): u8 {
    match kind
    case CommandResultSuccess => 1
    case CommandResultTimeout => 2
    case _ => 3
  }

  predicate IsCommandResult(kind: EventType) {
    kind == CommandResultSuccess || kind == CommandResultTimeout || kind == CommandResultFailed
  }

  predicate IsCommandRequest(kind: EventType) {
    kind == CommandSetDevicePowerRequested || kind == CommandRefreshNetworkRequested
  }

  function ReduceJoin(s: CoreState, e: CoreEvent): (CoreState, seq<CoreEffect>)
    requires s.WellFormed()
  {
    if !ValidId(e.deviceId) && e.shortAddr == UNKNOWN_SHORT_ADDR then (s, [])
    else
      var i := FirstMatch(s.devices, e.deviceId, e.shortAddr);
      if i < 0 then
        var f := FirstFree(s.devices);
        if f < 0 then (s, [])
        else
          var n := s.(devices := s.devices[f := Joined(s.devices[f], e)], deviceCount := IncCount(s.deviceCount),
                      revision := s.revision + 1);
          (n, PersistAndTelemetry(s.revision, n.deviceCount, n.networkConnected)
              + [SimpleEffect(ZigbeeInterview, e.shortAddr)])
      else if !s.devices[i].online then
        var n := s.(devices := s.devices[i := s.devices[i].(shortAddr := e.shortAddr, online := true)],
                    deviceCount := IncCount(s.deviceCount), revision := s.revision + 1);
        (n, PersistAndTelemetry(s.revision, n.deviceCount, n.networkConnected)
            + [SimpleEffect(ZigbeeInterview, e.shortAddr)])
      else if s.devices[i].shortAddr != e.shortAddr then
        var n := s.(devices := s.devices[i := s.devices[i].(shortAddr := e.shortAddr)], revision := s.revision + 1);
        (n, PersistAndTelemetry(s.revision, n.deviceCount, n.networkConnected))
      else (s, [])
  }

  function ReduceLeave(s: CoreState, e: CoreEvent): (CoreState, seq<CoreEffect>)
    requires s.WellFormed()
  {
    var i := FirstMatch(s.devices, e.deviceId, e.shortAddr);
    if i < 0 then (s, [])
    else
      var count: u16 := if s.devices[i].online && s.deviceCount > 0 then s.deviceCount - 1 else s.deviceCount;
      var n := s.(devices := s.devices[i := DEFAULT_RECORD], deviceCount := count, revision := s.revision + 1);
      (n, PersistAndTelemetry(s.revision, n.deviceCount, n.networkConnected))
  }

  function ReduceInPlace(s: CoreState, e: CoreEvent): (CoreState, seq<CoreEffect>)
    requires s.WellFormed()
  {
    var i := FirstMatch(s.devices, e.deviceId, e.shortAddr);
    if i < 0 || Updated(s.devices[i], e) == s.devices[i] then (s, [])
    else
      (s.(devices := s.devices[i := Updated(s.devices[i], e)], revision := s.revision + 1),
       PersistAndTelemetry(s.revision, s.deviceCount, s.networkConnected) + FollowUp(e))
  }

  function ReduceNetwork(s: CoreState, up: bool): (CoreState, seq<CoreEffect>) {
    if s.networkConnected == up then (s, [])
    else (s.(networkConnected := up, revision := s.revision + 1), PersistAndTelemetry(s.revision, s.deviceCount, up))
  }

  /** The reducer as a value: next state and effects. */
  function Reduce(s: CoreState, e: CoreEvent): (r: (CoreState, seq<CoreEffect>))
    requires s.WellFormed()
    ensures r.0.WellFormed()
  {
    match e.kind
    case EvUnknown => (s, [])
    case DeviceJoined => ReduceJoin(s, e)
    case DeviceLeft => ReduceLeave(s, e)
    case NetworkUp => ReduceNetwork(s, true)
    case NetworkDown => ReduceNetwork(s, false)
    case CommandSetDevicePowerRequested =>
      (s, [CoreEffect(SendZigbeeOnOff, e.correlationId, e.shortAddr, 0, e.valueBool)])
    case CommandRefreshNetworkRequested =>
      (s, [CoreEffect(RefreshNetwork, e.correlationId, UNKNOWN_SHORT_ADDR, 0, false)])
    case CommandResultSuccess => ReduceResult(s, e)
    case CommandResultTimeout => ReduceResult(s, e)
    case CommandResultFailed => ReduceResult(s, e)
    case _ => ReduceInPlace(s, e)
  }

  function ReduceResult(s: CoreState, e: CoreEvent): (CoreState, seq<CoreEffect>) {
    (s.(lastCommandStatus := CommandStatus(e.kind), revision := s.revision + 1),
     [CoreEffect(EmitCommandResult, e.correlationId, e.shortAddr, CommandStatus(e.kind),
                 e.kind == CommandResultSuccess)])
  }

  // ---------------------------------------------------------------------------------------------
  // The reducer as the firmware runs it: a copy of the state mutated in place, change flags kept by
  // hand, and a bounded effect list that silently refuses a fifth effect
  // ---------------------------------------------------------------------------------------------

  method FindDeviceIndex(d: seq<DeviceRecord>, id: DeviceId, addr: u16) returns (index: int)
    ensures index == FirstMatch(d, id, addr)
  {
    if ValidId(id) {
      var i := 0;
      while i < |d|
        invariant 0 <= i <= |d|
        invariant FirstMatch(d, id, addr) == FirstMatch(d, id, addr, i)
      {
        if d[i].deviceId == id {
          return i;
        }
        i := i + 1;
      }
      return -1;
    }
    if addr == UNKNOWN_SHORT_ADDR {
      return -1;
    }
    var i := 0;
    while i < |d|
      invariant 0 <= i <= |d|
      invariant FirstMatch(d, id, addr) == FirstMatch(d, id, addr, i)
    {
      if !ValidId(d[i].deviceId) && d[i].shortAddr == addr {
        return i;
      }
      i := i + 1;
    }
    return -1;
  }

  method FindFreeSlot(d: seq<DeviceRecord>) returns (index: int)
    ensures index == FirstFree(d)
  {
    var i := 0;
    while i < |d|
      invariant 0 <= i <= |d|
      invariant FirstFree(d) == FirstFree(d, i)
    {
      if !ValidId(d[i].deviceId) && d[i].shortAddr == UNKNOWN_SHORT_ADDR {
        return i;
      }
      i := i + 1;
    }
    return -1;
  }

  /** `CoreEffectList::push`: refuses when four effects are held; the reducer ignores the refusal. */
  function Push(effects: seq<CoreEffect>, e: CoreEffect): (r: seq<CoreEffect>)
    ensures effects == [] ==> r == [e]
  {
    if |effects| >= MAX_EFFECTS_PER_REDUCE then effects else effects + [e]
  }

  method PushPersistAndTelemetry(next: CoreState, effects: seq<CoreEffect>) returns (out: seq<CoreEffect>)
    requires effects == []
    ensures out == PersistAndTelemetry(next.revision, next.deviceCount, next.networkConnected)
  {
    out := Push(effects, CoreEffect(PersistState, NO_CORRELATION_ID, UNKNOWN_SHORT_ADDR, next.revision + 1,
                                    next.networkConnected));
    out := Push(out, CoreEffect(PublishTelemetry, NO_CORRELATION_ID, UNKNOWN_SHORT_ADDR, next.deviceCount,
                                next.networkConnected));
  }

  method ApplyOnOffAttribute(s: CoreState, e: CoreEvent) returns (next: CoreState, changed: bool)
    requires s.WellFormed() && e.kind == AttributeReported
    ensures var i := FirstMatch(s.devices, e.deviceId, e.shortAddr);
            next == if i < 0 then s else s.(devices := s.devices[i := Updated(s.devices[i], e)])
    ensures changed <==> next != s
  {
    next, changed := s, false;
    if e.clusterId != ON_OFF_CLUSTER || e.attributeId != ON_OFF_ATTRIBUTE {
      ghost var i := FirstMatch(s.devices, e.deviceId, e.shortAddr);
      assert i >= 0 ==> s.devices[i := s.devices[i]] == s.devices;
      return;
    }
    var index := FindDeviceIndex(s.devices, e.deviceId, e.shortAddr);
    if index < 0 {
      return;
    }
    var device := s.devices[index];
    if device.powerOn != e.valueBool || !device.online {
      device := device.(powerOn := e.valueBool);
      device := device.(online := true);
      changed := true;
    }
    next := next.(devices := next.devices[index := device]);
    assert device == next.devices[index];
    assert !changed ==> next.devices == s.devices;
  }

  method ApplyReportingState(s: CoreState, id: DeviceId, addr: u16, reportingState: ReportingState, stale: bool)
    returns (next: CoreState, changed: bool)
    requires s.WellFormed()
    ensures var i := FirstMatch(s.devices, id, addr);
            next == if i < 0 then s
                    else s.(devices := s.devices[i := s.devices[i].(reportingState := reportingState, stale := stale)])
    ensures changed <==> next != s
  {
    next, changed := s, false;
    var index := FindDeviceIndex(s.devices, id, addr);
    if index < 0 {
      return;
    }
    var device := s.devices[index];
    if device.reportingState != reportingState {
      device := device.(reportingState := reportingState);
      changed := true;
    }
    if device.stale != stale {
      device := device.(stale := stale);
      changed := true;
    }
    next := next.(devices := next.devices[index := device]);
    assert device == next.devices[index];
    assert !changed ==> next.devices == s.devices;
  }

  /** The change-detecting update shared by the five numeric telemetry branches. */
  method ApplyNumeric(s: Sensor, valid: bool, value: int) returns (sensor: Sensor, changed: bool)
    ensures sensor == Report(s, valid, value)
    ensures changed <==> sensor != s
  {
    sensor, changed := s, false;
    if valid {
      if !sensor.present || sensor.value != value {
        sensor := sensor.(value := value);
        sensor := sensor.(present := true);
        changed := true;
      }
    } else if sensor.present {
      sensor := sensor.(present := false);
      changed := true;
    }
  }

  method ApplyContact(c: Contact, valid: bool, mask: i32) returns (contact: Contact, changed: bool)
    ensures contact == ContactReport(c, valid, mask)
    ensures changed <==> contact != c
  {
    contact, changed := c, false;
    var nextContact, nextTamper, nextLow := ContactUnknown, c.tamper, c.batteryLow;
    if valid {
      nextContact := if Bit0(mask) then Open else Closed;
      nextTamper := Bit1(mask);
      nextLow := Bit2(mask);
    }
    if contact.state != nextContact {
      contact := contact.(state := nextContact);
      changed := true;
    }
    if contact.tamper != nextTamper {
      contact := contact.(tamper := nextTamper);
      changed := true;
    }
    if contact.batteryLow != nextLow {
      contact := contact.(batteryLow := nextLow);
      changed := true;
    }
  }

  /** The telemetry branch chain, with the change flag kept as the firmware keeps it. */
  method ApplyReading(t: Telemetry, kind: TelemetryKind, valid: bool, raw: i32)
    returns (next: Telemetry, changed: bool)
    ensures next == WithReading(t, kind, valid, raw)
    ensures changed <==> next != t
  {
    next, changed := t, false;
    var sensor;
    match kind {
      case TemperatureCentiC =>
        sensor, changed := ApplyNumeric(t.temperatureCentiC, valid, ToInt16(raw));
        next := t.(temperatureCentiC := sensor);
      case Occupancy =>
        var nextState := OccUnknown;
        if valid {
          nextState := if raw != 0 then Occupied else NotOccupied;
        }
        if t.occupancy != nextState {
          next := t.(occupancy := nextState);
          changed := true;
        }
      case ContactIasZoneStatus =>
        var contact;
        contact, changed := ApplyContact(t.contact, valid, raw);
        next := t.(contact := contact);
      case BatteryPercent =>
        var percent := if raw <= 0 then 0 else if raw >= 100 then 100 else raw;
        sensor, changed := ApplyNumeric(t.batteryPercent, valid, percent);
        next := t.(batteryPercent := sensor);
      case BatteryVoltageMilliV =>
        var millivolts := if raw <= 0 then 0 else if raw >= 65535 then 65535 else raw;
        sensor, changed := ApplyNumeric(t.batteryVoltageMv, valid, millivolts);
        next := t.(batteryVoltageMv := sensor);
      case Lqi =>
        var lqi := if raw <= 0 then 0 else if raw >= 255 then 255 else raw;
        sensor, changed := ApplyNumeric(t.lqi, valid, lqi);
        next := t.(lqi := sensor);
      case RssiDbm =>
        var rssi := if raw <= -128 then -128 else if raw >= 127 then 127 else raw;
        sensor, changed := ApplyNumeric(t.rssiDbm, valid, rssi);
        next := t.(rssiDbm := sensor);
      case NoTelemetry =>
    }
  }

  method ApplyTelemetryUpdate(s: CoreState, e: CoreEvent) returns (next: CoreState, changed: bool)
    requires s.WellFormed() && e.kind == DeviceTelemetryUpdated
    ensures var i := FirstMatch(s.devices, e.deviceId, e.shortAddr);
            next == if i < 0 then s else s.(devices := s.devices[i := Updated(s.devices[i], e)])
    ensures changed <==> next != s
  {
    next, changed := s, false;
    var index := FindDeviceIndex(s.devices, e.deviceId, e.shortAddr);
    if index < 0 {
      return;
    }
    var device := s.devices[index];
    if device.reportingState != ReportingActive {
      device := device.(reportingState := ReportingActive);
      changed := true;
    }
    if device.stale {
      device := device.(stale := false);
      changed := true;
    }
    if device.lastReportAtMs != e.valueU32 {
      device := device.(lastReportAtMs := e.valueU32);
      changed := true;
    }
    var telemetry, readingChanged :=
      ApplyReading(device.telemetry, e.telemetryKind, e.telemetryValid, e.telemetryI32);
    device := device.(telemetry := telemetry);
    changed := changed || readingChanged;
    next := next.(devices := next.devices[index := device]);
    assert device == next.devices[index];
    assert !changed ==> next.devices == s.devices;
  }

  /** Replacing a slot changes the state exactly when the record changes. */
  lemma InPlaceChangeIsVisible(s: CoreState, i: nat, r: DeviceRecord)
    requires i < |s.devices|
    ensures s.(devices := s.devices[i := r]) == s <==> r == s.devices[i]
  {
    assert s.devices[i := r][i] == r;
    if r == s.devices[i] {
      assert s.devices[i := r] == s.devices;
    }
  }

  /** What `core_reduce` does once a branch has left its state, effects and change flag: bump the revision. */
  function Finish(prev: CoreState, next: CoreState, stateChanged: bool): CoreState {
    if stateChanged then next.(revision := prev.revision + 1) else next
  }

  method HandleJoin(prev: CoreState, event: CoreEvent)
    returns (next: CoreState, effects: seq<CoreEffect>, stateChanged: bool)
    requires prev.WellFormed() && event.kind == DeviceJoined
    ensures (Finish(prev, next, stateChanged), effects) == Reduce(prev, event)
  {
    next, effects, stateChanged := prev, [], false;
    if !ValidId(event.deviceId) && event.shortAddr == UNKNOWN_SHORT_ADDR {
      return;
    }
    var becameOnline := false;
    var index := FindDeviceIndex(next.devices, event.deviceId, event.shortAddr);
    if index < 0 {
      index := FindFreeSlot(next.devices);
      if index >= 0 {
        var device := next.devices[index];
        device := device.(deviceId := event.deviceId);
        device := device.(shortAddr := event.shortAddr);
        device := device.(online := true);
        device := device.(powerOn := false);
        next := next.(devices := next.devices[index := device], deviceCount := IncCount(next.deviceCount));
        stateChanged := true;
        becameOnline := true;
      }
    } else {
      var device := next.devices[index];
      if !device.online {
        device := device.(shortAddr := event.shortAddr);
        device := device.(online := true);
        next := next.(devices := next.devices[index := device], deviceCount := IncCount(next.deviceCount));
        stateChanged := true;
        becameOnline := true;
      } else if device.shortAddr != event.shortAddr {
        device := device.(shortAddr := event.shortAddr);
        next := next.(devices := next.devices[index := device]);
        stateChanged := true;
      }
    }
    if stateChanged {
      effects := PushPersistAndTelemetry(next, effects);
      if becameOnline {
        effects := Push(effects, SimpleEffect(ZigbeeInterview, event.shortAddr));
      }
    }
  }

  method HandleLeave(prev: CoreState, event: CoreEvent)
    returns (next: CoreState, effects: seq<CoreEffect>, stateChanged: bool)
    requires prev.WellFormed() && event.kind == DeviceLeft
    ensures (Finish(prev, next, stateChanged), effects) == Reduce(prev, event)
  {
    next, effects, stateChanged := prev, [], false;
    if !ValidId(event.deviceId) && event.shortAddr == UNKNOWN_SHORT_ADDR {
      return;
    }
    var index := FindDeviceIndex(next.devices, event.deviceId, event.shortAddr);
    if index >= 0 {
      if next.devices[index].online && next.deviceCount > 0 {
        next := next.(deviceCount := next.deviceCount - 1);
      }
      next := next.(devices := next.devices[index := DEFAULT_RECORD]);
      stateChanged := true;
    }
    if stateChanged {
      effects := PushPersistAndTelemetry(next, effects);
    }
  }

  method HandleNetwork(prev: CoreState, up: bool)
    returns (next: CoreState, effects: seq<CoreEffect>, stateChanged: bool)
    ensures (Finish(prev, next, stateChanged), effects) == ReduceNetwork(prev, up)
  {
    next, effects, stateChanged := prev, [], false;
    if next.networkConnected != up {
      next := next.(networkConnected := up);
      stateChanged := true;
      effects := PushPersistAndTelemetry(next, effects);
    }
  }

  /** The attribute, telemetry and pipeline branches: update one record, then chain the next step. */
  method HandleInPlace(prev: CoreState, event: CoreEvent)
    returns (next: CoreState, effects: seq<CoreEffect>, stateChanged: bool)
    requires prev.WellFormed()
    requires event.kind == AttributeReported || event.kind == DeviceTelemetryUpdated || IsPipeline(event.kind)
    ensures (Finish(prev, next, stateChanged), effects) == Reduce(prev, event)
  {
    effects := [];
    if event.kind == AttributeReported {
      next, stateChanged := ApplyOnOffAttribute(prev, event);
    } else if event.kind == DeviceTelemetryUpdated {
      next, stateChanged := ApplyTelemetryUpdate(prev, event);
    } else {
      next, stateChanged := ApplyReportingState(prev, event.deviceId, event.shortAddr,
                                                PipelineState(event.kind), event.kind == DeviceStale);
    }
    ghost var i := FirstMatch(prev.devices, event.deviceId, event.shortAddr);
    if i >= 0 {
      InPlaceChangeIsVisible(prev, i, Updated(prev.devices[i], event));
    }
    if stateChanged {
      effects := PushPersistAndTelemetry(next, effects);
      if event.kind == DeviceInterviewCompleted {
        effects := Push(effects, SimpleEffect(ZigbeeBind, event.shortAddr));
      } else if event.kind == DeviceBindingReady {
        effects := Push(effects, SimpleEffect(ZigbeeConfigureReporting, event.shortAddr));
      } else if event.kind == DeviceReportingConfigured {
        effects := Push(effects, SimpleEffect(ZigbeeReadAttributes, event.shortAddr));
      } else {
        assert effects + FollowUp(event) == effects;
      }
    }
  }

  method HandleResult(prev: CoreState, event: CoreEvent, status: u8)
    returns (next: CoreState, effects: seq<CoreEffect>, stateChanged: bool)
    requires IsCommandResult(event.kind) && status == CommandStatus(event.kind)
    ensures (Finish(prev, next, stateChanged), effects) == ReduceResult(prev, event)
  {
    next, stateChanged := prev.(lastCommandStatus := status), true;
    var effect := CoreEffect(EmitCommandResult, event.correlationId, event.shortAddr, status, status == 1);
    effects := Push([], effect);
  }

  /** `core_reduce`, branch by branch. */
  method CoreReduce(prev: CoreState, event: CoreEvent) returns (next: CoreState, effects: seq<CoreEffect>)
    requires prev.WellFormed()
    ensures (next, effects) == Reduce(prev, event)
  {
    next, effects := prev, [];
    var stateChanged := false;
    match event.kind {
      case DeviceJoined =>
        next, effects, stateChanged := HandleJoin(prev, event);
      case DeviceLeft =>
        next, effects, stateChanged := HandleLeave(prev, event);
      case NetworkUp =>
        next, effects, stateChanged := HandleNetwork(prev, true);
      case NetworkDown =>
        next, effects, stateChanged := HandleNetwork(prev, false);
      case CommandSetDevicePowerRequested =>
        effects := Push(effects, CoreEffect(SendZigbeeOnOff, event.correlationId, event.shortAddr, 0, event.valueBool));
      case CommandRefreshNetworkRequested =>
        effects := Push(effects, CoreEffect(RefreshNetwork, event.correlationId, UNKNOWN_SHORT_ADDR, 0, false));
      case CommandResultSuccess =>
        next, effects, stateChanged := HandleResult(prev, event, 1);
      case CommandResultTimeout =>
        next, effects, stateChanged := HandleResult(prev, event, 2);
      case CommandResultFailed =>
        next, effects, stateChanged := HandleResult(prev, event, 3);
      case EvUnknown =>
      case _ =>
        next, effects, stateChanged := HandleInPlace(prev, event);
    }
    next := Finish(prev, next, stateChanged);
  }
}
