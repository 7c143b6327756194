/** The value types of the gateway core: identities, device records, events, effects and state. */
module CoreTypes {
  import opened Common

  const MAX_DEVICES: nat := 64
  const MAX_EFFECTS_PER_REDUCE: nat := 4
  const NO_CORRELATION_ID: u32 := 0
  const UNKNOWN_SHORT_ADDR: u16 := 0xFFFF

  /** An EUI-64, read as one 64-bit number, most significant byte first. */
  type DeviceId = x: int | 0 <= x < 0x1_0000_0000_0000_0000

  /** All-zero and all-ones identities are reserved. */
  predicate ValidId(id: DeviceId) {
    id != 0 && id != 0xFFFF_FFFF_FFFF_FFFF
  }

  datatype ReportingState = Unknown | InterviewCompleted | BindingReady | ReportingConfigured | ReportingActive | Stale
  datatype OccupancyState = OccUnknown | NotOccupied | Occupied
  datatype ContactState = ContactUnknown | Closed | Open

  /** A numeric reading and whether it is present; the value survives the reading becoming invalid. */
  datatype Sensor = Sensor(value: int, present: bool)

  datatype Contact = Contact(state: ContactState, tamper: bool, batteryLow: bool)

  datatype Telemetry = Telemetry(
    temperatureCentiC: Sensor,
    occupancy: OccupancyState,
    contact: Contact,
    batteryPercent: Sensor,
    batteryVoltageMv: Sensor,
    lqi: Sensor,
    rssiDbm: Sensor)

  datatype DeviceRecord = DeviceRecord(
    deviceId: DeviceId,
    shortAddr: u16,
    online: bool,
    powerOn: bool,
    reportingState: ReportingState,
    lastReportAtMs: u32,
    stale: bool,
    telemetry: Telemetry)

  const NO_READING: Sensor := Sensor(0, false)

  const NO_TELEMETRY: Telemetry := Telemetry(
    NO_READING, OccUnknown, Contact(ContactUnknown, false, false), NO_READING, NO_READING, NO_READING, NO_READING)

  /** A default-constructed record: the content of a free slot. */
  const DEFAULT_RECORD: DeviceRecord :=
    DeviceRecord(0, UNKNOWN_SHORT_ADDR, false, false, Unknown, 0, false, NO_TELEMETRY)

  /** The device array always has exactly `MAX_DEVICES` slots. The revision is not bounded here. */
  datatype CoreState = CoreState(
    revision: nat,
    deviceCount: u16,
    networkConnected: bool,
    lastCommandStatus: u8,
    devices: seq<DeviceRecord>)
  {
    predicate WellFormed() {
      |devices| == MAX_DEVICES
    }
  }

  const EMPTY_STATE: CoreState := CoreState(0, 0, false, 0, seq(MAX_DEVICES, _ => DEFAULT_RECORD))

  datatype EventType =
    | EvUnknown
    | DeviceJoined
    | DeviceLeft
    | NetworkUp
    | NetworkDown
    | AttributeReported
    | CommandSetDevicePowerRequested
    | CommandRefreshNetworkRequested
    | CommandResultSuccess
    | CommandResultTimeout
    | CommandResultFailed
    | DeviceInterviewCompleted
    | DeviceBindingReady
    | DeviceReportingConfigured
    | DeviceTelemetryUpdated
    | DeviceStale

  datatype TelemetryKind =
    | NoTelemetry
    | TemperatureCentiC
    | Occupancy
    | ContactIasZoneStatus
    | BatteryPercent
    | BatteryVoltageMilliV
    | Lqi
    | RssiDbm

  datatype CoreEvent = CoreEvent(
    kind: EventType,
    correlationId: u32,
    deviceId: DeviceId,
    shortAddr: u16,
    clusterId: u16,
    attributeId: u16,
    valueU32: u32,
    valueBool: bool,
    telemetryKind: TelemetryKind,
    telemetryI32: i32,
    telemetryValid: bool)

  const DEFAULT_EVENT: CoreEvent := CoreEvent(
    EvUnknown, NO_CORRELATION_ID, 0, UNKNOWN_SHORT_ADDR, 0, 0, 0, false, NoTelemetry, 0, false)

  datatype EffectType =
    | NoEffect
    | PersistState
    | PublishTelemetry
    | SetLed
    | SendZigbeeOnOff
    | RefreshNetwork
    | EmitCommandResult
    | ZigbeeInterview
    | ZigbeeBind
    | ZigbeeConfigureReporting
    | ZigbeeReadAttributes

  /** `argU32` carries a revision, a device count or a status code; revisions are not bounded here. */
  datatype CoreEffect = CoreEffect(
    kind: EffectType,
    correlationId: u32,
    shortAddr: u16,
    argU32: nat,
    argBool: bool)
}
