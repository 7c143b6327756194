/** Delta publication: which retained messages a sync cycle sends, and why they bring the broker's retained view
    to the new snapshot. */
module MqttDelta {
  import opened Common
  import opened CoreTypes

  const MAX_PUBLICATIONS: nat := 192

  datatype Device = Device(
    shortAddr: u16,
    online: bool,
    powerOn: bool,
    stale: bool,
    lastReportAtMs: u32,
    telemetry: Telemetry)

  datatype TopicKind = AvailabilityTopic | StateTopic | TelemetryTopic

  datatype Topic = Topic(kind: TopicKind, shortAddr: u16)

  /** The two numbers a temperature is printed as: the whole degrees, and the hundredths without their sign. */
  datatype Degrees = Degrees(whole: int, hundredths: nat)

  /** A payload text, by what is printed; None prints as `null`. */
  datatype Payload =
    | Availability(online: bool)
    | PowerState(on: bool)
    | Readings(
        temperature: Option<Degrees>,
        occupancy: OccupancyState,
        contact: Contact,
        batteryPercent: Option<int>,
        batteryVoltageMv: Option<int>,
        lqi: Option<int>,
        rssiDbm: Option<int>,
        stale: bool,
        timestampMs: u32)

  /** All publications of the bridge are retained. */
  datatype Publication = Publication(topic: Topic, payload: Payload)

  /** Section 3.3.1.3 of MQTT 3.1.1: the broker keeps the last retained message of each topic. */
  type View = map<Topic, Payload>

  function Publish(view: View, pubs: seq<Publication>): View {
    if pubs == [] then view
    else
      var last := pubs[|pubs| - 1];
      Publish(view, pubs[..|pubs| - 1])[last.topic := last.payload]
  }

  // ---------------------------------------------------------------------------------------------
  // What a cycle sends
  // ---------------------------------------------------------------------------------------------

  predicate IsActive(d: Device) {
    d.shortAddr != UNKNOWN_SHORT_ADDR && d.online
  }

  function Active(snapshot: seq<Device>): (r: seq<Device>)
    ensures |r| <= |snapshot|
    ensures forall i | 0 <= i < |r| :: IsActive(r[i]) && r[i] in snapshot
    ensures forall d | d in snapshot && IsActive(d) :: d in r
  {
    if snapshot == [] then []
    else
      var n := |snapshot| - 1;
      Active(snapshot[..n]) + if IsActive(snapshot[n]) then [snapshot[n]] else []
  }

  /** `find_device_by_short`: the first entry with that address. */
  function Find(devices: seq<Device>, shortAddr: u16): (r: Option<Device>)
    ensures r == None <==> forall i | 0 <= i < |devices| :: devices[i].shortAddr != shortAddr
    ensures r.Some? ==> r.value in devices && r.value.shortAddr == shortAddr
  {
    if devices == [] then None
    else if devices[0].shortAddr == shortAddr then Some(devices[0])
    else Find(devices[1..], shortAddr)
  }

  predicate SensorEqual(a: Sensor, b: Sensor) {
    a.present == b.present && a.value == b.value
  }

  predicate TelemetryFieldsEqual(a: Device, b: Device) {
    && SensorEqual(a.telemetry.temperatureCentiC, b.telemetry.temperatureCentiC)
    && a.telemetry.occupancy == b.telemetry.occupancy
    && a.telemetry.contact.state == b.telemetry.contact.state
    && a.telemetry.contact.tamper == b.telemetry.contact.tamper
    && a.telemetry.contact.batteryLow == b.telemetry.contact.batteryLow
    && SensorEqual(a.telemetry.batteryPercent, b.telemetry.batteryPercent)
    && SensorEqual(a.telemetry.batteryVoltageMv, b.telemetry.batteryVoltageMv)
    && SensorEqual(a.telemetry.lqi, b.telemetry.lqi)
    && SensorEqual(a.telemetry.rssiDbm, b.telemetry.rssiDbm)
    && a.stale == b.stale
    && a.lastReportAtMs == b.lastReportAtMs
  }

  function AvailabilityOf(shortAddr: u16, online: bool): Publication {
    Publication(Topic(AvailabilityTopic, shortAddr), Availability(online))
  }

  function StateOf(d: Device): Publication {
    Publication(Topic(StateTopic, d.shortAddr), PowerState(d.powerOn))
  }

  /** Division and remainder truncate toward zero; the remainder is printed without its sign. */
  function Printed(centi: int): Degrees {
    if centi >= 0 then Degrees(centi / 100, centi % 100) else Degrees(-(-centi / 100), -centi % 100)
  }

  function Shown(s: Sensor): Option<int> {
    if s.present then Some(s.value) else None
  }

  function TelemetryOf(d: Device): Publication {
    var t := d.telemetry;
    Publication(Topic(TelemetryTopic, d.shortAddr),
                Readings(if t.temperatureCentiC.present then Some(Printed(t.temperatureCentiC.value)) else None,
                         t.occupancy, t.contact, Shown(t.batteryPercent), Shown(t.batteryVoltageMv), Shown(t.lqi),
                         Shown(t.rssiDbm), d.stale, d.lastReportAtMs))
  }

  /** The comparison leaves out no field the telemetry text is made of: devices it takes for equal have the same
      text. */
  lemma ComparisonIsComplete(a: Device, b: Device)
    requires a.shortAddr == b.shortAddr && TelemetryFieldsEqual(a, b)
    ensures TelemetryOf(a) == TelemetryOf(b)
  {
  }

  /** Two temperatures print alike exactly when they are equal, or opposite and smaller than one degree: there the
      sign is lost, and -0.50 reads as 0.50. */
  lemma TemperatureShownIff(a: int, b: int)
    ensures Printed(a) == Printed(b) <==> a == b || (a == -b && -100 < a < 100)
  {
    PrintedValue(a);
    PrintedValue(b);
  }

  lemma PrintedValue(centi: int)
    ensures var p := Printed(centi);
            && 0 <= p.hundredths < 100
            && centi == (if centi >= 0 then p.whole * 100 + p.hundredths else p.whole * 100 - p.hundredths)
            && (p.whole > 0 ==> centi > 0) && (p.whole < 0 ==> centi < 0)
  {
    var magnitude := if centi >= 0 then centi else -centi;
    assert magnitude == magnitude / 100 * 100 + magnitude % 100;
  }

  function DeviceUpdate(previous: Option<Device>, d: Device): seq<Publication> {
    if previous == None then [AvailabilityOf(d.shortAddr, true), StateOf(d), TelemetryOf(d)]
    else
      (if previous.value.powerOn != d.powerOn then [StateOf(d)] else [])
      + if TelemetryFieldsEqual(previous.value, d) then [] else [TelemetryOf(d)]
  }

  function Updates(cache: seq<Device>, active: seq<Device>): seq<Publication> {
    if active == [] then []
    else
      var n := |active| - 1;
      Updates(cache, active[..n]) + DeviceUpdate(Find(cache, active[n].shortAddr), active[n])
  }

  function Vanished(cache: seq<Device>, active: seq<Device>): seq<Publication> {
    if cache == [] then []
    else
      var n := |cache| - 1;
      Vanished(cache[..n], active)
      + if Find(active, cache[n].shortAddr) == None then [AvailabilityOf(cache[n].shortAddr, false)] else []
  }

  /** Everything the cycle wants to send; the queue takes the first `MAX_PUBLICATIONS`. */
  function Plan(cache: seq<Device>, active: seq<Device>): seq<Publication> {
    Updates(cache, active) + Vanished(cache, active)
  }

  function Queued(plan: seq<Publication>): seq<Publication> {
    if |plan| <= MAX_PUBLICATIONS then plan else plan[..MAX_PUBLICATIONS]
  }

  // ---------------------------------------------------------------------------------------------
  // Agreement
  // ---------------------------------------------------------------------------------------------

  ghost predicate Holds(view: View, p: Publication) {
    p.topic in view && view[p.topic] == p.payload
  }

  ghost predicate Shows(view: View, d: Device) {
    Holds(view, AvailabilityOf(d.shortAddr, true)) && Holds(view, StateOf(d)) && Holds(view, TelemetryOf(d))
  }

  /** The retained view shows each device of the list, and shows no other device as online. */
  ghost predicate Agrees(view: View, devices: seq<Device>) {
    && (forall i | 0 <= i < |devices| :: Shows(view, devices[i]))
    && (forall s: u16 | Topic(AvailabilityTopic, s) in view && Find(devices, s) == None ::
          view[Topic(AvailabilityTopic, s)] == Availability(false))
  }

  ghost predicate DistinctAddresses(devices: seq<Device>) {
    forall i, j | 0 <= i < j < |devices| :: devices[i].shortAddr != devices[j].shortAddr
  }

  lemma {:induction false} FindAt(devices: seq<Device>, i: nat)
    requires DistinctAddresses(devices) && i < |devices|
    ensures Find(devices, devices[i].shortAddr) == Some(devices[i])
  {
    if i > 0 {
      FindAt(devices[1..], i - 1);
    }
  }

  lemma {:induction false} PublishAppend(view: View, a: seq<Publication>, b: seq<Publication>)
    ensures Publish(view, a + b) == Publish(Publish(view, a), b)
  {
    if b == [] {
      assert a + b == a;
    } else {
      PublishAppend(view, a, b[..|b| - 1]);
      assert (a + b)[..|a + b| - 1] == a + b[..|b| - 1];
    }
  }

  lemma PublishOne(view: View, p: Publication)
    ensures Publish(view, [p]) == view[p.topic := p.payload]
  {
    assert [p][..0] == [];
  }

  ghost predicate SameAt(v: View, w: View, t: Topic) {
    (t in v <==> t in w) && (t in v ==> v[t] == w[t])
  }

  /** One device's update: its topics hold afterwards, given that they held for its cached record; no other topic
      changes. */
  lemma {:induction false} UpdateShows(view: View, previous: Option<Device>, d: Device)
    requires previous.Some? ==> previous.value.shortAddr == d.shortAddr && Shows(view, previous.value)
    ensures Shows(Publish(view, DeviceUpdate(previous, d)), d)
    ensures forall t: Topic | t.shortAddr != d.shortAddr :: SameAt(view, Publish(view, DeviceUpdate(previous, d)), t)
  {
    hide Publish, Shows, SameAt;
    if previous == None {
      NewDeviceView(view, d);
      ThreeMessages(view, d, true, true, true);
    } else {
      if TelemetryFieldsEqual(previous.value, d) {
        ComparisonIsComplete(previous.value, d);
      }
      hide TelemetryFieldsEqual, TelemetryOf;
      KnownDeviceView(view, previous.value, d);
      ShownBefore(view, previous.value, d);
      ThreeMessages(view, d, false, previous.value.powerOn != d.powerOn, !TelemetryFieldsEqual(previous.value, d));
    }
  }

  lemma ShownBefore(view: View, previous: Device, d: Device)
    requires Shows(view, previous) && previous.shortAddr == d.shortAddr
    ensures Holds(view, AvailabilityOf(d.shortAddr, true))
    ensures previous.powerOn == d.powerOn ==> Holds(view, StateOf(d))
    ensures TelemetryOf(previous) == TelemetryOf(d) ==> Holds(view, TelemetryOf(d))
  {
  }

  /** The view after some of the three messages of a device. */
  function With(view: View, d: Device, availability: bool, state: bool, telemetry: bool): View {
    var a, b, c := AvailabilityOf(d.shortAddr, true), StateOf(d), TelemetryOf(d);
    var announced := if availability then view[a.topic := a.payload] else view;
    var stated := if state then announced[b.topic := b.payload] else announced;
    if telemetry then stated[c.topic := c.payload] else stated
  }

  lemma ThreeMessages(view: View, d: Device, availability: bool, state: bool, telemetry: bool)
    requires availability || Holds(view, AvailabilityOf(d.shortAddr, true))
    requires state || Holds(view, StateOf(d))
    requires telemetry || Holds(view, TelemetryOf(d))
    ensures Shows(With(view, d, availability, state, telemetry), d)
    ensures forall t: Topic | t.shortAddr != d.shortAddr :: SameAt(view, With(view, d, availability, state, telemetry), t)
  {
  }

  lemma NewDeviceView(view: View, d: Device)
    ensures Publish(view, DeviceUpdate(None, d)) == With(view, d, true, true, true)
  {
    hide Publish, AvailabilityOf, StateOf, TelemetryOf;
    var a, b, c := AvailabilityOf(d.shortAddr, true), StateOf(d), TelemetryOf(d);
    PublishAppend(view, [a, b], [c]);
    PublishAppend(view, [a], [b]);
    PublishOne(view, a);
    PublishOne(Publish(view, [a]), b);
    PublishOne(Publish(view, [a, b]), c);
    assert DeviceUpdate(None, d) == [a, b] + [c] && [a, b] == [a] + [b];
  }

  lemma KnownDeviceView(view: View, previous: Device, d: Device)
    ensures Publish(view, DeviceUpdate(Some(previous), d))
            == With(view, d, false, previous.powerOn != d.powerOn, !TelemetryFieldsEqual(previous, d))
  {
    assert Publish(view, []) == view;
    hide Publish, StateOf, TelemetryOf, TelemetryFieldsEqual;
    var state := if previous.powerOn != d.powerOn then [StateOf(d)] else [];
    var telemetry := if TelemetryFieldsEqual(previous, d) then [] else [TelemetryOf(d)];
    PublishAppend(view, state, telemetry);
    PublishOne(view, StateOf(d));
    PublishOne(Publish(view, state), TelemetryOf(d));
    assert DeviceUpdate(Some(previous), d) == state + telemetry && state + [] == state;
  }

  lemma ShowsKept(v: View, w: View, d: Device)
    requires Shows(v, d) && forall kind: TopicKind :: SameAt(v, w, Topic(kind, d.shortAddr))
    ensures Shows(w, d)
  {
    assert SameAt(v, w, Topic(AvailabilityTopic, d.shortAddr));
    assert SameAt(v, w, Topic(StateTopic, d.shortAddr)) && SameAt(v, w, Topic(TelemetryTopic, d.shortAddr));
  }

  /** After the updates of `active`, all of them show; topics of other addresses are as they were. */
  lemma {:induction false} UpdatesShow(view: View, cache: seq<Device>, active: seq<Device>)
    requires Agrees(view, cache) && DistinctAddresses(active)
    ensures var after := Publish(view, Updates(cache, active));
            && (forall i | 0 <= i < |active| :: Shows(after, active[i]))
            && (forall t: Topic | Find(active, t.shortAddr) == None :: SameAt(view, after, t))
  {
    hide DeviceUpdate, Find, Shows, SameAt;
    if active == [] {
      SameAsItself(view);
    } else {
      var n := |active| - 1;
      var d, previous := active[n], Find(cache, active[n].shortAddr);
      var before := Publish(view, Updates(cache, active[..n]));
      UpdatesShow(view, cache, active[..n]);
      PublishAppend(view, Updates(cache, active[..n]), DeviceUpdate(previous, d));
      hide Publish, Updates, Agrees;
      var after := Publish(view, Updates(cache, active));
      assert after == Publish(before, DeviceUpdate(previous, d));
      NotAmongEarlier(active);
      if previous.Some? {
        ShownInCache(view, cache, previous.value);
        ShowsKept(view, before, previous.value);
      }
      UpdateShows(before, previous, d);
      forall i | 0 <= i < n ensures Shows(after, active[i]) {
        ShowsKept(before, after, active[i]);
      }
      forall t: Topic | Find(active, t.shortAddr) == None ensures SameAt(view, after, t) {
        assert active[n].shortAddr != t.shortAddr;
        assert Find(active[..n], t.shortAddr) == None;
        SameAtTrans(view, before, after, t);
      }
    }
  }

  lemma SameAsItself(view: View)
    ensures forall t: Topic :: SameAt(view, view, t)
  {
  }

  lemma SameAtTrans(u: View, v: View, w: View, t: Topic)
    requires SameAt(u, v, t) && SameAt(v, w, t)
    ensures SameAt(u, w, t)
  {
  }

  lemma NotAmongEarlier(devices: seq<Device>)
    requires DistinctAddresses(devices) && devices != []
    ensures var n := |devices| - 1;
            && DistinctAddresses(devices[..n])
            && Find(devices[..n], devices[n].shortAddr) == None
            && forall i | 0 <= i < n :: devices[i].shortAddr != devices[n].shortAddr
  {
    hide Find;
  }

  lemma ShownInCache(view: View, cache: seq<Device>, d: Device)
    requires Agrees(view, cache) && d in cache
    ensures Shows(view, d)
  {
  }

  /** After the vanished devices are announced, they show as offline and no other topic has changed. */
  lemma {:induction false} VanishedShow(view: View, cache: seq<Device>, active: seq<Device>)
    ensures var after := Publish(view, Vanished(cache, active));
            && (forall i | 0 <= i < |cache| && Find(active, cache[i].shortAddr) == None ::
                  Holds(after, AvailabilityOf(cache[i].shortAddr, false)))
            && (forall t: Topic | t.kind != AvailabilityTopic || Find(active, t.shortAddr).Some?
                                  || Find(cache, t.shortAddr) == None :: SameAt(view, after, t))
  {
    hide Find;
    if cache == [] {
      SameAsItself(view);
    } else {
      var n := |cache| - 1;
      var gone := AvailabilityOf(cache[n].shortAddr, false);
      var before := Publish(view, Vanished(cache[..n], active));
      var after := Publish(view, Vanished(cache, active));
      VanishedShow(view, cache[..n], active);
      assert after == if Find(active, cache[n].shortAddr) == None then before[gone.topic := gone.payload] else before by {
        PublishAppend(view, Vanished(cache[..n], active), [gone]);
        PublishOne(before, gone);
        assert Vanished(cache[..n], active) + [] == Vanished(cache[..n], active);
      }
      hide Publish, Vanished;
      forall t: Topic | t.kind != AvailabilityTopic || Find(active, t.shortAddr).Some? || Find(cache, t.shortAddr) == None
        ensures SameAt(view, after, t)
      {
        assert Find(cache, t.shortAddr) == None ==> Find(cache[..n], t.shortAddr) == None;
        assert SameAt(view, before, t);
        assert Find(cache, t.shortAddr) == None ==> cache[n].shortAddr != t.shortAddr;
      }
    }
  }

  /** Incremental equals full: publishing the whole plan brings any view that agrees with the cache to agree with
      the active devices of the snapshot; devices that vanished show as offline. */
  lemma {:induction false} DeltaEqualsFull(view: View, cache: seq<Device>, active: seq<Device>)
    requires Agrees(view, cache) && DistinctAddresses(active)
    ensures Agrees(Publish(view, Plan(cache, active)), active)
    ensures forall i | 0 <= i < |cache| && Find(active, cache[i].shortAddr) == None ::
              Holds(Publish(view, Plan(cache, active)), AvailabilityOf(cache[i].shortAddr, false))
  {
    hide Updates, Vanished, Publish;
    var mid := Publish(view, Updates(cache, active));
    var after := Publish(mid, Vanished(cache, active));
    UpdatesShow(view, cache, active);
    VanishedShow(mid, cache, active);
    PublishAppend(view, Updates(cache, active), Vanished(cache, active));
    forall i | 0 <= i < |active| ensures Shows(after, active[i]) {
      assert Find(active, active[i].shortAddr).Some?;
      assert forall kind: TopicKind :: SameAt(mid, after, Topic(kind, active[i].shortAddr));
      assert Shows(mid, active[i]);
    }
    forall s: u16 | Topic(AvailabilityTopic, s) in after && Find(active, s) == None
      ensures after[Topic(AvailabilityTopic, s)] == Availability(false)
    {
      var t := Topic(AvailabilityTopic, s);
      if Find(cache, s).Some? {
        var i :| 0 <= i < |cache| && cache[i].shortAddr == s;
        assert Holds(after, AvailabilityOf(cache[i].shortAddr, false));
      } else {
        assert SameAt(view, mid, t) && SameAt(mid, after, t);
      }
    }
  }
}
