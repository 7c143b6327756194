/** Delta publication over whole runs, and exactly how large a change one cycle can carry. */
module MqttTheorems {
  import opened Common
  import opened Counting
  import opened CoreTypes
  import opened MqttDelta

  // ---------------------------------------------------------------------------------------------
  // Re-synchronising
  // ---------------------------------------------------------------------------------------------

  lemma {:induction false} NothingNew(cache: seq<Device>, active: seq<Device>)
    requires forall d | d in active :: Find(cache, d.shortAddr) == Some(d)
    ensures Updates(cache, active) == []
  {
    hide Find;
    if active != [] {
      var n := |active| - 1;
      assert active[n] in active;
      NothingNew(cache, active[..n]);
    }
  }

  lemma {:induction false} NothingGone(cache: seq<Device>, active: seq<Device>)
    requires forall d | d in cache :: Find(active, d.shortAddr).Some?
    ensures Vanished(cache, active) == []
  {
    hide Find;
    if cache != [] {
      var n := |cache| - 1;
      assert cache[n] in cache;
      NothingGone(cache[..n], active);
    }
  }

  /** Synchronising the same snapshot again sends nothing. */
  lemma ResyncIsSilent(active: seq<Device>)
    requires DistinctAddresses(active)
    ensures Plan(active, active) == []
  {
    forall d | d in active ensures Find(active, d.shortAddr) == Some(d) {
      var i: nat :| i < |active| && active[i] == d;
      FindAt(active, i);
    }
    NothingNew(active, active);
    NothingGone(active, active);
  }

  // ---------------------------------------------------------------------------------------------
  // The size of a cycle
  // ---------------------------------------------------------------------------------------------

  ghost function Addresses(devices: seq<Device>): set<u16> {
    set i | 0 <= i < |devices| :: devices[i].shortAddr
  }

  lemma {:induction false} AddressesCount(devices: seq<Device>)
    requires DistinctAddresses(devices)
    ensures |Addresses(devices)| == |devices|
  {
    if devices != [] {
      var n := |devices| - 1;
      AddressesCount(devices[..n]);
      assert Addresses(devices) == Addresses(devices[..n]) + {devices[n].shortAddr};
      assert devices[n].shortAddr !in Addresses(devices[..n]);
    } else {
      assert Addresses(devices) == {};
    }
  }

  lemma {:induction false} UpdatesSize(cache: seq<Device>, active: seq<Device>)
    ensures |Updates(cache, active)| <= 3 * |active|
  {
    hide Find, TelemetryFieldsEqual;
    if active != [] {
      UpdatesSize(cache, active[..|active| - 1]);
    }
  }

  lemma OneMoreElement(a: set<u16>, b: set<u16>, s: u16)
    requires s !in a
    ensures |a + {s} - b| == |a - b| + if s in b then 0 else 1
  {
    if s in b {
      assert a + {s} - b == a - b;
    } else {
      assert a + {s} - b == (a - b) + {s};
    }
  }

  lemma OneMoreAddress(devices: seq<Device>)
    requires DistinctAddresses(devices) && devices != []
    ensures var n := |devices| - 1;
            && Addresses(devices) == Addresses(devices[..n]) + {devices[n].shortAddr}
            && devices[n].shortAddr !in Addresses(devices[..n])
  {
  }

  lemma FoundIffAddress(devices: seq<Device>, s: u16)
    ensures Find(devices, s) == None <==> s !in Addresses(devices)
  {
    hide Find;
  }

  lemma {:induction false} VanishedSize(cache: seq<Device>, active: seq<Device>)
    requires DistinctAddresses(cache)
    ensures |Vanished(cache, active)| == |Addresses(cache) - Addresses(active)|
  {
    if cache == [] {
      assert Addresses(cache) == {};
    } else {
      var n := |cache| - 1;
      VanishedSize(cache[..n], active);
      OneMoreAddress(cache);
      FoundIffAddress(active, cache[n].shortAddr);
      hide Find, Addresses, AvailabilityOf;
      OneMoreElement(Addresses(cache[..n]), Addresses(active), cache[n].shortAddr);
    }
  }

  /** With at most 64 distinct devices across the cache and the snapshot, the queue holds the whole cycle. */
  lemma PlanFits(cache: seq<Device>, active: seq<Device>)
    requires DistinctAddresses(cache) && DistinctAddresses(active)
    requires |Addresses(cache) + Addresses(active)| <= MAX_DEVICES
    ensures |Plan(cache, active)| <= MAX_PUBLICATIONS
  {
    hide Updates, Vanished, Addresses, DistinctAddresses;
    UpdatesSize(cache, active);
    VanishedSize(cache, active);
    AddressesCount(active);
    var gone := Addresses(cache) - Addresses(active);
    assert Addresses(cache) + Addresses(active) == gone + Addresses(active);
  }

  // ---------------------------------------------------------------------------------------------
  // Exactly when a cycle is complete
  // ---------------------------------------------------------------------------------------------

  /** The least view that agrees with the cache. */
  function LeastView(cache: seq<Device>): View {
    Publish(map[], Updates([], cache))
  }

  lemma LeastViewAgrees(cache: seq<Device>)
    requires DistinctAddresses(cache)
    ensures Agrees(LeastView(cache), cache)
  {
    hide Updates, Publish, Find;
    UpdatesShow(map[], [], cache);
    forall s: u16 | Find(cache, s) == None ensures Topic(AvailabilityTopic, s) !in LeastView(cache) {
      assert SameAt(map[], LeastView(cache), Topic(AvailabilityTopic, s));
    }
  }

  lemma {:induction false} OthersUntouched(view: View, pubs: seq<Publication>, t: Topic)
    requires forall i | 0 <= i < |pubs| :: pubs[i].topic != t
    ensures SameAt(view, Publish(view, pubs), t)
  {
    if pubs != [] {
      OthersUntouched(view, pubs[..|pubs| - 1], t);
    }
  }

  /** Where an announcement comes from. */
  lemma {:induction false} VanishedElements(cache: seq<Device>, active: seq<Device>, k: nat) returns (i: nat)
    requires k < |Vanished(cache, active)|
    ensures i < |cache| && Find(active, cache[i].shortAddr) == None
    ensures Vanished(cache, active)[k] == AvailabilityOf(cache[i].shortAddr, false)
  {
    hide Find;
    var n := |cache| - 1;
    if k < |Vanished(cache[..n], active)| {
      i := VanishedElements(cache[..n], active, k);
    } else {
      i := n;
    }
  }

  /** No device is announced twice. */
  lemma {:induction false} AnnouncedOnce(cache: seq<Device>, active: seq<Device>, j: nat, k: nat)
    requires DistinctAddresses(cache) && j < k < |Vanished(cache, active)|
    ensures Vanished(cache, active)[j].topic != Vanished(cache, active)[k].topic
  {
    hide Find;
    var n := |cache| - 1;
    var front := Vanished(cache[..n], active);
    if k < |front| {
      AnnouncedOnce(cache[..n], active, j, k);
    } else {
      var i := VanishedElements(cache[..n], active, j);
    }
  }

  /** Cut the announcements short, and the first one left out is missing from the view: its device was last shown as
      online. */
  lemma AnnouncementMissing(view: View, cache: seq<Device>, active: seq<Device>, k: nat)
    requires Agrees(view, cache) && DistinctAddresses(cache) && DistinctAddresses(active)
    requires k < |Vanished(cache, active)|
    ensures !Agrees(Publish(Publish(view, Updates(cache, active)), Vanished(cache, active)[..k]), active)
  {
    hide Updates, Vanished, Publish, Find;
    var mid := Publish(view, Updates(cache, active));
    var announced := Vanished(cache, active);
    var after := Publish(mid, announced[..k]);
    var i := VanishedElements(cache, active, k);
    var t := announced[k].topic;
    UpdatesShow(view, cache, active);
    forall j | 0 <= j < k ensures announced[..k][j].topic != t {
      AnnouncedOnce(cache, active, j, k);
    }
    OthersUntouched(mid, announced[..k], t);
    assert Shows(view, cache[i]) && SameAt(view, mid, t) && SameAt(mid, after, t);
  }

  /** A cycle brings every agreeing view to the new snapshot if and only if its publications fit the queue. The
      updates of a snapshot of at most 64 devices always fit; what is lost are announcements of vanished devices,
      which stay shown as online. */
  lemma DeltaCompleteIffFits(cache: seq<Device>, active: seq<Device>)
    requires DistinctAddresses(cache) && DistinctAddresses(active) && |active| <= MAX_DEVICES
    ensures |Plan(cache, active)| <= MAX_PUBLICATIONS <==>
            forall view: View | Agrees(view, cache) :: Agrees(Publish(view, Queued(Plan(cache, active))), active)
  {
    hide Agrees, Publish, DistinctAddresses, Updates, Vanished;
    var plan, updates := Plan(cache, active), Updates(cache, active);
    if |plan| <= MAX_PUBLICATIONS {
      forall view: View | Agrees(view, cache) ensures Agrees(Publish(view, Queued(plan)), active) {
        DeltaEqualsFull(view, cache, active);
      }
    } else {
      var view := LeastView(cache);
      LeastViewAgrees(cache);
      UpdatesSize(cache, active);
      var k := MAX_PUBLICATIONS - |updates|;
      assert Queued(plan) == updates + Vanished(cache, active)[..k];
      PublishAppend(view, updates, Vanished(cache, active)[..k]);
      AnnouncementMissing(view, cache, active, k);
    }
  }

  // ---------------------------------------------------------------------------------------------
  // Turnover
  // ---------------------------------------------------------------------------------------------

  /** A device the cache does not know costs three publications. */
  lemma {:induction false} NewDevicesCostThree(cache: seq<Device>, active: seq<Device>)
    requires Addresses(cache) !! Addresses(active)
    ensures |Updates(cache, active)| == 3 * |active|
  {
    if active != [] {
      var n := |active| - 1;
      assert active[n].shortAddr in Addresses(active);
      FoundIffAddress(cache, active[n].shortAddr);
      assert Addresses(active[..n]) <= Addresses(active);
      hide Find, Addresses, TelemetryFieldsEqual;
      NewDevicesCostThree(cache, active[..n]);
    }
  }

  /** When all devices change, each arrival costs three publications and each departure one. */
  lemma TurnoverSize(cache: seq<Device>, active: seq<Device>)
    requires DistinctAddresses(cache) && Addresses(cache) !! Addresses(active)
    ensures |Plan(cache, active)| == 3 * |active| + |cache|
  {
    hide Updates, Vanished;
    NewDevicesCostThree(cache, active);
    VanishedSize(cache, active);
    AddressesCount(cache);
    assert Addresses(cache) - Addresses(active) == Addresses(cache);
  }

  /** Whether one drained cycle brings every view that agrees with the cache to the new active devices. */
  ghost predicate CycleCompletes(cache: seq<Device>, active: seq<Device>) {
    forall view: View | Agrees(view, cache) :: Agrees(Publish(view, Queued(Plan(cache, active))), active)
  }

  /** A full turnover is complete exactly when three times the arrivals and the departures fit the queue. */
  lemma TurnoverCompletesIff(cache: seq<Device>, active: seq<Device>)
    requires DistinctAddresses(cache) && DistinctAddresses(active) && |active| <= MAX_DEVICES
    requires Addresses(cache) !! Addresses(active)
    ensures CycleCompletes(cache, active) <==> 3 * |active| + |cache| <= MAX_PUBLICATIONS
  {
    hide Plan, Agrees, Publish, Addresses;
    TurnoverSize(cache, active);
    DeltaCompleteIffFits(cache, active);
  }

  function PlainDevice(shortAddr: u16): Device {
    Device(shortAddr, true, false, false, 0, NO_TELEMETRY)
  }

  /** `count` devices that are online, at consecutive addresses. */
  function PlainDevices(first: u16, count: nat): (devices: seq<Device>)
    requires first + count <= UNKNOWN_SHORT_ADDR
    ensures |devices| == count
    ensures forall i | 0 <= i < count :: devices[i] == PlainDevice(first + i) && IsActive(devices[i])
  {
    if count == 0 then [] else PlainDevices(first, count - 1) + [PlainDevice(first + count - 1)]
  }

  /** The smallest overflow: one device leaves while 64 others arrive. Its departure is never announced, and some
      view goes on showing it as online. With 63 arrivals the cycle completes. */
  lemma OneForSixtyFourIsLost()
    ensures !CycleCompletes(PlainDevices(1, 1), PlainDevices(2, MAX_DEVICES))
    ensures CycleCompletes(PlainDevices(1, 1), PlainDevices(2, MAX_DEVICES - 1))
  {
    hide CycleCompletes, PlainDevices;
    TurnoverCompletesIff(PlainDevices(1, 1), PlainDevices(2, MAX_DEVICES));
    TurnoverCompletesIff(PlainDevices(1, 1), PlainDevices(2, MAX_DEVICES - 1));
  }

  // ---------------------------------------------------------------------------------------------
  // Runs
  // ---------------------------------------------------------------------------------------------

  /** The cache before cycle `k`. */
  function CacheAt(snapshots: seq<seq<Device>>, k: nat): seq<Device>
    requires k <= |snapshots|
  {
    if k == 0 then [] else Active(snapshots[k - 1])
  }

  /** The retained view before cycle `k`, each cycle having been drained. */
  function ViewAt(view: View, snapshots: seq<seq<Device>>, k: nat): View
    requires k <= |snapshots|
  {
    if k == 0 then view
    else Publish(ViewAt(view, snapshots, k - 1), Queued(Plan(CacheAt(snapshots, k - 1), CacheAt(snapshots, k))))
  }

  /** Over any run of drained cycles of distinct, bounded snapshots, the retained view follows the snapshots, provided
      the bridge started on a broker that showed no device as online. */
  lemma {:induction false} ViewFollowsSnapshots(view: View, snapshots: seq<seq<Device>>, k: nat)
    requires k <= |snapshots| && Agrees(view, [])
    requires forall i | 0 <= i < |snapshots| :: DistinctAddresses(Active(snapshots[i]))
    requires forall i | 0 <= i < |snapshots| ::
               |Addresses(CacheAt(snapshots, i)) + Addresses(CacheAt(snapshots, i + 1))| <= MAX_DEVICES
    ensures Agrees(ViewAt(view, snapshots, k), CacheAt(snapshots, k))
  {
    hide Agrees, Plan, Publish, DistinctAddresses, Active, Addresses;
    if k > 0 {
      ViewFollowsSnapshots(view, snapshots, k - 1);
      EmptyIsDistinct();
      assert DistinctAddresses(CacheAt(snapshots, k - 1)) && DistinctAddresses(CacheAt(snapshots, k));
      PlanFits(CacheAt(snapshots, k - 1), CacheAt(snapshots, k));
      DeltaEqualsFull(ViewAt(view, snapshots, k - 1), CacheAt(snapshots, k - 1), CacheAt(snapshots, k));
    }
  }

  lemma EmptyIsDistinct()
    ensures DistinctAddresses([])
  {
  }

  // ---------------------------------------------------------------------------------------------
  // What the broker shows, in plain values
  // ---------------------------------------------------------------------------------------------

  /** An optional number shows a reading: the reading itself when present, nothing otherwise. */
  predicate ShowsReading(shown: Option<int>, s: Sensor) {
    (shown.Some? <==> s.present) && (shown.Some? ==> shown.value == s.value)
  }

  /** Whole degrees and hundredths, the latter without sign, of a temperature in hundredths. */
  predicate ShowsTemperature(shown: Option<Degrees>, s: Sensor) {
    && (shown.Some? <==> s.present)
    && (shown.Some? ==>
          && shown.value.hundredths < 100
          && (s.value >= 0 ==> s.value == shown.value.whole * 100 + shown.value.hundredths)
          && (s.value < 0 ==> s.value == shown.value.whole * 100 - shown.value.hundredths && shown.value.whole <= 0))
  }

  /** The view shows of device `d` exactly what its record holds, at the three topics of its address. */
  ghost predicate ShowsValues(view: View, d: Device) {
    var availability, state := Topic(AvailabilityTopic, d.shortAddr), Topic(StateTopic, d.shortAddr);
    var telemetry := Topic(TelemetryTopic, d.shortAddr);
    && availability in view && view[availability] == Availability(true)
    && state in view && view[state] == PowerState(d.powerOn)
    && telemetry in view && view[telemetry].Readings?
    && ShowsTemperature(view[telemetry].temperature, d.telemetry.temperatureCentiC)
    && view[telemetry].occupancy == d.telemetry.occupancy
    && view[telemetry].contact.state == d.telemetry.contact.state
    && view[telemetry].contact.tamper == d.telemetry.contact.tamper
    && view[telemetry].contact.batteryLow == d.telemetry.contact.batteryLow
    && ShowsReading(view[telemetry].batteryPercent, d.telemetry.batteryPercent)
    && ShowsReading(view[telemetry].batteryVoltageMv, d.telemetry.batteryVoltageMv)
    && ShowsReading(view[telemetry].lqi, d.telemetry.lqi)
    && ShowsReading(view[telemetry].rssiDbm, d.telemetry.rssiDbm)
    && view[telemetry].stale == d.stale
    && view[telemetry].timestampMs == d.lastReportAtMs
  }

  lemma ShownInValues(view: View, d: Device)
    requires Shows(view, d)
    ensures ShowsValues(view, d)
  {
    PrintedValue(d.telemetry.temperatureCentiC.value);
  }

  /** Over any run of drained cycles: the broker shows each device of the latest snapshot that is online with its own
      power state and its own readings, and any other device it knows of as offline. */
  lemma BrokerShowsDevices(view: View, snapshots: seq<seq<Device>>, k: nat)
    requires 0 < k <= |snapshots| && Agrees(view, [])
    requires forall i | 0 <= i < |snapshots| :: DistinctAddresses(Active(snapshots[i]))
    requires forall i | 0 <= i < |snapshots| ::
               |Addresses(CacheAt(snapshots, i)) + Addresses(CacheAt(snapshots, i + 1))| <= MAX_DEVICES
    ensures var after := ViewAt(view, snapshots, k);
            && (forall d | d in snapshots[k - 1] && d.online && d.shortAddr != UNKNOWN_SHORT_ADDR :: ShowsValues(after, d))
            && (forall s: u16 | Topic(AvailabilityTopic, s) in after
                                && (forall d | d in snapshots[k - 1] && d.online :: d.shortAddr != s) ::
                  after[Topic(AvailabilityTopic, s)] == Availability(false))
  {
    ViewFollowsSnapshots(view, snapshots, k);
    hide ViewAt, ShowsValues, Active, Find, Shows, DistinctAddresses, Addresses;
    var after, active := ViewAt(view, snapshots, k), Active(snapshots[k - 1]);
    forall d | d in snapshots[k - 1] && d.online && d.shortAddr != UNKNOWN_SHORT_ADDR ensures ShowsValues(after, d) {
      assert d in active;
      ShownInCache(after, active, d);
      ShownInValues(after, d);
    }
  }
}
