/** The reducer is a step on a finite map: slots, scan order and counters are implementation. */
module ReducerRefinement {
  import opened Common
  import opened CoreTypes
  import opened Reducer
  import opened DeviceMap
  import opened ReducerInvariant

  /** The gateway as its users see it; the device count is the size of the registry. */
  datatype Gateway = Gateway(
    revision: nat,
    networkConnected: bool,
    lastCommandStatus: u8,
    registry: map<DeviceKey, DeviceRecord>)

  ghost function Abstract(s: CoreState): Gateway {
    Gateway(s.revision, s.networkConnected, s.lastCommandStatus, View(s.devices))
  }

  function NewRecord(e: CoreEvent): DeviceRecord {
    DEFAULT_RECORD.(deviceId := e.deviceId, shortAddr := e.shortAddr, online := true)
  }

  /** The announcement of a new registry content: persist it under its revision and publish its size. */
  function Announce(g: Gateway): seq<CoreEffect> {
    [CoreEffect(PersistState, NO_CORRELATION_ID, UNKNOWN_SHORT_ADDR, g.revision, g.networkConnected),
     CoreEffect(PublishTelemetry, NO_CORRELATION_ID, UNKNOWN_SHORT_ADDR, |g.registry|, g.networkConnected)]
  }

  function WithRegistry(g: Gateway, m: map<DeviceKey, DeviceRecord>): Gateway {
    g.(registry := m, revision := g.revision + 1)
  }

  /** A step that leaves the registry and the revision alone announces nothing. */
  function Commit(g: Gateway, m: map<DeviceKey, DeviceRecord>, followUp: seq<CoreEffect>): (Gateway, seq<CoreEffect>) {
    if m == g.registry then (g, []) else (WithRegistry(g, m), Announce(WithRegistry(g, m)) + followUp)
  }

  /** The specification: join inserts (while there is room) or relocates, leave removes, every other device
      event rewrites the record under its key. */
  function Step(g: Gateway, e: CoreEvent): (Gateway, seq<CoreEffect>) {
    if IsCommandRequest(e.kind) then
      (g, [if e.kind == CommandSetDevicePowerRequested
           then CoreEffect(SendZigbeeOnOff, e.correlationId, e.shortAddr, 0, e.valueBool)
           else CoreEffect(RefreshNetwork, e.correlationId, UNKNOWN_SHORT_ADDR, 0, false)])
    else if IsCommandResult(e.kind) then
      (g.(lastCommandStatus := CommandStatus(e.kind), revision := g.revision + 1),
       [CoreEffect(EmitCommandResult, e.correlationId, e.shortAddr, CommandStatus(e.kind),
                   e.kind == CommandResultSuccess)])
    else if e.kind == NetworkUp || e.kind == NetworkDown then
      var g' := g.(networkConnected := e.kind == NetworkUp);
      if g' == g then (g, []) else (g'.(revision := g.revision + 1), Announce(g'.(revision := g.revision + 1)))
    else if EventKey(e).None? || e.kind == EvUnknown then (g, [])
    else StepDevice(g, EventKey(e).value, e)
  }

  function StepDevice(g: Gateway, k: DeviceKey, e: CoreEvent): (Gateway, seq<CoreEffect>) {
    var m := g.registry;
    if e.kind == DeviceJoined && k !in m then
      if |m| < MAX_DEVICES then Commit(g, m[k := NewRecord(e)], [SimpleEffect(ZigbeeInterview, e.shortAddr)])
      else (g, [])
    else if k !in m then (g, [])
    else if e.kind == DeviceJoined then Commit(g, m[k := m[k].(shortAddr := e.shortAddr)], [])
    else if e.kind == DeviceLeft then Commit(g, m - {k}, [])
    else Commit(g, m[k := Updated(m[k], e)], FollowUp(e))
  }

  /** Writing an entry changes a map exactly when the entry changes. */
  lemma EntryChangeIsVisible(m: map<DeviceKey, DeviceRecord>, k: DeviceKey, r: DeviceRecord)
    requires k in m
    ensures m[k := r] == m <==> r == m[k]
  {
    assert m[k := r][k] == r;
  }

  /** A concrete change that installs registry `m` is the abstract commit of `m`. */
  lemma CommitRefines(s: CoreState, n: CoreState, m: map<DeviceKey, DeviceRecord>, followUp: seq<CoreEffect>)
    requires Inv(s) && Inv(n) && View(n.devices) == m && m != View(s.devices)
    requires n == s.(devices := n.devices, deviceCount := n.deviceCount, revision := s.revision + 1)
    ensures (Abstract(n), PersistAndTelemetry(s.revision, n.deviceCount, n.networkConnected) + followUp)
         == Commit(Abstract(s), m, followUp)
    ensures followUp == [] ==>
              (Abstract(n), PersistAndTelemetry(s.revision, n.deviceCount, n.networkConnected))
              == Commit(Abstract(s), m, followUp)
  {
    hide View, SlotsInUse, OnlineSlots, AtMostOneRecordPerKey;
    InvMeaning(n);
    var effects := PersistAndTelemetry(s.revision, n.deviceCount, n.networkConnected);
    assert effects == Announce(WithRegistry(Abstract(s), m));
    assert effects + [] == effects;
  }

  lemma {:induction false} JoinRefines(s: CoreState, e: CoreEvent)
    requires Inv(s) && e.kind == DeviceJoined && EventKey(e).Some?
    ensures (Abstract(Reduce(s, e).0), Reduce(s, e).1) == StepDevice(Abstract(s), EventKey(e).value, e)
  {
    hide View, SlotsInUse, OnlineSlots, AtMostOneRecordPerKey;
    JoinKeepsInv(s, e);
    InvMeaning(s);
    var d := s.devices;
    var n := Reduce(s, e).0;
    var i := FirstMatch(d, e.deviceId, e.shortAddr);
    FirstMatchIsLookup(d, e);
    FreeSlotIffRoom(d);
    if i >= 0 {
      var r := d[i].(shortAddr := e.shortAddr);
      Rewriting(d, i, r);
      EntryChangeIsVisible(View(d), KeyOf(r), r);
      if r != d[i] {
        CommitRefines(s, n, View(d)[KeyOf(r) := r], []);
      }
    } else if FirstFree(d) >= 0 {
      Insertion(d, e);
      CommitRefines(s, n, View(d)[EventKey(e).value := NewRecord(e)], [SimpleEffect(ZigbeeInterview, e.shortAddr)]);
    }
  }

  lemma LeaveRefines(s: CoreState, e: CoreEvent)
    requires Inv(s) && e.kind == DeviceLeft && EventKey(e).Some?
    ensures (Abstract(Reduce(s, e).0), Reduce(s, e).1) == StepDevice(Abstract(s), EventKey(e).value, e)
  {
    hide View, SlotsInUse, OnlineSlots, AtMostOneRecordPerKey;
    LeaveKeepsInv(s, e);
    var d := s.devices;
    var i := FirstMatch(d, e.deviceId, e.shortAddr);
    FirstMatchIsLookup(d, e);
    if i >= 0 {
      Removal(d, i);
      var m := View(d) - {KeyOf(d[i])};
      assert KeyOf(d[i]) in View(d) && KeyOf(d[i]) !in m;
      CommitRefines(s, Reduce(s, e).0, m, []);
    }
  }

  lemma {:induction false} InPlaceRefines(s: CoreState, e: CoreEvent)
    requires Inv(s) && EventKey(e).Some?
    requires e.kind == AttributeReported || e.kind == DeviceTelemetryUpdated || IsPipeline(e.kind)
    ensures (Abstract(Reduce(s, e).0), Reduce(s, e).1) == StepDevice(Abstract(s), EventKey(e).value, e)
  {
    hide View, SlotsInUse, AtMostOneRecordPerKey;
    InPlaceKeepsInv(s, e);
    var d := s.devices;
    var i := FirstMatch(d, e.deviceId, e.shortAddr);
    FirstMatchIsLookup(d, e);
    if i >= 0 {
      var r := Updated(d[i], e);
      UpdatedKeepsKey(d[i], e);
      Rewriting(d, i, r);
      EntryChangeIsVisible(View(d), KeyOf(r), r);
      if r != d[i] {
        CommitRefines(s, Reduce(s, e).0, View(d)[KeyOf(r) := r], FollowUp(e));
      }
    }
  }

  /** An event that names no key finds nothing and, if it is about a device, changes nothing. */
  lemma UnaddressedChangesNothing(s: CoreState, e: CoreEvent)
    requires s.WellFormed() && EventKey(e).None?
    requires e.kind == DeviceJoined || e.kind == DeviceLeft || e.kind == AttributeReported
             || e.kind == DeviceTelemetryUpdated || IsPipeline(e.kind)
    ensures Reduce(s, e) == (s, []) && Step(Abstract(s), e) == (Abstract(s), [])
  {
    hide View, SlotsInUse, OnlineSlots;
    assert FirstMatch(s.devices, e.deviceId, e.shortAddr) == -1;
  }

  lemma {:induction false} OthersRefine(s: CoreState, e: CoreEvent)
    requires Inv(s)
    requires EventKey(e).None? || e.kind == EvUnknown || e.kind == NetworkUp || e.kind == NetworkDown
             || IsCommandRequest(e.kind) || IsCommandResult(e.kind)
    ensures (Abstract(Reduce(s, e).0), Reduce(s, e).1) == Step(Abstract(s), e)
  {
    hide View, SlotsInUse, OnlineSlots, AtMostOneRecordPerKey;
    InvMeaning(s);
    if e.kind == EvUnknown || e.kind == NetworkUp || e.kind == NetworkDown || IsCommandRequest(e.kind)
       || IsCommandResult(e.kind) {
      hide ReduceJoin, ReduceLeave, ReduceInPlace, FirstMatch;
    } else {
      hide Reduce, Step, Inv;
      UnaddressedChangesNothing(s, e);
    }
  }

  /** The reducer refines the map specification, state and effects alike, on every reachable state. */
  lemma ReduceRefinesStep(s: CoreState, e: CoreEvent)
    requires Inv(s)
    ensures Inv(Reduce(s, e).0)
    ensures (Abstract(Reduce(s, e).0), Reduce(s, e).1) == Step(Abstract(s), e)
    ensures s.deviceCount == |Abstract(s).registry|
  {
    ReduceKeepsInv(s, e);
    InvMeaning(s);
    if EventKey(e).None? || e.kind == EvUnknown || e.kind == NetworkUp || e.kind == NetworkDown
       || IsCommandRequest(e.kind) || IsCommandResult(e.kind) {
      OthersRefine(s, e);
    } else if e.kind == DeviceJoined {
      JoinRefines(s, e);
    } else if e.kind == DeviceLeft {
      LeaveRefines(s, e);
    } else {
      InPlaceRefines(s, e);
    }
  }

  /** A whole run of the specification: final state and every effect, in order. */
  function StepAll(g: Gateway, events: seq<CoreEvent>): (Gateway, seq<CoreEffect>) {
    if events == [] then (g, [])
    else
      var (before, effects) := StepAll(g, events[..|events| - 1]);
      var (after, more) := Step(before, events[|events| - 1]);
      (after, effects + more)
  }

  function ReduceAll(s: CoreState, events: seq<CoreEvent>): (r: CoreState)
    requires s.WellFormed()
    ensures r.WellFormed()
  {
    if events == [] then s else Reduce(ReduceAll(s, events[..|events| - 1]), events[|events| - 1]).0
  }

  function EffectsOf(s: CoreState, events: seq<CoreEvent>): seq<CoreEffect>
    requires s.WellFormed()
  {
    if events == [] then []
    else
      var n := |events| - 1;
      EffectsOf(s, events[..n]) + Reduce(ReduceAll(s, events[..n]), events[n]).1
  }

  /** Whole runs: final map and every effect are those of the specification, so two states with the same
      map stay indistinguishable however their slots are laid out. */
  lemma {:induction false} LayoutIsInvisible(s: CoreState, t: CoreState, events: seq<CoreEvent>)
    requires Inv(s) && Inv(t) && Abstract(s) == Abstract(t)
    ensures Inv(ReduceAll(s, events)) && Inv(ReduceAll(t, events))
    ensures (Abstract(ReduceAll(s, events)), EffectsOf(s, events)) == StepAll(Abstract(s), events)
    ensures (Abstract(ReduceAll(t, events)), EffectsOf(t, events)) == StepAll(Abstract(s), events)
  {
    hide Step, Reduce, Abstract;
    if events != [] {
      var n := |events| - 1;
      LayoutIsInvisible(s, t, events[..n]);
      ReduceRefinesStep(ReduceAll(s, events[..n]), events[n]);
      ReduceRefinesStep(ReduceAll(t, events[..n]), events[n]);
    }
  }

  /** An event without a valid identity never changes a record that owns one, whatever the state. */
  lemma LegacyEventsCannotTouchIdentities(s: CoreState, e: CoreEvent, i: nat)
    requires s.WellFormed() && i < MAX_DEVICES
    requires !ValidId(e.deviceId) && ValidId(s.devices[i].deviceId)
    ensures Reduce(s, e).0.devices[i] == s.devices[i]
  {
  }

  /** And an event with a valid identity changes only the record that owns it, or a free slot. */
  lemma EventsTouchOnlyTheirKey(s: CoreState, e: CoreEvent, i: nat)
    requires Inv(s) && i < MAX_DEVICES && InUse(s.devices[i]) && EventKey(e) != Some(KeyOf(s.devices[i]))
    ensures Reduce(s, e).0.devices[i] == s.devices[i]
  {
  }
}
