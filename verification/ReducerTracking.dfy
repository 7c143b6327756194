/** What revisions and effects say about change. */
module ReducerTracking {
  import opened Common
  import opened CoreTypes
  import opened Reducer
  import opened DeviceMap
  import opened ReducerInvariant
  import opened ReducerRefinement

  /** The revision moves by one on every change and never otherwise. */
  lemma RevisionTracksChange(s: CoreState, e: CoreEvent)
    requires s.WellFormed()
    ensures var n := Reduce(s, e).0;
            if n == s then n.revision == s.revision else n.revision == s.revision + 1
  {
  }

  lemma {:induction false} RevisionsAreMonotone(s: CoreState, events: seq<CoreEvent>, i: nat, j: nat)
    requires s.WellFormed() && i <= j <= |events|
    ensures ReduceAll(s, events[..i]).revision <= ReduceAll(s, events[..j]).revision
    ensures ReduceAll(s, events[..i]).revision == ReduceAll(s, events[..j]).revision
            ==> ReduceAll(s, events[..i]) == ReduceAll(s, events[..j])
  {
    if i < j {
      RevisionsAreMonotone(s, events, i, j - 1);
      assert events[..j][..j - 1] == events[..j - 1];
      RevisionTracksChange(ReduceAll(s, events[..j - 1]), events[j - 1]);
    }
  }

  /** Along a run, a revision identifies a state. */
  lemma {:induction false} EqualRevisionsMeanEqualStates(s: CoreState, events: seq<CoreEvent>, i: nat, j: nat)
    requires s.WellFormed() && i <= |events| && j <= |events|
    requires ReduceAll(s, events[..i]).revision == ReduceAll(s, events[..j]).revision
    ensures ReduceAll(s, events[..i]) == ReduceAll(s, events[..j])
  {
    if i <= j {
      RevisionsAreMonotone(s, events, i, j);
    } else {
      RevisionsAreMonotone(s, events, j, i);
    }
  }

  predicate Emits(effects: seq<CoreEffect>, kind: EffectType) {
    exists k :: 0 <= k < |effects| && effects[k].kind == kind
  }

  /** The effects persist the new revision, exactly if devices or connectivity changed, and leave room in the
      four-effect list. */
  ghost predicate PersistsChange(s: CoreState, n: CoreState, effects: seq<CoreEffect>) {
    && |effects| < MAX_EFFECTS_PER_REDUCE
    && (Emits(effects, PersistState) <==> n.devices != s.devices || n.networkConnected != s.networkConnected)
    && (forall k | 0 <= k < |effects| && effects[k].kind == PersistState ::
          effects[k].argU32 == n.revision && effects[k].argBool == n.networkConnected)
  }

  lemma AnnouncementPersists(s: CoreState, n: CoreState, effects: seq<CoreEffect>, extra: seq<CoreEffect>)
    requires n.revision == s.revision + 1 && (n.devices != s.devices || n.networkConnected != s.networkConnected)
    requires effects == PersistAndTelemetry(s.revision, n.deviceCount, n.networkConnected) + extra
    requires |extra| <= 1 && (extra != [] ==> extra[0].kind != PersistState)
    ensures PersistsChange(s, n, effects)
  {
    assert effects[0].kind == PersistState;
  }

  lemma JoinPersists(s: CoreState, e: CoreEvent)
    requires s.WellFormed()
    ensures PersistsChange(s, ReduceJoin(s, e).0, ReduceJoin(s, e).1)
  {
    hide PersistsChange, PersistAndTelemetry, FirstMatch, FirstFree;
    var (n, effects) := ReduceJoin(s, e);
    if n == s {
      NothingPersisted(s);
    } else {
      var i := FirstMatch(s.devices, e.deviceId, e.shortAddr);
      var at := if i < 0 then FirstFree(s.devices) else i;
      assert n.devices[at] != s.devices[at];
      var relocated := i >= 0 && s.devices[i].online;
      var extra := if relocated then [] else [SimpleEffect(ZigbeeInterview, e.shortAddr)];
      var announced := PersistAndTelemetry(s.revision, n.deviceCount, n.networkConnected);
      assert announced + [] == announced;
      AnnouncementPersists(s, n, effects, extra);
    }
  }

  lemma NothingPersisted(s: CoreState)
    ensures PersistsChange(s, s, [])
  {
  }

  lemma LeavePersists(s: CoreState, e: CoreEvent)
    requires s.WellFormed()
    ensures PersistsChange(s, ReduceLeave(s, e).0, ReduceLeave(s, e).1)
  {
    hide PersistsChange, PersistAndTelemetry;
    var (n, effects) := ReduceLeave(s, e);
    var i := FirstMatch(s.devices, e.deviceId, e.shortAddr);
    if i < 0 {
      NothingPersisted(s);
    } else {
      assert n.devices[i] != s.devices[i];
      assert effects + [] == effects;
      AnnouncementPersists(s, n, effects, []);
    }
  }

  lemma InPlacePersists(s: CoreState, e: CoreEvent)
    requires s.WellFormed()
    ensures PersistsChange(s, ReduceInPlace(s, e).0, ReduceInPlace(s, e).1)
  {
    hide PersistsChange, PersistAndTelemetry, FirstMatch, Updated;
    var (n, effects) := ReduceInPlace(s, e);
    var i := FirstMatch(s.devices, e.deviceId, e.shortAddr);
    if i < 0 || Updated(s.devices[i], e) == s.devices[i] {
      NothingPersisted(s);
    } else {
      assert n.devices[i] != s.devices[i];
      AnnouncementPersists(s, n, effects, FollowUp(e));
    }
  }

  lemma NetworkPersists(s: CoreState, up: bool)
    ensures PersistsChange(s, ReduceNetwork(s, up).0, ReduceNetwork(s, up).1)
  {
    hide PersistsChange, PersistAndTelemetry;
    var (n, effects) := ReduceNetwork(s, up);
    if n == s {
      NothingPersisted(s);
    } else {
      assert effects + [] == effects;
      AnnouncementPersists(s, n, effects, []);
    }
  }

  lemma CommandsPersistNothing(s: CoreState, e: CoreEvent)
    requires s.WellFormed() && (IsCommandRequest(e.kind) || IsCommandResult(e.kind) || e.kind == EvUnknown)
    ensures PersistsChange(s, Reduce(s, e).0, Reduce(s, e).1)
  {
  }

  /** State is persisted exactly when devices or connectivity changed, always under the new revision, and
      no branch ever fills the four-effect list. */
  lemma PersistExactlyOnChange(s: CoreState, e: CoreEvent)
    requires s.WellFormed()
    ensures var (n, effects) := Reduce(s, e);
            && |effects| < MAX_EFFECTS_PER_REDUCE
            && (Emits(effects, PersistState) <==>
                 n.devices != s.devices || n.networkConnected != s.networkConnected)
            && (forall k | 0 <= k < |effects| && effects[k].kind == PersistState ::
                 effects[k].argU32 == n.revision && effects[k].argBool == n.networkConnected)
  {
    hide ReduceJoin, ReduceLeave, ReduceInPlace, ReduceNetwork, Emits;
    JoinPersists(s, e);
    LeavePersists(s, e);
    InPlacePersists(s, e);
    NetworkPersists(s, e.kind == NetworkUp);
    if IsCommandRequest(e.kind) || IsCommandResult(e.kind) || e.kind == EvUnknown {
      CommandsPersistNothing(s, e);
    }
  }

  lemma JoinTwice(s: CoreState, e: CoreEvent)
    requires Inv(s) && e.kind == DeviceJoined
    ensures Reduce(Reduce(s, e).0, e) == (Reduce(s, e).0, [])
  {
    var n := Reduce(s, e).0;
    JoinKeepsInv(s, e);
    FirstMatchIsLookup(s.devices, e);
    FirstMatchIsLookup(n.devices, e);
    FreeSlotIffRoom(s.devices);
    FreeSlotIffRoom(n.devices);
    var i := FirstMatch(s.devices, e.deviceId, e.shortAddr);
    var f := FirstFree(s.devices);
    var at := if i < 0 then f else i;
    if EventKey(e).Some? && at >= 0 {
      assert Matches(n.devices[at], e.deviceId, e.shortAddr);
      ViewOfSlot(n.devices, at);
    }
  }

  lemma LeaveTwice(s: CoreState, e: CoreEvent)
    requires Inv(s) && e.kind == DeviceLeft
    ensures Reduce(Reduce(s, e).0, e) == (Reduce(s, e).0, [])
  {
    FirstMatchIsLookup(s.devices, e);
    var i := FirstMatch(s.devices, e.deviceId, e.shortAddr);
    if i >= 0 {
      ViewAfterRemove(s.devices, i, DEFAULT_RECORD);
      FirstMatchIsLookup(s.devices[i := DEFAULT_RECORD], e);
    }
  }

  lemma ReadingTwice(t: Telemetry, kind: TelemetryKind, valid: bool, x: i32)
    ensures WithReading(WithReading(t, kind, valid, x), kind, valid, x) == WithReading(t, kind, valid, x)
  {
  }

  lemma UpdatedTwice(r: DeviceRecord, e: CoreEvent)
    ensures Updated(Updated(r, e), e) == Updated(r, e)
  {
    ReadingTwice(r.telemetry, e.telemetryKind, e.telemetryValid, e.telemetryI32);
  }

  lemma InPlaceTwice(s: CoreState, e: CoreEvent)
    requires Inv(s)
    ensures ReduceInPlace(ReduceInPlace(s, e).0, e) == (ReduceInPlace(s, e).0, [])
  {
    hide View, Updated, SlotsInUse, OnlineSlots;
    FirstMatchIsLookup(s.devices, e);
    var i := FirstMatch(s.devices, e.deviceId, e.shortAddr);
    if i >= 0 {
      var r := s.devices[i];
      UpdatedKeepsKey(r, e);
      UpdatedTwice(r, e);
      var d' := s.devices[i := Updated(r, e)];
      ViewAfterUpdate(s.devices, i, Updated(r, e));
      FirstMatchIsLookup(d', e);
      ViewOfSlot(d', i);
      assert FirstMatch(d', e.deviceId, e.shortAddr) == i;
    }
  }

  /** A repeated event is absorbed: nothing changes and nothing is emitted, command traffic aside. */
  lemma RepeatsAreAbsorbed(s: CoreState, e: CoreEvent)
    requires Inv(s) && !IsCommandResult(e.kind)
    ensures Reduce(Reduce(s, e).0, e).0 == Reduce(s, e).0
    ensures !IsCommandRequest(e.kind) ==> Reduce(Reduce(s, e).0, e).1 == []
  {
    if e.kind == DeviceJoined {
      JoinTwice(s, e);
    } else if e.kind == DeviceLeft {
      LeaveTwice(s, e);
    } else {
      InPlaceTwice(s, e);
    }
  }
}
