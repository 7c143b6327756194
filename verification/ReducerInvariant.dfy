/** What every reachable core state satisfies. */
module ReducerInvariant {
  import opened Common
  import opened Counting
  import opened CoreTypes
  import opened Reducer
  import opened DeviceMap

  /** A free slot holds the default record, a slot in use is online, and no key has two records. */
  ghost predicate WellKept(d: seq<DeviceRecord>) {
    && (forall i | 0 <= i < |d| :: if InUse(d[i]) then d[i].online else d[i] == DEFAULT_RECORD)
    && AtMostOneRecordPerKey(d)
  }

  /** The invariant the firmware's counters rely on but never state: above all, a record in use is online. */
  ghost predicate Inv(s: CoreState) {
    s.WellFormed() && WellKept(s.devices) && s.deviceCount == |SlotsInUse(s.devices)|
  }

  /** The same facts in the terms of the three counts and the two uniqueness rules. */
  lemma InvMeaning(s: CoreState)
    requires Inv(s)
    ensures s.deviceCount == |OnlineSlots(s.devices)| == |SlotsInUse(s.devices)| == |View(s.devices)| <= MAX_DEVICES
    ensures forall i, j | 0 <= i < j < MAX_DEVICES && ValidId(s.devices[i].deviceId) ::
              s.devices[i].deviceId != s.devices[j].deviceId
    ensures forall i, j | 0 <= i < j < MAX_DEVICES && !ValidId(s.devices[i].deviceId) && !ValidId(s.devices[j].deviceId)
                          && s.devices[i].shortAddr == s.devices[j].shortAddr ::
              s.devices[i] == s.devices[j] == DEFAULT_RECORD
  {
    assert OnlineSlots(s.devices) == SlotsInUse(s.devices);
    ViewSize(s.devices);
    FreeSlotIffRoom(s.devices);
    forall i, j | 0 <= i < j < MAX_DEVICES && ValidId(s.devices[i].deviceId)
      ensures s.devices[i].deviceId != s.devices[j].deviceId
    {
      assert InUse(s.devices[i]);
    }
    forall i, j | 0 <= i < j < MAX_DEVICES && !ValidId(s.devices[i].deviceId) && !ValidId(s.devices[j].deviceId)
                  && s.devices[i].shortAddr == s.devices[j].shortAddr
      ensures s.devices[i] == s.devices[j] == DEFAULT_RECORD
    {
      assert InUse(s.devices[i]) <==> InUse(s.devices[j]);
    }
  }

  lemma EmptyStateInv()
    ensures Inv(EMPTY_STATE)
  {
    assert SlotsInUse(EMPTY_STATE.devices) == {};
  }

  lemma UpdatedKeepsKey(r: DeviceRecord, e: CoreEvent)
    ensures KeyOf(Updated(r, e)) == KeyOf(r) && (InUse(Updated(r, e)) <==> InUse(r))
    ensures r.online ==> Updated(r, e).online
  {
  }

  /** What a first join, a relocation and a leave do to the array, in one place each. */
  lemma Insertion(d: seq<DeviceRecord>, e: CoreEvent)
    requires WellKept(d) && EventKey(e).Some? && EventKey(e).value !in View(d) && FirstFree(d) >= 0
    ensures var f := FirstFree(d);
            var d' := d[f := Joined(d[f], e)];
            && WellKept(d') && View(d') == View(d)[EventKey(e).value := Joined(DEFAULT_RECORD, e)]
            && |SlotsInUse(d')| == |SlotsInUse(d)| + 1
  {
    var f := FirstFree(d);
    ViewAfterInsert(d, f, Joined(d[f], e));
  }

  lemma Rewriting(d: seq<DeviceRecord>, i: nat, r: DeviceRecord)
    requires WellKept(d) && i < |d| && InUse(d[i]) && InUse(r) && r.online && KeyOf(r) == KeyOf(d[i])
    ensures WellKept(d[i := r]) && View(d[i := r]) == View(d)[KeyOf(r) := r]
    ensures |SlotsInUse(d[i := r])| == |SlotsInUse(d)|
  {
    ViewAfterUpdate(d, i, r);
  }

  lemma Removal(d: seq<DeviceRecord>, i: nat)
    requires WellKept(d) && i < |d| && InUse(d[i])
    ensures var d' := d[i := DEFAULT_RECORD];
            && WellKept(d') && View(d') == View(d) - {KeyOf(d[i])} && |SlotsInUse(d')| == |SlotsInUse(d)| - 1
  {
    ViewAfterRemove(d, i, DEFAULT_RECORD);
    assert i in SlotsInUse(d);
  }

  lemma JoinKeepsInv(s: CoreState, e: CoreEvent)
    requires Inv(s) && e.kind == DeviceJoined
    ensures Inv(Reduce(s, e).0)
  {
    var d := s.devices;
    var i := FirstMatch(d, e.deviceId, e.shortAddr);
    FirstMatchIsLookup(d, e);
    FreeSlotIffRoom(d);
    if EventKey(e).None? {
    } else if i >= 0 {
      Rewriting(d, i, d[i].(shortAddr := e.shortAddr));
    } else if FirstFree(d) >= 0 {
      Insertion(d, e);
    }
  }

  lemma LeaveKeepsInv(s: CoreState, e: CoreEvent)
    requires Inv(s) && e.kind == DeviceLeft
    ensures Inv(Reduce(s, e).0)
  {
    var i := FirstMatch(s.devices, e.deviceId, e.shortAddr);
    FirstMatchIsLookup(s.devices, e);
    if i >= 0 {
      Removal(s.devices, i);
    }
  }

  lemma InPlaceKeepsInv(s: CoreState, e: CoreEvent)
    requires Inv(s)
    ensures Inv(ReduceInPlace(s, e).0)
  {
    var d := s.devices;
    var i := FirstMatch(d, e.deviceId, e.shortAddr);
    FirstMatchIsLookup(d, e);
    if i >= 0 {
      UpdatedKeepsKey(d[i], e);
      Rewriting(d, i, Updated(d[i], e));
    }
  }

  lemma ReduceKeepsInv(s: CoreState, e: CoreEvent)
    requires Inv(s)
    ensures Inv(Reduce(s, e).0)
  {
    if e.kind == DeviceJoined {
      JoinKeepsInv(s, e);
    } else if e.kind == DeviceLeft {
      LeaveKeepsInv(s, e);
    } else {
      InPlaceKeepsInv(s, e);
    }
  }

  /** What a restart makes of a persisted state before publishing it again. */
  function Sanitized(s: CoreState): CoreState {
    s.(networkConnected := false, lastCommandStatus := 0)
  }

  /** One step of the state's life: an event, or a restart that restores what was persisted, the state after the
      first `persistedAt` steps, under a revision of its own. */
  datatype LifeStep = Event(e: CoreEvent) | Restart(persistedAt: nat, revision: nat)

  /** The state after the first `k` steps; a restart can only restore a state from its own past. */
  ghost function After(s: CoreState, steps: seq<LifeStep>, k: nat): (r: CoreState)
    requires s.WellFormed() && k <= |steps|
    ensures r.WellFormed()
    decreases k
  {
    if k == 0 then s
    else
      match steps[k - 1]
      case Event(e) => Reduce(After(s, steps, k - 1), e).0
      case Restart(persistedAt, revision) =>
        Sanitized(After(s, steps, if persistedAt < k then persistedAt else k - 1)).(revision := revision)
  }

  /** In every state reachable from the empty one, through events and restarts from any state persisted earlier, the
      invariant holds. */
  lemma {:induction false} ReachableInv(steps: seq<LifeStep>, k: nat)
    requires k <= |steps|
    ensures Inv(After(EMPTY_STATE, steps, k))
    decreases k
  {
    if k == 0 {
      EmptyStateInv();
    } else {
      match steps[k - 1]
      case Event(e) =>
        ReachableInv(steps, k - 1);
        ReduceKeepsInv(After(EMPTY_STATE, steps, k - 1), e);
      case Restart(persistedAt, revision) =>
        ReachableInv(steps, if persistedAt < k then persistedAt else k - 1);
    }
  }
}
