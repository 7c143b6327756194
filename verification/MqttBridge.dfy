/** The device synchronisation of the MQTT bridge, on its fixed arrays. */
module MqttBridge {
  import opened Common
  import opened CoreTypes
  import opened MqttDelta

  const FILLER_DEVICE: Device := Device(UNKNOWN_SHORT_ADDR, false, false, false, 0, NO_TELEMETRY)
  const FILLER_PUBLICATION: Publication := Publication(Topic(AvailabilityTopic, 0), Availability(false))

  lemma FindFirst(devices: seq<Device>, i: nat)
    requires i < |devices| && forall j | 0 <= j < i :: devices[j].shortAddr != devices[i].shortAddr
    ensures Find(devices, devices[i].shortAddr) == Some(devices[i])
  {
    if i > 0 {
      FindFirst(devices[1..], i - 1);
    }
  }

  lemma QueuedStep(queued: seq<Publication>, plan: seq<Publication>, p: Publication)
    requires queued == Queued(plan)
    ensures Queued(plan + [p]) == if |queued| < MAX_PUBLICATIONS then queued + [p] else queued
  {
  }

  lemma NothingActive(cache: seq<Device>)
    ensures Active([]) == [] && Updates(cache, []) == []
  {
  }

  lemma ActiveStep(snapshot: seq<Device>, i: nat)
    requires i < |snapshot|
    ensures Active(snapshot[..i + 1]) == Active(snapshot[..i]) + if IsActive(snapshot[i]) then [snapshot[i]] else []
    ensures snapshot[..|snapshot|] == snapshot && snapshot[..0] == []
  {
    assert snapshot[..i + 1][..i] == snapshot[..i];
  }

  lemma UpdatesStep(cache: seq<Device>, active: seq<Device>, d: Device)
    ensures Updates(cache, active + [d]) == Updates(cache, active) + DeviceUpdate(Find(cache, d.shortAddr), d)
  {
    hide Find, DeviceUpdate;
    assert (active + [d])[..|active|] == active;
  }

  class MqttBridge {
    var started: bool
    const cached: array<Device>
    const scratch: array<Device>
    const pending: array<Publication>
    var cachedCount: nat
    var pendingCount: nat
    var cacheInitialized: bool

    ghost predicate Valid()
      reads this
    {
      && cached.Length == MAX_DEVICES && scratch.Length == MAX_DEVICES && pending.Length == MAX_PUBLICATIONS
      && cached != scratch
      && cachedCount <= MAX_DEVICES && pendingCount <= MAX_PUBLICATIONS
      && (!cacheInitialized ==> cachedCount == 0)
    }

    ghost function Cache(): seq<Device>
      requires Valid()
      reads this, cached
    {
      cached[..cachedCount]
    }

    ghost function Pending(): seq<Publication>
      requires Valid()
      reads this, pending
    {
      pending[..pendingCount]
    }

    constructor ()
      ensures Valid() && Cache() == [] && Pending() == [] && !started
      ensures fresh(cached) && fresh(scratch) && fresh(pending)
    {
      started, cacheInitialized, cachedCount, pendingCount := false, false, 0, 0;
      cached := new Device[MAX_DEVICES](_ => FILLER_DEVICE);
      scratch := new Device[MAX_DEVICES](_ => FILLER_DEVICE);
      pending := new Publication[MAX_PUBLICATIONS](_ => FILLER_PUBLICATION);
    }

    method FindByShort(devices: array<Device>, count: nat, shortAddr: u16) returns (r: Option<Device>)
      requires count <= devices.Length
      ensures r == Find(devices[..count], shortAddr)
    {
      var i := 0;
      while i < count
        invariant 0 <= i <= count
        invariant forall j | 0 <= j < i :: devices[j].shortAddr != shortAddr
      {
        if devices[i].shortAddr == shortAddr {
          FindFirst(devices[..count], i);
          return Some(devices[i]);
        }
        i := i + 1;
      }
      r := None;
    }

    /** `enqueue_publication`: refused when the queue is full, and the sync goes on. */
    method Enqueue(p: Publication, ghost plan: seq<Publication>)
      requires Valid() && Pending() == Queued(plan)
      modifies this`pendingCount, pending
      ensures Valid() && Pending() == Queued(plan + [p])
    {
      QueuedStep(Pending(), plan, p);
      if pendingCount >= MAX_PUBLICATIONS {
        return;
      }
      pending[pendingCount] := p;
      pendingCount := pendingCount + 1;
    }

    /** Queues what changed about one active device. */
    method EnqueueUpdate(previous: Option<Device>, current: Device, ghost plan: seq<Publication>)
      requires Valid() && Pending() == Queued(plan)
      modifies this`pendingCount, pending
      ensures Valid() && Pending() == Queued(plan + DeviceUpdate(previous, current))
    {
      hide Queued, TelemetryFieldsEqual;
      var publishAvailability, publishState, publishTelemetry := false, false, false;
      if previous == None {
        publishAvailability, publishState, publishTelemetry := true, true, true;
      } else {
        publishState := previous.value.powerOn != current.powerOn;
        publishTelemetry := !TelemetryFieldsEqual(previous.value, current);
      }
      ghost var queued := plan;
      if publishAvailability {
        Enqueue(AvailabilityOf(current.shortAddr, true), queued);
        queued := queued + [AvailabilityOf(current.shortAddr, true)];
      }
      if publishState {
        Enqueue(StateOf(current), queued);
        queued := queued + [StateOf(current)];
      }
      if publishTelemetry {
        Enqueue(TelemetryOf(current), queued);
        queued := queued + [TelemetryOf(current)];
      }
      assert queued == plan + DeviceUpdate(previous, current);
    }

    /** The first loop of `sync_snapshot`: collects the active devices in the scratch array and queues updates. */
    method CollectActive(snapshot: seq<Device>) returns (nextCount: nat)
      requires Valid() && |snapshot| <= MAX_DEVICES && pendingCount == 0
      modifies this`pendingCount, pending, scratch
      ensures Valid() && nextCount <= MAX_DEVICES
      ensures scratch[..nextCount] == Active(snapshot)
      ensures Pending() == Queued(Updates(Cache(), Active(snapshot)))
    {
      hide DeviceUpdate, Find, Queued, IsActive, Active, Updates;
      EmptyQueue();
      NothingActive(Cache());
      nextCount := 0;
      var i := 0;
      while i < |snapshot| && nextCount < MAX_DEVICES
        invariant Valid() && 0 <= i <= |snapshot| && nextCount <= i
        invariant scratch[..nextCount] == Active(snapshot[..i])
        invariant Pending() == Queued(Updates(Cache(), Active(snapshot[..i])))
      {
        var current := snapshot[i];
        ghost var before := Active(snapshot[..i]);
        ActiveStep(snapshot, i);
        if IsActive(current) {
          UpdatesStep(Cache(), before, current);
          scratch[nextCount] := current;
          nextCount := nextCount + 1;
          var previous := None;
          if cacheInitialized {
            previous := FindByShort(cached, cachedCount, current.shortAddr);
          }
          EnqueueUpdate(previous, current, Updates(Cache(), before));
        }
        i := i + 1;
      }
      assert snapshot[..|snapshot|] == snapshot;
    }

    lemma EmptyQueue()
      requires Valid() && pendingCount == 0
      ensures Pending() == Queued([])
    {
    }

    /** The second loop of `sync_snapshot`: announces the cached devices that are gone. */
    method AnnounceVanished(nextCount: nat, ghost plan: seq<Publication>)
      requires Valid() && nextCount <= MAX_DEVICES && Pending() == Queued(plan)
      modifies this`pendingCount, pending
      ensures Valid() && Pending() == Queued(plan + Vanished(Cache(), scratch[..nextCount]))
    {
      hide Find, Queued;
      ghost var active := scratch[..nextCount];
      var i := 0;
      assert plan + [] == plan;
      while i < cachedCount
        invariant Valid() && 0 <= i <= cachedCount
        invariant Pending() == Queued(plan + Vanished(cached[..i], active))
      {
        assert cached[..i + 1][..i] == cached[..i];
        ghost var queued := plan + Vanished(cached[..i], active);
        var shortAddr := cached[i].shortAddr;
        var still := FindByShort(scratch, nextCount, shortAddr);
        if still == None {
          Enqueue(AvailabilityOf(shortAddr, false), queued);
          assert queued + [AvailabilityOf(shortAddr, false)] == plan + Vanished(cached[..i + 1], active);
        } else {
          assert Vanished(cached[..i], active) + [] == Vanished(cached[..i], active);
        }
        i := i + 1;
      }
    }

    method SyncSnapshot(snapshot: seq<Device>) returns (count: nat)
      requires Valid() && |snapshot| <= MAX_DEVICES
      modifies this, pending, scratch, cached
      ensures Valid() && started == old(started)
      ensures !started ==> count == 0 && Cache() == old(Cache()) && Pending() == old(Pending())
      ensures started ==> Cache() == Active(snapshot) && count == |Pending()|
                          && Pending() == Queued(Plan(old(Cache()), Active(snapshot)))
    {
      hide Queued, Updates, Vanished, Active;
      if !started {
        return 0;
      }
      pendingCount := 0;
      var nextCount := CollectActive(snapshot);
      if cacheInitialized {
        AnnounceVanished(nextCount, Updates(Cache(), Active(snapshot)));
      } else {
        NothingCached(Active(snapshot));
      }
      forall i | 0 <= i < MAX_DEVICES {
        cached[i] := scratch[i];
      }
      assert cached[..nextCount] == scratch[..nextCount];
      cachedCount := nextCount;
      cacheInitialized := true;
      count := pendingCount;
    }

    lemma NothingCached(active: seq<Device>)
      ensures Updates([], active) + Vanished([], active) == Updates([], active)
    {
    }

    /** Hands out the oldest publications and keeps the rest in order. */
    method DrainPublications(out: array<Publication>, capacity: nat) returns (drained: nat)
      requires Valid() && capacity <= out.Length && out != pending
      modifies this`pendingCount, pending, out
      ensures Valid()
      ensures drained == if capacity < |old(Pending())| then capacity else |old(Pending())|
      ensures old(Pending()) == out[..drained] + Pending()
      ensures out[drained..] == old(out[drained..])
    {
      if capacity == 0 || pendingCount == 0 {
        return 0;
      }
      drained := if capacity < pendingCount then capacity else pendingCount;
      ghost var before := Pending();
      forall i | 0 <= i < drained {
        out[i] := pending[i];
      }
      assert before == out[..drained] + before[drained..];
      ShiftDown(drained);
    }

    /** Drops the first `drained` publications by moving the others to the front. */
    method ShiftDown(drained: nat)
      requires Valid() && drained <= pendingCount
      modifies this`pendingCount, pending
      ensures Valid() && Pending() == old(Pending())[drained..]
    {
      ghost var rest := Pending()[drained..];
      var remaining := pendingCount - drained;
      var i := 0;
      while i < remaining
        invariant 0 <= i <= remaining == pendingCount - drained
        invariant forall j | 0 <= j < i :: pending[j] == rest[j]
        invariant pending[i + drained..pendingCount] == rest[i..]
      {
        assert pending[i + drained..pendingCount][0] == rest[i..][0];
        pending[i] := pending[i + drained];
        i := i + 1;
      }
      pendingCount := remaining;
    }

    /** Drains in batches until nothing is pending, as the bridge's task does: what leaves is the whole queue, in
        order. */
    method DrainAll(batch: array<Publication>) returns (ghost sent: seq<Publication>)
      requires Valid() && batch.Length > 0 && batch != pending
      modifies this`pendingCount, pending, batch
      ensures Valid() && Pending() == [] && sent == old(Pending())
    {
      sent := [];
      while true
        invariant Valid() && sent + Pending() == old(Pending())
        decreases pendingCount
      {
        var n := DrainPublications(batch, batch.Length);
        if n == 0 {
          break;
        }
        Regroup(sent, batch[..n], Pending());
        sent := sent + batch[..n];
      }
      assert sent + [] == sent;
    }
  }
}
