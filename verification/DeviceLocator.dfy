/** The locator registry: which network address each device currently answers to, and the reverse. */
module DeviceLocator {
  import opened Common
  import opened Counting
  import opened CoreTypes
  import opened Slots

  datatype Locator = Locator(deviceId: DeviceId, shortAddr: u16, online: bool, revision: nat)

  datatype RemapResult = Inserted | Updated | Displaced | InvalidArgument | NoCapacity

  type Directory = map<DeviceId, Locator>

  function IdOf(l: Locator): DeviceId {
    l.deviceId
  }

  predicate Owns(l: Locator, shortAddr: u16) {
    l.online && l.shortAddr == shortAddr
  }

  ghost predicate WellKeyed(d: Directory) {
    forall id | id in d :: d[id].deviceId == id && ValidId(id) && d[id].shortAddr != UNKNOWN_SHORT_ADDR
  }

  /** Every revision was handed out once, and is below the next one. */
  ghost predicate FreshRevisions(d: Directory, nextRevision: nat) {
    && (forall id | id in d :: 1 <= d[id].revision < nextRevision)
    && (forall a, b | a in d && b in d && a != b :: d[a].revision != d[b].revision)
  }

  /** Online entries are injective in the address. */
  ghost predicate OneOwner(d: Directory) {
    forall a, b | a in d && b in d && a != b && d[a].online && d[b].online :: d[a].shortAddr != d[b].shortAddr
  }

  ghost predicate Sane(d: Directory, nextRevision: nat) {
    |d| <= MAX_DEVICES && WellKeyed(d) && FreshRevisions(d, nextRevision) && OneOwner(d)
  }

  // ---------------------------------------------------------------------------------------------
  // The operations on the directory
  // ---------------------------------------------------------------------------------------------

  ghost predicate Taken(d: Directory, id: DeviceId, shortAddr: u16) {
    exists other :: other in d && other != id && Owns(d[other], shortAddr)
  }

  ghost function RemapVerdict(d: Directory, id: DeviceId, shortAddr: u16): RemapResult {
    if !ValidId(id) || shortAddr == UNKNOWN_SHORT_ADDR then InvalidArgument
    else if id !in d && |d| >= MAX_DEVICES then NoCapacity
    else if Taken(d, id, shortAddr) then Displaced
    else if id in d then Updated
    else Inserted
  }

  predicate Succeeded(r: RemapResult) {
    r != InvalidArgument && r != NoCapacity
  }

  /** `id` becomes the online owner of the address; any other owner goes offline and keeps all else. */
  function Remapped(d: Directory, id: DeviceId, shortAddr: u16, revision: nat): Directory {
    (map k | k in d :: if k != id && Owns(d[k], shortAddr) then d[k].(online := false) else d[k])
    [id := Locator(id, shortAddr, true, revision)]
  }

  function MarkedOffline(d: Directory, id: DeviceId): Directory {
    if id in d then d[id := d[id].(online := false)] else d
  }

  class DeviceLocatorRegistry {
    const entries: array<Option<Locator>>
    var count: nat
    var nextRevision: nat

    ghost predicate Valid()
      reads this, entries
    {
      && entries.Length == MAX_DEVICES
      && DistinctKeys(entries[..], IdOf)
      && Sane(Directory(), nextRevision)
      && count == |Directory()| && nextRevision >= 1
    }

    ghost function Directory(): Directory
      reads this, entries
    {
      View(entries[..], IdOf)
    }

    constructor ()
      ensures Valid() && fresh(entries) && Directory() == map[] && nextRevision == 1
    {
      entries := new Option<Locator>[MAX_DEVICES](_ => None);
      count, nextRevision := 0, 1;
      new;
      assert View(entries[..], IdOf) == map[];
    }

    method FindSlotByDeviceId(id: DeviceId) returns (slot: int)
      requires entries.Length == MAX_DEVICES && DistinctKeys(entries[..], IdOf)
      ensures slot == -1 <==> id !in Directory()
      ensures slot != -1 ==> 0 <= slot < MAX_DEVICES && entries[slot].Some? && entries[slot].value == Directory()[id]
                             && entries[slot].value.deviceId == id
    {
      hide View;
      var i := 0;
      while i < MAX_DEVICES
        invariant 0 <= i <= MAX_DEVICES
        invariant forall j | 0 <= j < i && entries[j].Some? :: IdOf(entries[j].value) != id
      {
        if entries[i].Some? && entries[i].value.deviceId == id {
          ViewAt(entries[..], IdOf, i);
          return i;
        }
        i := i + 1;
      }
      ViewLacks(entries[..], IdOf, id);
      slot := -1;
    }

    /** Only an online entry can own an address. */
    method FindSlotByShortAddr(shortAddr: u16) returns (slot: int)
      requires entries.Length == MAX_DEVICES && DistinctKeys(entries[..], IdOf)
      ensures slot == -1 <==> forall id | id in Directory() :: !Owns(Directory()[id], shortAddr)
      ensures slot != -1 ==> 0 <= slot < MAX_DEVICES && entries[slot].Some? && Owns(entries[slot].value, shortAddr)
                             && entries[slot].value.deviceId in Directory()
                             && Directory()[entries[slot].value.deviceId] == entries[slot].value
    {
      hide View;
      var i := 0;
      while i < MAX_DEVICES
        invariant 0 <= i <= MAX_DEVICES
        invariant forall j | 0 <= j < i && entries[j].Some? :: !Owns(entries[j].value, shortAddr)
      {
        if entries[i].Some? && entries[i].value.online && entries[i].value.shortAddr == shortAddr {
          ViewAt(entries[..], IdOf, i);
          assert Owns(Directory()[entries[i].value.deviceId], shortAddr);
          return i;
        }
        i := i + 1;
      }
      forall id | id in Directory() ensures !Owns(Directory()[id], shortAddr) {
        ViewHas(entries[..], IdOf, id);
      }
      slot := -1;
    }

    method FindFreeSlot() returns (slot: int)
      requires entries.Length == MAX_DEVICES && DistinctKeys(entries[..], IdOf)
      ensures slot == -1 <==> |Directory()| >= MAX_DEVICES
      ensures slot != -1 ==> 0 <= slot < MAX_DEVICES && entries[slot] == None
    {
      hide View, UsedSlots, DistinctKeys;
      FreeSlotIffRoom(entries[..], IdOf);
      var i := 0;
      while i < MAX_DEVICES
        invariant 0 <= i <= MAX_DEVICES
        invariant forall j | 0 <= j < i :: entries[j].Some?
      {
        if entries[i] == None {
          assert entries[..][i] == None;
          return i;
        }
        i := i + 1;
      }
      slot := -1;
    }

    method Store(slot: nat, l: Locator)
      requires entries.Length == MAX_DEVICES && DistinctKeys(entries[..], IdOf) && slot < MAX_DEVICES
      requires if entries[slot].Some? then entries[slot].value.deviceId == l.deviceId else l.deviceId !in Directory()
      modifies entries
      ensures DistinctKeys(entries[..], IdOf) && Directory() == old(Directory())[l.deviceId := l]
      ensures forall j | 0 <= j < MAX_DEVICES && j != slot :: entries[j] == old(entries[j])
    {
      hide View, UsedSlots;
      ViewAfterPut(entries[..], IdOf, slot, l);
      entries[slot] := Some(l);
      assert entries[..] == old(entries[..])[slot := Some(l)];
    }

    method Remap(id: DeviceId, shortAddr: u16) returns (result: RemapResult, revision: nat)
      requires Valid()
      modifies this, entries
      ensures Valid()
      ensures result == RemapVerdict(old(Directory()), id, shortAddr)
      ensures Succeeded(result) ==>
                && Directory() == Remapped(old(Directory()), id, shortAddr, revision)
                && revision == old(nextRevision) && nextRevision == old(nextRevision) + 1
      ensures !Succeeded(result) ==> Directory() == old(Directory()) && nextRevision == old(nextRevision)
    {
      hide View, UsedSlots, Sane, Remapped;
      ghost var before := Directory();
      revision := 0;
      if !ValidId(id) || shortAddr == UNKNOWN_SHORT_ADDR {
        return InvalidArgument, 0;
      }
      var existing := FindSlotByDeviceId(id);
      var target := existing;
      if target < 0 {
        target := FindFreeSlot();
        if target < 0 {
          return NoCapacity, 0;
        }
      }
      var owner := FindSlotByShortAddr(shortAddr);
      result := if existing >= 0 then Updated else Inserted;
      if owner >= 0 && owner != target {
        OwnerIsUnique(before, nextRevision, entries[owner].value.deviceId, id, shortAddr);
        Store(owner, entries[owner].value.(online := false));
        result := Displaced;
      } else {
        assert owner >= 0 ==> owner == existing && id in before && Owns(before[id], shortAddr);
        assert Directory() == before;
        assert owner < 0 ==> forall other | other in before :: !Owns(before[other], shortAddr);
        NoOtherOwner(before, nextRevision, id, shortAddr);
      }
      if entries[target] == None {
        count := count + 1;
      }
      Store(target, Locator(id, shortAddr, true, nextRevision));
      RemapKeepsSane(before, nextRevision, id, shortAddr);
      revision := nextRevision;
      nextRevision := nextRevision + 1;
    }

    method MarkOffline(id: DeviceId) returns (ok: bool)
      requires Valid()
      modifies entries
      ensures Valid()
      ensures ok <==> id in old(Directory())
      ensures Directory() == MarkedOffline(old(Directory()), id)
    {
      hide View, UsedSlots, FreshRevisions, OneOwner;
      ShrinkKeepsSane(Directory(), nextRevision, id);
      var slot := FindSlotByDeviceId(id);
      if slot < 0 {
        return false;
      }
      Store(slot, entries[slot].value.(online := false));
      ok := true;
    }

    method Remove(id: DeviceId) returns (ok: bool)
      requires Valid()
      modifies this`count, entries
      ensures Valid()
      ensures ok <==> id in old(Directory())
      ensures Directory() == old(Directory()) - {id}
    {
      hide View, UsedSlots, FreshRevisions, OneOwner;
      ShrinkKeepsSane(Directory(), nextRevision, id);
      var slot := FindSlotByDeviceId(id);
      if slot < 0 {
        return false;
      }
      ViewAfterClear(entries[..], IdOf, slot);
      entries[slot] := None;
      assert entries[..] == old(entries[..])[slot := None];
      count := count - 1;
      ok := true;
    }

    /** Forgets everything, the revisions handed out included. */
    method Clear()
      requires Valid()
      modifies this, entries
      ensures Valid() && Directory() == map[] && nextRevision == 1
    {
      forall i | 0 <= i < MAX_DEVICES {
        entries[i] := None;
      }
      count, nextRevision := 0, 1;
      assert View(entries[..], IdOf) == map[];
    }

    method FindByDeviceId(id: DeviceId) returns (entry: Option<Locator>)
      requires Valid()
      ensures entry == ById(Directory(), id)
    {
      var slot := FindSlotByDeviceId(id);
      entry := if slot < 0 then None else entries[slot];
    }

    method FindByShortAddr(shortAddr: u16) returns (entry: Option<Locator>)
      requires Valid()
      ensures IsOwner(Directory(), shortAddr, entry)
    {
      var slot := FindSlotByShortAddr(shortAddr);
      entry := if slot < 0 then None else entries[slot];
    }
  }

  function ById(d: Directory, id: DeviceId): Option<Locator> {
    if id in d then Some(d[id]) else None
  }

  ghost predicate IsOwner(d: Directory, shortAddr: u16, entry: Option<Locator>) {
    if entry.Some? then entry.value.deviceId in d && d[entry.value.deviceId] == entry.value && Owns(entry.value, shortAddr)
    else forall id | id in d :: !Owns(d[id], shortAddr)
  }

  /** `Remapped` when the displaced owner is known. */
  lemma OwnerIsUnique(d: Directory, nextRevision: nat, owner: DeviceId, id: DeviceId, shortAddr: u16)
    requires Sane(d, nextRevision) && owner in d && Owns(d[owner], shortAddr) && owner != id
    ensures Taken(d, id, shortAddr)
    ensures Remapped(d, id, shortAddr, nextRevision)
            == d[owner := d[owner].(online := false)][id := Locator(id, shortAddr, true, nextRevision)]
  {
  }

  lemma NoOtherOwner(d: Directory, nextRevision: nat, id: DeviceId, shortAddr: u16)
    requires Sane(d, nextRevision)
    requires (id in d && Owns(d[id], shortAddr)) || forall other | other in d :: !Owns(d[other], shortAddr)
    ensures !Taken(d, id, shortAddr)
    ensures Remapped(d, id, shortAddr, nextRevision) == d[id := Locator(id, shortAddr, true, nextRevision)]
  {
  }

  lemma RemapSize(d: Directory, id: DeviceId, shortAddr: u16, revision: nat)
    ensures |Remapped(d, id, shortAddr, revision)| == |d| + if id in d then 0 else 1
  {
    var others := map k | k in d :: if k != id && Owns(d[k], shortAddr) then d[k].(online := false) else d[k];
    assert others.Keys == d.Keys && |others| == |others.Keys| && |d| == |d.Keys|;
    var after := Remapped(d, id, shortAddr, revision);
    assert after.Keys == d.Keys + {id} && |after| == |after.Keys|;
    if id in d {
      assert after.Keys == d.Keys;
    }
  }

  /** Entry by entry: the new pair, and every other entry unless it owned the address, are as expected. */
  lemma RemapPointwise(d: Directory, id: DeviceId, shortAddr: u16, revision: nat)
    ensures var after := Remapped(d, id, shortAddr, revision);
            && (forall k :: k in after <==> k in d || k == id)
            && after[id] == Locator(id, shortAddr, true, revision)
            && (forall k | k in d && k != id ::
                  after[k] == if Owns(d[k], shortAddr) then d[k].(online := false) else d[k])
  {
  }

  lemma RemapKeepsOwners(d: Directory, id: DeviceId, shortAddr: u16, revision: nat)
    requires OneOwner(d)
    ensures OneOwner(Remapped(d, id, shortAddr, revision))
  {
    RemapPointwise(d, id, shortAddr, revision);
    hide Remapped;
    var after := Remapped(d, id, shortAddr, revision);
    forall a, b | a in after && b in after && a != b && after[a].online && after[b].online
      ensures after[a].shortAddr != after[b].shortAddr
    {
      assert a != id ==> d[a] == after[a] && d[a].shortAddr != shortAddr;
      assert b != id ==> d[b] == after[b] && d[b].shortAddr != shortAddr;
    }
  }

  lemma RemapKeepsRevisions(d: Directory, id: DeviceId, shortAddr: u16, nextRevision: nat)
    requires FreshRevisions(d, nextRevision) && nextRevision >= 1
    ensures FreshRevisions(Remapped(d, id, shortAddr, nextRevision), nextRevision + 1)
  {
    RemapPointwise(d, id, shortAddr, nextRevision);
    hide Remapped;
    var after := Remapped(d, id, shortAddr, nextRevision);
    forall a, b | a in after && b in after && a != b ensures after[a].revision != after[b].revision {
      assert a != id ==> after[a].revision == d[a].revision;
      assert b != id ==> after[b].revision == d[b].revision;
    }
  }

  lemma RemapKeepsSane(d: Directory, nextRevision: nat, id: DeviceId, shortAddr: u16)
    requires Sane(d, nextRevision) && Succeeded(RemapVerdict(d, id, shortAddr)) && nextRevision >= 1
    ensures Sane(Remapped(d, id, shortAddr, nextRevision), nextRevision + 1)
    ensures |Remapped(d, id, shortAddr, nextRevision)| == |d| + if id in d then 0 else 1
  {
    hide Remapped, Taken, OneOwner, FreshRevisions;
    RemapSize(d, id, shortAddr, nextRevision);
    RemapPointwise(d, id, shortAddr, nextRevision);
    RemapKeepsOwners(d, id, shortAddr, nextRevision);
    RemapKeepsRevisions(d, id, shortAddr, nextRevision);
  }

  // ---------------------------------------------------------------------------------------------
  // What a remap means, and runs
  // ---------------------------------------------------------------------------------------------

  /** After a successful remap the two lookups are mutually inverse on the pair; only the displaced owner, if there
      was one, differs otherwise, and it differs only in being offline. */
  lemma RemapLaws(d: Directory, nextRevision: nat, id: DeviceId, shortAddr: u16, entry: Option<Locator>)
    requires Sane(d, nextRevision) && nextRevision >= 1
    requires Succeeded(RemapVerdict(d, id, shortAddr))
    requires IsOwner(Remapped(d, id, shortAddr, nextRevision), shortAddr, entry)
    ensures var after := Remapped(d, id, shortAddr, nextRevision);
            && entry == ById(after, id) && entry.Some? && entry.value.shortAddr == shortAddr
            && (forall other | other != id ::
                  ById(after, other) == ById(d, other)
                  || (RemapVerdict(d, id, shortAddr) == Displaced && ById(d, other).Some?
                      && Owns(d[other], shortAddr) && after[other] == d[other].(online := false)))
    ensures RemapVerdict(d, id, shortAddr) != Displaced ==>
              forall other | other != id :: ById(Remapped(d, id, shortAddr, nextRevision), other) == ById(d, other)
  {
    RemapPointwise(d, id, shortAddr, nextRevision);
    RemapKeepsOwners(d, id, shortAddr, nextRevision);
    hide Remapped;
    var after := Remapped(d, id, shortAddr, nextRevision);
    assert Owns(after[id], shortAddr);
    assert entry.Some? && entry.value.deviceId == id;
  }

  /** The result code tells what became of a remap: refused for a reserved identity or address, or for want of room for a
      new device; else a new entry, an entry moved, or another device displaced. */
  lemma RemapCodes(d: Directory, nextRevision: nat, id: DeviceId, shortAddr: u16)
    requires Sane(d, nextRevision) && nextRevision >= 1
    ensures var after, verdict := Remapped(d, id, shortAddr, nextRevision), RemapVerdict(d, id, shortAddr);
            if id in {0, 0xFFFF_FFFF_FFFF_FFFF} || shortAddr == 0xFFFF then verdict == InvalidArgument
            else if |after| > 64 then verdict == NoCapacity
            else
              && Succeeded(verdict)
              && (verdict == Displaced <==> exists other :: other in d && other != id && after[other] != d[other])
              && (verdict == Inserted ==> |after| == |d| + 1)
              && (verdict == Updated ==> |after| == |d| && id in d)
  {
    RemapSize(d, id, shortAddr, nextRevision);
    RemapPointwise(d, id, shortAddr, nextRevision);
    hide Remapped;
    var after := Remapped(d, id, shortAddr, nextRevision);
    if other :| other in d && other != id && Owns(d[other], shortAddr) {
      assert after[other] != d[other];
    }
  }

  /** After a device is marked offline it owns no address any more, but keeps its entry; nobody else changes. */
  lemma OfflineLaws(d: Directory, id: DeviceId, shortAddr: u16, entry: Option<Locator>)
    requires WellKeyed(d) && IsOwner(MarkedOffline(d, id), shortAddr, entry)
    ensures var after := MarkedOffline(d, id);
            && after.Keys == d.Keys
            && (id in d ==> !after[id].online && after[id].shortAddr == d[id].shortAddr
                            && after[id].revision == d[id].revision)
            && (forall other | other in d && other != id :: after[other] == d[other])
            && (entry.Some? ==> entry.value.deviceId != id)
  {
  }

  /** At most one device is displaced. */
  lemma OneDisplaced(d: Directory, nextRevision: nat, id: DeviceId, shortAddr: u16, a: DeviceId, b: DeviceId)
    requires Sane(d, nextRevision) && a in d && b in d && a != id && b != id
    requires Remapped(d, id, shortAddr, nextRevision)[a] != d[a] && Remapped(d, id, shortAddr, nextRevision)[b] != d[b]
    ensures a == b && Taken(d, id, shortAddr)
  {
    RemapPointwise(d, id, shortAddr, nextRevision);
    hide Remapped, WellKeyed, FreshRevisions;
    assert Owns(d[a], shortAddr) && Owns(d[b], shortAddr);
  }

  datatype Op = RemapOp(id: DeviceId, shortAddr: u16) | OfflineOp(id: DeviceId) | RemoveOp(id: DeviceId) | ClearOp

  datatype Registry = Registry(directory: Directory, nextRevision: nat)

  ghost function Perform(r: Registry, op: Op): Registry {
    match op
    case RemapOp(id, shortAddr) =>
      if Succeeded(RemapVerdict(r.directory, id, shortAddr))
      then Registry(Remapped(r.directory, id, shortAddr, r.nextRevision), r.nextRevision + 1)
      else r
    case OfflineOp(id) => r.(directory := MarkedOffline(r.directory, id))
    case RemoveOp(id) => r.(directory := r.directory - {id})
    case ClearOp => Registry(map[], 1)
  }

  ghost function RegistryAt(ops: seq<Op>, k: nat): Registry
    requires k <= |ops|
  {
    if k == 0 then Registry(map[], 1) else Perform(RegistryAt(ops, k - 1), ops[k - 1])
  }

  lemma PerformKeepsSane(r: Registry, op: Op)
    requires Sane(r.directory, r.nextRevision) && r.nextRevision >= 1
    ensures var next := Perform(r, op);
            && Sane(next.directory, next.nextRevision) && next.nextRevision >= 1
            && (op != ClearOp ==> next.nextRevision >= r.nextRevision)
  {
    NothingIsSane();
    hide Remapped, Taken, Sane;
    match op
    case RemapOp(id, shortAddr) =>
      if Succeeded(RemapVerdict(r.directory, id, shortAddr)) {
        RemapKeepsSane(r.directory, r.nextRevision, id, shortAddr);
      }
    case OfflineOp(id) => ShrinkKeepsSane(r.directory, r.nextRevision, id);
    case RemoveOp(id) => ShrinkKeepsSane(r.directory, r.nextRevision, id);
    case ClearOp =>
  }

  lemma NothingIsSane()
    ensures Sane(map[], 1)
  {
  }

  lemma {:induction false} ReachableSane(ops: seq<Op>, k: nat)
    requires k <= |ops|
    ensures var r := RegistryAt(ops, k); Sane(r.directory, r.nextRevision) && r.nextRevision >= 1
  {
    if k > 0 {
      hide Sane, Perform;
      ReachableSane(ops, k - 1);
      PerformKeepsSane(RegistryAt(ops, k - 1), ops[k - 1]);
    }
  }

  /** `e` has no device that `d` lacks, and differs only in entries having gone offline. */
  ghost predicate Shrunk(d: Directory, e: Directory) {
    forall k | k in e :: k in d && (e[k] == d[k] || e[k] == d[k].(online := false))
  }

  lemma ShrunkKeepsSane(d: Directory, e: Directory, nextRevision: nat)
    requires Sane(d, nextRevision) && Shrunk(d, e)
    ensures Sane(e, nextRevision)
  {
    assert |e| <= |d| by {
      SubsetSize(e.Keys, d.Keys);
      assert |e| == |e.Keys| && |d| == |d.Keys|;
    }
    assert FreshRevisions(e, nextRevision) by {
      assert forall k | k in e :: e[k].revision == d[k].revision;
    }
    assert OneOwner(e) by {
      assert forall k | k in e && e[k].online :: d[k] == e[k];
    }
  }

  lemma ShrinkKeepsSane(d: Directory, nextRevision: nat, id: DeviceId)
    requires Sane(d, nextRevision)
    ensures Sane(MarkedOffline(d, id), nextRevision) && Sane(d - {id}, nextRevision)
  {
    hide Sane;
    ShrunkKeepsSane(d, MarkedOffline(d, id), nextRevision);
    ShrunkKeepsSane(d, d - {id}, nextRevision);
  }

  /** An entry seen after an operation was there before under the same revision, or carries the newest one. */
  lemma OneStep(r: Registry, op: Op, id: DeviceId)
    requires id in Perform(r, op).directory && op != ClearOp
    ensures var d, e := r.directory, Perform(r, op).directory;
            || e[id].revision == r.nextRevision < Perform(r, op).nextRevision
            || (id in d && e[id].revision == d[id].revision && e[id].shortAddr == d[id].shortAddr
                && (e[id].online ==> d[id].online))
  {
    hide Taken;
    if op.RemapOp? {
      RemapPointwise(r.directory, op.id, op.shortAddr, r.nextRevision);
      hide Remapped;
    }
  }

  lemma RegistryStep(ops: seq<Op>, k: nat)
    requires 0 < k <= |ops|
    ensures RegistryAt(ops, k) == Perform(RegistryAt(ops, k - 1), ops[k - 1])
  {
  }

  /** The registry is not cleared between `i` and `j`. */
  predicate NotCleared(ops: seq<Op>, i: nat, j: nat) {
    i <= j <= |ops| && forall k | i <= k < j :: ops[k] != ClearOp
  }

  lemma {:induction false} RevisionsGrow(ops: seq<Op>, i: nat, j: nat)
    requires NotCleared(ops, i, j)
    ensures RegistryAt(ops, i).nextRevision <= RegistryAt(ops, j).nextRevision
  {
    hide RegistryAt, Perform, Sane;
    if i < j {
      RevisionsGrow(ops, i, j - 1);
      RegistryStep(ops, j);
      ReachableSane(ops, j - 1);
      PerformKeepsSane(RegistryAt(ops, j - 1), ops[j - 1]);
    }
  }

  /** Along any stretch of a run without a clear, a mapping seen twice under the same revision is the same mapping,
      apart from having gone offline in between: what makes the revision a safe token for a caller to hold on to. */
  lemma {:induction false} RevisionIdentifiesMapping(ops: seq<Op>, i: nat, j: nat, id: DeviceId)
    requires NotCleared(ops, i, j)
    ensures SameMapping(RegistryAt(ops, i), RegistryAt(ops, j), id)
  {
    hide RegistryAt, Perform, Sane;
    if i < j {
      var r, s := RegistryAt(ops, i), RegistryAt(ops, j - 1);
      RevisionIdentifiesMapping(ops, i, j - 1, id);
      RevisionsGrow(ops, i, j - 1);
      ReachableSane(ops, i);
      RegistryStep(ops, j);
      SameMappingStep(r, s, ops[j - 1], id);
    }
  }

  /** If `id` is in both, the later revision is no smaller, and if it is equal the mapping is the same but for the
      entry having gone offline. */
  ghost predicate SameMapping(r: Registry, s: Registry, id: DeviceId) {
    id in r.directory && id in s.directory ==>
      var before, after := r.directory[id], s.directory[id];
      && before.revision <= after.revision
      && (before.revision == after.revision ==>
            after.shortAddr == before.shortAddr && (after.online ==> before.online))
  }

  lemma SameMappingStep(r: Registry, s: Registry, op: Op, id: DeviceId)
    requires SameMapping(r, s, id) && Sane(r.directory, r.nextRevision) && r.nextRevision <= s.nextRevision
    requires op != ClearOp
    ensures SameMapping(r, Perform(s, op), id)
  {
    hide Perform, OneOwner, WellKeyed;
    if id in Perform(s, op).directory {
      OneStep(s, op, id);
    }
  }

  /** A clear hands out the old revisions again, so the token means nothing across it: revision 1 stands for two
      different mappings here. */
  lemma ClearForgetsRevisions()
    ensures var ops := [RemapOp(1, 10), ClearOp, RemapOp(1, 20)];
            !SameMapping(RegistryAt(ops, 1), RegistryAt(ops, 3), 1)
  {
    var ops := [RemapOp(1, 10), ClearOp, RemapOp(1, 20)];
    FirstMapping(10);
    FirstMapping(20);
    assert RegistryAt(ops, 0) == Registry(map[], 1) == RegistryAt(ops, 2);
    assert RegistryAt(ops, 1) == Perform(RegistryAt(ops, 0), ops[0]);
    assert RegistryAt(ops, 3) == Perform(RegistryAt(ops, 2), ops[2]);
  }

  lemma FirstMapping(shortAddr: u16)
    requires shortAddr != UNKNOWN_SHORT_ADDR
    ensures Perform(Registry(map[], 1), RemapOp(1, shortAddr))
            == Registry(map[1 := Locator(1, shortAddr, true, 1)], 2)
  {
    assert RemapVerdict(map[], 1, shortAddr) == Inserted;
    assert Remapped(map[], 1, shortAddr, 1) == map[1 := Locator(1, shortAddr, true, 1)];
  }
}
