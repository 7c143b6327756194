/** The finite map hidden in the 64-slot device array: one record per key, a key being a valid identity
    or, for records that own none, a short address. */
module DeviceMap {
  import opened Common
  import opened Counting
  import opened CoreTypes
  import opened Reducer

  datatype DeviceKey = ById(id: DeviceId) | ByAddr(addr: u16)

  function KeyOf(r: DeviceRecord): DeviceKey {
    if ValidId(r.deviceId) then ById(r.deviceId) else ByAddr(r.shortAddr)
  }

  /** The key an event addresses; an event with neither identity nor locator addresses nothing. */
  function EventKey(e: CoreEvent): Option<DeviceKey> {
    if ValidId(e.deviceId) then Some(ById(e.deviceId))
    else if e.shortAddr != UNKNOWN_SHORT_ADDR then Some(ByAddr(e.shortAddr))
    else None
  }

  predicate AtMostOneRecordPerKey(d: seq<DeviceRecord>) {
    forall i, j | 0 <= i < j < |d| && InUse(d[i]) && InUse(d[j]) :: KeyOf(d[i]) != KeyOf(d[j])
  }

  ghost predicate HasSlot(d: seq<DeviceRecord>, k: DeviceKey) {
    exists j :: 0 <= j < |d| && InUse(d[j]) && KeyOf(d[j]) == k
  }

  ghost function Keys(d: seq<DeviceRecord>): set<DeviceKey> {
    set r | r in d && InUse(r) :: KeyOf(r)
  }

  ghost function RecordOf(d: seq<DeviceRecord>, k: DeviceKey): (r: DeviceRecord)
    requires k in Keys(d)
    ensures r in d && InUse(r) && KeyOf(r) == k
  {
    var r :| r in d && InUse(r) && KeyOf(r) == k;
    r
  }

  ghost function View(d: seq<DeviceRecord>): map<DeviceKey, DeviceRecord> {
    map k | k in Keys(d) :: RecordOf(d, k)
  }

  function SlotsInUse(d: seq<DeviceRecord>): set<int> {
    set i | 0 <= i < |d| && InUse(d[i])
  }

  function OnlineSlots(d: seq<DeviceRecord>): set<int> {
    set i | 0 <= i < |d| && d[i].online
  }

  /** Every slot in use is found under its key. */
  lemma ViewOfSlot(d: seq<DeviceRecord>, i: nat)
    requires AtMostOneRecordPerKey(d) && i < |d| && InUse(d[i])
    ensures KeyOf(d[i]) in View(d) && View(d)[KeyOf(d[i])] == d[i]
  {
    assert d[i] in d;
    var r := RecordOf(d, KeyOf(d[i]));
    var j :| 0 <= j < |d| && d[j] == r;
    if j < i { } else if i < j { }
  }

  /** Everything in the view sits in some slot. */
  lemma SlotOfKey(d: seq<DeviceRecord>, k: DeviceKey) returns (i: nat)
    requires k in View(d)
    ensures i < |d| && InUse(d[i]) && KeyOf(d[i]) == k && d[i] == View(d)[k]
  {
    var r := RecordOf(d, k);
    i :| 0 <= i < |d| && d[i] == r;
  }

  /** The array search finds exactly what the map holds. */
  lemma FirstMatchIsLookup(d: seq<DeviceRecord>, e: CoreEvent)
    requires AtMostOneRecordPerKey(d)
    ensures var i := FirstMatch(d, e.deviceId, e.shortAddr);
            if i >= 0
            then InUse(d[i]) && EventKey(e) == Some(KeyOf(d[i])) && KeyOf(d[i]) in View(d)
                 && View(d)[KeyOf(d[i])] == d[i]
            else EventKey(e).Some? ==> EventKey(e).value !in View(d)
  {
    var i := FirstMatch(d, e.deviceId, e.shortAddr);
    if i >= 0 {
      ViewOfSlot(d, i);
    } else if EventKey(e).Some? && EventKey(e).value in View(d) {
      var j := SlotOfKey(d, EventKey(e).value);
      assert Matches(d[j], e.deviceId, e.shortAddr);
    }
  }

  /** Changing a record without changing its key updates one entry of the view. */
  lemma ViewAfterUpdate(d: seq<DeviceRecord>, i: nat, r: DeviceRecord)
    requires AtMostOneRecordPerKey(d) && i < |d| && InUse(d[i]) && InUse(r) && KeyOf(r) == KeyOf(d[i])
    ensures AtMostOneRecordPerKey(d[i := r])
    ensures View(d[i := r]) == View(d)[KeyOf(r) := r]
    ensures SlotsInUse(d[i := r]) == SlotsInUse(d)
  {
    var d' := d[i := r];
    var m := View(d)[KeyOf(r) := r];
    SameViews(d', m) by {
      forall j | 0 <= j < |d'| && InUse(d'[j])
        ensures KeyOf(d'[j]) in m && m[KeyOf(d'[j])] == d'[j]
      {
        if j != i {
          ViewOfSlot(d, j);
          assert j < i || i < j;
        }
      }
      forall k | k in m ensures HasSlot(d', k) {
        if k == KeyOf(r) {
          assert d'[i] == r;
        } else {
          var j := SlotOfKey(d, k);
          assert d'[j] == d[j];
        }
      }
    }
  }

  /** Filling a free slot with a record of a new key inserts one entry. */
  lemma ViewAfterInsert(d: seq<DeviceRecord>, i: nat, r: DeviceRecord)
    requires AtMostOneRecordPerKey(d) && i < |d| && !InUse(d[i]) && InUse(r) && KeyOf(r) !in View(d)
    ensures AtMostOneRecordPerKey(d[i := r])
    ensures View(d[i := r]) == View(d)[KeyOf(r) := r]
    ensures SlotsInUse(d[i := r]) == SlotsInUse(d) + {i}
  {
    var d' := d[i := r];
    forall j | 0 <= j < |d| && InUse(d[j]) ensures KeyOf(d[j]) in View(d) && View(d)[KeyOf(d[j])] == d[j] {
      ViewOfSlot(d, j);
    }
    var m := View(d)[KeyOf(r) := r];
    SameViews(d', m) by {
      forall k | k in m ensures HasSlot(d', k) {
        if k == KeyOf(r) {
          assert d'[i] == r;
        } else {
          var j := SlotOfKey(d, k);
          assert d'[j] == d[j];
        }
      }
    }
  }

  /** Freeing a slot removes one entry. */
  lemma ViewAfterRemove(d: seq<DeviceRecord>, i: nat, r: DeviceRecord)
    requires AtMostOneRecordPerKey(d) && i < |d| && InUse(d[i]) && !InUse(r)
    ensures AtMostOneRecordPerKey(d[i := r])
    ensures View(d[i := r]) == View(d) - {KeyOf(d[i])}
    ensures SlotsInUse(d[i := r]) == SlotsInUse(d) - {i}
  {
    var d' := d[i := r];
    var m := View(d) - {KeyOf(d[i])};
    SameViews(d', m) by {
      forall j | 0 <= j < |d'| && InUse(d'[j])
        ensures KeyOf(d'[j]) in m && m[KeyOf(d'[j])] == d'[j]
      {
        ViewOfSlot(d, j);
        assert j < i || i < j;
      }
      forall k | k in m ensures HasSlot(d', k) {
        var j := SlotOfKey(d, k);
        assert d'[j] == d[j];
      }
    }
  }

  /** A map that agrees with the slots in both directions is the view. */
  lemma SameViews(d: seq<DeviceRecord>, m: map<DeviceKey, DeviceRecord>)
    requires AtMostOneRecordPerKey(d)
    requires forall j | 0 <= j < |d| && InUse(d[j]) :: KeyOf(d[j]) in m && m[KeyOf(d[j])] == d[j]
    requires forall k | k in m :: HasSlot(d, k)
    ensures View(d) == m
  {
    forall k | k in m ensures k in View(d) && View(d)[k] == m[k] {
      var j :| 0 <= j < |d| && InUse(d[j]) && KeyOf(d[j]) == k;
      ViewOfSlot(d, j);
    }
    forall k | k in View(d) ensures k in m {
      var j := SlotOfKey(d, k);
    }
  }

  /** Keys and slots of a prefix, compared with the prefix one shorter. */
  lemma OneMoreSlot(d: seq<DeviceRecord>)
    requires AtMostOneRecordPerKey(d) && d != []
    ensures var n := |d| - 1;
            if InUse(d[n])
            then SlotsInUse(d) == SlotsInUse(d[..n]) + {n} && KeyOf(d[n]) !in Keys(d[..n])
                 && Keys(d) == Keys(d[..n]) + {KeyOf(d[n])}
            else SlotsInUse(d) == SlotsInUse(d[..n]) && Keys(d) == Keys(d[..n])
  {
    var n := |d| - 1;
    var p := d[..n];
    assert d == p + [d[n]];
  }

  /** With one record per key, there are as many keys as slots in use. */
  lemma {:induction false} KeysCountSlots(d: seq<DeviceRecord>)
    requires AtMostOneRecordPerKey(d)
    ensures |Keys(d)| == |SlotsInUse(d)|
  {
    if d == [] {
      assert Keys(d) == {};
    } else {
      OneMoreSlot(d);
      KeysCountSlots(d[..|d| - 1]);
    }
  }

  lemma ViewSize(d: seq<DeviceRecord>)
    requires AtMostOneRecordPerKey(d)
    ensures |View(d)| == |SlotsInUse(d)|
  {
    KeysCountSlots(d);
    assert View(d).Keys == Keys(d);
  }

  /** A full array has no free slot, and only a full one. */
  lemma FreeSlotIffRoom(d: seq<DeviceRecord>)
    ensures |SlotsInUse(d)| <= |d|
    ensures FirstFree(d) >= 0 <==> |SlotsInUse(d)| < |d|
  {
    var all := Range(|d|);
    SubsetSize(SlotsInUse(d), all);
    var f := FirstFree(d);
    if f >= 0 {
      SubsetSize(SlotsInUse(d), all - {f});
    } else {
      assert SlotsInUse(d) == all;
    }
  }
}
