/** The schema migration converges: power may fail at any write, any number of times, and the store a later
    uninterrupted start leaves is the one a single uninterrupted start would have left. */
module ConfigMigration {
  import opened Common
  import opened ConfigModel

  /** A store whose schema key is present and known. */
  ghost predicate Versioned(n: Store) {
    !Keyless(n) && n[SchemaVersion] <= CURRENT_SCHEMA
  }

  /** A load that is cut off after `done` writes. */
  function Attempt(n: Store, done: nat): Store
    requires done <= |LoadWrites(n)|
  {
    Apply(n, LoadWrites(n)[..done])
  }

  predicate LegacyKey(k: NvsKey) {
    k == LegacyProfileCount || k == LegacyTimeoutMs || k == LegacyMaxRetries || k.LegacySlot?
  }

  ghost predicate AgreeOn(n: Store, m: Store, k: NvsKey) {
    (k in n <==> k in m) && (k in n ==> n[k] == m[k])
  }

  ghost predicate SameLegacy(n: Store, m: Store) {
    forall k | LegacyKey(k) :: AgreeOn(n, m, k)
  }

  lemma SameLegacyWords(n: Store, m: Store, i: nat)
    requires SameLegacy(n, m)
    ensures LegacyWords(n, i) == LegacyWords(m, i)
  {
    assert AgreeOn(n, m, LegacySlot(KeyField, i)) && AgreeOn(n, m, LegacySlot(ClusterField, i));
    assert AgreeOn(n, m, LegacySlot(IntervalField, i)) && AgreeOn(n, m, LegacySlot(ReportableField, i));
  }

  lemma {:induction false} LegacyEntriesAgree(n: Store, m: Store, count: nat)
    requires SameLegacy(n, m)
    ensures LegacyEntries(n, count) == LegacyEntries(m, count)
  {
    if count > 0 {
      var i := count - 1;
      LegacyEntriesAgree(n, m, i);
      SameLegacyWords(n, m, i);
    }
  }

  lemma {:induction false} V2WritesAgree(n: Store, m: Store)
    requires SameLegacy(n, m) && (Get(n, ProfileCount, 0) > 0 <==> Get(m, ProfileCount, 0) > 0)
    ensures V2Writes(n) == V2Writes(m) && V2Entries(n) == V2Entries(m)
  {
    assert AgreeOn(n, m, LegacyProfileCount);
    LegacyEntriesAgree(n, m, Capped(Get(n, LegacyProfileCount, 0)));
  }

  ghost predicate NoLegacy(ws: seq<Write>) {
    forall i | 0 <= i < |ws| :: !LegacyKey(ws[i].key)
  }

  lemma LegacyUntouched(n: Store, ws: seq<Write>)
    requires NoLegacy(ws)
    ensures SameLegacy(n, Apply(n, ws))
  {
    forall k | LegacyKey(k) ensures AgreeOn(n, Apply(n, ws), k) {
      assert !Touches(ws, k);
      Untouched(n, ws, k);
    }
  }

  lemma ProfileWritesOnlySlots(entries: seq<Words>)
    ensures forall i | 0 <= i < |ProfileWrites(entries)| :: ProfileWrites(entries)[i].key.Slot?
  {
    forall i | 0 <= i < |ProfileWrites(entries)| ensures ProfileWrites(entries)[i].key.Slot? {
      assert Touches(ProfileWrites(entries), ProfileWrites(entries)[i].key);
      ProfileWritesTouchSlots(entries, ProfileWrites(entries)[i].key);
    }
  }

  /** Part of the slot writes: the schema key, the profile count and the legacy keys are as they were. */
  lemma SlotWritesOnly(n: Store, ws: seq<Write>)
    requires forall i | 0 <= i < |ws| :: ws[i].key.Slot?
    ensures SameLegacy(n, Apply(n, ws))
    ensures AgreeOn(n, Apply(n, ws), ProfileCount) && AgreeOn(n, Apply(n, ws), SchemaVersion)
    ensures AgreeOn(n, Apply(n, ws), TimeoutMs) && AgreeOn(n, Apply(n, ws), MaxRetries)
  {
    LegacyUntouched(n, ws);
    Untouched(n, ws, ProfileCount);
    Untouched(n, ws, SchemaVersion);
    Untouched(n, ws, TimeoutMs);
    Untouched(n, ws, MaxRetries);
  }

  lemma {:induction false} AttemptFromV2(n: Store, done: nat)
    requires Versioned(n) && n[SchemaVersion] == 2 && done <= |LoadWrites(n)|
    ensures Versioned(Attempt(n, done)) && LoadedStore(Attempt(n, done)) == LoadedStore(n)
    ensures Versioned(LoadedStore(n)) && LoadedStore(n)[SchemaVersion] == CURRENT_SCHEMA
  {
    hide LegacyEntries, ProfileWrites, SameLegacy;
    var ws := LoadWrites(n);
    var after := Attempt(n, done);
    var slots := ProfileWrites(V2Entries(n));
    var bump := Write(SchemaVersion, 3);
    assert ws[..|ws|] == ws && ws[|ws| - 1] == bump;
    if done == |ws| {
      assert LoadedStore(after) == after;
    } else if Get(n, ProfileCount, 0) > 0 {
      assert ws == [bump] && ws[..0] == [];
    } else if done <= |slots| {
      ProfileWritesOnlySlots(V2Entries(n));
      assert ws[..done] == slots[..done];
      SlotWritesOnly(n, slots[..done]);
      V2WritesAgree(n, after);
      RedoAfterPrefix(n, ws, done);
    } else {
      CountWritten(n);
      assert done == |ws| - 1;
    }
  }

  /** Cut off between the count and the schema key: the next attempt either only bumps the schema, or, with no
      decodable entry, starts over. */
  lemma {:induction false} CountWritten(n: Store)
    requires Versioned(n) && n[SchemaVersion] == 2 && Get(n, ProfileCount, 0) == 0
    ensures var done := |LoadWrites(n)| - 1;
            Versioned(Attempt(n, done)) && LoadedStore(Attempt(n, done)) == LoadedStore(n)
  {
    hide LegacyEntries, ProfileWrites, SameLegacy;
    var ws := LoadWrites(n);
    var done := |ws| - 1;
    var slots, m := ProfileWrites(V2Entries(n)), |V2Entries(n)|;
    var after := Attempt(n, done);
    assert ws[..done] == slots + [Write(ProfileCount, m)];
    ProfileWritesOnlySlots(V2Entries(n));
    SlotWritesOnly(n, slots);
    assert (slots + [Write(ProfileCount, m)])[..|slots|] == slots;
    assert after == Apply(n, slots)[ProfileCount := m];
    if m > 0 {
      assert LoadWrites(after) == [Write(SchemaVersion, 3)];
      ApplyOne(after, Write(SchemaVersion, 3));
      assert LoadedStore(after) == after[SchemaVersion := 3];
    } else {
      assert SameLegacy(n, after) by { LegacyAfterCount(n, after, slots, m); }
      V2WritesAgree(n, after);
      RedoAfterPrefix(n, ws, done);
    }
  }

  lemma LegacyAfterCount(n: Store, after: Store, slots: seq<Write>, m: u32)
    requires SameLegacy(n, Apply(n, slots)) && after == Apply(n, slots)[ProfileCount := m]
    ensures SameLegacy(n, after)
  {
    forall k | LegacyKey(k) ensures AgreeOn(n, after, k) {
      assert AgreeOn(n, Apply(n, slots), k);
    }
  }

  lemma V1Store(n: Store, done: nat)
    requires done <= 3
    ensures done >= 1 ==> TimeoutMs in Apply(n, V1Writes(n)[..done])
    ensures done >= 2 ==> MaxRetries in Apply(n, V1Writes(n)[..done])
    ensures done == 3 ==> SchemaVersion in Apply(n, V1Writes(n)[..done])
    ensures var m := Apply(n, V1Writes(n)[..done]);
            && (done >= 1 ==> m[TimeoutMs] == MigratedTimeout(n))
            && (done == 0 ==> AgreeOn(n, m, TimeoutMs))
            && (done >= 2 ==> m[MaxRetries] == MigratedRetries(n))
            && (done <= 1 ==> AgreeOn(n, m, MaxRetries))
            && (done == 3 ==> m[SchemaVersion] == 2)
            && (done <= 2 ==> AgreeOn(n, m, SchemaVersion))
            && AgreeOn(n, m, ProfileCount) && SameLegacy(n, m)
  {
    var ws := V1Writes(n);
    assert ws[..3][..2] == ws[..2] && ws[..2][..1] == ws[..1] && ws[..1][..0] == [] && ws[..0] == [];
    assert done >= 1 ==> Apply(n, ws[..1]) == n[TimeoutMs := MigratedTimeout(n)];
    assert done >= 2 ==> Apply(n, ws[..2]) == Apply(n, ws[..1])[MaxRetries := MigratedRetries(n)];
    assert done >= 3 ==> Apply(n, ws[..3]) == Apply(n, ws[..2])[SchemaVersion := 2];
    LegacyUntouched(n, ws[..done]);
  }

  /** Cut off inside the version 1 step, before its schema key is written: the next attempt computes the same
      values, from the legacy keys or from its own unfinished output. */
  lemma {:induction false} V1WritesStable(n: Store, done: nat)
    requires done <= 2
    ensures V1Writes(Apply(n, V1Writes(n)[..done])) == V1Writes(n)
    ensures V2Writes(Apply(n, V1Writes(n)[..done])) == V2Writes(n)
  {
    hide SameLegacy, V2Writes;
    var m := Apply(n, V1Writes(n)[..done]);
    V1Store(n, done);
    assert AgreeOn(n, m, LegacyTimeoutMs) && AgreeOn(n, m, LegacyMaxRetries) by { ScalarLegacyKeys(n, m); }
    V2WritesAgree(n, m);
  }

  lemma ScalarLegacyKeys(n: Store, m: Store)
    requires SameLegacy(n, m)
    ensures AgreeOn(n, m, LegacyTimeoutMs) && AgreeOn(n, m, LegacyMaxRetries)
  {
  }

  lemma {:induction false} AttemptFromV1(n: Store, done: nat)
    requires Versioned(n) && n[SchemaVersion] == 1 && done <= |LoadWrites(n)|
    ensures Versioned(Attempt(n, done)) && LoadedStore(Attempt(n, done)) == LoadedStore(n)
    ensures Versioned(LoadedStore(n)) && LoadedStore(n)[SchemaVersion] == CURRENT_SCHEMA
  {
    hide LegacyEntries, ProfileWrites, SameLegacy, V2Writes, V1Writes;
    var v1, v2 := V1Writes(n), V2Writes(n);
    var ws := v1 + v2;
    var mid := Apply(n, v1);
    assert v1[..3] == v1;
    V1Store(n, 3);
    V2WritesAgree(n, mid);
    ApplyAppend(n, v1, v2);
    AttemptFromV2(mid, 0);
    if done <= 2 {
      assert ws[..done] == v1[..done];
      V1Store(n, done);
      V1WritesStable(n, done);
      RedoAfterPrefix(n, ws, done);
    } else {
      assert ws[..done] == v1 + v2[..done - 3];
      ApplyAppend(n, v1, v2[..done - 3]);
      AttemptFromV2(mid, done - 3);
    }
  }

  // ---------------------------------------------------------------------------------------------
  // Any number of cut-off attempts
  // ---------------------------------------------------------------------------------------------

  /** The configuration an uninterrupted load of `n` ends with. */
  function LoadedConfig(n: Store): Config {
    ReadConfig(LoadedStore(n))
  }

  lemma AttemptKeepsOutcome(n: Store, done: nat)
    requires Versioned(n) && done <= |LoadWrites(n)|
    ensures Versioned(Attempt(n, done)) && LoadedStore(Attempt(n, done)) == LoadedStore(n)
  {
    if n[SchemaVersion] == 1 {
      AttemptFromV1(n, done);
    } else if n[SchemaVersion] == 2 {
      AttemptFromV2(n, done);
    }
  }

  /** The stores after zero, one, two, ... attempts, each cut off anywhere. */
  ghost predicate AttemptRun(stores: seq<Store>) {
    && stores != []
    && forall j | 0 <= j < |stores| - 1 :: CutOff(stores[j], stores[j + 1])
  }

  ghost predicate CutOff(n: Store, m: Store) {
    exists done: nat :: done <= |LoadWrites(n)| && m == Attempt(n, done)
  }

  lemma LoadReachesCurrent(n: Store)
    requires Versioned(n)
    ensures Versioned(LoadedStore(n)) && LoadedStore(n)[SchemaVersion] == CURRENT_SCHEMA
  {
    if n[SchemaVersion] == 1 {
      AttemptFromV1(n, 0);
    } else if n[SchemaVersion] == 2 {
      AttemptFromV2(n, 0);
    }
  }

  /** With schema key 1, 2 or 3 stored, cut-off attempts never change where an uninterrupted one ends: not even
      one word of the store differs. */
  lemma {:induction false} InterruptedMigrationConverges(stores: seq<Store>)
    requires AttemptRun(stores) && Versioned(stores[0])
    ensures Versioned(stores[|stores| - 1]) && LoadedStore(stores[|stores| - 1]) == LoadedStore(stores[0])
    ensures Versioned(LoadedStore(stores[0])) && LoadedStore(stores[0])[SchemaVersion] == CURRENT_SCHEMA
  {
    hide LoadWrites, LoadedStore;
    var last := |stores| - 1;
    LoadReachesCurrent(stores[0]);
    if last > 0 {
      InterruptedMigrationConverges(stores[..last]);
      assert CutOff(stores[last - 1], stores[last]);
      var done: nat :| done <= |LoadWrites(stores[last - 1])| && stores[last] == Attempt(stores[last - 1], done);
      AttemptKeepsOutcome(stores[last - 1], done);
    }
  }
}
