/** The configuration manager as an object over a non-volatile store whose writes may fail. */
module ConfigManager {
  import opened Common
  import opened ConfigModel
  import opened ConfigMigration
  import opened ConfigTheorems

  datatype LoadStatus = NotLoaded | Ready | Migrated | FreshInstall | LoadFailed

  datatype LoadReport = LoadReport(status: LoadStatus, fromVersion: u32, keyMissing: bool, repairFailed: bool)

  function DefaultConfig(): Config {
    Config(DEFAULT_TIMEOUT_MS, DEFAULT_RETRIES, NoProfiles())
  }

  /** Storing a profile over the first slot with its key, or in a free slot when there is none, changes the answer
      for that key only. */
  lemma {:induction false} LookupAfterPut(profiles: seq<Option<Profile>>, i: nat, p: Profile, key: ProfileKey)
    requires i < |profiles| && (profiles[i] == None || profiles[i].value.key == p.key)
    requires forall j | 0 <= j < i && profiles[j].Some? :: profiles[j].value.key != p.key
    ensures Lookup(profiles[i := Some(p)], key) == if key == p.key then Some(p) else Lookup(profiles, key)
  {
    if i == 0 {
      assert profiles[0 := Some(p)][1..] == profiles[1..];
    } else {
      assert profiles[i := Some(p)][1..] == profiles[1..][i - 1 := Some(p)];
      LookupAfterPut(profiles[1..], i - 1, p, key);
    }
  }

  lemma {:induction false} LookupAfterClear(profiles: seq<Option<Profile>>, i: nat, key: ProfileKey)
    requires i < |profiles| && profiles[i].Some? && profiles[i].value.key != key
    ensures Lookup(profiles[i := None], key) == Lookup(profiles, key)
  {
    if i == 0 {
      assert profiles[0 := None][1..] == profiles[1..];
    } else {
      assert profiles[i := None][1..] == profiles[1..][i - 1 := None];
      LookupAfterClear(profiles[1..], i - 1, key);
    }
  }

  /** The lookup answers with the first match, or None. */
  lemma {:induction false} LookupIsFirst(profiles: seq<Option<Profile>>, i: nat, key: ProfileKey)
    requires i <= |profiles|
    requires forall j | 0 <= j < i && profiles[j].Some? :: profiles[j].value.key != key
    ensures i < |profiles| && profiles[i].Some? && profiles[i].value.key == key ==> Lookup(profiles, key) == profiles[i]
    ensures i == |profiles| ==> Lookup(profiles, key) == None
  {
    if i > 0 {
      LookupIsFirst(profiles[1..], i - 1, key);
    }
  }

  ghost predicate DistinctProfiles(profiles: seq<Option<Profile>>) {
    forall i, j | 0 <= i < j < |profiles| && profiles[i].Some? && profiles[j].Some? ::
      profiles[i].value.key != profiles[j].value.key
  }

  lemma {:induction false} CompactedPrefix(profiles: seq<Option<Profile>>, i: nat)
    requires i <= |profiles|
    ensures Compacted(profiles[..i]) <= Compacted(profiles)
  {
    if i < |profiles| {
      CompactedPrefix(profiles[..|profiles| - 1], i);
      assert profiles[..|profiles| - 1][..i] == profiles[..i];
    } else {
      assert profiles[..i] == profiles;
    }
  }

  lemma {:induction false} LegacyEntriesPrefix(n: Store, i: nat, count: nat)
    requires i <= count
    ensures LegacyEntries(n, i) <= LegacyEntries(n, count)
  {
    if i < count {
      LegacyEntriesPrefix(n, i, count - 1);
    }
  }

  lemma {:induction false} ProfileWritesPrefix(a: seq<Words>, b: seq<Words>)
    requires a <= b
    ensures ProfileWrites(a) <= ProfileWrites(b)
  {
    if |a| < |b| {
      ProfileWritesPrefix(a, b[..|b| - 1]);
    } else {
      assert a == b;
    }
  }

  lemma SavePlan(c: Config)
    ensures var plan, entries := SaveWrites(c), Compacted(c.profiles);
            && |plan| >= 4 && plan[..0] == []
            && plan[..1] == [Write(TimeoutMs, c.timeoutMs)]
            && plan[..2] == plan[..1] + [Write(MaxRetries, c.maxRetries)]
            && plan[..3] == plan[..2] + [Write(SchemaVersion, CURRENT_SCHEMA)]
            && plan == plan[..3] + ProfileWrites(entries) + [Write(ProfileCount, Wrap32(|entries|))]
            && (forall k | 0 <= k < 4 :: plan[..k] <= plan && plan[..k] != plan)
  {
    hide ProfileWrites, Compacted;
  }

  lemma V1Plan(n: Store)
    ensures var plan := V1Writes(n);
            && |plan| == 3 && plan[..0] == []
            && plan[..1] == [Write(TimeoutMs, MigratedTimeout(n))]
            && plan[..2] == plan[..1] + [Write(MaxRetries, MigratedRetries(n))]
            && plan == plan[..2] + [Write(SchemaVersion, 2)]
  {
  }

  lemma V2Plan(n: Store)
    requires Get(n, ProfileCount, 0) == 0
    ensures var plan, entries := V2Writes(n), ProfileWrites(V2Entries(n));
            && |plan| == |entries| + 2 && plan[..|entries|] == entries
            && plan[..|entries| + 1] == entries + [Write(ProfileCount, |V2Entries(n)|)]
            && plan == plan[..|entries| + 1] + [Write(SchemaVersion, 3)]
  {
    hide ProfileWrites, V2Entries;
  }

  /** The writes of slot `i` of a save: they come next in the plan. */
  lemma SaveStep(profiles: seq<Option<Profile>>, i: nat)
    requires i < |profiles|
    ensures var done, next := Compacted(profiles[..i]), Compacted(profiles[..i + 1]);
            && (profiles[i] == None ==> next == done)
            && (profiles[i].Some? ==>
                  && |next| == |done| + 1
                  && ProfileWrites(next) == ProfileWrites(done) + EntryWrites(|done|, Encode(profiles[i].value)))
            && ProfileWrites(next) <= ProfileWrites(Compacted(profiles))
  {
    hide EntryWrites, Encode;
    var done := Compacted(profiles[..i]);
    assert profiles[..i + 1][..i] == profiles[..i];
    assert done + [] == done;
    if profiles[i].Some? {
      ProfileWritesStep(done, Encode(profiles[i].value));
    }
    CompactedPrefix(profiles, i + 1);
    ProfileWritesPrefix(Compacted(profiles[..i + 1]), Compacted(profiles));
  }

  /** Part of the next chunk of a plan is still a prefix of the plan, and shorter than it if the chunk is cut. */
  lemma PartOfPlan<T>(before: seq<T>, done: seq<T>, chunk: seq<T>, all: seq<T>, rest: seq<T>, accepted: seq<T>)
    requires done + chunk <= all && rest != []
    requires before + done <= accepted <= before + done + chunk
    ensures before <= accepted <= before + all + rest && accepted != before + all + rest
  {
    assert accepted == before + (done + chunk)[..|accepted| - |before|];
    assert (done + chunk)[..|accepted| - |before|] == all[..|accepted| - |before|];
  }

  class NvsStore {
    var content: Store
    // auxiliary: the writes refused so far
    ghost var refusals: nat

    constructor (content: Store)
      ensures this.content == content && refusals == 0
    {
      this.content := content;
      refusals := 0;
    }

    /** A write either lands completely or leaves the store alone; which, is up to the storage. */
    method SetU32(k: NvsKey, v: u32) returns (ok: bool)
      modifies this
      ensures content == if ok then old(content)[k := v] else old(content)
      ensures refusals == if ok then old(refusals) else old(refusals) + 1
    {
      ok := *;
      if ok {
        content := content[k := v];
      } else {
        refusals := refusals + 1;
      }
    }
  }

  class ConfigManager {
    const nvs: NvsStore
    const profiles: array<Option<Profile>>
    var timeoutMs: u32
    var maxRetries: u8
    var schemaVersion: u32
    var dirty: bool
    var report: LoadReport

    ghost predicate Valid()
      reads this, profiles
    {
      profiles.Length == MAX_PROFILES && GoodConfig(Current())
    }

    ghost function Current(): Config
      reads this, profiles
    {
      Config(timeoutMs, maxRetries, profiles[..])
    }

    constructor (nvs: NvsStore)
      ensures Valid() && this.nvs == nvs && fresh(profiles) && Current() == DefaultConfig()
    {
      this.nvs := nvs;
      profiles := new Option<Profile>[MAX_PROFILES](_ => None);
      timeoutMs, maxRetries, schemaVersion, dirty := DEFAULT_TIMEOUT_MS, DEFAULT_RETRIES, CURRENT_SCHEMA, false;
      report := LoadReport(NotLoaded, 0, false, false);
    }

    // -------------------------------------------------------------------------------------------
    // Setters and lookups
    // -------------------------------------------------------------------------------------------

    method SetCommandTimeout(value: u32) returns (ok: bool)
      requires Valid()
      modifies this`timeoutMs, this`dirty
      ensures Valid() && ok == (value > 0)
      ensures Current() == if ok then old(Current()).(timeoutMs := value) else old(Current())
      ensures dirty == (old(dirty) || Current() != old(Current()))
    {
      if value == 0 {
        return false;
      }
      if timeoutMs == value {
        return true;
      }
      timeoutMs, dirty := value, true;
      ok := true;
    }

    method SetMaxRetries(value: u8) returns (ok: bool)
      requires Valid()
      modifies this`maxRetries, this`dirty
      ensures Valid() && ok == (value <= MAX_RETRIES)
      ensures Current() == if ok then old(Current()).(maxRetries := value) else old(Current())
      ensures dirty == (old(dirty) || Current() != old(Current()))
    {
      if value > MAX_RETRIES {
        return false;
      }
      if maxRetries == value {
        return true;
      }
      maxRetries, dirty := value, true;
      ok := true;
    }

    method FindProfileIndex(key: ProfileKey) returns (index: int)
      requires Valid()
      ensures -1 <= index < MAX_PROFILES
      ensures index == -1 ==> Lookup(profiles[..], key) == None
                              && forall j | 0 <= j < MAX_PROFILES && profiles[j].Some? :: profiles[j].value.key != key
      ensures index != -1 ==> && profiles[index].Some? && profiles[index].value.key == key
                              && Lookup(profiles[..], key) == profiles[index]
                              && forall j | 0 <= j < index && profiles[j].Some? :: profiles[j].value.key != key
    {
      var i := 0;
      while i < MAX_PROFILES
        invariant 0 <= i <= MAX_PROFILES
        invariant forall j | 0 <= j < i && profiles[j].Some? :: profiles[j].value.key != key
      {
        if profiles[i].Some? && profiles[i].value.key == key {
          LookupIsFirst(profiles[..], i, key);
          return i;
        }
        i := i + 1;
      }
      LookupIsFirst(profiles[..], MAX_PROFILES, key);
      index := -1;
    }

    method FindFreeProfile() returns (index: int)
      requires Valid()
      ensures -1 <= index < MAX_PROFILES
      ensures index == -1 ==> forall j | 0 <= j < MAX_PROFILES :: profiles[j].Some?
      ensures index != -1 ==> profiles[index] == None
    {
      var i := 0;
      while i < MAX_PROFILES
        invariant 0 <= i <= MAX_PROFILES
        invariant forall j | 0 <= j < i :: profiles[j].Some?
      {
        if profiles[i] == None {
          return i;
        }
        i := i + 1;
      }
      index := -1;
    }

    /** Refused exactly for a key with a zero part, or for a new key when all sixteen slots are in use. */
    method SetReportingProfile(p: Profile) returns (ok: bool)
      requires Valid()
      modifies this`dirty, profiles
      ensures Valid() && dirty == (old(dirty) || ok)
      ensures ok <==> GoodKey(p.key) && (Lookup(old(profiles[..]), p.key).Some?
                                         || exists i :: 0 <= i < MAX_PROFILES && old(profiles[..])[i] == None)
      ensures !ok ==> Current() == old(Current())
      ensures ok ==> forall key ::
                Lookup(profiles[..], key) == if key == p.key then Some(p) else Lookup(old(profiles[..]), key)
      ensures DistinctProfiles(old(profiles[..])) ==> DistinctProfiles(profiles[..])
    {
      hide Lookup;
      if p.key.shortAddr == 0 || p.key.endpoint == 0 || p.key.clusterId == 0 {
        return false;
      }
      var index := FindProfileIndex(p.key);
      if index < 0 {
        index := FindFreeProfile();
      }
      if index < 0 {
        return false;
      }
      forall key {
        LookupAfterPut(profiles[..], index, p, key);
      }
      profiles[index] := Some(p);
      assert profiles[..] == old(profiles[..])[index := Some(p)];
      assert Lookup(old(profiles[..]), p.key) == None ==> old(profiles[..])[index] == None;
      dirty := true;
      ok := true;
    }

    method ClearReportingProfile(key: ProfileKey) returns (ok: bool)
      requires Valid()
      modifies this`dirty, profiles
      ensures Valid() && dirty == (old(dirty) || ok)
      ensures ok <==> Lookup(old(profiles[..]), key).Some?
      ensures !ok ==> Current() == old(Current())
      ensures forall other | other != key :: Lookup(profiles[..], other) == Lookup(old(profiles[..]), other)
      ensures DistinctProfiles(old(profiles[..])) ==> DistinctProfiles(profiles[..]) && Lookup(profiles[..], key) == None
    {
      hide Lookup;
      var index := FindProfileIndex(key);
      if index < 0 {
        return false;
      }
      forall other | other != key {
        LookupAfterClear(profiles[..], index, other);
      }
      profiles[index] := None;
      assert profiles[..] == old(profiles[..])[index := None];
      if DistinctProfiles(old(profiles[..])) {
        LookupIsFirst(profiles[..], MAX_PROFILES, key);
      }
      dirty := true;
      ok := true;
    }

    // -------------------------------------------------------------------------------------------
    // Saving
    // -------------------------------------------------------------------------------------------

    /** One write of a plan: `start` with `before` applied becomes `start` with `after` applied. */
    method Put(k: NvsKey, v: u32, ghost start: Store, ghost before: seq<Write>)
      returns (ok: bool, ghost after: seq<Write>)
      requires nvs.content == Apply(start, before)
      modifies nvs
      ensures nvs.refusals == if ok then old(nvs.refusals) else old(nvs.refusals) + 1
      ensures nvs.content == Apply(start, after)
      ensures after == if ok then before + [Write(k, v)] else before
    {
      ok := nvs.SetU32(k, v);
      after := if ok then before + [Write(k, v)] else before;
      ApplyAppend(start, before, [Write(k, v)]);
      ApplyOne(nvs.content, Write(k, v));
      ApplyOne(old(nvs.content), Write(k, v));
    }

    /** The four writes of one entry, stopping at the first that fails. */
    method PutEntry(i: nat, w: Words, ghost start: Store, ghost before: seq<Write>)
      returns (ok: bool, ghost after: seq<Write>)
      requires nvs.content == Apply(start, before)
      modifies nvs
      ensures nvs.refusals == if ok then old(nvs.refusals) else old(nvs.refusals) + 1
      ensures nvs.content == Apply(start, after)
      ensures before <= after <= before + EntryWrites(i, w)
      ensures ok <==> after == before + EntryWrites(i, w)
    {
      hide Apply;
      ok, after := Put(Slot(KeyField, i), w.key, start, before);
      if ok {
        ok, after := Put(Slot(ClusterField, i), w.cluster, start, after);
      }
      if ok {
        ok, after := Put(Slot(IntervalField, i), w.interval, start, after);
      }
      if ok {
        ok, after := Put(Slot(ReportableField, i), w.reportable, start, after);
      }
    }

    /** `save_reporting_profiles`. */
    method SaveReportingProfiles(ghost start: Store, ghost before: seq<Write>)
      returns (ok: bool, ghost after: seq<Write>)
      requires Valid() && nvs.content == Apply(start, before)
      modifies nvs
      ensures nvs.refusals == if ok then old(nvs.refusals) else old(nvs.refusals) + 1
      ensures nvs.content == Apply(start, after)
      ensures var entries := Compacted(profiles[..]);
              var plan := before + ProfileWrites(entries) + [Write(ProfileCount, Wrap32(|entries|))];
              before <= after <= plan && (ok <==> after == plan)
    {
      hide EntryWrites, Encode, Apply, Compacted, ProfileWrites, GoodConfig;
      ghost var entries := Compacted(profiles[..]);
      after := before;
      NothingCompacted(before);
      var writeIndex: nat := 0;
      var i := 0;
      while i < MAX_PROFILES
        invariant 0 <= i <= MAX_PROFILES
        invariant writeIndex == |Compacted(profiles[..i])|
        invariant nvs.content == Apply(start, after) && nvs.refusals == old(nvs.refusals)
        invariant after == before + ProfileWrites(Compacted(profiles[..i]))
      {
        ghost var done := ProfileWrites(Compacted(profiles[..i]));
        assert profiles[..][..i] == profiles[..i] && profiles[..][..i + 1] == profiles[..i + 1];
        SaveStep(profiles[..], i);
        if profiles[i].Some? {
          var words := Encode(profiles[i].value);
          ghost var chunk := EntryWrites(writeIndex, words);
          ok, after := PutEntry(writeIndex, words, start, after);
          if !ok {
            PartOfPlan(before, done, chunk, ProfileWrites(entries), [Write(ProfileCount, Wrap32(|entries|))], after);
            return;
          }
          assert before + (done + chunk) == before + done + chunk;
          writeIndex := writeIndex + 1;
        }
        i := i + 1;
      }
      assert profiles[..i] == profiles[..];
      ok, after := Put(ProfileCount, Wrap32(writeIndex), start, after);
    }

    lemma NothingCompacted(before: seq<Write>)
      ensures Compacted(profiles[..0]) == [] && before + ProfileWrites([]) == before
    {
    }

    /** A save fails exactly if the storage refused a write, having done a prefix of the planned writes; a successful one
        has done them all. */
    method Save() returns (ok: bool, ghost accepted: seq<Write>)
      requires Valid()
      modifies this`schemaVersion, this`dirty, nvs
      ensures Valid() && Current() == old(Current())
      ensures nvs.content == Apply(old(nvs.content), accepted) && accepted <= SaveWrites(Current())
      ensures ok <==> nvs.refusals == old(nvs.refusals)
      ensures ok <==> accepted == SaveWrites(Current())
      ensures dirty == (!ok && old(dirty))
      ensures ok ==> schemaVersion == CURRENT_SCHEMA
    {
      ghost var start, plan := nvs.content, SaveWrites(Current());
      SavePlan(Current());
      assert Apply(start, []) == start;
      hide Apply, ProfileWrites, Compacted, GoodConfig, GoodProfiles, SaveWrites, Lookup, Wrap32;
      ok, accepted := Put(TimeoutMs, timeoutMs, start, plan[..0]);
      if !ok {
        return;
      }
      assert accepted == plan[..1];
      ok, accepted := Put(MaxRetries, maxRetries, start, accepted);
      if !ok {
        return;
      }
      assert accepted == plan[..2];
      ok, accepted := Put(SchemaVersion, CURRENT_SCHEMA, start, accepted);
      if !ok {
        return;
      }
      assert accepted == plan[..3];
      ok, accepted := SaveReportingProfiles(start, plan[..3]);
      if !ok {
        return;
      }
      schemaVersion, dirty := CURRENT_SCHEMA, false;
    }

    // -------------------------------------------------------------------------------------------
    // Loading
    // -------------------------------------------------------------------------------------------

    /** The version 1 step of `migrate_to_current`. */
    method MigrateFromV1() returns (ok: bool, ghost accepted: seq<Write>)
      modifies nvs
      ensures nvs.refusals == if ok then old(nvs.refusals) else old(nvs.refusals) + 1
      ensures nvs.content == Apply(old(nvs.content), accepted) && accepted <= V1Writes(old(nvs.content))
      ensures ok <==> accepted == V1Writes(old(nvs.content))
    {
      ghost var start, plan := nvs.content, V1Writes(nvs.content);
      var timeout := if LegacyTimeoutMs in nvs.content then nvs.content[LegacyTimeoutMs]
                     else Get(nvs.content, TimeoutMs, DEFAULT_TIMEOUT_MS);
      if timeout == 0 {
        timeout := DEFAULT_TIMEOUT_MS;
      }
      var retries := if LegacyMaxRetries in nvs.content then nvs.content[LegacyMaxRetries]
                     else Get(nvs.content, MaxRetries, DEFAULT_RETRIES);
      if retries > MAX_RETRIES {
        retries := DEFAULT_RETRIES;
      }
      V1Plan(start);
      NothingWritten(start);
      assert timeout == MigratedTimeout(start) && retries == MigratedRetries(start);
      hide V1Writes, Apply, MigratedTimeout, MigratedRetries;
      ok, accepted := Put(TimeoutMs, timeout, start, plan[..0]);
      if !ok {
        return;
      }
      ok, accepted := Put(MaxRetries, retries, start, plan[..1]);
      if !ok {
        return;
      }
      ok, accepted := Put(SchemaVersion, 2, start, plan[..2]);
    }

    /** The version 2 step of `migrate_to_current`. */
    method MigrateFromV2() returns (ok: bool, ghost accepted: seq<Write>)
      modifies nvs
      ensures nvs.refusals == if ok then old(nvs.refusals) else old(nvs.refusals) + 1
      ensures nvs.content == Apply(old(nvs.content), accepted) && accepted <= V2Writes(old(nvs.content))
      ensures ok <==> accepted == V2Writes(old(nvs.content))
    {
      ghost var start, plan := nvs.content, V2Writes(nvs.content);
      NothingWritten(start);
      hide Apply;
      if Get(nvs.content, ProfileCount, 0) > 0 {
        ok, accepted := Put(SchemaVersion, 3, start, []);
        return;
      }
      var legacyCount := Capped(Get(nvs.content, LegacyProfileCount, 0));
      V2Plan(start);
      ghost var written := |ProfileWrites(V2Entries(start))|;
      assert V2Entries(start) == LegacyEntries(start, legacyCount);
      hide V2Writes, ProfileWrites, LegacyEntries, V2Entries;
      var migrated: nat;
      ok, migrated, accepted := MigrateEntries(legacyCount);
      if !ok {
        return;
      }
      ok, accepted := Put(ProfileCount, migrated, start, plan[..written]);
      if !ok {
        return;
      }
      ok, accepted := Put(SchemaVersion, 3, start, plan[..written + 1]);
    }

    /** The copying loop of the version 2 step; `migrated` is the next free slot of the current key space. */
    method MigrateEntries(legacyCount: nat) returns (ok: bool, migrated: nat, ghost accepted: seq<Write>)
      modifies nvs
      ensures nvs.refusals == if ok then old(nvs.refusals) else old(nvs.refusals) + 1
      ensures nvs.content == Apply(old(nvs.content), accepted) && migrated <= legacyCount
      ensures var entries := LegacyEntries(old(nvs.content), legacyCount);
              && accepted <= ProfileWrites(entries)
              && (ok <==> accepted == ProfileWrites(entries))
              && (ok ==> migrated == |entries|)
    {
      hide EntryWrites, Decodable;
      ghost var start := nvs.content;
      ok, migrated, accepted := true, 0, [];
      var i := 0;
      while i < legacyCount
        invariant 0 <= i <= legacyCount
        invariant ok && migrated == |LegacyEntries(start, i)|
        invariant nvs.content == Apply(start, accepted) && nvs.refusals == old(nvs.refusals)
        invariant accepted == ProfileWrites(LegacyEntries(start, i))
      {
        SlotsLeaveLegacyWords(start, LegacyEntries(start, i), i);
        var words := LegacyWords(nvs.content, i);
        if words.Some? {
          ProfileWritesStep(LegacyEntries(start, i), words.value);
          LegacyEntriesPrefix(start, i + 1, legacyCount);
          ProfileWritesPrefix(LegacyEntries(start, i + 1), LegacyEntries(start, legacyCount));
          ok, accepted := PutEntry(migrated, words.value, start, accepted);
          if !ok {
            return;
          }
          migrated := migrated + 1;
        } else {
          assert LegacyEntries(start, i + 1) == LegacyEntries(start, i) + [] == LegacyEntries(start, i);
        }
        i := i + 1;
      }
    }

    /** `migrate_to_current`: a cut-off migration has done a prefix of the planned writes. */
    method MigrateToCurrent(fromVersion: u32) returns (ok: bool, ghost accepted: seq<Write>)
      requires 1 <= fromVersion
      modifies nvs
      ensures nvs.refusals == if ok then old(nvs.refusals) else old(nvs.refusals) + 1
      ensures nvs.content == Apply(old(nvs.content), accepted)
      ensures var plan := MigrationWrites(old(nvs.content), fromVersion);
              accepted <= plan && (ok <==> accepted == plan)
    {
      hide StepWrites, DoneBefore, MigrationWrites, Apply;
      ghost var start := nvs.content;
      NothingWritten(start);
      MigrationStarts(start, fromVersion);
      ok, accepted := true, [];
      var version: u32 := fromVersion;
      while version < CURRENT_SCHEMA
        invariant ok && fromVersion <= version
        invariant nvs.content == Apply(start, accepted) && nvs.refusals == old(nvs.refusals)
        invariant accepted == DoneBefore(start, fromVersion, version)
        decreases CURRENT_SCHEMA - version
      {
        MigrationStep(start, fromVersion, version);
        ghost var before, more := accepted, [];
        ok, more := MigrateOnce(version);
        ApplyAppend(start, before, more);
        accepted := before + more;
        if !ok {
          return;
        }
        version := version + 1;
      }
      MigrationEnds(start, fromVersion, version);
    }

    /** One turn of the loop of `migrate_to_current`. */
    method MigrateOnce(version: u32) returns (ok: bool, ghost accepted: seq<Write>)
      requires 1 <= version < CURRENT_SCHEMA
      modifies nvs
      ensures nvs.refusals == if ok then old(nvs.refusals) else old(nvs.refusals) + 1
      ensures nvs.content == Apply(old(nvs.content), accepted) && accepted <= StepWrites(old(nvs.content), version)
      ensures ok <==> accepted == StepWrites(old(nvs.content), version)
    {
      hide V1Writes, V2Writes, Apply;
      if version == 1 {
        ok, accepted := MigrateFromV1();
      } else {
        ok, accepted := MigrateFromV2();
      }
    }

    method LoadCurrentValues()
      modifies this`timeoutMs, this`maxRetries
      ensures timeoutMs == ReadConfig(nvs.content).timeoutMs && maxRetries == ReadConfig(nvs.content).maxRetries
    {
      timeoutMs := if TimeoutMs in nvs.content && nvs.content[TimeoutMs] > 0 then nvs.content[TimeoutMs]
                   else DEFAULT_TIMEOUT_MS;
      maxRetries := if MaxRetries in nvs.content && nvs.content[MaxRetries] <= MAX_RETRIES then nvs.content[MaxRetries]
                    else DEFAULT_RETRIES;
    }

    /** `load_reporting_profiles`: slot `i` of the table is slot `i` of the store, gaps included. */
    method LoadReportingProfiles()
      requires profiles.Length == MAX_PROFILES
      modifies profiles
      ensures profiles[..] == ReadConfig(nvs.content).profiles
    {
      hide Decodable, Decode;
      forall i | 0 <= i < MAX_PROFILES {
        profiles[i] := None;
      }
      var count := Capped(Get(nvs.content, ProfileCount, 0));
      var i := 0;
      while i < count
        invariant 0 <= i <= count
        invariant forall j: nat | j < i :: profiles[j] == ReadProfile(nvs.content, j)
        invariant forall j | i <= j < MAX_PROFILES :: profiles[j] == None
      {
        var words := CurrentWords(nvs.content, i);
        if words.Some? {
          profiles[i] := Some(Decode(words.value));
        }
        i := i + 1;
      }
    }

    /** A load that succeeds ends with the configuration an uninterrupted one ends with, and has done every write
        but, possibly, the repair of a missing schema key. One that fails has done a proper prefix of the
        migration, or found a schema newer than the firmware, and leaves the defaults in force. */
    method Load() returns (ok: bool, ghost accepted: seq<Write>)
      requires profiles.Length == MAX_PROFILES
      modifies this, profiles, nvs
      ensures Valid() && !dirty
      ensures nvs.content == Apply(old(nvs.content), accepted) && accepted <= LoadWrites(old(nvs.content))
      ensures ok <==> Loadable(old(nvs.content))
                      && (accepted == LoadWrites(old(nvs.content)) || RepairOnly(old(nvs.content)))
      ensures ok <==> Loadable(old(nvs.content))
                      && (nvs.refusals == old(nvs.refusals) || RepairOnly(old(nvs.content)))
      ensures Current() == if ok then LoadedConfig(old(nvs.content)) else DefaultConfig()
      ensures report.status == if !ok then LoadFailed
                               else if IsFresh(old(nvs.content)) then FreshInstall
                               else if NeedsMigration(old(nvs.content)) then Migrated
                               else Ready
      ensures report.keyMissing <==> SchemaVersion !in old(nvs.content) || IsFresh(old(nvs.content))
      ensures report.fromVersion == if Keyless(old(nvs.content)) then InferredVersion(old(nvs.content))
                                    else old(nvs.content)[SchemaVersion]
      ensures report.repairFailed <==> RepairOnly(old(nvs.content)) && accepted == []
    {
      hide V1Writes, V2Writes, Apply, ReadConfig;
      ghost var start := nvs.content;
      report := LoadReport(NotLoaded, 0, false, false);
      schemaVersion, timeoutMs, maxRetries, dirty := CURRENT_SCHEMA, DEFAULT_TIMEOUT_MS, DEFAULT_RETRIES, false;
      forall i | 0 <= i < MAX_PROFILES {
        profiles[i] := None;
      }
      var keyMissing := SchemaVersion !in nvs.content;
      var persisted := Get(nvs.content, SchemaVersion, 0);
      var needsRepair := keyMissing || persisted == 0;
      if needsRepair {
        persisted := InferredVersion(nvs.content);
        if persisted == 0 {
          ok, accepted := Repair(CURRENT_SCHEMA);
          report := LoadReport(FreshInstall, 0, true, !ok);
          ReadInto();
          return true, accepted;
        }
      }
      report := report.(keyMissing := keyMissing, fromVersion := persisted);
      if persisted > CURRENT_SCHEMA {
        report := report.(status := LoadFailed);
        NothingWritten(start);
        return false, [];
      }
      if persisted < CURRENT_SCHEMA {
        ok, accepted := MigrateToCurrent(persisted);
        if !ok {
          report := report.(status := LoadFailed);
          return false, accepted;
        }
        persisted := CURRENT_SCHEMA;
        report := report.(status := Migrated);
      } else {
        NothingWritten(start);
        accepted := [];
        if needsRepair {
          ok, accepted := Repair(persisted);
          report := report.(repairFailed := !ok);
        }
        report := report.(status := Ready);
      }
      schemaVersion := persisted;
      ReadInto();
      ok := true;
    }

    /** The repair of the schema key, whose failure the load only reports. */
    method Repair(version: u32) returns (ok: bool, ghost accepted: seq<Write>)
      requires version == CURRENT_SCHEMA
      modifies nvs
      ensures nvs.refusals == if ok then old(nvs.refusals) else old(nvs.refusals) + 1
      ensures nvs.content == Apply(old(nvs.content), accepted)
      ensures accepted == if ok then [Write(SchemaVersion, CURRENT_SCHEMA)] else []
      ensures ReadConfig(nvs.content) == ReadConfig(Apply(old(nvs.content), [Write(SchemaVersion, CURRENT_SCHEMA)]))
    {
      BumpOnly(nvs.content);
      assert Apply(nvs.content, []) == nvs.content;
      ok, accepted := Put(SchemaVersion, version, nvs.content, []);
    }

    method ReadInto()
      requires profiles.Length == MAX_PROFILES
      modifies this`timeoutMs, this`maxRetries, profiles
      ensures Current() == ReadConfig(nvs.content) && Valid()
    {
      LoadCurrentValues();
      LoadReportingProfiles();
      ReadConfigIsGood(nvs.content);
    }
  }

  ghost predicate IsFresh(n: Store) {
    Keyless(n) && InferredVersion(n) == 0
  }

  ghost predicate NeedsMigration(n: Store) {
    if Keyless(n) then 0 < InferredVersion(n) < CURRENT_SCHEMA else n[SchemaVersion] < CURRENT_SCHEMA
  }

  /** All the load writes is the schema key it missed. */
  ghost predicate RepairOnly(n: Store) {
    Keyless(n) && (InferredVersion(n) == 0 || InferredVersion(n) == CURRENT_SCHEMA)
  }

  lemma SlotsLeaveLegacyWords(n: Store, entries: seq<Words>, i: nat)
    ensures LegacyWords(Apply(n, ProfileWrites(entries)), i) == LegacyWords(n, i)
  {
    hide Decodable, SameLegacy;
    ProfileWritesOnlySlots(entries);
    SlotWritesOnly(n, ProfileWrites(entries));
    SameLegacyWords(n, Apply(n, ProfileWrites(entries)), i);
  }

  // ---------------------------------------------------------------------------------------------
  // The plan of a migration, step by step
  // ---------------------------------------------------------------------------------------------

  function StepWrites(n: Store, version: u32): seq<Write> {
    if version == 1 then V1Writes(n) else V2Writes(n)
  }

  /** What a migration that has reached `version` has written. */
  function DoneBefore(start: Store, fromVersion: u32, version: u32): seq<Write> {
    if version <= fromVersion then []
    else if version == 2 then V1Writes(start)
    else MigrationWrites(start, fromVersion)
  }

  lemma MigrationStarts(start: Store, fromVersion: u32)
    ensures DoneBefore(start, fromVersion, fromVersion) == []
  {
  }

  lemma MigrationEnds(start: Store, fromVersion: u32, version: u32)
    requires 1 <= fromVersion <= version && CURRENT_SCHEMA <= version
    ensures DoneBefore(start, fromVersion, version) == MigrationWrites(start, fromVersion)
  {
  }

  lemma MigrationStep(start: Store, fromVersion: u32, version: u32)
    requires 1 <= fromVersion <= version < CURRENT_SCHEMA
    ensures var done := DoneBefore(start, fromVersion, version);
            var more := StepWrites(Apply(start, done), version);
            && DoneBefore(start, fromVersion, version + 1) == done + more
            && (forall accepted | accepted <= more :: done + accepted <= MigrationWrites(start, fromVersion))
            && (forall accepted | accepted < more :: done + accepted != MigrationWrites(start, fromVersion))
  {
    hide V2Writes, V1Writes, Apply;
    V2WritesAfterV1(start);
    NothingWritten(start);
    var done := DoneBefore(start, fromVersion, version);
    var more := StepWrites(Apply(start, done), version);
    var plan := MigrationWrites(start, fromVersion);
    assert [] + more == more && plan[|done|..] == more + plan[|done| + |more|..];
    assert plan == done + more + plan[|done| + |more|..];
    forall accepted | accepted <= more ensures done + accepted <= plan {
      assert (done + more)[..|done| + |accepted|] == done + accepted;
    }
    forall accepted | accepted < more ensures done + accepted != plan {
      assert |done + accepted| < |plan|;
    }
  }

  lemma NothingWritten(n: Store)
    ensures Apply(n, []) == n
  {
  }

  lemma V2WritesAfterV1(n: Store)
    ensures V2Writes(Apply(n, V1Writes(n))) == V2Writes(n)
  {
    hide V2Writes, SameLegacy;
    V1Store(n, 3);
    assert V1Writes(n)[..3] == V1Writes(n);
    V2WritesAgree(n, Apply(n, V1Writes(n)));
  }
}
