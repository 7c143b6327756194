/** What a load brings back: legacy profiles, saved profiles, and exactly which stores without a schema key
    survive an interrupted migration. */
module ConfigTheorems {
  import opened Common
  import opened ConfigModel
  import opened ConfigMigration

  // ---------------------------------------------------------------------------------------------
  // Reading back compacted entries
  // ---------------------------------------------------------------------------------------------

  function DecodeAll(entries: seq<Words>): seq<Option<Profile>>
    requires |entries| <= MAX_PROFILES
  {
    seq(MAX_PROFILES, (i: nat) => if i < |entries| then Some(Decode(entries[i])) else None)
  }

  ghost predicate AllDecodable(entries: seq<Words>) {
    forall j | 0 <= j < |entries| :: Decodable(entries[j].key, entries[j].cluster)
  }

  /** Entries written to slots 0, 1, ... and counted are read back in that order, whatever stale slots the store
      still holds beyond the count. */
  lemma WrittenEntriesAreRead(n: Store, entries: seq<Words>)
    requires |entries| <= MAX_PROFILES && AllDecodable(entries)
    ensures forall m: Store | (forall k: NvsKey | k.Slot? :: AgreeOn(Apply(n, ProfileWrites(entries)), m, k))
                              && Get(m, ProfileCount, 0) == |entries| ::
              ReadConfig(m).profiles == DecodeAll(entries)
  {
    var written := Apply(n, ProfileWrites(entries));
    forall m: Store | (forall k: NvsKey | k.Slot? :: AgreeOn(written, m, k)) && Get(m, ProfileCount, 0) == |entries|
      ensures ReadConfig(m).profiles == DecodeAll(entries)
    {
      forall i: nat | i < |entries| ensures CurrentWords(m, i) == Some(entries[i]) {
        ProfileWritesStore(n, entries, i);
        assert AgreeOn(written, m, Slot(KeyField, i)) && AgreeOn(written, m, Slot(ClusterField, i));
        assert AgreeOn(written, m, Slot(IntervalField, i)) && AgreeOn(written, m, Slot(ReportableField, i));
      }
    }
  }

  // ---------------------------------------------------------------------------------------------
  // Version 2 profiles
  // ---------------------------------------------------------------------------------------------

  /** `entries` are exactly the decodable legacy entries below `count`: `from` gives the slot each came from. */
  ghost predicate Enumerates(n: Store, count: nat, entries: seq<Words>, from: seq<nat>) {
    && |from| == |entries|
    && (forall j | 0 <= j < |from| :: from[j] < count && LegacyWords(n, from[j]) == Some(entries[j]))
    && (forall j, k | 0 <= j < k < |from| :: from[j] < from[k])
    && (forall i: nat | i < count && LegacyWords(n, i).Some? :: i in from)
  }

  lemma {:induction false} LegacyEntriesAreExactly(n: Store, count: nat) returns (from: seq<nat>)
    ensures Enumerates(n, count, LegacyEntries(n, count), from)
  {
    hide LegacyWords, Enumerates;
    from := [];
    if count == 0 {
      EnumeratesNothing(n);
    } else {
      var before := LegacyEntriesAreExactly(n, count - 1);
      from := before + if LegacyWords(n, count - 1).Some? then [count - 1] else [];
      EnumeratesOneMore(n, count - 1, LegacyEntries(n, count - 1), before);
    }
  }

  lemma EnumeratesNothing(n: Store)
    ensures Enumerates(n, 0, [], [])
  {
  }

  lemma EnumeratesOneMore(n: Store, i: nat, entries: seq<Words>, from: seq<nat>)
    requires Enumerates(n, i, entries, from)
    ensures var w := LegacyWords(n, i);
            Enumerates(n, i + 1, entries + if w.Some? then [w.value] else [], from + if w.Some? then [i] else [])
  {
    hide LegacyWords;
    var w := LegacyWords(n, i);
    var more := from + if w.Some? then [i] else [];
    assert w.Some? ==> more[|from|] == i;
    assert forall k | k in from :: k in more;
  }

  lemma {:induction false} LegacyEntriesDecode(n: Store, count: nat)
    ensures AllDecodable(LegacyEntries(n, count))
  {
    hide Decodable;
    if count > 0 {
      LegacyEntriesDecode(n, count - 1);
    }
  }

  lemma LegacyProfilesSurvive(n: Store)
    requires Get(n, ProfileCount, 0) == 0
    ensures ReadConfig(Apply(n, V2Writes(n))) == ReadConfig(n).(profiles := DecodeAll(V2Entries(n)))
  {
    hide ProfileWrites, LegacyEntries, SameLegacy;
    var entries := V2Entries(n);
    LegacyEntriesDecode(n, Capped(Get(n, LegacyProfileCount, 0)));
    var written := Apply(n, ProfileWrites(entries));
    var tail := [Write(ProfileCount, |entries|), Write(SchemaVersion, 3)];
    ApplyAppend(n, ProfileWrites(entries), tail);
    assert tail[..1] == [Write(ProfileCount, |entries|)];
    ApplyOne(written, Write(ProfileCount, |entries|));
    var m := Apply(n, V2Writes(n));
    assert m == written[ProfileCount := |entries|][SchemaVersion := 3];
    ProfileWritesOnlySlots(entries);
    SlotWritesOnly(n, ProfileWrites(entries));
    WrittenEntriesAreRead(n, entries);
    assert forall k: NvsKey | k.Slot? :: AgreeOn(written, m, k);
  }

  /** What a load makes of a version 1 or version 2 store. Profiles already in the current slots win; otherwise the
      profiles are the decodable entries among the first sixteen legacy slots, in order. Version 1 scalars come
      from the legacy keys, falling back to the current keys and then to the defaults; version 2 scalars stay. */
  lemma MigrationPreservesConfig(n: Store) returns (from: seq<nat>)
    requires Versioned(n) && n[SchemaVersion] < CURRENT_SCHEMA
    ensures LoadedConfig(n).profiles == if Get(n, ProfileCount, 0) > 0 then ReadConfig(n).profiles
                                        else DecodeAll(V2Entries(n))
    ensures Enumerates(n, Capped(Get(n, LegacyProfileCount, 0)), V2Entries(n), from)
    ensures n[SchemaVersion] == 2 ==> LoadedConfig(n).timeoutMs == ReadConfig(n).timeoutMs
                                      && LoadedConfig(n).maxRetries == ReadConfig(n).maxRetries
    ensures n[SchemaVersion] == 1 ==> LoadedConfig(n).timeoutMs == MigratedTimeout(n)
                                      && LoadedConfig(n).maxRetries == MigratedRetries(n)
  {
    hide ProfileWrites, LegacyEntries, SameLegacy, Enumerates;
    from := LegacyEntriesAreExactly(n, Capped(Get(n, LegacyProfileCount, 0)));
    if n[SchemaVersion] == 1 {
      var mid := Apply(n, V1Writes(n));
      assert V1Writes(n)[..3] == V1Writes(n) && LoadWrites(n)[..3] == V1Writes(n);
      V1Store(n, 3);
      AttemptKeepsOutcome(n, 3);
      V2WritesAgree(n, mid);
      SlotsUntouchedByV1(n);
      Version2Config(mid);
    } else {
      Version2Config(n);
    }
  }

  lemma Version2Config(n: Store)
    requires Versioned(n) && n[SchemaVersion] == 2
    ensures LoadedConfig(n) == if Get(n, ProfileCount, 0) > 0 then ReadConfig(n)
                               else ReadConfig(n).(profiles := DecodeAll(V2Entries(n)))
  {
    if Get(n, ProfileCount, 0) > 0 {
      BumpOnly(n);
    } else {
      LegacyProfilesSurvive(n);
    }
  }

  /** Writing the schema key changes nothing the configuration is read from. */
  lemma BumpOnly(n: Store)
    ensures ReadConfig(Apply(n, [Write(SchemaVersion, CURRENT_SCHEMA)])) == ReadConfig(n)
  {
    var m := Apply(n, [Write(SchemaVersion, CURRENT_SCHEMA)]);
    ApplyOne(n, Write(SchemaVersion, CURRENT_SCHEMA));
    assert forall i: nat | i < MAX_PROFILES :: ReadProfile(m, i) == ReadProfile(n, i);
  }

  lemma SlotsUntouchedByV1(n: Store)
    ensures var mid := Apply(n, V1Writes(n));
            ReadConfig(mid).profiles == ReadConfig(n).profiles
  {
    var ws := V1Writes(n);
    var mid := Apply(n, ws);
    forall k: NvsKey | k.Slot? || k == ProfileCount ensures AgreeOn(n, mid, k) {
      Untouched(n, ws, k);
    }
    forall i: nat | i < MAX_PROFILES ensures ReadProfile(mid, i) == ReadProfile(n, i) {
      assert AgreeOn(n, mid, Slot(KeyField, i)) && AgreeOn(n, mid, Slot(ClusterField, i));
      assert AgreeOn(n, mid, Slot(IntervalField, i)) && AgreeOn(n, mid, Slot(ReportableField, i));
      assert AgreeOn(n, mid, ProfileCount);
    }
  }

  // ---------------------------------------------------------------------------------------------
  // Save, then load
  // ---------------------------------------------------------------------------------------------

  lemma {:induction false} LookupSnoc(profiles: seq<Option<Profile>>, last: Option<Profile>, key: ProfileKey)
    ensures Lookup(profiles + [last], key) ==
            if Lookup(profiles, key).Some? then Lookup(profiles, key)
            else if last.Some? && last.value.key == key then last else None
  {
    if profiles == [] {
      assert (profiles + [last])[1..] == [];
    } else {
      assert (profiles + [last])[1..] == profiles[1..] + [last];
      LookupSnoc(profiles[1..], last, key);
    }
  }

  lemma {:induction false} LookupPadding(profiles: seq<Option<Profile>>, padding: nat, key: ProfileKey)
    ensures Lookup(profiles + seq(padding, _ => None), key) == Lookup(profiles, key)
  {
    var blank := seq(padding, _ => None);
    if padding == 0 {
      assert profiles + blank == profiles;
    } else {
      assert profiles + blank == (profiles + seq(padding - 1, _ => None)) + [None];
      LookupSnoc(profiles + seq(padding - 1, _ => None), None, key);
      LookupPadding(profiles, padding - 1, key);
    }
  }

  function Decoded(entries: seq<Words>): seq<Option<Profile>> {
    seq(|entries|, i requires 0 <= i < |entries| => Some(Decode(entries[i])))
  }

  /** Compaction, packing and unpacking together do not change the answer for any key. */
  lemma {:induction false} CompactionKeepsAnswers(profiles: seq<Option<Profile>>, key: ProfileKey)
    requires forall i | 0 <= i < |profiles| && profiles[i].Some? :: GoodKey(profiles[i].value.key)
    ensures |Compacted(profiles)| <= |profiles| && AllDecodable(Compacted(profiles))
    ensures Lookup(Decoded(Compacted(profiles)), key) == Lookup(profiles, key)
  {
    if profiles != [] {
      var n := |profiles| - 1;
      var front := Compacted(profiles[..n]);
      CompactionKeepsAnswers(profiles[..n], key);
      assert profiles == profiles[..n] + [profiles[n]];
      LookupSnoc(profiles[..n], profiles[n], key);
      if profiles[n].Some? {
        WordsRoundTrip(profiles[n].value);
        LookupSnoc(Decoded(front), profiles[n], key);
        assert Decoded(front + [Encode(profiles[n].value)]) == Decoded(front) + [profiles[n]];
      } else {
        assert front + [] == front;
      }
    }
  }

  lemma SavedScalars(n: Store, c: Config)
    ensures Apply(n, SaveWrites(c)[..3])
            == n[TimeoutMs := c.timeoutMs][MaxRetries := c.maxRetries][SchemaVersion := CURRENT_SCHEMA]
  {
    hide ProfileWrites, Compacted;
    var ws := SaveWrites(c);
    assert ws[..3][..2] == ws[..2] && ws[..2][..1] == ws[..1] && ws[..1][..0] == [];
    assert Apply(n, ws[..1]) == n[TimeoutMs := c.timeoutMs];
    assert Apply(n, ws[..2]) == n[TimeoutMs := c.timeoutMs][MaxRetries := c.maxRetries];
  }

  lemma SavedStore(n: Store, c: Config)
    requires GoodConfig(c)
    ensures var entries, m := Compacted(c.profiles), Apply(n, SaveWrites(c));
            && |entries| <= MAX_PROFILES && AllDecodable(entries)
            && ReadConfig(m) == Config(c.timeoutMs, c.maxRetries, DecodeAll(entries))
            && Get(m, SchemaVersion, 0) == CURRENT_SCHEMA
  {
    hide ProfileWrites, Compacted, SameLegacy, Encode, Decode;
    var entries, ws := Compacted(c.profiles), SaveWrites(c);
    CompactionKeepsAnswers(c.profiles, ProfileKey(0, 0, 0));
    var slots, count := ProfileWrites(entries), Write(ProfileCount, |entries|);
    var start := Apply(n, ws[..3]);
    SavedScalars(n, c);
    assert ws == ws[..3] + slots + [count];
    ApplyAppend(n, ws[..3], slots);
    ApplyAppend(n, ws[..3] + slots, [count]);
    ApplyOne(Apply(n, ws[..3] + slots), count);
    var written, m := Apply(start, slots), Apply(n, ws);
    assert m == written[ProfileCount := |entries|];
    ProfileWritesOnlySlots(entries);
    SlotWritesOnly(start, slots);
    WrittenEntriesAreRead(start, entries);
    assert forall k: NvsKey | k.Slot? :: AgreeOn(written, m, k);
  }

  /** A complete save followed by a load, on any store: same timeout, same retries, and the same answer to every
      profile lookup. The load itself writes nothing. */
  lemma SaveThenLoad(n: Store, c: Config, key: ProfileKey)
    requires GoodConfig(c)
    ensures var m := Apply(n, SaveWrites(c));
            && LoadWrites(m) == []
            && LoadedConfig(m).timeoutMs == c.timeoutMs && LoadedConfig(m).maxRetries == c.maxRetries
            && Lookup(LoadedConfig(m).profiles, key) == Lookup(c.profiles, key)
  {
    var entries := Compacted(c.profiles);
    SavedStore(n, c);
    CompactionKeepsAnswers(c.profiles, key);
    LookupPadding(Decoded(entries), MAX_PROFILES - |entries|, key);
    assert DecodeAll(entries) == Decoded(entries) + seq(MAX_PROFILES - |entries|, _ => None);
  }

  // ---------------------------------------------------------------------------------------------
  // Stores without a schema key
  // ---------------------------------------------------------------------------------------------

  /** The loaded configuration survives interruption when the schema key is stored, or, if it must be inferred,
      when there is nothing yet to lose: no retry setting other than the default to carry over from version 1, no
      profile to carry over from version 2. */
  ghost predicate Resilient(n: Store) {
    Loadable(n)
    && (Keyless(n) && InferredVersion(n) == 1 ==> MigratedRetries(n) == DEFAULT_RETRIES)
    && (Keyless(n) && InferredVersion(n) == 2 ==> V2Entries(n) == [])
  }

  lemma CurrentStoreIsStable(n: Store, done: nat)
    requires Keyless(n) && HasCurrentKeys(n) && done <= 1
    ensures LoadedConfig(n) == ReadConfig(n)
    ensures Resilient(Attempt(n, done)) && LoadedConfig(Attempt(n, done)) == ReadConfig(n)
  {
    var bump := Write(SchemaVersion, CURRENT_SCHEMA);
    BumpOnly(n);
    ApplyOne(n, bump);
    assert [bump][..0] == [] && [bump][..1] == [bump];
    assert Apply(n, []) == n;
  }

  lemma {:induction false} FreshIsStable(n: Store, done: nat)
    requires Keyless(n) && InferredVersion(n) == 0 && done <= 1
    ensures Resilient(Attempt(n, done)) && LoadedConfig(Attempt(n, done)) == LoadedConfig(n)
  {
    var bump := Write(SchemaVersion, CURRENT_SCHEMA);
    BumpOnly(n);
    ApplyOne(n, bump);
    assert [bump][..0] == [] && [bump][..1] == [bump];
    assert Apply(n, []) == n;
  }

  function NoProfiles(): seq<Option<Profile>> {
    seq(MAX_PROFILES, _ => None)
  }

  /** A store taken for version 1: what each cut-off attempt leads to. */
  lemma {:induction false} Version1ByInference(n: Store, done: nat)
    requires Keyless(n) && InferredVersion(n) == 1 && done <= |LoadWrites(n)|
    ensures LoadedConfig(n) == Config(MigratedTimeout(n), MigratedRetries(n), NoProfiles())
    ensures Resilient(Attempt(n, done)) || done == 0
    ensures LoadedConfig(Attempt(n, done))
            == if done == 1 then LoadedConfig(n).(maxRetries := DEFAULT_RETRIES) else LoadedConfig(n)
  {
    hide SameLegacy, ProfileWrites, LegacyEntries, V1Writes, V2Writes, MigratedTimeout, MigratedRetries;
    var mid := Apply(n, V1Writes(n));
    assert V1Writes(n)[..3] == V1Writes(n);
    V1Store(n, 3);
    MigratedScalarsAreValid(n);
    V2WritesAgree(n, mid);
    ApplyAppend(n, V1Writes(n), V2Writes(n));
    Version2Config(mid);
    NoLegacyProfiles(n);
    assert LoadedConfig(mid) == Config(MigratedTimeout(n), MigratedRetries(n), NoProfiles());
    if done == 0 {
      assert LoadWrites(n)[..0] == [];
    } else if done <= 2 {
      assert LoadWrites(n)[..done] == V1Writes(n)[..done];
      V1Store(n, done);
      CurrentStoreIsStable(Attempt(n, done), 0);
    } else {
      assert LoadWrites(n)[..done] == V1Writes(n) + V2Writes(n)[..done - 3];
      ApplyAppend(n, V1Writes(n), V2Writes(n)[..done - 3]);
      AttemptKeepsOutcome(mid, done - 3);
    }
  }

  lemma MigratedScalarsAreValid(n: Store)
    ensures MigratedTimeout(n) > 0 && MigratedRetries(n) <= MAX_RETRIES
  {
  }

  lemma NoLegacyProfiles(n: Store)
    requires InferredVersion(n) == 1
    ensures V2Entries(n) == []
  {
  }

  lemma {:induction false} FirstProfileWrite(entries: seq<Words>)
    requires entries != []
    ensures ProfileWrites(entries) != [] && ProfileWrites(entries)[0] == Write(Slot(KeyField, 0), entries[0].key)
  {
    if |entries| > 1 {
      FirstProfileWrite(entries[..|entries| - 1]);
    } else {
      assert entries[..0] == [];
    }
  }

  /** A store taken for version 2: the first write already makes it look current. */
  lemma {:induction false} Version2ByInference(n: Store)
    requires Keyless(n) && InferredVersion(n) == 2
    ensures LoadedConfig(n).profiles == DecodeAll(V2Entries(n))
    ensures |LoadWrites(n)| >= 2
    ensures V2Entries(n) != [] ==> LoadedConfig(Attempt(n, 1)).profiles == NoProfiles()
    ensures V2Entries(n) == [] ==>
              forall done: nat | done <= |LoadWrites(n)| ::
                (Resilient(Attempt(n, done)) || done == 0) && LoadedConfig(Attempt(n, done)) == LoadedConfig(n)
  {
    hide SameLegacy, ProfileWrites, LegacyEntries, Decode;
    LegacyProfilesSurvive(n);
    var ws, entries := LoadWrites(n), V2Entries(n);
    if entries != [] {
      FirstProfileWrite(entries);
      assert ws[..1] == [Write(Slot(KeyField, 0), entries[0].key)];
      ApplyOne(n, ws[0]);
      CurrentStoreIsStable(Attempt(n, 1), 0);
    } else {
      NoProfileWrites();
      assert ws == [Write(ProfileCount, 0), Write(SchemaVersion, 3)];
      ApplyOne(n, ws[0]);
      assert ws[..1] == [ws[0]] && ws[..0] == [] && ws[..2] == ws;
      var counted := Attempt(n, 1);
      CurrentStoreIsStable(counted, 0);
      assert Attempt(n, 2) == counted[SchemaVersion := 3];
      BumpOnly(counted);
      ApplyOne(counted, Write(SchemaVersion, 3));
      BumpOnly(Attempt(n, 2));
      assert ReadConfig(counted).profiles == NoProfiles() == DecodeAll([]);
    }
  }

  lemma NoProfileWrites()
    ensures ProfileWrites([]) == []
  {
  }

  lemma {:induction false} ResilientAttempt(n: Store, done: nat)
    requires Resilient(n) && done <= |LoadWrites(n)|
    ensures Resilient(Attempt(n, done)) && LoadedConfig(Attempt(n, done)) == LoadedConfig(n)
  {
    if done == 0 {
      assert LoadWrites(n)[..0] == [];
    } else if !Keyless(n) {
      AttemptKeepsOutcome(n, done);
    } else if InferredVersion(n) == 0 {
      FreshIsStable(n, done);
    } else if InferredVersion(n) == 1 {
      Version1ByInference(n, done);
    } else if InferredVersion(n) == 2 {
      Version2ByInference(n);
    } else {
      CurrentStoreIsStable(n, done);
    }
  }

  lemma {:induction false} ResilientRun(stores: seq<Store>)
    requires AttemptRun(stores) && Resilient(stores[0])
    ensures Resilient(stores[|stores| - 1]) && LoadedConfig(stores[|stores| - 1]) == LoadedConfig(stores[0])
  {
    var last := |stores| - 1;
    if last > 0 {
      ResilientRun(stores[..last]);
      assert CutOff(stores[last - 1], stores[last]);
      var done: nat :| done <= |LoadWrites(stores[last - 1])| && stores[last] == Attempt(stores[last - 1], done);
      ResilientAttempt(stores[last - 1], done);
    }
  }

  /** Without the condition, one cut-off attempt already loses the configuration. */
  lemma {:induction false} FragileAttempt(n: Store)
    requires Loadable(n) && !Resilient(n)
    ensures |LoadWrites(n)| >= 1 && LoadedConfig(Attempt(n, 1)) != LoadedConfig(n)
  {
    if InferredVersion(n) == 1 {
      Version1ByInference(n, 0);
      assert |LoadWrites(n)| >= 3;
      Version1ByInference(n, 1);
    } else {
      Version2ByInference(n);
      assert DecodeAll(V2Entries(n))[0].Some?;
    }
  }

  /** The exact condition: a start can be cut off at any write, any number of times, without changing the
      configuration finally loaded, if and only if the store is resilient. */
  lemma {:induction false} ConvergesIffResilient(n: Store)
    requires Loadable(n)
    ensures Resilient(n) <==>
            forall stores | AttemptRun(stores) && stores[0] == n :: LoadedConfig(stores[|stores| - 1]) == LoadedConfig(n)
  {
    if Resilient(n) {
      forall stores | AttemptRun(stores) && stores[0] == n
        ensures LoadedConfig(stores[|stores| - 1]) == LoadedConfig(n)
      {
        ResilientRun(stores);
      }
    } else {
      FragileAttempt(n);
      var stores := [n, Attempt(n, 1)];
      assert CutOff(n, Attempt(n, 1));
      assert AttemptRun(stores) && stores[|stores| - 1] == Attempt(n, 1);
    }
  }

  // ---------------------------------------------------------------------------------------------
  // What is loaded, in the words of the store
  // ---------------------------------------------------------------------------------------------

  /** The two mandatory words name a profile exactly when the key word is address, endpoint and valid bit, with anything
      in the seven bits above, and the low half of the cluster word is a cluster; none of the three is zero. */
  lemma DecodableIff(keyWord: u32, clusterWord: u32)
    ensures Decodable(keyWord, clusterWord) <==>
            && (exists shortAddr: u16, endpoint: u8, above: nat ::
                  shortAddr != 0 && endpoint != 0 && above < 0x80
                  && KeyWordIs(keyWord, shortAddr, endpoint, above))
            && (exists clusterId: u16, above: nat :: clusterId != 0 && ClusterWordIs(clusterWord, clusterId, above))
  {
    var shortAddr, endpoint, above := keyWord % 0x1_0000, (keyWord / 0x1_0000) % 0x100, keyWord / 0x200_0000;
    SplitKeyWord(keyWord);
    if Decodable(keyWord, clusterWord) {
      assert KeyWordIs(keyWord, shortAddr, endpoint, above);
      assert ClusterWordIs(clusterWord, clusterWord % 0x1_0000, clusterWord / 0x1_0000);
    }
    if s: u16, e: u8, a: nat :| s != 0 && e != 0 && a < 0x80 && KeyWordIs(keyWord, s, e, a) {
      JoinKeyWord(s, e, a);
    }
    if c: u16, a: nat :| c != 0 && ClusterWordIs(clusterWord, c, a) {
      assert clusterWord % 0x1_0000 == c;
    }
  }

  predicate KeyWordIs(word: u32, shortAddr: u16, endpoint: u8, above: nat) {
    word == shortAddr + endpoint * 0x1_0000 + 0x100_0000 + above * 0x200_0000
  }

  predicate ClusterWordIs(word: u32, clusterId: u16, above: nat) {
    word == clusterId + above * 0x1_0000
  }

  lemma SplitKeyWord(word: u32)
    ensures word == word % 0x1_0000 + ((word / 0x1_0000) % 0x100) * 0x1_0000 + ((word / VALID_BIT) % 2) * 0x100_0000
                    + (word / 0x200_0000) * 0x200_0000
    ensures word / 0x200_0000 < 0x80
  {
  }

  lemma JoinKeyWord(shortAddr: u16, endpoint: u8, above: nat)
    ensures var word := shortAddr + endpoint * 0x1_0000 + 0x100_0000 + above * 0x200_0000;
            word % 0x1_0000 == shortAddr && (word / 0x1_0000) % 0x100 == endpoint && (word / VALID_BIT) % 2 == 1
  {
    var word := shortAddr + endpoint * 0x1_0000 + 0x100_0000 + above * 0x200_0000;
    var high := endpoint + 0x100 + above * 0x200;
    assert word == shortAddr + high * 0x1_0000;
    assert word / 0x1_0000 == high && word % 0x1_0000 == shortAddr;
    assert high % 0x100 == endpoint;
    assert word / VALID_BIT == 1 + above * 2;
  }

  /** What a profile read from four keys says of the words there: the key word is its address and endpoint, the cluster
      word its cluster and capabilities, and the two optional words, 0 when missing, its intervals and its reportable
      change. */
  predicate ProfileOf(p: Profile, n: Store, slot: Field -> NvsKey) {
    && slot(KeyField) in n && n[slot(KeyField)] % 0x100_0000 == p.key.shortAddr + p.key.endpoint * 0x1_0000
    && slot(ClusterField) in n && n[slot(ClusterField)] % 0x100_0000 == p.key.clusterId + p.caps * 0x1_0000
    && (if slot(IntervalField) in n then n[slot(IntervalField)] else 0) == p.minInterval + p.maxInterval * 0x1_0000
    && (if slot(ReportableField) in n then n[slot(ReportableField)] else 0) == p.reportableChange
  }

  lemma LowWord(word: u32)
    ensures word % 0x100_0000 == word % 0x1_0000 + ((word / 0x1_0000) % 0x100) * 0x1_0000
    ensures word == word % 0x1_0000 + (word / 0x1_0000) * 0x1_0000
  {
  }

  lemma LegacyProfileMeans(n: Store, i: nat)
    requires LegacyWords(n, i).Some?
    ensures ProfileOf(Decode(LegacyWords(n, i).value), n, f => LegacySlot(f, i))
  {
    var w := LegacyWords(n, i).value;
    LowWord(w.key);
    LowWord(w.cluster);
    LowWord(w.interval);
  }

  lemma CurrentProfileMeans(n: Store, i: nat)
    requires CurrentWords(n, i).Some?
    ensures ProfileOf(Decode(CurrentWords(n, i).value), n, f => Slot(f, i))
  {
    var w := CurrentWords(n, i).value;
    LowWord(w.key);
    LowWord(w.cluster);
    LowWord(w.interval);
  }

  /** Whether legacy slot `i` is there to be migrated, in the store's own words. */
  ghost predicate LegacyUsable(n: Store, i: nat) {
    && i < 16 && LegacyProfileCount in n && i < n[LegacyProfileCount]
    && LegacySlot(KeyField, i) in n && LegacySlot(ClusterField, i) in n
    && Decodable(n[LegacySlot(KeyField, i)], n[LegacySlot(ClusterField, i)])
  }

  /** Loading a store of version 1 or 2 that counts no current profile: profile `j` is what the words of legacy slot
      `from[j]` say, `from` runs through exactly the usable legacy slots in increasing order, and there are no other
      profiles. */
  lemma MigratedProfilesMean(n: Store) returns (from: seq<nat>)
    requires Versioned(n) && n[SchemaVersion] < CURRENT_SCHEMA && Get(n, ProfileCount, 0) == 0
    ensures |from| <= MAX_PROFILES == |LoadedConfig(n).profiles|
    ensures forall j | 0 <= j < |from| ::
              LoadedConfig(n).profiles[j].Some?
              && ProfileOf(LoadedConfig(n).profiles[j].value, n, f => LegacySlot(f, from[j]))
    ensures forall j | |from| <= j < MAX_PROFILES :: LoadedConfig(n).profiles[j] == None
    ensures forall i: nat :: i in from <==> LegacyUsable(n, i)
    ensures forall j, k | 0 <= j < k < |from| :: from[j] < from[k]
  {
    from := MigrationPreservesConfig(n);
    var count, entries := Capped(Get(n, LegacyProfileCount, 0)), V2Entries(n);
    hide LegacyEntries, LoadedConfig, V2Entries, Versioned, Decode, ProfileOf;
    forall j | 0 <= j < |from| ensures ProfileOf(Decode(entries[j]), n, f => LegacySlot(f, from[j])) {
      LegacyProfileMeans(n, from[j]);
    }
    forall i: nat ensures i in from <==> LegacyUsable(n, i) {
      assert i < count && LegacyWords(n, i).Some? <==> LegacyUsable(n, i);
    }
  }

  /** A profile in a slot of the loaded table is what the words of that slot of the store say; the slot is below the
      stored count, of which at most sixteen are read. */
  lemma LoadedProfilesMean(n: Store, i: nat)
    requires i < MAX_PROFILES
    ensures |ReadConfig(n).profiles| == MAX_PROFILES
    ensures ReadConfig(n).profiles[i].Some? <==>
            && ProfileCount in n && i < n[ProfileCount]
            && Slot(KeyField, i) in n && Slot(ClusterField, i) in n
            && Decodable(n[Slot(KeyField, i)], n[Slot(ClusterField, i)])
    ensures ReadConfig(n).profiles[i].Some? ==> ProfileOf(ReadConfig(n).profiles[i].value, n, f => Slot(f, i))
  {
    if CurrentWords(n, i).Some? {
      CurrentProfileMeans(n, i);
    }
    hide Decodable, Decode, ProfileOf;
  }

  /** Where a value comes from: the first of two keys, unless missing, then the second, then a default; and the default
      again when what was found is out of range. */
  predicate TakenFrom(value: int, n: Store, first: NvsKey, second: NvsKey, lo: int, hi: int, default: int) {
    if first in n then value == if lo <= n[first] <= hi then n[first] else default
    else if second in n then value == if lo <= n[second] <= hi then n[second] else default
    else value == default
  }

  /** The scalars a load ends with: version 1 stores give them under their legacy keys; a timeout of zero or more than
      five retries is replaced by 5000 ms and 1. */
  lemma LoadedScalarsMean(n: Store)
    requires Versioned(n)
    ensures var c := LoadedConfig(n);
            if n[SchemaVersion] == 1 then
              && TakenFrom(c.timeoutMs, n, LegacyTimeoutMs, TimeoutMs, 1, 0xFFFF_FFFF, 5000)
              && TakenFrom(c.maxRetries, n, LegacyMaxRetries, MaxRetries, 0, 5, 1)
            else
              && TakenFrom(c.timeoutMs, n, TimeoutMs, TimeoutMs, 1, 0xFFFF_FFFF, 5000)
              && TakenFrom(c.maxRetries, n, MaxRetries, MaxRetries, 0, 5, 1)
  {
    if n[SchemaVersion] < CURRENT_SCHEMA {
      var from := MigrationPreservesConfig(n);
    } else {
      assert LoadedStore(n) == n;
    }
    hide LoadedConfig, Versioned;
  }

  /** A store without a schema key: any current key makes it current; else a legacy profile count or first legacy
      profile makes it version 2; else a legacy scalar makes it version 1; else it is a fresh install, with defaults. */
  lemma KeylessLoads(n: Store)
    requires Keyless(n)
    ensures var c := LoadedConfig(n);
            if TimeoutMs in n || MaxRetries in n || ProfileCount in n || Slot(KeyField, 0) in n then c == ReadConfig(n)
            else if LegacyProfileCount in n || LegacySlot(KeyField, 0) in n then
              c == Config(5000, 1, DecodeAll(V2Entries(n)))
            else
              && c.profiles == NoProfiles()
              && TakenFrom(c.timeoutMs, n, LegacyTimeoutMs, TimeoutMs, 1, 0xFFFF_FFFF, 5000)
              && TakenFrom(c.maxRetries, n, LegacyMaxRetries, MaxRetries, 0, 5, 1)
  {
    hide SameLegacy, ProfileWrites, LegacyEntries, V2Writes;
    if HasCurrentKeys(n) {
      CurrentStoreIsStable(n, 0);
    } else if InferredVersion(n) == 2 {
      LegacyProfilesSurvive(n);
    } else if InferredVersion(n) == 1 {
      Version1ByInference(n, 0);
    } else {
      BumpOnly(n);
    }
  }
}
