/** The persisted configuration: what the words in non-volatile storage mean, and which words `save` and the
    schema migrations write, in order. */
module ConfigModel {
  import opened Common

  const CURRENT_SCHEMA: u32 := 3
  const DEFAULT_TIMEOUT_MS: u32 := 5000
  const DEFAULT_RETRIES: u8 := 1
  const MAX_RETRIES: u8 := 5
  const MAX_PROFILES: nat := 16
  const VALID_BIT: int := 0x100_0000

  datatype Field = KeyField | ClusterField | IntervalField | ReportableField

  /** The storage keys; distinct constructors are distinct key strings. */
  datatype NvsKey =
    | SchemaVersion
    | TimeoutMs
    | MaxRetries
    | ProfileCount
    | LegacyProfileCount
    | LegacyTimeoutMs
    | LegacyMaxRetries
    | Slot(field: Field, index: nat)
    | LegacySlot(field: Field, index: nat)

  type Store = map<NvsKey, u32>

  datatype ProfileKey = ProfileKey(shortAddr: u16, endpoint: u8, clusterId: u16)

  datatype Profile = Profile(key: ProfileKey, minInterval: u16, maxInterval: u16, reportableChange: u32, caps: u8)

  /** The four words one profile is stored as. */
  datatype Words = Words(key: u32, cluster: u32, interval: u32, reportable: u32)

  datatype Config = Config(timeoutMs: u32, maxRetries: u8, profiles: seq<Option<Profile>>)

  predicate GoodKey(key: ProfileKey) {
    key.shortAddr != 0 && key.endpoint != 0 && key.clusterId != 0
  }

  ghost predicate GoodProfiles(profiles: seq<Option<Profile>>) {
    |profiles| == MAX_PROFILES && forall i | 0 <= i < |profiles| && profiles[i].Some? :: GoodKey(profiles[i].value.key)
  }

  ghost predicate GoodConfig(c: Config) {
    c.timeoutMs > 0 && c.maxRetries <= MAX_RETRIES && GoodProfiles(c.profiles)
  }

  /** The profile a lookup answers with: the first slot in use with that key. */
  function Lookup(profiles: seq<Option<Profile>>, key: ProfileKey): Option<Profile> {
    if profiles == [] then None
    else if profiles[0].Some? && profiles[0].value.key == key then profiles[0]
    else Lookup(profiles[1..], key)
  }

  // ---------------------------------------------------------------------------------------------
  // Words
  // ---------------------------------------------------------------------------------------------

  function Encode(p: Profile): Words {
    Words(p.key.shortAddr + p.key.endpoint * 0x1_0000 + VALID_BIT,
          p.key.clusterId + p.caps * 0x1_0000,
          p.minInterval + p.maxInterval * 0x1_0000,
          p.reportableChange)
  }

  /** `decode_profile_key_word` and the cluster check: whether the two mandatory words name a profile. */
  predicate Decodable(keyWord: u32, clusterWord: u32) {
    && (keyWord / VALID_BIT) % 2 == 1
    && keyWord % 0x1_0000 != 0 && (keyWord / 0x1_0000) % 0x100 != 0
    && clusterWord % 0x1_0000 != 0
  }

  function Decode(w: Words): Profile {
    Profile(ProfileKey(w.key % 0x1_0000, (w.key / 0x1_0000) % 0x100, w.cluster % 0x1_0000),
            w.interval % 0x1_0000, w.interval / 0x1_0000, w.reportable, (w.cluster / 0x1_0000) % 0x100)
  }

  lemma PackUnpack(low: u16, high: u8, top: nat)
    requires top <= 1
    ensures var w := low + high * 0x1_0000 + top * VALID_BIT;
            w % 0x1_0000 == low && (w / 0x1_0000) % 0x100 == high && (w / VALID_BIT) % 2 == top
  {
    var w := low + high * 0x1_0000 + top * VALID_BIT;
    assert w / 0x1_0000 == high + top * 0x100;
    assert w / VALID_BIT == top;
  }

  /** Every profile with non-zero short address, endpoint and cluster survives bit packing. */
  lemma WordsRoundTrip(p: Profile)
    requires GoodKey(p.key)
    ensures Decodable(Encode(p).key, Encode(p).cluster) && Decode(Encode(p)) == p
  {
    PackUnpack(p.key.shortAddr, p.key.endpoint, 1);
    PackUnpack(p.key.clusterId, p.caps, 0);
    assert Encode(p).interval / 0x1_0000 == p.maxInterval;
  }

  lemma DecodedIsGood(w: Words)
    requires Decodable(w.key, w.cluster)
    ensures GoodKey(Decode(w).key)
  {
  }

  // ---------------------------------------------------------------------------------------------
  // Reading
  // ---------------------------------------------------------------------------------------------

  function Get(n: Store, k: NvsKey, otherwise: u32): u32 {
    if k in n then n[k] else otherwise
  }

  /** The words under four keys, when the two mandatory ones are there and decodable; the others default to 0. */
  function WordsAt(n: Store, key: NvsKey, cluster: NvsKey, interval: NvsKey, reportable: NvsKey): Option<Words> {
    if key in n && cluster in n && Decodable(n[key], n[cluster])
    then Some(Words(n[key], n[cluster], Get(n, interval, 0), Get(n, reportable, 0)))
    else None
  }

  function CurrentWords(n: Store, i: nat): Option<Words> {
    WordsAt(n, Slot(KeyField, i), Slot(ClusterField, i), Slot(IntervalField, i), Slot(ReportableField, i))
  }

  function LegacyWords(n: Store, i: nat): Option<Words> {
    WordsAt(n, LegacySlot(KeyField, i), LegacySlot(ClusterField, i), LegacySlot(IntervalField, i),
            LegacySlot(ReportableField, i))
  }

  function Capped(count: u32): nat {
    if count > MAX_PROFILES then MAX_PROFILES else count
  }

  function ReadProfile(n: Store, i: nat): Option<Profile> {
    if i < Capped(Get(n, ProfileCount, 0)) && CurrentWords(n, i).Some?
    then Some(Decode(CurrentWords(n, i).value))
    else None
  }

  /** What `load_current_values` and `load_reporting_profiles` read. */
  function ReadConfig(n: Store): Config {
    Config(if TimeoutMs in n && n[TimeoutMs] > 0 then n[TimeoutMs] else DEFAULT_TIMEOUT_MS,
           if MaxRetries in n && n[MaxRetries] <= MAX_RETRIES then n[MaxRetries] else DEFAULT_RETRIES,
           seq(MAX_PROFILES, (i: nat) => ReadProfile(n, i)))
  }

  /** Whatever the store holds, the configuration read from it meets the rules the setters enforce. */
  lemma ReadConfigIsGood(n: Store)
    ensures GoodConfig(ReadConfig(n))
  {
    forall i: nat | i < MAX_PROFILES && ReadProfile(n, i).Some? ensures GoodKey(ReadProfile(n, i).value.key) {
      DecodedIsGood(CurrentWords(n, i).value);
    }
  }

  // ---------------------------------------------------------------------------------------------
  // Writing
  // ---------------------------------------------------------------------------------------------

  datatype Write = Write(key: NvsKey, value: u32)

  function Apply(n: Store, ws: seq<Write>): Store {
    if ws == [] then n
    else var last := ws[|ws| - 1]; Apply(n, ws[..|ws| - 1])[last.key := last.value]
  }

  function EntryWrites(i: nat, w: Words): seq<Write> {
    [Write(Slot(KeyField, i), w.key), Write(Slot(ClusterField, i), w.cluster),
     Write(Slot(IntervalField, i), w.interval), Write(Slot(ReportableField, i), w.reportable)]
  }

  /** The entries, compacted into slots 0, 1, 2, ... */
  function ProfileWrites(entries: seq<Words>): seq<Write> {
    if entries == [] then []
    else var n := |entries| - 1; ProfileWrites(entries[..n]) + EntryWrites(n, entries[n])
  }

  /** The words of the slots in use, in slot order. */
  function Compacted(profiles: seq<Option<Profile>>): seq<Words> {
    if profiles == [] then []
    else
      var n := |profiles| - 1;
      Compacted(profiles[..n]) + if profiles[n].Some? then [Encode(profiles[n].value)] else []
  }

  function SaveWrites(c: Config): seq<Write> {
    var entries := Compacted(c.profiles);
    [Write(TimeoutMs, c.timeoutMs), Write(MaxRetries, c.maxRetries), Write(SchemaVersion, CURRENT_SCHEMA)]
    + ProfileWrites(entries) + [Write(ProfileCount, Wrap32(|entries|))]
  }

  /** The decodable legacy entries among the first `count`, in order. */
  function LegacyEntries(n: Store, count: nat): (r: seq<Words>)
    ensures |r| <= count
  {
    if count == 0 then []
    else
      LegacyEntries(n, count - 1)
      + if LegacyWords(n, count - 1).Some? then [LegacyWords(n, count - 1).value] else []
  }

  function MigratedTimeout(n: Store): u32 {
    var timeout := Get(n, LegacyTimeoutMs, Get(n, TimeoutMs, DEFAULT_TIMEOUT_MS));
    if timeout > 0 then timeout else DEFAULT_TIMEOUT_MS
  }

  function MigratedRetries(n: Store): u32 {
    var retries := Get(n, LegacyMaxRetries, Get(n, MaxRetries, DEFAULT_RETRIES));
    if retries <= MAX_RETRIES then retries else DEFAULT_RETRIES
  }

  function V1Writes(n: Store): (ws: seq<Write>)
    ensures |ws| == 3
  {
    [Write(TimeoutMs, MigratedTimeout(n)), Write(MaxRetries, MigratedRetries(n)), Write(SchemaVersion, 2)]
  }

  function V2Entries(n: Store): seq<Words> {
    LegacyEntries(n, Capped(Get(n, LegacyProfileCount, 0)))
  }

  function V2Writes(n: Store): seq<Write> {
    if Get(n, ProfileCount, 0) > 0 then [Write(SchemaVersion, 3)]
    else
      ProfileWrites(V2Entries(n)) + [Write(ProfileCount, |V2Entries(n)|), Write(SchemaVersion, 3)]
  }

  /** Everything the migration from `version` writes. */
  function MigrationWrites(n: Store, version: u32): seq<Write> {
    if version == 1 then V1Writes(n) + V2Writes(n)
    else if version == 2 then V2Writes(n)
    else []
  }

  predicate HasCurrentKeys(n: Store) {
    TimeoutMs in n || MaxRetries in n || ProfileCount in n || Slot(KeyField, 0) in n
  }

  predicate HasLegacyV2Keys(n: Store) {
    TimeoutMs in n || MaxRetries in n || LegacyProfileCount in n || LegacySlot(KeyField, 0) in n
  }

  predicate HasLegacyV1Keys(n: Store) {
    LegacyTimeoutMs in n || LegacyMaxRetries in n
  }

  /** The schema key is missing, or holds 0: the version must be inferred. */
  predicate Keyless(n: Store) {
    Get(n, SchemaVersion, 0) == 0
  }

  /** 0 means a fresh install. */
  function InferredVersion(n: Store): u32 {
    if HasCurrentKeys(n) then CURRENT_SCHEMA
    else if HasLegacyV2Keys(n) then 2
    else if HasLegacyV1Keys(n) then 1
    else 0
  }

  /** A load succeeds, given the storage, unless the schema key is newer than the firmware. */
  predicate Loadable(n: Store) {
    Get(n, SchemaVersion, 0) <= CURRENT_SCHEMA
  }

  /** Everything an uninterrupted load writes. */
  function LoadWrites(n: Store): seq<Write> {
    if !Keyless(n) then MigrationWrites(n, n[SchemaVersion])
    else if InferredVersion(n) == 0 || InferredVersion(n) == CURRENT_SCHEMA then [Write(SchemaVersion, CURRENT_SCHEMA)]
    else MigrationWrites(n, InferredVersion(n))
  }

  /** The store an uninterrupted load leaves. */
  function LoadedStore(n: Store): Store {
    Apply(n, LoadWrites(n))
  }

  // ---------------------------------------------------------------------------------------------
  // Writes on a store
  // ---------------------------------------------------------------------------------------------

  ghost predicate Touches(ws: seq<Write>, k: NvsKey) {
    exists i :: 0 <= i < |ws| && ws[i].key == k
  }

  lemma {:induction false} ApplyAppend(n: Store, a: seq<Write>, b: seq<Write>)
    ensures Apply(n, a + b) == Apply(Apply(n, a), b)
  {
    if b == [] {
      assert a + b == a;
    } else {
      ApplyAppend(n, a, b[..|b| - 1]);
      assert (a + b)[..|a + b| - 1] == a + b[..|b| - 1];
    }
  }

  lemma ApplyOne(n: Store, w: Write)
    ensures Apply(n, [w]) == n[w.key := w.value]
  {
    assert [w][..0] == [];
  }

  lemma {:induction false} Untouched(n: Store, ws: seq<Write>, k: NvsKey)
    requires !Touches(ws, k)
    ensures k in Apply(n, ws) <==> k in n
    ensures k in n ==> Apply(n, ws)[k] == n[k]
  {
    if ws != [] {
      var front := ws[..|ws| - 1];
      assert !Touches(front, k) by {
        assert forall i | 0 <= i < |front| :: front[i] == ws[i];
      }
      Untouched(n, front, k);
    }
  }

  /** A key the writes touch ends up the same whatever the store was. */
  lemma {:induction false} TouchedForgets(n: Store, m: Store, ws: seq<Write>, k: NvsKey)
    requires Touches(ws, k)
    ensures k in Apply(n, ws) && k in Apply(m, ws) && Apply(n, ws)[k] == Apply(m, ws)[k]
  {
    var i :| 0 <= i < |ws| && ws[i].key == k;
    if ws[|ws| - 1].key != k {
      var front := ws[..|ws| - 1];
      assert front[i].key == k;
      TouchedForgets(n, m, front, k);
    }
  }

  /** Redoing a list of writes after any prefix of it is the same as doing it once. */
  lemma RedoAfterPrefix(n: Store, ws: seq<Write>, done: nat)
    requires done <= |ws|
    ensures Apply(Apply(n, ws[..done]), ws) == Apply(n, ws)
  {
    var half := Apply(n, ws[..done]);
    forall k ensures k in Apply(half, ws) <==> k in Apply(n, ws)
      ensures k in Apply(n, ws) ==> Apply(half, ws)[k] == Apply(n, ws)[k]
    {
      if Touches(ws, k) {
        TouchedForgets(half, n, ws, k);
      } else {
        assert !Touches(ws[..done], k);
        Untouched(n, ws[..done], k);
        Untouched(half, ws, k);
        Untouched(n, ws, k);
      }
    }
  }

  lemma ProfileWritesStep(entries: seq<Words>, w: Words)
    ensures ProfileWrites(entries + [w]) == ProfileWrites(entries) + EntryWrites(|entries|, w)
  {
    assert (entries + [w])[..|entries|] == entries;
  }

  lemma {:induction false} ProfileWritesTouchSlots(entries: seq<Words>, k: NvsKey)
    ensures Touches(ProfileWrites(entries), k) ==> k.Slot? && k.index < |entries|
  {
    if entries != [] {
      var n := |entries| - 1;
      var before := ProfileWrites(entries[..n]);
      ProfileWritesTouchSlots(entries[..n], k);
      if i :| 0 <= i < |ProfileWrites(entries)| && ProfileWrites(entries)[i].key == k {
        if i < |before| {
          assert before[i].key == k;
          assert Touches(before, k);
        } else {
          assert EntryWrites(n, entries[n])[i - |before|].key == k;
        }
      }
    }
  }

  lemma EntryStored(n: Store, i: nat, w: Words)
    ensures forall k :: k in Apply(n, EntryWrites(i, w)) <==> k in n || (k.Slot? && k.index == i)
    ensures var m := Apply(n, EntryWrites(i, w));
            && m[Slot(KeyField, i)] == w.key && m[Slot(ClusterField, i)] == w.cluster
            && m[Slot(IntervalField, i)] == w.interval && m[Slot(ReportableField, i)] == w.reportable
            && (forall k | k in n && !(k.Slot? && k.index == i) :: m[k] == n[k])
  {
    var e := EntryWrites(i, w);
    assert e[..3][..2] == e[..2] && e[..2][..1] == e[..1] && e[..1][..0] == [];
    assert Apply(n, e[..1]) == n[Slot(KeyField, i) := w.key];
    assert Apply(n, e[..2]) == Apply(n, e[..1])[Slot(ClusterField, i) := w.cluster];
    assert Apply(n, e[..3]) == Apply(n, e[..2])[Slot(IntervalField, i) := w.interval];
    assert Apply(n, e) == Apply(n, e[..3])[Slot(ReportableField, i) := w.reportable];
    forall k ensures k in Apply(n, e) <==> k in n || (k.Slot? && k.index == i) {
      if k.Slot? && k.index == i {
        match k.field
        case KeyField =>
        case ClusterField =>
        case IntervalField =>
        case ReportableField =>
      }
    }
  }

  /** After the writes, slot `i` holds exactly the words of entry `i`. */
  lemma {:induction false} ProfileWritesStore(n: Store, entries: seq<Words>, i: nat)
    requires i < |entries|
    requires forall j | 0 <= j < |entries| :: Decodable(entries[j].key, entries[j].cluster)
    ensures CurrentWords(Apply(n, ProfileWrites(entries)), i) == Some(entries[i])
  {
    hide EntryWrites, Decodable;
    var last := |entries| - 1;
    ApplyAppend(n, ProfileWrites(entries[..last]), EntryWrites(last, entries[last]));
    EntryStored(Apply(n, ProfileWrites(entries[..last])), last, entries[last]);
    if i < last {
      ProfileWritesStore(n, entries[..last], i);
    }
  }
}
