/**
 The two-tier cache of `fetchAppRegistry`: an in-memory registry with its
 timestamp, and one durable record in local storage. The clock reading, the
 build's outcome and the build's completion time are parameters; storage is a
 field of the state.
 */
module Cache {
  import opened Options
  import opened OrderedMap
  import opened Registry
  import opened Lookup

  /** Seven days in milliseconds. */
  const CacheTtl: int := 1000 * 60 * 60 * 24 * 7

  /** The durable form of a registry snapshot: its entries as key/entry pairs and the time they were built. */
  datatype CacheRecord = CacheRecord(data: seq<(string, RegistryEntry)>, timestamp: int)

  /** What the storage key holds: a parseable record, or something that does not parse as one. */
  datatype Stored = Corrupt | Saved(record: CacheRecord)

  /** The in-memory registry (null before loading), its timestamp, and the storage key's content. */
  datatype CacheState = CacheState(memory: Option<Registry>, stamp: int, storage: Option<Stored>)

  /** What a call to `buildRegistry` did. */
  datatype BuildOutcome = Built(registry: Registry) | BuildThrew

  /** What `fetchAppRegistry` returned: the entries, or the build's error re-thrown. */
  datatype Fetched = Entries(entries: seq<RegistryEntry>) | Raised

  /** The initial state of a page: nothing in memory, timestamp 0. */
  function Initial(storage: Option<Stored>): CacheState {
    CacheState(None, 0, storage)
  }

  predicate FreshAt(now: int, stamp: int) {
    now - stamp < CacheTtl
  }

  /** `loadFromStorage`: a record counts only if it parses and its timestamp is truthy (non-zero). */
  function LoadFromStorage(storage: Option<Stored>): (r: Option<CacheRecord>)
    ensures r.Some? <==> storage.Some? && storage.value.Saved? && storage.value.record.timestamp != 0
    ensures r.Some? ==> r.value == storage.value.record
  {
    match storage
    case Some(Saved(record)) => if record.timestamp != 0 then Some(record) else None
    case _ => None
  }

  /** The entries of a record re-keyed by their app id. */
  function ByAppId(data: seq<(string, RegistryEntry)>): (r: seq<(string, RegistryEntry)>)
    ensures |r| == |data|
    ensures forall i :: 0 <= i < |data| ==> r[i] == (data[i].1.appId, data[i].1)
  {
    seq(|data|, i requires 0 <= i < |data| => (data[i].1.appId, data[i].1))
  }

  /** The entries of a record keyed by app id: one per app id, the last one written for it. */
  function DedupeByAppId(data: seq<(string, RegistryEntry)>): seq<RegistryEntry> {
    Values(FromPairs(ByAppId(data)))
  }

  /** The last entry of `data` whose app id is `id`, independent of how the map is built. */
  function LastForApp(data: seq<(string, RegistryEntry)>, id: string): Option<RegistryEntry> {
    if |data| == 0 then None
    else if data[|data| - 1].1.appId == id then Some(data[|data| - 1].1)
    else LastForApp(data[..|data| - 1], id)
  }

  lemma {:induction false} ByAppIdLastValue(data: seq<(string, RegistryEntry)>, id: string)
    ensures LastValue(ByAppId(data), id) == LastForApp(data, id)
  {
    if |data| != 0 {
      ByAppIdLastValue(data[..|data| - 1], id);
      assert ByAppId(data)[..|data| - 1] == ByAppId(data[..|data| - 1]);
    }
  }

  /**
   Deduplicating a record leaves one entry per app id, namely the last entry
   the record holds for it, and loses no app id.
   */
  lemma DedupeSpec(data: seq<(string, RegistryEntry)>)
    ensures var r := DedupeByAppId(data);
            && (forall i, j :: 0 <= i < j < |r| ==> r[i].appId != r[j].appId)
            && (forall e :: e in r ==> LastForApp(data, e.appId) == Some(e))
            && (forall k :: 0 <= k < |data| ==> exists e :: e in r && e.appId == data[k].1.appId)
  {
    var pairs := ByAppId(data);
    var m := FromPairs(pairs);
    var r := DedupeByAppId(data);
    FromPairsElements(pairs);
    assert forall i :: 0 <= i < |m| ==> m[i].0 == m[i].1.appId by {
      forall i | 0 <= i < |m| ensures m[i].0 == m[i].1.appId {
        assert m[i] in pairs;
      }
    }
    forall e | e in r ensures LastForApp(data, e.appId) == Some(e) {
      var i :| 0 <= i < |r| && r[i] == e;
      assert m[i].0 == e.appId;
      assert IndexOf(m, e.appId) == Some(i);
      FromPairsGet(pairs, e.appId);
      ByAppIdLastValue(data, e.appId);
    }
    forall k | 0 <= k < |data| ensures exists e :: e in r && e.appId == data[k].1.appId {
      var id := data[k].1.appId;
      assert pairs[k].0 == id;
      FromPairsHasKey(pairs, id);
      var j :| 0 <= j < |m| && m[j].0 == id;
      assert r[j] in r;
    }
  }

  /** The cache and result after adopting a durable record. */
  function AdoptRecord(s: CacheState, record: CacheRecord): (CacheState, Fetched) {
    (CacheState(Some(FromPairs(record.data)), record.timestamp, s.storage), Entries(DedupeByAppId(record.data)))
  }

  /**
   `fetchAppRegistry`: fresh memory; else a fresh durable record; else the
   build, unless it is empty or throws and a durable record exists, in which
   case the (stale) record; a throw with no record is re-thrown.
   */
  function FetchAppRegistry(s: CacheState, now: int, build: BuildOutcome, builtAt: int): (r: (CacheState, Fetched))
    ensures r.1.Raised? <==>
              && !(s.memory.Some? && FreshAt(now, s.stamp))
              && build.BuildThrew?
              && LoadFromStorage(s.storage).None?
    ensures r.1.Raised? ==> r.0 == s
    ensures !r.1.Raised? ==> r.0.memory.Some?
    ensures r.0.stamp != s.stamp ==> r.0.stamp == builtAt || (LoadFromStorage(s.storage).Some? && r.0.stamp == LoadFromStorage(s.storage).value.timestamp)
    ensures && !(s.memory.Some? && FreshAt(now, s.stamp))
            && build.Built? && LoadFromStorage(s.storage).None?
            ==> r.0 == CacheState(Some(build.registry), builtAt, Some(Saved(CacheRecord(build.registry, builtAt))))
                && r.1 == Entries(Values(build.registry))
  {
    if s.memory.Some? && FreshAt(now, s.stamp) then (s, Entries(Values(s.memory.value)))
    else
      var stored := LoadFromStorage(s.storage);
      if stored.Some? && FreshAt(now, stored.value.timestamp) then AdoptRecord(s, stored.value)
      else
        match build
        case Built(reg) =>
          if |reg| == 0 && stored.Some? then AdoptRecord(s, stored.value)
          else (CacheState(Some(reg), builtAt, Some(Saved(CacheRecord(reg, builtAt)))), Entries(Values(reg)))
        case BuildThrew =>
          if stored.Some? then AdoptRecord(s, stored.value)
          else (s, Raised)
  }

  /** `clearCache`: memory back to null with timestamp 0, the storage key removed. */
  function ClearCache(s: CacheState): (r: CacheState)
    ensures r == Initial(None)
  {
    CacheState(None, 0, None)
  }

  /** `refreshRegistry`: clear both tiers, then fetch. */
  function RefreshRegistry(s: CacheState, now: int, build: BuildOutcome, builtAt: int): (CacheState, Fetched) {
    FetchAppRegistry(ClearCache(s), now, build, builtAt)
  }

  /** What `getAppRegistryEntry` resolved to, or the load's error. */
  datatype Resolved = Found(entry: Option<RegistryEntry>) | LoadRaised

  /** `getAppRegistryEntry`: make sure a fresh registry is loaded, then resolve. */
  function GetAppRegistryEntry(s: CacheState, now: int, appname: string, pathname: Option<string>,
                               build: BuildOutcome, builtAt: int): (r: (CacheState, Resolved))
    ensures r.1.LoadRaised? ==> r.0 == s
    ensures s.memory.Some? && FreshAt(now, s.stamp) ==> r == (s, Found(Resolve(s.memory.value, appname, pathname)))
    ensures !(s.memory.Some? && FreshAt(now, s.stamp)) ==>
              && r.0 == FetchAppRegistry(s, now, build, builtAt).0
              && (r.1.LoadRaised? <==> FetchAppRegistry(s, now, build, builtAt).1.Raised?)
    ensures r.1.Found? ==> r.0.memory.Some? && r.1 == Found(Resolve(r.0.memory.value, appname, pathname))
  {
    if s.memory.None? || now - s.stamp >= CacheTtl then
      var (s1, fetched) := FetchAppRegistry(s, now, build, builtAt);
      if fetched.Raised? then (s1, LoadRaised)
      else
        match s1.memory
        case None => (s1, Found(None))
        case Some(reg) => (s1, Found(Resolve(reg, appname, pathname)))
    else (s, Found(Resolve(s.memory.value, appname, pathname)))
  }

  /** Within the TTL the in-memory registry is returned as is, whatever a build would have produced. */
  lemma MemoryShortCircuit(s: CacheState, now: int, b1: BuildOutcome, t1: int, b2: BuildOutcome, t2: int)
    requires s.memory.Some? && FreshAt(now, s.stamp)
    ensures FetchAppRegistry(s, now, b1, t1) == FetchAppRegistry(s, now, b2, t2) == (s, Entries(Values(s.memory.value)))
  {
  }

  /** A fresh durable record is adopted with its own timestamp, without building. */
  lemma AdoptFreshRecord(s: CacheState, now: int, build: BuildOutcome, builtAt: int)
    requires !(s.memory.Some? && FreshAt(now, s.stamp))
    requires LoadFromStorage(s.storage).Some? && FreshAt(now, LoadFromStorage(s.storage).value.timestamp)
    ensures var rec := LoadFromStorage(s.storage).value;
            FetchAppRegistry(s, now, build, builtAt)
            == (CacheState(Some(FromPairs(rec.data)), rec.timestamp, s.storage), Entries(DedupeByAppId(rec.data)))
  {
  }

  /** A non-empty build is adopted, stamped with its completion time, and persisted. */
  lemma AdoptNonEmptyBuild(s: CacheState, now: int, reg: Registry, builtAt: int)
    requires !(s.memory.Some? && FreshAt(now, s.stamp))
    requires !(LoadFromStorage(s.storage).Some? && FreshAt(now, LoadFromStorage(s.storage).value.timestamp))
    requires |reg| > 0
    ensures FetchAppRegistry(s, now, Built(reg), builtAt)
            == (CacheState(Some(reg), builtAt, Some(Saved(CacheRecord(reg, builtAt)))), Entries(Values(reg)))
  {
  }

  /**
   With no usable record, an empty build is adopted and persisted like any
   other, and a later call within seven days serves it without building: after
   a rate-limited listing the registry is empty for a week.
   */
  lemma EmptyBuildKeptForAWeek(s: CacheState, now: int, builtAt: int, later: int, build: BuildOutcome, t: int)
    requires !(s.memory.Some? && FreshAt(now, s.stamp))
    requires LoadFromStorage(s.storage).None?
    requires FreshAt(later, builtAt)
    ensures var (s1, r1) := FetchAppRegistry(s, now, Built([]), builtAt);
            && r1 == Entries([])
            && s1.storage == Some(Saved(CacheRecord([], builtAt)))
            && FetchAppRegistry(s1, later, build, t) == (s1, Entries([]))
  {
  }

  /** An empty or failed build falls back to a stale durable record, keeping the record's timestamp. */
  lemma StaleFallback(s: CacheState, now: int, build: BuildOutcome, builtAt: int)
    requires !(s.memory.Some? && FreshAt(now, s.stamp))
    requires LoadFromStorage(s.storage).Some? && !FreshAt(now, LoadFromStorage(s.storage).value.timestamp)
    requires build == Built([]) || build == BuildThrew
    ensures var rec := LoadFromStorage(s.storage).value;
            FetchAppRegistry(s, now, build, builtAt)
            == (CacheState(Some(FromPairs(rec.data)), rec.timestamp, s.storage), Entries(DedupeByAppId(rec.data)))
  {
  }

  /** After a refresh the result comes from the new build, never from a record that was there before. */
  lemma RefreshUsesBuild(s: CacheState, now: int, build: BuildOutcome, builtAt: int)
    ensures build.BuildThrew? ==> RefreshRegistry(s, now, build, builtAt).1 == Raised
    ensures build.Built? ==> RefreshRegistry(s, now, build, builtAt).1 == Entries(Values(build.registry))
  {
  }

  /**
   The persisted snapshot reads back as the same registry: with memory lost but
   storage kept, a later call within the TTL adopts it without building.
   */
  lemma PersistedSnapshotReloads(s: CacheState, now: int, reg: Registry, builtAt: int, later: int, build: BuildOutcome, t: int)
    requires !(s.memory.Some? && FreshAt(now, s.stamp))
    requires !(LoadFromStorage(s.storage).Some? && FreshAt(now, LoadFromStorage(s.storage).value.timestamp))
    requires |reg| > 0 && UniqueKeys(reg) && builtAt != 0 && FreshAt(later, builtAt)
    ensures var s1 := FetchAppRegistry(s, now, Built(reg), builtAt).0;
            var s2 := FetchAppRegistry(CacheState(None, 0, s1.storage), later, build, t);
            s2.0.memory == Some(reg) && s2.0.stamp == builtAt && s2.1 == Entries(DedupeByAppId(reg))
  {
    FromPairsOfMap(reg);
  }

  /** Looking up twice with the same arguments gives the same answer the second time. */
  lemma LookupIdempotent(s: CacheState, now: int, appname: string, pathname: Option<string>, build: BuildOutcome, builtAt: int)
    ensures var (s1, r1) := GetAppRegistryEntry(s, now, appname, pathname, build, builtAt);
            GetAppRegistryEntry(s1, now, appname, pathname, build, builtAt).1 == r1
  {
    var (s1, r1) := GetAppRegistryEntry(s, now, appname, pathname, build, builtAt);
    if s1.memory == Some([]) {
      assert FromPairs<string, RegistryEntry>([]) == [];
    }
  }
}
