/** The state of a FileSystemClient as a value, its operations as functions over that value, and
    what they promise, singly and over sequences of calls. The class in module FileSystem holds
    the same state in mutable fields and is proved to agree with these functions. */
module ClientModel {
  import opened JavaTypes
  import opened CacheKeys

  /** A directory on disk. FileSystemUtils.getMetadataTablePath is not part of this model: it is
      the function `metadataTablePath` of the configuration, not assumed to be injective. */
  type Path = string

  /** The identity of a table object; the loaders mint a new one for every table they open. */
  type Handle = nat

  /** What a client is constructed with, plus the path function it uses. */
  datatype Config = Config(subDirectory: string, visibilityEnabled: bool,
                           metadataTablePath: (string, MetadataType) -> Path)

  /** An open table, recorded with the constructor arguments its loader passed to it. */
  datatype Table =
    | IndexTable(handle: Handle, subDirectory: string, adapterId: int16, typeName: JString,
                 indexName: JString, partition: ByteArray, format: JString,
                 requiresTimestamp: bool, visibilityEnabled: bool)
    | DataIndexTable(handle: Handle, subDirectory: string, adapterId: int16, typeName: JString,
                     format: JString, visibilityEnabled: bool)
    | MetadataTable(handle: Handle, directory: Path, requiresTimestamp: bool,
                    visibilityEnabled: bool)

  /** A cache entry: the key it was loaded for (the first of its equals class to be requested)
      and the table. */
  datatype Entry = Entry(key: CacheKey, table: Table)

  /** A loading cache, indexed by the representative of each key's equals class. */
  type Cache = map<CacheKey, Entry>

  datatype State = State(indexTableCache: Cache, dataIndexTableCache: Cache,
                         metadataTableCache: Cache, directories: set<Path>, nextHandle: Handle)

  /** What a get call leaves behind and returns. */
  datatype Loaded = Loaded(state: State, table: Table)

  // ---------------------------------------------------------------------------------------------
  // Loaders

  function MetadataDirectory(cfg: Config, t: MetadataType): Path
  {
    cfg.metadataTablePath(cfg.subDirectory, t)
  }

  /** loadIndexTable: a new index table for the key's fields. */
  function LoadIndexTable(cfg: Config, key: CacheKey, h: Handle): (t: Table)
    requires key.IndexCacheKey?
    ensures t.IndexTable? && t.handle == h
    ensures t.subDirectory == cfg.subDirectory && t.visibilityEnabled == cfg.visibilityEnabled
    ensures NewIndexCacheKey(t.adapterId, t.typeName, t.indexName, t.partition, t.format,
                             t.requiresTimestamp) == key
  {
    IndexTable(h, cfg.subDirectory, key.adapterId, key.typeName, key.indexName, key.partition,
               key.format, key.requiresTimestamp, cfg.visibilityEnabled)
  }

  /** loadDataIndexTable: a new data-index table for the key's fields. */
  function LoadDataIndexTable(cfg: Config, key: CacheKey, h: Handle): (t: Table)
    requires key.DataIndexCacheKey?
    ensures t.DataIndexTable? && t.handle == h
    ensures t.subDirectory == cfg.subDirectory && t.visibilityEnabled == cfg.visibilityEnabled
    ensures !key.requiresTimestamp ==> NewDataIndexCacheKey(t.adapterId, t.typeName, t.format) == key
  {
    DataIndexTable(h, cfg.subDirectory, key.adapterId, key.typeName, key.format,
                   cfg.visibilityEnabled)
  }

  /** loadMetadataTable: a new metadata table over the directory of the key's metadata type. */
  function LoadMetadataTable(cfg: Config, key: CacheKey, h: Handle): (t: Table)
    requires key.MetadataCacheKey?
    ensures t.MetadataTable? && t.handle == h && t.visibilityEnabled == cfg.visibilityEnabled
    ensures t.directory == MetadataDirectory(cfg, key.metadataType)
    ensures t.requiresTimestamp == key.requiresTimestamp
  {
    MetadataTable(h, MetadataDirectory(cfg, key.metadataType), key.requiresTimestamp,
                  cfg.visibilityEnabled)
  }

  /** The directories after loadMetadataTable: the key's metadata directory is created when it
      does not exist yet, and no other directory appears or disappears. */
  function CreateMetadataDirectory(cfg: Config, key: CacheKey, dirs: set<Path>): (r: set<Path>)
    requires key.MetadataCacheKey?
    ensures MetadataDirectory(cfg, key.metadataType) in r
    ensures forall d :: d != MetadataDirectory(cfg, key.metadataType) ==> (d in r <==> d in dirs)
  {
    var dir := MetadataDirectory(cfg, key.metadataType);
    if dir !in dirs then dirs + {dir} else dirs
  }

  // ---------------------------------------------------------------------------------------------
  // The invariant

  /** Every entry of `m` sits at the representative of the key it was loaded for. */
  ghost predicate KeysCanonical(m: Cache)
  {
    forall c | c in m :: Canonical(m[c].key) == c
  }

  ghost predicate IndexEntryValid(cfg: Config, e: Entry)
  {
    e.key.IndexCacheKey? && e.table == LoadIndexTable(cfg, e.key, e.table.handle)
  }

  ghost predicate DataIndexEntryValid(cfg: Config, e: Entry)
  {
    && e.key.DataIndexCacheKey?
    && !e.key.requiresTimestamp
    && e.table == LoadDataIndexTable(cfg, e.key, e.table.handle)
  }

  ghost predicate MetadataEntryValid(cfg: Config, e: Entry, dirs: set<Path>)
  {
    && e.key.MetadataCacheKey?
    && e.key == NewMetadataCacheKey(e.key.metadataType)
    && e.table == LoadMetadataTable(cfg, e.key, e.table.handle)
    && e.table.directory in dirs
  }

  /** No table in any cache has handle h. */
  ghost predicate HandleUnused(s: State, h: Handle)
  {
    && (forall c | c in s.indexTableCache :: s.indexTableCache[c].table.handle != h)
    && (forall c | c in s.dataIndexTableCache :: s.dataIndexTableCache[c].table.handle != h)
    && (forall c | c in s.metadataTableCache :: s.metadataTableCache[c].table.handle != h)
  }

  /** Every table in every cache has a handle below n. */
  ghost predicate HandlesBelow(s: State, n: Handle)
  {
    && (forall c | c in s.indexTableCache :: s.indexTableCache[c].table.handle < n)
    && (forall c | c in s.dataIndexTableCache :: s.dataIndexTableCache[c].table.handle < n)
    && (forall c | c in s.metadataTableCache :: s.metadataTableCache[c].table.handle < n)
  }

  /** Each cache holds only keys of its own class at their representatives, each table is the one
      its loader opened for the stored key, every cached metadata directory exists, and every
      cached handle is below nextHandle, so the next one minted is unused. */
  ghost predicate Valid(cfg: Config, s: State)
  {
    && KeysCanonical(s.indexTableCache)
    && KeysCanonical(s.dataIndexTableCache)
    && KeysCanonical(s.metadataTableCache)
    && (forall c | c in s.indexTableCache :: IndexEntryValid(cfg, s.indexTableCache[c]))
    && (forall c | c in s.dataIndexTableCache :: DataIndexEntryValid(cfg, s.dataIndexTableCache[c]))
    && (forall c | c in s.metadataTableCache ::
          MetadataEntryValid(cfg, s.metadataTableCache[c], s.directories))
    && HandlesBelow(s, s.nextHandle)
  }

  function Empty(dirs: set<Path>): (s: State)
    ensures forall cfg: Config :: Valid(cfg, s)
  {
    State(map[], map[], map[], dirs, 0)
  }

  /** `after` is `before` with one more key, c, and every entry of `before` kept as it was. */
  ghost predicate AddsOnly(before: Cache, after: Cache, c: CacheKey)
  {
    && c !in before
    && after.Keys == before.Keys + {c}
    && (forall c' | c' in before :: after[c'] == before[c'])
  }

  // ---------------------------------------------------------------------------------------------
  // The client's operations

  /** getIndexTable: look the key up in the index cache; on a miss, load a table for it and
      install it. */
  function GetIndexTable(cfg: Config, s: State, adapterId: int16, typeName: JString,
                         indexName: JString, partition: ByteArray, format: JString,
                         requiresTimestamp: bool): (r: Loaded)
    ensures var k := NewIndexCacheKey(adapterId, typeName, indexName, partition, format, requiresTimestamp);
            var c := Canonical(k);
            && c in r.state.indexTableCache
            && r.table == r.state.indexTableCache[c].table
            && (c in s.indexTableCache ==> r.state == s)
            && (c !in s.indexTableCache ==>
                  && AddsOnly(s.indexTableCache, r.state.indexTableCache, c)
                  && r.state.indexTableCache[c] == Entry(k, LoadIndexTable(cfg, k, s.nextHandle))
                  && r.state.dataIndexTableCache == s.dataIndexTableCache
                  && r.state.metadataTableCache == s.metadataTableCache
                  && r.state.directories == s.directories
                  && r.state.nextHandle == s.nextHandle + 1)
  {
    var k := NewIndexCacheKey(adapterId, typeName, indexName, partition, format, requiresTimestamp);
    var c := Canonical(k);
    if c in s.indexTableCache then
      Loaded(s, s.indexTableCache[c].table)
    else
      var t := LoadIndexTable(cfg, k, s.nextHandle);
      Loaded(s.(indexTableCache := s.indexTableCache[c := Entry(k, t)], nextHandle := s.nextHandle + 1), t)
  }

  /** getDataIndexTable: the same lookup-or-load on the data-index cache. */
  function GetDataIndexTable(cfg: Config, s: State, adapterId: int16, typeName: JString,
                             format: JString): (r: Loaded)
    ensures var k := NewDataIndexCacheKey(adapterId, typeName, format);
            var c := Canonical(k);
            && c in r.state.dataIndexTableCache
            && r.table == r.state.dataIndexTableCache[c].table
            && (c in s.dataIndexTableCache ==> r.state == s)
            && (c !in s.dataIndexTableCache ==>
                  && AddsOnly(s.dataIndexTableCache, r.state.dataIndexTableCache, c)
                  && r.state.dataIndexTableCache[c] == Entry(k, LoadDataIndexTable(cfg, k, s.nextHandle))
                  && r.state.indexTableCache == s.indexTableCache
                  && r.state.metadataTableCache == s.metadataTableCache
                  && r.state.directories == s.directories
                  && r.state.nextHandle == s.nextHandle + 1)
  {
    var k := NewDataIndexCacheKey(adapterId, typeName, format);
    var c := Canonical(k);
    if c in s.dataIndexTableCache then
      Loaded(s, s.dataIndexTableCache[c].table)
    else
      var t := LoadDataIndexTable(cfg, k, s.nextHandle);
      Loaded(s.(dataIndexTableCache := s.dataIndexTableCache[c := Entry(k, t)], nextHandle := s.nextHandle + 1), t)
  }

  /** getMetadataTable: the same lookup-or-load on the metadata cache; the loader also creates
      the metadata directory when it is missing. */
  function GetMetadataTable(cfg: Config, s: State, t: MetadataType): (r: Loaded)
    ensures var k := NewMetadataCacheKey(t);
            && k in r.state.metadataTableCache
            && r.table == r.state.metadataTableCache[k].table
            && (k in s.metadataTableCache ==> r.state == s)
            && (k !in s.metadataTableCache ==>
                  && AddsOnly(s.metadataTableCache, r.state.metadataTableCache, k)
                  && r.state.metadataTableCache[k] == Entry(k, LoadMetadataTable(cfg, k, s.nextHandle))
                  && r.state.directories == CreateMetadataDirectory(cfg, k, s.directories)
                  && r.state.indexTableCache == s.indexTableCache
                  && r.state.dataIndexTableCache == s.dataIndexTableCache
                  && r.state.nextHandle == s.nextHandle + 1)
  {
    var k := NewMetadataCacheKey(t);
    var c := Canonical(k);
    if c in s.metadataTableCache then
      Loaded(s, s.metadataTableCache[c].table)
    else
      var table := LoadMetadataTable(cfg, k, s.nextHandle);
      var dirs := CreateMetadataDirectory(cfg, k, s.directories);
      Loaded(s.(metadataTableCache := s.metadataTableCache[c := Entry(k, table)],
                directories := dirs, nextHandle := s.nextHandle + 1), table)
  }

  /** metadataTableExists: the metadata cache holds the type, or its directory exists (it may
      have been created by another process). It changes nothing: an existing directory answers
      true without a table being opened, and a false answer means the type is not cached. */
  function MetadataTableExists(cfg: Config, s: State, t: MetadataType): (r: bool)
    ensures MetadataDirectory(cfg, t) in s.directories ==> r
    ensures !r ==> NewMetadataCacheKey(t) !in s.metadataTableCache
  {
    Canonical(NewMetadataCacheKey(t)) in s.metadataTableCache
    || MetadataDirectory(cfg, t) in s.directories
  }

  /** invalidateDataIndexCache: drop the entry of the key's equals class, if there is one. */
  function InvalidateDataIndexCache(s: State, adapterId: int16, typeName: JString,
                                    format: JString): (r: State)
    ensures r.(dataIndexTableCache := s.dataIndexTableCache) == s
    ensures forall c | c in r.dataIndexTableCache ::
              c in s.dataIndexTableCache && r.dataIndexTableCache[c] == s.dataIndexTableCache[c]
  {
    s.(dataIndexTableCache := s.dataIndexTableCache - {Canonical(NewDataIndexCacheKey(adapterId, typeName, format))})
  }

  /** The filter of invalidateIndexCache, `k.typeName.equals(typeName) && k.indexName.equals(indexName)`,
      for a stored key whose names are not null. */
  predicate IndexMatches(key: CacheKey, indexName: JString, typeName: JString)
    requires key.IndexCacheKey? && key.typeName.Str? && key.indexName.Str?
    ensures IndexMatches(key, indexName, typeName)
            <==> key.typeName == typeName && key.indexName == indexName
  {
    StringEquals(key.typeName.value, typeName) && StringEquals(key.indexName.value, indexName)
  }

  /** Every key in the index cache has a typeName and an indexName; the filter of
      invalidateIndexCache throws a NullPointerException otherwise. */
  ghost predicate NamesPresent(s: State)
  {
    forall c | c in s.indexTableCache ::
      && s.indexTableCache[c].key.IndexCacheKey?
      && s.indexTableCache[c].key.typeName.Str?
      && s.indexTableCache[c].key.indexName.Str?
  }

  /** invalidateIndexCache: collect every index-cache key whose typeName and indexName match,
      then invalidate them all. */
  function InvalidateIndexCache(s: State, indexName: JString, typeName: JString): (r: State)
    requires NamesPresent(s)
    ensures r.(indexTableCache := s.indexTableCache) == s
    ensures forall c | c in r.indexTableCache ::
              && c in s.indexTableCache
              && r.indexTableCache[c] == s.indexTableCache[c]
              && !IndexMatches(s.indexTableCache[c].key, indexName, typeName)
    ensures forall c | c in s.indexTableCache ::
              !IndexMatches(s.indexTableCache[c].key, indexName, typeName) ==> c in r.indexTableCache
  {
    var matching := set c | c in s.indexTableCache && IndexMatches(s.indexTableCache[c].key, indexName, typeName);
    s.(indexTableCache := s.indexTableCache - matching)
  }

  // ---------------------------------------------------------------------------------------------
  // Single operations under the invariant

  /** getIndexTable keeps the invariant; the entry it returns was loaded for a key equal to the
      requested one, so the table serves the requested adapter, index, partition bytes, format
      and timestamp discipline (the type name is the one of the first request of its class); on
      a miss the new table's handle is not used by any other cached table. */
  lemma GetIndexTableKeepsValid(cfg: Config, s: State, adapterId: int16, typeName: JString,
                                indexName: JString, partition: ByteArray, format: JString,
                                requiresTimestamp: bool)
    requires Valid(cfg, s)
    ensures var k := NewIndexCacheKey(adapterId, typeName, indexName, partition, format, requiresTimestamp);
            var r := GetIndexTable(cfg, s, adapterId, typeName, indexName, partition, format, requiresTimestamp);
            && Valid(cfg, r.state)
            && KeyEquals(r.state.indexTableCache[Canonical(k)].key, k)
            && r.table.IndexTable?
            && r.table.adapterId == adapterId && r.table.indexName == indexName
            && ArraysEquals(r.table.partition, partition) && r.table.format == format
            && r.table.requiresTimestamp == requiresTimestamp
            && (Canonical(k) !in s.indexTableCache ==> HandleUnused(s, r.table.handle))
  {
    var k := NewIndexCacheKey(adapterId, typeName, indexName, partition, format, requiresTimestamp);
    var c := Canonical(k);
    if c in s.indexTableCache {
      KeyEqualsIffSameCanonical(s.indexTableCache[c].key, k);
    } else {
      KeyEqualsIffSameCanonical(k, k);
      assert HandleUnused(s, s.nextHandle);
    }
  }

  /** getDataIndexTable keeps the invariant and returns a table loaded for an equal key. */
  lemma GetDataIndexTableKeepsValid(cfg: Config, s: State, adapterId: int16, typeName: JString,
                                    format: JString)
    requires Valid(cfg, s)
    ensures var k := NewDataIndexCacheKey(adapterId, typeName, format);
            var r := GetDataIndexTable(cfg, s, adapterId, typeName, format);
            && Valid(cfg, r.state)
            && KeyEquals(r.state.dataIndexTableCache[Canonical(k)].key, k)
            && r.table.DataIndexTable?
            && r.table.adapterId == adapterId && r.table.format == format
            && (Canonical(k) !in s.dataIndexTableCache ==> HandleUnused(s, r.table.handle))
  {
    var k := NewDataIndexCacheKey(adapterId, typeName, format);
    var c := Canonical(k);
    if c in s.dataIndexTableCache {
      KeyEqualsIffSameCanonical(s.dataIndexTableCache[c].key, k);
    } else {
      KeyEqualsIffSameCanonical(k, k);
      assert HandleUnused(s, s.nextHandle);
    }
  }

  /** getMetadataTable keeps the invariant, returns a table over the type's metadata directory
      with the type's timestamp discipline, and that directory exists afterwards. */
  lemma GetMetadataTableKeepsValid(cfg: Config, s: State, t: MetadataType)
    requires Valid(cfg, s)
    ensures var r := GetMetadataTable(cfg, s, t);
            && Valid(cfg, r.state)
            && r.table == LoadMetadataTable(cfg, NewMetadataCacheKey(t), r.table.handle)
            && MetadataDirectory(cfg, t) in r.state.directories
            && (NewMetadataCacheKey(t) !in s.metadataTableCache ==> HandleUnused(s, r.table.handle))
  {
    var k := NewMetadataCacheKey(t);
    if k !in s.metadataTableCache {
      assert HandleUnused(s, s.nextHandle);
    } else {
      assert s.metadataTableCache[k].key == k;
    }
  }

  /** With the invariant, and nothing deleting directories, the metadata cache holds a type only
      when its directory exists: metadataTableExists answers exactly whether the directory
      exists. */
  lemma MetadataTableExistsIffDirectory(cfg: Config, s: State, t: MetadataType)
    requires Valid(cfg, s)
    ensures MetadataTableExists(cfg, s, t) <==> MetadataDirectory(cfg, t) in s.directories
  {
    var k := NewMetadataCacheKey(t);
    if k in s.metadataTableCache {
      assert s.metadataTableCache[k].key == k;
    }
  }

  /** invalidateDataIndexCache removes exactly the entry whose key equals the given one (no entry
      when there is none) and keeps the invariant. */
  lemma InvalidateDataIndexCacheRemovesEqualKey(cfg: Config, s: State, adapterId: int16,
                                                typeName: JString, format: JString)
    requires Valid(cfg, s)
    ensures var k := NewDataIndexCacheKey(adapterId, typeName, format);
            var r := InvalidateDataIndexCache(s, adapterId, typeName, format);
            && Valid(cfg, r)
            && (forall c | c in s.dataIndexTableCache ::
                  c in r.dataIndexTableCache <==> !KeyEquals(s.dataIndexTableCache[c].key, k))
            && ((forall c | c in s.dataIndexTableCache :: !KeyEquals(s.dataIndexTableCache[c].key, k)) ==> r == s)
  {
    var k := NewDataIndexCacheKey(adapterId, typeName, format);
    var r := InvalidateDataIndexCache(s, adapterId, typeName, format);
    forall c | c in s.dataIndexTableCache
      ensures c in r.dataIndexTableCache <==> !KeyEquals(s.dataIndexTableCache[c].key, k)
    {
      KeyEqualsIffSameCanonical(s.dataIndexTableCache[c].key, k);
    }
    if forall c | c in s.dataIndexTableCache :: !KeyEquals(s.dataIndexTableCache[c].key, k) {
      assert r.dataIndexTableCache == s.dataIndexTableCache;
    }
  }

  /** invalidateIndexCache keeps the invariant. */
  lemma InvalidateIndexCacheKeepsValid(cfg: Config, s: State, indexName: JString, typeName: JString)
    requires Valid(cfg, s) && NamesPresent(s)
    ensures var r := InvalidateIndexCache(s, indexName, typeName);
            Valid(cfg, r) && NamesPresent(r)
  {
  }

  // ---------------------------------------------------------------------------------------------
  // Sequences of calls

  /** A call of the client's public surface, with its arguments. */
  datatype Call =
    | GetIndexTableCall(adapterId: int16, typeName: JString, indexName: JString,
                        partition: ByteArray, format: JString, requiresTimestamp: bool)
    | GetDataIndexTableCall(adapterId: int16, typeName: JString, format: JString)
    | GetMetadataTableCall(metadataType: MetadataType)
    | MetadataTableExistsCall(metadataType: MetadataType)
    | InvalidateDataIndexCacheCall(adapterId: int16, typeName: JString, format: JString)
    | InvalidateIndexCacheCall(indexName: JString, typeName: JString)

  datatype Reply = TableReply(table: Table) | BoolReply(exists_: bool) | NoReply

  datatype Step = Step(state: State, reply: Reply)

  /** The names of an index request are not null, so the invalidateIndexCache filter never meets a
      null name. */
  predicate NamedCall(call: Call)
  {
    call.GetIndexTableCall? ==> call.typeName.Str? && call.indexName.Str?
  }

  function IndexKeyOf(call: Call): CacheKey
    requires call.GetIndexTableCall?
  {
    NewIndexCacheKey(call.adapterId, call.typeName, call.indexName, call.partition, call.format,
                     call.requiresTimestamp)
  }

  /** One call on state s: the state it leaves and its reply. */
  function Apply(cfg: Config, s: State, call: Call): (r: Step)
    requires NamesPresent(s) && NamedCall(call)
    ensures NamesPresent(r.state)
  {
    match call
    case GetIndexTableCall(a, tn, i, p, f, rt) =>
      var l := GetIndexTable(cfg, s, a, tn, i, p, f, rt);
      Step(l.state, TableReply(l.table))
    case GetDataIndexTableCall(a, tn, f) =>
      var l := GetDataIndexTable(cfg, s, a, tn, f);
      Step(l.state, TableReply(l.table))
    case GetMetadataTableCall(t) =>
      var l := GetMetadataTable(cfg, s, t);
      Step(l.state, TableReply(l.table))
    case MetadataTableExistsCall(t) =>
      Step(s, BoolReply(MetadataTableExists(cfg, s, t)))
    case InvalidateDataIndexCacheCall(a, tn, f) =>
      Step(InvalidateDataIndexCache(s, a, tn, f), NoReply)
    case InvalidateIndexCacheCall(i, tn) =>
      Step(InvalidateIndexCache(s, i, tn), NoReply)
  }

  ghost predicate AllNamed(calls: seq<Call>)
  {
    forall i | 0 <= i < |calls| :: NamedCall(calls[i])
  }

  /** The state after the calls, one after the other. */
  function Run(cfg: Config, s: State, calls: seq<Call>): (r: State)
    requires NamesPresent(s) && AllNamed(calls)
    ensures NamesPresent(r)
    decreases |calls|
  {
    if calls == [] then s else Run(cfg, Apply(cfg, s, calls[0]).state, calls[1..])
  }

  /** Every call keeps the invariant, so every state a client reaches satisfies it. */
  lemma {:induction false} RunKeepsValid(cfg: Config, s: State, calls: seq<Call>)
    requires Valid(cfg, s) && NamesPresent(s) && AllNamed(calls)
    ensures Valid(cfg, Run(cfg, s, calls))
    decreases |calls|
  {
    if calls != [] {
      var call := calls[0];
      match call {
        case GetIndexTableCall(a, tn, i, p, f, rt) => GetIndexTableKeepsValid(cfg, s, a, tn, i, p, f, rt);
        case GetDataIndexTableCall(a, tn, f) => GetDataIndexTableKeepsValid(cfg, s, a, tn, f);
        case GetMetadataTableCall(t) => GetMetadataTableKeepsValid(cfg, s, t);
        case MetadataTableExistsCall(t) =>
        case InvalidateDataIndexCacheCall(a, tn, f) => InvalidateDataIndexCacheRemovesEqualKey(cfg, s, a, tn, f);
        case InvalidateIndexCacheCall(i, tn) => InvalidateIndexCacheKeepsValid(cfg, s, i, tn);
      }
      RunKeepsValid(cfg, Apply(cfg, s, call).state, calls[1..]);
    }
  }

  /** The call is an invalidateIndexCache whose names match those of the stored key. */
  predicate RemovesIndexEntry(call: Call, key: CacheKey)
    requires key.IndexCacheKey? && key.typeName.Str? && key.indexName.Str?
  {
    call.InvalidateIndexCacheCall? && IndexMatches(key, call.indexName, call.typeName)
  }

  /** The call is an invalidateDataIndexCache for a key whose representative is c. */
  predicate RemovesDataIndexEntry(call: Call, c: CacheKey)
  {
    && call.InvalidateDataIndexCacheCall?
    && Canonical(NewDataIndexCacheKey(call.adapterId, call.typeName, call.format)) == c
  }

  /** An index-cache entry stays as it is through any calls, until an invalidateIndexCache whose
      names match the key it is stored under. */
  lemma {:induction false} IndexEntrySurvives(cfg: Config, s: State, c: CacheKey, calls: seq<Call>)
    requires NamesPresent(s) && AllNamed(calls)
    requires c in s.indexTableCache
    requires forall i | 0 <= i < |calls| :: !RemovesIndexEntry(calls[i], s.indexTableCache[c].key)
    ensures c in Run(cfg, s, calls).indexTableCache
    ensures Run(cfg, s, calls).indexTableCache[c] == s.indexTableCache[c]
    decreases |calls|
  {
    if calls != [] {
      var next := Apply(cfg, s, calls[0]).state;
      assert !RemovesIndexEntry(calls[0], s.indexTableCache[c].key);
      assert c in next.indexTableCache && next.indexTableCache[c] == s.indexTableCache[c];
      IndexEntrySurvives(cfg, next, c, calls[1..]);
    }
  }

  /** A data-index-cache entry stays as it is through any calls, until an
      invalidateDataIndexCache for a key equal to it. */
  lemma {:induction false} DataIndexEntrySurvives(cfg: Config, s: State, c: CacheKey, calls: seq<Call>)
    requires NamesPresent(s) && AllNamed(calls)
    requires c in s.dataIndexTableCache
    requires forall i | 0 <= i < |calls| :: !RemovesDataIndexEntry(calls[i], c)
    ensures c in Run(cfg, s, calls).dataIndexTableCache
    ensures Run(cfg, s, calls).dataIndexTableCache[c] == s.dataIndexTableCache[c]
    decreases |calls|
  {
    if calls != [] {
      var next := Apply(cfg, s, calls[0]).state;
      assert !RemovesDataIndexEntry(calls[0], c);
      assert c in next.dataIndexTableCache && next.dataIndexTableCache[c] == s.dataIndexTableCache[c];
      DataIndexEntrySurvives(cfg, next, c, calls[1..]);
    }
  }

  /** Nothing removes a metadata-cache entry. */
  lemma {:induction false} MetadataEntryPermanent(cfg: Config, s: State, c: CacheKey, calls: seq<Call>)
    requires NamesPresent(s) && AllNamed(calls)
    requires c in s.metadataTableCache
    ensures c in Run(cfg, s, calls).metadataTableCache
    ensures Run(cfg, s, calls).metadataTableCache[c] == s.metadataTableCache[c]
    decreases |calls|
  {
    if calls != [] {
      var next := Apply(cfg, s, calls[0]).state;
      assert c in next.metadataTableCache && next.metadataTableCache[c] == s.metadataTableCache[c];
      MetadataEntryPermanent(cfg, next, c, calls[1..]);
    }
  }

  /** getIndexTable returns the very table an earlier getIndexTable for an equal key returned,
      whatever calls came in between, unless one of them was an invalidateIndexCache matching the
      key the table is stored under. */
  lemma SameIndexTableUntilInvalidated(cfg: Config, s: State, first: Call, calls: seq<Call>, again: Call)
    requires first.GetIndexTableCall? && again.GetIndexTableCall?
    requires KeyEquals(IndexKeyOf(first), IndexKeyOf(again))
    requires NamesPresent(s) && NamedCall(first) && AllNamed(calls) && NamedCall(again)
    requires var s1 := Apply(cfg, s, first).state;
             forall i | 0 <= i < |calls| ::
               !RemovesIndexEntry(calls[i], s1.indexTableCache[Canonical(IndexKeyOf(first))].key)
    ensures Apply(cfg, Run(cfg, Apply(cfg, s, first).state, calls), again).reply
            == Apply(cfg, s, first).reply
  {
    var c := Canonical(IndexKeyOf(first));
    IndexEntrySurvives(cfg, Apply(cfg, s, first).state, c, calls);
    KeyEqualsIffSameCanonical(IndexKeyOf(first), IndexKeyOf(again));
  }

  /** getDataIndexTable returns the very table an earlier getDataIndexTable for an equal key
      returned, unless an invalidateDataIndexCache for an equal key came in between. */
  lemma SameDataIndexTableUntilInvalidated(cfg: Config, s: State, first: Call, calls: seq<Call>, again: Call)
    requires first.GetDataIndexTableCall? && again.GetDataIndexTableCall?
    requires var k1 := NewDataIndexCacheKey(first.adapterId, first.typeName, first.format);
             var k2 := NewDataIndexCacheKey(again.adapterId, again.typeName, again.format);
             KeyEquals(k1, k2)
    requires NamesPresent(s) && AllNamed(calls)
    requires forall i | 0 <= i < |calls| ::
               !RemovesDataIndexEntry(calls[i], Canonical(NewDataIndexCacheKey(first.adapterId, first.typeName, first.format)))
    ensures Apply(cfg, Run(cfg, Apply(cfg, s, first).state, calls), again).reply
            == Apply(cfg, s, first).reply
  {
    var k1 := NewDataIndexCacheKey(first.adapterId, first.typeName, first.format);
    var k2 := NewDataIndexCacheKey(again.adapterId, again.typeName, again.format);
    DataIndexEntrySurvives(cfg, Apply(cfg, s, first).state, Canonical(k1), calls);
    KeyEqualsIffSameCanonical(k1, k2);
  }

  /** getMetadataTable returns the same table for a type every time. */
  lemma SameMetadataTableAlways(cfg: Config, s: State, t: MetadataType, calls: seq<Call>)
    requires NamesPresent(s) && AllNamed(calls)
    ensures Apply(cfg, Run(cfg, Apply(cfg, s, GetMetadataTableCall(t)).state, calls), GetMetadataTableCall(t)).reply
            == Apply(cfg, s, GetMetadataTableCall(t)).reply
  {
    MetadataEntryPermanent(cfg, Apply(cfg, s, GetMetadataTableCall(t)).state, NewMetadataCacheKey(t), calls);
  }

  /** Loading an index table into a cold cache, invalidating by its index and type name, and
      asking again gives a new table with another handle. */
  lemma InvalidateIndexCacheForcesReload(cfg: Config, s: State, get: Call)
    requires get.GetIndexTableCall? && NamedCall(get) && NamesPresent(s)
    requires Canonical(IndexKeyOf(get)) !in s.indexTableCache
    ensures var s1 := Apply(cfg, s, get).state;
            var s2 := Apply(cfg, s1, InvalidateIndexCacheCall(get.indexName, get.typeName)).state;
            var r := Apply(cfg, s2, get).reply;
            r.TableReply? && r.table.handle != Apply(cfg, s, get).reply.table.handle
  {
    var c := Canonical(IndexKeyOf(get));
    var s1 := Apply(cfg, s, get).state;
    assert IndexMatches(s1.indexTableCache[c].key, get.indexName, get.typeName);
  }

  /** The type name a table was first loaded under decides which invalidateIndexCache removes it:
      after a load under type name `first`, a request under `second` with otherwise equal
      arguments gets the same table, and invalidating by `second` leaves it cached. */
  lemma FirstTypeNameGovernsInvalidation(cfg: Config, s: State, adapterId: int16, first: string,
                                         second: string, indexName: string, partition: ByteArray,
                                         format: JString, requiresTimestamp: bool)
    requires NamesPresent(s) && first != second
    requires Canonical(NewIndexCacheKey(adapterId, Str(first), Str(indexName), partition, format,
                                        requiresTimestamp)) !in s.indexTableCache
    ensures var get := GetIndexTableCall(adapterId, Str(first), Str(indexName), partition, format, requiresTimestamp);
            var again := GetIndexTableCall(adapterId, Str(second), Str(indexName), partition, format, requiresTimestamp);
            var s1 := Apply(cfg, s, get).state;
            var s2 := Apply(cfg, s1, again).state;
            var s3 := Apply(cfg, s2, InvalidateIndexCacheCall(Str(indexName), Str(second))).state;
            && Apply(cfg, s1, again).reply == Apply(cfg, s, get).reply
            && Apply(cfg, s3, again).reply == Apply(cfg, s, get).reply
  {
    var get := GetIndexTableCall(adapterId, Str(first), Str(indexName), partition, format, requiresTimestamp);
    var again := GetIndexTableCall(adapterId, Str(second), Str(indexName), partition, format, requiresTimestamp);
    assert Canonical(IndexKeyOf(again)) == Canonical(IndexKeyOf(get));
    SameIndexTableUntilInvalidated(cfg, s, get, [], again);
    SameIndexTableUntilInvalidated(cfg, s, get, [again, InvalidateIndexCacheCall(Str(indexName), Str(second))], again);
  }
}
