/** FileSystemClient: three loading caches of open tables (index, data-index, metadata) over a
    root sub-directory, populated on demand and shrunk by invalidation. Each method is proved to
    do to the fields what the function of the same name in ClientModel does to a State. */
module FileSystem {
  import opened JavaTypes
  import opened CacheKeys
  import ClientModel

  /** The executable counterpart of ClientModel: each method below does to the fields what the
      ClientModel function of the same name does to a State, and its ensures says so. */
  class FileSystemClient {
    const subDirectory: string
    const visibilityEnabled: bool
    /** FileSystemUtils.getMetadataTablePath, not part of this model. */
    const metadataTablePath: (string, MetadataType) -> ClientModel.Path

    var indexTableCache: ClientModel.Cache
    var dataIndexTableCache: ClientModel.Cache
    var metadataTableCache: ClientModel.Cache
    /** The directories that exist on disk. */
    var directories: set<ClientModel.Path>
    /** The handle the next loaded table gets. */
    var nextHandle: ClientModel.Handle

    function Config(): ClientModel.Config
    {
      ClientModel.Config(subDirectory, visibilityEnabled, metadataTablePath)
    }

    function Snapshot(): ClientModel.State
      reads this
    {
      ClientModel.State(indexTableCache, dataIndexTableCache, metadataTableCache, directories, nextHandle)
    }

    ghost predicate Valid()
      reads this
    {
      ClientModel.Valid(Config(), Snapshot())
    }

    /** `new FileSystemClient(subDirectory, visibilityEnabled)`, over a disk holding `directories`:
        all three caches start empty. */
    constructor (subDirectory: string, visibilityEnabled: bool,
                 metadataTablePath: (string, MetadataType) -> ClientModel.Path,
                 directories: set<ClientModel.Path>)
      ensures Valid()
      ensures this.subDirectory == subDirectory && this.visibilityEnabled == visibilityEnabled
      ensures this.metadataTablePath == metadataTablePath
      ensures indexTableCache == map[] && dataIndexTableCache == map[] && metadataTableCache == map[]
      ensures this.directories == directories
    {
      this.subDirectory := subDirectory;
      this.visibilityEnabled := visibilityEnabled;
      this.metadataTablePath := metadataTablePath;
      indexTableCache := map[];
      dataIndexTableCache := map[];
      metadataTableCache := map[];
      this.directories := directories;
      nextHandle := 0;
    }

    /** loadIndexTable: opens a new index table for the key. */
    method LoadIndexTable(key: CacheKey) returns (t: ClientModel.Table)
      requires key.IndexCacheKey?
      modifies this`nextHandle
      ensures t == ClientModel.LoadIndexTable(Config(), key, old(nextHandle))
      ensures nextHandle == old(nextHandle) + 1
    {
      t := ClientModel.IndexTable(nextHandle, subDirectory, key.adapterId, key.typeName,
                                  key.indexName, key.partition, key.format,
                                  key.requiresTimestamp, visibilityEnabled);
      nextHandle := nextHandle + 1;
    }

    /** loadDataIndexTable: opens a new data-index table for the key. */
    method LoadDataIndexTable(key: CacheKey) returns (t: ClientModel.Table)
      requires key.DataIndexCacheKey?
      modifies this`nextHandle
      ensures t == ClientModel.LoadDataIndexTable(Config(), key, old(nextHandle))
      ensures nextHandle == old(nextHandle) + 1
    {
      t := ClientModel.DataIndexTable(nextHandle, subDirectory, key.adapterId, key.typeName,
                                      key.format, visibilityEnabled);
      nextHandle := nextHandle + 1;
    }

    /** loadMetadataTable: creates the metadata directory of the key's type when it does not
        exist, then opens a new metadata table over it. */
    method LoadMetadataTable(key: CacheKey) returns (t: ClientModel.Table)
      requires key.MetadataCacheKey?
      modifies this`nextHandle, this`directories
      ensures t == ClientModel.LoadMetadataTable(Config(), key, old(nextHandle))
      ensures directories == ClientModel.CreateMetadataDirectory(Config(), key, old(directories))
      ensures nextHandle == old(nextHandle) + 1
    {
      var dir := metadataTablePath(subDirectory, key.metadataType);
      if dir !in directories {
        directories := directories + {dir};
      }
      t := ClientModel.MetadataTable(nextHandle, dir, key.requiresTimestamp, visibilityEnabled);
      nextHandle := nextHandle + 1;
    }

    /** getIndexTable: the cached table for an equal key, or a newly loaded one, installed. */
    method GetIndexTable(adapterId: int16, typeName: JString, indexName: JString,
                         partition: ByteArray, format: JString, requiresTimestamp: bool)
      returns (t: ClientModel.Table)
      requires Valid()
      modifies this
      ensures Valid()
      ensures ClientModel.Loaded(Snapshot(), t)
              == ClientModel.GetIndexTable(Config(), old(Snapshot()), adapterId, typeName, indexName,
                                           partition, format, requiresTimestamp)
    {
      ClientModel.GetIndexTableKeepsValid(Config(), Snapshot(), adapterId, typeName, indexName,
                                          partition, format, requiresTimestamp);
      var key := NewIndexCacheKey(adapterId, typeName, indexName, partition, format, requiresTimestamp);
      var c := Canonical(key);
      if c in indexTableCache {
        t := indexTableCache[c].table;
      } else {
        t := LoadIndexTable(key);
        indexTableCache := indexTableCache[c := ClientModel.Entry(key, t)];
      }
    }

    /** getDataIndexTable: the cached table for an equal key, or a newly loaded one, installed. */
    method GetDataIndexTable(adapterId: int16, typeName: JString, format: JString)
      returns (t: ClientModel.Table)
      requires Valid()
      modifies this
      ensures Valid()
      ensures ClientModel.Loaded(Snapshot(), t)
              == ClientModel.GetDataIndexTable(Config(), old(Snapshot()), adapterId, typeName, format)
    {
      ClientModel.GetDataIndexTableKeepsValid(Config(), Snapshot(), adapterId, typeName, format);
      var key := NewDataIndexCacheKey(adapterId, typeName, format);
      var c := Canonical(key);
      if c in dataIndexTableCache {
        t := dataIndexTableCache[c].table;
      } else {
        t := LoadDataIndexTable(key);
        dataIndexTableCache := dataIndexTableCache[c := ClientModel.Entry(key, t)];
      }
    }

    /** getMetadataTable: the cached table for the type, or a newly loaded one, installed; the
        type's metadata directory exists afterwards. */
    method GetMetadataTable(t: MetadataType) returns (table: ClientModel.Table)
      requires Valid()
      modifies this
      ensures Valid()
      ensures ClientModel.Loaded(Snapshot(), table)
              == ClientModel.GetMetadataTable(Config(), old(Snapshot()), t)
      ensures metadataTablePath(subDirectory, t) in directories
    {
      ClientModel.GetMetadataTableKeepsValid(Config(), Snapshot(), t);
      var key := NewMetadataCacheKey(t);
      var c := Canonical(key);
      if c in metadataTableCache {
        table := metadataTableCache[c].table;
      } else {
        table := LoadMetadataTable(key);
        metadataTableCache := metadataTableCache[c := ClientModel.Entry(key, table)];
      }
    }

    /** metadataTableExists: true when the metadata cache holds the type or its directory exists;
        the cache is only probed, never populated. */
    method MetadataTableExists(t: MetadataType) returns (b: bool)
      ensures b <==> (NewMetadataCacheKey(t) in metadataTableCache
                      || metadataTablePath(subDirectory, t) in directories)
      ensures b == ClientModel.MetadataTableExists(Config(), Snapshot(), t)
    {
      b := Canonical(NewMetadataCacheKey(t)) in metadataTableCache
           || metadataTablePath(subDirectory, t) in directories;
    }

    /** invalidateDataIndexCache: drops the entry of the key's equals class, if any. */
    method InvalidateDataIndexCache(adapterId: int16, typeName: JString, format: JString)
      requires Valid()
      modifies this`dataIndexTableCache
      ensures Valid()
      ensures Snapshot() == ClientModel.InvalidateDataIndexCache(old(Snapshot()), adapterId, typeName, format)
    {
      ClientModel.InvalidateDataIndexCacheRemovesEqualKey(Config(), Snapshot(), adapterId, typeName, format);
      dataIndexTableCache := dataIndexTableCache - {Canonical(NewDataIndexCacheKey(adapterId, typeName, format))};
    }

    /** invalidateIndexCache: collects the index-cache keys whose typeName and indexName match
        and invalidates them all. */
    method InvalidateIndexCache(indexName: JString, typeName: JString)
      requires Valid() && ClientModel.NamesPresent(Snapshot())
      modifies this`indexTableCache
      ensures Valid() && ClientModel.NamesPresent(Snapshot())
      ensures Snapshot() == ClientModel.InvalidateIndexCache(old(Snapshot()), indexName, typeName)
    {
      ClientModel.InvalidateIndexCacheKeepsValid(Config(), Snapshot(), indexName, typeName);
      var matching := set c | c in indexTableCache
                              && ClientModel.IndexMatches(indexTableCache[c].key, indexName, typeName);
      indexTableCache := indexTableCache - matching;
    }
  }
}
