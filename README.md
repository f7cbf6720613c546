# FileSystemClient: verified model of the filesystem datastore client's table caches

This project models the client through which the filesystem datastore opens its on-disk
tables. The source is `FileSystemClient` (one Java file). It covers two things.

- **Identity keys.** There are three private key classes: `MetadataCacheKey`,
  `DataIndexCacheKey`, and `IndexCacheKey`, which extends `DataIndexCacheKey`. They share the
  abstract base `CacheKey`, and each has hand-written `equals` and `hashCode`. Here they are one
  datatype, `CacheKeys.CacheKey`. `ClassOf` stands for `getClass()`. `KeyEquals` and `KeyHash`
  follow the Java methods' super-call chains step by step, and Java's 32-bit `int` wrap-around is
  explicit (`JavaTypes.Wrap`). The model keeps the source's quirk as written:
  `DataIndexCacheKey.equals` and `hashCode` never read `typeName`. `IndexCacheKey` inherits this
  through `super.equals`, so keys that differ only in type name are equal.
- **The client.** It holds three loading caches: index tables, data-index tables and metadata
  tables. Each cache is filled on first demand and shrunk by invalidation. The metadata loader
  creates the type's directory when it is missing.
  - `ClientModel` states the client's state as a value and each operation as a function on it.
    It also proves what these functions promise, one call at a time and over any sequence of
    calls (`Run`).
  - `FileSystem.FileSystemClient` is the class. It keeps the same state in mutable fields
    (three `map` caches, a set of existing directories, and a counter that mints table handles).
    Each of its methods is proved to agree with the matching model function.

A cache is a map from the *representative* of a key's equals class (`CacheKeys.Canonical`: type
name cleared, partition array identity cleared) to an entry. The entry holds the key the table
was first loaded for, plus the table. This is how Caffeine's map keyed by `equals`/`hashCode`
behaves. Keeping the first key matters: `invalidateIndexCache` filters on the *stored* key's
type name, and that name can differ from the type name of a later request that got the same
table (`ClientModel.FirstTypeNameGovernsInvalidation`).

The hash cannot tell a null field from an empty string: a null `format` or `indexName`
contributes 0, and so does `""` under Java's `String.hashCode`
(`CacheKeys.NullAndEmptyFormatCollide`). Equality does tell them apart, so such keys only share a
hash bucket.

Inputs that are not computed here are parameters:

- `String.hashCode` and the enum's `hashCode` (`CacheKeys.HashCodes`).
- `FileSystemUtils.getMetadataTablePath` (`Config.metadataTablePath`). It is not assumed to be
  injective.
- The initial set of directories on disk (a constructor argument).

The `MetadataType` enum is not part of this model. Its constants are `Adapter`, `Index`, `Stats`,
`InternalAdapter`, and `Other(n)` for any further constant. Only `Stats` matters to the client.

## Model

| member | source | states |
|---|---|---|
| JavaTypes.Wrap | extensions/datastores/filesystem/src/main/java/org/locationtech/geowave/datastore/filesystem/util/FileSystemClient.java:35-39 | Java `int` arithmetic of the hash folds: the result is the 32-bit two's-complement value congruent to the exact one, and equals it when in range |
| JavaTypes.NullableStringEquals | extensions/datastores/filesystem/src/main/java/org/locationtech/geowave/datastore/filesystem/util/FileSystemClient.java:191-197 | the explicit null check followed by `String.equals` holds exactly when the two references are equal as values (null only equals null) |
| JavaTypes.ArraysEquals | extensions/datastores/filesystem/src/main/java/org/locationtech/geowave/datastore/filesystem/util/FileSystemClient.java:141-143 | `Arrays.equals` on the partition: two arrays are equal iff they have the same content, whatever their identity; null equals only null |
| JavaTypes.ArraysHashCode | extensions/datastores/filesystem/src/main/java/org/locationtech/geowave/datastore/filesystem/util/FileSystemClient.java:118 | `Arrays.hashCode` of the partition: a null array hashes to 0 and an empty one to 1, and the hash of a non-empty array is one more `31 * result + element` step after the hash of all but its last element (its element loop `HashBytes` is characterised by `HashBytesAppend`) |
| JavaTypes.HashBytesAppend | extensions/datastores/filesystem/src/main/java/org/locationtech/geowave/datastore/filesystem/util/FileSystemClient.java:118 | `Arrays.hashCode` folds `31 * result + element` over the bytes in order: hashing one more byte at the end is one more fold step |
| CacheKeys.NewIndexCacheKey | extensions/datastores/filesystem/src/main/java/org/locationtech/geowave/datastore/filesystem/util/FileSystemClient.java:101-111 | the key is an `IndexCacheKey` holding the given flag, adapter id, type name, format, index name and partition, the array held by reference |
| CacheKeys.NewDataIndexCacheKey | extensions/datastores/filesystem/src/main/java/org/locationtech/geowave/datastore/filesystem/util/FileSystemClient.java:152-165 | the public constructor gives a `DataIndexCacheKey` that requires no timestamp and holds the given adapter id, type name and format |
| CacheKeys.NewMetadataCacheKey | extensions/datastores/filesystem/src/main/java/org/locationtech/geowave/datastore/filesystem/util/FileSystemClient.java:63-69 | a metadata key requires a timestamp exactly when its type is `STATS` |
| CacheKeys.KeyEquals | extensions/datastores/filesystem/src/main/java/org/locationtech/geowave/datastore/filesystem/util/FileSystemClient.java:42-199 | `a.equals(b)` dispatched on the class of `a`; every class passes `CacheKey.equals` first, so equal keys have the same class and the same flag. What it decides is stated by `KeyEqualsIffSameCanonical`, `KeyEqualsIsEquivalence`, `DifferentClassesNeverEqual`, `TimestampFlagDistinguishes`, `PartitionComparedByContent`, `TypeNameIgnored` and `MetadataKeysEqualIffSameType` |
| CacheKeys.MetadataKeysEqualIffSameType | extensions/datastores/filesystem/src/main/java/org/locationtech/geowave/datastore/filesystem/util/FileSystemClient.java:79-95 | two metadata keys built from types s and t are equal iff s == t |
| CacheKeys.CacheKeyHash | extensions/datastores/filesystem/src/main/java/org/locationtech/geowave/datastore/filesystem/util/FileSystemClient.java:34-40 | the base hash `31 * 1 + (rt ? 1231 : 1237)` is 1262 with a timestamp and 1268 without |
| CacheKeys.NullableHash | extensions/datastores/filesystem/src/main/java/org/locationtech/geowave/datastore/filesystem/util/FileSystemClient.java:172 | `(s == null) ? 0 : s.hashCode()`: a null reference contributes 0, and so does the empty string when `"".hashCode()` is 0 |
| CacheKeys.DataIndexCacheKeyHash | extensions/datastores/filesystem/src/main/java/org/locationtech/geowave/datastore/filesystem/util/FileSystemClient.java:167-174 | `DataIndexCacheKey.hashCode` after its wrapping steps is the polynomial `961 * base + 31 * adapterId + hash(format)` reduced once to a Java `int` |
| CacheKeys.KeyHash | extensions/datastores/filesystem/src/main/java/org/locationtech/geowave/datastore/filesystem/util/FileSystemClient.java:34-120 | `k.hashCode()` for each class is the polynomial in 31 over the fields its super-call chain hashes, in that order, reduced once to a Java `int`. That it agrees with `equals` is stated by `EqualKeysHashAlike` and `HashOfCanonical` |
| CacheKeys.Canonical | extensions/datastores/filesystem/src/main/java/org/locationtech/geowave/datastore/filesystem/util/FileSystemClient.java:203-209 | the representative a cache entry is filed under keeps the key's class and timestamp flag, leaves a metadata key as it is and clears a data or index key's type name |
| CacheKeys.KeyEqualsIffSameCanonical | extensions/datastores/filesystem/src/main/java/org/locationtech/geowave/datastore/filesystem/util/FileSystemClient.java:122-199 | two keys are equal (Java `equals`) iff they have the same representative, so a map keyed by representatives behaves like the hash map keyed by `equals` |
| CacheKeys.KeyEqualsIsEquivalence | extensions/datastores/filesystem/src/main/java/org/locationtech/geowave/datastore/filesystem/util/FileSystemClient.java:42-199 | the four `equals` methods together are reflexive, symmetric and transitive |
| CacheKeys.EqualKeysHashAlike | extensions/datastores/filesystem/src/main/java/org/locationtech/geowave/datastore/filesystem/util/FileSystemClient.java:71-77 | equal keys have equal `hashCode`, whatever `String.hashCode` and the enum hash are |
| CacheKeys.HashOfCanonical | extensions/datastores/filesystem/src/main/java/org/locationtech/geowave/datastore/filesystem/util/FileSystemClient.java:113-120 | a key hashes like its representative: the hash reads no field that `equals` ignores |
| CacheKeys.DifferentClassesNeverEqual | extensions/datastores/filesystem/src/main/java/org/locationtech/geowave/datastore/filesystem/util/FileSystemClient.java:50-52 | keys of different runtime classes are never equal in either direction, even an `IndexCacheKey` and a `DataIndexCacheKey` with the same field values |
| CacheKeys.TimestampFlagDistinguishes | extensions/datastores/filesystem/src/main/java/org/locationtech/geowave/datastore/filesystem/util/FileSystemClient.java:54-56 | two keys that differ only in `requiresTimestamp` are not equal |
| CacheKeys.PartitionComparedByContent | extensions/datastores/filesystem/src/main/java/org/locationtech/geowave/datastore/filesystem/util/FileSystemClient.java:141-143 | swapping an index key's partition for another array object with the same bytes gives an equal key with the same hash; different bytes give an unequal key |
| CacheKeys.TypeNameIgnored | extensions/datastores/filesystem/src/main/java/org/locationtech/geowave/datastore/filesystem/util/FileSystemClient.java:167-199 | data-index keys, and index keys through `super.equals`, that differ only in `typeName` are equal both ways and hash alike |
| CacheKeys.NullAndEmptyFormatCollide | extensions/datastores/filesystem/src/main/java/org/locationtech/geowave/datastore/filesystem/util/FileSystemClient.java:172 | a null format and an empty format give unequal keys that hash alike when `"".hashCode()` is 0, as in Java |
| ClientModel.LoadIndexTable | extensions/datastores/filesystem/src/main/java/org/locationtech/geowave/datastore/filesystem/util/FileSystemClient.java:226-236 | a new index table carries the minted handle, the client's sub-directory and visibility flag, and exactly the key's fields: the key can be rebuilt from the table |
| ClientModel.LoadDataIndexTable | extensions/datastores/filesystem/src/main/java/org/locationtech/geowave/datastore/filesystem/util/FileSystemClient.java:238-246 | a new data-index table carries the minted handle, the client's sub-directory and visibility flag, and the key's adapter id, type name and format, from which a public key is rebuilt |
| ClientModel.LoadMetadataTable | extensions/datastores/filesystem/src/main/java/org/locationtech/geowave/datastore/filesystem/util/FileSystemClient.java:218-224 | a new metadata table carries the minted handle, the visibility flag, the key's timestamp flag and the directory of the key's metadata type |
| ClientModel.CreateMetadataDirectory | extensions/datastores/filesystem/src/main/java/org/locationtech/geowave/datastore/filesystem/util/FileSystemClient.java:219-222 | after the metadata loader, the type's directory exists and no other directory appeared or disappeared |
| ClientModel.Empty | extensions/datastores/filesystem/src/main/java/org/locationtech/geowave/datastore/filesystem/util/FileSystemClient.java:203-216 | a new client, with three empty caches, satisfies the invariant for any configuration |
| ClientModel.GetIndexTable | extensions/datastores/filesystem/src/main/java/org/locationtech/geowave/datastore/filesystem/util/FileSystemClient.java:252-261 | afterwards the key's class is cached with the returned table. On a hit the whole state is unchanged. On a miss exactly one entry (the key and a freshly loaded table) is added, every other entry is kept, and the other caches and the disk are unchanged |
| ClientModel.GetDataIndexTable | extensions/datastores/filesystem/src/main/java/org/locationtech/geowave/datastore/filesystem/util/FileSystemClient.java:263-268 | the same lookup-or-load promise on the data-index cache |
| ClientModel.GetMetadataTable | extensions/datastores/filesystem/src/main/java/org/locationtech/geowave/datastore/filesystem/util/FileSystemClient.java:270-272 | the same lookup-or-load promise on the metadata cache, where a miss also creates the type's directory if it is missing |
| ClientModel.MetadataTableExists | extensions/datastores/filesystem/src/main/java/org/locationtech/geowave/datastore/filesystem/util/FileSystemClient.java:274-279 | an existing metadata directory answers true, and a false answer means the type is not cached; with the invariant the answer is exactly whether the directory exists (`MetadataTableExistsIffDirectory`) |
| ClientModel.InvalidateDataIndexCache | extensions/datastores/filesystem/src/main/java/org/locationtech/geowave/datastore/filesystem/util/FileSystemClient.java:281-286 | only the data-index cache changes, and every entry left is one that was there before, unchanged |
| ClientModel.IndexMatches | extensions/datastores/filesystem/src/main/java/org/locationtech/geowave/datastore/filesystem/util/FileSystemClient.java:291 | for a stored key with non-null names, the filter holds exactly when its type name and index name equal the arguments; a null argument never matches |
| ClientModel.InvalidateIndexCache | extensions/datastores/filesystem/src/main/java/org/locationtech/geowave/datastore/filesystem/util/FileSystemClient.java:288-293 | only the index cache changes. Every entry whose stored key matches both names is removed, every other entry is kept unchanged, whatever its adapter, partition, format or timestamp flag |
| ClientModel.GetIndexTableKeepsValid | extensions/datastores/filesystem/src/main/java/org/locationtech/geowave/datastore/filesystem/util/FileSystemClient.java:226-236 | getIndexTable keeps the invariant. The returned table was loaded for a key equal to the request, so it has the requested adapter, index name, partition bytes, format and timestamp flag. On a miss its handle is not used by any other cached table |
| ClientModel.GetDataIndexTableKeepsValid | extensions/datastores/filesystem/src/main/java/org/locationtech/geowave/datastore/filesystem/util/FileSystemClient.java:238-246 | getDataIndexTable keeps the invariant. It returns a table for the requested adapter and format, with a fresh handle on a miss |
| ClientModel.GetMetadataTableKeepsValid | extensions/datastores/filesystem/src/main/java/org/locationtech/geowave/datastore/filesystem/util/FileSystemClient.java:218-224 | getMetadataTable keeps the invariant. It returns a table over the type's metadata directory with the type's timestamp flag, and that directory exists afterwards |
| ClientModel.MetadataTableExistsIffDirectory | extensions/datastores/filesystem/src/main/java/org/locationtech/geowave/datastore/filesystem/util/FileSystemClient.java:274-279 | under the invariant, metadataTableExists(t) is true iff t's metadata directory exists (a cached type always has its directory) |
| ClientModel.InvalidateDataIndexCacheRemovesEqualKey | extensions/datastores/filesystem/src/main/java/org/locationtech/geowave/datastore/filesystem/util/FileSystemClient.java:281-286 | an entry is removed iff its key equals the given key. When no cached key is equal, the state is unchanged. The invariant is kept |
| ClientModel.InvalidateIndexCacheKeepsValid | extensions/datastores/filesystem/src/main/java/org/locationtech/geowave/datastore/filesystem/util/FileSystemClient.java:288-293 | invalidateIndexCache keeps the invariant and keeps every cached index name and type name non-null |
| ClientModel.RunKeepsValid | extensions/datastores/filesystem/src/main/java/org/locationtech/geowave/datastore/filesystem/util/FileSystemClient.java:252-293 | every sequence of calls on the public surface keeps the invariant |
| ClientModel.IndexEntrySurvives | extensions/datastores/filesystem/src/main/java/org/locationtech/geowave/datastore/filesystem/util/FileSystemClient.java:288-293 | an index-cache entry survives unchanged through any calls that include no invalidateIndexCache matching the names of the key it is stored under |
| ClientModel.DataIndexEntrySurvives | extensions/datastores/filesystem/src/main/java/org/locationtech/geowave/datastore/filesystem/util/FileSystemClient.java:281-286 | a data-index-cache entry survives unchanged through any calls that include no invalidateDataIndexCache for an equal key |
| ClientModel.MetadataEntryPermanent | extensions/datastores/filesystem/src/main/java/org/locationtech/geowave/datastore/filesystem/util/FileSystemClient.java:208-209 | no call removes a metadata-cache entry |
| ClientModel.SameIndexTableUntilInvalidated | extensions/datastores/filesystem/src/main/java/org/locationtech/geowave/datastore/filesystem/util/FileSystemClient.java:252-261 | a later getIndexTable for an equal key returns the very table an earlier one returned, unless an invalidateIndexCache matching the stored key came in between |
| ClientModel.SameDataIndexTableUntilInvalidated | extensions/datastores/filesystem/src/main/java/org/locationtech/geowave/datastore/filesystem/util/FileSystemClient.java:263-268 | a later getDataIndexTable for an equal key returns the same table, unless an invalidateDataIndexCache for an equal key came in between |
| ClientModel.SameMetadataTableAlways | extensions/datastores/filesystem/src/main/java/org/locationtech/geowave/datastore/filesystem/util/FileSystemClient.java:270-272 | getMetadataTable returns the same table for a type after any calls |
| ClientModel.InvalidateIndexCacheForcesReload | extensions/datastores/filesystem/src/main/java/org/locationtech/geowave/datastore/filesystem/util/FileSystemClient.java:288-293 | load into a cold cache, invalidate by the same index and type name, ask again: the table returned has a different handle |
| ClientModel.FirstTypeNameGovernsInvalidation | extensions/datastores/filesystem/src/main/java/org/locationtech/geowave/datastore/filesystem/util/FileSystemClient.java:289-291 | after a load under type name a, a request under type name b gets the same table, and invalidateIndexCache by b leaves that table cached |
| FileSystem.FileSystemClient.constructor | extensions/datastores/filesystem/src/main/java/org/locationtech/geowave/datastore/filesystem/util/FileSystemClient.java:213-216 | stores the sub-directory and visibility flag, starts with three empty caches, and establishes the invariant |
| FileSystem.FileSystemClient.LoadIndexTable | extensions/datastores/filesystem/src/main/java/org/locationtech/geowave/datastore/filesystem/util/FileSystemClient.java:226-236 | opens an index table from the key's fields and the client's configuration, with a newly minted handle |
| FileSystem.FileSystemClient.LoadDataIndexTable | extensions/datastores/filesystem/src/main/java/org/locationtech/geowave/datastore/filesystem/util/FileSystemClient.java:238-246 | opens a data-index table from the key's fields and the client's configuration, with a newly minted handle |
| FileSystem.FileSystemClient.LoadMetadataTable | extensions/datastores/filesystem/src/main/java/org/locationtech/geowave/datastore/filesystem/util/FileSystemClient.java:218-224 | creates the type's metadata directory if it is absent, then opens a metadata table over it with the key's timestamp flag |
| FileSystem.FileSystemClient.GetIndexTable | extensions/datastores/filesystem/src/main/java/org/locationtech/geowave/datastore/filesystem/util/FileSystemClient.java:252-261 | keeps the invariant, and changes the fields and returns exactly as `ClientModel.GetIndexTable` does |
| FileSystem.FileSystemClient.GetDataIndexTable | extensions/datastores/filesystem/src/main/java/org/locationtech/geowave/datastore/filesystem/util/FileSystemClient.java:263-268 | keeps the invariant, and changes the fields and returns exactly as `ClientModel.GetDataIndexTable` does |
| FileSystem.FileSystemClient.GetMetadataTable | extensions/datastores/filesystem/src/main/java/org/locationtech/geowave/datastore/filesystem/util/FileSystemClient.java:270-272 | keeps the invariant, agrees with `ClientModel.GetMetadataTable`, and the type's metadata directory exists afterwards |
| FileSystem.FileSystemClient.MetadataTableExists | extensions/datastores/filesystem/src/main/java/org/locationtech/geowave/datastore/filesystem/util/FileSystemClient.java:274-279 | returns true iff the metadata cache holds the type or its directory exists, and modifies nothing, so it never populates the cache |
| FileSystem.FileSystemClient.InvalidateDataIndexCache | extensions/datastores/filesystem/src/main/java/org/locationtech/geowave/datastore/filesystem/util/FileSystemClient.java:281-286 | changes only the data-index cache, as `ClientModel.InvalidateDataIndexCache` does, and keeps the invariant |
| FileSystem.FileSystemClient.InvalidateIndexCache | extensions/datastores/filesystem/src/main/java/org/locationtech/geowave/datastore/filesystem/util/FileSystemClient.java:288-293 | changes only the index cache, as `ClientModel.InvalidateIndexCache` does, and keeps the invariant |

## Left out

- Concurrency is not modelled; the client is single-threaded here. This covers the
  `synchronized` get methods and Caffeine's rule that a key's loader runs once even when
  callers race. The "loader runs once under N concurrent callers" property is therefore not
  stated.
- I/O failures are not modelled. The loaders and `Files.createDirectories` can throw
  `IOException`; in the model they always succeed. So "a failed load installs no entry" is not
  stated.
- The filesystem is a set of directory names. Parent directories, other processes creating or
  deleting directories, and `Files.exists` races are not modelled. The model's
  `MetadataTableExistsIffDirectory` relies on nothing deleting directories.
- The table classes (`FileSystemIndexTable`, `FileSystemDataIndexTable`,
  `FileSystemMetadataTable`) are not part of this model. A table is its constructor arguments
  plus an opaque handle, minted from a counter.
- `FileSystemUtils.getMetadataTablePath` is not part of this model. It is a parameter.
- `String.hashCode` and the enum `hashCode` are parameters, not computed.
- `MetadataCacheKey.hashCode` has a `type == null` branch. It is left out because the
  constructor dereferences `type`, so it is never null.
- Reference identity (`this == obj`) is not modelled for keys or arrays. Keys and arrays are
  compared as values, and a partition array is assumed not to change after it is handed to the
  client. Its identity is kept only to show that equality ignores it.
- InvalidateIndexCache and ClientModel.InvalidateIndexCache require every cached index key to
  have a non-null type name and index name. This is stronger than the condition under which the
  source's filter throws `NullPointerException`: a stored null type name always throws, but a
  stored null index name throws only when that key's type name matches, since `&&` stops at the
  first false operand. So a `getIndexTable` with a null index name followed by an
  `invalidateIndexCache` for another type name completes in the source but is outside the model.
- NamedCall, the condition on every call of the call-sequence lemmas (`Run` and the lemmas about
  it), carries the same stronger requirement: every `getIndexTable` call has a non-null type name
  and index name.
- The accessors `getSubDirectory` and `isVisibilityEnabled` and the logger are left out: they
  carry no logic.
