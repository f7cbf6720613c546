/** The identity keys of the three table caches: the private classes CacheKey, MetadataCacheKey,
    DataIndexCacheKey and IndexCacheKey (IndexCacheKey extends DataIndexCacheKey), with their
    hand-written equals and hashCode, re-expressed as one tagged sum. */
module CacheKeys {
  import opened JavaTypes

  /** The metadata kinds. The enum itself is not part of this model: the named constants are the
      ones the client refers to, `Other` stands for any further constant. Only `Stats` is treated
      specially by the client. */
  datatype MetadataType = Adapter | Index | Stats | InternalAdapter | Other(ordinal: nat)

  /** The runtime class of a key, as `getClass()` reports it. */
  datatype KeyClass = MetadataCacheKeyClass | DataIndexCacheKeyClass | IndexCacheKeyClass

  /** A key value. `requiresTimestamp` is the field of the abstract base CacheKey; an
      IndexCacheKey carries the three DataIndexCacheKey fields it inherits plus its own two. */
  datatype CacheKey =
    | MetadataCacheKey(requiresTimestamp: bool, metadataType: MetadataType)
    | DataIndexCacheKey(requiresTimestamp: bool, adapterId: int16, typeName: JString, format: JString)
    | IndexCacheKey(requiresTimestamp: bool, adapterId: int16, typeName: JString, format: JString,
                    indexName: JString, partition: ByteArray)

  function ClassOf(k: CacheKey): KeyClass
  {
    match k
    case MetadataCacheKey(_, _) => MetadataCacheKeyClass
    case DataIndexCacheKey(_, _, _, _) => DataIndexCacheKeyClass
    case IndexCacheKey(_, _, _, _, _, _) => IndexCacheKeyClass
  }

  /** `new MetadataCacheKey(type)`: a timestamp is required exactly for statistics, which can be
      identical and still have to stay distinct rows. */
  function NewMetadataCacheKey(t: MetadataType): (k: CacheKey)
    ensures k.MetadataCacheKey? && k.metadataType == t
    ensures k.requiresTimestamp <==> t == Stats
  {
    MetadataCacheKey(t == Stats, t)
  }

  /** The public `new DataIndexCacheKey(adapterId, typeName, format)`: no timestamp. */
  function NewDataIndexCacheKey(adapterId: int16, typeName: JString, format: JString): (k: CacheKey)
    ensures k.DataIndexCacheKey? && !k.requiresTimestamp
    ensures k.adapterId == adapterId && k.typeName == typeName && k.format == format
  {
    DataIndexCacheKey(false, adapterId, typeName, format)
  }

  /** `new IndexCacheKey(adapterId, typeName, indexName, partition, format, requiresTimestamp)`.
      The partition array is held by reference, not copied. */
  function NewIndexCacheKey(adapterId: int16, typeName: JString, indexName: JString,
                            partition: ByteArray, format: JString, requiresTimestamp: bool): (k: CacheKey)
    ensures k.IndexCacheKey? && k.requiresTimestamp == requiresTimestamp
    ensures k.adapterId == adapterId && k.typeName == typeName && k.format == format
    ensures k.indexName == indexName && k.partition == partition
  {
    IndexCacheKey(requiresTimestamp, adapterId, typeName, format, indexName, partition)
  }

  // ---------------------------------------------------------------------------------------------
  // equals

  /** CacheKey.equals: the same runtime class and the same requiresTimestamp. */
  predicate CacheKeyEquals(a: CacheKey, b: CacheKey)
  {
    ClassOf(a) == ClassOf(b) && a.requiresTimestamp == b.requiresTimestamp
  }

  /** DataIndexCacheKey.equals, which IndexCacheKey reaches through super.equals: adapterId and
      format are compared, typeName never is. */
  predicate DataIndexCacheKeyEquals(a: CacheKey, b: CacheKey)
    requires !a.MetadataCacheKey?
  {
    && CacheKeyEquals(a, b)
    && ClassOf(a) == ClassOf(b)
    && a.adapterId == b.adapterId
    && NullableStringEquals(a.format, b.format)
  }

  /** `a.equals(b)`, dispatched on the runtime class of `a` as Java does. Every class's equals
      passes the base class's check first. */
  predicate KeyEquals(a: CacheKey, b: CacheKey)
    ensures KeyEquals(a, b) ==> CacheKeyEquals(a, b)
  {
    match a
    case MetadataCacheKey(_, _) =>
      CacheKeyEquals(a, b) && ClassOf(a) == ClassOf(b) && a.metadataType == b.metadataType
    case DataIndexCacheKey(_, _, _, _) =>
      DataIndexCacheKeyEquals(a, b)
    case IndexCacheKey(_, _, _, _, _, _) =>
      && DataIndexCacheKeyEquals(a, b)
      && ClassOf(a) == ClassOf(b)
      && NullableStringEquals(a.indexName, b.indexName)
      && ArraysEquals(a.partition, b.partition)
  }

  // ---------------------------------------------------------------------------------------------
  // hashCode

  /** String.hashCode and the enum's hashCode, which the keys call but which are not part of this
      model: every statement about KeyHash holds for any choice of them. */
  datatype HashCodes = HashCodes(ofString: string -> int32, ofType: MetadataType -> int32)

  /** CacheKey.hashCode: `31 * 1 + (requiresTimestamp ? 1231 : 1237)`. */
  function CacheKeyHash(k: CacheKey): (r: int32)
    ensures r == if k.requiresTimestamp then 1262 else 1268
  {
    HashStep(1, if k.requiresTimestamp then 1231 else 1237)
  }

  /** `(s == null) ? 0 : s.hashCode()`. A null reference contributes 0, and so does the empty
      string under Java's String.hashCode. */
  function NullableHash(h: HashCodes, s: JString): (r: int32)
    ensures s.Null? || (s == Str("") && h.ofString("") == 0) ==> r == 0
  {
    if s.Null? then 0 else h.ofString(s.value)
  }

  /** DataIndexCacheKey.hashCode, which IndexCacheKey reaches through super.hashCode. Wrapping
      after each step, as Java's `int` does, gives the polynomial in 31 over the base hash, the
      adapter id and the format's hash, reduced once to 32 bits. */
  function DataIndexCacheKeyHash(h: HashCodes, k: CacheKey): (r: int32)
    requires !k.MetadataCacheKey?
    ensures r == Wrap(961 * CacheKeyHash(k) as int + 31 * k.adapterId as int
                      + NullableHash(h, k.format) as int)
  {
    HashStepOfWrap(31 * CacheKeyHash(k) as int + k.adapterId as int, NullableHash(h, k.format));
    HashStep(HashStep(CacheKeyHash(k), k.adapterId as int32), NullableHash(h, k.format))
  }

  /** `k.hashCode()`. The metadata type of a MetadataCacheKey is never null (its constructor
      dereferences it), so the `type == null` branch of MetadataCacheKey.hashCode is left out.
      The result is the polynomial in 31 over the key's hashed fields, in the order the
      super-call chain visits them, reduced once to 32 bits. */
  function KeyHash(h: HashCodes, k: CacheKey): (r: int32)
    ensures k.MetadataCacheKey? ==>
              r == Wrap(31 * CacheKeyHash(k) as int + h.ofType(k.metadataType) as int)
    ensures k.DataIndexCacheKey? ==>
              r == Wrap(961 * CacheKeyHash(k) as int + 31 * k.adapterId as int
                        + NullableHash(h, k.format) as int)
    ensures k.IndexCacheKey? ==>
              r == Wrap(923521 * CacheKeyHash(k) as int + 29791 * k.adapterId as int
                        + 961 * NullableHash(h, k.format) as int
                        + 31 * NullableHash(h, k.indexName) as int
                        + ArraysHashCode(k.partition) as int)
  {
    match k
    case MetadataCacheKey(_, t) =>
      HashStep(CacheKeyHash(k), h.ofType(t))
    case DataIndexCacheKey(_, _, _, _) =>
      DataIndexCacheKeyHash(h, k)
    case IndexCacheKey(_, _, _, _, _, _) =>
      IndexKeyHashPolynomial(h, k);
      HashStep(HashStep(DataIndexCacheKeyHash(h, k), NullableHash(h, k.indexName)),
               ArraysHashCode(k.partition))
  }

  /** The two steps IndexCacheKey.hashCode adds to its super.hashCode, as one polynomial. */
  lemma IndexKeyHashPolynomial(h: HashCodes, k: CacheKey)
    requires k.IndexCacheKey?
    ensures HashStep(HashStep(DataIndexCacheKeyHash(h, k), NullableHash(h, k.indexName)),
                     ArraysHashCode(k.partition))
            == Wrap(923521 * CacheKeyHash(k) as int + 29791 * k.adapterId as int
                    + 961 * NullableHash(h, k.format) as int
                    + 31 * NullableHash(h, k.indexName) as int
                    + ArraysHashCode(k.partition) as int)
  {
    var base, f, i, b := CacheKeyHash(k) as int, NullableHash(h, k.format), NullableHash(h, k.indexName),
                         ArraysHashCode(k.partition);
    var p := 961 * base + 31 * k.adapterId as int + f as int;
    assert DataIndexCacheKeyHash(h, k) == Wrap(p);
    TwoHashStepsOfWrap(p, i, b);
    assert 961 * p + 31 * i as int + b as int
        == 923521 * base + 29791 * k.adapterId as int + 961 * f as int + 31 * i as int + b as int;
  }

  // ---------------------------------------------------------------------------------------------
  // The equivalence classes of equals

  /** The representative of a key's class under equals: the fields equals ignores (a data or
      index key's typeName, the identity of the partition array) are set to fixed values. The
      caches are keyed by it, which is how a hash map keyed by equals/hashCode behaves. */
  function Canonical(k: CacheKey): (c: CacheKey)
    ensures ClassOf(c) == ClassOf(k) && c.requiresTimestamp == k.requiresTimestamp
    ensures k.MetadataCacheKey? ==> c == k
    ensures !k.MetadataCacheKey? ==> c.typeName == Null
  {
    match k
    case MetadataCacheKey(_, _) => k
    case DataIndexCacheKey(rt, id, _, f) => DataIndexCacheKey(rt, id, Null, f)
    case IndexCacheKey(rt, id, _, f, i, p) =>
      IndexCacheKey(rt, id, Null, f, i, if p.NullArray? then NullArray else Bytes(0, p.content))
  }

  /** Two keys are equal exactly when they have the same representative. */
  lemma KeyEqualsIffSameCanonical(a: CacheKey, b: CacheKey)
    ensures KeyEquals(a, b) <==> Canonical(a) == Canonical(b)
  {
    match a
    case MetadataCacheKey(_, _) =>
    case DataIndexCacheKey(_, _, _, _) =>
    case IndexCacheKey(_, _, _, _, _, p) =>
      if b.IndexCacheKey? && Canonical(a) == Canonical(b) {
        assert ArraysEquals(a.partition, b.partition);
      }
  }

  /** equals is reflexive, symmetric and transitive on keys. */
  lemma KeyEqualsIsEquivalence(a: CacheKey, b: CacheKey, c: CacheKey)
    ensures KeyEquals(a, a)
    ensures KeyEquals(a, b) ==> KeyEquals(b, a)
    ensures KeyEquals(a, b) && KeyEquals(b, c) ==> KeyEquals(a, c)
  {
    KeyEqualsIffSameCanonical(a, a);
    KeyEqualsIffSameCanonical(a, b);
    KeyEqualsIffSameCanonical(b, a);
    KeyEqualsIffSameCanonical(b, c);
    KeyEqualsIffSameCanonical(a, c);
  }

  /** Equal keys have equal hash codes, whatever String.hashCode and the enum's hashCode are:
      the hash reads only fields that equals compares. */
  lemma EqualKeysHashAlike(h: HashCodes, a: CacheKey, b: CacheKey)
    requires KeyEquals(a, b)
    ensures KeyHash(h, a) == KeyHash(h, b)
  {
    KeyEqualsIffSameCanonical(a, b);
    HashOfCanonical(h, a);
    HashOfCanonical(h, b);
  }

  /** A key hashes like its representative. */
  lemma HashOfCanonical(h: HashCodes, k: CacheKey)
    ensures KeyHash(h, Canonical(k)) == KeyHash(h, k)
  {
  }

  /** Keys of different runtime classes are never equal, whatever their field values; in
      particular an IndexCacheKey never equals a DataIndexCacheKey it extends, although the
      DataIndexCacheKey part of its equals would accept it. */
  lemma DifferentClassesNeverEqual(a: CacheKey, b: CacheKey)
    requires ClassOf(a) != ClassOf(b)
    ensures !KeyEquals(a, b) && !KeyEquals(b, a)
  {
  }

  /** Two keys that differ only in requiresTimestamp are distinct. */
  lemma TimestampFlagDistinguishes(k: CacheKey)
    ensures !KeyEquals(k, k.(requiresTimestamp := !k.requiresTimestamp))
  {
  }

  /** Two metadata keys are equal exactly when their metadata types are. */
  lemma MetadataKeysEqualIffSameType(s: MetadataType, t: MetadataType)
    ensures KeyEquals(NewMetadataCacheKey(s), NewMetadataCacheKey(t)) <==> s == t
  {
  }

  /** The partition is compared and hashed by content: another array object with the same bytes
      gives an equal key with the same hash, and different bytes give a different key. */
  lemma PartitionComparedByContent(h: HashCodes, k: CacheKey, other: ByteArray)
    requires k.IndexCacheKey? && k.partition.Bytes? && other.Bytes?
    ensures other.content == k.partition.content ==>
              KeyEquals(k, k.(partition := other)) && KeyHash(h, k) == KeyHash(h, k.(partition := other))
    ensures other.content != k.partition.content ==> !KeyEquals(k, k.(partition := other))
  {
  }

  /** Data-index keys, and through super.equals index keys too, ignore typeName in both equals
      and hashCode: two keys that differ only in typeName are equal and hash alike. */
  lemma TypeNameIgnored(h: HashCodes, k: CacheKey, typeName: JString)
    requires !k.MetadataCacheKey?
    ensures KeyEquals(k, k.(typeName := typeName)) && KeyEquals(k.(typeName := typeName), k)
    ensures KeyHash(h, k) == KeyHash(h, k.(typeName := typeName))
  {
  }

  /** A null format and an empty format give different keys, yet with Java's String.hashCode
      (where "".hashCode() is 0) they hash alike: the hash does not tell null from "". */
  lemma NullAndEmptyFormatCollide(h: HashCodes, k: CacheKey)
    requires !k.MetadataCacheKey? && h.ofString("") == 0
    ensures !KeyEquals(k.(format := Null), k.(format := Str("")))
    ensures KeyHash(h, k.(format := Null)) == KeyHash(h, k.(format := Str("")))
  {
  }
}
