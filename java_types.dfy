/** Java's fixed-width integers, nullable String references and byte[] references, with the
    library operations the cache keys use on them (String.equals, Arrays.equals, Arrays.hashCode). */
module JavaTypes {

  newtype int8 = x: int | -0x80 <= x < 0x80
  newtype int16 = x: int | -0x8000 <= x < 0x8000
  newtype int32 = x: int | -0x8000_0000 <= x < 0x8000_0000

  const TWO_TO_THE_32: int := 0x1_0000_0000

  /** The Java `int` that an exact integer result wraps to: the 32-bit two's-complement value
      congruent to x. */
  function Wrap(x: int): (r: int32)
    ensures (x - r as int) % TWO_TO_THE_32 == 0
    ensures -0x8000_0000 <= x < 0x8000_0000 ==> r as int == x
  {
    var q := (x + 0x8000_0000) / TWO_TO_THE_32;
    var m := (x + 0x8000_0000) % TWO_TO_THE_32;
    assert x - (m - 0x8000_0000) == TWO_TO_THE_32 * q;
    (m - 0x8000_0000) as int32
  }

  /** x and the Java `int` it wraps to differ by a multiple of 2^32. */
  lemma WrapQuotient(x: int) returns (q: int)
    ensures x - Wrap(x) as int == TWO_TO_THE_32 * q
  {
    q := (x + 0x8000_0000) / TWO_TO_THE_32;
  }

  /** Only one Java `int` differs from x by a multiple of 2^32. */
  lemma WrapUnique(x: int, r: int32, k: int)
    requires x - r as int == TWO_TO_THE_32 * k
    ensures Wrap(x) == r
  {
    var q := WrapQuotient(x);
    assert r as int - Wrap(x) as int == TWO_TO_THE_32 * (q - k);
  }

  /** One step of the `result = 31 * result + field` fold that every hashCode here is built from,
      in Java's wrapping `int` arithmetic. */
  function HashStep(result: int32, field: int32): int32
  {
    Wrap(31 * result as int + field as int)
  }

  /** Wrapping after every step of the fold gives what wrapping once at the end would. */
  lemma HashStepOfWrap(x: int, field: int32)
    ensures HashStep(Wrap(x), field) == Wrap(31 * x + field as int)
  {
    var w := Wrap(x);
    var q1 := WrapQuotient(x);
    var q2 := WrapQuotient(31 * w as int + field as int);
    WrapUnique(31 * x + field as int, HashStep(w, field), 31 * q1 + q2);
  }

  /** Two steps of the fold after a wrapped value, as one wrapping of the exact polynomial. */
  lemma TwoHashStepsOfWrap(x: int, a: int32, b: int32)
    ensures HashStep(HashStep(Wrap(x), a), b) == Wrap(961 * x + 31 * a as int + b as int)
  {
    HashStepOfWrap(x, a);
    HashStepOfWrap(31 * x + a as int, b);
  }

  /** A Java String reference. */
  datatype JString = Null | Str(value: string)

  /** `receiver.equals(arg)` for a receiver that is not null: false whenever arg is null. */
  predicate StringEquals(receiver: string, arg: JString)
  {
    arg.Str? && arg.value == receiver
  }

  /** The null-checked comparison the equals methods write out for a String field:
      `a == null ? b == null : a.equals(b)`. It is exactly equality of references-as-values. */
  function NullableStringEquals(a: JString, b: JString): (r: bool)
    ensures r <==> a == b
  {
    if a.Null? then b.Null? else StringEquals(a.value, b)
  }

  /** A Java byte[] reference: null, or an array object, given by its identity and its content.
      The content is taken as fixed once the array is handed over. */
  datatype ByteArray = NullArray | Bytes(identity: nat, content: seq<int8>)

  /** java.util.Arrays.equals(byte[], byte[]): null equals only null; two arrays are equal when
      they have the same length and the same element at every index, whatever their identity. */
  function ArraysEquals(a: ByteArray, b: ByteArray): (r: bool)
    ensures a.Bytes? && b.Bytes? ==> (r <==> a.content == b.content)
    ensures a.NullArray? || b.NullArray? ==> (r <==> a.NullArray? && b.NullArray?)
  {
    match (a, b)
    case (NullArray, NullArray) => true
    case (Bytes(_, x), Bytes(_, y)) =>
      |x| == |y| && forall i :: 0 <= i < |x| ==> x[i] == y[i]
    case _ => false
  }

  /** java.util.Arrays.hashCode(byte[]): 0 for null, otherwise `31 * result + element` over the
      elements in order, starting from 1. A null array and an empty one hash differently, and
      appending an element to an array takes one more step of the fold. */
  function ArraysHashCode(a: ByteArray): (r: int32)
    ensures a.NullArray? ==> r == 0
    ensures a.Bytes? && a.content == [] ==> r == 1
    ensures a.Bytes? && a.content != [] ==>
              var n := |a.content| - 1;
              r == HashStep(ArraysHashCode(Bytes(a.identity, a.content[..n])), a.content[n] as int32)
    decreases if a.Bytes? then |a.content| else 0
  {
    if a.NullArray? then 0
    else if a.content == [] then HashBytes(1, a.content)
    else
      var n := |a.content| - 1;
      assert a.content == a.content[..n] + [a.content[n]];
      HashBytesAppend(1, a.content[..n], a.content[n]);
      HashBytes(1, a.content)
  }

  /** The element loop of Arrays.hashCode, continued from the running result `acc`. */
  function HashBytes(acc: int32, s: seq<int8>): int32
    decreases |s|
  {
    if s == [] then acc else HashBytes(HashStep(acc, s[0] as int32), s[1..])
  }

  /** The loop consumes the elements front to back, so hashing one more element at the end is one
      more step of the fold after hashing the rest. */
  lemma {:induction false} HashBytesAppend(acc: int32, s: seq<int8>, b: int8)
    ensures HashBytes(acc, s + [b]) == HashStep(HashBytes(acc, s), b as int32)
    decreases |s|
  {
    if s == [] {
      assert [] + [b] == [b];
    } else {
      assert (s + [b])[1..] == s[1..] + [b];
      HashBytesAppend(HashStep(acc, s[0] as int32), s[1..], b);
    }
  }
}
