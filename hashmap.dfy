/** A hash map with separate chaining: an array of bucket lists whose length is
    a power of two, indexed by a mixed 32-bit hash code, doubled when half full. */
module Hashmap {
  import opened Wrappers

  function Pow2(k: nat): int {
    if k == 0 then 1 else 2 * Pow2(k - 1)
  }

  const DEFAULT_INITIAL_CAPACITY: int := 4
  /** `1 << 30` */
  const MAX_CAPACITY: int := 0x4000_0000

  ghost predicate IsPowerOf2(n: int)
    decreases n
  {
    n == 1 || (n >= 2 && n % 2 == 0 && IsPowerOf2(n / 2))
  }

  lemma {:induction false} Pow2IsPowerOf2(k: nat)
    ensures IsPowerOf2(Pow2(k))
  {
    if k > 0 { Pow2IsPowerOf2(k - 1); }
  }

  lemma MaxCapacityIsPowerOf2()
    ensures IsPowerOf2(MAX_CAPACITY)
  {
    assert Pow2(10) == 0x400;
    assert Pow2(20) == 0x10_0000;
    assert Pow2(30) == MAX_CAPACITY;
    Pow2IsPowerOf2(30);
  }

  /** Of two powers of two, the larger is at least twice the smaller: doubling
      a capacity below the maximum never passes it. */
  lemma {:induction false} PowerOf2Gap(a: int, b: int)
    requires IsPowerOf2(a) && IsPowerOf2(b) && a < b
    ensures 2 * a <= b
    decreases a
  {
    if a != 1 { PowerOf2Gap(a / 2, b / 2); }
  }

  /** The least power of two that is at least `initialCapacity` (1 when the
      argument is at most 1), found by doubling from 1. */
  method TrimToPowerOf2(initialCapacity: int) returns (capacity: int)
    requires initialCapacity <= MAX_CAPACITY
    ensures IsPowerOf2(capacity) && capacity <= MAX_CAPACITY
    ensures capacity >= initialCapacity
    ensures forall p :: IsPowerOf2(p) && p >= initialCapacity ==> capacity <= p
  {
    MaxCapacityIsPowerOf2();
    capacity := 1;
    while capacity < initialCapacity
      invariant IsPowerOf2(capacity)
      invariant forall p :: IsPowerOf2(p) && p >= initialCapacity ==> capacity <= p
      decreases MAX_CAPACITY - capacity
    {
      forall p | IsPowerOf2(p) && p >= initialCapacity
        ensures 2 * capacity <= p
      {
        PowerOf2Gap(capacity, p);
      }
      PowerOf2Gap(capacity, MAX_CAPACITY);
      capacity := capacity * 2;
    }
  }

  // ---------------------------------------------------------------------------
  // Hashing
  // ---------------------------------------------------------------------------

  /** The first round: XOR with the unsigned right shifts by 20 and 12. */
  function FirstRound(x: bv32): bv32 {
    x ^ (x >> 20) ^ (x >> 12)
  }

  /** The second round: XOR with the unsigned right shifts by 7 and 4. */
  function SecondRound(x: bv32): bv32 {
    x ^ (x >> 7) ^ (x >> 4)
  }

  /** Spreads the high bits of a hash code over the low ones. */
  function SupplementalHash(h: bv32): bv32 {
    SecondRound(FirstRound(h))
  }

  /** Undoes `FirstRound` by fixed-point iteration. */
  function UndoFirstRound(y: bv32): bv32 {
    var x1 := y ^ (y >> 20) ^ (y >> 12);
    var x2 := y ^ (x1 >> 20) ^ (x1 >> 12);
    y ^ (x2 >> 20) ^ (x2 >> 12)
  }

  /** Undoes `SecondRound` by fixed-point iteration. */
  function UndoSecondRound(y: bv32): bv32 {
    var x1 := y ^ (y >> 7) ^ (y >> 4);
    var x2 := y ^ (x1 >> 7) ^ (x1 >> 4);
    var x3 := y ^ (x2 >> 7) ^ (x2 >> 4);
    var x4 := y ^ (x3 >> 7) ^ (x3 >> 4);
    var x5 := y ^ (x4 >> 7) ^ (x4 >> 4);
    var x6 := y ^ (x5 >> 7) ^ (x5 >> 4);
    var x7 := y ^ (x6 >> 7) ^ (x6 >> 4);
    y ^ (x7 >> 7) ^ (x7 >> 4)
  }

  /** The inverse of `SupplementalHash`: the second round undone, then the first. */
  function Unmix(y: bv32): bv32 {
    UndoFirstRound(UndoSecondRound(y))
  }

  lemma FirstRoundBits(x: bv32)
    ensures UndoFirstRound(x ^ (x >> 20) ^ (x >> 12)) == x
  {
  }

  lemma SecondRoundBits(x: bv32)
    ensures UndoSecondRound(x ^ (x >> 7) ^ (x >> 4)) == x
  {
  }

  lemma FirstRoundUndone(x: bv32)
    ensures UndoFirstRound(FirstRound(x)) == x
  {
    FirstRoundBits(x);
  }

  lemma SecondRoundUndone(x: bv32)
    ensures UndoSecondRound(SecondRound(x)) == x
  {
    SecondRoundBits(x);
  }

  /** The mixing loses nothing: it is a bijection on 32-bit codes, so keys with
      different hash codes keep different mixed codes. */
  lemma SupplementalHashInvertible(h: bv32)
    ensures Unmix(SupplementalHash(h)) == h
  {
    SecondRoundUndone(FirstRound(h));
    FirstRoundUndone(h);
  }

  /** `x & (capacity - 1)` for a power-of-two capacity: the low log2(capacity)
      bits of `x`, read as a non-negative number. */
  function MaskLow(x: bv32, capacity: int): (r: int)
    requires IsPowerOf2(capacity)
    ensures 0 <= r < capacity
    decreases capacity
  {
    if capacity == 1 then 0
    else 2 * MaskLow(x >> 1, capacity / 2) + (if x & 1 == 1 then 1 else 0)
  }

  /** The bucket of a key with hash code `h`; always a valid table index. */
  function HashIndex(h: bv32, capacity: int): (i: int)
    requires IsPowerOf2(capacity)
    ensures 0 <= i < capacity
  {
    MaskLow(SupplementalHash(h), capacity)
  }

  // ---------------------------------------------------------------------------
  // Buckets
  // ---------------------------------------------------------------------------

  datatype Entry<K, V> = Entry(key: K, value: V)

  /** The number of entries over all buckets. */
  ghost function TotalSize<K, V>(buckets: seq<seq<Entry<K, V>>>): nat {
    if buckets == [] then 0
    else TotalSize(buckets[..|buckets| - 1]) + |buckets[|buckets| - 1]|
  }

  lemma {:induction false} TotalSizeUpdate<K, V>(buckets: seq<seq<Entry<K, V>>>, i: int, b: seq<Entry<K, V>>)
    requires 0 <= i < |buckets|
    ensures TotalSize(buckets[i := b]) == TotalSize(buckets) - |buckets[i]| + |b|
  {
    var n := |buckets|;
    if i < n - 1 {
      assert buckets[i := b][..n - 1] == buckets[..n - 1][i := b];
      TotalSizeUpdate(buckets[..n - 1], i, b);
    } else {
      assert buckets[i := b][..n - 1] == buckets[..n - 1];
    }
  }

  lemma {:induction false} TotalSizeEmpty<K, V>(buckets: seq<seq<Entry<K, V>>>)
    requires forall i :: 0 <= i < |buckets| ==> buckets[i] == []
    ensures TotalSize(buckets) == 0
  {
    if buckets != [] {
      TotalSizeEmpty(buckets[..|buckets| - 1]);
    }
  }

  lemma ProperSubsetSmaller<T>(a: set<T>, b: set<T>, x: T)
    requires a <= b && x in b && x !in a
    ensures |a| < |b|
  {
    assert b == a + (b - a);
    assert a * (b - a) == {};
    assert x in b - a;
  }

  /** Bucket `b` at index `i` of a table of `capacity` buckets for mapping `m`:
      each entry sits in its key's bucket and agrees with `m`, and no key
      occurs twice. */
  ghost predicate BucketOk<K, V>(b: seq<Entry<K, V>>, i: int, m: map<K, V>, hashCode: K -> bv32, capacity: int) {
    && IsPowerOf2(capacity)
    && (forall j :: 0 <= j < |b| ==>
          HashIndex(hashCode(b[j].key), capacity) == i && b[j].key in m && m[b[j].key] == b[j].value)
    && (forall j1, j2 :: 0 <= j1 < j2 < |b| ==> b[j1].key != b[j2].key)
  }

  /** The table invariant: `capacity` well-formed buckets, and every key of `m`
      has its entry in its own bucket. */
  ghost predicate TableOk<K, V>(t: seq<seq<Entry<K, V>>>, m: map<K, V>, hashCode: K -> bv32, capacity: int) {
    && IsPowerOf2(capacity) && |t| == capacity
    && (forall i :: 0 <= i < |t| ==> BucketOk(t[i], i, m, hashCode, capacity))
    && (forall k :: k in m ==> Entry(k, m[k]) in t[HashIndex(hashCode(k), capacity)])
  }

  lemma EmptyTableOk<K, V>(t: seq<seq<Entry<K, V>>>, hashCode: K -> bv32, capacity: int)
    requires IsPowerOf2(capacity) && |t| == capacity
    requires forall i :: 0 <= i < |t| ==> t[i] == []
    ensures TableOk(t, map[], hashCode, capacity) && TotalSize(t) == 0
  {
    TotalSizeEmpty(t);
  }

  lemma DoubleIsPowerOf2(n: int)
    requires IsPowerOf2(n)
    ensures IsPowerOf2(2 * n)
  {
    assert (2 * n) / 2 == n;
  }

  /** A fresh table of `capacity` empty buckets. */
  method EmptyTable<K, V>(capacity: int, hashCode: K -> bv32) returns (table: array<seq<Entry<K, V>>>)
    requires IsPowerOf2(capacity)
    ensures fresh(table) && table.Length == capacity
    ensures TableOk(table[..], map[], hashCode, capacity) && TotalSize(table[..]) == 0
  {
    table := new seq<Entry<K, V>>[capacity](_ => []);
    EmptyTableOk(table[..], hashCode, capacity);
  }

  /** A key whose bucket holds no entry with that key is not mapped. */
  lemma AbsentFromBucket<K, V>(t: seq<seq<Entry<K, V>>>, m: map<K, V>, hashCode: K -> bv32, capacity: int, k: K)
    requires TableOk(t, m, hashCode, capacity)
    requires var b := t[HashIndex(hashCode(k), capacity)]; forall j :: 0 <= j < |b| ==> b[j].key != k
    ensures k !in m
  {
    var b := t[HashIndex(hashCode(k), capacity)];
    forall e | e in b ensures e.key != k {
      var j :| 0 <= j < |b| && b[j] == e;
    }
  }

  /** A bucket stays well-formed under a new mapping that agrees on its keys. */
  lemma BucketOkAgain<K, V>(b: seq<Entry<K, V>>, i: int, m: map<K, V>, m': map<K, V>,
                            hashCode: K -> bv32, capacity: int)
    requires BucketOk(b, i, m, hashCode, capacity)
    requires forall j :: 0 <= j < |b| ==> b[j].key in m' && m'[b[j].key] == m[b[j].key]
    ensures BucketOk(b, i, m', hashCode, capacity)
  {
  }

  /** Overwriting the value of entry `j` of bucket `i`, and of its key in the
      mapping, keeps the table invariant and the entry count. */
  lemma TableReplace<K, V>(t: seq<seq<Entry<K, V>>>, m: map<K, V>, hashCode: K -> bv32, capacity: int,
                           i: int, j: int, v: V)
    requires TableOk(t, m, hashCode, capacity) && 0 <= i < |t| && 0 <= j < |t[i]|
    ensures var k := t[i][j].key;
      var t' := t[i := t[i][j := Entry(k, v)]];
      TableOk(t', m[k := v], hashCode, capacity) && TotalSize(t') == TotalSize(t)
  {
    var k := t[i][j].key;
    var b' := t[i][j := Entry(k, v)];
    BucketsAfterReplace(t, m, hashCode, capacity, i, j, v);
    CoverAfterReplace(t, m, hashCode, capacity, i, j, v);
    TotalSizeUpdate(t, i, b');
  }

  lemma BucketsAfterReplace<K, V>(t: seq<seq<Entry<K, V>>>, m: map<K, V>, hashCode: K -> bv32, capacity: int,
                                  i: int, j: int, v: V)
    requires TableOk(t, m, hashCode, capacity) && 0 <= i < |t| && 0 <= j < |t[i]|
    ensures var k := t[i][j].key;
      var t' := t[i := t[i][j := Entry(k, v)]];
      forall i' :: 0 <= i' < |t'| ==> BucketOk(t'[i'], i', m[k := v], hashCode, capacity)
  {
    var k := t[i][j].key;
    var b := t[i];
    var b' := b[j := Entry(k, v)];
    var t' := t[i := b'];
    var m' := m[k := v];
    assert BucketOk(b, i, m, hashCode, capacity);
    forall i' | 0 <= i' < |t'| ensures BucketOk(t'[i'], i', m', hashCode, capacity) {
      if i' != i {
        assert BucketOk(t[i'], i', m, hashCode, capacity);
        BucketOkAgain(t[i'], i', m, m', hashCode, capacity);
      }
    }
  }

  lemma CoverAfterReplace<K, V>(t: seq<seq<Entry<K, V>>>, m: map<K, V>, hashCode: K -> bv32, capacity: int,
                                i: int, j: int, v: V)
    requires TableOk(t, m, hashCode, capacity) && 0 <= i < |t| && 0 <= j < |t[i]|
    ensures var k := t[i][j].key;
      var t' := t[i := t[i][j := Entry(k, v)]];
      forall k' :: k' in m[k := v] ==> Entry(k', m[k := v][k']) in t'[HashIndex(hashCode(k'), capacity)]
  {
    var k := t[i][j].key;
    var b' := t[i][j := Entry(k, v)];
    var t' := t[i := b'];
    var m' := m[k := v];
    assert BucketOk(t[i], i, m, hashCode, capacity);
    forall k' | k' in m' ensures Entry(k', m'[k']) in t'[HashIndex(hashCode(k'), capacity)] {
      if k' == k {
        assert b'[j] == Entry(k', m'[k']);
      } else {
        var b2 := t[HashIndex(hashCode(k'), capacity)];
        var j2 :| 0 <= j2 < |b2| && b2[j2] == Entry(k', m[k']);
        assert t'[HashIndex(hashCode(k'), capacity)][j2] == Entry(k', m'[k']);
      }
    }
  }

  /** Appending a new key's entry to its bucket, and the key to the mapping,
      keeps the table invariant and adds one to the entry count. */
  lemma TableAppend<K, V>(t: seq<seq<Entry<K, V>>>, m: map<K, V>, hashCode: K -> bv32, capacity: int,
                          k: K, v: V)
    requires TableOk(t, m, hashCode, capacity) && k !in m
    ensures var i := HashIndex(hashCode(k), capacity);
      var t' := t[i := t[i] + [Entry(k, v)]];
      && TableOk(t', m[k := v], hashCode, capacity)
      && TotalSize(t') == TotalSize(t) + 1 && |m[k := v]| == |m| + 1
  {
    var i := HashIndex(hashCode(k), capacity);
    BucketsAfterAppend(t, m, hashCode, capacity, k, v);
    CoverAfterAppend(t, m, hashCode, capacity, k, v);
    TotalSizeUpdate(t, i, t[i] + [Entry(k, v)]);
  }

  lemma BucketsAfterAppend<K, V>(t: seq<seq<Entry<K, V>>>, m: map<K, V>, hashCode: K -> bv32, capacity: int,
                                 k: K, v: V)
    requires TableOk(t, m, hashCode, capacity) && k !in m
    ensures var i := HashIndex(hashCode(k), capacity);
      var t' := t[i := t[i] + [Entry(k, v)]];
      forall i' :: 0 <= i' < |t'| ==> BucketOk(t'[i'], i', m[k := v], hashCode, capacity)
  {
    var i := HashIndex(hashCode(k), capacity);
    var b := t[i];
    var b' := b + [Entry(k, v)];
    var t' := t[i := b'];
    var m' := m[k := v];
    forall i' | 0 <= i' < |t'| ensures BucketOk(t'[i'], i', m', hashCode, capacity) {
      assert BucketOk(t[i'], i', m, hashCode, capacity);
      BucketOkAgain(t[i'], i', m, m', hashCode, capacity);
    }
  }

  lemma CoverAfterAppend<K, V>(t: seq<seq<Entry<K, V>>>, m: map<K, V>, hashCode: K -> bv32, capacity: int,
                               k: K, v: V)
    requires TableOk(t, m, hashCode, capacity) && k !in m
    ensures var i := HashIndex(hashCode(k), capacity);
      var t' := t[i := t[i] + [Entry(k, v)]];
      forall k' :: k' in m[k := v] ==> Entry(k', m[k := v][k']) in t'[HashIndex(hashCode(k'), capacity)]
  {
    var i := HashIndex(hashCode(k), capacity);
    var b := t[i];
    var b' := b + [Entry(k, v)];
    var t' := t[i := b'];
    var m' := m[k := v];
    forall k' | k' in m' ensures Entry(k', m'[k']) in t'[HashIndex(hashCode(k'), capacity)] {
      if k' == k {
        assert b'[|b|] == Entry(k', m'[k']);
      } else {
        var b2 := t[HashIndex(hashCode(k'), capacity)];
        var j2 :| 0 <= j2 < |b2| && b2[j2] == Entry(k', m[k']);
        assert t'[HashIndex(hashCode(k'), capacity)][j2] == Entry(k', m'[k']);
      }
    }
  }

  /** Dropping entry `j` of bucket `i`, and its key from the mapping, keeps the
      table invariant and takes one from the entry count. */
  lemma TableDrop<K, V>(t: seq<seq<Entry<K, V>>>, m: map<K, V>, hashCode: K -> bv32, capacity: int,
                        i: int, j: int)
    requires TableOk(t, m, hashCode, capacity) && 0 <= i < |t| && 0 <= j < |t[i]|
    ensures var t' := t[i := t[i][..j] + t[i][j + 1..]];
      && t[i][j].key in m
      && TableOk(t', m - {t[i][j].key}, hashCode, capacity)
      && TotalSize(t') == TotalSize(t) - 1
  {
    assert BucketOk(t[i], i, m, hashCode, capacity);
    BucketsAfterDrop(t, m, hashCode, capacity, i, j);
    CoverAfterDrop(t, m, hashCode, capacity, i, j);
    TotalSizeUpdate(t, i, t[i][..j] + t[i][j + 1..]);
  }

  lemma BucketsAfterDrop<K, V>(t: seq<seq<Entry<K, V>>>, m: map<K, V>, hashCode: K -> bv32, capacity: int,
                               i: int, j: int)
    requires TableOk(t, m, hashCode, capacity) && 0 <= i < |t| && 0 <= j < |t[i]|
    ensures var t' := t[i := t[i][..j] + t[i][j + 1..]];
      forall i' :: 0 <= i' < |t'| ==> BucketOk(t'[i'], i', m - {t[i][j].key}, hashCode, capacity)
  {
    var b := t[i];
    var k := b[j].key;
    var b' := b[..j] + b[j + 1..];
    var t' := t[i := b'];
    var m' := m - {k};
    assert BucketOk(b, i, m, hashCode, capacity);
    forall j1 | 0 <= j1 < |b'| ensures b'[j1] == b[if j1 < j then j1 else j1 + 1] {
    }
    forall i' | 0 <= i' < |t'| ensures BucketOk(t'[i'], i', m', hashCode, capacity) {
      assert BucketOk(t[i'], i', m, hashCode, capacity);
      if i' != i {
        BucketOkAgain(t[i'], i', m, m', hashCode, capacity);
      }
    }
  }

  lemma CoverAfterDrop<K, V>(t: seq<seq<Entry<K, V>>>, m: map<K, V>, hashCode: K -> bv32, capacity: int,
                             i: int, j: int)
    requires TableOk(t, m, hashCode, capacity) && 0 <= i < |t| && 0 <= j < |t[i]|
    ensures var t' := t[i := t[i][..j] + t[i][j + 1..]];
      forall k' :: k' in m - {t[i][j].key} ==>
        Entry(k', (m - {t[i][j].key})[k']) in t'[HashIndex(hashCode(k'), capacity)]
  {
    var b := t[i];
    var k := b[j].key;
    var b' := b[..j] + b[j + 1..];
    var t' := t[i := b'];
    var m' := m - {k};
    assert BucketOk(b, i, m, hashCode, capacity);
    forall k' | k' in m' ensures Entry(k', m'[k']) in t'[HashIndex(hashCode(k'), capacity)] {
      var i2 := HashIndex(hashCode(k'), capacity);
      var j2 :| 0 <= j2 < |t[i2]| && t[i2][j2] == Entry(k', m[k']);
      if i2 != i {
        assert t'[i2][j2] == Entry(k', m'[k']);
      } else if j2 < j {
        assert b'[j2] == Entry(k', m'[k']);
      } else {
        assert j2 != j;
        assert b'[j2 - 1] == Entry(k', m'[k']);
      }
    }
  }

  /** The walk over one bucket that adds each entry to `s`. */
  method AddEntries<K(==), V(==)>(s: set<Entry<K, V>>, bucket: seq<Entry<K, V>>) returns (s': set<Entry<K, V>>)
    ensures forall e :: e in s' <==> e in s || e in bucket
  {
    s' := s;
    for j := 0 to |bucket|
      invariant forall e :: e in s' <==> e in s || e in bucket[..j]
    {
      assert bucket[..j + 1] == bucket[..j] + [bucket[j]];
      s' := s' + {bucket[j]};
    }
    assert bucket[..|bucket|] == bucket;
  }

  /** The walk over one bucket that adds each key to `s`. */
  method AddKeys<K(==), V>(s: set<K>, bucket: seq<Entry<K, V>>) returns (s': set<K>)
    ensures s' == s + set e | e in bucket :: e.key
  {
    s' := s;
    for j := 0 to |bucket|
      invariant s' == s + set e | e in bucket[..j] :: e.key
    {
      assert bucket[..j + 1] == bucket[..j] + [bucket[j]];
      s' := s' + {bucket[j].key};
    }
    assert bucket[..|bucket|] == bucket;
  }

  /** The walk over one bucket that adds each value to `s`. */
  method AddValues<K, V(==)>(s: set<V>, bucket: seq<Entry<K, V>>) returns (s': set<V>)
    ensures s' == s + set e | e in bucket :: e.value
  {
    s' := s;
    for j := 0 to |bucket|
      invariant s' == s + set e | e in bucket[..j] :: e.value
    {
      assert bucket[..j + 1] == bucket[..j] + [bucket[j]];
      s' := s' + {bucket[j].value};
    }
    assert bucket[..|bucket|] == bucket;
  }

  /** The walk over a bucket that stops at the first entry with `key`:
      its position, or -1 when there is none. */
  method FindKey<K(==), V>(bucket: seq<Entry<K, V>>, key: K) returns (j: int)
    ensures -1 <= j < |bucket|
    ensures j >= 0 ==> bucket[j].key == key
    ensures forall j' :: 0 <= j' < |bucket| && (j == -1 || j' < j) ==> bucket[j'].key != key
  {
    for i := 0 to |bucket|
      invariant forall j' :: 0 <= j' < i ==> bucket[j'].key != key
    {
      if bucket[i].key == key {
        return i;
      }
    }
    return -1;
  }

  datatype PutError = ExceedingMaximumCapacity

  class HashMap<K(==,!new), V(==,!new)> {
    var capacity: int
    var size: int
    /** The buckets; an empty sequence stands for a null bucket. */
    var table: array<seq<Entry<K, V>>>
    /** `hashCode` of the key type. */
    const hashCode: K -> bv32
    /** The mapping the table represents. */
    ghost var M: map<K, V>

    ghost predicate Valid()
      reads this, table
    {
      && capacity <= MAX_CAPACITY
      && table.Length == capacity
      && TableOk(table[..], M, hashCode, capacity)
      && size == |M| == TotalSize(table[..])
      && size <= capacity
    }

    /** An empty map with the default capacity, 4. */
    constructor(hashCode: K -> bv32)
      ensures Valid() && M == map[] && this.hashCode == hashCode
      ensures capacity == DEFAULT_INITIAL_CAPACITY
    {
      this.hashCode := hashCode;
      var c := TrimToPowerOf2(DEFAULT_INITIAL_CAPACITY);
      capacity := c;
      size := 0;
      M := map[];
      table := new seq<Entry<K, V>>[c](_ => []);
      new;
      EmptyTableOk(table[..], hashCode, capacity);
    }

    /** An empty map whose capacity is the least power of two at least
        `initialCapacity`, capped at the maximum. */
    constructor WithCapacity(initialCapacity: int, hashCode: K -> bv32)
      ensures Valid() && M == map[] && this.hashCode == hashCode
      ensures initialCapacity > MAX_CAPACITY ==> capacity == MAX_CAPACITY
      ensures initialCapacity <= MAX_CAPACITY ==> capacity >= initialCapacity
      ensures forall p :: IsPowerOf2(p) && p >= initialCapacity ==> capacity <= p
    {
      MaxCapacityIsPowerOf2();
      this.hashCode := hashCode;
      var c;
      if initialCapacity > MAX_CAPACITY {
        c := MAX_CAPACITY;
      } else {
        c := TrimToPowerOf2(initialCapacity);
      }
      capacity := c;
      size := 0;
      M := map[];
      table := new seq<Entry<K, V>>[c](_ => []);
      new;
      EmptyTableOk(table[..], hashCode, capacity);
    }

    method Get(key: K) returns (r: Option<V>)
      requires Valid()
      ensures r == if key in M then Some(M[key]) else None
    {
      var bucketIndex := HashIndex(hashCode(key), capacity);
      var bucket := table[bucketIndex];
      assert bucket == table[..][bucketIndex];
      assert BucketOk(bucket, bucketIndex, M, hashCode, capacity);
      var j := FindKey(bucket, key);
      if j >= 0 {
        return Some(bucket[j].value);
      }
      AbsentFromBucket(table[..], M, hashCode, capacity, key);
      return None;
    }

    method ContainsKey(key: K) returns (r: bool)
      requires Valid()
      ensures r <==> key in M
    {
      var v := Get(key);
      return v.Some?;
    }

    method ContainsValue(value: V) returns (r: bool)
      requires Valid()
      ensures r <==> value in M.Values
    {
      for i := 0 to capacity
        invariant forall k :: k in M && HashIndex(hashCode(k), capacity) < i ==> M[k] != value
      {
        var bucket := table[i];
        assert bucket == table[..][i];
        assert BucketOk(bucket, i, M, hashCode, capacity);
        for j := 0 to |bucket|
          invariant forall j' :: 0 <= j' < j ==> bucket[j'].value != value
        {
          if bucket[j].value == value {
            assert M[bucket[j].key] == value;
            return true;
          }
        }
        forall k | k in M && HashIndex(hashCode(k), capacity) == i ensures M[k] != value {
          assert Entry(k, M[k]) in bucket;
        }
      }
      return false;
    }

    /** The entries, as a set of key-value pairs. */
    method EntrySet() returns (s: set<Entry<K, V>>)
      requires Valid()
      ensures forall e :: e in s <==> e.key in M && M[e.key] == e.value
    {
      s := {};
      for i := 0 to capacity
        invariant forall e :: e in s ==> e.key in M && M[e.key] == e.value
        invariant forall k :: k in M && HashIndex(hashCode(k), capacity) < i ==> Entry(k, M[k]) in s
      {
        var bucket := table[i];
        assert bucket == table[..][i];
        assert BucketOk(bucket, i, M, hashCode, capacity);
        s := AddEntries(s, bucket);
        forall k | k in M && HashIndex(hashCode(k), capacity) == i ensures Entry(k, M[k]) in s {
          assert Entry(k, M[k]) in bucket;
        }
      }
    }

    method KeySet() returns (s: set<K>)
      requires Valid()
      ensures s == M.Keys
    {
      s := {};
      for i := 0 to capacity
        invariant s <= M.Keys
        invariant forall k :: k in M && HashIndex(hashCode(k), capacity) < i ==> k in s
      {
        var bucket := table[i];
        assert bucket == table[..][i];
        assert BucketOk(bucket, i, M, hashCode, capacity);
        s := AddKeys(s, bucket);
        forall k | k in M && HashIndex(hashCode(k), capacity) == i ensures k in s {
          assert Entry(k, M[k]) in bucket;
        }
      }
    }

    method Values() returns (s: set<V>)
      requires Valid()
      ensures s == M.Values
    {
      s := {};
      for i := 0 to capacity
        invariant s <= M.Values
        invariant forall k :: k in M && HashIndex(hashCode(k), capacity) < i ==> M[k] in s
      {
        var bucket := table[i];
        assert bucket == table[..][i];
        assert BucketOk(bucket, i, M, hashCode, capacity);
        s := AddValues(s, bucket);
        forall k | k in M && HashIndex(hashCode(k), capacity) == i ensures M[k] in s {
          assert Entry(k, M[k]) in bucket;
        }
      }
      forall v | v in M.Values ensures v in s {
        var k :| k in M && M[k] == v;
      }
    }

    method IsEmpty() returns (r: bool)
      requires Valid()
      ensures r <==> M == map[]
    {
      return size == 0;
    }

    method Size() returns (n: int)
      requires Valid()
      ensures n == |M|
    {
      return size;
    }

    /** Stores `value` under `key`. A present key has its value replaced in
        place and the old value is returned; a new key is appended to its bucket
        (after growing the table when it is half full) and `value` itself is
        returned. Growing past the maximum capacity is an error. */
    method Put(key: K, value: V) returns (r: Result<V, PutError>)
      requires Valid()
      modifies this, table
      ensures Valid()
      ensures key in old(M) ==>
        r == Ok(old(M)[key]) && M == old(M)[key := value]
        && capacity == old(capacity) && table == old(table)
      ensures key !in old(M) && 2 * old(size) >= old(capacity) && old(capacity) == MAX_CAPACITY ==>
        r == Err(ExceedingMaximumCapacity) && M == old(M)
        && capacity == old(capacity) && table == old(table)
      ensures key !in old(M) && 2 * old(size) < old(capacity) ==>
        r == Ok(value) && M == old(M)[key := value]
        && capacity == old(capacity) && table == old(table)
      ensures key !in old(M) && 2 * old(size) >= old(capacity) && old(capacity) < MAX_CAPACITY ==>
        r == Ok(value) && M == old(M)[key := value]
        && capacity == 2 * old(capacity) && fresh(table)
      decreases MAX_CAPACITY - capacity, 1
    {
      var existing := Get(key);
      if existing.Some? {
        var bucketIndex := HashIndex(hashCode(key), capacity);
        var bucket := table[bucketIndex];
        assert bucket == table[..][bucketIndex];
        assert Entry(key, M[key]) in bucket;
        var j := FindKey(bucket, key);
        var oldValue := ReplaceAt(bucketIndex, j, value);
        return Ok(oldValue);
      }

      // check the load factor 0.5
      if 2 * size >= capacity {
        if capacity == MAX_CAPACITY {
          return Err(ExceedingMaximumCapacity);
        }
        Rehash();
      }
      AddEntry(key, value);
      return Ok(value);
    }

    /** Overwrites the value of entry `j` of bucket `i`, returning the old one. */
    method ReplaceAt(i: int, j: int, value: V) returns (oldValue: V)
      requires Valid() && 0 <= i < table.Length && 0 <= j < |table[i]|
      modifies table, this`M
      ensures Valid()
      ensures old(table[i][j].key) in old(M) && oldValue == old(M)[old(table[i][j].key)]
      ensures M == old(M)[old(table[i][j].key) := value]
    {
      ghost var t, m := table[..], M;
      var bucket := table[i];
      var key := bucket[j].key;
      oldValue := bucket[j].value;
      assert BucketOk(t[i], i, m, hashCode, capacity);
      table[i] := bucket[j := Entry(key, value)];
      M := M[key := value];
      ReplaceKeepsValid(t, m, i, j, value);
    }

    /** The table after `ReplaceAt` on buckets `t` and mapping `m` is valid. */
    lemma ReplaceKeepsValid(t: seq<seq<Entry<K, V>>>, m: map<K, V>, i: int, j: int, value: V)
      requires table.Length == capacity <= MAX_CAPACITY && |t| == capacity
      requires TableOk(t, m, hashCode, capacity) && size == |m| == TotalSize(t) && size <= capacity
      requires 0 <= i < |t| && 0 <= j < |t[i]|
      requires table[..] == t[i := t[i][j := Entry(t[i][j].key, value)]]
      requires M == m[t[i][j].key := value]
      ensures Valid()
    {
      TableReplace(t, m, hashCode, capacity, i, j, value);
    }

    /** Appends a new key's entry to its bucket. */
    method AddEntry(key: K, value: V)
      requires Valid() && key !in M && size < capacity
      modifies table, this`size, this`M
      ensures Valid()
      ensures M == old(M)[key := value]
    {
      var bucketIndex := HashIndex(hashCode(key), capacity);
      var bucket := table[bucketIndex];
      ghost var t, m := table[..], M;
      table[bucketIndex] := bucket + [Entry(key, value)];
      size, M := size + 1, M[key := value];
      AppendKeepsValid(t, m, key, value);
    }

    /** The table after `AddEntry` on buckets `t` and mapping `m` is valid. */
    lemma AppendKeepsValid(t: seq<seq<Entry<K, V>>>, m: map<K, V>, key: K, value: V)
      requires table.Length == capacity <= MAX_CAPACITY && |t| == capacity
      requires TableOk(t, m, hashCode, capacity) && |m| == TotalSize(t) && |m| < capacity && key !in m
      requires var i := HashIndex(hashCode(key), capacity);
        table[..] == t[i := t[i] + [Entry(key, value)]]
      requires M == m[key := value] && size == |m| + 1
      ensures Valid()
    {
      TableAppend(t, m, hashCode, capacity, key, value);
    }

    /** Doubles the capacity and stores every entry again in a new table. */
    method Rehash()
      requires Valid() && capacity < MAX_CAPACITY
      modifies this
      ensures Valid() && fresh(table)
      ensures M == old(M) && capacity == 2 * old(capacity)
      decreases MAX_CAPACITY - capacity, 0
    {
      var entries := EntrySet();
      ghost var M0 := M;
      MaxCapacityIsPowerOf2();
      PowerOf2Gap(capacity, MAX_CAPACITY);
      DoubleIsPowerOf2(capacity);
      var newTable := EmptyTable(capacity * 2, hashCode);
      capacity := capacity * 2;
      table := newTable;
      size := 0;
      M := map[];
      PutAll(entries, M0);
    }

    /** The loop of `rehash`: puts every entry of `entries` into a table that
        is at most half full afterwards, so no put grows it again. */
    method PutAll(entries: set<Entry<K, V>>, ghost M0: map<K, V>)
      requires Valid() && M == map[] && 2 * |M0| <= capacity
      requires forall e :: e in entries <==> e.key in M0 && e.value == M0[e.key]
      modifies this, table
      ensures Valid() && M == M0
      ensures capacity == old(capacity) && table == old(table)
      decreases MAX_CAPACITY - capacity, 3
    {
      var rest := entries;
      while rest != {}
        invariant Valid()
        invariant capacity == old(capacity) && table == old(table)
        invariant forall k :: k in M ==> k in M0 && M[k] == M0[k]
        invariant forall e :: e in rest <==> e.key in M0 && e.key !in M && e.value == M0[e.key]
        decreases |rest|
      {
        var entry :| entry in rest;
        PutAllStep(M0, M, rest, entry);
        PutNew(entry.key, entry.value);
        rest := rest - {entry};
      }
      forall k | k in M0 ensures k in M {
        assert Entry(k, M0[k]) !in rest;
      }
    }

    /** One step of `PutAll`: storing a remaining entry moves it from `rest`
        into the mapping. */
    static lemma PutAllStep(M0: map<K, V>, m: map<K, V>, rest: set<Entry<K, V>>, entry: Entry<K, V>)
      requires entry in rest
      requires forall k :: k in m ==> k in M0 && m[k] == M0[k]
      requires forall e :: e in rest <==> e.key in M0 && e.key !in m && e.value == M0[e.key]
      ensures forall k :: k in m[entry.key := entry.value] ==>
        k in M0 && m[entry.key := entry.value][k] == M0[k]
      ensures forall e :: e in rest - {entry} <==>
        e.key in M0 && e.key !in m[entry.key := entry.value] && e.value == M0[e.key]
      ensures entry.key !in m && |m| < |M0|
    {
      ProperSubsetSmaller(m.Keys, M0.Keys, entry.key);
    }

    /** A put of a new key into a table under half full: no growth. */
    method PutNew(key: K, value: V)
      requires Valid() && key !in M && 2 * size < capacity
      modifies this, table
      ensures Valid() && M == old(M)[key := value]
      ensures capacity == old(capacity) && table == old(table)
      decreases MAX_CAPACITY - capacity, 2
    {
      var _ := Put(key, value);
    }

    method Remove(key: K)
      requires Valid()
      modifies this, table
      ensures Valid()
      ensures M == old(M) - {key} && capacity == old(capacity) && table == old(table)
    {
      var bucketIndex := HashIndex(hashCode(key), capacity);
      var bucket := table[bucketIndex];
      assert bucket == table[..][bucketIndex];
      var j := FindKey(bucket, key);
      if j >= 0 {
        // remove just the first entry that matches the key
        RemoveAt(bucketIndex, j);
      } else {
        AbsentFromBucket(table[..], M, hashCode, capacity, key);
        assert M - {key} == M;
      }
    }

    /** Unlinks entry `j` of bucket `i`. */
    method RemoveAt(i: int, j: int)
      requires Valid() && 0 <= i < table.Length && 0 <= j < |table[i]|
      modifies this, table
      ensures Valid()
      ensures M == old(M) - {old(table[i][j].key)}
      ensures capacity == old(capacity) && table == old(table)
    {
      ghost var t, m := table[..], M;
      var bucket := table[i];
      table[i] := bucket[..j] + bucket[j + 1..];
      size, M := size - 1, M - {bucket[j].key};
      DropKeepsValid(t, m, i, j);
    }

    /** The table after `RemoveAt` on buckets `t` and mapping `m` is valid. */
    lemma DropKeepsValid(t: seq<seq<Entry<K, V>>>, m: map<K, V>, i: int, j: int)
      requires table.Length == capacity <= MAX_CAPACITY && |t| == capacity
      requires TableOk(t, m, hashCode, capacity) && |m| == TotalSize(t) <= capacity
      requires 0 <= i < |t| && 0 <= j < |t[i]|
      requires table[..] == t[i := t[i][..j] + t[i][j + 1..]]
      requires M == m - {t[i][j].key} && size == |m| - 1
      ensures Valid()
    {
      TableDrop(t, m, hashCode, capacity, i, j);
    }

    /** Empties every bucket; the capacity stays. */
    method Clear()
      requires Valid()
      modifies this, table
      ensures Valid() && M == map[]
      ensures capacity == old(capacity) && table == old(table)
    {
      size := 0;
      RemoveEntries();
      M := map[];
      EmptyTableOk(table[..], hashCode, capacity);
    }

    method RemoveEntries()
      requires table.Length == capacity
      modifies table
      ensures forall i :: 0 <= i < table.Length ==> table[i] == []
    {
      for i := 0 to capacity
        invariant forall i' :: 0 <= i' < i ==> table[i'] == []
      {
        table[i] := [];
      }
    }
  }
}
