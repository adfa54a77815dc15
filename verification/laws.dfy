/**
 * How `put`, `get` and `remove` interact, key by key.
 */
module MapLaws {
  import opened Answers
  import opened Chains
  import opened HashMap
  import opened MapInvariants

  /**
   * After `put(k, v)`, `get(k)` answers `v` and `get` of every other key is
   * unchanged, whether or not that key shares `k`'s bucket.
   */
  lemma GetPut<K, V>(hash: K -> Word, m: HashMap<K, V>, k: K, v: V, k': K)
    requires WellSized(m)
    ensures Get(hash, Put(hash, m, k, v), k') == if k' == k then Present(v) else Get(hash, m, k')
  {
    var b := BucketIndex(hash, k);
    var r := Put(hash, m, k, v);
    assert r.buckets[b] == Update(m.buckets[b], k, v);
    if BucketIndex(hash, k') == b {
      LookupUpdate(m.buckets[b], k, v, k');
    }
  }

  /**
   * After `remove(k)`, `get(k)` reports absence and `get` of every other key
   * is unchanged.
   */
  lemma GetRemove<K, V>(hash: K -> Word, m: HashMap<K, V>, k: K, k': K)
    requires Valid(hash, m)
    ensures Get(hash, Remove(hash, m, k), k') == if k' == k then Absent else Get(hash, m, k')
  {
    var b := BucketIndex(hash, k);
    var r := Remove(hash, m, k);
    assert r.buckets[b] == Delete(m.buckets[b], k);
    if BucketIndex(hash, k') == b {
      ChainsFromUnique(m);
      LookupDelete(m.buckets[b], k, k');
    }
  }

  /** `remove` of a key the map does not hold (an empty bucket included) changes nothing. */
  lemma RemoveAbsent<K, V>(hash: K -> Word, m: HashMap<K, V>, k: K)
    requires WellSized(m)
    requires Get(hash, m, k) == Absent
    ensures Remove(hash, m, k) == m
  {
  }

  /** Removing a key twice is the same as removing it once. */
  lemma RemoveIdempotent<K, V>(hash: K -> Word, m: HashMap<K, V>, k: K)
    requires Valid(hash, m)
    ensures Remove(hash, Remove(hash, m, k), k) == Remove(hash, m, k)
  {
    GetRemove(hash, m, k, k);
    RemoveAbsent(hash, Remove(hash, m, k), k);
  }

  /**
   * A second `put` of the same key overwrites: `get` answers the later value
   * and the key's chain does not grow.
   */
  lemma PutOverwrites<K, V>(hash: K -> Word, m: HashMap<K, V>, k: K, v1: V, v2: V)
    requires WellSized(m)
    ensures Get(hash, Put(hash, Put(hash, m, k, v1), k, v2), k) == Present(v2)
    ensures |BucketOf(hash, Put(hash, Put(hash, m, k, v1), k, v2), k)| ==
            |BucketOf(hash, Put(hash, m, k, v1), k)|
  {
    var m1 := Put(hash, m, k, v1);
    GetPut(hash, m1, k, v2, k);
    GetPut(hash, m, k, v1, k);
  }

  /**
   * Two distinct keys that share a bucket do not disturb each other: after
   * both are put, each answers its own value, and removing one leaves the
   * other's value in place.
   */
  lemma CollisionIndependence<K, V>(hash: K -> Word, m: HashMap<K, V>, k1: K, v1: V, k2: K, v2: V)
    requires Valid(hash, m)
    requires k1 != k2 && BucketIndex(hash, k1) == BucketIndex(hash, k2)
    ensures var m2 := Put(hash, Put(hash, m, k1, v1), k2, v2);
      && Get(hash, m2, k1) == Present(v1)
      && Get(hash, m2, k2) == Present(v2)
      && Get(hash, Remove(hash, m2, k1), k2) == Present(v2)
      && Get(hash, Remove(hash, m2, k2), k1) == Present(v1)
  {
    var m1 := Put(hash, m, k1, v1);
    var m2 := Put(hash, m1, k2, v2);
    GetPut(hash, m, k1, v1, k1);
    GetPut(hash, m1, k2, v2, k1);
    GetPut(hash, m1, k2, v2, k2);
    PutValid(hash, m, k1, v1);
    PutValid(hash, m1, k2, v2);
    GetRemove(hash, m2, k1, k2);
    GetRemove(hash, m2, k2, k1);
  }
}
