/**
 * The chained hash map: a fixed table of 29 buckets, each holding one chain,
 * with a single hashing step that routes `put`, `get` and `remove` to a bucket.
 *
 * The key hash (the host's `std::hash<K>`) is not modelled; every operation
 * takes it as a parameter `hash`, any total function from keys to unsigned
 * 64-bit words. Being a function, it gives equal keys equal hashes.
 */
module HashMap {
  import opened Answers
  import opened Chains

  /** The number of buckets, fixed for the map's lifetime. */
  const BucketCount: nat := 29

  /** The multiplier applied to the key hash. */
  const Prime: nat := 31

  /** 2^64: the host's unsigned `size_t` arithmetic wraps at this modulus. */
  const WordModulus: nat := 0x1_0000_0000_0000_0000

  /** A value of the host's unsigned 64-bit `size_t`. */
  type Word = x: int | 0 <= x < 0x1_0000_0000_0000_0000

  /**
   * The bucket of a key: the hash times 31, wrapped to 64 bits as unsigned
   * multiplication does, then reduced modulo 29.
   */
  function BucketIndex<K>(hash: K -> Word, k: K): (b: nat)
    ensures b < BucketCount
  {
    (hash(k) * Prime) % WordModulus % BucketCount
  }

  /**
   * While the product does not wrap, the bucket is twice the hash modulo 29,
   * since 31 is 2 more than 29.
   */
  lemma IndexWithoutWrap<K>(hash: K -> Word, k: K)
    requires hash(k) * Prime < WordModulus
    ensures BucketIndex(hash, k) == (2 * hash(k)) % BucketCount
  {
    var h := hash(k);
    assert (h * Prime) % WordModulus == h * Prime;
    assert h * Prime == 2 * h + BucketCount * h;
    AddMultipleOfBucketCount(2 * h, h);
  }

  /** Adding a multiple of 29 does not change the remainder modulo 29. */
  lemma {:induction false} AddMultipleOfBucketCount(a: int, n: nat)
    ensures (a + BucketCount * n) % BucketCount == a % BucketCount
  {
    if n > 0 {
      AddMultipleOfBucketCount(a, n - 1);
      assert a + BucketCount * n == (a + BucketCount * (n - 1)) + BucketCount;
    }
  }

  /**
   * The wrap matters: the largest hash, 2^64 - 1, lands in bucket 22, where
   * the unwrapped product would select bucket 17.
   */
  lemma WrapChangesIndex<K>(hash: K -> Word, k: K)
    requires hash(k) == WordModulus - 1
    ensures BucketIndex(hash, k) == 22
    ensures (hash(k) * Prime) % BucketCount == 17
  {
  }

  /** The table of chains. Entry `i` of `buckets` is bucket `i`. */
  datatype HashMap<K, V> = HashMap(buckets: seq<Chain<K, V>>)

  /** The table has exactly the fixed number of buckets. */
  predicate WellSized<K, V>(m: HashMap<K, V>)
  {
    |m.buckets| == BucketCount
  }

  /** The chain the key `k` is routed to. */
  function BucketOf<K, V>(hash: K -> Word, m: HashMap<K, V>, k: K): Chain<K, V>
    requires WellSized(m)
  {
    m.buckets[BucketIndex(hash, k)]
  }

  /** Each key occurs in at most one entry of the whole table. */
  ghost predicate KeysUnique<K, V>(m: HashMap<K, V>)
  {
    forall i, p, j, q ::
      0 <= i < |m.buckets| && 0 <= p < |m.buckets[i]| &&
      0 <= j < |m.buckets| && 0 <= q < |m.buckets[j]| &&
      m.buckets[i][p].key == m.buckets[j][q].key
      ==> i == j && p == q
  }

  /** Every entry lies in the chain of the bucket its own key hashes to. */
  ghost predicate Placed<K, V>(hash: K -> Word, m: HashMap<K, V>)
  {
    forall i, p :: 0 <= i < |m.buckets| && 0 <= p < |m.buckets[i]| ==>
      BucketIndex(hash, m.buckets[i][p].key) == i
  }

  /** The invariant every reachable map keeps. */
  ghost predicate Valid<K, V>(hash: K -> Word, m: HashMap<K, V>)
  {
    WellSized(m) && KeysUnique(m) && Placed(hash, m)
  }

  /** The map the constructor builds: 29 empty buckets. */
  function Empty<K, V>(): (m: HashMap<K, V>)
    ensures WellSized(m)
    ensures forall i :: 0 <= i < |m.buckets| ==> m.buckets[i] == []
  {
    HashMap(seq(BucketCount, _ => []))
  }

  /**
   * `put`: an empty bucket gets a one-entry chain; otherwise the chain's first
   * entry for `k` has its value replaced where it stands, or, when there is
   * none, a new entry is appended at the tail. No other bucket changes.
   */
  function Put<K(==), V>(hash: K -> Word, m: HashMap<K, V>, k: K, v: V): (r: HashMap<K, V>)
    requires WellSized(m)
    ensures WellSized(r)
    ensures forall i :: 0 <= i < BucketCount && i != BucketIndex(hash, k) ==>
      r.buckets[i] == m.buckets[i]
    ensures Find(BucketOf(hash, m, k), k).Present? ==>
      BucketOf(hash, r, k) ==
        BucketOf(hash, m, k)[Find(BucketOf(hash, m, k), k).value := Entry(k, v)]
    ensures Find(BucketOf(hash, m, k), k).Absent? ==>
      BucketOf(hash, r, k) == BucketOf(hash, m, k) + [Entry(k, v)]
  {
    var b := BucketIndex(hash, k);
    if |m.buckets[b]| == 0 then HashMap(m.buckets[b := [Entry(k, v)]])
    else HashMap(m.buckets[b := Update(m.buckets[b], k, v)])
  }

  /**
   * `get`: scan the key's chain; the value of the first matching entry, or
   * Absent when the chain has no entry for `k`.
   */
  function Get<K(==), V>(hash: K -> Word, m: HashMap<K, V>, k: K): (r: Answer<V>)
    requires WellSized(m)
    ensures r.Present? <==> k in KeysOf(BucketOf(hash, m, k))
    ensures r.Present? ==>
      r.value == BucketOf(hash, m, k)[Find(BucketOf(hash, m, k), k).value].value
  {
    Lookup(m.buckets[BucketIndex(hash, k)], k)
  }

  /**
   * `remove`: an empty bucket, or a chain without `k`, is left alone;
   * otherwise the chain's first entry for `k` is spliced out and the rest keep
   * their order. No other bucket changes.
   */
  function Remove<K(==), V>(hash: K -> Word, m: HashMap<K, V>, k: K): (r: HashMap<K, V>)
    requires WellSized(m)
    ensures WellSized(r)
    ensures forall i :: 0 <= i < BucketCount && i != BucketIndex(hash, k) ==>
      r.buckets[i] == m.buckets[i]
    ensures Find(BucketOf(hash, m, k), k).Present? ==>
      var i := Find(BucketOf(hash, m, k), k).value;
      BucketOf(hash, r, k) == BucketOf(hash, m, k)[..i] + BucketOf(hash, m, k)[i + 1..]
    ensures Find(BucketOf(hash, m, k), k).Absent? ==> r == m
  {
    var b := BucketIndex(hash, k);
    if |m.buckets[b]| == 0 then m
    else HashMap(m.buckets[b := Delete(m.buckets[b], k)])
  }
}
