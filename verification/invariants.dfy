/**
 * The two structural invariants of the map (each key in at most one entry;
 * every entry in the bucket its key hashes to): the constructor establishes
 * them and `put` and `remove` preserve them.
 */
module MapInvariants {
  import opened Chains
  import opened HashMap

  /** Under placement, chain-local uniqueness is global uniqueness. */
  lemma UniqueFromChains<K, V>(hash: K -> Word, m: HashMap<K, V>)
    requires WellSized(m) && Placed(hash, m)
    requires forall i :: 0 <= i < |m.buckets| ==> UniqueKeys(m.buckets[i])
    ensures KeysUnique(m)
  {
    forall i, p, j, q |
      0 <= i < |m.buckets| && 0 <= p < |m.buckets[i]| &&
      0 <= j < |m.buckets| && 0 <= q < |m.buckets[j]| &&
      m.buckets[i][p].key == m.buckets[j][q].key
      ensures i == j && p == q
    {
      assert BucketIndex(hash, m.buckets[i][p].key) == i;
      assert BucketIndex(hash, m.buckets[j][q].key) == j;
      assert UniqueKeys(m.buckets[i]);
    }
  }

  /** Global uniqueness implies that every chain has unique keys. */
  lemma ChainsFromUnique<K, V>(m: HashMap<K, V>)
    requires KeysUnique(m)
    ensures forall i :: 0 <= i < |m.buckets| ==> UniqueKeys(m.buckets[i])
  {
  }

  /** The 29 empty buckets of the constructor satisfy the invariant. */
  lemma EmptyValid<K, V>(hash: K -> Word)
    ensures Valid(hash, Empty<K, V>())
  {
  }

  /** `put` preserves the invariant. */
  lemma PutValid<K, V>(hash: K -> Word, m: HashMap<K, V>, k: K, v: V)
    requires Valid(hash, m)
    ensures Valid(hash, Put(hash, m, k, v))
  {
    var r := Put(hash, m, k, v);
    var b := BucketIndex(hash, k);
    var c := m.buckets[b];
    ChainsFromUnique(m);
    UpdateKeepsUnique(c, k, v);
    assert r.buckets[b] == Update(c, k, v);
    forall i, p | 0 <= i < |r.buckets| && 0 <= p < |r.buckets[i]|
      ensures BucketIndex(hash, r.buckets[i][p].key) == i
    {
      if i == b {
        assert r.buckets[i][p].key in KeysOf(c) + {k};
        if r.buckets[i][p].key != k {
          var q :| 0 <= q < |c| && c[q].key == r.buckets[i][p].key;
        }
      }
    }
    forall i | 0 <= i < |r.buckets| ensures UniqueKeys(r.buckets[i]) {
    }
    UniqueFromChains(hash, r);
  }

  /** `remove` preserves the invariant. */
  lemma RemoveValid<K, V>(hash: K -> Word, m: HashMap<K, V>, k: K)
    requires Valid(hash, m)
    ensures Valid(hash, Remove(hash, m, k))
  {
    var r := Remove(hash, m, k);
    var b := BucketIndex(hash, k);
    var c := m.buckets[b];
    ChainsFromUnique(m);
    DeleteKeepsUnique(c, k);
    assert r.buckets[b] == Delete(c, k);
    forall i, p | 0 <= i < |r.buckets| && 0 <= p < |r.buckets[i]|
      ensures BucketIndex(hash, r.buckets[i][p].key) == i
    {
      if i == b {
        assert r.buckets[i][p].key in KeysOf(c) - {k};
        var q :| 0 <= q < |c| && c[q].key == r.buckets[i][p].key;
      }
    }
    forall i | 0 <= i < |r.buckets| ensures UniqueKeys(r.buckets[i]) {
    }
    UniqueFromChains(hash, r);
  }
}
