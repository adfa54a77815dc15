/**
 * The map as an abstract finite map: reading every chain of the table as a
 * map and joining them, `put` is map update, `get` is map lookup and `remove`
 * is key removal.
 */
module Refinement {
  import opened Answers
  import opened Chains
  import opened HashMap
  import opened MapInvariants
  import opened MapLaws

  /**
   * The entries of a sequence of buckets as one map. Where two buckets hold
   * the same key the later bucket wins; under the invariant that never happens.
   */
  function TableMap<K(==), V>(bs: seq<Chain<K, V>>): map<K, V>
  {
    if |bs| == 0 then map[]
    else TableMap(bs[..|bs| - 1]) + ToMap(bs[|bs| - 1])
  }

  /** The table's map holds exactly the keys some bucket holds. */
  lemma {:induction false} TableMapKeys<K, V>(bs: seq<Chain<K, V>>, k: K)
    ensures k in TableMap(bs) <==> exists j :: 0 <= j < |bs| && k in KeysOf(bs[j])
  {
    if |bs| > 0 {
      var n := |bs| - 1;
      assert forall j :: 0 <= j < n ==> bs[..n][j] == bs[j];
      TableMapKeys(bs[..n], k);
    }
  }

  /** The abstract contents of the hash map: every stored key with its value. */
  function Abs<K(==), V>(m: HashMap<K, V>): map<K, V>
  {
    TableMap(m.buckets)
  }

  /** Two maps that answer every lookup alike are equal. */
  lemma MapExtensional<K, V>(a: map<K, V>, b: map<K, V>)
    requires forall k :: MapLookup(a, k) == MapLookup(b, k)
    ensures a == b
  {
    assert forall k :: k in a <==> MapLookup(a, k).Present?;
    assert a.Keys == b.Keys;
    forall k | k in a ensures a[k] == b[k] {
      assert MapLookup(a, k) == MapLookup(b, k);
    }
  }

  /** A key held by bucket `i` alone is looked up in the table as in that bucket. */
  lemma {:induction false} TableMapLookup<K, V>(bs: seq<Chain<K, V>>, k: K, i: nat)
    requires i < |bs|
    requires forall j :: 0 <= j < |bs| && j != i ==> k !in KeysOf(bs[j])
    ensures MapLookup(TableMap(bs), k) == MapLookup(ToMap(bs[i]), k)
  {
    var n := |bs| - 1;
    if i < n {
      assert k !in ToMap(bs[n]).Keys;
      assert forall j :: 0 <= j < n ==> bs[..n][j] == bs[j];
      TableMapLookup(bs[..n], k, i);
    } else {
      assert forall j :: 0 <= j < n ==> bs[..n][j] == bs[j];
      TableMapKeys(bs[..n], k);
    }
  }

  /** A table of empty buckets holds nothing. */
  lemma {:induction false} TableMapOfEmpties<K, V>(bs: seq<Chain<K, V>>)
    requires forall j :: 0 <= j < |bs| ==> bs[j] == []
    ensures TableMap(bs) == map[]
  {
    if |bs| > 0 {
      var n := |bs| - 1;
      assert forall j :: 0 <= j < n ==> bs[..n][j] == bs[j];
      TableMapOfEmpties(bs[..n]);
    }
  }

  /** The constructor's empty table stands for the empty map. */
  lemma AbsEmpty<K, V>()
    ensures Abs(Empty<K, V>()) == map[]
  {
    TableMapOfEmpties(Empty<K, V>().buckets);
  }

  /**
   * `get` is lookup in the abstract map. Only placement is needed: a key can
   * only be held by the bucket it hashes to, and `get` scans exactly that one.
   */
  lemma GetRefines<K, V>(hash: K -> Word, m: HashMap<K, V>, k: K)
    requires WellSized(m) && Placed(hash, m)
    ensures Get(hash, m, k) == MapLookup(Abs(m), k)
  {
    var b := BucketIndex(hash, k);
    forall j | 0 <= j < |m.buckets| && j != b ensures k !in KeysOf(m.buckets[j]) {
      forall p | 0 <= p < |m.buckets[j]| ensures m.buckets[j][p].key != k {
        assert BucketIndex(hash, m.buckets[j][p].key) == j;
      }
    }
    TableMapLookup(m.buckets, k, b);
    LookupMatchesToMap(m.buckets[b], k);
  }

  /** `put(k, v)` is the abstract map update `Abs(m)[k := v]`. */
  lemma PutRefines<K, V>(hash: K -> Word, m: HashMap<K, V>, k: K, v: V)
    requires Valid(hash, m)
    ensures Abs(Put(hash, m, k, v)) == Abs(m)[k := v]
  {
    var r := Put(hash, m, k, v);
    PutValid(hash, m, k, v);
    forall k' ensures MapLookup(Abs(r), k') == MapLookup(Abs(m)[k := v], k') {
      GetRefines(hash, r, k');
      GetRefines(hash, m, k');
      GetPut(hash, m, k, v, k');
    }
    MapExtensional(Abs(r), Abs(m)[k := v]);
  }

  /** `remove(k)` is the abstract key removal `Abs(m) - {k}`. */
  lemma RemoveRefines<K, V>(hash: K -> Word, m: HashMap<K, V>, k: K)
    requires Valid(hash, m)
    ensures Abs(Remove(hash, m, k)) == Abs(m) - {k}
  {
    var r := Remove(hash, m, k);
    RemoveValid(hash, m, k);
    forall k' ensures MapLookup(Abs(r), k') == MapLookup(Abs(m) - {k}, k') {
      GetRefines(hash, r, k');
      GetRefines(hash, m, k');
      GetRemove(hash, m, k, k');
    }
    MapExtensional(Abs(r), Abs(m) - {k});
  }
}
