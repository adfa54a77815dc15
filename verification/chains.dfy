/**
 * One bucket's chain of entries, and the three walks the map performs over it:
 * the lookup scan of `get`, the overwrite-or-append scan of `put` and the
 * splice of `remove`. A chain is a sequence, head first; "the same node" of the
 * linked list becomes "the same position" in the sequence.
 */
module Chains {
  import opened Answers

  /** One node of a chain: a key and the value stored for it. */
  datatype Entry<K, V> = Entry(key: K, value: V)

  /** The entries of one bucket in chain order. */
  type Chain<K, V> = seq<Entry<K, V>>

  /** The keys stored in a chain. */
  function KeysOf<K, V>(c: Chain<K, V>): set<K>
  {
    set p | 0 <= p < |c| :: c[p].key
  }

  /** No key occurs at two positions of the chain. */
  predicate UniqueKeys<K(==), V>(c: Chain<K, V>)
  {
    forall p, q :: 0 <= p < q < |c| ==> c[p].key != c[q].key
  }

  /** The position of the first entry whose key is `k`, walking from the head. */
  function Find<K(==), V>(c: Chain<K, V>, k: K): (r: Answer<nat>)
    ensures r.Present? ==> r.value < |c| && c[r.value].key == k
    ensures r.Present? ==> forall p :: 0 <= p < r.value ==> c[p].key != k
    ensures r.Absent? <==> k !in KeysOf(c)
  {
    if |c| == 0 then Absent
    else if c[0].key == k then Present(0)
    else
      match Find(c[1..], k)
      case Absent =>
        assert forall p :: 1 <= p < |c| ==> c[p] == c[1..][p - 1];
        Absent
      case Present(i) => Present(i + 1)
  }

  /**
   * The scan of `get`: walk the chain and answer the value of the first entry
   * whose key is `k`, or Absent when the walk falls off the tail.
   */
  function Lookup<K(==), V>(c: Chain<K, V>, k: K): (r: Answer<V>)
    ensures r.Present? <==> k in KeysOf(c)
    ensures r.Present? ==> r.value == c[Find(c, k).value].value
  {
    if |c| == 0 then Absent
    else if c[0].key == k then Present(c[0].value)
    else Lookup(c[1..], k)
  }

  /**
   * The scan of `put`: walk to the first entry whose key is `k` and replace
   * its value there; when no entry matches, append a new entry at the tail
   * (an empty chain becomes a one-entry chain).
   */
  function Update<K(==), V>(c: Chain<K, V>, k: K, v: V): (r: Chain<K, V>)
    ensures Find(c, k).Present? ==> r == c[Find(c, k).value := Entry(k, v)]
    ensures Find(c, k).Absent? ==> r == c + [Entry(k, v)]
  {
    if |c| == 0 then [Entry(k, v)]
    else if c[0].key == k then [Entry(c[0].key, v)] + c[1..]
    else [c[0]] + Update(c[1..], k, v)
  }

  /**
   * The splice of `remove`: unlink the first entry whose key is `k`, so that
   * its predecessor (or the bucket head) points at its successor.
   */
  function Delete<K(==), V>(c: Chain<K, V>, k: K): (r: Chain<K, V>)
    ensures Find(c, k).Present? ==> r == c[..Find(c, k).value] + c[Find(c, k).value + 1..]
    ensures Find(c, k).Absent? ==> r == c
  {
    if |c| == 0 then []
    else if c[0].key == k then c[1..]
    else [c[0]] + Delete(c[1..], k)
  }

  /**
   * The chain read as a finite map. Earlier entries shadow later ones, as the
   * head-first scan of `get` does.
   */
  function ToMap<K(==), V>(c: Chain<K, V>): (m: map<K, V>)
    ensures m.Keys == KeysOf(c)
  {
    if |c| == 0 then map[]
    else
      var rest := ToMap(c[1..]);
      assert KeysOf(c) == KeysOf(c[1..]) + {c[0].key} by {
        forall x | x in KeysOf(c) ensures x in KeysOf(c[1..]) + {c[0].key} {
          var p :| 0 <= p < |c| && c[p].key == x;
          if p > 0 {
            assert c[1..][p - 1].key == x;
          }
        }
        forall x | x in KeysOf(c[1..]) ensures x in KeysOf(c) {
          var p :| 0 <= p < |c[1..]| && c[1..][p].key == x;
          assert c[p + 1].key == x;
        }
      }
      rest[c[0].key := c[0].value]
  }

  /** The scan of `get` answers exactly what the chain's map holds. */
  lemma {:induction false} LookupMatchesToMap<K, V>(c: Chain<K, V>, k: K)
    ensures Lookup(c, k) == MapLookup(ToMap(c), k)
  {
    if |c| > 0 && c[0].key != k {
      LookupMatchesToMap(c[1..], k);
    }
  }

  /**
   * After the scan of `put`, looking up `k` answers the new value and every
   * other key answers what it answered before. No uniqueness is needed: only
   * the first match is ever read or written.
   */
  lemma {:induction false} LookupUpdate<K, V>(c: Chain<K, V>, k: K, v: V, k': K)
    ensures Lookup(Update(c, k, v), k') == if k' == k then Present(v) else Lookup(c, k')
  {
    if |c| > 0 && c[0].key != k {
      LookupUpdate(c[1..], k, v, k');
      assert Update(c, k, v)[1..] == Update(c[1..], k, v);
    }
  }

  /**
   * After the splice of `remove`, `k` is gone and every other key answers what
   * it answered before. Since only the first match is unlinked, this needs the
   * chain's keys to be unique.
   */
  lemma {:induction false} LookupDelete<K, V>(c: Chain<K, V>, k: K, k': K)
    requires UniqueKeys(c)
    ensures Lookup(Delete(c, k), k') == if k' == k then Absent else Lookup(c, k')
  {
    if |c| > 0 {
      if c[0].key == k {
        assert k !in KeysOf(c[1..]) by {
          forall p | 0 <= p < |c[1..]| ensures c[1..][p].key != k {
            assert c[1..][p] == c[p + 1];
          }
        }
      } else {
        assert UniqueKeys(c[1..]) by {
          forall p, q | 0 <= p < q < |c[1..]| ensures c[1..][p].key != c[1..][q].key {
            assert c[1..][p] == c[p + 1] && c[1..][q] == c[q + 1];
          }
        }
        LookupDelete(c[1..], k, k');
        assert Delete(c, k)[1..] == Delete(c[1..], k);
      }
    }
  }

  /** The scan of `put` keeps the chain's keys unique. */
  lemma UpdateKeepsUnique<K, V>(c: Chain<K, V>, k: K, v: V)
    requires UniqueKeys(c)
    ensures UniqueKeys(Update(c, k, v))
    ensures KeysOf(Update(c, k, v)) == KeysOf(c) + {k}
  {
    var r := Update(c, k, v);
    match Find(c, k)
    case Present(i) =>
      assert forall p :: 0 <= p < |r| ==> r[p].key == c[p].key;
      assert KeysOf(r) == KeysOf(c);
    case Absent =>
      assert forall p :: 0 <= p < |c| ==> r[p] == c[p];
      assert r[|c|].key == k;
      forall x | x in KeysOf(c) + {k} ensures x in KeysOf(r) {
        if x != k {
          var p :| 0 <= p < |c| && c[p].key == x;
          assert r[p].key == x;
        }
      }
  }

  /** The splice of `remove` keeps the chain's keys unique and drops exactly `k`. */
  lemma DeleteKeepsUnique<K, V>(c: Chain<K, V>, k: K)
    requires UniqueKeys(c)
    ensures UniqueKeys(Delete(c, k))
    ensures KeysOf(Delete(c, k)) == KeysOf(c) - {k}
  {
    var r := Delete(c, k);
    match Find(c, k)
    case Absent =>
    case Present(i) =>
      assert |r| == |c| - 1;
      assert forall p :: 0 <= p < |r| ==> r[p] == c[if p < i then p else p + 1];
      forall p, q | 0 <= p < q < |r| ensures r[p].key != r[q].key {
        var p' := if p < i then p else p + 1;
        var q' := if q < i then q else q + 1;
        assert p' < q' && r[p] == c[p'] && r[q] == c[q'];
      }
      forall x | x in KeysOf(c) - {k} ensures x in KeysOf(r) {
        var p :| 0 <= p < |c| && c[p].key == x;
        if p < i {
          assert r[p].key == x;
        } else {
          assert r[p - 1].key == x;
        }
      }
      forall p | 0 <= p < |r| ensures r[p].key in KeysOf(c) - {k} {
        var p' := if p < i then p else p + 1;
        assert r[p] == c[p'];
      }
  }
}
