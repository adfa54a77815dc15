/**
 * The three operations as the pointer-walking loops they are: a cursor that
 * advances along the key's chain, here a position in the sequence. Each loop
 * is shown to compute what the functional definition says.
 */
module Scans {
  import opened Answers
  import opened Chains
  import opened HashMap

  /** `get`: walk the chain until a node with the key is met or the walk ends. */
  method GetScan<K(==), V>(hash: K -> Word, m: HashMap<K, V>, k: K) returns (r: Answer<V>)
    requires WellSized(m)
    ensures r == Get(hash, m, k)
  {
    var c := m.buckets[BucketIndex(hash, k)];
    var i := 0;
    while i < |c|
      invariant 0 <= i <= |c|
      invariant forall p :: 0 <= p < i ==> c[p].key != k
    {
      if c[i].key == k {
        return Present(c[i].value);
      }
      i := i + 1;
    }
    return Absent;
  }

  /**
   * `put`: an empty bucket gets a new head. Otherwise the cursor stops at the
   * first node with the key or at the tail node, whichever comes first; a
   * matching node has its value replaced, a non-matching tail gets a successor.
   */
  method PutScan<K(==), V>(hash: K -> Word, m: HashMap<K, V>, k: K, v: V) returns (r: HashMap<K, V>)
    requires WellSized(m)
    ensures r == Put(hash, m, k, v)
  {
    var b := BucketIndex(hash, k);
    var c := m.buckets[b];
    if |c| == 0 {
      return HashMap(m.buckets[b := [Entry(k, v)]]);
    }
    var i := 0;
    while i + 1 < |c| && c[i].key != k
      invariant 0 <= i < |c|
      invariant forall p :: 0 <= p < i ==> c[p].key != k
    {
      i := i + 1;
    }
    if c[i].key == k {
      c := c[i := Entry(c[i].key, v)];
    } else {
      c := c + [Entry(k, v)];
    }
    r := HashMap(m.buckets[b := c]);
  }

  /**
   * `remove`: nothing to do in an empty bucket. Otherwise walk with the
   * cursor; at the first node with the key, the bucket head (when the node has
   * no predecessor) or the predecessor's link is redirected to its successor.
   * A walk that ends without a match changes nothing.
   */
  method RemoveScan<K(==), V>(hash: K -> Word, m: HashMap<K, V>, k: K) returns (r: HashMap<K, V>)
    requires WellSized(m)
    ensures r == Remove(hash, m, k)
  {
    var b := BucketIndex(hash, k);
    var c := m.buckets[b];
    if |c| == 0 {
      return m;
    }
    var i := 0;
    while i < |c|
      invariant 0 <= i <= |c|
      invariant forall p :: 0 <= p < i ==> c[p].key != k
    {
      if c[i].key == k {
        if i == 0 {
          c := c[1..];
        } else {
          c := c[..i] + c[i + 1..];
        }
        return HashMap(m.buckets[b := c]);
      }
      i := i + 1;
    }
    r := m;
  }
}
