/**
 * The lookup that answers a default value for a missing key, as the C++
 * `get` does, and the usage scenarios of the map on integer keys and string
 * values, for any key hash.
 */
module Scenarios {
  import opened Answers
  import opened Chains
  import opened HashMap
  import opened MapInvariants
  import opened MapLaws

  /**
   * `get` as written: the value of the key's entry, or the default value of
   * the value type when there is none.
   */
  function GetOrDefault<K(==), V>(hash: K -> Word, m: HashMap<K, V>, k: K, default: V): (r: V)
    requires WellSized(m)
    ensures k in KeysOf(BucketOf(hash, m, k)) ==>
      r == BucketOf(hash, m, k)[Find(BucketOf(hash, m, k), k).value].value
    ensures k !in KeysOf(BucketOf(hash, m, k)) ==> r == default
  {
    Get(hash, m, k).ValueOr(default)
  }

  /**
   * The default-value answer cannot tell a key that stores the default value
   * from a key that is absent, where the Answer of `Get` can.
   */
  lemma DefaultConflatesAbsence<K, V>(hash: K -> Word, m: HashMap<K, V>, k: K, k': K, default: V)
    requires WellSized(m)
    requires k' != k && Get(hash, m, k') == Absent
    ensures var m' := Put(hash, m, k, default);
      && GetOrDefault(hash, m', k, default) == GetOrDefault(hash, m', k', default)
      && Get(hash, m', k) == Present(default)
      && Get(hash, m', k') == Absent
  {
    GetPut(hash, m, k, default, k);
    GetPut(hash, m, k, default, k');
  }

  /** Storing a name under key 1 of a new map and reading it back. */
  lemma PutThenGet(hash: int -> Word)
    ensures Get(hash, Put(hash, Empty(), 1, "Ayomide Oyekanmi"), 1) == Present("Ayomide Oyekanmi")
  {
    GetPut(hash, Empty(), 1, "Ayomide Oyekanmi", 1);
  }

  /** Removing key 1 again makes it absent. */
  lemma PutRemoveGet(hash: int -> Word)
    ensures Get(hash, Remove(hash, Put(hash, Empty(), 1, "Ayomide Oyekanmi"), 1), 1) == Absent
  {
    var m := Put(hash, Empty(), 1, "Ayomide Oyekanmi");
    EmptyValid<int, string>(hash);
    PutValid(hash, Empty(), 1, "Ayomide Oyekanmi");
    GetRemove(hash, m, 1, 1);
  }

  /** A second put of key 1 overwrites: one entry, holding the later value. */
  lemma PutPutGet(hash: int -> Word)
    ensures var m := Put(hash, Put(hash, Empty(), 1, "A"), 1, "B");
      && Get(hash, m, 1) == Present("B")
      && BucketOf(hash, m, 1) == [Entry(1, "B")]
  {
    PutOverwrites(hash, Empty(), 1, "A", "B");
  }

  /** Removing a key from a new map changes nothing. */
  lemma RemoveFromEmpty(hash: int -> Word)
    ensures Remove(hash, Empty(), 99) == Empty<int, string>()
  {
  }

  /**
   * Reading a missing key and reading a key that stores the empty string give
   * the same answer under the default-value lookup.
   */
  lemma EmptyStringLooksAbsent(hash: int -> Word)
    ensures var m := Put(hash, Empty(), 1, "");
      && GetOrDefault(hash, m, 1, "") == GetOrDefault(hash, m, 2, "")
      && Get(hash, m, 1) != Get(hash, m, 2)
  {
    DefaultConflatesAbsence(hash, Empty(), 1, 2, "");
  }
}
