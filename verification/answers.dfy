/** The answer of a lookup: a present value, or an explicit "absent" signal. */
module Answers {

  /** Present(value) when a key is held, Absent when it is not. */
  datatype Answer<+T> = Absent | Present(value: T) {

    /** The carried value, or `fallback` when the answer is Absent. */
    function ValueOr(fallback: T): T {
      match this
      case Present(v) => v
      case Absent => fallback
    }
  }

  /** Lookup in Dafny's built-in map, phrased as an Answer. */
  function MapLookup<K, V>(m: map<K, V>, k: K): Answer<V>
  {
    if k in m then Present(m[k]) else Absent
  }
}
