# Chained hash map `Map<K, V>` in Dafny

This project models the generic chained hash map of `data-structures/map/cpp/Map.cpp`.
The map keeps a fixed table of 29 buckets, and each bucket holds a singly-linked chain of
`(key, value)` entries. A key's bucket is its `std::hash` value times 31, reduced modulo 29.
The product is computed in unsigned 64-bit `size_t` arithmetic, so it wraps at 2^64 before the
reduction. There are three operations:

- `put` gives an empty bucket a one-entry chain. Otherwise it walks the chain, overwrites
  the value of the first entry with the key, or appends a new entry after the tail node.
- `get` walks the chain and returns the value of the first entry with the key.
- `remove` unlinks the first entry with the key. When that entry has no predecessor, the
  bucket head is redirected instead.

The model uses values, not pointers:

- the table is a `seq` of 29 chains, and a chain is a `seq<Entry<K, V>>`, head first;
- "the same node" becomes "the same position in the chain";
- `put`, `get` and `remove` are pure functions from a map to a new map or an answer.

Files and modules:

- `answers.dfy` (`Answers`): `Answer`, which is `Present(value)` or the explicit `Absent` signal of `get`.
- `chains.dfy` (`Chains`): the three chain walks as recursive functions (`Find`, `Lookup`,
  `Update`, `Delete`), each with a contract about positions. This module also reads a
  chain as a map (`ToMap`) and holds lemmas relating the walks.
- `hashmap.dfy` (`HashMap`): the bucket index with its 64-bit wrap, the table, the
  constructor `Empty`, `Put`, `Get`, `Remove`, and the invariants `KeysUnique` and `Placed`.
  `KeysUnique` says each key occurs in at most one entry. `Placed` says every entry lies in
  the bucket its key hashes to.
- `invariants.dfy` (`MapInvariants`): the constructor establishes both invariants, and
  `put` and `remove` preserve them.
- `laws.dfy` (`MapLaws`): how the operations interact, key by key.
- `refinement.dfy` (`Refinement`): the table read as a Dafny `map<K, V>` (`Abs`).
  `get`, `put` and `remove` behave as map lookup, map update and key removal.
- `scans.dfy` (`Scans`): the three operations written as the cursor loops of the C++.
  Each one is proved equal to its functional definition.
- `scenarios.dfy` (`Scenarios`): the default-value `get` of the C++, and usage scenarios
  on `int` keys and `string` values.

The key hash `std::hash<K>` is a call into the host library, so it is not modelled.
Every operation takes it as a parameter `hash: K -> Word`, where `Word` is the range
`[0, 2^64)` of a 64-bit `size_t`. Every statement is proved for all such hashes. Since
`hash` is a function, equal keys always get equal hashes and therefore equal buckets.
Key equality `operator==` is Dafny equality on `K`.

Two places where the model follows the code:

- An implementation with a signed hash could produce a negative index. Here `std::hash`
  returns an unsigned `size_t` and the product with 31 is unsigned, so the value `% 29`
  returns is always in `[0, 29)`. Converting it to `int` is exact. The model therefore has
  no sign correction.
- `get` returns `V()` for a missing key, which a caller cannot tell apart from a stored `V()`.
  The model's `Get` answers `Absent` instead, and the code's behaviour is kept as
  `Scenarios.GetOrDefault` (see Findings).

## Model

| member | source | states |
|---|---|---|
| HashMap.BucketIndex | data-structures/map/cpp/Map.cpp:25-28 | the bucket of a key is always in `[0, 29)`; because it is a function of the key's hash, equal keys get equal buckets |
| HashMap.IndexWithoutWrap | data-structures/map/cpp/Map.cpp:25-28 | while hash times 31 stays below 2^64, the bucket is twice the hash modulo 29 |
| HashMap.WrapChangesIndex | data-structures/map/cpp/Map.cpp:25-28 | the 64-bit wrap decides the bucket: hash 2^64 - 1 goes to bucket 22, where the unwrapped product would give 17 |
| HashMap.Empty | data-structures/map/cpp/Map.cpp:31-33 | the constructor makes exactly 29 buckets, all empty |
| HashMap.Put | data-structures/map/cpp/Map.cpp:54-77 | the table keeps 29 buckets and only the key's bucket changes; if the chain has the key, only the first such entry's value changes, at the same position; otherwise one entry is appended at the tail (an empty bucket gets a one-entry chain) |
| HashMap.Get | data-structures/map/cpp/Map.cpp:86-99 | answers a value exactly when the key's chain holds the key, and then it is the value of the first entry with that key |
| HashMap.Remove | data-structures/map/cpp/Map.cpp:107-132 | the table keeps 29 buckets and only the key's bucket changes; the first entry with the key is removed and the rest keep their order; with no such entry (an empty bucket included) the map is unchanged |
| Chains.Find | data-structures/map/cpp/Map.cpp:91-96 | the walk stops at the first position holding the key, and finds none exactly when the key is not in the chain |
| Chains.Lookup | data-structures/map/cpp/Map.cpp:91-98 | the chain scan of `get` answers a value exactly when the key is in the chain, and that value is the one at the first matching position |
| Chains.Update | data-structures/map/cpp/Map.cpp:66-76 | the chain scan of `put` replaces the entry at the first matching position, or appends at the tail when there is none; all other positions are untouched |
| Chains.Delete | data-structures/map/cpp/Map.cpp:116-131 | the splice of `remove` drops exactly the first matching position and keeps the other entries in order; a chain without the key is returned unchanged |
| Chains.LookupMatchesToMap | data-structures/map/cpp/Map.cpp:91-98 | the chain scan of `get` agrees with reading the chain as a map in which earlier entries shadow later ones |
| Chains.LookupUpdate | data-structures/map/cpp/Map.cpp:66-76 | after the chain scan of `put`, the key answers the new value and every other key answers as before, even without unique keys |
| Chains.LookupDelete | data-structures/map/cpp/Map.cpp:116-131 | in a chain with unique keys, after the splice the key is absent and every other key answers as before |
| Chains.UpdateKeepsUnique | data-structures/map/cpp/Map.cpp:66-76 | the chain scan of `put` keeps keys unique and adds exactly the put key to the chain's key set |
| Chains.DeleteKeepsUnique | data-structures/map/cpp/Map.cpp:116-131 | the splice keeps keys unique and removes exactly the key from the chain's key set |
| MapInvariants.EmptyValid | data-structures/map/cpp/Map.cpp:31-33 | the 29 empty buckets satisfy both invariants: unique keys, and every entry in its key's bucket |
| MapInvariants.PutValid | data-structures/map/cpp/Map.cpp:54-77 | `put` preserves both invariants |
| MapInvariants.RemoveValid | data-structures/map/cpp/Map.cpp:107-132 | `remove` preserves both invariants |
| MapLaws.GetPut | data-structures/map/cpp/Map.cpp:54-99 | after `put(k, v)`, `get(k)` is `v` and `get` of every other key is unchanged |
| MapLaws.GetRemove | data-structures/map/cpp/Map.cpp:86-132 | after `remove(k)`, `get(k)` reports absence and `get` of every other key is unchanged |
| MapLaws.RemoveAbsent | data-structures/map/cpp/Map.cpp:107-132 | `remove` of a key that `get` reports absent leaves the map unchanged |
| MapLaws.RemoveIdempotent | data-structures/map/cpp/Map.cpp:107-132 | removing a key twice gives the same map as removing it once |
| MapLaws.PutOverwrites | data-structures/map/cpp/Map.cpp:67-73 | after a second `put` of the same key, `get` answers the later value and the key's chain does not grow |
| MapLaws.CollisionIndependence | data-structures/map/cpp/Map.cpp:54-132 | two distinct keys in the same bucket each keep their own value, and removing one does not affect the other |
| Refinement.AbsEmpty | data-structures/map/cpp/Map.cpp:31-33 | a new map stands for the empty map |
| Refinement.GetRefines | data-structures/map/cpp/Map.cpp:86-99 | when every entry lies in its key's bucket, `get` is lookup in the abstract map of all entries |
| Refinement.PutRefines | data-structures/map/cpp/Map.cpp:54-77 | `put(k, v)` turns the abstract map `a` into `a[k := v]` |
| Refinement.RemoveRefines | data-structures/map/cpp/Map.cpp:107-132 | `remove(k)` turns the abstract map `a` into `a - {k}` |
| Scans.GetScan | data-structures/map/cpp/Map.cpp:86-99 | the cursor loop of `get` computes `Get` |
| Scans.PutScan | data-structures/map/cpp/Map.cpp:54-77 | the loop of `put`, which stops at a matching node or at the tail node, computes `Put` |
| Scans.RemoveScan | data-structures/map/cpp/Map.cpp:107-132 | the loop of `remove`, which splices at the bucket head or after a predecessor, computes `Remove` |
| Scenarios.GetOrDefault | data-structures/map/cpp/Map.cpp:86-99 | `get` as written: the first matching entry's value when the key's chain holds the key, the value type's default otherwise |
| Scenarios.DefaultConflatesAbsence | data-structures/map/cpp/Map.cpp:98 | after storing the default value under one key, the default-value `get` answers the same for that key and for an absent key, while `Get` tells them apart |
| Scenarios.PutThenGet | data-structures/map/cpp/Map.cpp:137-139 | putting a name under key 1 of a new map and getting key 1 answers that name |
| Scenarios.PutRemoveGet | data-structures/map/cpp/Map.cpp:138-141 | after that put, removing key 1 makes `get(1)` report absence |
| Scenarios.PutPutGet | data-structures/map/cpp/Map.cpp:67-73 | `put(1, "A")` then `put(1, "B")`: `get(1)` is `"B"` and key 1's chain is the single entry `(1, "B")` |
| Scenarios.RemoveFromEmpty | data-structures/map/cpp/Map.cpp:112-114 | `remove(99)` on a new map leaves it unchanged |
| Scenarios.EmptyStringLooksAbsent | data-structures/map/cpp/Map.cpp:141 | with `""` stored under key 1, the default-value `get` of key 1 equals that of the absent key 2, as the `.empty()` test relies on |

## Left out

- The destructor and the manual `new`/`delete` of entries (lines 35-46, 62, 75, 126). The
  model is built from immutable values, so it has no storage to release.
- `main` (lines 136-144) does console output through `std::cout`. Its calls
  are restated as the `Scenarios` lemmas instead.
- The concrete `std::hash<K>`. It is a host library call, so the model takes it as the
  parameter `hash`. The multiply by 31, the 2^64 wrap and the reduction modulo 29 are
  modelled. `size_t` is taken to be 64 bits wide.
- Node identity and pointer aliasing. "Updated in place, same node" is stated as "same
  position in the chain".
- Allocation failure in `new`. The model's operations cannot fail.
- `K`'s `operator==` is taken to be Dafny equality, which is an equivalence that agrees with the
  hash. The `put` loop's `operator!=` (line 68) is taken to be the negation of `==`. A
  user-defined `==` or `!=` that breaks these assumptions is not modelled.
- Chains.LookupDelete: requires the chain's keys to be unique, because the C++ removes only the
  first match. The map invariant provides uniqueness. MapLaws.GetRemove and
  MapLaws.RemoveIdempotent require the invariant for the same reason.

## Findings

| source | as written | input that shows it | evidently intended | confidence | as-written member | corrected member |
|---|---|---|---|---|---|---|
| data-structures/map/cpp/Map.cpp:98 | `get` returns a default-constructed `V()` when the key is absent | `put(1, "")` on a new map; `get(1)` and `get(2)` both return `""`, so the `.empty()` test in `main` calls the stored key 1 "not found" | absence reported by a value that no stored value can equal | high; not executed | Scenarios.GetOrDefault (shown by Scenarios.DefaultConflatesAbsence and Scenarios.EmptyStringLooksAbsent) | HashMap.Get (proved to be abstract map lookup by Refinement.GetRefines) |
