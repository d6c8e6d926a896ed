# Open-addressing hash map, modelled in Dafny

This project models `hash_map_oa.py`, a hash table with string keys. The table
stores entries directly in an array of buckets. It resolves collisions by
quadratic probing: attempt `count` visits bucket `(hash(key) + count²) % capacity`
for `count` in `0 .. 10·capacity − 1`. It deletes lazily by marking entries as
tombstones. `put` doubles the table whenever `size / capacity >= 1/2`, and it
does so before it probes. `resize_table` swaps in a fresh array and puts every
live entry back through `put`.

The project has three modules:

- `TableSpec` (table_spec.dfy) describes the table on values. A table is the
  sequence of its buckets (`Slot<V> = Option<Entry<V>>`, with
  `Entry(key, value, tomb)`). Each operation is a function of the buckets:
  `LookupFrom`, `PutStopFrom`/`Insert`/`Grow`/`Put`, `Resize`/`Reinsert` and
  `RemoveFrom`. The lemmas prove what the table promises about these functions.
- `HashMapOA` (hash_map.dfy) holds the class `HashMap<V>`. Its fields are
  `buckets: array<Slot<V>>`, `capacity` and `size`, plus the hash function as a
  `const`. `Valid()` says that `size` equals the number of live buckets. Every
  method keeps `Valid()` and is proved to leave `buckets[..]` equal to the
  matching `TableSpec` function of the old buckets. `get` and `contains_key`
  have no `modifies` clause, so they cannot change the table.
- `HashFunctions` (hash_functions.dfy) holds the two sample hashes. Each one is
  a function, which is what a `HashMap` is built with. Each also has a method
  that runs the source's accumulator loop and is proved to compute that function.

Modelling choices:

- The hash is any total `string -> int`. Dafny's `%` with a positive divisor
  gives the same result as Python's `%`, so a negative hash is modelled
  correctly too.
- `put` tests the load with `size / capacity >= 0.5` on floats. The model uses
  the integer test `2 * size >= capacity`, which agrees with it for every
  capacity below 2⁵³.
- Writing an entry's field in place (the value at line 125, the tombstone flag
  at line 138) is modelled as rewriting the bucket with an updated `Entry`.
  No other reference to an entry survives a call, so nothing can observe the
  difference.
- `put` and `resize_table` call each other. Termination rests on recursion
  levels. `put` is level 0 when it does not resize and level 2 when it does.
  `resize_table(c)` is level 1 when `c >= 2·size` and level 3 otherwise. At
  level 1 the proof shows that no reinsertion can trigger another resize, so
  a resize triggered by `put` never nests. In the source, an explicit
  `resize_table(c)` with `c < 2·size` can double the table at most once more
  during its reinsertions; the model bounds its capacity only from below.

In four places the code does less than a table of this kind is usually expected to do. The model follows the code:

- When `put` runs out of its `10·capacity` probes it writes nothing and
  returns silently. It does not stop on a fatal assertion.
- When `get` and `contains_key` run out of probes they report "absent".
  `contains_key` falls off its loop and returns `None`, modelled as `false`.
- `put` claims the first tombstone on the path, even when a live entry for the
  same key lies further on. So a key can be live in two buckets, and `get_keys`
  can list it twice (`TableSpec.PutMayDuplicateKey`).
- A rehash is not guaranteed to keep every entry, because a reinsertion can
  run out of probes. The model proves only that every live pair after a resize
  was a live pair before it.

## Model

| member | source | states |
|---|---|---|
| `HashFunctions.HashFunction1` | hash_map_oa.py:34-42 | the accumulator loop returns the sum of the character codes of the key (`SumOfCodes`) |
| `HashFunctions.HashFunction2` | hash_map_oa.py:45-55 | the accumulator loop returns the sum of `(i + 1) · code(key[i])` over all positions (`WeightedSum`) |
| `HashFunctions.SumOfCodesAppend` | hash_map_oa.py:39-42 | hash_function_1 of a concatenation is the sum of the hashes of the parts |
| `HashFunctions.SumOfCodesRotation` | hash_map_oa.py:39-42 | hash_function_1 ignores order: `a + b` and `b + a` always collide |
| `HashFunctions.WeightedSumAppend` | hash_map_oa.py:50-55 | hash_function_2 of `a + b` is the hash of `a` plus the hash of `b` plus `|a|` times the code sum of `b` |
| `HashFunctions.SumOfCodesAtMostWeighted` | hash_map_oa.py:34-55 | hash_function_2 is never below hash_function_1 on the same key |
| `TableSpec.Empty` | hash_map_oa.py:64-67 | a new table has `capacity` buckets, all of them empty |
| `TableSpec.Probe` | hash_map_oa.py:100 | every probe index `(h + count²) % capacity` lies in `[0, capacity)`, so every bucket access is in bounds |
| `TableSpec.LookupFrom` | hash_map_oa.py:96-106 | a value the get walk returns is stored in some live bucket under exactly that key |
| `TableSpec.PutStopFrom` | hash_map_oa.py:116-126 | the put walk stops within `10·capacity` attempts, at a bucket that is empty, tombstoned, or holds the key live |
| `TableSpec.PutStopSkipsOthers` | hash_map_oa.py:116-126 | every bucket the put walk passes before it stops holds a live entry for another key |
| `TableSpec.PutStopExhausted` | hash_map_oa.py:116-126 | when the put walk runs out of probes, every probed bucket held a live entry for another key |
| `TableSpec.Insert` | hash_map_oa.py:115-126 | the probe-and-write step keeps the capacity, adds at most one live entry, adds no live pair except `(key, value)`, and creates no tombstone |
| `TableSpec.InsertOutcome` | hash_map_oa.py:115-126 | the step claims the first bucket on the path that is free or holds the key live; a live match changes only that bucket's value and keeps the size; a free bucket gets a fresh live entry and the size grows by one; an exhausted walk changes nothing |
| `TableSpec.LiveCountUpdate` | hash_map_oa.py:119-121 | rewriting one bucket changes the live count by exactly the change in that bucket's liveness, which is how `size` tracks the buckets |
| `TableSpec.Grow` | hash_map_oa.py:113-114 | `put` doubles the table exactly when `2·size >= capacity`; the doubled table has no tombstones and holds only pairs the old table held live |
| `TableSpec.Put` | hash_map_oa.py:108-126 | after `put` the capacity is `capacity` or `2·capacity`, as the load test decides; size grows by at most one; no live pair appears except `(key, value)` |
| `TableSpec.PutThenGet` | hash_map_oa.py:108-126 | after a `put(k, v)` whose walk finds a bucket, `get(k)` returns `v` |
| `TableSpec.PutStoresOrDrops` | hash_map_oa.py:113-126 | after `put(k, v)`, either `get(k)` returns `v` or the insert was dropped and the table is just the resized one |
| `TableSpec.PutLoadBound` | hash_map_oa.py:113-126 | after `put`, `2·size <= capacity + 1` on a table that was not full, and `2·size <= capacity + 2` in every case |
| `TableSpec.PutMayDuplicateKey` | hash_map_oa.py:116-126 | for every table, key and value: when the put walk stops at a tombstone while another bucket holds the key live, the step writes the key live into the tombstone and leaves the other bucket live, so the key is live in two distinct buckets |
| `TableSpec.Resize` | hash_map_oa.py:165-185 | `resize_table(c)` with `c < 1` or `c < size` changes nothing; otherwise the new table has no tombstones, at least `c` buckets (exactly `c` when `c >= 2·size`), at most the old size, and only pairs that were live before |
| `TableSpec.Reinsert` | hash_map_oa.py:183-185 | reinserting live entries in bucket order never shrinks the table, adds at most one live entry per reinserted one, and brings in no pair from elsewhere |
| `TableSpec.ResizeKeepsOnlyOldEntries` | hash_map_oa.py:165-185 | every live bucket after a resize holds an entry that some bucket held before |
| `TableSpec.RemoveFrom` | hash_map_oa.py:132-139 | the remove walk only tombstones live entries of the removed key and leaves every other bucket unchanged |
| `TableSpec.RemoveHidesKey` | hash_map_oa.py:128-139 | after `remove(k)`, `get(k)` finds nothing and `contains_key(k)` is false |
| `TableSpec.RemoveAbsentIsNoop` | hash_map_oa.py:132-139 | `remove(k)` changes nothing when `get(k)` finds nothing |
| `TableSpec.RemoveIdempotent` | hash_map_oa.py:128-139 | a second `remove(k)` changes nothing, so `size` cannot go negative |
| `TableSpec.RemoveKeepsOnlyOldPairs` | hash_map_oa.py:132-139 | `remove` never adds a live pair and never raises the live count |
| `TableSpec.LiveCountBound` | hash_map_oa.py:153-163 | `size <= capacity`, so `empty_buckets() >= 0` and the load is at most 1 |
| `TableSpec.LiveFreeSum` | hash_map_oa.py:153-157 | every bucket is live or free (empty or tombstoned), so `capacity - size` counts the free buckets |
| `TableSpec.LiveKeys` | hash_map_oa.py:187-195 | the key list has one element per live bucket, in ascending bucket order |
| `TableSpec.LiveKeysMembership` | hash_map_oa.py:187-195 | a key is listed exactly when some live bucket holds it |
| `TableSpec.LivePairsMembership` | hash_map_oa.py:183-185 | a pair counts as live exactly when some bucket holds it as a non-tombstoned entry |
| `HashMapOA.HashMap.constructor` | hash_map_oa.py:59-71 | a new map has `capacity` empty buckets, size 0 and the given hash function |
| `HashMapOA.HashMap.Clear` | hash_map_oa.py:84-90 | every bucket becomes empty and size becomes 0 in the same array; capacity is unchanged; afterwards `get` of any key is absent |
| `HashMapOA.HashMap.Get` | hash_map_oa.py:92-106 | the probe loop returns what `LookupFrom` gives, without changing the table |
| `HashMapOA.HashMap.ContainsKey` | hash_map_oa.py:141-151 | the probe loop returns true exactly when the get walk finds a live entry, without changing the table |
| `HashMapOA.HashMap.Put` | hash_map_oa.py:108-126 | the new buckets are `TableSpec.Put` of the old ones; `size` is still the live count |
| `HashMapOA.HashMap.Remove` | hash_map_oa.py:128-139 | the same array now holds `TableSpec.Remove` of the old buckets, with one size decrement per tombstone |
| `HashMapOA.HashMap.EmptyBuckets` | hash_map_oa.py:153-157 | returns the number of empty or tombstoned buckets, which lies in `[0, capacity]` |
| `HashMapOA.HashMap.TableLoad` | hash_map_oa.py:159-163 | returns the load as the pair (live count, capacity), with `0 <= size <= capacity` and `capacity >= 1` |
| `HashMapOA.HashMap.ResizeTable` | hash_map_oa.py:165-185 | the buckets become `TableSpec.Resize` of the old ones; an ignored request leaves the array, capacity and size untouched; otherwise the array is a fresh one |
| `HashMapOA.HashMap.GetKeys` | hash_map_oa.py:187-195 | returns exactly `LiveKeys` of the buckets, and there are `size` of them |

## Left out

- `__str__` of `HashEntry` and `HashMap` (hash_map_oa.py:25-31, 73-82): string formatting only.
- The demonstration driver (hash_map_oa.py:198-378): it only prints.
- `DynamicArray` from `a6_include` is not part of this model. A Dafny array stands in for it.
- `table_load` returns a float in the source. The model returns the pair (size, capacity), and `put` uses the integer form of the load test.
- The constructor requires `capacity >= 1`. With capacity 0 the source's first `put` would divide by zero.
- Key uniqueness and lookup completeness over arbitrary histories are not claimed, because the code does not guarantee them (see `TableSpec.PutMayDuplicateKey`).
- `get` in the source returns `None` both for "absent" and for a stored `None`. The model returns an `Option`, which keeps the two apart.
- TableSpec.Resize: does not promise that every live pair survives a resize, because a reinsertion that runs out of probes is silently dropped.
- TableSpec.PutLoadBound: does not state a load of at most 1/2 after `put`. The source resizes before it inserts, so the load can end slightly above one half.
