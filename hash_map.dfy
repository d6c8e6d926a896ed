/**
 * The class `HashMap` of hash_map_oa.py: an open-addressing table with string
 * keys, quadratic probing and lazy deletion by tombstones. The buckets live
 * in an array that `put`, `remove` and `clear` update in place and that
 * `resize_table` replaces by a fresh one. Every method is proved to leave the
 * buckets as the matching function of `TableSpec` computes them.
 */
module HashMapOA {
  import opened TableSpec

  class HashMap<V> {
    var buckets: array<Slot<V>>
    var capacity: int
    var size: int
    const hash: string -> int

    /** The object invariant: the array has `capacity` buckets, at least one,
      * and `size` is the number of live buckets. */
    ghost predicate Valid()
      reads this, buckets
    {
      capacity >= 1 && buckets.Length == capacity && size == LiveCount(buckets[..])
    }

    constructor (capacity: int, hashFunction: string -> int)
      requires capacity >= 1
      ensures Valid() && fresh(buckets)
      ensures buckets[..] == Empty(capacity) && this.capacity == capacity && size == 0
      ensures hash == hashFunction
    {
      buckets := new Slot<V>[capacity](_ => None);
      this.capacity := capacity;
      hash := hashFunction;
      size := 0;
      new;
      AllEmptyCounts(buckets[..]);
    }

    /** clear: every bucket becomes empty, size 0, capacity unchanged. */
    method Clear()
      requires Valid()
      modifies this, buckets
      ensures Valid() && buckets == old(buckets) && capacity == old(capacity)
      ensures buckets[..] == Empty(capacity) && size == 0
      ensures forall key :: Lookup(buckets[..], hash(key), key) == None
    {
      for inx := 0 to capacity
        invariant forall j :: 0 <= j < inx ==> buckets[j].None?
        modifies buckets
      {
        buckets[inx] := None;
      }
      size := 0;
      AllEmptyCounts(buckets[..]);
    }

    /** get: the value of the first live bucket holding `key` on the probe path,
      * None at an empty bucket or when the bound is exhausted. */
    method Get(key: string) returns (r: Option<V>)
      requires Valid()
      ensures r == Lookup(buckets[..], hash(key), key)
    {
      var inxInitial := hash(key);
      for count := 0 to 10 * capacity
        invariant Lookup(buckets[..], inxInitial, key) == LookupFrom(buckets[..], inxInitial, key, count)
      {
        var inx := (inxInitial + count * count) % capacity;
        assert inx == Probe(inxInitial, count, buckets.Length);
        if buckets[inx].None? {
          return None;
        } else if buckets[inx].value.key == key && !buckets[inx].value.tomb {
          return Some(buckets[inx].value.value);
        }
      }
      return None;
    }

    /** contains_key: the walk of `get`; true exactly when it finds a live entry. */
    method ContainsKey(key: string) returns (b: bool)
      requires Valid()
      ensures b <==> Lookup(buckets[..], hash(key), key).Some?
    {
      var inxInitial := hash(key);
      for count := 0 to 10 * capacity
        invariant Lookup(buckets[..], inxInitial, key) == LookupFrom(buckets[..], inxInitial, key, count)
      {
        var inx := (inxInitial + count * count) % capacity;
        assert inx == Probe(inxInitial, count, buckets.Length);
        if buckets[inx].None? {
          return false;
        } else if buckets[inx].value.key == key && !buckets[inx].value.tomb {
          return true;
        }
      }
      return false;
    }

    /** put: double the table when size / capacity >= 1/2, then claim the first
      * free bucket on the probe path or overwrite the value of a live entry
      * for `key`, whichever comes first; nothing is written when the bound
      * is exhausted. */
    method Put(key: string, value: V)
      requires Valid()
      modifies this, buckets
      ensures Valid()
      ensures buckets[..] == TableSpec.Put(old(buckets[..]), hash, key, value)
      ensures buckets == old(buckets) || fresh(buckets)
      decreases if 2 * size < capacity then 0 else 2
    {
      if 2 * size >= capacity {
        LiveCountBound(buckets[..]);
        ResizeTable(capacity * 2);
      }
      ghost var grown := buckets[..];
      assert grown == Grow(old(buckets[..]), hash);
      var inxInitial := hash(key);
      for count := 0 to 10 * capacity
        invariant buckets[..] == grown
        invariant PutStopFrom(grown, inxInitial, key, 0) == PutStopFrom(grown, inxInitial, key, count)
      {
        var inx := (inxInitial + count * count) % capacity;
        assert inx == Probe(inxInitial, count, buckets.Length);
        var slot := buckets[inx];
        if slot.None? || slot.value.tomb {
          buckets[inx] := Some(Entry(key, value, false));
          size := size + 1;
          LiveCountUpdate(grown, inx, buckets[inx]);
          return;
        } else if slot.value.key == key {
          buckets[inx] := Some(slot.value.(value := value));
          LiveCountUpdate(grown, inx, buckets[inx]);
          return;
        }
      }
    }

    /** remove: tombstone every live bucket holding `key` on the probe path up
      * to the first empty bucket, one size decrement per tombstone. */
    method Remove(key: string)
      requires Valid()
      modifies this, buckets
      ensures Valid() && buckets == old(buckets) && capacity == old(capacity)
      ensures buckets[..] == TableSpec.Remove(old(buckets[..]), hash(key), key)
    {
      var inxInitial := hash(key);
      ghost var target := TableSpec.Remove(buckets[..], inxInitial, key);
      for count := 0 to 10 * capacity
        invariant Valid()
        invariant target == RemoveFrom(buckets[..], inxInitial, key, count)
        modifies this`size, buckets
      {
        var inx := (inxInitial + count * count) % capacity;
        ghost var before := buckets[..];
        assert inx == Probe(inxInitial, count, |before|);
        var slot := buckets[inx];
        if slot.None? {
          assert RemoveFrom(before, inxInitial, key, count) == before;
          return;
        } else if slot.value.key == key && !slot.value.tomb {
          buckets[inx] := Some(slot.value.(tomb := true));
          size := size - 1;
          assert buckets[..] == before[inx := Some(slot.value.(tomb := true))];
          LiveCountUpdate(before, inx, buckets[inx]);
        }
      }
    }

    /** empty_buckets: capacity - size, the number of buckets that are empty
      * or tombstoned. */
    function EmptyBuckets(): (n: int)
      reads this, buckets
      requires Valid()
      ensures n == FreeCount(buckets[..]) && 0 <= n <= capacity
    {
      LiveFreeSum(buckets[..]);
      capacity - size
    }

    /** table_load: the load factor size / capacity as the pair (size, capacity). */
    function TableLoad(): (load: (int, int))
      reads this, buckets
      requires Valid()
      ensures load == (LiveCount(buckets[..]), buckets.Length)
      ensures 0 <= load.0 <= load.1 && load.1 >= 1
    {
      LiveCountBound(buckets[..]);
      (size, capacity)
    }

    /** resize_table: ignored when newCapacity < 1 or newCapacity < size;
      * otherwise the live entries are put into a fresh table of
      * `newCapacity` buckets, in bucket order, through `Put`. */
    method ResizeTable(newCapacity: int)
      requires Valid()
      modifies this
      ensures Valid()
      ensures buckets[..] == Resize(old(buckets[..]), hash, newCapacity)
      ensures buckets == old(buckets) || fresh(buckets)
      ensures newCapacity >= 1 && newCapacity >= old(size) ==> fresh(buckets)
      ensures newCapacity < 1 || newCapacity < old(size) ==>
        buckets == old(buckets) && capacity == old(capacity) && size == old(size)
      decreases if newCapacity >= 2 * size then 1 else 3
    {
      if newCapacity < 1 || newCapacity < size {
        return;
      }
      ghost var prev := buckets[..];
      ghost var level := ResizeLevel(prev, newCapacity);
      ghost var start := Empty<V>(newCapacity);
      var tempTable := buckets;
      var tempCapacity := capacity;
      capacity := newCapacity;
      buckets := new Slot<V>[newCapacity](_ => None);
      size := 0;
      AllEmptyCounts(start);
      assert buckets[..] == start;
      assert prev[..0] == [];
      for inx := 0 to tempCapacity
        invariant Valid() && fresh(buckets)
        invariant tempTable[..] == prev
        invariant LiveCount(prev[..inx]) <= LiveCount(prev)
        invariant buckets[..] == Reinsert(start, hash, prev[..inx], level)
      {
        ghost var done := buckets[..];
        assert prev[..inx + 1][..inx] == prev[..inx];
        LiveCountPrefix(prev, inx + 1);
        var slot := tempTable[inx];
        if slot.Some? && !slot.value.tomb {
          assert Reinsert(start, hash, prev[..inx + 1], level) ==
                 TableSpec.Put(done, hash, slot.value.key, slot.value.value);
          assert level == 1 ==> 2 * size < capacity;
          Put(slot.value.key, slot.value.value);
        } else {
          assert Reinsert(start, hash, prev[..inx + 1], level) == done;
        }
      }
      assert prev[..tempCapacity] == prev;
      assert Resize(prev, hash, newCapacity) == Reinsert(start, hash, prev, level);
    }

    /** get_keys: the keys of the live buckets in ascending bucket order;
      * there are `size` of them. */
    method GetKeys() returns (keys: seq<string>)
      requires Valid()
      ensures keys == LiveKeys(buckets[..]) && |keys| == size
    {
      keys := [];
      for inx := 0 to capacity
        invariant keys == LiveKeys(buckets[..inx])
      {
        assert buckets[..inx + 1][..inx] == buckets[..inx];
        if buckets[inx].Some? && !buckets[inx].value.tomb {
          keys := keys + [buckets[inx].value.key];
        }
      }
      assert buckets[..capacity] == buckets[..];
    }
  }
}
