/**
 * What an LRU cache holds, independent of how it is linked: the keys in
 * recency order (most recently used first, the eviction candidate last) and
 * the value stored under each key. `LruCache.LRUCache` and
 * `InMemoryLruCache.InMemoryLru` are both proved to move between these values.
 */
module LruSpec {
  import opened Lists

  datatype Cache<K, V> = Cache(order: seq<K>, values: map<K, V>)

  /** The recency list holds exactly the stored keys, each once. */
  ghost predicate Wf<K, V>(c: Cache<K, V>) {
    && Distinct(c.order)
    && (forall i :: 0 <= i < |c.order| ==> c.order[i] in c.values)
    && (forall k :: k in c.values ==> k in c.order)
  }

  function Empty<K, V>(): Cache<K, V> {
    Cache([], map[])
  }

  /** `list_move_to_head`: unlink `k` and put it back as most recently used. */
  function Touch<K, V>(c: Cache<K, V>, k: K): Cache<K, V> {
    Cache([k] + Unlink(c.order, k), c.values)
  }

  /** `gc1`: drop the least recently used entry (the list tail). */
  function Evict<K, V>(c: Cache<K, V>): Cache<K, V>
    requires c.order != []
  {
    Cache(c.order[..|c.order| - 1], c.values - {c.order[|c.order| - 1]})
  }

  /** `set`: overwrite and touch an existing key; otherwise insert at the head
      and, once the map holds more than `capacity` entries, evict the tail. */
  function Put<K, V>(c: Cache<K, V>, capacity: nat, k: K, v: V): Cache<K, V> {
    if k in c.values then Touch(Cache(c.order, c.values[k := v]), k)
    else
      var inserted := Cache([k] + c.order, c.values[k := v]);
      if |inserted.values| > capacity then Evict(inserted) else inserted
  }

  /** `erase`, `get_move`: drop `k` from the map and unlink it. */
  function Erase<K, V>(c: Cache<K, V>, k: K): Cache<K, V> {
    Cache(Unlink(c.order, k), c.values - {k})
  }

  /** The map has one entry per list node. */
  lemma SizeIsLength<K, V>(c: Cache<K, V>)
    requires Wf(c)
    ensures |c.values| == |c.order|
  {
    DistinctCardinality(c.order);
    assert c.values.Keys == set x | x in c.order;
  }

  lemma TouchProperties<K, V>(c: Cache<K, V>, k: K)
    requires Wf(c) && k in c.values
    ensures Wf(Touch(c, k))
    ensures Touch(c, k).order == [k] + RemoveAt(c.order, IndexOf(c.order, k))
    ensures Touch(c, k).values == c.values
  {
    var i := IndexOf(c.order, k);
    RemoveAtDistinct(c.order, i);
    var rest := RemoveAt(c.order, i);
    DistinctCons(k, rest);
    var t := Touch(c, k);
    assert t.order == [k] + rest;
    forall j | 0 <= j < |t.order| ensures t.order[j] in t.values {
      if j > 0 { assert t.order[j] == rest[j - 1]; }
    }
    forall x | x in t.values ensures x in t.order {
      if x != k { assert x in rest; }
    }
  }

  lemma EraseProperties<K, V>(c: Cache<K, V>, k: K)
    requires Wf(c)
    ensures Wf(Erase(c, k))
    ensures k !in c.values ==> Erase(c, k) == c
    ensures k in c.values ==>
      Erase(c, k).order == RemoveAt(c.order, IndexOf(c.order, k)) &&
      Erase(c, k).values.Keys == c.values.Keys - {k} &&
      |Erase(c, k).values| == |c.values| - 1
  {
    if k in c.values {
      var i := IndexOf(c.order, k);
      RemoveAtDistinct(c.order, i);
    } else {
      assert c.values - {k} == c.values;
    }
  }

  /** Every `set` keeps the list and the map in agreement. */
  lemma PutWf<K, V>(c: Cache<K, V>, capacity: nat, k: K, v: V)
    requires Wf(c)
    ensures Wf(Put(c, capacity, k, v))
  {
    if k in c.values {
      TouchProperties(Cache(c.order, c.values[k := v]), k);
    } else {
      var inserted := Cache([k] + c.order, c.values[k := v]);
      assert Wf(inserted);
      if |inserted.values| > capacity {
        var n := |inserted.order|;
        assert inserted.order[n - 1] !in inserted.order[..n - 1];
      }
    }
  }

  /** A cache that respects its capacity still does after `set`. */
  lemma PutWithinCapacity<K, V>(c: Cache<K, V>, capacity: nat, k: K, v: V)
    requires Wf(c) && |c.values| <= capacity
    ensures |Put(c, capacity, k, v).values| <= capacity
  {
    if k !in c.values {
      var inserted := Cache([k] + c.order, c.values[k := v]);
      if |inserted.values| > capacity {
        assert inserted.order[|inserted.order| - 1] in inserted.values;
      }
    }
  }

  /** `set` of a new key: it becomes the most recently used entry; if the cache
      was full, exactly the previous least recently used entry is evicted, and
      with capacity 0 the new entry itself is dropped at once. */
  lemma PutNewKey<K, V>(c: Cache<K, V>, capacity: nat, k: K, v: V)
    requires Wf(c) && |c.values| <= capacity && k !in c.values
    ensures |c.order| == |c.values|
    ensures |c.values| < capacity ==>
      Put(c, capacity, k, v) == Cache([k] + c.order, c.values[k := v])
    ensures 0 < capacity == |c.values| ==>
      Put(c, capacity, k, v) ==
        Cache([k] + c.order[..capacity - 1], (c.values - {c.order[capacity - 1]})[k := v])
    ensures capacity == 0 ==> Put(c, capacity, k, v) == c
  {
    SizeIsLength(c);
    var inserted := Cache([k] + c.order, c.values[k := v]);
    assert |inserted.values| == |c.values| + 1;
    if 0 < capacity == |c.values| {
      var last := c.order[capacity - 1];
      assert last != k;
      assert ([k] + c.order)[..capacity] == [k] + c.order[..capacity - 1];
      assert c.values[k := v] - {last} == (c.values - {last})[k := v];
    } else if capacity == 0 {
      assert c.order == [];
      assert c.values == map[];
      assert inserted.values - {k} == map[];
    }
  }

  /** `set` of an existing key: the value is overwritten, the key moves to the
      head, and the key set and the size are unchanged. */
  lemma PutExistingKey<K, V>(c: Cache<K, V>, capacity: nat, k: K, v: V)
    requires Wf(c) && k in c.values
    ensures Put(c, capacity, k, v).values == c.values[k := v]
    ensures Put(c, capacity, k, v).values.Keys == c.values.Keys
    ensures |Put(c, capacity, k, v).values| == |c.values|
    ensures Put(c, capacity, k, v).order == [k] + RemoveAt(c.order, IndexOf(c.order, k))
  {
    TouchProperties(Cache(c.order, c.values[k := v]), k);
    assert c.values[k := v].Keys == c.values.Keys;
  }

  /** With capacity 1, setting key 2 after key 1 evicts key 1. */
  lemma CapacityOneEvicts<K, V>(k1: K, v1: V, k2: K, v2: V)
    requires k1 != k2
    ensures Put(Put(Empty(), 1, k1, v1), 1, k2, v2) == Cache([k2], map[k2 := v2])
  {
    var c1 := Put(Empty(), 1, k1, v1);
    assert c1 == Cache([k1], map[k1 := v1]);
    var inserted := Cache([k2, k1], map[k1 := v1, k2 := v2]);
    assert |inserted.values| == 2;
    assert inserted.values - {k1} == map[k2 := v2];
  }
}
