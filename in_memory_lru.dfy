/**
 * `InMemoryLru` of util/in_memory_lru.h: the same design as `LRUCache` (an
 * unordered map plus an intrusive recency list, no `has_key`). Here the list
 * is kept one level up, as the sequence `recency` of keys from
 * `lru_list_head` to `lru_list_tail`; the link-level rewiring is modelled
 * once, in `LruCache.LRUCache`.
 */
module InMemoryLruCache {
  import opened Options
  import opened Lists
  import opened MachineInt
  import LruSpec

  class InMemoryLru<K(==), V> {
    var mem: map<K, V>
    const capacity: u32
    var recency: seq<K>

    ghost function Model(): LruSpec.Cache<K, V>
      reads this
    {
      LruSpec.Cache(recency, mem)
    }

    /** Every stored key is listed once, and the size is at most the capacity. */
    ghost predicate Valid()
      reads this
    {
      LruSpec.Wf(Model()) && |mem| <= capacity
    }

    constructor (capacity: nat)
      ensures Valid() && Model() == LruSpec.Empty()
      ensures this.capacity == TruncateU32(capacity)
    {
      mem := map[];
      this.capacity := TruncateU32(capacity);
      recency := [];
    }

    /** `set`: store or overwrite a key-value pair. */
    method Set(key: K, value: V)
      requires Valid()
      modifies this
      ensures Valid()
      ensures Model() == LruSpec.Put(old(Model()), capacity, key, value)
    {
      ghost var before := Model();
      LruSpec.PutWf(before, capacity, key, value);
      LruSpec.PutWithinCapacity(before, capacity, key, value);
      if key !in mem {
        mem := mem[key := value];
        ListInsertHead(key);
        if |mem| > capacity {
          Gc1();
        }
      } else {
        mem := mem[key := value];
        ListMoveToHead(key);
      }
    }

    /** `get`: the stored value, or none; a hit touches the key. */
    method Get(key: K) returns (r: Option<V>)
      requires Valid()
      modifies this
      ensures Valid()
      ensures key in old(mem) ==> r == Some(old(mem)[key]) && Model() == LruSpec.Touch(old(Model()), key)
      ensures key !in old(mem) ==> r == None && unchanged(this)
    {
      if key !in mem {
        return None;
      }
      ListMoveToHead(key);
      LruSpec.TouchProperties(old(Model()), key);
      r := Some(mem[key]);
    }

    /** `get_copy`: on a hit, copy the value out and touch the key. */
    method GetCopy(key: K, outValue: V) returns (found: bool, out: V)
      requires Valid()
      modifies this
      ensures Valid()
      ensures found == (key in old(mem))
      ensures found ==> out == old(mem)[key] && Model() == LruSpec.Touch(old(Model()), key)
      ensures !found ==> out == outValue && unchanged(this)
    {
      if key !in mem {
        return false, outValue;
      }
      ListMoveToHead(key);
      LruSpec.TouchProperties(old(Model()), key);
      found, out := true, mem[key];
    }

    /** `get_move`: on a hit, move the value out and erase the key. */
    method GetMove(key: K, outValue: V) returns (found: bool, out: V)
      requires Valid()
      modifies this
      ensures Valid()
      ensures found == (key in old(mem))
      ensures found ==> out == old(mem)[key] && Model() == LruSpec.Erase(old(Model()), key)
      ensures !found ==> out == outValue && unchanged(this)
    {
      if key !in mem {
        return false, outValue;
      }
      out := mem[key];
      LruSpec.EraseProperties(Model(), key);
      ListRelease(key);
      mem := mem - {key};
      found := true;
    }

    /** `get_copy_pointee`: on a hit, copy out the object the stored value
        points to (`deref` is the dereference) and touch the key. */
    method GetCopyPointee<P>(key: K, deref: V -> P, outPointee: P) returns (found: bool, out: P)
      requires Valid()
      modifies this
      ensures Valid()
      ensures found == (key in old(mem))
      ensures found ==> out == deref(old(mem)[key]) && Model() == LruSpec.Touch(old(Model()), key)
      ensures !found ==> out == outPointee && unchanged(this)
    {
      if key !in mem {
        return false, outPointee;
      }
      ListMoveToHead(key);
      LruSpec.TouchProperties(old(Model()), key);
      found, out := true, deref(mem[key]);
    }

    /** `erase`: remove the key and its value; false when absent. */
    method Erase(key: K) returns (found: bool)
      requires Valid()
      modifies this
      ensures Valid()
      ensures found == (key in old(mem))
      ensures Model() == LruSpec.Erase(old(Model()), key)
    {
      LruSpec.EraseProperties(Model(), key);
      if key !in mem {
        assert mem - {key} == mem;
        return false;
      }
      ListRelease(key);
      mem := mem - {key};
      found := true;
    }

    /** `clear`: empty map, empty list. */
    method Clear()
      requires Valid()
      modifies this
      ensures Valid()
      ensures Model() == LruSpec.Empty()
    {
      mem := map[];
      recency := [];
    }

    /** `list_insert_head`: an unlisted key becomes the most recently used. */
    method ListInsertHead(e: K)
      requires e !in recency
      modifies this
      ensures recency == [e] + old(recency) && mem == old(mem)
    {
      recency := [e] + recency;
    }

    /** `list_release`: unlink a listed key; its map entry stays. */
    method ListRelease(e: K)
      requires e in recency
      modifies this
      ensures recency == RemoveAt(old(recency), IndexOf(old(recency), e)) && mem == old(mem)
    {
      recency := RemoveAt(recency, IndexOf(recency, e));
    }

    /** `list_move_to_head`. */
    method ListMoveToHead(e: K)
      requires Distinct(recency) && e in recency
      modifies this
      ensures recency == [e] + Unlink(old(recency), e) && mem == old(mem)
    {
      RemoveAtDistinct(recency, IndexOf(recency, e));
      ListRelease(e);
      ListInsertHead(e);
    }

    /** `gc1`: evict the list tail from list and map. */
    method Gc1()
      requires Distinct(recency) && recency != []
      modifies this
      ensures Model() == LruSpec.Evict(old(Model()))
    {
      var e := recency[|recency| - 1];
      assert IndexOf(recency, e) == |recency| - 1;
      ListRelease(e);
      mem := mem - {e};
    }
  }
}
