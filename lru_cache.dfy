/**
 * `LRUCache` of util/lru_cache.h: an unordered map from key to an entry that
 * holds the value and the `parent`/`child` links of an intrusive doubly linked
 * recency list, with `lru_list_head` (most recently used) and `lru_list_tail`
 * (least recently used). A list node is identified by the key of its map entry.
 * The ghost sequence `Order` is the list those links encode.
 */
module LruCache {
  import opened Options
  import opened Lists
  import opened MachineInt
  import LruSpec

  datatype Entry<K, V> = Entry(value: V, parent: Option<K>, child: Option<K>)

  /** The key at position `i` of `order` is stored, and its `parent`/`child`
      fields are its neighbours in `order`. */
  ghost predicate LinkOk<K, V>(mem: map<K, Entry<K, V>>, order: seq<K>, i: nat)
    requires i < |order|
  {
    && order[i] in mem
    && mem[order[i]].parent == Prev(order, i)
    && mem[order[i]].child == Next(order, i)
  }

  /** The links of `mem` spell out the list `order`. */
  ghost predicate Spells<K, V>(mem: map<K, Entry<K, V>>, order: seq<K>) {
    forall i :: 0 <= i < |order| ==> LinkOk(mem, order, i)
  }

  /** A list spelled in `mem` with as many keys as `mem` lists every stored key. */
  lemma Covered<K, V>(mem: map<K, Entry<K, V>>, order: seq<K>)
    requires Distinct(order) && Spells(mem, order) && |order| == |mem|
    ensures forall k :: k in mem <==> k in order
  {
    var listed := set x | x in order;
    DistinctCardinality(order);
    assert listed <= mem.Keys by {
      forall k | k in listed ensures k in mem.Keys {
        var i :| 0 <= i < |order| && order[i] == k;
        assert LinkOk(mem, order, i);
      }
    }
    SubsetFull(listed, mem.Keys);
  }

  /** Storing an entry under an unlisted key leaves the list's links alone. */
  lemma StoreUnlisted<K, V>(mem: map<K, Entry<K, V>>, order: seq<K>, key: K, e: Entry<K, V>)
    requires Spells(mem, order) && key !in order
    ensures Spells(mem[key := e], order)
  {
    var m := mem[key := e];
    forall i | 0 <= i < |order| ensures LinkOk(m, order, i) {
      assert LinkOk(mem, order, i);
      assert order[i] != key;
    }
  }

  /** Dropping an unlisted key leaves the list's links alone. */
  lemma DropUnlisted<K, V>(mem: map<K, Entry<K, V>>, order: seq<K>, key: K)
    requires Spells(mem, order) && key !in order
    ensures Spells(mem - {key}, order)
  {
    forall i | 0 <= i < |order| ensures LinkOk(mem - {key}, order, i) {
      assert LinkOk(mem, order, i);
      assert order[i] != key;
    }
  }

  /** Overwriting a stored value leaves every link alone. */
  lemma StoreValue<K, V>(mem: map<K, Entry<K, V>>, order: seq<K>, key: K, v: V)
    requires Spells(mem, order) && key in mem
    ensures Spells(mem[key := mem[key].(value := v)], order)
  {
    var m := mem[key := mem[key].(value := v)];
    forall i | 0 <= i < |order| ensures LinkOk(m, order, i) {
      assert LinkOk(mem, order, i);
    }
  }

  /** The map after `list_insert_head` of entry `e` in front of `head`. */
  function Inserted<K, V>(mem: map<K, Entry<K, V>>, e: K, head: Option<K>): map<K, Entry<K, V>> {
    if e !in mem then mem else
    var m1 := mem[e := mem[e].(parent := None, child := head)];
    if head.Some? && head.value in m1 then m1[head.value := m1[head.value].(parent := Some(e))] else m1
  }

  /** Linking an unlisted entry in at the head spells the longer list. */
  lemma InsertedSpells<K, V>(mem: map<K, Entry<K, V>>, order: seq<K>, e: K)
    requires Spells(mem, order) && e in mem && e !in order
    ensures Spells(Inserted(mem, e, First(order)), [e] + order)
    ensures Inserted(mem, e, First(order)).Keys == mem.Keys
    ensures forall k :: k in mem ==> Inserted(mem, e, First(order))[k].value == mem[k].value
  {
    var m := Inserted(mem, e, First(order));
    var r := [e] + order;
    if order != [] {
      assert LinkOk(mem, order, 0);
    }
    forall j | 0 <= j < |r| ensures LinkOk(m, r, j) {
      if j > 0 {
        assert r[j] == order[j - 1];
        assert LinkOk(mem, order, j - 1);
        if j > 1 { assert r[j - 1] == order[j - 2]; }
        if j + 1 < |r| { assert r[j + 1] == order[j]; }
      }
    }
  }

  /** The map after `list_release` of entry `e` has rewritten its neighbours' links. */
  function Released<K, V>(mem: map<K, Entry<K, V>>, e: K): map<K, Entry<K, V>> {
    if e !in mem then mem else
    var en := mem[e];
    var m1 := if en.parent.Some? && en.parent.value in mem
              then mem[en.parent.value := mem[en.parent.value].(child := en.child)] else mem;
    if en.child.Some? && en.child.value in m1
    then m1[en.child.value := m1[en.child.value].(parent := en.parent)] else m1
  }

  /** Unlinking keeps the other entries' links spelling the shortened list. */
  lemma ReleasedSpells<K, V>(mem: map<K, Entry<K, V>>, order: seq<K>, i: nat)
    requires Distinct(order) && Spells(mem, order) && i < |order|
    ensures Spells(Released(mem, order[i]), RemoveAt(order, i))
    ensures Released(mem, order[i]).Keys == mem.Keys
    ensures forall k :: k in mem ==> Released(mem, order[i])[k].value == mem[k].value
  {
    var m := Released(mem, order[i]);
    var r := RemoveAt(order, i);
    assert LinkOk(mem, order, i);
    assert i > 0 ==> LinkOk(mem, order, i - 1);
    assert i + 1 < |order| ==> LinkOk(mem, order, i + 1);
    forall j | 0 <= j < |r| ensures LinkOk(m, r, j) {
      if j < i {
        assert r[j] == order[j];
        assert LinkOk(mem, order, j);
        if j < i - 1 { assert r[j + 1] == order[j + 1]; }
      } else {
        assert r[j] == order[j + 1];
        assert LinkOk(mem, order, j + 1);
        if j > i { assert r[j - 1] == order[j]; }
        if j + 1 < |r| { assert r[j + 1] == order[j + 2]; }
      }
    }
  }

  class LRUCache<K(==), V> {
    var mem: map<K, Entry<K, V>>
    const capacity: u32
    var lruListHead: Option<K>
    var lruListTail: Option<K>

    // public view: the recency list the links encode, and the stored values
    ghost var Order: seq<K>
    ghost var Contents: map<K, V>

    /** The links of the listed entries, and head and tail, spell out `Order`. */
    ghost predicate Linked()
      reads this
    {
      && Distinct(Order)
      && Spells(mem, Order)
      && lruListHead == First(Order)
      && lruListTail == Last(Order)
    }

    /** `Contents` is the value part of `mem`. */
    ghost predicate Agrees()
      reads this
    {
      && mem.Keys == Contents.Keys
      && forall k {:trigger mem[k]} :: k in mem ==> mem[k].value == Contents[k]
    }

    /** Object invariant: every stored key is listed, and the size is at most the capacity. */
    ghost predicate Valid()
      reads this
    {
      && Linked()
      && Agrees()
      && |Order| == |mem|
      && |mem| <= capacity
    }

    ghost function Model(): LruSpec.Cache<K, V>
      reads this
    {
      LruSpec.Cache(Order, Contents)
    }

    lemma ModelWf()
      requires Valid()
      ensures LruSpec.Wf(Model())
      ensures |Contents| == |mem|
    {
      Covered(mem, Order);
    }

    constructor (capacity: nat)
      ensures Valid() && Model() == LruSpec.Empty()
      ensures this.capacity == TruncateU32(capacity)
    {
      mem := map[];
      this.capacity := TruncateU32(capacity);
      lruListHead := None;
      lruListTail := None;
      Order := [];
      Contents := map[];
    }

    /** `set`: store or overwrite a key-value pair. */
    method Set(key: K, value: V)
      requires Valid()
      modifies this
      ensures Valid()
      ensures Model() == LruSpec.Put(old(Model()), capacity, key, value)
    {
      if key !in mem {
        Insert(key, value);
      } else {
        Overwrite(key, value);
      }
    }

    /** `set` of a new key: insert at the head, then evict the tail if over capacity. */
    method Insert(key: K, value: V)
      requires Valid() && key !in mem
      modifies this
      ensures Valid()
      ensures Model() == LruSpec.Put(old(Model()), capacity, key, value)
    {
      Covered(mem, Order);
      StoreUnlisted(mem, Order, key, Entry(value, None, None));
      mem := mem[key := Entry(value, None, None)];
      Contents := Contents[key := value];
      ListInsertHead(key);
      if |mem| > capacity {
        Gc1();
      }
    }

    /** `set` of a stored key: overwrite the value and move it to the head. */
    method Overwrite(key: K, value: V)
      requires Valid() && key in mem
      modifies this
      ensures Valid()
      ensures Model() == LruSpec.Put(old(Model()), capacity, key, value)
    {
      Covered(mem, Order);
      StoreValue(mem, Order, key, value);
      mem := mem[key := mem[key].(value := value)];
      Contents := Contents[key := value];
      ListMoveToHead(key);
    }

    /** `get`: a pointer to the stored value, or null; a hit touches the key. */
    method Get(key: K) returns (r: Option<V>)
      requires Valid()
      modifies this
      ensures Valid()
      ensures key in old(mem) ==> r == Some(old(Contents)[key]) && Model() == LruSpec.Touch(old(Model()), key)
      ensures key !in old(mem) ==> r == None && unchanged(this)
    {
      if key !in mem {
        return None;
      }
      Covered(mem, Order);
      ListMoveToHead(key);
      r := Some(mem[key].value);
    }

    /** `get_copy`: on a hit, copy the value out and touch the key. */
    method GetCopy(key: K, outValue: V) returns (found: bool, out: V)
      requires Valid()
      modifies this
      ensures Valid()
      ensures found == (key in old(mem))
      ensures found ==> out == old(Contents)[key] && Model() == LruSpec.Touch(old(Model()), key)
      ensures !found ==> out == outValue && unchanged(this)
    {
      if key !in mem {
        return false, outValue;
      }
      Covered(mem, Order);
      ListMoveToHead(key);
      found, out := true, mem[key].value;
    }

    /** `get_move`: on a hit, move the value out and erase the key. */
    method GetMove(key: K, outValue: V) returns (found: bool, out: V)
      requires Valid()
      modifies this
      ensures Valid()
      ensures found == (key in old(mem))
      ensures found ==> out == old(Contents)[key] && Model() == LruSpec.Erase(old(Model()), key)
      ensures !found ==> out == outValue && unchanged(this)
    {
      if key !in mem {
        return false, outValue;
      }
      Covered(mem, Order);
      out := mem[key].value;
      EraseListed(key);
      found := true;
    }

    /** `get_copy_pointee`: on a hit, copy out the object the stored value points
        to (`deref` is the dereference) and touch the key. */
    method GetCopyPointee<P>(key: K, deref: V -> P, outPointee: P) returns (found: bool, out: P)
      requires Valid()
      modifies this
      ensures Valid()
      ensures found == (key in old(mem))
      ensures found ==> out == deref(old(Contents)[key]) && Model() == LruSpec.Touch(old(Model()), key)
      ensures !found ==> out == outPointee && unchanged(this)
    {
      if key !in mem {
        return false, outPointee;
      }
      Covered(mem, Order);
      ListMoveToHead(key);
      found, out := true, deref(mem[key].value);
    }

    /** `has_key`: membership, without counting as a use. */
    method HasKey(key: K) returns (r: bool)
      requires Valid()
      ensures r <==> key in Model().values
    {
      r := key in mem;
    }

    /** `erase`: remove the key and its value; false when absent. */
    method Erase(key: K) returns (found: bool)
      requires Valid()
      modifies this
      ensures Valid()
      ensures found == (key in old(mem))
      ensures Model() == LruSpec.Erase(old(Model()), key)
    {
      Covered(mem, Order);
      if key !in mem {
        assert Contents - {key} == Contents;
        return false;
      }
      EraseListed(key);
      found := true;
    }

    /** The shared tail of `erase` and `get_move`: `list_release`, then `mem.erase`. */
    method EraseListed(key: K)
      requires Valid() && key in Order
      modifies this
      ensures Valid()
      ensures Model() == LruSpec.Erase(old(Model()), key)
    {
      assert LinkOk(mem, Order, IndexOf(Order, key));
      RemoveAtDistinct(Order, IndexOf(Order, key));
      ListRelease(key);
      DropUnlisted(mem, Order, key);
      mem := mem - {key};
      Contents := Contents - {key};
    }

    /** `clear`: empty map, empty list. */
    method Clear()
      requires Valid()
      modifies this
      ensures Valid()
      ensures Model() == LruSpec.Empty()
    {
      mem := map[];
      lruListHead := None;
      lruListTail := None;
      Order := [];
      Contents := map[];
    }

    /** `list_insert_head`: link a stored but unlisted entry in as the new head. */
    method ListInsertHead(e: K)
      requires Linked() && Agrees() && e in mem && e !in Order
      modifies this
      ensures Linked() && Agrees()
      ensures Order == [e] + old(Order)
      ensures mem.Keys == old(mem).Keys && Contents == old(Contents)
    {
      ghost var before := mem;
      if lruListHead.None? {
        lruListHead := Some(e);
        lruListTail := Some(e);
        mem := mem[e := mem[e].(parent := None, child := None)];
      } else {
        var h := lruListHead.value;
        assert LinkOk(mem, Order, 0);
        mem := mem[e := mem[e].(parent := None, child := lruListHead)];
        mem := mem[h := mem[h].(parent := Some(e))];
        lruListHead := Some(e);
      }
      assert mem == Inserted(before, e, First(Order));
      InsertedSpells(before, Order, e);
      DistinctCons(e, Order);
      Order := [e] + Order;
    }

    /** `list_release`: unlink a listed entry; the entry stays in the map. */
    method ListRelease(e: K)
      requires Linked() && Agrees() && e in Order
      modifies this
      ensures Linked() && Agrees()
      ensures Order == RemoveAt(old(Order), IndexOf(old(Order), e))
      ensures mem.Keys == old(mem).Keys && Contents == old(Contents)
    {
      ghost var i := IndexOf(Order, e);
      ghost var before := mem;
      assert LinkOk(mem, Order, i);
      var en := mem[e];
      assert i > 0 ==> LinkOk(mem, Order, i - 1);
      assert i + 1 < |Order| ==> LinkOk(mem, Order, i + 1);
      if en.parent.None? {
        lruListHead := en.child;
      } else {
        var p := en.parent.value;
        mem := mem[p := mem[p].(child := en.child)];
      }
      if en.child.None? {
        lruListTail := en.parent;
      } else {
        var c := en.child.value;
        mem := mem[c := mem[c].(parent := en.parent)];
      }
      assert mem == Released(before, e);
      ReleasedSpells(before, Order, i);
      RemoveAtDistinct(Order, i);
      Order := RemoveAt(Order, i);
    }

    /** `list_move_to_head`. */
    method ListMoveToHead(e: K)
      requires Linked() && Agrees() && e in Order
      modifies this
      ensures Linked() && Agrees()
      ensures Order == [e] + Unlink(old(Order), e)
      ensures mem.Keys == old(mem).Keys && Contents == old(Contents)
    {
      assert LinkOk(mem, Order, IndexOf(Order, e));
      RemoveAtDistinct(Order, IndexOf(Order, e));
      ListRelease(e);
      ListInsertHead(e);
    }

    /** `gc1`: evict the list tail from list and map. */
    method Gc1()
      requires Linked() && Agrees() && Order != []
      modifies this
      ensures Linked() && Agrees()
      ensures Model() == LruSpec.Evict(old(Model()))
      ensures mem.Keys == old(mem).Keys - {old(Order)[|old(Order)| - 1]}
      ensures |mem| == old(|mem|) - 1
    {
      var e := lruListTail.value;
      ghost var n := |Order|;
      assert IndexOf(Order, e) == n - 1;
      assert LinkOk(mem, Order, n - 1);
      RemoveAtDistinct(Order, n - 1);
      ListRelease(e);
      DropUnlisted(mem, Order, e);
      mem := mem - {e};
      Contents := Contents - {e};
    }
  }
}
