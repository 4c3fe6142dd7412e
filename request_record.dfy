/**
 * The `request_record` of `BasicQueuedSemaphore` in concurrency/semaphore.h: a
 * `std::map<unsigned int, std::size_t>` from a request size to the number of
 * waiters asking for it. A `std::map` is ordered by key, so it is modelled as
 * the list of its (key, count) slots in ascending key order; `begin()` is the
 * first slot. The multiset `Bag(r)` is what the record stands for.
 */
module RequestRecords {
  import opened MachineInt

  datatype Slot = Slot(request: u32, count: nat)

  type Record = seq<Slot>

  /** Keys strictly ascending, and no slot with a zero count. */
  ghost predicate Wf(r: Record) {
    r != [] ==>
      && r[0].count >= 1
      && (|r| > 1 ==> r[0].request < r[1].request)
      && Wf(r[1..])
  }

  /** The multiset of outstanding request sizes the record counts. */
  function Bag(r: Record): multiset<u32> {
    if r == [] then multiset{} else Bag(r[1..])[r[0].request := r[0].count]
  }

  /** `request_record_insert`: bump the slot of `k`, or add one with count 1. */
  function Insert(r: Record, k: u32): Record {
    if r == [] then [Slot(k, 1)]
    else if r[0].request == k then [r[0].(count := r[0].count + 1)] + r[1..]
    else if k < r[0].request then [Slot(k, 1)] + r
    else [r[0]] + Insert(r[1..], k)
  }

  /** `request_record_remove`: drop the slot of `k` at count 1, else decrement;
      an absent key leaves the record alone. */
  function Remove(r: Record, k: u32): Record {
    if r == [] then r
    else if r[0].request == k then
      if r[0].count <= 1 then r[1..] else [r[0].(count := r[0].count - 1)] + r[1..]
    else [r[0]] + Remove(r[1..], k)
  }

  /** `request_record_min`: the first key, or 0 for an empty record. */
  function Min(r: Record): nat {
    if r == [] then 0 else r[0].request
  }

  /** A key below the first key is not counted. */
  lemma {:induction false} BagBelow(r: Record, x: u32)
    requires Wf(r) && (r != [] ==> x < r[0].request)
    ensures Bag(r)[x] == 0
  {
    if r != [] {
      if r[1..] != [] {
        assert r[1..][0] == r[1];
      }
      BagBelow(r[1..], x);
    }
  }

  /** The record stays well formed, and its first key is the smaller of the
      new key and the old first key. */
  lemma {:induction false} InsertWf(r: Record, k: u32)
    requires Wf(r)
    ensures Wf(Insert(r, k))
    ensures Insert(r, k)[0].request == if r == [] || k < r[0].request then k else r[0].request
  {
    var s := Insert(r, k);
    if r == [] {
      assert s[1..] == [];
    } else if r[0].request == k {
      assert s[1..] == r[1..];
    } else if k < r[0].request {
      assert s[1..] == r;
    } else {
      InsertWf(r[1..], k);
      assert s[1..] == Insert(r[1..], k);
      if r[1..] != [] { assert r[1..][0] == r[1]; }
    }
  }

  /** Inserting counts one more waiter for `k`. */
  lemma {:induction false} InsertBag(r: Record, k: u32)
    requires Wf(r)
    ensures Bag(Insert(r, k)) == Bag(r) + multiset{k}
  {
    var s := Insert(r, k);
    if r == [] {
      assert s[1..] == [];
    } else if r[0].request == k {
      assert s[1..] == r[1..];
      if r[1..] != [] { assert r[1..][0] == r[1]; }
      BagBelow(r[1..], k);
    } else if k < r[0].request {
      assert s[1..] == r;
      BagBelow(r, k);
    } else {
      InsertBag(r[1..], k);
      InsertWf(r[1..], k);
      var t := Insert(r[1..], k);
      assert s[1..] == t;
      if r[1..] != [] { assert r[1..][0] == r[1]; }
      BagBelow(t, r[0].request);
      BagBelow(r[1..], r[0].request);
    }
  }

  lemma {:induction false} RemoveWf(r: Record, k: u32)
    requires Wf(r)
    ensures Wf(Remove(r, k))
    ensures r != [] && Remove(r, k) != [] ==> Remove(r, k)[0].request >= r[0].request
  {
    if r != [] && r[0].request != k {
      RemoveWf(r[1..], k);
      assert Remove(r, k)[1..] == Remove(r[1..], k);
      if r[1..] != [] { assert r[1..][0] == r[1]; }
    } else if r != [] && r[0].count > 1 {
      assert Remove(r, k)[1..] == r[1..];
    }
  }

  lemma {:induction false} RemoveBag(r: Record, k: u32)
    requires Wf(r)
    ensures Bag(Remove(r, k)) == Bag(r) - multiset{k}
  {
    if r == [] {
    } else if r[0].request == k {
      if r[1..] != [] { assert r[1..][0] == r[1]; }
      BagBelow(r[1..], k);
      if r[0].count > 1 {
        assert Remove(r, k)[1..] == r[1..];
      }
    } else {
      RemoveBag(r[1..], k);
      RemoveWf(r[1..], k);
      var t := Remove(r[1..], k);
      assert Remove(r, k)[1..] == t;
      assert Bag(Remove(r, k)) == Bag(t)[r[0].request := r[0].count];
      if r[1..] != [] { assert r[1..][0] == r[1]; }
      BagBelow(r[1..], r[0].request);
      BagBelow(t, r[0].request);
    }
  }

  /** `request_record_min` is the smallest outstanding request, and 0 exactly
      when none is outstanding. */
  lemma MinIsLeast(r: Record)
    requires Wf(r)
    ensures r == [] <==> Bag(r) == multiset{}
    ensures r == [] ==> Min(r) == 0
    ensures r != [] ==> Min(r) in Bag(r) && forall x :: x in Bag(r) ==> Min(r) <= x
  {
    if r != [] {
      assert Bag(r)[r[0].request] == r[0].count >= 1;
      forall x | x in Bag(r) ensures Min(r) <= x {
        if x < r[0].request {
          BagBelow(r, x);
        }
      }
    }
  }

  /** Inserting then removing the same key gives the record back. */
  lemma {:induction false} InsertThenRemove(r: Record, k: u32)
    requires Wf(r)
    ensures Remove(Insert(r, k), k) == r
  {
    if r != [] && r[0].request != k && !(k < r[0].request) {
      InsertThenRemove(r[1..], k);
      assert Insert(r, k)[1..] == Insert(r[1..], k);
    } else if r != [] && r[0].request == k {
      assert Insert(r, k)[1..] == r[1..];
    } else if r != [] {
      assert Insert(r, k)[1..] == r;
    }
  }

  /** Removing a key that is not recorded changes nothing. */
  lemma {:induction false} RemoveAbsent(r: Record, k: u32)
    requires Wf(r) && k !in Bag(r)
    ensures Remove(r, k) == r
  {
    if r != [] {
      assert r[0].request != k by {
        assert Bag(r)[r[0].request] == r[0].count;
      }
      assert Bag(r[1..])[k] == Bag(r)[k];
      RemoveAbsent(r[1..], k);
    }
  }
}
