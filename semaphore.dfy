/**
 * concurrency/semaphore.h: the fair `BasicQueuedSemaphore`, whose waiting
 * threads line up in a `WaitQueue` and whose `request_record` counts the
 * outstanding request sizes, and the plain condition-variable `Semaphore`.
 *
 * Every method models one critical section under the semaphore's lock. A
 * blocking wait splits a call into steps. `Acquire0Enter` takes the fast path
 * or registers the caller and enqueues its node. `Acquire0Woken` runs once the
 * node has been marked wakeable. `Acquire0TimedOut` runs once the deadline has
 * passed while the node was still not wakeable. A waiting thread is named by
 * its node.
 */
module Semaphores {
  import opened Options
  import opened Lists
  import opened MachineInt
  import opened WaitQueues
  import opened RequestRecords

  /** If some waiter's request fits in `permits`, the smallest recorded
      request fits too, so the wake-up test at release lets the head run. */
  lemma SatisfiableWaiterPassesMin(rec: Record, requests: seq<u32>, permits: int, j: nat)
    requires Wf(rec) && Bag(rec) == multiset(requests)
    requires j < |requests| && requests[j] <= permits
    ensures permits >= Min(rec)
  {
    assert requests[j] in multiset(requests);
    MinIsLeast(rec);
  }

  /** The fast path of `try_acquire0` as written: the request is converted
      with `(int)` before the comparison and `permits -= request` wraps to
      32 bits. */
  function FastPathAsWritten(permits: int, request: u32, queueEmpty: bool): (bool, int) {
    if permits >= Int32Of(request) && queueEmpty then (true, Int32Of(permits - request))
    else (false, permits)
  }

  /** On a semaphore with no permits, a request of 2^31 is granted at once and
      leaves -2^31 permits. */
  lemma HugeRequestGrantedAsWritten()
    ensures FastPathAsWritten(0, 0x8000_0000, true) == (true, -0x8000_0000)
  {
  }

  /** The wake-up test of `release` and of the end of `try_acquire0` as
      written: `request_record_min` returns its `unsigned` key as an `int`,
      so a key of 2^31 or more is compared as that key minus 2^32. */
  function WakeTestAsWritten(permits: int, rec: Record): (r: bool)
    ensures Min(rec) < TWO_31 ==> (r <==> permits >= Min(rec))
    ensures Min(rec) >= TWO_31 ==> (r <==> permits >= Min(rec) - TWO_32)
  {
    permits >= Int32Of(Min(rec))
  }

  /** With one waiter asking for 2^31 permits, the converted minimum is
      negative, so releasing a single permit wakes the head although the
      permits do not cover its request. */
  lemma HugeMinWakesAsWritten()
    ensures Int32Of(Min(Insert([], 0x8000_0000))) == -0x8000_0000
    ensures WakeTestAsWritten(1, Insert([], 0x8000_0000))
    ensures Bag(Insert([], 0x8000_0000)) == multiset{0x8000_0000}
    ensures 1 < Min(Insert([], 0x8000_0000))
  {
    var rec := Insert([], 0x8000_0000);
    assert rec == [Slot(0x8000_0000, 1)];
    assert Bag(rec) == Bag([])[0x8000_0000 := 1] by { assert rec[1..] == []; }
  }

  class BasicQueuedSemaphore {
    var permits: int
    const queue: WaitQueue
    var requestRecord: Record
    /** The request size of the thread waiting at each queue position. */
    ghost var Requests: seq<u32>

    /** The record counts the waiters' requests plus `extra`, the requests of
        threads that left the queue inside the current critical section. */
    ghost predicate Registered(extra: multiset<u32>)
      reads this, queue
    {
      && queue.Valid()
      && |Requests| == |queue.Queue|
      && HeadOnlyWakeable(queue.Flags)
      && Wf(requestRecord)
      && Bag(requestRecord) == multiset(Requests) + extra
      && permits >= 0
    }

    ghost predicate Valid()
      reads this, queue
    {
      Registered(multiset{})
    }

    constructor (initialPermits: int)
      requires initialPermits >= 0
      ensures Valid() && fresh(queue)
      ensures permits == initialPermits && queue.Queue == [] && requestRecord == []
    {
      permits := initialPermits;
      queue := new WaitQueue();
      requestRecord := [];
      Requests := [];
    }

    /** `request_record_insert`. */
    method RequestRecordInsert(request: u32)
      requires Wf(requestRecord)
      modifies this
      ensures Wf(requestRecord)
      ensures Bag(requestRecord) == old(Bag(requestRecord)) + multiset{request}
      ensures permits == old(permits) && Requests == old(Requests)
    {
      InsertWf(requestRecord, request);
      InsertBag(requestRecord, request);
      requestRecord := Insert(requestRecord, request);
    }

    /** `request_record_remove`; a request that is not recorded is ignored. */
    method RequestRecordRemove(request: u32)
      requires Wf(requestRecord)
      modifies this
      ensures Wf(requestRecord)
      ensures Bag(requestRecord) == old(Bag(requestRecord)) - multiset{request}
      ensures permits == old(permits) && Requests == old(Requests)
    {
      RemoveWf(requestRecord, request);
      RemoveBag(requestRecord, request);
      requestRecord := Remove(requestRecord, request);
    }

    /** `request_record_min`: the least outstanding request, 0 when none. */
    method RequestRecordMin() returns (r: nat)
      requires Wf(requestRecord)
      ensures r == Min(requestRecord)
      ensures Bag(requestRecord) == multiset{} ==> r == 0
      ensures Bag(requestRecord) != multiset{} ==>
        r in Bag(requestRecord) && forall x :: x in Bag(requestRecord) ==> r <= x
    {
      MinIsLeast(requestRecord);
      if requestRecord == [] {
        r := 0;
      } else {
        r := requestRecord[0].request;
      }
    }

    /** `release(request)`: return permits and wake the head when they cover
        the smallest outstanding request. */
    method Release(request: u32)
      requires Valid()
      modifies this, queue
      ensures Valid()
      ensures permits == old(permits) + request
      ensures requestRecord == old(requestRecord) && Requests == old(Requests)
      ensures queue.Queue == old(queue.Queue)
      ensures queue.Flags ==
        if old(queue.Queue) != [] && permits >= Min(requestRecord) then old(queue.Flags)[0 := true]
        else old(queue.Flags)
      ensures forall j :: 0 <= j < |Requests| && Requests[j] <= permits ==> queue.Flags[0]
    {
      permits := permits + request;
      var m := RequestRecordMin();
      if permits >= m {
        queue.WakeHead();
      }
      forall j | 0 <= j < |Requests| && Requests[j] <= permits ensures queue.Flags[0] {
        SatisfiableWaiterPassesMin(requestRecord, Requests, permits, j);
      }
    }

    /** `try_acquire(request)`: take the permits if there are enough, without
        regard to the waiters. */
    method TryAcquire(request: u32) returns (r: bool)
      requires Valid()
      modifies this
      ensures Valid()
      ensures r == (old(permits) >= request)
      ensures permits == if r then old(permits) - request else old(permits)
      ensures requestRecord == old(requestRecord) && Requests == old(Requests)
    {
      if permits >= request {
        permits := permits - request;
        return true;
      }
      return false;
    }

    /** Entry of `try_acquire0`: the fast path when the permits suffice and
        nobody waits; otherwise record the request and enqueue a node. */
    method Acquire0Enter(request: u32) returns (granted: bool, node: Option<nat>)
      requires Valid()
      modifies this, queue
      ensures Valid()
      ensures granted == (old(permits) >= request && old(queue.Queue) == [])
      ensures granted ==>
        && node == None && permits == old(permits) - request
        && requestRecord == old(requestRecord) && Requests == old(Requests)
        && unchanged(queue)
      ensures !granted ==>
        && node.Some? && permits == old(permits)
        && queue.Queue == old(queue.Queue) + [node.value]
        && queue.Flags == old(queue.Flags) + [false]
        && Requests == old(Requests) + [request]
        && Bag(requestRecord) == old(Bag(requestRecord)) + multiset{request}
    {
      var empty := queue.IsEmpty();
      if permits >= request && empty {
        permits := permits - request;
        return true, None;
      }
      var n := Register(request);
      granted, node := false, Some(n);
    }

    /** The slow path of `try_acquire0` before its first wait: record the
        request and enqueue the caller's node. */
    method Register(request: u32) returns (n: nat)
      requires Valid()
      modifies this, queue
      ensures Valid()
      ensures permits == old(permits)
      ensures queue.Queue == old(queue.Queue) + [n] && queue.Flags == old(queue.Flags) + [false]
      ensures Requests == old(Requests) + [request]
      ensures Bag(requestRecord) == old(Bag(requestRecord)) + multiset{request}
    {
      RequestRecordInsert(request);
      n := queue.Enqueue();
      Requests := Requests + [request];
    }

    /** One turn of the acquire loop after the caller's node became wakeable:
        leave the queue; with enough permits take them, retract the record and
        pass the wake-up on; else queue up again at the tail. */
    method Acquire0Woken(node: nat, request: u32) returns (granted: bool, next: Option<nat>)
      requires Valid()
      requires node in queue.Queue
      requires queue.Flags[IndexOf(queue.Queue, node)]
      requires Requests[IndexOf(queue.Queue, node)] == request
      modifies this, queue
      ensures Valid()
      ensures old(queue.Queue)[0] == node
      ensures granted == (old(permits) >= request)
      ensures granted ==>
        && next == None && permits == old(permits) - request
        && Requests == old(Requests)[1..] && queue.Queue == old(queue.Queue)[1..]
        && queue.Flags ==
          (if |old(queue.Queue)| > 1 && permits >= Min(requestRecord) then old(queue.Flags)[1..][0 := true]
           else old(queue.Flags)[1..])
        && Bag(requestRecord) == old(Bag(requestRecord)) - multiset{request}
      ensures !granted ==>
        && next.Some? && permits == old(permits)
        && queue.Queue == old(queue.Queue)[1..] + [next.value]
        && queue.Flags == old(queue.Flags)[1..] + [false]
        && Requests == old(Requests)[1..] + [request]
        && requestRecord == old(requestRecord)
    {
      WakeableIsHead(queue.Queue, queue.Flags, node);
      assert Requests == [request] + Requests[1..];
      queue.Dequeue();
      Requests := Requests[1..];
      if permits >= request {
        Grant(request);
        return true, None;
      }
      var n := Requeue(request);
      granted, next := false, Some(n);
    }

    /** The caller has left the queue and the permits cover its request: take
        them, retract the record entry and pass the wake-up on. */
    method Grant(request: u32)
      requires Registered(multiset{request}) && permits >= request
      modifies this, queue
      ensures Valid()
      ensures permits == old(permits) - request
      ensures Requests == old(Requests) && queue.Queue == old(queue.Queue)
      ensures queue.Flags ==
        if old(queue.Queue) != [] && permits >= Min(requestRecord) then old(queue.Flags)[0 := true]
        else old(queue.Flags)
      ensures Bag(requestRecord) == old(Bag(requestRecord)) - multiset{request}
    {
      RequestRecordRemove(request);
      permits := permits - request;
      var m := RequestRecordMin();
      if permits >= m {
        queue.WakeHead();
      }
      if permits < 0 {
        assert false;
      }
    }

    /** The caller has left the queue but the permits fall short: queue up
        again at the tail, still registered. */
    method Requeue(request: u32) returns (n: nat)
      requires Registered(multiset{request})
      modifies this, queue
      ensures Valid()
      ensures permits == old(permits) && requestRecord == old(requestRecord)
      ensures queue.Queue == old(queue.Queue) + [n] && queue.Flags == old(queue.Flags) + [false]
      ensures Requests == old(Requests) + [request]
    {
      n := queue.Enqueue();
      Requests := Requests + [request];
    }

    /** The timed wait ran out while the caller's node was not wakeable:
        unlink the node and retract its record entry. */
    method Acquire0TimedOut(node: nat, request: u32)
      requires Valid()
      requires node in queue.Queue
      requires !queue.Flags[IndexOf(queue.Queue, node)]
      requires Requests[IndexOf(queue.Queue, node)] == request
      modifies this, queue
      ensures Valid()
      ensures var i := IndexOf(old(queue.Queue), node);
        && queue.Queue == RemoveAt(old(queue.Queue), i)
        && queue.Flags == RemoveAt(old(queue.Flags), i)
        && Requests == RemoveAt(old(Requests), i)
      ensures permits == old(permits)
      ensures Bag(requestRecord) == old(Bag(requestRecord)) - multiset{request}
    {
      ghost var i := IndexOf(queue.Queue, node);
      RemoveKeepsHeadOnly(queue.Flags, i);
      RemoveAtMultiset(Requests, i);
      RequestRecordRemove(request);
      Requests := RemoveAt(Requests, i);
      assert Bag(requestRecord) == multiset(Requests) + multiset{};
      queue.Remove(Some(node));
    }

    /** The timeout path as written: the node leaves the queue but the record
        keeps counting its request. */
    method Acquire0TimedOutAsWritten(node: nat, request: u32)
      requires Valid()
      requires node in queue.Queue
      requires !queue.Flags[IndexOf(queue.Queue, node)]
      requires Requests[IndexOf(queue.Queue, node)] == request
      modifies this, queue
      ensures var i := IndexOf(old(queue.Queue), node);
        && queue.Queue == RemoveAt(old(queue.Queue), i)
        && queue.Flags == RemoveAt(old(queue.Flags), i)
        && Requests == RemoveAt(old(Requests), i)
      ensures queue.Valid() && HeadOnlyWakeable(queue.Flags)
      ensures permits == old(permits)
      ensures requestRecord == old(requestRecord)
      ensures Bag(requestRecord) == multiset(Requests) + multiset{request}
    {
      ghost var i := IndexOf(queue.Queue, node);
      RemoveKeepsHeadOnly(queue.Flags, i);
      RemoveAtMultiset(Requests, i);
      queue.Remove(Some(node));
      Requests := RemoveAt(Requests, i);
    }
  }

  /** After the only waiter for 1 permit timed out, the record as written still
      reports 1 as the smallest outstanding request although nobody waits. */
  lemma StaleRecordAfterTimeout()
    ensures Bag(Insert([], 1)) == multiset{1} && Min(Insert([], 1)) == 1
  {
  }

  /** `Semaphore`: a counter guarded by a lock and one condition variable;
      `count` is an `int32_t`, kept unbounded here. */
  class Semaphore {
    var count: int

    constructor (initialPermits: int)
      ensures count == initialPermits
    {
      count := initialPermits;
    }

    /** `acquire(request)`: the wait loop ends once `count` covers the
        request, which this step requires. */
    method Acquire(request: u32)
      requires count >= request
      modifies this
      ensures count == old(count) - request
    {
      count := count - request;
    }

    /** `release(request)`: add the permits and notify every waiter. */
    method Release(request: u32)
      modifies this
      ensures count == old(count) + request
    {
      count := count + request;
    }

    /** `try_acquire(request)`, which is also the first test of the timed
        `try_acquire0`. */
    method TryAcquire(request: u32) returns (r: bool)
      modifies this
      ensures r == (old(count) >= request)
      ensures count == if r then old(count) - request else old(count)
    {
      if count >= request {
        count := count - request;
        return true;
      }
      return false;
    }

    /** `try_acquire_until(request, t)` as written passes `true` where
        `try_acquire0` expects the permit count, so one turn of its wait loop
        is `TryAcquire0Woken` for one permit whatever `request` is: with a
        single permit free, a request for more succeeds and takes one. */
    method TryAcquireUntilAsWritten(request: u32, timedOut: bool) returns (done: bool, r: bool)
      modifies this
      ensures done == (timedOut || old(count) >= 1)
      ensures r == (!timedOut && old(count) >= 1)
      ensures count == if r then old(count) - 1 else old(count)
      ensures r && request > 1 ==> old(count) - count < request
    {
      done, r := TryAcquire0Woken(1, timedOut);
    }

    /** One turn of the timed wait loop of `try_acquire0`: a timed-out wait
        gives up without looking at `count`; otherwise the test is repeated.
        `done` is false while the caller keeps waiting. */
    method TryAcquire0Woken(request: u32, timedOut: bool) returns (done: bool, r: bool)
      modifies this
      ensures done == (timedOut || old(count) >= request)
      ensures r == (!timedOut && old(count) >= request)
      ensures count == if r then old(count) - request else old(count)
    {
      if timedOut {
        return true, false;
      }
      if count >= request {
        count := count - request;
        return true, true;
      }
      return false, false;
    }
  }
}
