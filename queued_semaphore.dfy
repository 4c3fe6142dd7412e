/**
 * concurrency/queued_semaphore.h: the earlier, single-permit fair semaphore.
 * Every acquire asks for one permit, there is no request record, and a
 * release always wakes the head. Its `WaitQueue` is the same code as the one
 * in semaphore.h and is the class of `WaitQueues`. As in `Semaphores`, a
 * blocking call is split into its critical sections.
 */
module QueuedSemaphores {
  import opened Options
  import opened Lists
  import opened WaitQueues

  class BasicQueuedSemaphore {
    var permits: int
    const queue: WaitQueue

    ghost predicate Valid()
      reads this, queue
    {
      queue.Valid() && HeadOnlyWakeable(queue.Flags) && permits >= 0
    }

    constructor (initialPermits: int)
      requires initialPermits >= 0
      ensures Valid() && fresh(queue)
      ensures permits == initialPermits && queue.Queue == []
    {
      permits := initialPermits;
      queue := new WaitQueue();
    }

    /** `release()`: one more permit, and the head (if any) is woken. */
    method Release()
      requires Valid()
      modifies this, queue
      ensures Valid()
      ensures permits == old(permits) + 1
      ensures queue.Queue == old(queue.Queue)
      ensures queue.Flags == if old(queue.Queue) == [] then old(queue.Flags) else old(queue.Flags)[0 := true]
    {
      permits := permits + 1;
      queue.WakeHead();
    }

    /** `try_acquire()`: take a permit if there is one, waiters or not. */
    method TryAcquire() returns (r: bool)
      requires Valid()
      modifies this
      ensures Valid()
      ensures r == (old(permits) >= 1)
      ensures permits == if r then old(permits) - 1 else old(permits)
    {
      if permits >= 1 {
        permits := permits - 1;
        return true;
      }
      return false;
    }

    /** Entry of `try_acquire0`: the fast path when a permit is free and nobody
        waits; otherwise enqueue a node. */
    method Acquire0Enter() returns (granted: bool, node: Option<nat>)
      requires Valid()
      modifies this, queue
      ensures Valid()
      ensures granted == (old(permits) >= 1 && old(queue.Queue) == [])
      ensures granted ==> node == None && permits == old(permits) - 1 && unchanged(queue)
      ensures !granted ==>
        && node.Some? && permits == old(permits)
        && queue.Queue == old(queue.Queue) + [node.value]
        && queue.Flags == old(queue.Flags) + [false]
    {
      var empty := queue.IsEmpty();
      if permits >= 1 && empty {
        permits := permits - 1;
        return true, None;
      }
      var n := queue.Enqueue();
      granted, node := false, Some(n);
    }

    /** One turn of the acquire loop after the caller's node became wakeable:
        leave the queue; with a permit free take it and wake the next head if
        another is left; else queue up again at the tail. */
    method Acquire0Woken(node: nat) returns (granted: bool, next: Option<nat>)
      requires Valid()
      requires node in queue.Queue && queue.Flags[IndexOf(queue.Queue, node)]
      modifies this, queue
      ensures Valid()
      ensures old(queue.Queue)[0] == node
      ensures granted == (old(permits) >= 1)
      ensures granted ==>
        && next == None && permits == old(permits) - 1
        && queue.Queue == old(queue.Queue)[1..]
        && queue.Flags ==
          (if |old(queue.Queue)| > 1 && permits >= 1 then old(queue.Flags)[1..][0 := true]
           else old(queue.Flags)[1..])
      ensures !granted ==>
        && next.Some? && permits == old(permits)
        && queue.Queue == old(queue.Queue)[1..] + [next.value]
        && queue.Flags == old(queue.Flags)[1..] + [false]
    {
      WakeableIsHead(queue.Queue, queue.Flags, node);
      queue.Dequeue();
      if permits >= 1 {
        permits := permits - 1;
        if permits >= 1 {
          queue.WakeHead();
        }
        if permits < 0 {
          assert false;
        }
        return true, None;
      }
      var n := queue.Enqueue();
      granted, next := false, Some(n);
    }

    /** The timed wait ran out while the caller's node was not wakeable:
        unlink the node. */
    method Acquire0TimedOut(node: nat)
      requires Valid()
      requires node in queue.Queue && !queue.Flags[IndexOf(queue.Queue, node)]
      modifies this, queue
      ensures Valid()
      ensures var i := IndexOf(old(queue.Queue), node);
        && queue.Queue == RemoveAt(old(queue.Queue), i)
        && queue.Flags == RemoveAt(old(queue.Flags), i)
      ensures permits == old(permits)
    {
      RemoveKeepsHeadOnly(queue.Flags, IndexOf(queue.Queue, node));
      queue.Remove(Some(node));
    }
  }
}
