# concurrency-cpp11 core, modelled in Dafny

This project models the sequential state behind four parts of a C++11
concurrency toolkit and proves properties of that model.

- **LRU caches.** `LRUCache` (util/lru_cache.h) and its duplicate `InMemoryLru`
  (util/in_memory_lru.h) are each a hash map plus an intrusive doubly linked
  recency list, with eviction of the least recently used entry once the size
  exceeds the capacity.
- **Fair semaphores.** The `WaitQueue` is a doubly linked FIFO of wait nodes
  with a free list ("cache") of spare nodes. The multi-permit
  `BasicQueuedSemaphore` of concurrency/semaphore.h adds a permit count and an
  ordered `request_record` of outstanding request sizes. The single-permit
  `BasicQueuedSemaphore` of concurrency/queued_semaphore.h and the plain
  condition-variable `Semaphore` are modelled too.
- **Reader-writer lock.** `SharedMutex` (concurrency/shared_mutex.h) keeps its
  whole state in one `uint_fast32_t` word: bit 31 means "a writer has
  entered", and bits 0-30 count the readers. The type may be wider than 32
  bits, but no bit above bit 31 is ever set, so a `u32` models it exactly.
- **Thread pool.** The bookkeeping of `Executor` (concurrency/executor.h):
  - the worker vector with its `worker_index` invariant;
  - swap-with-last removal into `dead_workers`;
  - the FIFO task queue;
  - the grow-on-submit rule, the shutdown flag and the termination test.

How the model is built:

- **Critical sections.** Every critical section under a primitive's lock is one
  method of a Dafny class whose fields are the primitive's fields.
- **Blocking waits.** A blocking wait splits a call into steps. Each step's
  `requires` is the condition under which the wait has ended. A timed-out wait
  is a separate step whose `requires` says the awaited condition does not hold.
- **Notifications.** A notification is returned as a value: a `Gate`, or a
  boolean "notify the termination waiters".
- **Ghost state.** Each class has ghost state saying what its links or bits
  mean, and a `Valid()` invariant that ties the two together:
  - the recency sequence `Order`;
  - the wait queue's `Queue`, `Flags` and `Cache`;
  - the semaphore's per-waiter `Requests`;
  - the reader and writer counts of `SharedMutex`;
  - the set of busy workers of `Executor`.

Modelling decisions:

- Both LRU classes are proved against one abstract cache, `LruSpec.Cache`: a
  recency sequence plus a map, with `Put`, `Touch`, `Erase` and `Evict`.
  - `LRUCache` keeps the link level: each map entry carries `parent`/`child`
    keys.
  - `InMemoryLru` keeps the list as the sequence of keys from head to tail.
    The pointer rewiring, identical in the two headers, is modelled once.
- The wait queue's nodes live in an arena (`nodes`) and are named by index.
  `new WaitNode()` appends to the arena. The `WaitQueue` of queued_semaphore.h
  is the same code as the one in semaphore.h, so one class `WaitQueues.WaitQueue`
  models both.
- The `std::map<unsigned int, size_t>` request record is an ascending list of
  (key, count) slots. Its meaning is a multiset.
- The shared mutex's masking operations are written as the arithmetic they
  amount to on a `u32`: `s & (1<<31)` is `s >= 2^31`, and `s & ((1<<31)-1)` is
  `s % 2^31`.
- The worker-side members of `Executor::Worker` take the calling worker as a
  parameter and are methods of `Executor`.
- The function-local `static int id` of `add_worker_locked` is an object
  `WorkerIds` shared by executors.
- Where the code departs from its evidently intended behaviour, the class
  members model the intended behaviour. The code as written is a separate
  `AsWritten` member, and each difference is a row under Findings. This
  concerns the `(int)` casts and the `int` minimum of the multi-permit
  semaphore, its timeout path, `SharedMutex::try_lock`, and the `shut` test of
  `submit`, which runs outside the lock.

## Model

| member | source | states |
|---|---|---|
| LruSpec.SizeIsLength | util/lru_cache.h:214-217 | when every stored key is listed exactly once, the map has as many entries as the list has nodes |
| LruSpec.TouchProperties | util/lru_cache.h:199-202 | moving a stored key to the head keeps the list and map in agreement, puts the key first followed by the other keys in their old order, and leaves the values alone |
| LruSpec.EraseProperties | util/lru_cache.h:125-134 | erasing keeps the agreement; an absent key changes nothing; a present key is removed from the list at its position (the rest keep their order) and from the map, which shrinks by one |
| LruSpec.PutWf | util/lru_cache.h:34-49 | every `set` keeps each stored key listed exactly once |
| LruSpec.PutWithinCapacity | util/lru_cache.h:40-43 | a cache within its capacity is still within it after `set` |
| LruSpec.PutNewKey | util/lru_cache.h:35-43 | a new key goes first; below capacity nothing is evicted; at capacity exactly the old tail is evicted; at capacity 0 the new entry is dropped at once |
| LruSpec.PutExistingKey | util/lru_cache.h:44-48 | a stored key gets the new value and moves to the head; the key set and the size are unchanged |
| LruSpec.CapacityOneEvicts | test/test_lru_cache.h:54-58 | with capacity 1, setting key 2 after key 1 leaves only key 2 |
| LruCache.Covered | util/lru_cache.h:214-217 | a list spelled out by the links, as long as the map, lists every stored key |
| LruCache.InsertedSpells | util/lru_cache.h:166-178 | linking an unlisted entry in at the head makes the links spell the list with that key in front, keeping the keys and values |
| LruCache.ReleasedSpells | util/lru_cache.h:184-197 | unlinking the entry at position `i` makes the links spell the list without it, keeping the keys and values |
| LruCache.LRUCache.ModelWf | util/lru_cache.h:214-217 | the invariant implies the abstract cache is well formed, with one value per entry |
| LruCache.LRUCache.constructor | util/lru_cache.h:21-23 | an empty map and list, with the capacity truncated to `uint32_t` |
| LruCache.LRUCache.Set | util/lru_cache.h:34-49 | the new state is `Put` of the old one |
| LruCache.LRUCache.Insert | util/lru_cache.h:35-43 | a new key is emplaced, linked in at the head, and the tail is evicted when over capacity: `Put` of the old state |
| LruCache.LRUCache.Overwrite | util/lru_cache.h:44-48 | the value is overwritten and the key moved to the head: `Put` of the old state |
| LruCache.LRUCache.Get | util/lru_cache.h:58-65 | a hit returns the stored value and touches the key; a miss returns none and changes nothing |
| LruCache.LRUCache.GetCopy | util/lru_cache.h:71-79 | a hit copies the value out and touches the key; a miss returns false and leaves the output and the cache alone |
| LruCache.LRUCache.GetMove | util/lru_cache.h:85-94 | a hit moves the value out and erases the key from list and map; a miss returns false and changes nothing |
| LruCache.LRUCache.GetCopyPointee | util/lru_cache.h:101-113 | a hit copies out the dereferenced value and touches the key; a miss returns false and changes nothing |
| LruCache.LRUCache.HasKey | util/lru_cache.h:118-120 | reports membership; the method has no `modifies`, so the recency order is unchanged |
| LruCache.LRUCache.Erase | util/lru_cache.h:125-134 | returns whether the key was stored; the new state is `Erase` of the old one |
| LruCache.LRUCache.EraseListed | util/lru_cache.h:130-132 | `list_release` then `mem.erase` of a listed key is `Erase` of the old state |
| LruCache.LRUCache.Clear | util/lru_cache.h:139-143 | an empty map and an empty list |
| LruCache.LRUCache.ListInsertHead | util/lru_cache.h:166-178 | the list becomes the key followed by the old list; keys and values unchanged; links stay consistent with head and tail |
| LruCache.LRUCache.ListRelease | util/lru_cache.h:184-197 | the list loses exactly that key at its position; keys and values unchanged; links stay consistent |
| LruCache.LRUCache.ListMoveToHead | util/lru_cache.h:199-202 | the key is unlinked and relinked at the head |
| LruCache.LRUCache.Gc1 | util/lru_cache.h:207-212 | the new state is `Evict` of the old one: exactly the list tail leaves list and map |
| InMemoryLruCache.InMemoryLru.constructor | util/in_memory_lru.h:19-21 | an empty cache, with the capacity truncated to `uint32_t` |
| InMemoryLruCache.InMemoryLru.Set | util/in_memory_lru.h:32-47 | the new state is `Put` of the old one, and every key stays listed exactly once within capacity |
| InMemoryLruCache.InMemoryLru.Get | util/in_memory_lru.h:54-61 | a hit returns the value and touches the key; a miss returns none and changes nothing |
| InMemoryLruCache.InMemoryLru.GetCopy | util/in_memory_lru.h:67-75 | a hit copies the value out and touches the key; a miss returns false and changes nothing |
| InMemoryLruCache.InMemoryLru.GetMove | util/in_memory_lru.h:81-90 | a hit moves the value out and erases the key; a miss returns false and changes nothing |
| InMemoryLruCache.InMemoryLru.GetCopyPointee | util/in_memory_lru.h:98-109 | a hit copies out the dereferenced value and touches the key; a miss changes nothing |
| InMemoryLruCache.InMemoryLru.Erase | util/in_memory_lru.h:114-123 | returns whether the key was stored; the new state is `Erase` of the old one |
| InMemoryLruCache.InMemoryLru.Clear | util/in_memory_lru.h:128-132 | an empty cache |
| InMemoryLruCache.InMemoryLru.ListInsertHead | util/in_memory_lru.h:155-167 | an unlisted key is put in front of the list |
| InMemoryLruCache.InMemoryLru.ListRelease | util/in_memory_lru.h:173-186 | the key is removed from the list at its position; the map is unchanged |
| InMemoryLruCache.InMemoryLru.ListMoveToHead | util/in_memory_lru.h:188-191 | the key is unlinked and put in front |
| InMemoryLruCache.InMemoryLru.Gc1 | util/in_memory_lru.h:196-201 | the new state is `Evict` of the old one |
| MachineInt.TruncateU32 | util/lru_cache.h:21-22 | the `size_t` to `uint32_t` initialisation keeps values below 2^32 and agrees with the argument modulo 2^32 |
| MachineInt.Int32Of | concurrency/semaphore.h:265 | the `(int)` conversion lands in the `int` range, agrees with its argument modulo 2^32, and keeps values already in range |
| WaitQueues.Partition | concurrency/semaphore.h:251-257 | every arena node is in exactly one of the queue and the cache |
| WaitQueues.AllocArena | concurrency/semaphore.h:242-248 | a fresh node pushed on the cache keeps both lists linked and disjoint |
| WaitQueues.EnqueueArena | concurrency/semaphore.h:152-172 | moving the cache head behind the tail gives a linked queue one longer (not wakeable) and a cache one shorter |
| WaitQueues.EnqueueEnds | concurrency/semaphore.h:159-168 | the cache head has no `prev`, its `next` is the next cached node, and the tail is a valid node |
| WaitQueues.RemoveArena | concurrency/semaphore.h:185-209 | unlinking queue position `i` and pushing that node on the cache keeps both lists linked and disjoint |
| WaitQueues.RemovedQueuedOk | concurrency/semaphore.h:185-209 | after the unlink, each remaining queued node links to its new neighbours |
| WaitQueues.RemoveEnds | concurrency/semaphore.h:185-209 | what `remove` reads: the node's neighbours, whether it is head or tail, and the new head and tail |
| WaitQueues.WakeArena | concurrency/semaphore.h:214-220 | setting `wakeable` on the head keeps the arena linked and flags only the head |
| WaitQueues.WakeableIsHead | concurrency/semaphore.h:272-275 | when only the head can be wakeable, a woken waiter is the head, so `dequeue` removes the caller's node |
| WaitQueues.RemoveKeepsHeadOnly | concurrency/semaphore.h:283-287 | unlinking any node keeps only the head possibly wakeable |
| WaitQueues.WaitQueue.constructor | concurrency/semaphore.h:128-130 | an empty queue and a cache of 256 nodes |
| WaitQueues.WaitQueue.AllocCache | concurrency/semaphore.h:242-248 | `cur_queue_capacity` new nodes are pushed onto the cache, newest first; the queue is unchanged |
| WaitQueues.WaitQueue.Enqueue | concurrency/semaphore.h:152-172 | appends a non-wakeable node at the tail, keeping the earlier order; it takes the cache head when the cache is not empty; only an empty cache is refilled, and then the refill size doubles |
| WaitQueues.WaitQueue.TakeCached | concurrency/semaphore.h:159-171 | the cache head leaves the cache and becomes the new tail |
| WaitQueues.WaitQueue.LinkAtTail | concurrency/semaphore.h:162-170 | the node is cleared and linked behind the tail, or it becomes head and tail of an empty queue |
| WaitQueues.WaitQueue.Remove | concurrency/semaphore.h:185-209 | none is a no-op; a queued node leaves the queue at its position (the others keep their order) and goes to the front of the cache |
| WaitQueues.WaitQueue.LinkNeighbours | concurrency/semaphore.h:198-203 | the removed node's `prev` and `next` are linked to each other |
| WaitQueues.WaitQueue.Dequeue | concurrency/semaphore.h:177-179 | the head leaves the queue for the cache; an empty queue is unchanged |
| WaitQueues.WaitQueue.WakeHead | concurrency/semaphore.h:214-220 | only the head's flag is set; an empty queue is unchanged |
| WaitQueues.WaitQueue.IsEmpty | concurrency/semaphore.h:222-224 | true exactly when the queue is empty |
| WaitQueues.WaitQueue.NumWaitingNodes | concurrency/semaphore.h:226-238 | walking `next` from the head counts exactly the queue length |
| RequestRecords.BagBelow | concurrency/semaphore.h:342 | in an ordered record, a key below the first key has count 0 |
| RequestRecords.InsertWf | concurrency/semaphore.h:311-318 | insert keeps the keys ascending with positive counts; the first key becomes the smaller of the new key and the old first key |
| RequestRecords.InsertBag | concurrency/semaphore.h:311-318 | insert adds one occurrence of the request to the multiset |
| RequestRecords.RemoveWf | concurrency/semaphore.h:320-329 | remove keeps the record ordered, and the first key never decreases |
| RequestRecords.RemoveBag | concurrency/semaphore.h:320-329 | remove takes one occurrence of the request out of the multiset (none if absent) |
| RequestRecords.MinIsLeast | concurrency/semaphore.h:331-337 | the first key is the least outstanding request; the record is empty exactly when the multiset is, and then the result is 0 |
| RequestRecords.InsertThenRemove | concurrency/semaphore.h:311-329 | insert followed by remove of the same key gives the record back |
| RequestRecords.RemoveAbsent | concurrency/semaphore.h:320-329 | removing an unrecorded key leaves the record unchanged |
| Semaphores.SatisfiableWaiterPassesMin | concurrency/semaphore.h:47-53 | if any waiter's request fits in the permits, the least recorded request fits too |
| Semaphores.FastPathAsWritten | concurrency/semaphore.h:265-268 | the fast path with the `(int)` cast and 32-bit wrap, as written |
| Semaphores.WakeTestAsWritten | concurrency/semaphore.h:331-337 | the wake-up test as written agrees with `permits >= min` for a minimum below 2^31, and compares with the minimum minus 2^32 otherwise |
| Semaphores.HugeMinWakesAsWritten | concurrency/semaphore.h:331-337 | one recorded request of 2^31 converts to the minimum -2^31, so one permit passes the wake-up test as written |
| Semaphores.HugeRequestGrantedAsWritten | concurrency/semaphore.h:265-267 | a request of 2^31 on zero permits is granted and leaves -2^31 permits |
| Semaphores.BasicQueuedSemaphore.constructor | concurrency/semaphore.h:26-28 | the initial permits, an empty queue and an empty record |
| Semaphores.BasicQueuedSemaphore.RequestRecordInsert | concurrency/semaphore.h:311-318 | the recorded multiset gains the request |
| Semaphores.BasicQueuedSemaphore.RequestRecordRemove | concurrency/semaphore.h:320-329 | the recorded multiset loses one occurrence of the request |
| Semaphores.BasicQueuedSemaphore.RequestRecordMin | concurrency/semaphore.h:331-337 | returns 0 when nothing is recorded, else the least recorded request, unconverted (the `int` conversion is a row under Findings) |
| Semaphores.BasicQueuedSemaphore.Release | concurrency/semaphore.h:47-53 | permits grow by exactly the request; the head is woken iff the queue is non-empty and the permits reach the least recorded request, compared unconverted as the Findings row on `request_record_min` intends; whenever some waiter's request fits, the head is woken |
| Semaphores.BasicQueuedSemaphore.TryAcquire | concurrency/semaphore.h:62-70 | succeeds iff permits cover the request, then subtracts exactly it; otherwise nothing changes |
| Semaphores.BasicQueuedSemaphore.Acquire0Enter | concurrency/semaphore.h:264-271 | grants at once iff the permits suffice and nobody waits; otherwise records the request and enqueues a non-wakeable node with permits unchanged |
| Semaphores.BasicQueuedSemaphore.Register | concurrency/semaphore.h:270-273 | records the request and enqueues the caller's node |
| Semaphores.BasicQueuedSemaphore.Acquire0Woken | concurrency/semaphore.h:272-279 | the woken caller is the head and leaves the queue; with enough permits it is granted (record entry retracted, permits reduced by the request, wake-up passed on iff permits reach the new minimum); otherwise it queues up again at the tail and sets no flag, so a waiter behind it whose request the permits cover stays asleep until the next release |
| Semaphores.BasicQueuedSemaphore.Grant | concurrency/semaphore.h:295-306 | retracts the record entry, subtracts the request, wakes the head iff the permits reach the new unconverted minimum, and permits stay non-negative (the `std::terminate` branch is unreachable) |
| Semaphores.BasicQueuedSemaphore.Requeue | concurrency/semaphore.h:272-274 | the caller gets a new node at the tail and stays recorded |
| Semaphores.BasicQueuedSemaphore.Acquire0TimedOut | concurrency/semaphore.h:283-288 | the caller's node leaves the queue at its position with permits unchanged, and its record entry is retracted |
| Semaphores.BasicQueuedSemaphore.Acquire0TimedOutAsWritten | concurrency/semaphore.h:283-288 | as written, the node leaves the queue at its position with its flag, the queue stays valid with only the head wakeable, the permits are unchanged, but the record still counts the request |
| Semaphores.StaleRecordAfterTimeout | concurrency/semaphore.h:331-337 | after the only waiter for 1 permit has timed out, the unchanged record still has minimum 1 |
| Semaphores.Semaphore.constructor | concurrency/semaphore.h:349-351 | the initial count |
| Semaphores.Semaphore.Acquire | concurrency/semaphore.h:360-366 | once the count covers the request, subtracts exactly it |
| Semaphores.Semaphore.Release | concurrency/semaphore.h:372-378 | adds exactly the request |
| Semaphores.Semaphore.TryAcquire | concurrency/semaphore.h:384-392 | succeeds iff the count covers the request, then subtracts exactly it; otherwise nothing changes |
| Semaphores.Semaphore.TryAcquireUntilAsWritten | concurrency/semaphore.h:423-426 | as written, a turn of the timed wait asks for one permit whatever the request: it succeeds iff not timed out and a permit is free, takes exactly one, and so takes fewer than a request above 1 |
| Semaphores.Semaphore.TryAcquire0Woken | concurrency/semaphore.h:434-445 | a timed-out wait gives up with the count unchanged; otherwise it succeeds iff the count covers the request, and keeps waiting if not |
| QueuedSemaphores.BasicQueuedSemaphore.constructor | concurrency/queued_semaphore.h:168-170 | the initial permits and an empty queue |
| QueuedSemaphores.BasicQueuedSemaphore.Release | concurrency/queued_semaphore.h:176-180 | exactly one more permit, and the head (if any) is woken |
| QueuedSemaphores.BasicQueuedSemaphore.TryAcquire | concurrency/queued_semaphore.h:185-193 | succeeds iff a permit is free, then takes exactly one; otherwise nothing changes |
| QueuedSemaphores.BasicQueuedSemaphore.Acquire0Enter | concurrency/queued_semaphore.h:204-213 | grants iff a permit is free and nobody waits; otherwise enqueues a non-wakeable node |
| QueuedSemaphores.BasicQueuedSemaphore.Acquire0Woken | concurrency/queued_semaphore.h:211-218 | the woken caller is the head and leaves; with a permit free it takes one and wakes the next head iff a permit remains, else it queues up again; permits never go negative |
| QueuedSemaphores.BasicQueuedSemaphore.Acquire0TimedOut | concurrency/queued_semaphore.h:222-229 | the caller's node is unlinked at its position and permits are unchanged |
| ReaderWriter.EncodeDecode | concurrency/shared_mutex.h:87-88 | the word is exactly a writer flag plus a reader count of at most 2^31 - 1, in both directions |
| ReaderWriter.AddReader | concurrency/shared_mutex.h:54-60 | `state += 1` past an open reader gate adds one reader and never carries into the writer bit |
| ReaderWriter.DropReader | concurrency/shared_mutex.h:62-66 | `state -= 1` with a reader present removes one reader and keeps the writer bit |
| ReaderWriter.SetWriter | concurrency/shared_mutex.h:26-30 | `|=` sets the writer bit and keeps the reader count |
| ReaderWriter.ClearWriter | concurrency/shared_mutex.h:37-43 | `&= ~` clears the writer bit and keeps the reader count |
| ReaderWriter.TryLockAsWritten | concurrency/shared_mutex.h:45-52 | `try_lock` as written: success on an idle word, word left unchanged |
| ReaderWriter.TryLockLeavesGatesOpen | concurrency/shared_mutex.h:45-52 | after a successful `try_lock` as written, the reader gate is still open and no writer is recorded |
| ReaderWriter.SharedMutex.constructor | concurrency/shared_mutex.h:101-103 | the word is 0: no writer, no readers |
| ReaderWriter.SharedMutex.LockEnter | concurrency/shared_mutex.h:26-30 | once no writer has entered, sets the writer bit; at most one writer has entered |
| ReaderWriter.SharedMutex.LockComplete | concurrency/shared_mutex.h:31-35 | once the reader count is 0, the entered writer holds the lock exclusively |
| ReaderWriter.SharedMutex.Unlock | concurrency/shared_mutex.h:37-43 | clears only the writer bit (the count is 0, so the word is 0) and notifies the reader gate |
| ReaderWriter.SharedMutex.TryLock | concurrency/shared_mutex.h:45-52 | succeeds iff the inner lock was obtained and the word is 0, and then sets the writer bit and holds the lock exclusively; otherwise nothing changes |
| ReaderWriter.SharedMutex.LockShared | concurrency/shared_mutex.h:54-60 | once no writer has entered and the count is below the mask, adds one reader |
| ReaderWriter.SharedMutex.TryLockShared | concurrency/shared_mutex.h:75-84 | the same guard without waiting: success adds a reader, failure changes nothing |
| ReaderWriter.SharedMutex.UnlockShared | concurrency/shared_mutex.h:62-73 | removes one reader; notifies the writer gate iff a writer has entered and the count became 0, else the reader gate iff the count became `NUM_READER_MASK - 1` |
| ThreadPool.WorkerIds.constructor | concurrency/executor.h:294 | the counter starts at 1 |
| ThreadPool.Worker.constructor | concurrency/executor.h:177-181 | a worker with its core flag, index and id |
| ThreadPool.Executor.ActiveWithinPool | concurrency/executor.h:89-90 | `active_count` never exceeds the pool size, so `workers.size() - active_count` cannot wrap |
| ThreadPool.Executor.constructor | concurrency/executor.h:52-60 | `core_pool_size` core workers with indices 0.. and ids from the counter; empty queue, not shut, none active |
| ThreadPool.Executor.AddWorkerLocked | concurrency/executor.h:293-296 | appends a fresh worker whose index is the old size and whose id is larger than every live worker's id; the index invariant holds |
| ThreadPool.Executor.RemoveSelfLocked | concurrency/executor.h:237-243 | the last worker takes the leaver's slot and its index is fixed; the leaver moves to `dead_workers`; the vector loses exactly the leaver; the index invariant holds |
| ThreadPool.Executor.IsTerminatedLocked | concurrency/executor.h:298-300 | true iff shut, the queue is empty and no workers are left |
| ThreadPool.Executor.ReapDeadWorkersLocked | concurrency/executor.h:302-311 | `dead_workers` becomes empty; nothing else changes |
| ThreadPool.Executor.FetchTaskLocked | concurrency/executor.h:207-231 | a non-empty queue yields its front task and loses exactly that one; an empty queue yields none, which after a core worker's wait means the pool is shut |
| ThreadPool.Executor.ShouldExit | concurrency/executor.h:249-251 | the worker leaves its loop iff the pool is shut and the queue is empty |
| ThreadPool.Executor.StartTask | concurrency/executor.h:258 | one more busy worker, counted by `active_count`; the workers, both queues and `shut` are unchanged |
| ThreadPool.Executor.FinishTask | concurrency/executor.h:263-264 | exited workers are reaped and the worker is no longer busy |
| ThreadPool.Executor.WorkerExit | concurrency/executor.h:268-279 | the worker is removed into `dead_workers`; the task queue, `shut` and the busy workers are unchanged; `wait_cv` is notified iff the pool is now terminated, that is iff it was shut with an empty queue and the leaver was the last worker |
| ThreadPool.Executor.Submit | concurrency/executor.h:75-97 | refused iff shut, without touching queue or workers; otherwise the task goes to the back, and one non-core worker is added iff none is idle and the pool is below `max_pool_size`; `dead_workers` and the busy workers are unchanged; a terminated pool stays terminated |
| ThreadPool.Executor.SubmitAsWritten | concurrency/executor.h:78-95 | refused iff the early read saw `shut`, leaving queue and workers alone; otherwise the task is appended and the grow rule of `Submit` applies; `dead_workers`, `shut` and the busy workers are unchanged; with a stale `false` read, a terminated pool takes the task and spawns a worker, so it is no longer terminated |
| ThreadPool.Executor.Enqueue | concurrency/executor.h:87-95 | the task goes to the back; the pool grows by one non-core worker iff no worker is idle and it is below `max_pool_size`; `dead_workers` and the busy workers are unchanged |
| ThreadPool.Executor.Shutdown | concurrency/executor.h:101-111 | sets `shut`, changes nothing else, and notifies `wait_cv` iff the pool is terminated, else `cv` |
| ThreadPool.SwapRemove | concurrency/executor.h:239-242 | swap-with-back then `pop_back` leaves the other positions alone and puts the last element at the vacated one |
| ThreadPool.SwapRemoveMultiset | concurrency/executor.h:239-242 | swap-and-pop removes exactly one occurrence of the element at the slot |
| ThreadPool.SwapRemoveKeeps | concurrency/executor.h:239-242 | every other element is still present |

## Left out

- Condition variables, `notify_*`, `std::chrono` deadlines and the detection of a timeout are left out. A wait is a step's precondition. A notification is a returned value. A timeout is a separate step taken while the awaited condition does not hold.
- `BlockingLRUCache` (util/lru_cache.h:227-278) only wraps `LRUCache` in a mutex.
- The `Hash`/`Eql` template parameters are left out: keys use Dafny equality.
- Value moves and copies of the LRU caches are assignments.
- InMemoryLru.ListInsertHead / ListRelease: the `parent`/`child` rewiring of util/in_memory_lru.h:155-186 is not modelled separately, because it is the same text as in util/lru_cache.h, which is modelled at link level.
- The destructors and `delete` of wait nodes are left out, because the arena never frees.
- The `available_permits` observers (concurrency/semaphore.h:106-109, 428-431) are left out; each only reads a field under the lock.
- The `try_acquire_until` overloads of the multi-permit semaphore at concurrency/semaphore.h:96-104 are left out. They pass a pointer where a reference is expected, or two arguments to the three-parameter `try_acquire0`, so they would not compile if instantiated. The `Semaphore` overload at :423-426 does compile, and is a row under Findings.
- Semaphores.BasicQueuedSemaphore.Release: `permits += request` on an `int` with an `unsigned` operand is kept unbounded; the 32-bit wrap on release is not modelled.
- The comparison of `try_acquire` at concurrency/semaphore.h:64 converts `permits` to `unsigned`. This agrees with the model's `permits >= request` because `Valid()` keeps the permits non-negative. A negative count would compare as a huge unsigned value; the constructor's `requires` excludes it.
- Semaphores.Semaphore.Acquire: `count` is an `int32_t` but is kept unbounded, and the `(int)` cast at concurrency/semaphore.h:362 is not modelled.
- Semaphores.Semaphore.Release: the `int32_t` wrap of `count += request` at concurrency/semaphore.h:375 is not modelled.
- Semaphores.Semaphore.TryAcquire: the `(int)` cast at concurrency/semaphore.h:386 is not modelled.
- Semaphores.Semaphore.TryAcquire0Woken: the `(int)` cast at concurrency/semaphore.h:438 is not modelled.
- Semaphores.BasicQueuedSemaphore.constructor: requires non-negative initial permits, as the design assumes. The source accepts any `int`.
- QueuedSemaphores.BasicQueuedSemaphore.constructor: requires non-negative initial permits, as the design assumes.
- WaitQueues.WaitQueue.Enqueue: the doubling `cur_queue_capacity <<= 1` on a `size_t` is kept unbounded.
- ThreadPool.Executor.AddWorkerLocked: the `static int id` counter is kept unbounded; its overflow after 2^31 workers is not modelled.
- Threads, `std::thread`, `join` (only the clearing of `dead_workers` is kept), `std::packaged_task` and futures are left out.
- The running of a task is left out; it is the time between `StartTask` and `FinishTask`.
- `await_termination*`, `get_pool_size`, `get_active_count`, `is_shutdown` and `is_terminated` are left out: they read state under the lock or read atomics.
- The destructor, `timeout_nanoseconds` and the `reserve` calls of `Executor` are left out. A non-core worker's timed-out wait is `FetchTaskLocked` with `waited` set and no precondition.
- Everything in latch.h, spin_lock.h, pthread_wrapper/, util/bits/, util/util.h, test/ and main.cpp is left out. These are synchronisation primitives built on atomics, wrappers of foreign calls, template plumbing, and thread-spawning test harnesses.

## Findings

| source | as written | input that shows it | evidently intended | confidence | as-written member | corrected member |
|---|---|---|---|---|---|---|
| concurrency/semaphore.h:283-288 | on timeout the node is removed and `false` is returned, but `request_record_remove` is never called | one waiter for 1 permit times out: the record still holds 1, so the minimum stays 1 with nobody waiting, and later releases compare against a stale minimum | retract the record entry on timeout, as the design says (the registration is fully retracted) | not executed | Semaphores.BasicQueuedSemaphore.Acquire0TimedOutAsWritten, Semaphores.StaleRecordAfterTimeout | Semaphores.BasicQueuedSemaphore.Acquire0TimedOut |
| concurrency/semaphore.h:265 | `permits >= (int) request` casts an `unsigned` request to `int` (also at 276 and 290) | permits 0, empty queue, request 2^31: the cast gives -2^31, the request is granted and permits become -2^31; on the woken path (276, 290) the same request passes the test, permits go negative and the `std::terminate` at 303-305 fires | compare without the cast, so a request larger than the permits is never granted | not executed | Semaphores.FastPathAsWritten, Semaphores.HugeRequestGrantedAsWritten | Semaphores.BasicQueuedSemaphore.Acquire0Enter, Semaphores.BasicQueuedSemaphore.Acquire0Woken |
| concurrency/semaphore.h:331-337 | `request_record_min` returns its `unsigned` key as an `int`, and `release` (line 50) and the end of `try_acquire0` (line 300) compare `permits` with that `int` | permits 0, the head waits for 2^31, then `release(1)`: the minimum converts to -2^31, so 1 >= -2^31 wakes the head although its request is not covered | compare with the unconverted minimum, so the head is woken only when the permits cover the smallest request | not executed | Semaphores.WakeTestAsWritten, Semaphores.HugeMinWakesAsWritten | Semaphores.BasicQueuedSemaphore.Release, Semaphores.BasicQueuedSemaphore.Grant |
| concurrency/semaphore.h:423-426 | `Semaphore::try_acquire_until(request, t)` calls `try_acquire0(true, timeout_time)`, and `true` becomes the permit count 1 | count 1, `try_acquire_until(5, t)`: the first test passes, the call returns `true` and takes one permit instead of five | pass `request` as the permit count | not executed | Semaphores.Semaphore.TryAcquireUntilAsWritten | Semaphores.Semaphore.TryAcquire0Woken |
| concurrency/shared_mutex.h:45-52 | `try_lock` returns `true` on an idle word but never sets the writer bit | `try_lock` with the inner lock obtained on state 0: it succeeds, the word stays 0, and `lock_shared` and `lock` can still enter | set the writer bit on success, as `lock` does | not executed | ReaderWriter.TryLockAsWritten, ReaderWriter.TryLockLeavesGatesOpen | ReaderWriter.SharedMutex.TryLock |
| concurrency/executor.h:78-80 | `shut` is tested before `main_lock` is taken | a `submit` reads `shut == false`, then `shutdown` runs on a pool with no workers and an empty queue (or its last worker then exits), so the pool is terminated when the `submit` takes the lock: the task is queued and a worker spawned after termination | test `shut` under `main_lock` (the design says a submit after shutdown never enqueues) | not executed | ThreadPool.Executor.SubmitAsWritten | ThreadPool.Executor.Submit |
