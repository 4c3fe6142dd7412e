/**
 * concurrency/executor.h: the bookkeeping of `Executor`, a thread pool with
 * a FIFO task queue, a vector of live workers and a vector of exited workers
 * waiting to be joined. Each method is one critical section under
 * `main_lock`. The threads themselves, the tasks' bodies and their futures
 * are not modelled; a running task is a worker in the ghost set `Busy`.
 * The worker-side members of the source (`Worker::fetch_task_locked`,
 * `Worker::remove_self_locked`, the steps of `Worker::run`) are methods of
 * `Executor` that take the calling worker.
 */
module ThreadPool {
  import opened Options
  import opened Lists

  /** The `static int id` counter of `add_worker_locked`, shared by every
      executor. */
  class WorkerIds {
    var next: int

    constructor ()
      ensures next == 1
    {
      next := 1;
    }
  }

  class Worker {
    const core: bool
    var workerIndex: nat
    const id: int

    constructor (core: bool, workerIndex: nat, id: int)
      ensures this.core == core && this.workerIndex == workerIndex && this.id == id
    {
      this.core := core;
      this.workerIndex := workerIndex;
      this.id := id;
    }
  }

  /** The answer of `submit`: a queued task, or the `permission_denied`
      error it throws once the pool is shut down. */
  datatype Submitted = Accepted | PermissionDenied

  class Executor<T> {
    const corePoolSize: nat
    const maxPoolSize: nat
    const ids: WorkerIds
    var taskQueue: seq<T>
    var workers: seq<Worker>
    var deadWorkers: seq<Worker>
    var shut: bool
    var activeCount: nat
    /** The workers running a task. */
    ghost var Busy: set<Worker>

    /** Every live worker knows its own index and has an id below the
        counter; the busy workers are live and `active_count` counts them. */
    ghost predicate Valid()
      reads this, ids, workers
    {
      && (forall i :: 0 <= i < |workers| ==> workers[i].workerIndex == i)
      && (forall i :: 0 <= i < |workers| ==> workers[i].id < ids.next)
      && (forall w :: w in Busy ==> w in workers)
      && activeCount == |Busy|
    }

    /** `is_terminated_locked`. */
    predicate Terminated()
      reads this
    {
      shut && taskQueue == [] && workers == []
    }

    /** The index invariant makes the workers distinct, so `active_count`
        never exceeds the pool size and `workers.size() - active_count`
        cannot wrap. */
    lemma ActiveWithinPool()
      requires Valid()
      ensures activeCount <= |workers|
    {
      assert Distinct(workers) by {
        forall i, j | 0 <= i < j < |workers| ensures workers[i] != workers[j] {
          assert workers[i].workerIndex == i && workers[j].workerIndex == j;
        }
      }
      DistinctCardinality(workers);
      SubsetCard(Busy, set w | w in workers);
    }

    /** The constructor starts `core_pool_size` core workers. */
    constructor (corePoolSize: nat, maxPoolSize: nat, ids: WorkerIds)
      modifies ids
      ensures Valid() && this.ids == ids
      ensures this.corePoolSize == corePoolSize && this.maxPoolSize == maxPoolSize
      ensures |workers| == corePoolSize && forall i :: 0 <= i < |workers| ==> workers[i].core
      ensures taskQueue == [] && deadWorkers == [] && !shut && activeCount == 0 && Busy == {}
      ensures ids.next == old(ids.next) + corePoolSize
    {
      this.corePoolSize := corePoolSize;
      this.maxPoolSize := maxPoolSize;
      this.ids := ids;
      taskQueue := [];
      workers := [];
      deadWorkers := [];
      shut := false;
      activeCount := 0;
      Busy := {};
      new;
      var i := 0;
      while i < corePoolSize
        invariant 0 <= i <= corePoolSize
        invariant Valid() && |workers| == i
        invariant forall j :: 0 <= j < |workers| ==> workers[j].core
        invariant taskQueue == [] && deadWorkers == [] && !shut && activeCount == 0 && Busy == {}
        invariant ids.next == old(ids.next) + i
      {
        AddWorkerLocked(true);
        i := i + 1;
      }
    }

    /** `add_worker_locked(core)`: append a new worker that knows its index
        and takes the next id. */
    method AddWorkerLocked(core: bool)
      requires Valid()
      modifies this, ids
      ensures Valid()
      ensures |workers| == old(|workers|) + 1 && workers[..old(|workers|)] == old(workers)
      ensures fresh(workers[old(|workers|)])
      ensures workers[old(|workers|)].core == core && workers[old(|workers|)].id == old(ids.next)
      ensures forall i :: 0 <= i < old(|workers|) ==> workers[i].id < workers[old(|workers|)].id
      ensures ids.next == old(ids.next) + 1
      ensures taskQueue == old(taskQueue) && deadWorkers == old(deadWorkers)
      ensures shut == old(shut) && activeCount == old(activeCount) && Busy == old(Busy)
    {
      var w := new Worker(core, |workers|, ids.next);
      ids.next := ids.next + 1;
      workers := workers + [w];
    }

    /** `Worker::remove_self_locked`: swap the worker with the last one, fix
        the moved worker's index, and move the worker to `dead_workers`. */
    method RemoveSelfLocked(w: Worker)
      requires Valid() && w in workers && w !in Busy
      modifies this, workers[|workers| - 1]
      ensures Valid()
      ensures workers == SwapRemove(old(workers), old(w.workerIndex))
      ensures multiset(workers) == multiset(old(workers)) - multiset{w}
      ensures deadWorkers == old(deadWorkers) + [w]
      ensures taskQueue == old(taskQueue) && shut == old(shut)
      ensures activeCount == old(activeCount) && Busy == old(Busy)
    {
      ghost var k :| 0 <= k < |workers| && workers[k] == w;
      var i := w.workerIndex;
      assert i == k;
      var n := |workers| - 1;
      var last := workers[n];
      ghost var before := workers;
      SwapRemoveMultiset(before, i);
      SwapRemoveKeeps(before, i);
      var rest := SwapRemove(workers, i);
      assert forall j :: 0 <= j < n && j != i ==> rest[j] == before[j] && rest[j].workerIndex == j;
      deadWorkers := deadWorkers + [w];
      workers := rest;
      last.workerIndex := i;
      assert i < n ==> workers[i] == last;
    }

    /** `is_terminated_locked`. */
    method IsTerminatedLocked() returns (r: bool)
      ensures r == Terminated()
      ensures r ==> shut && taskQueue == [] && |workers| == 0
    {
      r := shut && taskQueue == [] && workers == [];
    }

    /** `reap_dead_workers_locked`: every exited worker is joined (the join
        is not modelled) and the list is cleared. */
    method ReapDeadWorkersLocked()
      modifies this
      ensures deadWorkers == []
      ensures workers == old(workers) && taskQueue == old(taskQueue) && shut == old(shut)
      ensures activeCount == old(activeCount) && Busy == old(Busy)
    {
      deadWorkers := [];
    }

    /** `Worker::fetch_task_locked`: take the front task, if any. `waited`
        says whether this is the test after the wait, in which a core worker
        is only woken by a task or by `shut`. Before the wait (`waited`
        false) a `None` means "wait now", not "exit"; the caller then waits
        and calls again with `waited` true. */
    method FetchTaskLocked(w: Worker, waited: bool) returns (t: Option<T>)
      requires waited && w.core ==> taskQueue != [] || shut
      modifies this
      ensures old(taskQueue) == [] ==> t == None && taskQueue == []
      ensures old(taskQueue) != [] ==> t == Some(old(taskQueue)[0]) && taskQueue == old(taskQueue)[1..]
      ensures t.None? && waited && w.core ==> shut
      ensures workers == old(workers) && deadWorkers == old(deadWorkers) && shut == old(shut)
      ensures activeCount == old(activeCount) && Busy == old(Busy)
    {
      if taskQueue != [] {
        t := Some(taskQueue[0]);
        taskQueue := taskQueue[1..];
      } else {
        t := None;
      }
    }

    /** The test at the top of the loop of `Worker::run`: leave once the
        pool is shut and no task is left. */
    method ShouldExit() returns (r: bool)
      ensures r <==> shut && taskQueue == []
    {
      r := shut && taskQueue == [];
    }

    /** `++active_count` before a fetched task runs outside the lock. */
    method StartTask(w: Worker)
      requires Valid() && w in workers && w !in Busy
      modifies this
      ensures Valid()
      ensures activeCount == old(activeCount) + 1 && Busy == old(Busy) + {w}
      ensures workers == old(workers) && taskQueue == old(taskQueue) && shut == old(shut)
      ensures deadWorkers == old(deadWorkers)
    {
      activeCount := activeCount + 1;
      Busy := Busy + {w};
    }

    /** After the task: reap the exited workers, then `--active_count`. */
    method FinishTask(w: Worker)
      requires Valid() && w in Busy
      modifies this
      ensures Valid()
      ensures activeCount == old(activeCount) - 1 && Busy == old(Busy) - {w}
      ensures deadWorkers == [] && workers == old(workers) && taskQueue == old(taskQueue)
      ensures shut == old(shut)
    {
      ReapDeadWorkersLocked();
      activeCount := activeCount - 1;
      Busy := Busy - {w};
    }

    /** The end of `Worker::run`: remove the worker and report whether the
        last worker left a terminated pool, in which case `wait_cv` is
        notified. */
    method WorkerExit(w: Worker) returns (notifyWaiters: bool)
      requires Valid() && w in workers && w !in Busy
      modifies this, workers[|workers| - 1]
      ensures Valid()
      ensures multiset(workers) == multiset(old(workers)) - multiset{w}
      ensures deadWorkers == old(deadWorkers) + [w]
      ensures taskQueue == old(taskQueue) && shut == old(shut)
      ensures activeCount == old(activeCount) && Busy == old(Busy)
      ensures notifyWaiters == Terminated()
      ensures notifyWaiters <==> old(shut) && old(taskQueue) == [] && old(workers) == [w]
    {
      RemoveSelfLocked(w);
      notifyWaiters := IsTerminatedLocked();
    }

    /** `submit`, with `shut` read under `main_lock`: refuse once shut down;
        otherwise queue the task at the back and add one non-core worker
        when none is idle and the pool is below `max_pool_size`. */
    method Submit(task: T) returns (r: Submitted)
      requires Valid()
      modifies this, ids
      ensures Valid()
      ensures r == PermissionDenied <==> old(shut)
      ensures old(shut) ==> taskQueue == old(taskQueue) && workers == old(workers)
      ensures !old(shut) ==> taskQueue == old(taskQueue) + [task]
      ensures var grow := !old(shut) && old(|workers|) == old(activeCount) && old(|workers|) < maxPoolSize;
        |workers| == old(|workers|) + (if grow then 1 else 0)
      ensures |workers| > old(|workers|) ==> |workers| <= maxPoolSize && !workers[old(|workers|)].core
      ensures workers[..old(|workers|)] == old(workers)
      ensures deadWorkers == old(deadWorkers) && activeCount == old(activeCount) && Busy == old(Busy)
      ensures shut == old(shut) && (old(Terminated()) ==> Terminated())
    {
      if shut {
        return PermissionDenied;
      }
      r := Enqueue(task);
    }

    /** `submit` as written: `shut` is read before `main_lock` is taken, so
        a value read before a concurrent `shutdown` may be stale. A stale
        `false` lets a terminated pool take a task and spawn a worker. */
    method SubmitAsWritten(task: T, shutSeen: bool) returns (r: Submitted)
      requires Valid() && (shutSeen ==> shut)
      modifies this, ids
      ensures Valid()
      ensures r == PermissionDenied <==> shutSeen
      ensures shutSeen ==> taskQueue == old(taskQueue) && workers == old(workers)
      ensures !shutSeen ==> taskQueue == old(taskQueue) + [task]
      ensures var grow := !shutSeen && old(|workers|) == old(activeCount) && old(|workers|) < maxPoolSize;
        |workers| == old(|workers|) + (if grow then 1 else 0)
      ensures |workers| > old(|workers|) ==> |workers| <= maxPoolSize && !workers[old(|workers|)].core
      ensures workers[..old(|workers|)] == old(workers)
      ensures deadWorkers == old(deadWorkers) && activeCount == old(activeCount) && Busy == old(Busy)
      ensures shut == old(shut)
      ensures old(Terminated()) && !shutSeen && maxPoolSize > 0 ==> |workers| == 1 && !Terminated()
    {
      if shutSeen {
        return PermissionDenied;
      }
      r := Enqueue(task);
    }

    /** The locked part of `submit`: queue the task, grow the pool if no
        worker is idle. */
    method Enqueue(task: T) returns (r: Submitted)
      requires Valid()
      modifies this, ids
      ensures Valid() && r == Accepted
      ensures taskQueue == old(taskQueue) + [task]
      ensures var grow := old(|workers|) == old(activeCount) && old(|workers|) < maxPoolSize;
        |workers| == old(|workers|) + (if grow then 1 else 0)
      ensures |workers| > old(|workers|) ==> !workers[old(|workers|)].core
      ensures workers[..old(|workers|)] == old(workers)
      ensures deadWorkers == old(deadWorkers) && activeCount == old(activeCount) && Busy == old(Busy)
      ensures shut == old(shut)
    {
      taskQueue := taskQueue + [task];
      ActiveWithinPool();
      var idle := |workers| - activeCount;
      if idle == 0 && |workers| < maxPoolSize {
        AddWorkerLocked(false);
      }
      r := Accepted;
    }

    /** `shutdown`: set `shut` and say which condition variable to notify:
        `wait_cv` when the pool is already terminated, else `cv`. */
    method Shutdown() returns (notifyWaiters: bool)
      requires Valid()
      modifies this
      ensures Valid() && shut
      ensures notifyWaiters == Terminated()
      ensures notifyWaiters <==> taskQueue == [] && workers == []
      ensures taskQueue == old(taskQueue) && workers == old(workers) && deadWorkers == old(deadWorkers)
      ensures activeCount == old(activeCount) && Busy == old(Busy)
    {
      shut := true;
      notifyWaiters := IsTerminatedLocked();
    }
  }

  /** `v[i] = v.back(); v.pop_back()`: the last element takes position `i`
      and the vector shrinks by one. */
  function SwapRemove<X>(s: seq<X>, i: nat): (r: seq<X>)
    requires i < |s|
    ensures |r| == |s| - 1
    ensures forall j :: 0 <= j < |r| && j != i ==> r[j] == s[j]
    ensures i < |r| ==> r[i] == s[|s| - 1]
  {
    s[i := s[|s| - 1]][..|s| - 1]
  }

  /** Swap-and-pop removes exactly one occurrence of the element at `i`. */
  lemma SwapRemoveMultiset<X>(s: seq<X>, i: nat)
    requires i < |s|
    ensures multiset(SwapRemove(s, i)) == multiset(s) - multiset{s[i]}
  {
    var n := |s| - 1;
    assert s == s[..n] + [s[n]];
    if i < n {
      assert SwapRemove(s, i) == s[..n][i := s[n]];
      UpdateMultiset(s[..n], i, s[n]);
    } else {
      assert SwapRemove(s, i) == s[..n];
    }
  }

  /** Every element other than the removed one is still there. */
  lemma SwapRemoveKeeps<X>(s: seq<X>, i: nat)
    requires i < |s|
    ensures forall x :: x in s && x != s[i] ==> x in SwapRemove(s, i)
  {
    forall x | x in s && x != s[i] ensures x in SwapRemove(s, i) {
      var j :| 0 <= j < |s| && s[j] == x;
      if j == |s| - 1 {
        assert SwapRemove(s, i)[i] == x;
      } else {
        assert SwapRemove(s, i)[j] == x;
      }
    }
  }

  lemma UpdateMultiset<X>(a: seq<X>, i: nat, v: X)
    requires i < |a|
    ensures multiset(a[i := v]) == multiset(a) - multiset{a[i]} + multiset{v}
  {
    assert a == a[..i] + [a[i]] + a[i + 1..];
    assert a[i := v] == a[..i] + [v] + a[i + 1..];
  }
}
