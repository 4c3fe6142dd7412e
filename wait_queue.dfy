/**
 * `WaitQueue` of concurrency/semaphore.h (and its copy in
 * concurrency/queued_semaphore.h): a doubly linked FIFO of wait nodes, plus a
 * forward linked cache of spare nodes that `remove` returns nodes to and
 * `enqueue` takes them from. Nodes live in an arena `nodes` and are named by
 * their index; `new WaitNode()` appends to the arena.
 *
 * The ghost sequences `Queue` (head to tail), `Flags` (the `wakeable` bit of
 * each queued node) and `Cache` (cache head onwards) are what the links encode.
 */
module WaitQueues {
  import opened Options
  import opened Lists

  datatype WaitNode = WaitNode(wakeable: bool, prev: Option<nat>, next: Option<nat>)

  const INITIAL_QUEUE_CAPACITY: nat := 256

  /** The node at queue position `j` carries its flag and its neighbours. */
  ghost predicate QueuedOk(nodes: seq<WaitNode>, q: seq<nat>, flags: seq<bool>, j: nat)
    requires j < |q| == |flags|
  {
    q[j] < |nodes| && nodes[q[j]] == WaitNode(flags[j], Prev(q, j), Next(q, j))
  }

  /** The node at cache position `j` has no `prev` and links to the next cached node. */
  ghost predicate CachedOk(nodes: seq<WaitNode>, c: seq<nat>, j: nat)
    requires j < |c|
  {
    c[j] < |nodes| && nodes[c[j]].prev == None && nodes[c[j]].next == Next(c, j)
  }

  /** The arena holds exactly the queue and the cache, each linked as above. */
  ghost predicate Arena(nodes: seq<WaitNode>, q: seq<nat>, flags: seq<bool>, c: seq<nat>) {
    && |flags| == |q|
    && Distinct(q) && Distinct(c)
    && (forall a, b :: 0 <= a < |q| && 0 <= b < |c| ==> q[a] != c[b])
    && |q| + |c| == |nodes|
    && (forall j :: 0 <= j < |q| ==> QueuedOk(nodes, q, flags, j))
    && (forall j :: 0 <= j < |c| ==> CachedOk(nodes, c, j))
  }

  /** Every node is in exactly one of the queue and the cache. */
  lemma Partition(nodes: seq<WaitNode>, q: seq<nat>, flags: seq<bool>, c: seq<nat>)
    requires Arena(nodes, q, flags, c)
    ensures forall i: nat :: i < |nodes| ==> (i in q <==> i !in c)
    ensures forall i :: i in q || i in c ==> i < |nodes|
  {
    var sq := set x | x in q;
    var sc := set x | x in c;
    forall x | x in q ensures x < |nodes| {
      var j :| 0 <= j < |q| && q[j] == x;
      assert QueuedOk(nodes, q, flags, j);
    }
    forall x | x in c ensures x < |nodes| {
      var j :| 0 <= j < |c| && c[j] == x;
      assert CachedOk(nodes, c, j);
    }
    assert sq * sc == {} by {
      forall x | x in sq ensures x !in sc {
        var a :| 0 <= a < |q| && q[a] == x;
        assert forall b :: 0 <= b < |c| ==> c[b] != q[a];
      }
    }
    DistinctCardinality(q);
    DistinctCardinality(c);
    assert |sq + sc| == |nodes| by {
      assert |sq + sc| + |sq * sc| == |sq| + |sc|;
      assert |sq * sc| == 0;
    }
    forall i: nat | i < |nodes| ensures i in q || i in c {
      if i !in sq + sc {
        BoundedCard(sq + sc + {i}, |nodes|);
      }
    }
  }

  /** `alloc_cache`, one node: a fresh node in front of the cache. */
  lemma AllocArena(nodes: seq<WaitNode>, q: seq<nat>, flags: seq<bool>, c: seq<nat>)
    requires Arena(nodes, q, flags, c)
    ensures Arena(nodes + [WaitNode(false, None, First(c))], q, flags, [|nodes|] + c)
  {
    var n := nodes + [WaitNode(false, None, First(c))];
    var c' := [|nodes|] + c;
    Partition(nodes, q, flags, c);
    forall j | 0 <= j < |q| ensures QueuedOk(n, q, flags, j) {
      assert QueuedOk(nodes, q, flags, j);
    }
    forall j | 0 <= j < |c'| ensures CachedOk(n, c', j) {
      if j > 0 {
        assert c'[j] == c[j - 1];
        assert CachedOk(nodes, c, j - 1);
        if j < |c| { assert c'[j + 1] == c[j]; }
      } else if c != [] {
        assert c'[1] == c[0];
      }
    }
    assert |nodes| !in c;
    DistinctCons(|nodes|, c);
    forall a, b | 0 <= a < |q| && 0 <= b < |c'| ensures q[a] != c'[b] {
      if b > 0 { assert c'[b] == c[b - 1]; } else { assert q[a] in q; }
    }
  }

  /** The arena after `enqueue` has moved the cached node `cur` behind `tail`. */
  function Enqueued(nodes: seq<WaitNode>, cur: nat, tail: Option<nat>): seq<WaitNode>
    requires cur < |nodes|
  {
    var n1 := nodes[cur := WaitNode(false, nodes[cur].prev, None)];
    if tail.Some? && tail.value < |n1| then
      var n2 := n1[tail.value := n1[tail.value].(next := Some(cur))];
      n2[cur := n2[cur].(prev := tail)]
    else n1
  }

  lemma EnqueueArena(nodes: seq<WaitNode>, q: seq<nat>, flags: seq<bool>, c: seq<nat>)
    requires Arena(nodes, q, flags, c) && c != []
    ensures c[0] < |nodes|
    ensures Arena(Enqueued(nodes, c[0], Last(q)), q + [c[0]], flags + [false], c[1..])
  {
    assert CachedOk(nodes, c, 0);
    var cur := c[0];
    var n := Enqueued(nodes, cur, Last(q));
    var q' := q + [cur];
    var f' := flags + [false];
    var c' := c[1..];
    if q != [] {
      assert QueuedOk(nodes, q, flags, |q| - 1);
      assert Last(q) == Some(q[|q| - 1]);
    }
    forall j | 0 <= j < |q'| ensures QueuedOk(n, q', f', j) {
      if j < |q| {
        assert q'[j] == q[j];
        assert QueuedOk(nodes, q, flags, j);
        assert q[j] != cur;
        assert j + 1 < |q| ==> q[j] != q[|q| - 1];
        if j + 1 < |q| { assert q'[j + 1] == q[j + 1]; } else { assert q'[j + 1] == cur; }
      } else if j > 0 {
        assert q'[j - 1] == q[j - 1];
        assert n[cur] == WaitNode(false, Last(q), None);
      } else {
        assert n[cur] == WaitNode(false, None, None);
      }
    }
    forall j | 0 <= j < |c'| ensures CachedOk(n, c', j) {
      assert c'[j] == c[j + 1];
      assert CachedOk(nodes, c, j + 1);
      assert c[j + 1] != cur;
      assert q != [] ==> c[j + 1] != q[|q| - 1];
      if j + 1 < |c'| { assert c'[j + 1] == c[j + 2]; }
    }
    forall a, b | 0 <= a < |q'| && 0 <= b < |c'| ensures q'[a] != c'[b] {
      assert c'[b] == c[b + 1];
      if a < |q| { assert q'[a] == q[a]; }
    }
    assert Distinct(q') by {
      forall a | 0 <= a < |q| ensures q[a] != cur { }
    }
  }

  /** What `enqueue` reads of the cache head and the tail. */
  lemma EnqueueEnds(nodes: seq<WaitNode>, q: seq<nat>, flags: seq<bool>, c: seq<nat>)
    requires Arena(nodes, q, flags, c) && c != []
    ensures c[0] < |nodes| && nodes[c[0]].prev == None && nodes[c[0]].next == First(c[1..])
    ensures Last(q).Some? ==> Last(q).value < |nodes|
    ensures First(q + [c[0]]) == if q == [] then Some(c[0]) else First(q)
  {
    assert CachedOk(nodes, c, 0);
    if |c| > 1 { assert c[1..][0] == c[1]; }
    if q != [] { assert QueuedOk(nodes, q, flags, |q| - 1); }
  }

  /** The arena after `remove(x)` has unlinked `x` and pushed it onto the cache. */
  function Removed(nodes: seq<WaitNode>, x: nat, cacheHead: Option<nat>): seq<WaitNode>
    requires x < |nodes|
  {
    var n := Bypassed(nodes, nodes[x]);
    n[x := n[x].(prev := None, next := cacheHead)]
  }

  /** The arena after the neighbours of a node `e` have been linked to each other. */
  function Bypassed(nodes: seq<WaitNode>, e: WaitNode): (r: seq<WaitNode>)
    ensures |r| == |nodes|
  {
    var n1 := if e.prev.Some? && e.prev.value < |nodes|
              then nodes[e.prev.value := nodes[e.prev.value].(next := e.next)] else nodes;
    if e.next.Some? && e.next.value < |n1|
    then n1[e.next.value := n1[e.next.value].(prev := e.prev)] else n1
  }

  lemma RemoveArena(nodes: seq<WaitNode>, q: seq<nat>, flags: seq<bool>, c: seq<nat>, i: nat)
    requires Arena(nodes, q, flags, c) && i < |q|
    ensures q[i] < |nodes|
    ensures Arena(Removed(nodes, q[i], First(c)), RemoveAt(q, i), RemoveAt(flags, i), [q[i]] + c)
  {
    var x := q[i];
    assert QueuedOk(nodes, q, flags, i);
    assert i > 0 ==> QueuedOk(nodes, q, flags, i - 1);
    assert i + 1 < |q| ==> QueuedOk(nodes, q, flags, i + 1);
    var n := Removed(nodes, x, First(c));
    var q' := RemoveAt(q, i);
    var f' := RemoveAt(flags, i);
    var c' := [x] + c;
    assert |n| == |nodes|;
    forall j | 0 <= j < |q'| ensures QueuedOk(n, q', f', j) {
      RemovedQueuedOk(nodes, q, flags, c, i, j);
    }
    forall j | 0 <= j < |c'| ensures CachedOk(n, c', j) {
      if j > 0 {
        assert c'[j] == c[j - 1];
        assert CachedOk(nodes, c, j - 1);
        assert i > 0 ==> c[j - 1] != q[i - 1];
        assert i + 1 < |q| ==> c[j - 1] != q[i + 1];
        if j < |c| { assert c'[j + 1] == c[j]; }
      } else if c != [] {
        assert c'[1] == c[0];
      }
    }
    RemoveAtDistinct(q, i);
    assert x !in c;
    DistinctCons(x, c);
    forall a, b | 0 <= a < |q'| && 0 <= b < |c'| ensures q'[a] != c'[b] {
      if a < i { assert q'[a] == q[a]; } else { assert q'[a] == q[a + 1]; }
      if b > 0 { assert c'[b] == c[b - 1]; }
    }
  }

  /** After `remove` of position `i`, position `j` of the shorter queue is linked. */
  lemma RemovedQueuedOk(nodes: seq<WaitNode>, q: seq<nat>, flags: seq<bool>, c: seq<nat>, i: nat, j: nat)
    requires Arena(nodes, q, flags, c) && i < |q| && j < |q| - 1
    ensures q[i] < |nodes|
    ensures QueuedOk(Removed(nodes, q[i], First(c)), RemoveAt(q, i), RemoveAt(flags, i), j)
  {
    assert QueuedOk(nodes, q, flags, i);
    assert i > 0 ==> QueuedOk(nodes, q, flags, i - 1);
    assert i + 1 < |q| ==> QueuedOk(nodes, q, flags, i + 1);
    var q' := RemoveAt(q, i);
    var f' := RemoveAt(flags, i);
    if j < i {
      assert q'[j] == q[j] && f'[j] == flags[j];
      assert QueuedOk(nodes, q, flags, j);
      if j < i - 1 { assert q'[j + 1] == q[j + 1]; }
      if j > 0 { assert q'[j - 1] == q[j - 1]; }
    } else {
      assert q'[j] == q[j + 1] && f'[j] == flags[j + 1];
      assert QueuedOk(nodes, q, flags, j + 1);
      if j > i { assert q'[j - 1] == q[j]; }
      if j > 0 && j == i { assert q'[j - 1] == q[j - 1]; }
      if j + 1 < |q'| { assert q'[j + 1] == q[j + 2]; }
    }
  }

  /** What `remove` reads of the node at queue position `i`, and the queue's
      new ends. */
  lemma RemoveEnds(nodes: seq<WaitNode>, q: seq<nat>, flags: seq<bool>, c: seq<nat>, i: nat)
    requires Arena(nodes, q, flags, c) && i < |q|
    ensures q[i] < |nodes|
    ensures nodes[q[i]].prev == Prev(q, i) && nodes[q[i]].next == Next(q, i)
    ensures Prev(q, i).Some? ==> Prev(q, i).value < |nodes|
    ensures Next(q, i).Some? ==> Next(q, i).value < |nodes|
    ensures (Some(q[i]) == First(q)) == (i == 0)
    ensures (Some(q[i]) == Last(q)) == (i + 1 == |q|)
    ensures First(RemoveAt(q, i)) == if i == 0 then Next(q, i) else First(q)
    ensures Last(RemoveAt(q, i)) == if i + 1 == |q| then Prev(q, i) else Last(q)
  {
    assert QueuedOk(nodes, q, flags, i);
    assert i > 0 ==> QueuedOk(nodes, q, flags, i - 1);
    assert i + 1 < |q| ==> QueuedOk(nodes, q, flags, i + 1);
    var r := RemoveAt(q, i);
    if i > 0 { assert r[0] == q[0]; }
    if i + 1 < |q| { assert r[|r| - 1] == q[|q| - 1]; }
  }

  /** `wake_head` on a non-empty queue. */
  lemma WakeArena(nodes: seq<WaitNode>, q: seq<nat>, flags: seq<bool>, c: seq<nat>)
    requires Arena(nodes, q, flags, c) && q != []
    ensures q[0] < |nodes|
    ensures Arena(nodes[q[0] := nodes[q[0]].(wakeable := true)], q, flags[0 := true], c)
  {
    assert QueuedOk(nodes, q, flags, 0);
    var n := nodes[q[0] := nodes[q[0]].(wakeable := true)];
    var f := flags[0 := true];
    forall j | 0 <= j < |q| ensures QueuedOk(n, q, f, j) {
      assert QueuedOk(nodes, q, flags, j);
    }
    forall j | 0 <= j < |c| ensures CachedOk(n, c, j) {
      assert CachedOk(nodes, c, j);
    }
  }

  /** Only the head of the queue can have been woken: the semaphores mark
      nothing but the head wakeable, and a woken node leaves from the head. */
  ghost predicate HeadOnlyWakeable(flags: seq<bool>) {
    forall j :: 0 < j < |flags| ==> !flags[j]
  }

  /** A wakeable waiter is the head of the queue. */
  lemma WakeableIsHead(q: seq<nat>, flags: seq<bool>, node: nat)
    requires |flags| == |q| && HeadOnlyWakeable(flags)
    requires node in q && flags[IndexOf(q, node)]
    ensures IndexOf(q, node) == 0 && q[0] == node
  {
  }

  /** Unlinking any node keeps the head the only candidate for waking. */
  lemma RemoveKeepsHeadOnly(flags: seq<bool>, i: nat)
    requires HeadOnlyWakeable(flags) && i < |flags|
    ensures HeadOnlyWakeable(RemoveAt(flags, i))
  {
  }

  class WaitQueue {
    var nodes: seq<WaitNode>
    var head: Option<nat>
    var tail: Option<nat>
    var cacheHead: Option<nat>
    var curQueueCapacity: nat

    ghost var Queue: seq<nat>
    ghost var Flags: seq<bool>
    ghost var Cache: seq<nat>

    ghost predicate Valid()
      reads this
    {
      && Arena(nodes, Queue, Flags, Cache)
      && head == First(Queue)
      && tail == Last(Queue)
      && cacheHead == First(Cache)
      && curQueueCapacity > 0
    }

    /** The constructor allocates a cache of `cur_queue_capacity` (256) nodes. */
    constructor ()
      ensures Valid()
      ensures Queue == [] && Flags == []
      ensures |Cache| == |nodes| == curQueueCapacity == INITIAL_QUEUE_CAPACITY
    {
      nodes := [];
      head := None;
      tail := None;
      cacheHead := None;
      curQueueCapacity := INITIAL_QUEUE_CAPACITY;
      Queue := [];
      Flags := [];
      Cache := [];
      new;
      AllocCache();
    }

    /** `alloc_cache`: push `cur_queue_capacity` fresh nodes onto the cache. */
    method AllocCache()
      requires Valid()
      modifies this
      ensures Valid()
      ensures Queue == old(Queue) && Flags == old(Flags) && curQueueCapacity == old(curQueueCapacity)
      ensures |nodes| == old(|nodes|) + curQueueCapacity
      ensures |Cache| == old(|Cache|) + curQueueCapacity && Cache[curQueueCapacity..] == old(Cache)
      ensures forall j :: 0 <= j < curQueueCapacity ==> Cache[j] == |nodes| - 1 - j
    {
      var i := 0;
      while i < curQueueCapacity
        invariant 0 <= i <= curQueueCapacity
        invariant Valid()
        invariant Queue == old(Queue) && Flags == old(Flags) && curQueueCapacity == old(curQueueCapacity)
        invariant |nodes| == old(|nodes|) + i
        invariant |Cache| == old(|Cache|) + i && Cache[i..] == old(Cache)
        invariant forall j :: 0 <= j < i ==> Cache[j] == |nodes| - 1 - j
      {
        AllocArena(nodes, Queue, Flags, Cache);
        var n0 := |nodes|;
        nodes := nodes + [WaitNode(false, None, cacheHead)];
        cacheHead := Some(n0);
        Cache := [n0] + Cache;
        i := i + 1;
      }
    }

    /** `enqueue`: take the cache head (refilling the cache, and doubling its
        refill size, only when it is empty) and append it, not wakeable, at the tail. */
    method Enqueue() returns (r: nat)
      requires Valid()
      modifies this
      ensures Valid()
      ensures Queue == old(Queue) + [r] && Flags == old(Flags) + [false]
      ensures old(Cache) != [] ==>
        && r == old(Cache)[0] && Cache == old(Cache)[1..]
        && |nodes| == old(|nodes|) && curQueueCapacity == old(curQueueCapacity)
      ensures old(Cache) == [] ==>
        && |nodes| == old(|nodes|) + old(curQueueCapacity)
        && curQueueCapacity == 2 * old(curQueueCapacity)
        && r == |nodes| - 1 && |Cache| == old(curQueueCapacity) - 1
        && forall j :: 0 <= j < |Cache| ==> Cache[j] == |nodes| - 2 - j
    {
      if cacheHead.None? {
        AllocCache();
        curQueueCapacity := curQueueCapacity * 2;
      }
      r := TakeCached();
    }

    /** The rest of `enqueue`, with the cache known to be non-empty: pop the
        cache head and link it at the tail. */
    method TakeCached() returns (r: nat)
      requires Valid() && Cache != []
      modifies this
      ensures Valid()
      ensures Queue == old(Queue) + [r] && Flags == old(Flags) + [false]
      ensures r == old(Cache)[0] && Cache == old(Cache)[1..]
      ensures |nodes| == old(|nodes|) && curQueueCapacity == old(curQueueCapacity)
    {
      var cur := cacheHead.value;
      EnqueueArena(nodes, Queue, Flags, Cache);
      EnqueueEnds(nodes, Queue, Flags, Cache);
      cacheHead := nodes[cur].next;
      LinkAtTail(cur);
      Queue := Queue + [cur];
      Flags := Flags + [false];
      Cache := Cache[1..];
      r := cur;
    }

    /** The middle of `enqueue`: clear the node and hang it behind the tail
        (or make it the whole queue). */
    method LinkAtTail(cur: nat)
      requires cur < |nodes|
      requires tail.Some? ==> tail.value < |nodes|
      requires tail.None? <==> head.None?
      modifies this
      ensures nodes == Enqueued(old(nodes), cur, old(tail))
      ensures tail == Some(cur) && head == if old(head).None? then Some(cur) else old(head)
      ensures cacheHead == old(cacheHead) && curQueueCapacity == old(curQueueCapacity)
      ensures Queue == old(Queue) && Flags == old(Flags) && Cache == old(Cache)
    {
      nodes := nodes[cur := WaitNode(false, nodes[cur].prev, None)];
      if tail.None? {
        head := Some(cur);
        tail := Some(cur);
      } else {
        var t := tail.value;
        nodes := nodes[t := nodes[t].(next := Some(cur))];
        nodes := nodes[cur := nodes[cur].(prev := tail)];
        tail := Some(cur);
      }
    }

    /** `remove`: unlink a queued node and push it onto the cache; none is a no-op. */
    method Remove(node: Option<nat>)
      requires Valid()
      requires node.Some? ==> node.value in Queue
      modifies this
      ensures Valid()
      ensures |nodes| == old(|nodes|) && curQueueCapacity == old(curQueueCapacity)
      ensures node.None? ==> Queue == old(Queue) && Flags == old(Flags) && Cache == old(Cache)
      ensures node.Some? ==>
        var i := IndexOf(old(Queue), node.value);
        && Queue == RemoveAt(old(Queue), i)
        && Flags == RemoveAt(old(Flags), i)
        && Cache == [node.value] + old(Cache)
    {
      if node.None? {
        return;
      }
      var x := node.value;
      ghost var i := IndexOf(Queue, x);
      RemoveArena(nodes, Queue, Flags, Cache, i);
      RemoveEnds(nodes, Queue, Flags, Cache, i);
      ghost var before := nodes;
      var e := nodes[x];
      if node == head && head == tail {
        head := None;
        tail := None;
      }
      if node == head {
        head := e.next;
      }
      if node == tail {
        tail := e.prev;
      }
      LinkNeighbours(e);
      nodes := nodes[x := nodes[x].(prev := None, next := cacheHead)];
      cacheHead := Some(x);
      assert nodes == Removed(before, x, First(Cache));
      Queue := RemoveAt(Queue, i);
      Flags := RemoveAt(Flags, i);
      Cache := [x] + Cache;
    }

    /** The middle of `remove`: link the removed node's `prev` and `next` to each other. */
    method LinkNeighbours(e: WaitNode)
      requires e.prev.Some? ==> e.prev.value < |nodes|
      requires e.next.Some? ==> e.next.value < |nodes|
      modifies this
      ensures nodes == Bypassed(old(nodes), e)
      ensures head == old(head) && tail == old(tail) && cacheHead == old(cacheHead)
      ensures curQueueCapacity == old(curQueueCapacity)
      ensures Queue == old(Queue) && Flags == old(Flags) && Cache == old(Cache)
    {
      if e.prev.Some? {
        var p := e.prev.value;
        nodes := nodes[p := nodes[p].(next := e.next)];
      }
      if e.next.Some? {
        var n := e.next.value;
        nodes := nodes[n := nodes[n].(prev := e.prev)];
      }
    }

    /** `dequeue`: `remove(head)`. */
    method Dequeue()
      requires Valid()
      modifies this
      ensures Valid()
      ensures |nodes| == old(|nodes|)
      ensures old(Queue) == [] ==> Queue == [] && Flags == old(Flags) && Cache == old(Cache)
      ensures old(Queue) != [] ==>
        && Queue == old(Queue)[1..]
        && Flags == old(Flags)[1..]
        && Cache == [old(Queue)[0]] + old(Cache)
    {
      assert Queue != [] ==> IndexOf(Queue, Queue[0]) == 0;
      Remove(head);
    }

    /** `wake_head`: mark the head wakeable; no-op on an empty queue. */
    method WakeHead()
      requires Valid()
      modifies this
      ensures Valid()
      ensures Queue == old(Queue) && Cache == old(Cache) && |nodes| == old(|nodes|)
      ensures Flags == if old(Queue) == [] then old(Flags) else old(Flags)[0 := true]
    {
      if head.None? {
        return;
      }
      WakeArena(nodes, Queue, Flags, Cache);
      var h := head.value;
      nodes := nodes[h := nodes[h].(wakeable := true)];
      Flags := Flags[0 := true];
    }

    /** `is_empty`. */
    method IsEmpty() returns (r: bool)
      requires Valid()
      ensures r <==> Queue == []
    {
      r := head.None?;
    }

    /** `num_waiting_nodes`: walk the `next` links from the head. */
    method NumWaitingNodes() returns (r: int)
      requires Valid()
      ensures r == |Queue|
    {
      if head.None? {
        return 0;
      }
      var ctr := 0;
      var p := head;
      while p.Some?
        invariant 0 <= ctr <= |Queue|
        invariant p == if ctr < |Queue| then Some(Queue[ctr]) else None
        decreases |Queue| - ctr
      {
        assert QueuedOk(nodes, Queue, Flags, ctr);
        ctr := ctr + 1;
        p := nodes[p.value].next;
      }
      r := ctr;
    }
  }
}
