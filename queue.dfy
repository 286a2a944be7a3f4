/**
 * The task queues of the task pool: the ring buffer RingQueue
 * (pkg/taskpool/queue.go) and the bucketed PriorityRingQueue
 * (pkg/taskpool/priority_queue.go).
 *
 * Only the non-waiting paths are modelled: a caller that asks to block on a
 * full (or empty) open queue would wait for another goroutine, and those calls
 * are excluded by the preconditions. The mutexes and condition variables are
 * not modelled; every operation runs alone. Task pointers are never nil here.
 */
module TaskQueue {
  import opened Wrappers

  /** The part of a Task the queues look at. */
  datatype Task = Task(id: nat, priority: int)

  datatype QueueError = QueueFull | QueueClosed

  /** (x + 1) % c for 0 <= x < c, without nonlinear reasoning at the call sites. */
  lemma NextSlot(x: int, c: int)
    requires 0 <= x < c
    ensures (x + 1) % c == if x + 1 == c then 0 else x + 1
  {
  }

  class RingQueue {
    var buffer: array<Option<Task>>
    var head: int
    var tail: int
    var size: int
    var capacity: int
    var closed: bool
    /** The queued tasks, oldest first. */
    ghost var Contents: seq<Task>

    /** The slot holding the i-th oldest task. */
    function Slot(i: int): int
      reads this
    {
      if head + i < capacity then head + i else head + i - capacity
    }

    ghost predicate Valid()
      reads this, buffer
    {
      && buffer.Length == capacity
      && 0 <= size <= capacity
      && |Contents| == size
      && (capacity == 0 ==> head == 0 && tail == 0)
      && (capacity > 0 ==> 0 <= head < capacity && tail == Slot(size) && 0 <= tail < capacity)
      && forall i :: 0 <= i < size ==> 0 <= Slot(i) < capacity && buffer[Slot(i)] == Some(Contents[i])
    }

    /** NewRingQueue: an empty, open queue of the given capacity (make panics on a negative one). */
    constructor (capacity: int)
      requires capacity >= 0
      ensures Valid() && fresh(buffer)
      ensures Contents == [] && this.capacity == capacity && !closed
    {
      buffer := new Option<Task>[capacity](_ => None);
      head, tail, size := 0, 0, 0;
      this.capacity := capacity;
      closed := false;
      Contents := [];
    }

    /** Push: a closed queue refuses with ErrQueueClosed; a full open one with ErrQueueFull
        when not blocking; otherwise the task is appended. A blocking Push on a full open
        queue would wait and is not modelled. */
    method Push(task: Task, blocking: bool) returns (err: Option<QueueError>)
      requires Valid()
      requires !(blocking && size == capacity && !closed)
      modifies this, buffer
      ensures Valid() && buffer == old(buffer)
      ensures closed ==> err == Some(QueueClosed)
      ensures !closed && old(size) == capacity ==> err == Some(QueueFull)
      ensures err != None ==> unchanged(this, buffer)
      ensures !closed && old(size) < capacity ==> err == None && Contents == old(Contents) + [task]
      ensures capacity == old(capacity) && closed == old(closed)
    {
      if size == capacity {
        if closed {
          return Some(QueueClosed);
        }
        return Some(QueueFull);
      }
      if closed {
        return Some(QueueClosed);
      }
      buffer[tail] := Some(task);
      NextSlot(tail, capacity);
      tail := (tail + 1) % capacity;
      size := size + 1;
      Contents := Contents + [task];
      err := None;
    }

    /** Pop: the oldest task, even from a closed queue; an empty queue yields ErrQueueClosed
        once closed and nothing (nil, nil) while open. A blocking Pop on an empty open queue
        would wait and is not modelled. */
    method Pop(blocking: bool) returns (r: Result<Option<Task>, QueueError>)
      requires Valid()
      requires !(blocking && size == 0 && !closed)
      modifies this, buffer
      ensures Valid() && buffer == old(buffer)
      ensures old(Contents) == [] && closed ==> r == Err(QueueClosed) && Contents == []
      ensures old(Contents) == [] && !closed ==> r == Ok(None) && Contents == []
      ensures old(Contents) != [] ==> r == Ok(Some(old(Contents)[0])) && Contents == old(Contents)[1..]
      ensures capacity == old(capacity) && closed == old(closed)
    {
      if size == 0 {
        if closed {
          return Err(QueueClosed);
        }
        return Ok(None);
      }
      var task := buffer[head];
      assert Slot(0) == head;
      buffer[head] := None;
      NextSlot(head, capacity);
      head := (head + 1) % capacity;
      size := size - 1;
      Contents := Contents[1..];
      assert forall i :: 0 <= i < size ==> Slot(i) == old(Slot(i + 1));
      r := Ok(Some(task.value));
    }

    /** BatchPush: a closed queue refuses the whole batch; otherwise the tasks are appended
        in order. A batch that would fill the queue would wait and is not modelled. */
    method BatchPush(tasks: seq<Task>) returns (err: Option<QueueError>)
      requires Valid()
      requires closed || size + |tasks| <= capacity
      modifies this, buffer
      ensures Valid() && buffer == old(buffer)
      ensures closed ==> err == Some(QueueClosed) && Contents == old(Contents)
      ensures !closed ==> err == None && Contents == old(Contents) + tasks
      ensures capacity == old(capacity) && closed == old(closed)
    {
      if closed {
        return Some(QueueClosed);
      }
      var i := 0;
      while i < |tasks|
        invariant 0 <= i <= |tasks| && Valid() && buffer == old(buffer)
        invariant capacity == old(capacity) && !closed
        invariant Contents == old(Contents) + tasks[..i] && size == old(size) + i
      {
        // the same steps as a Push that finds room
        var e := Push(tasks[i], false);
        assert tasks[..i + 1] == tasks[..i] + [tasks[i]];
        i := i + 1;
      }
      assert tasks[..i] == tasks;
      err := None;
    }

    /** Len: the number of queued tasks. */
    function Len(): (n: int)
      reads this, buffer
      requires Valid()
      ensures n == |Contents| && 0 <= n <= capacity
    {
      size
    }

    /** Cap: the capacity the queue was made with. */
    function Cap(): (n: int)
      reads this
      ensures n == capacity
    {
      capacity
    }

    /** Close: the queue refuses new tasks from now on; the queued ones stay. */
    method Close()
      requires Valid()
      modifies this
      ensures Valid() && closed && Contents == old(Contents) && capacity == old(capacity)
      ensures buffer == old(buffer) && head == old(head) && tail == old(tail) && size == old(size)
    {
      if !closed {
        closed := true;
      }
    }
  }

  /** First in, first out: two tasks pushed on an empty open queue come out in push order. */
  method FifoOrder(q: RingQueue, a: Task, b: Task) returns (x: Result<Option<Task>, QueueError>, y: Result<Option<Task>, QueueError>)
    requires q.Valid() && !q.closed && q.Contents == [] && q.capacity >= 2
    modifies q, q.buffer
    ensures x == Ok(Some(a)) && y == Ok(Some(b))
  {
    var e1 := q.Push(a, false);
    var e2 := q.Push(b, false);
    x := q.Pop(false);
    y := q.Pop(false);
  }

  // ---------------------------------------------------------------------------
  // The priority queue

  const BucketCount := 10
  const PriorityRange := 10

  /** NewPriorityRingQueue's bucket capacity: a tenth of the capacity, at least 10. */
  function BucketCapacity(capacity: int): (c: int)
    ensures c >= 10
    ensures capacity < 100 ==> c == 10
    ensures capacity >= 100 ==> c == capacity / 10
  {
    if capacity / BucketCount < 10 then 10 else capacity / BucketCount
  }

  /** The bucket of a priority: the priority divided by 10, truncated toward zero as Go
      divides, and capped at 9. Go indexes bucket -1 and panics for a priority of -10 or
      below, which the precondition excludes. */
  function BucketIndex(priority: int): (b: int)
    requires priority > -10
    ensures 0 <= b < BucketCount
    ensures priority >= 0 ==> b == if priority / 10 >= 9 then 9 else priority / 10
  {
    var q := if priority < 0 then 0 else priority / PriorityRange;
    if q >= BucketCount then BucketCount - 1 else q
  }

  /** A higher priority never goes to a lower bucket. */
  lemma BucketIndexMonotone(p: int, q: int)
    requires -10 < p <= q
    ensures BucketIndex(p) <= BucketIndex(q)
  {
    if 0 <= p {
      assert p / PriorityRange <= q / PriorityRange;
    }
  }

  /** The number of tasks in all buckets. */
  function TotalLen(items: seq<seq<Task>>): nat
  {
    if items == [] then 0 else TotalLen(items[..|items| - 1]) + |items[|items| - 1]|
  }

  lemma {:induction false} TotalLenUpdate(items: seq<seq<Task>>, b: int, s: seq<Task>)
    requires 0 <= b < |items|
    ensures TotalLen(items[b := s]) == TotalLen(items) - |items[b]| + |s|
  {
    var n := |items| - 1;
    if b < n {
      assert items[b := s][..n] == items[..n][b := s];
      TotalLenUpdate(items[..n], b, s);
    } else {
      assert items[b := s][..n] == items[..n];
    }
  }

  lemma {:induction false} TotalLenZero(items: seq<seq<Task>>)
    ensures TotalLen(items) == 0 <==> forall i :: 0 <= i < |items| ==> items[i] == []
  {
    if items != [] {
      var n := |items| - 1;
      TotalLenZero(items[..n]);
      assert forall i :: 0 <= i < n ==> items[..n][i] == items[i];
    }
  }

  /** The highest non-empty bucket below `below`, or -1. */
  function HighestNonEmpty(items: seq<seq<Task>>, below: int): (b: int)
    requires 0 <= below <= |items|
    ensures -1 <= b < below
    ensures b >= 0 ==> items[b] != [] && forall j :: b < j < below ==> items[j] == []
    ensures b == -1 ==> forall j :: 0 <= j < below ==> items[j] == []
    decreases below
  {
    if below == 0 then -1
    else if items[below - 1] != [] then below - 1
    else HighestNonEmpty(items, below - 1)
  }

  /** The lowest non-empty bucket from `from` on, or |items|. */
  function LowestNonEmpty(items: seq<seq<Task>>, from: int): (b: int)
    requires 0 <= from <= |items|
    ensures from <= b <= |items|
    ensures b < |items| ==> items[b] != [] && forall j :: from <= j < b ==> items[j] == []
    ensures b == |items| ==> forall j :: from <= j < |items| ==> items[j] == []
    decreases |items| - from
  {
    if from == |items| then |items|
    else if items[from] != [] then from
    else LowestNonEmpty(items, from + 1)
  }

  /** Every task's priority selects a bucket. */
  predicate Bucketable(tasks: seq<Task>)
  {
    forall k :: 0 <= k < |tasks| ==> tasks[k].priority > -10
  }

  /** The tasks of the batch that go to bucket b, in batch order. */
  function InBucket(tasks: seq<Task>, b: int): (r: seq<Task>)
    requires Bucketable(tasks)
    ensures |r| <= |tasks|
    ensures forall k :: 0 <= k < |r| ==> r[k] in tasks && BucketIndex(r[k].priority) == b
  {
    if tasks == [] then []
    else
      var last := tasks[|tasks| - 1];
      InBucket(tasks[..|tasks| - 1], b) + (if BucketIndex(last.priority) == b then [last] else [])
  }

  /** A prefix of a batch sends no more tasks to a bucket than the whole batch. */
  lemma {:induction false} InBucketPrefix(tasks: seq<Task>, n: nat, b: int)
    requires Bucketable(tasks) && n <= |tasks|
    ensures |InBucket(tasks[..n], b)| <= |InBucket(tasks, b)|
    decreases |tasks| - n
  {
    if n < |tasks| {
      assert tasks[..n + 1][..n] == tasks[..n];
      InBucketPrefix(tasks, n + 1, b);
    } else {
      assert tasks[..n] == tasks;
    }
  }

  /** The share of a bucket in one more task of the batch. */
  lemma InBucketSnoc(tasks: seq<Task>, i: nat, b: int)
    requires Bucketable(tasks) && i < |tasks|
    ensures InBucket(tasks[..i + 1], b)
            == InBucket(tasks[..i], b) + (if BucketIndex(tasks[i].priority) == b then [tasks[i]] else [])
  {
    assert tasks[..i + 1][..i] == tasks[..i];
  }

  /** Appending tasks[i] to its bucket extends every bucket's share from tasks[..i] to
      tasks[..i + 1]. */
  lemma ShareGrows(tasks: seq<Task>, i: nat, start: seq<seq<Task>>, before: seq<seq<Task>>, after: seq<seq<Task>>)
    requires Bucketable(tasks) && i < |tasks| && |start| == |before| == BucketCount
    requires forall b :: 0 <= b < BucketCount ==> before[b] == start[b] + InBucket(tasks[..i], b)
    requires var c := BucketIndex(tasks[i].priority); after == before[c := before[c] + [tasks[i]]]
    ensures forall b :: 0 <= b < BucketCount ==> after[b] == start[b] + InBucket(tasks[..i + 1], b)
  {
    forall b | 0 <= b < BucketCount
      ensures after[b] == start[b] + InBucket(tasks[..i + 1], b)
    {
      InBucketSnoc(tasks, i, b);
    }
  }

  /** A batch loses no task: the buckets' shares add up to the batch. */
  lemma {:induction false} InBucketCounts(tasks: seq<Task>)
    requires Bucketable(tasks)
    ensures TotalLen(seq(BucketCount, b => InBucket(tasks, b))) == |tasks|
  {
    if tasks == [] {
      TotalLenZero(seq(BucketCount, b => InBucket(tasks, b)));
    } else {
      var init := tasks[..|tasks| - 1];
      var last := tasks[|tasks| - 1];
      var before := seq(BucketCount, b => InBucket(init, b));
      var after := seq(BucketCount, b => InBucket(tasks, b));
      var c := BucketIndex(last.priority);
      InBucketCounts(init);
      forall b | 0 <= b < BucketCount
        ensures after[b] == before[c := before[c] + [last]][b]
      {
      }
      assert after == before[c := before[c] + [last]];
      TotalLenUpdate(before, c, before[c] + [last]);
    }
  }

  /** Whether the count-th Pop serves the lowest non-empty bucket instead of the highest. */
  predicate ForceLowPriority(starvationN: int, count: int)
  {
    starvationN > 0 && count % starvationN == 0
  }

  /** A bucket is a well-formed ring queue holding the given tasks, open or closed with its owner. */
  ghost predicate BucketHolds(q: RingQueue, contents: seq<Task>, closed: bool)
    reads q, q.buffer
  {
    q.Valid() && q.Contents == contents && q.closed == closed
  }

  class PriorityRingQueue {
    var buckets: seq<RingQueue>
    var starvationN: int
    var closed: bool
    var consumeCount: int
    var totalSize: int
    var capacity: int
    /** The tasks of each bucket, oldest first. */
    ghost var Items: seq<seq<Task>>
    /** The bucket each bucket buffer belongs to, which keeps the buckets and their buffers apart. */
    ghost var Owner: map<array<Option<Task>>, int>
    /** The bucket queues and their buffers. */
    ghost var Repr: set<object>

    ghost predicate Valid()
      reads this, Repr
    {
      && |buckets| == BucketCount && |Items| == BucketCount
      && (forall i :: 0 <= i < BucketCount ==>
            && buckets[i] in Repr && buckets[i].buffer in Repr
            && buckets[i].buffer in Owner && Owner[buckets[i].buffer] == i
            && BucketHolds(buckets[i], Items[i], closed))
      && totalSize == TotalLen(Items)
    }

    /** NewPriorityRingQueue: ten empty buckets of BucketCapacity(capacity) each. */
    constructor (capacity: int, starvationN: int)
      ensures Valid() && fresh(Repr)
      ensures Items == seq(BucketCount, _ => []) && totalSize == 0 && consumeCount == 0 && !closed
      ensures this.capacity == capacity && this.starvationN == starvationN
      ensures forall i :: 0 <= i < BucketCount ==> buckets[i].capacity == BucketCapacity(capacity)
    {
      var bucketCapacity := BucketCapacity(capacity);
      var qs: seq<RingQueue> := [];
      ghost var owner: map<array<Option<Task>>, int> := map[];
      ghost var repr: set<object> := {};
      var i := 0;
      while i < BucketCount
        invariant 0 <= i <= BucketCount && |qs| == i
        invariant forall j :: 0 <= j < i ==>
                    && qs[j] in repr && qs[j].buffer in repr
                    && qs[j].buffer in owner && owner[qs[j].buffer] == j
                    && BucketHolds(qs[j], [], false) && qs[j].capacity == bucketCapacity
        invariant fresh(repr)
      {
        var q := new RingQueue(bucketCapacity);
        qs := qs + [q];
        owner := owner[q.buffer := i];
        repr := repr + {q, q.buffer};
        i := i + 1;
      }
      buckets := qs;
      this.starvationN := starvationN;
      this.capacity := capacity;
      closed := false;
      consumeCount := 0;
      totalSize := 0;
      Items := seq(BucketCount, _ => []);
      Owner := owner;
      Repr := repr;
      new;
      TotalLenZero(Items);
    }

    /** The fields no queue operation other than Close changes. */
    twostate predicate Unchanged()
      reads this
    {
      && buckets == old(buckets) && Repr == old(Repr) && Owner == old(Owner)
      && closed == old(closed) && starvationN == old(starvationN) && capacity == old(capacity)
    }

    /** Distinct buckets have distinct queues and buffers, so an operation on one leaves the others. */
    lemma BucketsApart(b: int)
      requires Valid() && 0 <= b < BucketCount
      ensures forall i :: 0 <= i < BucketCount && i != b ==> buckets[i] != buckets[b] && buckets[i].buffer != buckets[b].buffer
    {
    }

    /** After an operation on bucket b alone, with Items and totalSize updated to match,
        the queue is well formed again. */
    twostate lemma OtherBucketsKept(b: int)
      requires old(Valid()) && 0 <= b < BucketCount
      requires Unchanged() && |Items| == BucketCount && Items == old(Items)[b := Items[b]]
      requires forall i :: 0 <= i < BucketCount && i != b ==> unchanged(old(buckets[i]), old(buckets[i].buffer))
      requires buckets[b].buffer == old(buckets[b].buffer) && BucketHolds(buckets[b], Items[b], closed)
      requires totalSize == TotalLen(Items)
      ensures Valid()
    {
      assert forall i :: 0 <= i < BucketCount && i != b ==> Items[i] == old(Items)[i];
    }

    /** Push: a closed queue refuses; otherwise the task goes to the bucket of its priority,
        and totalSize counts it only if that bucket accepted it. */
    method Push(task: Task, blocking: bool) returns (err: Option<QueueError>)
      requires Valid()
      requires task.priority > -10
      requires var b := BucketIndex(task.priority);
               !(blocking && buckets[b].size == buckets[b].capacity && !closed)
      modifies this, buckets[BucketIndex(task.priority)], buckets[BucketIndex(task.priority)].buffer
      ensures Valid() && Unchanged()
      ensures consumeCount == old(consumeCount)
      ensures closed ==> err == Some(QueueClosed) && Items == old(Items)
      ensures var b := BucketIndex(task.priority);
              !closed && |old(Items)[b]| == buckets[b].capacity ==> err == Some(QueueFull) && Items == old(Items)
      ensures var b := BucketIndex(task.priority);
              !closed && |old(Items)[b]| < buckets[b].capacity ==>
                err == None && Items == old(Items)[b := old(Items)[b] + [task]]
      ensures err == None ==> totalSize == old(totalSize) + 1
      ensures err != None ==> totalSize == old(totalSize)
    {
      if closed {
        return Some(QueueClosed);
      }
      var b := BucketIndex(task.priority);
      err := PushAt(b, task, blocking);
    }

    /** One bucket's Push, with totalSize kept in step. */
    method PushAt(b: int, task: Task, blocking: bool) returns (err: Option<QueueError>)
      requires Valid() && 0 <= b < BucketCount && !closed
      requires !(blocking && buckets[b].size == buckets[b].capacity)
      modifies this, buckets[b], buckets[b].buffer
      ensures Valid() && Unchanged() && consumeCount == old(consumeCount)
      ensures |old(Items)[b]| == buckets[b].capacity ==> err == Some(QueueFull) && Items == old(Items)
      ensures |old(Items)[b]| < buckets[b].capacity ==> err == None && Items == old(Items)[b := old(Items)[b] + [task]]
      ensures err == None ==> totalSize == old(totalSize) + 1
      ensures err != None ==> totalSize == old(totalSize)
      ensures forall i :: 0 <= i < BucketCount ==> buckets[i].capacity == old(buckets[i].capacity)
    {
      BucketsApart(b);
      err := buckets[b].Push(task, blocking);
      if err == None {
        TotalLenUpdate(Items, b, Items[b] + [task]);
        Items := Items[b := Items[b] + [task]];
        totalSize := totalSize + 1;
        OtherBucketsKept(b);
      } else {
        assert Items == old(Items)[b := Items[b]];
        OtherBucketsKept(b);
      }
    }

    /** One bucket's Pop from a bucket known to hold a task, with totalSize kept in step. */
    method PopAt(b: int) returns (task: Task)
      requires Valid() && 0 <= b < BucketCount && Items[b] != []
      modifies this, buckets[b], buckets[b].buffer
      ensures Valid() && Unchanged() && consumeCount == old(consumeCount)
      ensures task == old(Items)[b][0] && Items == old(Items)[b := old(Items)[b][1..]]
      ensures totalSize == old(totalSize) - 1
    {
      BucketsApart(b);
      var got := buckets[b].Pop(false);
      TotalLenUpdate(Items, b, Items[b][1..]);
      Items := Items[b := Items[b][1..]];
      totalSize := totalSize - 1;
      OtherBucketsKept(b);
      task := got.value.value;
    }

    /** BatchPush: a closed queue refuses the whole batch; otherwise every task is pushed,
        blocking, to the bucket of its priority. A bucket that would fill up would wait and
        is not modelled. */
    method BatchPush(tasks: seq<Task>) returns (err: Option<QueueError>)
      requires Valid() && Bucketable(tasks)
      requires !closed ==>
                 forall b :: 0 <= b < BucketCount ==> |Items[b]| + |InBucket(tasks, b)| <= buckets[b].capacity
      modifies this, Repr
      ensures Valid() && Unchanged() && consumeCount == old(consumeCount)
      ensures closed ==> err == Some(QueueClosed) && Items == old(Items)
      ensures !closed ==>
                && err == None
                && |Items| == |old(Items)| == BucketCount
                && (forall b :: 0 <= b < BucketCount ==> Items[b] == old(Items)[b] + InBucket(tasks, b))
                && totalSize == old(totalSize) + |tasks|
    {
      if closed {
        return Some(QueueClosed);
      }
      ghost var start := Items;
      var i := 0;
      while i < |tasks|
        invariant 0 <= i <= |tasks| && Valid() && Unchanged() && consumeCount == old(consumeCount)
        invariant forall b :: 0 <= b < BucketCount ==> Items[b] == start[b] + InBucket(tasks[..i], b)
        invariant totalSize == old(totalSize) + i
        invariant forall b :: 0 <= b < BucketCount ==> |start[b]| + |InBucket(tasks, b)| <= buckets[b].capacity
      {
        PushNext(tasks, i, start);
        i := i + 1;
      }
      assert tasks[..i] == tasks;
      err := None;
    }

    /** One pass of BatchPush's loop: tasks[i] joins the bucket of its priority. */
    method PushNext(tasks: seq<Task>, i: nat, ghost start: seq<seq<Task>>)
      requires Valid() && !closed && Bucketable(tasks) && i < |tasks| && |start| == BucketCount
      requires forall b :: 0 <= b < BucketCount ==> Items[b] == start[b] + InBucket(tasks[..i], b)
      requires forall b :: 0 <= b < BucketCount ==> |start[b]| + |InBucket(tasks, b)| <= buckets[b].capacity
      modifies this, Repr
      ensures Valid() && Unchanged() && consumeCount == old(consumeCount)
      ensures forall b :: 0 <= b < BucketCount ==> Items[b] == start[b] + InBucket(tasks[..i + 1], b)
      ensures totalSize == old(totalSize) + 1
      ensures forall b :: 0 <= b < BucketCount ==> buckets[b].capacity == old(buckets[b].capacity)
    {
      var t := tasks[i];
      var c := BucketIndex(t.priority);
      InBucketPrefix(tasks, i + 1, c);
      InBucketSnoc(tasks, i, c);
      assert buckets[c].size == |Items[c]| by {
        assert BucketHolds(buckets[c], Items[c], closed);
      }
      ghost var before := Items;
      var e := PushAt(c, t, true);
      ShareGrows(tasks, i, start, before, Items);
    }

    /** Pop: an empty queue yields ErrQueueClosed once closed and nothing while open; otherwise
        the consume counter advances and the task comes from the highest non-empty bucket, or,
        on every starvationN-th Pop, from the lowest. A blocking Pop on an empty open queue would
        wait and is not modelled. */
    method Pop(blocking: bool) returns (r: Result<Option<Task>, QueueError>)
      requires Valid()
      requires !(blocking && totalSize == 0 && !closed)
      modifies this, Repr
      ensures Valid() && Unchanged()
      ensures old(totalSize) == 0 && closed ==> r == Err(QueueClosed) && Items == old(Items) && consumeCount == old(consumeCount)
      ensures old(totalSize) == 0 && !closed ==> r == Ok(None) && Items == old(Items) && consumeCount == old(consumeCount)
      ensures old(totalSize) > 0 ==>
                var b := if ForceLowPriority(starvationN, old(consumeCount) + 1)
                         then LowestNonEmpty(old(Items), 0) else HighestNonEmpty(old(Items), BucketCount);
                && 0 <= b < BucketCount
                && r == Ok(Some(old(Items)[b][0]))
                && Items == old(Items)[b := old(Items)[b][1..]]
                && consumeCount == old(consumeCount) + 1
                && totalSize == old(totalSize) - 1
    {
      if closed && totalSize == 0 {
        return Err(QueueClosed);
      }
      if totalSize == 0 {
        return Ok(None);
      }
      consumeCount := consumeCount + 1;
      CounterKept();
      var force := starvationN > 0 && consumeCount % starvationN == 0;
      var b;
      if force {
        b := ScanUp();
      } else {
        b := ScanDown();
      }
      var task := PopAt(b);
      r := Ok(Some(task));
    }

    /** Advancing the consume counter alone keeps the queue well formed. */
    twostate lemma CounterKept()
      requires old(Valid()) && Unchanged() && Items == old(Items) && totalSize == old(totalSize)
      requires forall i :: 0 <= i < BucketCount ==> unchanged(old(buckets[i]), old(buckets[i].buffer))
      ensures Valid()
    {
    }

    /** The anti-starvation loop: buckets from 0 upwards, the first that yields a task. */
    method ScanUp() returns (b: int)
      requires Valid() && TotalLen(Items) > 0
      ensures b == LowestNonEmpty(Items, 0) && 0 <= b < BucketCount
    {
      TotalLenZero(Items);
      b := 0;
      while buckets[b].size == 0
        invariant 0 <= b < BucketCount
        invariant LowestNonEmpty(Items, b) == LowestNonEmpty(Items, 0)
        invariant forall j :: 0 <= j < b ==> Items[j] == []
        decreases BucketCount - b
      {
        b := b + 1;
        if b == BucketCount {
          assert false;
        }
      }
    }

    /** The normal loop: buckets from 9 downwards, the first that yields a task. */
    method ScanDown() returns (b: int)
      requires Valid() && TotalLen(Items) > 0
      ensures b == HighestNonEmpty(Items, BucketCount) && 0 <= b < BucketCount
    {
      TotalLenZero(Items);
      b := BucketCount - 1;
      while buckets[b].size == 0
        invariant 0 <= b < BucketCount
        invariant HighestNonEmpty(Items, b + 1) == HighestNonEmpty(Items, BucketCount)
        invariant forall j :: b < j < BucketCount ==> Items[j] == []
        decreases b
      {
        if b == 0 {
          assert false;
        }
        b := b - 1;
      }
    }

    /** Len: successful pushes minus successful pops, the number of tasks held. */
    function Len(): (n: int)
      reads this, Repr
      requires Valid()
      ensures n == TotalLen(Items)
    {
      totalSize
    }

    /** Cap: the capacity passed to the constructor (the buckets together may hold more). */
    function Cap(): (n: int)
      reads this
      ensures n == capacity
    {
      capacity
    }

    /** Close: the queue and every bucket refuse new tasks; what they hold stays. */
    method Close()
      requires Valid()
      modifies this, Repr
      ensures Valid() && closed && Items == old(Items) && buckets == old(buckets) && Repr == old(Repr)
      ensures totalSize == old(totalSize)
    {
      if !closed {
        var i := 0;
        while i < BucketCount
          invariant 0 <= i <= BucketCount && !closed
          invariant buckets == old(buckets) && Repr == old(Repr) && Owner == old(Owner)
          invariant Items == old(Items) && totalSize == old(totalSize)
          invariant forall j :: 0 <= j < BucketCount ==>
                      buckets[j].buffer == old(buckets[j].buffer) && Owner[buckets[j].buffer] == j
          invariant forall j :: 0 <= j < i ==> BucketHolds(buckets[j], Items[j], true)
          invariant forall j :: i <= j < BucketCount ==> BucketHolds(buckets[j], Items[j], false)
        {
          buckets[i].Close();
          i := i + 1;
        }
        closed := true;
      }
    }
  }
}
