/**
 * The bounded-queue thread pool of c/threadpool.c, with its worker threads replaced
 * by a sequential scheduler: a worker's loop body is split into `WorkerTake` (lock,
 * wait for work, dequeue) and `WorkerFinish` (the decrement of `outstanding_tasks`
 * after the task body has run), and a condition-variable wait becomes an outcome that
 * says the step is not enabled yet.  Tasks are abstract values of type T.
 */
module ThreadPool {
  import Ring
  import opened Wrappers

  /** `DEFAULT_QUEUE_CAPACITY`: the fixed number of slots of every pool's queue. */
  const DefaultQueueCapacity: int := 700000

  /** What `threadpool_submit` did with a task. */
  datatype SubmitOutcome<T> =
    | RanInline(task: T)  // a worker met a full queue: the caller runs the task itself, now
    | Enqueued            // stored at the rear of the queue and counted as outstanding
    | Dropped             // the pool is shutting down: the task never runs
    | WouldBlock          // a non-worker met a full queue: it waits until a slot frees up

  /** What one turn of `worker_thread`'s loop did up to the point where the task runs. */
  datatype TakeOutcome<T> =
    | Took(task: T)       // dequeued from the front; the worker now runs it
    | Idle                // queue empty, no shutdown: the worker waits for work
    | Exit                // shutdown and queue empty: the worker leaves its loop

  class Pool<T(0)> {
    const numThreads: int
    const queueCapacity: int
    const queue: array<T>
    var queueSize: int
    var queueFront: int
    var queueRear: int
    var outstandingTasks: int
    var shutdownFlag: bool

    /** Tasks a worker has dequeued and whose body has not returned yet. */
    ghost var executing: nat
    /** Every task ever stored in the queue, in the order it was stored. */
    ghost var accepted: seq<T>
    /** Every task ever dequeued by a worker, in the order it was dequeued. */
    ghost var taken: seq<T>

    /** The ring's shape: the invariant the queue operations keep. */
    ghost predicate RingOk()
      reads this
    {
      && queue.Length == queueCapacity
      && Ring.Window(queueCapacity, queueFront, queueSize)
      && 0 <= queueRear < queueCapacity
      && queueRear == (queueFront + queueSize) % queueCapacity
    }

    /** The queued tasks, oldest first. */
    ghost function Contents(): seq<T>
      reads this, queue
      requires RingOk()
    {
      Ring.Slots(queue[..], queueFront, queueSize)
    }

    /**
     * The pool invariant: the ring is well formed, `outstanding_tasks` counts exactly
     * the queued and the executing tasks, and the queue holds exactly the tasks stored
     * but not yet dequeued, in the order they were stored (FIFO).
     */
    ghost predicate Valid()
      reads this, queue
    {
      && RingOk()
      && outstandingTasks == queueSize + executing
      && accepted == taken + Contents()
    }

    /** `threadpool_create` when every allocation and thread start succeeds. */
    constructor (numThreads: int)
      ensures Valid() && fresh(queue)
      ensures this.numThreads == numThreads && queueCapacity == DefaultQueueCapacity
      ensures queueSize == 0 && queueFront == 0 && queueRear == 0
      ensures outstandingTasks == 0 && !shutdownFlag
      ensures executing == 0 && accepted == [] && taken == [] && Contents() == []
    {
      this.numThreads := numThreads;
      queueCapacity := DefaultQueueCapacity;
      queue := new T[DefaultQueueCapacity];
      queueSize, queueFront, queueRear := 0, 0, 0;
      outstandingTasks := 0;
      shutdownFlag := false;
      executing, accepted, taken := 0, [], [];
    }

    /**
     * `threadpool_submit(pool, func, arg)` called by a worker (`isWorker`) or by another
     * thread: the inline fallback, the increment of `outstanding_tasks`, the wait for a
     * free slot, the drop on shutdown (with its decrement) and the push at `queue_rear`.
     */
    method Submit(isWorker: bool, t: T) returns (o: SubmitOutcome<T>)
      requires Valid()
      modifies this, queue
      ensures Valid()
      ensures o == (if isWorker && old(queueSize) == queueCapacity then RanInline(t)
                    else if old(shutdownFlag) then Dropped
                    else if old(queueSize) == queueCapacity then WouldBlock
                    else Enqueued)
      ensures o.Enqueued? ==>
                && queue[old(queueRear)] == t
                && queueRear == (old(queueRear) + 1) % queueCapacity
                && queueSize == old(queueSize) + 1
                && queueFront == old(queueFront)
                && outstandingTasks == old(outstandingTasks) + 1
                && Contents() == old(Contents()) + [t]
                && accepted == old(accepted) + [t]
                && queue[..] == old(queue[..])[old(queueRear) := t]
      ensures !o.Enqueued? ==>
                && queueSize == old(queueSize) && queueFront == old(queueFront) && queueRear == old(queueRear)
                && outstandingTasks == old(outstandingTasks)
                && queue[..] == old(queue[..]) && accepted == old(accepted)
      ensures shutdownFlag == old(shutdownFlag) && executing == old(executing) && taken == old(taken)
    {
      if isWorker && queueSize == queueCapacity {
        return RanInline(t);
      }
      if queueSize == queueCapacity && !shutdownFlag {
        // the wait on `queue_not_full`: this submission is not enabled until a worker
        // dequeues; it has no effect now and is repeated, increment included, later
        return WouldBlock;
      }
      outstandingTasks := outstandingTasks + 1;
      if shutdownFlag {
        outstandingTasks := outstandingTasks - 1;
        return Dropped;
      }
      ghost var buf := queue[..];
      ghost var before := Contents();
      Ring.PushStep(buf, queueFront, queueSize, queueRear, t);
      queue[queueRear] := t;
      assert queue[..] == buf[queueRear := t];
      queueRear := (queueRear + 1) % queueCapacity;
      queueSize := queueSize + 1;
      accepted := accepted + [t];
      assert Contents() == before + [t];
      o := Enqueued;
    }

    /**
     * The first half of one turn of `worker_thread`: wait while the queue is empty and
     * the pool is running, leave when shut down with an empty queue, otherwise take the
     * task at `queue_front` and advance the front.  After shutdown queued tasks are
     * still taken: the workers drain the queue before they exit.
     */
    method WorkerTake() returns (o: TakeOutcome<T>)
      requires Valid()
      modifies this
      ensures Valid()
      ensures o == (if old(queueSize) == 0 && !shutdownFlag then Idle
                    else if old(queueSize) == 0 then Exit
                    else Took(old(Contents())[0]))
      ensures o.Took? ==>
                && o.task == old(queue[queueFront])
                && queueFront == (old(queueFront) + 1) % queueCapacity
                && queueSize == old(queueSize) - 1
                && queueRear == old(queueRear)
                && Contents() == old(Contents())[1..]
                && executing == old(executing) + 1
                && taken == old(taken) + [o.task]
      ensures !o.Took? ==>
                && queueSize == old(queueSize) && queueFront == old(queueFront)
                && executing == old(executing) && taken == old(taken)
      ensures outstandingTasks == old(outstandingTasks) && shutdownFlag == old(shutdownFlag)
      ensures queueRear == old(queueRear) && accepted == old(accepted)
    {
      if queueSize == 0 && !shutdownFlag {
        return Idle;
      }
      if shutdownFlag && queueSize == 0 {
        return Exit;
      }
      var task := queue[queueFront];
      ghost var buf := queue[..];
      ghost var before := Contents();
      var front' := (queueFront + 1) % queueCapacity;
      Ring.PopStep(buf, queueFront, queueSize, queueRear);
      ghost var rest := Ring.Slots(buf, front', queueSize - 1);
      assert before == [task] + rest;
      assert accepted == (taken + [task]) + rest;
      queueFront := front';
      queueSize := queueSize - 1;
      executing := executing + 1;
      taken := taken + [task];
      assert Contents() == rest;
      assert rest == before[1..];
      o := Took(task);
    }

    /**
     * The second half of one turn of `worker_thread`, after the task body returned:
     * `outstanding_tasks` is decremented and completion is signalled exactly when the
     * new value is zero.
     */
    method WorkerFinish() returns (signalled: bool)
      requires Valid() && executing > 0
      modifies this
      ensures Valid()
      ensures outstandingTasks == old(outstandingTasks) - 1 && executing == old(executing) - 1
      ensures signalled <==> outstandingTasks == 0
      ensures signalled ==> queueSize == 0 && executing == 0
      ensures queueSize == old(queueSize) && queueFront == old(queueFront) && queueRear == old(queueRear)
      ensures shutdownFlag == old(shutdownFlag) && accepted == old(accepted) && taken == old(taken)
    {
      var remaining := outstandingTasks - 1;
      outstandingTasks := remaining;
      executing := executing - 1;
      signalled := remaining == 0;
    }

    /** The part of `threadpool_destroy` that is not thread management: set the shutdown flag. */
    method Shutdown()
      requires Valid()
      modifies this
      ensures Valid() && shutdownFlag
      ensures queueSize == old(queueSize) && queueFront == old(queueFront) && queueRear == old(queueRear)
      ensures outstandingTasks == old(outstandingTasks) && executing == old(executing)
      ensures accepted == old(accepted) && taken == old(taken)
    {
      shutdownFlag := true;
    }

    /**
     * Whether `threadpool_wait_all` can return: its loop waits while `outstanding_tasks > 0`.
     * When it can, no task is queued and none is executing.
     */
    function WaitAllDone(): (done: bool)
      requires Valid()
      reads this, queue
      ensures done <==> outstandingTasks <= 0
      ensures done ==> queueSize == 0 && executing == 0 && Contents() == [] && accepted == taken
    {
      Ring.SlotsLength(queue[..], queueFront, queueSize);
      outstandingTasks <= 0
    }
  }

  /**
   * `threadpool_create(num_threads)`: NULL when a malloc, a mutex/condition
   * initialisation or a thread start fails (`resourcesOk` false), otherwise a fresh,
   * empty, running pool.
   */
  method Create<T(0)>(numThreads: int, resourcesOk: bool) returns (p: Option<Pool<T>>)
    ensures p.Some? <==> resourcesOk
    ensures p.Some? ==> fresh(p.value) && p.value.Valid() && p.value.numThreads == numThreads
    ensures p.Some? ==> p.value.queueSize == 0 && p.value.outstandingTasks == 0 && !p.value.shutdownFlag
  {
    if !resourcesOk {
      return None;
    }
    var pool := new Pool<T>(numThreads);
    return Some(pool);
  }
}
