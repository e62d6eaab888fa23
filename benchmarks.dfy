/**
 * The benchmarks of c/benchmarks.c that carry logic: the continuation-passing
 * Fibonacci tree run on the thread pool, and the task split of the parallel-spawn
 * benchmark.
 *
 * The Fibonacci steps run on worker threads, so every `threadpool_submit` they make
 * is a worker's submission (`is_worker` true).  A `FibScheduler` joins the pool to the
 * `fib_ctx` records (a `FibTree`) of one `run_fibonacci` call; its methods are the two
 * task functions and `RunFibonacci` plays the part of the workers, one dequeued task at
 * a time.
 */
module Benchmarks {
  import opened Wrappers
  import opened Fibonacci
  import opened TaskTree
  import opened ForkJoin
  import ThreadPool
  import Ring

  class FibScheduler {
    /** The pool every `fib_ctx` of this run points to. */
    const pool: ThreadPool.Pool<Step>
    /** The `fib_ctx` records of this run. */
    const tree: FibTree
    /** The nodes whose `fibonacci_task` fails to allocate its children. */
    const allocFails: set<nat>

    /**
     * The scheduler invariant, for a multiset `hand` of steps that are pending but not
     * in the queue (the step being run, and the steps a caller will run after an inline
     * call returns): the pool is valid and running, and the tree invariant holds for the
     * queued steps plus `hand`.
     */
    ghost predicate Inv(hand: multiset<Step>)
      reads this, tree, pool, pool.queue
    {
      PoolReady() && tree.Ok(multiset(pool.Contents()) + hand) && tree.allocFree == (allocFails == {})
    }

    /** The pool is well formed and not shutting down. */
    ghost predicate PoolReady()
      reads this, pool, pool.queue
    {
      pool.Valid() && !pool.shutdownFlag
    }

    /** The work that is left in the tree. */
    ghost function Left(): nat
      reads this, tree
      requires |tree.nodes| == |tree.phases|
    {
      tree.Left()
    }

    constructor (pool: ThreadPool.Pool<Step>, tree: FibTree, allocFails: set<nat>)
      ensures this.pool == pool && this.tree == tree && this.allocFails == allocFails
    {
      this.pool := pool;
      this.tree := tree;
      this.allocFails := allocFails;
    }

    /**
     * The workers' loop until `threadpool_wait_all` may return: turns are taken while
     * `outstanding_tasks` is positive.
     */
    method Drain()
      requires Inv(multiset{}) && pool.executing == 0
      modifies tree, pool, pool.queue
      ensures Inv(multiset{}) && pool.outstandingTasks == 0 && pool.Contents() == []
    {
      while !pool.WaitAllDone()
        invariant Inv(multiset{}) && pool.executing == 0
        decreases Left()
      {
        WorkerTurn();
      }
    }

    /**
     * One turn of `worker_thread` on a pool with queued tasks: dequeue the front task,
     * run it, then decrement `outstanding_tasks`.
     */
    method WorkerTurn()
      requires Inv(multiset{}) && pool.executing == 0 && pool.outstandingTasks > 0
      modifies tree, pool, pool.queue
      ensures Inv(multiset{}) && pool.executing == 0 && Left() < old(Left())
    {
      ghost var queued := pool.Contents();
      assert queued != [] by {
        Ring.SlotsLength(pool.queue[..], pool.queueFront, pool.queueSize);
      }
      var t := pool.WorkerTake();
      assert t.Took?;
      assert queued == [t.task] + pool.Contents();
      assert multiset(pool.Contents()) + (multiset{t.task} + multiset{}) == multiset(queued) + multiset{};
      assert Inv(multiset{t.task} + multiset{});
      Run(t.task, multiset{});
      ghost var after := pool.Contents();
      var signalled := pool.WorkerFinish();
      assert pool.Contents() == after;
    }

    /** Runs one dequeued or inline step: `task.func(task.arg)`. */
    method Run(s: Step, ghost rest: multiset<Step>)
      requires Inv(multiset{s} + rest)
      modifies tree, pool, pool.queue
      ensures Inv(rest) && Left() < old(Left())
      ensures pool.executing == old(pool.executing)
      ensures Keeps(old(tree.nodes), old(tree.phases), tree.nodes, tree.phases) && StepRan(s, tree.phases)
      ensures old(pool.Contents()) <= pool.Contents()
      decreases Left(), 2
    {
      match s
      case RunTask(id) => FibonacciTask(id, rest);
      case Finish(id) => FibonacciFinishTask(id, rest);
    }

    /**
     * `threadpool_submit(ctx->pool, f, ctx)` from a worker: the step is queued, or, when
     * the queue is full, run on the spot.  The pool is never shut down during a run, so
     * a worker's submission is never dropped and never waits.
     */
    method Submit(s: Step, ghost rest: multiset<Step>)
      requires Inv(multiset{s} + rest)
      modifies tree, pool, pool.queue
      ensures Inv(rest) && Left() <= old(Left())
      ensures pool.executing == old(pool.executing)
      ensures Keeps(old(tree.nodes), old(tree.phases), tree.nodes, tree.phases)
      ensures old(pool.Contents()) <= pool.Contents()
      ensures Dispatched(s, old(pool.Contents()), old(pool.queueSize) == pool.queueCapacity, pool.Contents(), tree.phases)
      ensures old(pool.queueSize) < pool.queueCapacity ==> tree.nodes == old(tree.nodes) && tree.phases == old(tree.phases)
      ensures old(pool.queueSize) == pool.queueCapacity ==> Left() < old(Left())
      decreases Left(), 3
    {
      ghost var before := pool.Contents();
      var o := pool.Submit(true, s);
      if o.RanInline? {
        Run(s, rest);
      } else {
        assert o.Enqueued?;
        assert multiset(pool.Contents()) + rest == multiset(before) + (multiset{s} + rest);
        KeepsSame(tree.nodes, tree.phases);
      }
    }

    /**
     * `enqueue_or_run(ctx->pool, fibonacci_task, left)`: run the task inline when the
     * caller is a worker and the queue is full, otherwise submit it.  Either way the
     * outcome is `Submitted`: queued when there is room, run when the queue is full.
     */
    method EnqueueOrRun(id: nat, ghost rest: multiset<Step>)
      requires Inv(multiset{RunTask(id)} + rest)
      modifies tree, pool, pool.queue
      ensures Inv(rest) && Left() <= old(Left())
      ensures pool.executing == old(pool.executing)
      ensures Keeps(old(tree.nodes), old(tree.phases), tree.nodes, tree.phases)
      ensures old(pool.Contents()) <= pool.Contents()
      ensures Dispatched(RunTask(id), old(pool.Contents()), old(pool.queueSize) == pool.queueCapacity,
                        pool.Contents(), tree.phases)
      ensures old(pool.queueSize) < pool.queueCapacity ==> tree.nodes == old(tree.nodes) && tree.phases == old(tree.phases)
      ensures old(pool.queueSize) == pool.queueCapacity ==> Left() < old(Left())
      decreases Left(), 4
    {
      if pool.queueSize == pool.queueCapacity {
        FibonacciTask(id, rest);
      } else {
        Submit(RunTask(id), rest);
      }
    }

    /**
     * `fibonacci_task(ctx)`: a node with n < 2 gets res = n; with the cutoff, a node with
     * n <= 10 gets res = fib_serial(n); a node whose child allocation fails gets res = -1;
     * each of these submits its own finish step.  Any other node forks children n-1
     * and n-2, sets pending to 2, hands the left child to `enqueue_or_run` and runs the
     * right child itself.
     */
    method FibonacciTask(id: nat, ghost rest: multiset<Step>)
      requires Inv(multiset{RunTask(id)} + rest)
      modifies tree, pool, pool.queue
      ensures Inv(rest) && Left() < old(Left())
      ensures pool.executing == old(pool.executing)
      ensures Keeps(old(tree.nodes), old(tree.phases), tree.nodes, tree.phases) && StepRan(RunTask(id), tree.phases)
      ensures old(pool.Contents()) <= pool.Contents()
      ensures id < old(|tree.nodes|)
      ensures var n := old(tree.nodes[id].n);
              && (n < 2 ==> tree.nodes[id].res == n)
              && (2 <= n && tree.cutoff && n <= SerialCutoff ==> tree.nodes[id].res == Fib(n))
              && (!IsLeaf(n, tree.cutoff) && id in allocFails ==> tree.nodes[id].res == -1)
      ensures var n := old(tree.nodes[id].n);
              IsLeaf(n, tree.cutoff) || id in allocFails ==>
                Dispatched(Finish(id), old(pool.Contents()), old(pool.queueSize) == pool.queueCapacity,
                          pool.Contents(), tree.phases)
      ensures var n := old(tree.nodes[id].n);
              !IsLeaf(n, tree.cutoff) && id !in allocFails ==>
                Forked(id, n, old(|tree.nodes|), old(pool.Contents()), old(pool.queueSize) == pool.queueCapacity,
                       tree.nodes, tree.phases, pool.Contents())
      decreases Left(), 1
    {
      tree.Pending(RunTask(id), multiset(pool.Contents()), rest);
      var n := tree.nodes[id].n;
      if n < 2 {
        SetResult(id, n, tree.exact, rest);
      } else if tree.cutoff && n <= SerialCutoff {
        var v := FibSerial(n);
        SetResult(id, v, tree.exact, rest);
      } else if id in allocFails {
        SetResult(id, -1, false, rest);
      } else {
        Fork(id, rest);
      }
    }

    /**
     * `ctx->res = v; threadpool_submit(ctx->pool, fibonacci_finish_task, ctx)` for a
     * node that does not fork; `exact'` says whether results stay exact.
     */
    method SetResult(id: nat, v: int, ghost exact': bool, ghost rest: multiset<Step>)
      requires Inv(multiset{RunTask(id)} + rest)
      requires id < |tree.nodes|
      requires exact' ==> tree.exact && v == Fib(tree.nodes[id].n)
      requires allocFails == {} ==> exact'
      modifies tree, pool, pool.queue
      ensures Inv(rest) && Left() < old(Left())
      ensures pool.executing == old(pool.executing)
      ensures Keeps(old(tree.nodes), old(tree.phases), tree.nodes, tree.phases) && StepRan(RunTask(id), tree.phases)
      ensures old(pool.Contents()) <= pool.Contents()
      ensures tree.nodes[id] == old(tree.nodes[id]).(res := v)
      ensures Dispatched(Finish(id), old(pool.Contents()), old(pool.queueSize) == pool.queueCapacity,
                          pool.Contents(), tree.phases)
      decreases Left(), 0
    {
      ghost var nodes0, phases0 := tree.nodes, tree.phases;
      tree.Record(id, v, exact', multiset(pool.Contents()), rest);
      ghost var nodes1, phases1 := tree.nodes, tree.phases;
      Submit(Finish(id), rest);
      KeepsTrans(nodes0, phases0, nodes1, phases1, tree.nodes, tree.phases);
      assert KeptAt(nodes1, phases1, tree.nodes, tree.phases, id);
    }

    /**
     * The forking half of `fibonacci_task`: the children are handed to
     * `enqueue_or_run` (left) and run directly (right).
     */
    method Fork(id: nat, ghost rest: multiset<Step>)
      requires Inv(multiset{RunTask(id)} + rest)
      requires id < |tree.nodes| && !IsLeaf(tree.nodes[id].n, tree.cutoff)
      modifies tree, pool, pool.queue
      ensures Inv(rest) && Left() < old(Left())
      ensures pool.executing == old(pool.executing)
      ensures Keeps(old(tree.nodes), old(tree.phases), tree.nodes, tree.phases) && StepRan(RunTask(id), tree.phases)
      ensures old(pool.Contents()) <= pool.Contents()
      ensures Forked(id, old(tree.nodes[id].n), old(|tree.nodes|), old(pool.Contents()),
                     old(pool.queueSize) == pool.queueCapacity, tree.nodes, tree.phases, pool.Contents())
      decreases Left(), 0
    {
      ghost var nodes0, phases0, before := tree.nodes, tree.phases, pool.Contents();
      ghost var full := pool.queueSize == pool.queueCapacity;
      var l := tree.Split(id, multiset(pool.Contents()), rest);
      ghost var nodes1, phases1 := tree.nodes, tree.phases;
      EnqueueOrRun(l, multiset{RunTask(l + 1)} + rest);
      ghost var nodes2, phases2, middle := tree.nodes, tree.phases, pool.Contents();
      FibonacciTask(l + 1, rest);
      ForkOutcome(id, nodes0[id].n, l, before, full, nodes1, phases1, nodes2, phases2, middle,
                  tree.nodes, tree.phases, pool.Contents());
      KeepsTrans(nodes1, phases1, nodes2, phases2, tree.nodes, tree.phases);
      KeepsTrans(nodes0, phases0, nodes1, phases1, tree.nodes, tree.phases);
      assert KeptAt(nodes1, phases1, tree.nodes, tree.phases, id);
    }

    /**
     * `fibonacci_finish_task(ctx)`: for a node with a parent, add res into the parent's
     * res, decrement the parent's pending, submit the parent's finish step when the
     * value before the decrement was 1, and free the node.  The root's finish step
     * changes nothing.
     */
    method FibonacciFinishTask(id: nat, ghost rest: multiset<Step>)
      requires Inv(multiset{Finish(id)} + rest)
      modifies tree, pool, pool.queue
      ensures Inv(rest) && Left() < old(Left())
      ensures pool.executing == old(pool.executing)
      ensures Keeps(old(tree.nodes), old(tree.phases), tree.nodes, tree.phases) && StepRan(Finish(id), tree.phases)
      ensures old(pool.Contents()) <= pool.Contents()
      ensures id < old(|tree.nodes|)
      ensures old(tree.nodes[id].parent).None? ==>
                tree.nodes == old(tree.nodes) && pool.Contents() == old(pool.Contents())
      ensures old(tree.nodes[id].parent).Some? ==>
                var p := old(tree.nodes[id].parent.value);
                && p < old(|tree.nodes|)
                && tree.nodes[p].res == old(tree.nodes[p].res) + old(tree.nodes[id].res)
                && tree.nodes[p].pending == old(tree.nodes[p].pending) - 1
                && (old(tree.nodes[p].pending) == 1 ==>
                      Dispatched(Finish(p), old(pool.Contents()), old(pool.queueSize) == pool.queueCapacity,
                                pool.Contents(), tree.phases))
                && (old(tree.nodes[p].pending) != 1 ==> pool.Contents() == old(pool.Contents()))
      decreases Left(), 1
    {
      tree.Pending(Finish(id), multiset(pool.Contents()), rest);
      if tree.nodes[id].parent.Some? {
        var p, previous := tree.Join(id, multiset(pool.Contents()), rest);
        if previous == 1 {
          ghost var nodes0, phases0 := old(tree.nodes), old(tree.phases);
          ghost var nodes1, phases1 := tree.nodes, tree.phases;
          Submit(Finish(p), rest);
          KeepsTrans(nodes0, phases0, nodes1, phases1, tree.nodes, tree.phases);
          assert KeptAt(nodes1, phases1, tree.nodes, tree.phases, p);
          RanKept(Finish(id), nodes1, phases1, tree.nodes, tree.phases);
        }
      } else {
        tree.FinishRoot(id, multiset(pool.Contents()), rest);
      }
    }

  }

  /**
   * `run_fibonacci(pool, fib_number)` on an idle, running pool, with the workers' loop
   * run one dequeued task at a time until `threadpool_wait_all` may return.  The root
   * record is not allocated when `rootAllocOk` is false.  Otherwise the records of the
   * run are returned with nothing pending: without allocation failures the root holds
   * F(fib_number), every node's finish step has run exactly once, and the pool is idle.
   */
  method RunFibonacci(pool: ThreadPool.Pool<Step>, fibNumber: int, cutoff: bool, allocFails: set<nat>,
                      rootAllocOk: bool)
      returns (res: Option<int>, tree: FibTree?)
    requires pool.Valid() && !pool.shutdownFlag && pool.outstandingTasks == 0
    modifies pool, pool.queue
    ensures pool.Valid() && !pool.shutdownFlag && pool.outstandingTasks == 0
    ensures res.None? <==> !rootAllocOk
    ensures res.None? <==> tree == null
    ensures res.Some? ==>
              && tree != null && fresh(tree)
              && tree.fibNumber == fibNumber && tree.cutoff == cutoff && tree.allocFree == (allocFails == {})
              && tree.Ok(multiset{})
              && tree.nodes[0].n == fibNumber && tree.nodes[0].parent.None? && res.value == tree.nodes[0].res
              && |tree.finishRuns| == |tree.nodes| && (forall i | 0 <= i < |tree.nodes| :: tree.finishRuns[i] == 1)
    ensures res.Some? && allocFails == {} ==> res.value == Fib(fibNumber)
  {
    if !rootAllocOk {
      return None, null;
    }
    tree := new FibTree(fibNumber, cutoff, allocFails == {});
    var s := new FibScheduler(pool, tree, allocFails);
    assert pool.Contents() == [] by {
      Ring.SlotsLength(pool.queue[..], pool.queueFront, pool.queueSize);
    }
    var o := pool.Submit(false, RunTask(0));
    assert o.Enqueued?;
    assert multiset(pool.Contents()) + multiset{} == multiset{RunTask(0)};
    s.Drain();
    assert multiset(pool.Contents()) + multiset{} == multiset{};
    tree.Complete();
    res := Some(tree.nodes[0].res);
  }
}
