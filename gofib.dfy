/**
 * The goroutine version of the Fibonacci tree in go/fib.go.  Instead of a pool queue,
 * `enqueueOrRun` either runs a step inline or starts a goroutine for it, depending on
 * the global `activeWorkers` counter.  A `GoScheduler` holds that counter, the
 * goroutines that were started but have not run yet, and the `fibCtx` records (a
 * `FibTree`, always with the serial cutoff and never with a failed allocation).  A
 * goroutine runs to its end once it is picked; the pick is arbitrary.
 */
module GoFib {
  import opened Fibonacci
  import opened TaskTree
  import opened ForkJoin

  /**
   * The `maxWorkers` choice of `runFibonacci`: `numThreads` when goroutines are limited
   * and `numThreads * 4` otherwise.  For a positive thread count it lies between the two,
   * and it is the thread count exactly when goroutines are limited.
   */
  function MaxWorkers(numThreads: int, limitGoroutines: bool): (m: int)
    ensures limitGoroutines ==> m == numThreads
    ensures !limitGoroutines ==> m == 4 * numThreads
    ensures numThreads > 0 ==> numThreads <= m <= 4 * numThreads
    ensures numThreads > 0 ==> (m == numThreads <==> limitGoroutines)
  {
    if limitGoroutines then numThreads else numThreads * 4
  }

  /** The most goroutines that can be alive at once: `maxWorkers`, but at least the root's. */
  function WorkerBound(maxWorkers: int): nat
  {
    if maxWorkers < 1 then 1 else maxWorkers
  }

  class GoScheduler {
    /** `maxWorkers`, captured by every closure of one run. */
    const maxWorkers: int
    /** The `fibCtx` records of this run. */
    const tree: FibTree
    /** `activeWorkers`: goroutines started and not yet ended. */
    var activeWorkers: int
    /** The steps of the goroutines started but not yet picked to run. */
    var goroutines: seq<Step>
    /** 1 while a goroutine runs, 0 between goroutines. */
    ghost var running: nat
    /** The largest value `activeWorkers` has had. */
    ghost var peak: int

    /**
     * The scheduler invariant, for a multiset `hand` of steps that are pending but not
     * in a goroutine: `activeWorkers` counts the waiting goroutines and the running one,
     * it has never exceeded `maxWorkers` (or 1, for the root's goroutine), and the tree
     * invariant holds for the goroutines' steps plus `hand`.
     */
    ghost predicate Inv(hand: multiset<Step>)
      reads this, tree
    {
      && running <= 1
      && activeWorkers == |goroutines| + running
      && activeWorkers <= peak <= WorkerBound(maxWorkers)
      && tree.cutoff && tree.allocFree
      && tree.Ok(multiset(goroutines) + hand)
    }

    /** The work that is left in the tree. */
    ghost function Left(): nat
      reads this, tree
      requires |tree.nodes| == |tree.phases|
    {
      tree.Left()
    }

    /** The state before the root's goroutine is started: no goroutines, `activeWorkers` is 0. */
    constructor (maxWorkers: int, tree: FibTree)
      ensures this.maxWorkers == maxWorkers && this.tree == tree
      ensures activeWorkers == 0 && goroutines == [] && running == 0 && peak == 0
    {
      this.maxWorkers := maxWorkers;
      this.tree := tree;
      activeWorkers := 0;
      goroutines := [];
      running := 0;
      peak := 0;
    }

    /**
     * The wait loop of `runFibonacci`: goroutines are run, in any order, while
     * `activeWorkers` is positive.
     */
    method Drain()
      requires Inv(multiset{}) && running == 0
      modifies this, tree
      ensures Inv(multiset{}) && running == 0 && activeWorkers == 0 && goroutines == []
      ensures peak >= old(peak)
    {
      while activeWorkers > 0
        invariant Inv(multiset{}) && running == 0 && peak >= old(peak)
        decreases Left()
      {
        GoroutineTurn();
      }
    }

    /**
     * One goroutine, picked among the waiting ones, runs its step and then, by its
     * deferred `atomic.AddInt64(&activeWorkers, -1)`, leaves the count.
     */
    method GoroutineTurn()
      requires Inv(multiset{}) && running == 0 && |goroutines| > 0
      modifies this, tree
      ensures Inv(multiset{}) && running == 0 && Left() < old(Left()) && peak >= old(peak)
    {
      var k :| 0 <= k < |goroutines|;
      var s := goroutines[k];
      assert goroutines == goroutines[..k] + [s] + goroutines[k + 1..];
      goroutines := goroutines[..k] + goroutines[k + 1..];
      running := 1;
      assert multiset(old(goroutines)) + multiset{} == multiset(goroutines) + (multiset{s} + multiset{});
      Run(s, multiset{});
      activeWorkers := activeWorkers - 1;
      running := 0;
    }

    /** Runs a step: `fn(ctx)` with `fn` the task or the finish closure. */
    method Run(s: Step, ghost rest: multiset<Step>)
      requires Inv(multiset{s} + rest)
      modifies this, tree
      ensures Inv(rest) && Left() < old(Left()) && running == old(running) && peak >= old(peak)
      ensures Keeps(old(tree.nodes), old(tree.phases), tree.nodes, tree.phases) && StepRan(s, tree.phases)
      ensures old(goroutines) <= goroutines
      decreases Left(), 2
    {
      match s
      case RunTask(id) => FibonacciTask(id, rest);
      case Finish(id) => FibonacciFinishTask(id, rest);
    }

    /**
     * `enqueueOrRun(fn, ctx, maxWorkers)`: when `activeWorkers >= maxWorkers` the step
     * runs inline; otherwise `activeWorkers` is incremented and a goroutine is started
     * for the step, leaving the records as they are.
     */
    method EnqueueOrRun(s: Step, ghost rest: multiset<Step>)
      requires Inv(multiset{s} + rest)
      modifies this, tree
      ensures Inv(rest) && Left() <= old(Left()) && running == old(running) && peak >= old(peak)
      ensures Keeps(old(tree.nodes), old(tree.phases), tree.nodes, tree.phases)
      ensures old(goroutines) <= goroutines
      ensures Dispatched(s, old(goroutines), old(activeWorkers) >= maxWorkers, goroutines, tree.phases)
      ensures old(activeWorkers) < maxWorkers ==>
                && activeWorkers == old(activeWorkers) + 1
                && tree.nodes == old(tree.nodes) && tree.phases == old(tree.phases)
      ensures old(activeWorkers) >= maxWorkers ==> Left() < old(Left())
      decreases Left(), 3
    {
      if activeWorkers >= maxWorkers {
        Run(s, rest);
      } else {
        activeWorkers := activeWorkers + 1;
        goroutines := goroutines + [s];
        if peak < activeWorkers {
          peak := activeWorkers;
        }
        assert multiset(goroutines) + rest == multiset(old(goroutines)) + (multiset{s} + rest);
        KeepsSame(tree.nodes, tree.phases);
      }
    }

    /**
     * `fibonacciTask(ctx, maxWorkers)`: a node with n < 2 gets res = n and one with
     * n <= 10 gets res = fibSerial(n), and either hands its finish step to
     * `enqueueOrRun`.  Any other node gets children n-1 and n-2 with res 0, pending 0 and
     * parent ctx, stores pending = 2, hands the left child to `enqueueOrRun` and runs
     * the right child itself.
     */
    method FibonacciTask(id: nat, ghost rest: multiset<Step>)
      requires Inv(multiset{RunTask(id)} + rest)
      modifies this, tree
      ensures Inv(rest) && Left() < old(Left()) && running == old(running) && peak >= old(peak)
      ensures Keeps(old(tree.nodes), old(tree.phases), tree.nodes, tree.phases) && StepRan(RunTask(id), tree.phases)
      ensures old(goroutines) <= goroutines
      ensures id < old(|tree.nodes|)
      ensures var n := old(tree.nodes[id].n);
              && (n < 2 ==> tree.nodes[id].res == n)
              && (2 <= n <= SerialCutoff ==> tree.nodes[id].res == Fib(n))
              && (n <= SerialCutoff ==>
                    Dispatched(Finish(id), old(goroutines), old(activeWorkers) >= maxWorkers, goroutines, tree.phases))
              && (n > SerialCutoff ==>
                    Forked(id, n, old(|tree.nodes|), old(goroutines), old(activeWorkers) >= maxWorkers,
                           tree.nodes, tree.phases, goroutines))
      decreases Left(), 1
    {
      tree.Pending(RunTask(id), multiset(goroutines), rest);
      var n := tree.nodes[id].n;
      if n < 2 {
        SetResult(id, n, rest);
      } else if n <= SerialCutoff {
        var v := FibSerial(n);
        SetResult(id, v, rest);
      } else {
        Fork(id, rest);
      }
    }

    /**
     * The leaf branches of `fibonacciTask`: `ctx.res = v` with v = F(n), then the finish
     * step goes to `enqueueOrRun`.
     */
    method SetResult(id: nat, v: int, ghost rest: multiset<Step>)
      requires Inv(multiset{RunTask(id)} + rest)
      requires id < |tree.nodes| && v == Fib(tree.nodes[id].n)
      modifies this, tree
      ensures Inv(rest) && Left() < old(Left()) && running == old(running) && peak >= old(peak)
      ensures Keeps(old(tree.nodes), old(tree.phases), tree.nodes, tree.phases) && StepRan(RunTask(id), tree.phases)
      ensures old(goroutines) <= goroutines
      ensures tree.nodes[id] == old(tree.nodes[id]).(res := v)
      ensures Dispatched(Finish(id), old(goroutines), old(activeWorkers) >= maxWorkers, goroutines, tree.phases)
      decreases Left(), 0
    {
      ghost var nodes0, phases0 := tree.nodes, tree.phases;
      tree.Record(id, v, tree.exact, multiset(goroutines), rest);
      ghost var nodes1, phases1 := tree.nodes, tree.phases;
      EnqueueOrRun(Finish(id), rest);
      KeepsTrans(nodes0, phases0, nodes1, phases1, tree.nodes, tree.phases);
      assert KeptAt(nodes1, phases1, tree.nodes, tree.phases, id);
    }

    /**
     * The forking branch of `fibonacciTask`: the children are handed to `enqueueOrRun`
     * (left) and run directly (right).
     */
    method Fork(id: nat, ghost rest: multiset<Step>)
      requires Inv(multiset{RunTask(id)} + rest)
      requires id < |tree.nodes| && !IsLeaf(tree.nodes[id].n, tree.cutoff)
      modifies this, tree
      ensures Inv(rest) && Left() < old(Left()) && running == old(running) && peak >= old(peak)
      ensures Keeps(old(tree.nodes), old(tree.phases), tree.nodes, tree.phases) && StepRan(RunTask(id), tree.phases)
      ensures old(goroutines) <= goroutines
      ensures Forked(id, old(tree.nodes[id].n), old(|tree.nodes|), old(goroutines), old(activeWorkers) >= maxWorkers,
                     tree.nodes, tree.phases, goroutines)
      decreases Left(), 0
    {
      ghost var nodes0, phases0, before := tree.nodes, tree.phases, goroutines;
      ghost var inline := activeWorkers >= maxWorkers;
      var l := tree.Split(id, multiset(goroutines), rest);
      ghost var nodes1, phases1 := tree.nodes, tree.phases;
      EnqueueOrRun(RunTask(l), multiset{RunTask(l + 1)} + rest);
      ghost var nodes2, phases2, middle := tree.nodes, tree.phases, goroutines;
      FibonacciTask(l + 1, rest);
      ForkOutcome(id, nodes0[id].n, l, before, inline, nodes1, phases1, nodes2, phases2, middle,
                  tree.nodes, tree.phases, goroutines);
      KeepsTrans(nodes1, phases1, nodes2, phases2, tree.nodes, tree.phases);
      KeepsTrans(nodes0, phases0, nodes1, phases1, tree.nodes, tree.phases);
      assert KeptAt(nodes1, phases1, tree.nodes, tree.phases, id);
    }

    /**
     * `fibonacciFinishTask(ctx, maxWorkers)`: for a node with a parent, the node's res is
     * added into the parent's, the parent's pending is decremented, and when it reaches
     * 0 the parent's finish step goes to `enqueueOrRun`.  The root's finish step does
     * nothing.
     */
    method FibonacciFinishTask(id: nat, ghost rest: multiset<Step>)
      requires Inv(multiset{Finish(id)} + rest)
      modifies this, tree
      ensures Inv(rest) && Left() < old(Left()) && running == old(running) && peak >= old(peak)
      ensures Keeps(old(tree.nodes), old(tree.phases), tree.nodes, tree.phases) && StepRan(Finish(id), tree.phases)
      ensures old(goroutines) <= goroutines
      ensures id < old(|tree.nodes|)
      ensures old(tree.nodes[id].parent).None? ==> tree.nodes == old(tree.nodes) && goroutines == old(goroutines)
      ensures old(tree.nodes[id].parent).Some? ==>
                var p := old(tree.nodes[id].parent.value);
                && p < old(|tree.nodes|)
                && tree.nodes[p].res == old(tree.nodes[p].res) + old(tree.nodes[id].res)
                && tree.nodes[p].pending == old(tree.nodes[p].pending) - 1
                && (old(tree.nodes[p].pending) - 1 == 0 ==>
                      Dispatched(Finish(p), old(goroutines), old(activeWorkers) >= maxWorkers, goroutines, tree.phases))
                && (old(tree.nodes[p].pending) - 1 != 0 ==> goroutines == old(goroutines))
      decreases Left(), 1
    {
      tree.Pending(Finish(id), multiset(goroutines), rest);
      if tree.nodes[id].parent.Some? {
        var p, previous := tree.Join(id, multiset(goroutines), rest);
        if previous - 1 == 0 {
          ghost var nodes0, phases0 := old(tree.nodes), old(tree.phases);
          ghost var nodes1, phases1 := tree.nodes, tree.phases;
          EnqueueOrRun(Finish(p), rest);
          KeepsTrans(nodes0, phases0, nodes1, phases1, tree.nodes, tree.phases);
          assert KeptAt(nodes1, phases1, tree.nodes, tree.phases, p);
          RanKept(Finish(id), nodes1, phases1, tree.nodes, tree.phases);
        }
      } else {
        tree.FinishRoot(id, multiset(goroutines), rest);
      }
    }
  }

  /**
   * `runFibonacci(fibNumber, numThreads, limitGoroutines)`: the root record has
   * n = fibNumber, res 0, pending 0 and no parent; a goroutine is started for its task
   * and the call waits until `activeWorkers` is back to 0.  The scheduler of the run is
   * returned: the value returned, `root.res`, is F(fibNumber); every node's finish ran
   * exactly once; the counter ends at 0; and the counter's running maximum `peak`, never
   * below the root's one goroutine, stayed within `maxWorkers`.
   */
  method RunFibonacci(fibNumber: int, numThreads: int, limitGoroutines: bool)
      returns (res: int, g: GoScheduler)
    ensures fresh(g) && fresh(g.tree)
    ensures g.maxWorkers == MaxWorkers(numThreads, limitGoroutines)
    ensures g.Inv(multiset{}) && g.activeWorkers == 0 && g.goroutines == []
    ensures 1 <= g.peak <= WorkerBound(g.maxWorkers)
    ensures g.tree.fibNumber == fibNumber && g.tree.nodes[0].n == fibNumber && g.tree.nodes[0].parent.None?
    ensures res == g.tree.nodes[0].res && res == Fib(fibNumber)
    ensures |g.tree.finishRuns| == |g.tree.nodes| && forall i | 0 <= i < |g.tree.nodes| :: g.tree.finishRuns[i] == 1
  {
    var root := new FibTree(fibNumber, true, true);
    var maxWorkers := MaxWorkers(numThreads, limitGoroutines);
    g := new GoScheduler(maxWorkers, root);
    g.activeWorkers := g.activeWorkers + 1;
    g.goroutines := [RunTask(0)];
    g.peak := 1;
    assert multiset(g.goroutines) + multiset{} == multiset{RunTask(0)};
    g.Drain();
    assert multiset(g.goroutines) + multiset{} == multiset{};
    root.Complete();
    res := root.nodes[0].res;
  }
}
