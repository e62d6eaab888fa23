/**
 * The `fib_ctx` records of one Fibonacci run, shared by the thread-pool version of
 * c/benchmarks.c and the goroutine version of go/fib.go: a `FibTree` holds the records
 * by node id and applies the record updates of `fibonacci_task` and
 * `fibonacci_finish_task`.  How a step is scheduled (a pool queue, a goroutine, or an
 * inline call) is the caller's business; the caller passes the steps it has queued (q)
 * and the steps it has in hand (rest), so that each update states how the multiset of
 * pending steps changes.
 */
module ForkJoin {
  import opened Wrappers
  import opened Fibonacci
  import opened TaskTree
  import opened TreeSteps

  /** A node whose record no later step changes: its result is in, or it has finished. */
  predicate Settled(p: Phase)
  {
    p.Computed? || p.Done? || p.Freed?
  }

  /** A node whose finish step has run: freed, or the completed root. */
  predicate HasFinished(p: Phase)
  {
    p.Done? || p.Freed?
  }

  /**
   * What every step keeps of an earlier state (nodes0, phases0) of the records: no node
   * disappears; no node's size or parent changes; a node whose task has run never becomes
   * Ready again; a settled node stays settled with its record unchanged; and a finished
   * node stays as it is.
   */
  ghost predicate Keeps(nodes0: seq<FibCtx>, phases0: seq<Phase>, nodes1: seq<FibCtx>, phases1: seq<Phase>)
  {
    && |nodes0| == |phases0| <= |nodes1| == |phases1|
    && forall i | 0 <= i < |nodes0| :: KeptAt(nodes0, phases0, nodes1, phases1, i)
  }

  ghost predicate KeptAt(nodes0: seq<FibCtx>, phases0: seq<Phase>, nodes1: seq<FibCtx>, phases1: seq<Phase>, i: nat)
    requires |nodes0| == |phases0| <= |nodes1| == |phases1| && i < |nodes0|
  {
    && nodes1[i].n == nodes0[i].n && nodes1[i].parent == nodes0[i].parent
    && (!phases0[i].Ready? ==> !phases1[i].Ready?)
    && (Settled(phases0[i]) ==> Settled(phases1[i]) && nodes1[i] == nodes0[i])
    && (HasFinished(phases0[i]) ==> phases1[i] == phases0[i])
  }

  /** Step s has run: the node's task has run, or its finish step has. */
  ghost predicate StepRan(s: Step, phases: seq<Phase>)
  {
    s.id < |phases| && if s.RunTask? then !phases[s.id].Ready? else HasFinished(phases[s.id])
  }

  lemma {:induction false} KeepsSame(nodes: seq<FibCtx>, phases: seq<Phase>)
    requires |nodes| == |phases|
    ensures Keeps(nodes, phases, nodes, phases)
  {
    forall i | 0 <= i < |nodes|
      ensures KeptAt(nodes, phases, nodes, phases, i)
    {
    }
  }

  lemma {:induction false} KeepsTrans(nodes0: seq<FibCtx>, phases0: seq<Phase>, nodes1: seq<FibCtx>, phases1: seq<Phase>,
                                      nodes2: seq<FibCtx>, phases2: seq<Phase>)
    requires Keeps(nodes0, phases0, nodes1, phases1) && Keeps(nodes1, phases1, nodes2, phases2)
    ensures Keeps(nodes0, phases0, nodes2, phases2)
  {
    forall i | 0 <= i < |nodes0|
      ensures KeptAt(nodes0, phases0, nodes2, phases2, i)
    {
      assert KeptAt(nodes0, phases0, nodes1, phases1, i);
      assert KeptAt(nodes1, phases1, nodes2, phases2, i);
    }
  }

  /** A step that has run stays run. */
  lemma {:induction false} RanKept(s: Step, nodes0: seq<FibCtx>, phases0: seq<Phase>, nodes1: seq<FibCtx>, phases1: seq<Phase>)
    requires Keeps(nodes0, phases0, nodes1, phases1) && StepRan(s, phases0)
    ensures StepRan(s, phases1)
  {
    assert KeptAt(nodes0, phases0, nodes1, phases1, s.id);
  }

  /** The join of child c keeps the records: c was Computed and its parent was Awaiting. */
  lemma {:induction false} JoinKeeps(nodes: seq<FibCtx>, phases: seq<Phase>, pend: multiset<Step>, c: nat, exact: bool)
    requires TreeInv(nodes, phases, pend, exact) && Finish(c) in pend
    requires 0 < c < |nodes| && nodes[c].parent.Some? && nodes[c].parent.value < c
    ensures Keeps(nodes, phases, Joined(nodes, c), JoinedPhases(nodes, phases, c))
  {
    assert PendAt(phases, pend, c);
    assert NodeOk(nodes, phases, c, exact);
    var nodes', phases' := Joined(nodes, c), JoinedPhases(nodes, phases, c);
    forall i | 0 <= i < |nodes|
      ensures KeptAt(nodes, phases, nodes', phases', i)
    {
    }
  }

  /**
   * Step s was handed to the scheduler when its queue of waiting steps (the pool's queue,
   * or the goroutines not yet run) was `before`: the queue is now `queued`, which is
   * `before` with s appended unless s ran inline (`full`); a step run inline has run, as
   * the `phases` of the records say.
   */
  ghost predicate Dispatched(s: Step, before: seq<Step>, full: bool, queued: seq<Step>, phases: seq<Phase>)
  {
    && (!full ==> queued == before + [s])
    && (full ==> StepRan(s, phases))
  }

  /**
   * The forking branch of `fibonacci_task` on node id of size n, with l the first free id
   * and `before`/`full` the waiting steps when it started, seen in records `nodes`/`phases` and
   * queue `queued`: children n-1 (left) and n-2 (right) with parent id got the ids l and
   * l+1, the right one has run, and the left one was queued right after `before` or, on a
   * full queue, has run.
   */
  ghost predicate Forked(id: nat, n: int, l: nat, before: seq<Step>, full: bool,
                         nodes: seq<FibCtx>, phases: seq<Phase>, queued: seq<Step>)
  {
    && l + 1 < |nodes| == |phases|
    && nodes[l].n == n - 1 && nodes[l].parent == Some(id)
    && nodes[l + 1].n == n - 2 && nodes[l + 1].parent == Some(id)
    && StepRan(RunTask(l + 1), phases)
    && (!full ==> |before| < |queued| && queued[|before|] == RunTask(l))
    && (full ==> StepRan(RunTask(l), phases))
  }

  /** The two halves of a fork, put together: `Split`, then the left child's dispatch, then the right child's run. */
  lemma {:induction false} ForkOutcome(id: nat, n: int, l: nat, before: seq<Step>, full: bool,
                                       nodes1: seq<FibCtx>, phases1: seq<Phase>,
                                       nodes2: seq<FibCtx>, phases2: seq<Phase>, middle: seq<Step>,
                                       nodes3: seq<FibCtx>, phases3: seq<Phase>, queued: seq<Step>)
    requires l + 1 < |nodes1|
    requires nodes1[l].n == n - 1 && nodes1[l].parent == Some(id)
    requires nodes1[l + 1].n == n - 2 && nodes1[l + 1].parent == Some(id)
    requires Keeps(nodes1, phases1, nodes2, phases2) && Keeps(nodes2, phases2, nodes3, phases3)
    requires Dispatched(RunTask(l), before, full, middle, phases2)
    requires StepRan(RunTask(l + 1), phases3) && middle <= queued
    ensures Forked(id, n, l, before, full, nodes3, phases3, queued)
  {
    assert KeptAt(nodes1, phases1, nodes2, phases2, l);
    assert KeptAt(nodes1, phases1, nodes2, phases2, l + 1);
    assert KeptAt(nodes2, phases2, nodes3, phases3, l);
    assert KeptAt(nodes2, phases2, nodes3, phases3, l + 1);
    if full {
      RanKept(RunTask(l), nodes2, phases2, nodes3, phases3);
    } else {
      assert queued[|before|] == middle[|before|];
    }
  }

  class FibTree {
    /** `fib_number`: the root's problem size. */
    const fibNumber: int
    /** Whether leaves up to `SerialCutoff` are computed by `fib_serial`. */
    const cutoff: bool
    /** Whether no child allocation can fail in this run. */
    const allocFree: bool
    /** The `fib_ctx` records, by node id; id 0 is the root. */
    var nodes: seq<FibCtx>
    ghost var phases: seq<Phase>
    /** False once some node recorded an allocation failure. */
    ghost var exact: bool
    /** How many times `fibonacci_finish_task` has run on each node. */
    ghost var finishRuns: seq<nat>

    /**
     * The tree invariant for the pending steps `pend`: results are exact unless an
     * allocation failed, and each node's finish step has run once if the node is
     * finished and never otherwise.
     */
    ghost predicate Ok(pend: multiset<Step>)
      reads this
    {
      TreeState(nodes, phases, finishRuns, pend, exact, fibNumber, allocFree)
    }

    /** The work that is left: `Measure` of the tree. */
    ghost function Left(): nat
      reads this
      requires |nodes| == |phases|
    {
      Measure(nodes, phases, cutoff)
    }

    /** The root record: n = fib_number, res = 0, pending = 0, no parent; its task step is pending. */
    constructor (fibNumber: int, cutoff: bool, allocFree: bool)
      ensures this.fibNumber == fibNumber && this.cutoff == cutoff && this.allocFree == allocFree
      ensures nodes == [FibCtx(fibNumber, 0, 0, None)]
      ensures Ok(multiset{RunTask(0)})
    {
      this.fibNumber := fibNumber;
      this.cutoff := cutoff;
      this.allocFree := allocFree;
      nodes := [FibCtx(fibNumber, 0, 0, None)];
      phases := [Ready];
      exact := true;
      finishRuns := [0];
      new;
      var root := RootTree(fibNumber);
      assert Counted(finishRuns, phases) by {
        assert CountAt(finishRuns, phases, 0);
      }
    }

    /**
     * `ctx->res = v` in a task that does not fork: node id becomes Computed and its
     * finish step replaces its task step; `exact'` says whether results stay exact.
     */
    method Record(id: nat, v: int, ghost exact': bool, ghost q: multiset<Step>, ghost rest: multiset<Step>)
      requires Ok(q + (multiset{RunTask(id)} + rest))
      requires exact' ==> exact && id < |nodes| && v == Fib(nodes[id].n)
      requires allocFree ==> exact'
      modifies this
      ensures id < |old(nodes)| && nodes == old(nodes)[id := old(nodes)[id].(res := v)]
      ensures Ok(q + (multiset{Finish(id)} + rest)) && Left() < old(Left())
      ensures Keeps(old(nodes), old(phases), nodes, phases) && phases[id].Computed?
    {
      PendingStep(nodes, phases, q, rest, RunTask(id), exact);
      ghost var nodes0, phases0, exact0 := nodes, phases, exact;
      nodes := nodes[id := nodes[id].(res := v)];
      phases := phases[id := Computed];
      exact := exact';
      LeafStep(nodes0, phases0, finishRuns, q, rest, id, v, exact0, exact', cutoff, fibNumber, allocFree,
               nodes, phases);
      forall i | 0 <= i < |nodes0|
        ensures KeptAt(nodes0, phases0, nodes, phases, i)
      {
      }
    }

    /**
     * The allocations of a forking task: children n-1 and n-2 with res 0, pending 0 and
     * parent id get the ids l and l+1, node id's pending becomes 2, and the children's
     * task steps replace the node's.
     */
    method Split(id: nat, ghost q: multiset<Step>, ghost rest: multiset<Step>) returns (l: nat)
      requires Ok(q + (multiset{RunTask(id)} + rest))
      requires id < |nodes| && !IsLeaf(nodes[id].n, cutoff)
      modifies this
      ensures l == |old(nodes)|
      ensures var n := old(nodes)[id].n;
              nodes == old(nodes)[id := old(nodes)[id].(pending := 2)]
                       + [FibCtx(n - 1, 0, 0, Some(id)), FibCtx(n - 2, 0, 0, Some(id))]
      ensures Ok(q + (multiset{RunTask(l)} + (multiset{RunTask(l + 1)} + rest))) && Left() < old(Left())
      ensures Keeps(old(nodes), old(phases), nodes, phases) && phases[id].Awaiting?
    {
      var n := nodes[id].n;
      l := |nodes|;
      ghost var nodes0, phases0, runs0 := nodes, phases, finishRuns;
      var left := FibCtx(n - 1, 0, 0, Some(id));
      var right := FibCtx(n - 2, 0, 0, Some(id));
      nodes := nodes + [left, right];
      nodes := nodes[id := nodes[id].(pending := 2)];
      phases := phases[id := Awaiting(l, l + 1)] + [Ready, Ready];
      finishRuns := finishRuns + [0, 0];
      ForkStep(nodes0, phases0, runs0, q, rest, id, exact, cutoff, fibNumber, allocFree,
               nodes, phases, finishRuns);
      assert nodes == nodes0[id := nodes0[id].(pending := 2)] + [left, right];
      PendingStep(nodes0, phases0, q, rest, RunTask(id), exact);
      forall i | 0 <= i < |nodes0|
        ensures KeptAt(nodes0, phases0, nodes, phases, i)
      {
      }
    }

    /** Facts about a pending step: it names a node in the matching phase, and only the root has no parent. */
    lemma {:induction false} Pending(s: Step, q: multiset<Step>, rest: multiset<Step>)
      requires Ok(q + (multiset{s} + rest))
      ensures s.id < |nodes| && |nodes| == |phases|
      ensures s.RunTask? ==> phases[s.id].Ready?
      ensures s.Finish? ==> phases[s.id].Computed?
      ensures nodes[s.id].parent.None? <==> s.id == 0
      ensures s.id > 0 ==> nodes[s.id].parent.Some? && nodes[s.id].parent.value < s.id
    {
      PendingStep(nodes, phases, q, rest, s, exact);
      OnlyRootOrphan(nodes, phases, q + (multiset{s} + rest), exact, s.id);
    }

    /**
     * The finish step of a node with a parent: the node's res is added into the
     * parent's res, the parent's pending drops by one (`previous` is its value before),
     * and the node is freed; when `previous` is 1 the parent's finish step is now pending.
     */
    method Join(id: nat, ghost q: multiset<Step>, ghost rest: multiset<Step>) returns (p: nat, previous: int)
      requires Ok(q + (multiset{Finish(id)} + rest))
      requires 0 < id < |nodes| && nodes[id].parent.Some? && nodes[id].parent.value < id
      modifies this
      ensures p == old(nodes)[id].parent.value && previous == old(nodes)[p].pending
      ensures nodes == old(nodes)[p := old(nodes)[p].(res := old(nodes)[p].res + old(nodes)[id].res,
                                                       pending := previous - 1)]
      ensures previous == 1 ==> Ok(q + (multiset{Finish(p)} + rest))
      ensures previous != 1 ==> Ok(q + rest)
      ensures Left() < old(Left())
      ensures Keeps(old(nodes), old(phases), nodes, phases) && phases[id].Freed?
      ensures previous == 1 ==> phases[p].Computed?
    {
      var ctx := nodes[id];
      p := ctx.parent.value;
      ghost var nodes0, phases0, runs0 := nodes, phases, finishRuns;
      previous := nodes[p].pending;
      phases := JoinedPhases(nodes, phases, id);
      nodes := nodes[p := nodes[p].(res := nodes[p].res + ctx.res, pending := previous - 1)];
      finishRuns := finishRuns[id := finishRuns[id] + 1];
      JoinStep(nodes0, phases0, runs0, q, rest, id, p, exact, cutoff, fibNumber, allocFree,
               nodes, phases, finishRuns);
      JoinKeeps(nodes0, phases0, q + (multiset{Finish(id)} + rest), id, exact);
    }

    /** The finish step of the root, which has no parent: no record changes, and the run is complete. */
    method FinishRoot(id: nat, ghost q: multiset<Step>, ghost rest: multiset<Step>)
      requires Ok(q + (multiset{Finish(id)} + rest))
      requires id < |nodes| && nodes[id].parent.None?
      modifies this
      ensures nodes == old(nodes)
      ensures Ok(q + rest) && Left() < old(Left())
      ensures Keeps(old(nodes), old(phases), nodes, phases) && phases[id].Done?
    {
      RootStep(nodes, phases, finishRuns, q, rest, id, exact, cutoff, fibNumber, allocFree);
      PendingStep(nodes, phases, q, rest, Finish(id), exact);
      ghost var phases0 := phases;
      phases := phases[0 := Done];
      finishRuns := finishRuns[0 := finishRuns[0] + 1];
      forall i | 0 <= i < |nodes|
        ensures KeptAt(nodes, phases0, nodes, phases, i)
      {
      }
    }

    /**
     * With no step pending the run is over: the root holds F(fib_number) unless an
     * allocation failed, and every node's finish step has run exactly once.
     */
    lemma {:induction false} Complete()
      requires Ok(multiset{})
      ensures allocFree ==> nodes[0].res == Fib(fibNumber)
      ensures |finishRuns| == |nodes| > 0 && forall i | 0 <= i < |finishRuns| :: finishRuns[i] == 1
    {
      Finished(nodes, phases, finishRuns, exact, fibNumber, allocFree);
    }
  }
}
