/**
 * The fork-join transitions of `TaskTree` stated for a scheduler: the pending steps are
 * split into those in a queue (q) and those in hand (the step being run and the steps a
 * caller runs after an inline call returns), each node's finish runs are counted, and the
 * post-state is passed in so that a caller can hand over its updated fields directly.
 */
module TreeSteps {
  import opened Wrappers
  import opened Fibonacci
  import opened TaskTree
  /**
   * The tree invariant for the pending steps `pend`, for a root of size `root`; results
   * are exact when no allocation can fail (`allocFree`), and `runs` counts finish steps.
   */
  ghost predicate TreeState(nodes: seq<FibCtx>, phases: seq<Phase>, runs: seq<nat>, pend: multiset<Step>,
                            exact: bool, root: int, allocFree: bool)
  {
    && TreeInv(nodes, phases, pend, exact)
    && nodes[0].n == root
    && (allocFree ==> exact)
    && Counted(runs, phases)
  }

  /** Each node's finish step has run once if the node is finished (Freed or Done) and never otherwise. */
  ghost predicate Counted(runs: seq<nat>, phases: seq<Phase>)
  {
    && |runs| == |phases|
    && (forall i | 0 <= i < |phases| :: CountAt(runs, phases, i))
  }
  ghost predicate CountAt(runs: seq<nat>, phases: seq<Phase>, i: nat)
    requires i < |phases| && |runs| == |phases|
  {
    runs[i] == if phases[i].Freed? || phases[i].Done? then 1 else 0
  }

  /** A pending step names an existing node in the phase that step belongs to. */
  lemma {:induction false} PendingStep(nodes: seq<FibCtx>, phases: seq<Phase>, q: multiset<Step>,
                                       rest: multiset<Step>, s: Step, exact: bool)
    requires TreeInv(nodes, phases, q + (multiset{s} + rest), exact)
    ensures s.id < |nodes|
    ensures s.RunTask? ==> phases[s.id].Ready?
    ensures s.Finish? ==> phases[s.id].Computed?
  {
    var pend := q + (multiset{s} + rest);
    assert s in pend;
    assert PendAt(phases, pend, s.id);
  }

  /**
   * `StepLeaf` for a scheduler state, with the queued steps q and the steps in hand
   * kept apart: the post-state is passed in as nodes', phases'.
   */
  lemma {:induction false} LeafStep(nodes: seq<FibCtx>, phases: seq<Phase>, runs: seq<nat>,
                                    q: multiset<Step>, rest: multiset<Step>, id: nat,
                                    v: int, exact: bool, exact': bool, cutoff: bool, root: int, allocFree: bool,
                                    nodes': seq<FibCtx>, phases': seq<Phase>)
    requires TreeState(nodes, phases, runs, q + (multiset{RunTask(id)} + rest), exact, root, allocFree)
    requires id < |nodes| && (exact' ==> exact && v == Fib(nodes[id].n)) && (allocFree ==> exact')
    requires nodes' == nodes[id := nodes[id].(res := v)] && phases' == phases[id := Computed]
    ensures TreeState(nodes', phases', runs, q + (multiset{Finish(id)} + rest), exact', root, allocFree)
    ensures Measure(nodes', phases', cutoff) < Measure(nodes, phases, cutoff)
  {
    var pend := q + (multiset{RunTask(id)} + rest);
    PendingStep(nodes, phases, q, rest, RunTask(id), exact);
    StepLeaf(nodes, phases, pend, id, v, exact, exact', cutoff);
    assert pend - multiset{RunTask(id)} + multiset{Finish(id)} == q + (multiset{Finish(id)} + rest);
    assert Counted(runs, phases') by {
      forall i | 0 <= i < |phases'|
        ensures CountAt(runs, phases', i)
      {
        assert CountAt(runs, phases, i);
      }
    }
  }

  /** `StepFork` for a scheduler state, with the post-state passed in as nodes', phases', runs'. */
  lemma {:induction false} ForkStep(nodes: seq<FibCtx>, phases: seq<Phase>, runs: seq<nat>,
                                    q: multiset<Step>, rest: multiset<Step>, id: nat, exact: bool, cutoff: bool,
                                    root: int, allocFree: bool,
                                    nodes': seq<FibCtx>, phases': seq<Phase>, runs': seq<nat>)
    requires TreeState(nodes, phases, runs, q + (multiset{RunTask(id)} + rest), exact, root, allocFree)
    requires id < |nodes| && !IsLeaf(nodes[id].n, cutoff)
    requires var grown := nodes + [FibCtx(nodes[id].n - 1, 0, 0, Some(id)), FibCtx(nodes[id].n - 2, 0, 0, Some(id))];
             nodes' == grown[id := grown[id].(pending := 2)]
    requires phases' == phases[id := Awaiting(|nodes|, |nodes| + 1)] + [Ready, Ready]
    requires runs' == runs + [0, 0]
    ensures TreeState(nodes', phases', runs', q + (multiset{RunTask(|nodes|)} + (multiset{RunTask(|nodes| + 1)} + rest)),
                      exact, root, allocFree)
    ensures Measure(nodes', phases', cutoff) < Measure(nodes, phases, cutoff)
  {
    var l := |nodes|;
    var pend := q + (multiset{RunTask(id)} + rest);
    PendingStep(nodes, phases, q, rest, RunTask(id), exact);
    StepFork(nodes, phases, pend, id, exact, cutoff);
    assert nodes' == nodes[id := nodes[id].(pending := 2)] + Children(nodes, id);
    assert pend - multiset{RunTask(id)} + multiset{RunTask(l), RunTask(l + 1)}
           == q + (multiset{RunTask(l)} + (multiset{RunTask(l + 1)} + rest));
    assert Counted(runs', phases') by {
      forall i | 0 <= i < |phases'|
        ensures CountAt(runs', phases', i)
      {
        if i < |phases| {
          assert CountAt(runs, phases, i);
        }
      }
    }
  }

  /** `StepJoin` for a scheduler state, with the post-state passed in as nodes', phases', runs'. */
  lemma {:induction false} JoinStep(nodes: seq<FibCtx>, phases: seq<Phase>, runs: seq<nat>,
                                    q: multiset<Step>, rest: multiset<Step>, c: nat, p: nat, exact: bool, cutoff: bool,
                                    root: int, allocFree: bool,
                                    nodes': seq<FibCtx>, phases': seq<Phase>, runs': seq<nat>)
    requires TreeState(nodes, phases, runs, q + (multiset{Finish(c)} + rest), exact, root, allocFree)
    requires c < |nodes| && nodes[c].parent == Some(p)
    requires p < |nodes| && nodes' == Joined(nodes, c) && phases' == JoinedPhases(nodes, phases, c)
    requires runs' == runs[c := runs[c] + 1]
    ensures nodes[p].pending == 1 ==> TreeState(nodes', phases', runs', q + (multiset{Finish(p)} + rest), exact, root, allocFree)
    ensures nodes[p].pending != 1 ==> TreeState(nodes', phases', runs', q + rest, exact, root, allocFree)
    ensures Measure(nodes', phases', cutoff) < Measure(nodes, phases, cutoff)
  {
    var pend := q + (multiset{Finish(c)} + rest);
    PendingStep(nodes, phases, q, rest, Finish(c), exact);
    OnlyRootOrphan(nodes, phases, pend, exact, c);
    StepJoin(nodes, phases, pend, c, exact, cutoff);
    if nodes[p].pending == 1 {
      assert pend - multiset{Finish(c)} + multiset{Finish(p)} == q + (multiset{Finish(p)} + rest);
    } else {
      assert pend - multiset{Finish(c)} + multiset{} == q + rest;
    }
    assert Counted(runs', phases') by {
      forall i | 0 <= i < |phases'|
        ensures CountAt(runs', phases', i)
      {
        if i < |phases| {
          assert CountAt(runs, phases, i);
        }
      }
    }
  }

  /** `StepRootFinish` for a scheduler state: the finish step of the parentless node c. */
  lemma {:induction false} RootStep(nodes: seq<FibCtx>, phases: seq<Phase>, runs: seq<nat>,
                                    q: multiset<Step>, rest: multiset<Step>, c: nat, exact: bool, cutoff: bool,
                                    root: int, allocFree: bool)
    requires TreeState(nodes, phases, runs, q + (multiset{Finish(c)} + rest), exact, root, allocFree)
    requires c < |nodes| && nodes[c].parent.None?
    ensures c == 0
    ensures TreeState(nodes, phases[0 := Done], runs[0 := runs[0] + 1], q + rest, exact, root, allocFree)
    ensures Measure(nodes, phases[0 := Done], cutoff) < Measure(nodes, phases, cutoff)
  {
    var pend := q + (multiset{Finish(c)} + rest);
    PendingStep(nodes, phases, q, rest, Finish(c), exact);
    OnlyRootOrphan(nodes, phases, pend, exact, c);
    StepRootFinish(nodes, phases, pend, exact, cutoff);
    assert pend - multiset{Finish(0)} == q + rest;
    var phases', runs' := phases[0 := Done], runs[0 := runs[0] + 1];
    assert Counted(runs', phases') by {
      forall i | 0 <= i < |phases'|
        ensures CountAt(runs', phases', i)
      {
        assert CountAt(runs, phases, i);
      }
    }
  }

  /**
   * With no step pending the run is over: the root holds F(root) unless an allocation
   * failed, and every node's finish step has run exactly once.
   */
  lemma {:induction false} Finished(nodes: seq<FibCtx>, phases: seq<Phase>, runs: seq<nat>, exact: bool,
                                    root: int, allocFree: bool)
    requires TreeState(nodes, phases, runs, multiset{}, exact, root, allocFree)
    ensures allocFree ==> nodes[0].res == Fib(root)
    ensures |runs| == |nodes| > 0 && forall i | 0 <= i < |runs| :: runs[i] == 1
  {
    Quiescent(nodes, phases, exact);
    forall i | 0 <= i < |runs|
      ensures runs[i] == 1
    {
      assert CountAt(runs, phases, i);
    }
  }
}
