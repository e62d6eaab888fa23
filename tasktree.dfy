/**
 * The fork-join Fibonacci task tree of c/benchmarks.c and go/fib.go, as values.
 *
 * Nodes (`fib_ctx`) live in a sequence indexed by a node id; id 0 is the root and a
 * freed node keeps its slot (ids are never reused).  The ghost `Phase` of a node says
 * where it is in its life:
 *   Ready         its `fibonacci_task` step is pending,
 *   Awaiting(l,r) it forked children l and r and waits for them to join,
 *   Computed      its `res` is final and its `fibonacci_finish_task` step is pending,
 *   Done          the root's finish step ran (the root is never freed),
 *   Freed         its finish step ran and released it.
 * The pending steps (queued in a pool, spawned as goroutines, or being run right now)
 * form a multiset; `TreeInv` ties it to the phases, and the `Step*` lemmas show that
 * every transition of the source keeps the invariant and lowers `Measure`.
 */
module TaskTree {
  import opened Wrappers
  import opened Fibonacci

  /** A unit of scheduled work: `fibonacci_task(ctx)` or `fibonacci_finish_task(ctx)`. */
  datatype Step = RunTask(id: nat) | Finish(id: nat)

  /** `fib_ctx` without its pool pointer: problem size, result, children left, parent. */
  datatype FibCtx = FibCtx(n: int, res: int, pending: int, parent: Option<nat>)

  datatype Phase = Ready | Awaiting(left: nat, right: nat) | Computed | Done | Freed

  /** Problem sizes up to this value are computed by `fib_serial` when the cutoff is on. */
  const SerialCutoff: int := 10

  /** A node that computes its result directly instead of forking. */
  predicate IsLeaf(n: int, cutoff: bool)
  {
    n < 2 || (cutoff && n <= SerialCutoff)
  }

  /** An upper bound on the steps the subtree of a fresh node of size n still takes. */
  function TaskCost(n: int, cutoff: bool): (c: nat)
    ensures c >= 2
    decreases if n < 0 then 0 else n
  {
    if IsLeaf(n, cutoff) then 2 else TaskCost(n - 1, cutoff) + TaskCost(n - 2, cutoff) + 2
  }

  function Cost(p: Phase, n: int, cutoff: bool): nat
  {
    match p
    case Ready => TaskCost(n, cutoff)
    case Awaiting(_, _) => 1
    case Computed => 1
    case Done => 0
    case Freed => 0
  }

  /** The termination measure: the total cost of all nodes. */
  function Measure(nodes: seq<FibCtx>, phases: seq<Phase>, cutoff: bool): nat
    requires |nodes| == |phases|
  {
    if |nodes| == 0 then 0
    else Measure(nodes[..|nodes| - 1], phases[..|phases| - 1], cutoff)
         + Cost(phases[|phases| - 1], nodes[|nodes| - 1].n, cutoff)
  }

  predicate Live(phases: seq<Phase>, i: nat)
    requires i < |phases|
  {
    !phases[i].Freed?
  }

  function LiveCount(phases: seq<Phase>, i: nat): int
    requires i < |phases|
  {
    if Live(phases, i) then 1 else 0
  }

  /** A live non-root node is a child of an awaiting parent with a smaller id. */
  ghost predicate ParentOk(nodes: seq<FibCtx>, phases: seq<Phase>, i: nat)
    requires |nodes| == |phases| && i < |nodes|
  {
    && nodes[i].parent.Some?
    && nodes[i].parent.value < i
    && (Live(phases, i) ==>
          && phases[nodes[i].parent.value].Awaiting?
          && (phases[nodes[i].parent.value].left == i || phases[nodes[i].parent.value].right == i))
  }

  /**
   * An awaiting node forked children l (size n-1) and r (size n-2) that point back to
   * it, `pending` counts the children not yet joined, and (when no allocation failed)
   * `res` is the sum of the results of the children that joined.
   */
  ghost predicate AwaitOk(nodes: seq<FibCtx>, phases: seq<Phase>, i: nat, l: nat, r: nat, exact: bool)
    requires |nodes| == |phases| && i < |nodes|
  {
    && i < l < |nodes| && i < r < |nodes| && l != r
    && nodes[i].n >= 2
    && nodes[l].parent == Some(i) && nodes[r].parent == Some(i)
    && nodes[l].n == nodes[i].n - 1 && nodes[r].n == nodes[i].n - 2
    && nodes[i].pending == LiveCount(phases, l) + LiveCount(phases, r)
    && nodes[i].pending > 0
    && (exact ==> nodes[i].res == (if Live(phases, l) then 0 else Fib(nodes[i].n - 1))
                                  + (if Live(phases, r) then 0 else Fib(nodes[i].n - 2)))
  }

  ghost predicate NodeOk(nodes: seq<FibCtx>, phases: seq<Phase>, i: nat, exact: bool)
    requires |nodes| == |phases| && i < |nodes|
  {
    && (i > 0 ==> ParentOk(nodes, phases, i))
    && match phases[i]
       case Ready => nodes[i].res == 0 && nodes[i].pending == 0
       case Computed => nodes[i].pending == 0 && (exact ==> nodes[i].res == Fib(nodes[i].n))
       case Done => i == 0 && nodes[i].pending == 0 && (exact ==> nodes[i].res == Fib(nodes[i].n))
       case Freed => i > 0
       case Awaiting(l, r) => AwaitOk(nodes, phases, i, l, r, exact)
  }

  /**
   * The tree invariant for a multiset `pend` of pending steps: a node is Ready exactly
   * when its task step is pending, Computed exactly when its finish step is pending, each
   * at most once, and every node satisfies `NodeOk`.  `exact` is false once some node
   * recorded an allocation failure (-1): from then on results are not constrained.
   */
  ghost predicate TreeInv(nodes: seq<FibCtx>, phases: seq<Phase>, pend: multiset<Step>, exact: bool)
  {
    && |nodes| == |phases| > 0
    && nodes[0].parent == None
    && !phases[0].Freed?
    && PendingOk(phases, pend)
    && AllNodesOk(nodes, phases, exact)
  }

  /** The pending steps are exactly the task steps of Ready nodes and the finish steps of Computed ones. */
  ghost predicate PendingOk(phases: seq<Phase>, pend: multiset<Step>)
  {
    && (forall s | s in pend :: s.id < |phases|)
    && (forall i | 0 <= i < |phases| :: PendAt(phases, pend, i))
  }

  ghost predicate PendAt(phases: seq<Phase>, pend: multiset<Step>, i: nat)
    requires i < |phases|
  {
    pend[RunTask(i)] == (if phases[i].Ready? then 1 else 0) && pend[Finish(i)] == (if phases[i].Computed? then 1 else 0)
  }

  ghost predicate AllNodesOk(nodes: seq<FibCtx>, phases: seq<Phase>, exact: bool)
    requires |nodes| == |phases|
  {
    forall i | 0 <= i < |nodes| :: NodeOk(nodes, phases, i, exact)
  }

  /** `run_fibonacci`'s root: n = fib_number, res = 0, pending = 0, no parent; its task is pending. */
  function RootTree(fibNumber: int): (r: (seq<FibCtx>, seq<Phase>))
    ensures TreeInv(r.0, r.1, multiset{RunTask(0)}, true)
    ensures |r.0| == 1 && r.0[0] == FibCtx(fibNumber, 0, 0, None) && r.1[0] == Ready
  {
    ([FibCtx(fibNumber, 0, 0, None)], [Ready])
  }

  /** Changing the phase of node i alone changes the measure by the difference of its costs. */
  lemma {:induction false} MeasureUpdate(nodes: seq<FibCtx>, phases: seq<Phase>,
                                         nodes': seq<FibCtx>, phases': seq<Phase>, i: nat, cutoff: bool)
    requires |nodes| == |phases| == |nodes'| == |phases'| && i < |nodes|
    requires forall j | 0 <= j < |nodes| :: nodes'[j].n == nodes[j].n
    requires forall j | 0 <= j < |nodes| && j != i :: phases'[j] == phases[j]
    ensures Measure(nodes', phases', cutoff)
            == Measure(nodes, phases, cutoff) - Cost(phases[i], nodes[i].n, cutoff) + Cost(phases'[i], nodes[i].n, cutoff)
    ensures Measure(nodes, phases, cutoff) >= Cost(phases[i], nodes[i].n, cutoff)
  {
    var k := |nodes| - 1;
    if i < k {
      MeasureUpdate(nodes[..k], phases[..k], nodes'[..k], phases'[..k], i, cutoff);
    } else {
      MeasureFrame(nodes[..k], phases[..k], nodes'[..k], phases'[..k], cutoff);
    }
  }

  /** The measure depends only on the sizes and phases. */
  lemma {:induction false} MeasureFrame(nodes: seq<FibCtx>, phases: seq<Phase>,
                                        nodes': seq<FibCtx>, phases': seq<Phase>, cutoff: bool)
    requires |nodes| == |phases| == |nodes'| == |phases'|
    requires forall j | 0 <= j < |nodes| :: nodes'[j].n == nodes[j].n && phases'[j] == phases[j]
    ensures Measure(nodes', phases', cutoff) == Measure(nodes, phases, cutoff)
  {
    if |nodes| > 0 {
      var k := |nodes| - 1;
      MeasureFrame(nodes[..k], phases[..k], nodes'[..k], phases'[..k], cutoff);
    }
  }

  /** Allocating a node adds its cost. */
  lemma {:induction false} MeasureAppend(nodes: seq<FibCtx>, phases: seq<Phase>, x: FibCtx, p: Phase, cutoff: bool)
    requires |nodes| == |phases|
    ensures Measure(nodes + [x], phases + [p], cutoff) == Measure(nodes, phases, cutoff) + Cost(p, x.n, cutoff)
  {
    assert (nodes + [x])[..|nodes|] == nodes;
    assert (phases + [p])[..|phases|] == phases;
  }

  /**
   * A task step that sets its node's result directly (n < 2 or the serial cutoff, with
   * v = F(n); or a failed child allocation, with v = -1 and `exact'` false): the node
   * becomes Computed and its finish step takes the place of its task step.
   */
  lemma {:induction false} StepLeaf(nodes: seq<FibCtx>, phases: seq<Phase>, pend: multiset<Step>, id: nat,
                 v: int, exact: bool, exact': bool, cutoff: bool)
    requires TreeInv(nodes, phases, pend, exact)
    requires id < |nodes| && phases[id].Ready?
    requires exact' ==> exact && v == Fib(nodes[id].n)
    ensures RunTask(id) in pend && Finish(id) !in pend
    ensures TreeInv(nodes[id := nodes[id].(res := v)], phases[id := Computed],
                    pend - multiset{RunTask(id)} + multiset{Finish(id)}, exact')
    ensures Measure(nodes[id := nodes[id].(res := v)], phases[id := Computed], cutoff)
            < Measure(nodes, phases, cutoff)
  {
    var nodes', phases' := nodes[id := nodes[id].(res := v)], phases[id := Computed];
    var pend' := pend - multiset{RunTask(id)} + multiset{Finish(id)};
    assert PendAt(phases, pend, id);
    assert pend[RunTask(id)] == 1 && pend[Finish(id)] == 0;
    forall i | 0 <= i < |nodes|
      ensures NodeOk(nodes', phases', i, exact')
    {
      LeafNode(nodes, phases, id, v, i, exact, exact');
    }
    assert PendingOk(phases', pend') by {
      forall i | 0 <= i < |nodes|
        ensures PendAt(phases', pend', i)
      {
        assert PendAt(phases, pend, i);
      }
    }
    MeasureUpdate(nodes, phases, nodes', phases', id, cutoff);
  }

  /** One node's record after a leaf step on node id. */
  lemma {:induction false} LeafNode(nodes: seq<FibCtx>, phases: seq<Phase>, id: nat, v: int, i: nat, exact: bool, exact': bool)
    requires |nodes| == |phases| && id < |nodes| && i < |nodes| && phases[id].Ready?
    requires exact' ==> exact && v == Fib(nodes[id].n)
    requires NodeOk(nodes, phases, i, exact)
    ensures NodeOk(nodes[id := nodes[id].(res := v)], phases[id := Computed], i, exact')
  {
    var nodes', phases' := nodes[id := nodes[id].(res := v)], phases[id := Computed];
    if i > 0 {
      assert ParentOk(nodes, phases, i);
      assert ParentOk(nodes', phases', i);
    }
    if phases[i].Awaiting? {
      assert AwaitOk(nodes, phases, i, phases[i].left, phases[i].right, exact);
      assert AwaitOk(nodes', phases', i, phases[i].left, phases[i].right, exact');
    }
  }

  /**
   * The two children `fibonacci_task` allocates for node id: fresh records (res 0,
   * pending 0) pointing back to node id, whose sizes are the two smaller problems whose
   * Fibonacci numbers add up to the node's own.
   */
  function Children(nodes: seq<FibCtx>, id: nat): (kids: seq<FibCtx>)
    requires id < |nodes|
    ensures |kids| == 2
    ensures forall k | 0 <= k < 2 :: kids[k].res == 0 && kids[k].pending == 0 && kids[k].parent == Some(id)
    ensures kids[1].n < kids[0].n < nodes[id].n
    ensures nodes[id].n >= 2 ==> Fib(kids[0].n) + Fib(kids[1].n) == Fib(nodes[id].n)
  {
    [FibCtx(nodes[id].n - 1, 0, 0, Some(id)), FibCtx(nodes[id].n - 2, 0, 0, Some(id))]
  }

  /**
   * A task step that forks: node id gets children with the next two ids, its `pending`
   * becomes 2 and it awaits them; the children's task steps take the place of its own.
   */
  lemma {:induction false} StepFork(nodes: seq<FibCtx>, phases: seq<Phase>, pend: multiset<Step>, id: nat,
                 exact: bool, cutoff: bool)
    requires TreeInv(nodes, phases, pend, exact)
    requires id < |nodes| && phases[id].Ready? && !IsLeaf(nodes[id].n, cutoff)
    ensures RunTask(id) in pend
    ensures var l := |nodes|;
            var nodes' := nodes[id := nodes[id].(pending := 2)] + Children(nodes, id);
            var phases' := phases[id := Awaiting(l, l + 1)] + [Ready, Ready];
            && TreeInv(nodes', phases', pend - multiset{RunTask(id)} + multiset{RunTask(l), RunTask(l + 1)}, exact)
            && Measure(nodes', phases', cutoff) < Measure(nodes, phases, cutoff)
  {
    var l := |nodes|;
    var nodes' := nodes[id := nodes[id].(pending := 2)] + Children(nodes, id);
    var phases' := phases[id := Awaiting(l, l + 1)] + [Ready, Ready];
    var pend' := pend - multiset{RunTask(id)} + multiset{RunTask(l), RunTask(l + 1)};
    assert PendAt(phases, pend, id);
    ForkNodes(nodes, phases, pend, id, exact);
    ForkPending(nodes, phases, pend, id, exact);
    ForkMeasure(nodes, phases, id, cutoff);
  }

  lemma {:induction false} ForkNodes(nodes: seq<FibCtx>, phases: seq<Phase>, pend: multiset<Step>, id: nat, exact: bool)
    requires TreeInv(nodes, phases, pend, exact)
    requires id < |nodes| && phases[id].Ready? && nodes[id].n >= 2
    ensures var l := |nodes|;
            var nodes' := nodes[id := nodes[id].(pending := 2)] + Children(nodes, id);
            var phases' := phases[id := Awaiting(l, l + 1)] + [Ready, Ready];
            |nodes'| == |phases'| && forall i | 0 <= i < |nodes'| :: NodeOk(nodes', phases', i, exact)
  {
    var l := |nodes|;
    var nodes' := nodes[id := nodes[id].(pending := 2)] + Children(nodes, id);
    var phases' := phases[id := Awaiting(l, l + 1)] + [Ready, Ready];
    forall i | 0 <= i < |nodes'|
      ensures NodeOk(nodes', phases', i, exact)
    {
      if i < l {
        ForkNode(nodes, phases, id, i, exact);
      }
    }
  }

  /** An old node's record after node id forked. */
  lemma {:induction false} ForkNode(nodes: seq<FibCtx>, phases: seq<Phase>, id: nat, i: nat, exact: bool)
    requires |nodes| == |phases| && id < |nodes| && i < |nodes| && phases[id].Ready? && nodes[id].n >= 2
    requires NodeOk(nodes, phases, i, exact)
    requires id == i ==> nodes[id].res == 0
    ensures var l := |nodes|;
            NodeOk(nodes[id := nodes[id].(pending := 2)] + Children(nodes, id),
                   phases[id := Awaiting(l, l + 1)] + [Ready, Ready], i, exact)
  {
    var l := |nodes|;
    var nodes' := nodes[id := nodes[id].(pending := 2)] + Children(nodes, id);
    var phases' := phases[id := Awaiting(l, l + 1)] + [Ready, Ready];
    if i > 0 {
      assert ParentOk(nodes, phases, i);
      assert ParentOk(nodes', phases', i);
    }
    if phases[i].Awaiting? {
      assert AwaitOk(nodes, phases, i, phases[i].left, phases[i].right, exact);
      assert AwaitOk(nodes', phases', i, phases[i].left, phases[i].right, exact);
    }
  }

  lemma {:induction false} ForkPending(nodes: seq<FibCtx>, phases: seq<Phase>, pend: multiset<Step>, id: nat, exact: bool)
    requires TreeInv(nodes, phases, pend, exact)
    requires id < |nodes| && phases[id].Ready?
    ensures var l := |nodes|;
            var phases' := phases[id := Awaiting(l, l + 1)] + [Ready, Ready];
            var pend' := pend - multiset{RunTask(id)} + multiset{RunTask(l), RunTask(l + 1)};
            PendingOk(phases', pend')
  {
    var l := |nodes|;
    var phases' := phases[id := Awaiting(l, l + 1)] + [Ready, Ready];
    var pend' := pend - multiset{RunTask(id)} + multiset{RunTask(l), RunTask(l + 1)};
    assert PendAt(phases, pend, id);
    forall i | 0 <= i < |phases'|
      ensures PendAt(phases', pend', i)
    {
      if i >= l {
        assert pend[RunTask(i)] == 0 && pend[Finish(i)] == 0;
      } else {
        assert PendAt(phases, pend, i);
      }
    }
  }

  /** Appending two fresh Ready children adds exactly their two task costs. */
  lemma {:induction false} MeasureAppendPair(nodes: seq<FibCtx>, phases: seq<Phase>, x: FibCtx, y: FibCtx, cutoff: bool)
    requires |nodes| == |phases|
    ensures Measure(nodes + [x, y], phases + [Ready, Ready], cutoff)
            == Measure(nodes, phases, cutoff) + TaskCost(x.n, cutoff) + TaskCost(y.n, cutoff)
  {
    MeasureAppend(nodes, phases, x, Ready, cutoff);
    MeasureAppend(nodes + [x], phases + [Ready], y, Ready, cutoff);
    assert nodes + [x, y] == (nodes + [x]) + [y];
    assert phases + [Ready, Ready] == (phases + [Ready]) + [Ready];
  }

  /** Forking lowers the measure: Ready(n) costs more than Awaiting plus two Ready children. */
  lemma {:induction false} ForkMeasure(nodes: seq<FibCtx>, phases: seq<Phase>, id: nat, cutoff: bool)
    requires |nodes| == |phases| && id < |nodes| && phases[id].Ready? && !IsLeaf(nodes[id].n, cutoff)
    ensures var l := |nodes|;
            Measure(nodes[id := nodes[id].(pending := 2)] + Children(nodes, id),
                    phases[id := Awaiting(l, l + 1)] + [Ready, Ready], cutoff)
            < Measure(nodes, phases, cutoff)
  {
    var l := |nodes|;
    var kids := Children(nodes, id);
    assert kids == [kids[0], kids[1]];
    ForkMeasureAt(nodes, phases, nodes[id := nodes[id].(pending := 2)], phases[id := Awaiting(l, l + 1)],
                  id, kids[0], kids[1], cutoff);
  }

  lemma {:induction false} ForkMeasureAt(nodes: seq<FibCtx>, phases: seq<Phase>, mid: seq<FibCtx>, midPhases: seq<Phase>,
                      id: nat, x: FibCtx, y: FibCtx, cutoff: bool)
    requires |nodes| == |phases| == |mid| == |midPhases| && id < |nodes|
    requires phases[id].Ready? && midPhases[id].Awaiting? && !IsLeaf(nodes[id].n, cutoff)
    requires forall j | 0 <= j < |nodes| :: mid[j].n == nodes[j].n
    requires forall j | 0 <= j < |nodes| && j != id :: midPhases[j] == phases[j]
    requires x.n == nodes[id].n - 1 && y.n == nodes[id].n - 2
    ensures Measure(mid + [x, y], midPhases + [Ready, Ready], cutoff) < Measure(nodes, phases, cutoff)
  {
    MeasureUpdate(nodes, phases, mid, midPhases, id, cutoff);
    MeasureAppendPair(mid, midPhases, x, y, cutoff);
  }

  /** The parent of a non-root node. */
  function ParentOf(nodes: seq<FibCtx>, c: nat): nat
    requires c < |nodes| && nodes[c].parent.Some?
  {
    nodes[c].parent.value
  }

  /** `fibonacci_finish_task` on node c with a parent: the parent's new record. */
  function Joined(nodes: seq<FibCtx>, c: nat): seq<FibCtx>
    requires c < |nodes| && nodes[c].parent.Some? && nodes[c].parent.value < |nodes|
  {
    var p := nodes[c].parent.value;
    nodes[p := nodes[p].(res := nodes[p].res + nodes[c].res, pending := nodes[p].pending - 1)]
  }

  /** The phases after c joined: c is freed, and its parent is Computed if c was the last child. */
  function JoinedPhases(nodes: seq<FibCtx>, phases: seq<Phase>, c: nat): seq<Phase>
    requires |nodes| == |phases| && c < |nodes| && nodes[c].parent.Some? && nodes[c].parent.value < |nodes|
  {
    var p := nodes[c].parent.value;
    phases[c := Freed][p := if nodes[p].pending == 1 then Computed else phases[p]]
  }

  /**
   * The finish step of a non-root node c: its result is added into the parent's `res`,
   * the parent's `pending` drops by one, c is freed, and the parent's own finish step
   * becomes pending exactly when the pre-decrement `pending` was 1, that is, exactly when
   * both of the parent's children have now joined.
   */
  lemma {:induction false} StepJoin(nodes: seq<FibCtx>, phases: seq<Phase>, pend: multiset<Step>, c: nat,
                 exact: bool, cutoff: bool)
    requires TreeInv(nodes, phases, pend, exact)
    requires 0 < c < |nodes| && phases[c].Computed?
    ensures Finish(c) in pend
    ensures nodes[c].parent.Some? && nodes[c].parent.value < c && phases[ParentOf(nodes, c)].Awaiting?
    ensures var p := ParentOf(nodes, c);
            var phases' := JoinedPhases(nodes, phases, c);
            && phases[p].left < |nodes| && phases[p].right < |nodes|
            && (nodes[p].pending == 1 <==> !Live(phases', phases[p].left) && !Live(phases', phases[p].right))
            && TreeInv(Joined(nodes, c), phases',
                       pend - multiset{Finish(c)} + (if nodes[p].pending == 1 then multiset{Finish(p)} else multiset{}),
                       exact)
            && Measure(Joined(nodes, c), phases', cutoff) < Measure(nodes, phases, cutoff)
  {
    assert NodeOk(nodes, phases, c, exact);
    assert ParentOk(nodes, phases, c);
    assert PendAt(phases, pend, c);
    var p := ParentOf(nodes, c);
    var nodes', phases' := Joined(nodes, c), JoinedPhases(nodes, phases, c);
    JoinParent(nodes, phases, pend, c, exact);
    JoinOthers(nodes, phases, pend, c, exact);
    assert forall i | 0 <= i < |nodes'| :: NodeOk(nodes', phases', i, exact);
    JoinPending(nodes, phases, pend, c, exact);
    JoinMeasure(nodes, phases, c, cutoff);
  }

  /** The parent's record after the join satisfies `NodeOk`. */
  lemma {:induction false} JoinParent(nodes: seq<FibCtx>, phases: seq<Phase>, pend: multiset<Step>, c: nat, exact: bool)
    requires TreeInv(nodes, phases, pend, exact)
    requires 0 < c < |nodes| && phases[c].Computed?
    requires ParentOk(nodes, phases, c)
    ensures var p := ParentOf(nodes, c);
            var phases' := JoinedPhases(nodes, phases, c);
            && phases[p].left < |nodes| && phases[p].right < |nodes|
            && (nodes[p].pending == 1 <==> !Live(phases', phases[p].left) && !Live(phases', phases[p].right))
            && NodeOk(Joined(nodes, c), phases', p, exact)
  {
    var p := ParentOf(nodes, c);
    var nodes', phases' := Joined(nodes, c), JoinedPhases(nodes, phases, c);
    assert NodeOk(nodes, phases, p, exact);
    assert NodeOk(nodes, phases, c, exact);
    var l, r := phases[p].left, phases[p].right;
    assert AwaitOk(nodes, phases, p, l, r, exact);
    if p > 0 {
      assert ParentOk(nodes, phases, p);
      assert ParentOk(nodes', phases', p);
    }
  }

  /** Every other node's record still satisfies `NodeOk` after the join. */
  lemma {:induction false} JoinOthers(nodes: seq<FibCtx>, phases: seq<Phase>, pend: multiset<Step>, c: nat, exact: bool)
    requires TreeInv(nodes, phases, pend, exact)
    requires 0 < c < |nodes| && phases[c].Computed?
    requires ParentOk(nodes, phases, c)
    ensures var p := ParentOf(nodes, c);
            var phases' := JoinedPhases(nodes, phases, c);
            forall i | 0 <= i < |nodes| && i != p :: NodeOk(Joined(nodes, c), phases', i, exact)
  {
    var p := ParentOf(nodes, c);
    assert NodeOk(nodes, phases, p, exact);
    forall i | 0 <= i < |nodes| && i != p
      ensures NodeOk(Joined(nodes, c), JoinedPhases(nodes, phases, c), i, exact)
    {
      JoinOther(nodes, phases, c, i, exact);
    }
  }

  /** One node other than the parent: its record and the facts it depends on are unchanged. */
  lemma {:induction false} JoinOther(nodes: seq<FibCtx>, phases: seq<Phase>, c: nat, i: nat, exact: bool)
    requires |nodes| == |phases| && 0 < c < |nodes| && i < |nodes| && phases[c].Computed?
    requires ParentOk(nodes, phases, c) && ParentOf(nodes, c) != i
    requires var p := ParentOf(nodes, c); AwaitOk(nodes, phases, p, phases[p].left, phases[p].right, exact)
    requires NodeOk(nodes, phases, i, exact)
    ensures NodeOk(Joined(nodes, c), JoinedPhases(nodes, phases, c), i, exact)
  {
    if i > 0 {
      JoinOtherParent(nodes, phases, c, i, exact);
    }
    if phases[i].Awaiting? {
      JoinOtherAwait(nodes, phases, c, i, exact);
    }
  }

  /** A live node other than c keeps its link to its awaiting parent. */
  lemma {:induction false} JoinOtherParent(nodes: seq<FibCtx>, phases: seq<Phase>, c: nat, i: nat, exact: bool)
    requires |nodes| == |phases| && 0 < c < |nodes| && 0 < i < |nodes| && phases[c].Computed?
    requires ParentOk(nodes, phases, c) && ParentOf(nodes, c) != i
    requires var p := ParentOf(nodes, c); AwaitOk(nodes, phases, p, phases[p].left, phases[p].right, exact)
    requires ParentOk(nodes, phases, i)
    ensures ParentOk(Joined(nodes, c), JoinedPhases(nodes, phases, c), i)
  {
  }

  /** An awaiting node other than the parent keeps its children and their liveness. */
  lemma {:induction false} JoinOtherAwait(nodes: seq<FibCtx>, phases: seq<Phase>, c: nat, i: nat, exact: bool)
    requires |nodes| == |phases| && 0 < c < |nodes| && i < |nodes| && phases[c].Computed?
    requires ParentOk(nodes, phases, c) && ParentOf(nodes, c) != i
    requires phases[i].Awaiting? && AwaitOk(nodes, phases, i, phases[i].left, phases[i].right, exact)
    ensures AwaitOk(Joined(nodes, c), JoinedPhases(nodes, phases, c), i, phases[i].left, phases[i].right, exact)
  {
  }

  /** The pending steps after the join match the new phases. */
  lemma {:induction false} JoinPending(nodes: seq<FibCtx>, phases: seq<Phase>, pend: multiset<Step>, c: nat, exact: bool)
    requires TreeInv(nodes, phases, pend, exact)
    requires 0 < c < |nodes| && phases[c].Computed?
    requires ParentOk(nodes, phases, c)
    ensures var p := ParentOf(nodes, c);
            var phases' := JoinedPhases(nodes, phases, c);
            var pend' := pend - multiset{Finish(c)} + (if nodes[p].pending == 1 then multiset{Finish(p)} else multiset{});
            PendingOk(phases', pend')
  {
    var p := ParentOf(nodes, c);
    var phases' := JoinedPhases(nodes, phases, c);
    var pend' := pend - multiset{Finish(c)} + (if nodes[p].pending == 1 then multiset{Finish(p)} else multiset{});
    assert PendAt(phases, pend, c) && PendAt(phases, pend, p);
    forall i | 0 <= i < |phases'|
      ensures PendAt(phases', pend', i)
    {
      assert PendAt(phases, pend, i);
    }
  }

  /** The join lowers the measure by one: c's cost 1 is released. */
  lemma {:induction false} JoinMeasure(nodes: seq<FibCtx>, phases: seq<Phase>, c: nat, cutoff: bool)
    requires |nodes| == |phases| && 0 < c < |nodes| && phases[c].Computed?
    requires nodes[c].parent.Some? && nodes[c].parent.value < c && phases[nodes[c].parent.value].Awaiting?
    ensures Measure(Joined(nodes, c), JoinedPhases(nodes, phases, c), cutoff) < Measure(nodes, phases, cutoff)
  {
    var p := ParentOf(nodes, c);
    var mid := phases[c := Freed];
    MeasureUpdate(nodes, phases, nodes, mid, c, cutoff);
    MeasureUpdate(nodes, mid, Joined(nodes, c), JoinedPhases(nodes, phases, c), p, cutoff);
  }

  /** Only the root has no parent, and a parent's id is smaller than its child's. */
  lemma {:induction false} OnlyRootOrphan(nodes: seq<FibCtx>, phases: seq<Phase>, pend: multiset<Step>,
                                          exact: bool, c: nat)
    requires TreeInv(nodes, phases, pend, exact) && c < |nodes|
    ensures nodes[c].parent.None? <==> c == 0
    ensures c > 0 ==> nodes[c].parent.Some? && nodes[c].parent.value < c
  {
    if c > 0 {
      assert NodeOk(nodes, phases, c, exact);
    }
  }

  /** The root's finish step changes no record; the root is Done and its finish step is gone. */
  lemma {:induction false} StepRootFinish(nodes: seq<FibCtx>, phases: seq<Phase>, pend: multiset<Step>, exact: bool, cutoff: bool)
    requires TreeInv(nodes, phases, pend, exact)
    requires phases[0].Computed?
    ensures Finish(0) in pend
    ensures TreeInv(nodes, phases[0 := Done], pend - multiset{Finish(0)}, exact)
    ensures Measure(nodes, phases[0 := Done], cutoff) < Measure(nodes, phases, cutoff)
  {
    var phases' := phases[0 := Done];
    assert PendAt(phases, pend, 0);
    assert pend[Finish(0)] == 1;
    forall i | 0 <= i < |nodes|
      ensures NodeOk(nodes, phases', i, exact)
    {
      assert NodeOk(nodes, phases, i, exact);
      if i > 0 {
        assert ParentOk(nodes, phases, i);
      }
    }
    assert PendingOk(phases', pend - multiset{Finish(0)}) by {
      forall i | 0 <= i < |nodes|
        ensures PendAt(phases', pend - multiset{Finish(0)}, i)
      {
        assert PendAt(phases, pend, i);
      }
    }
    MeasureUpdate(nodes, phases, nodes, phases', 0, cutoff);
  }

  /**
   * No node from k on waits for children when no step is pending: a waiting node has
   * a live child with a larger id, and with nothing pending that child can only be
   * waiting too.
   */
  lemma {:induction false} NoAwaitingFrom(nodes: seq<FibCtx>, phases: seq<Phase>, exact: bool, k: nat)
    requires TreeInv(nodes, phases, multiset{}, exact) && k <= |nodes|
    ensures forall i | k <= i < |nodes| :: !phases[i].Awaiting?
    decreases |nodes| - k
  {
    if k < |nodes| {
      NoAwaitingFrom(nodes, phases, exact, k + 1);
      if phases[k].Awaiting? {
        var j := AwaitingChild(nodes, phases, exact, k);
        assert false;
      }
    }
  }

  /** With nothing pending, a waiting node has a waiting child with a larger id. */
  lemma {:induction false} AwaitingChild(nodes: seq<FibCtx>, phases: seq<Phase>, exact: bool, k: nat)
      returns (j: nat)
    requires TreeInv(nodes, phases, multiset{}, exact) && k < |nodes| && phases[k].Awaiting?
    ensures k < j < |nodes| && phases[j].Awaiting?
  {
    assert NodeOk(nodes, phases, k, exact);
    var l, r := phases[k].left, phases[k].right;
    assert AwaitOk(nodes, phases, k, l, r, exact);
    j := if Live(phases, l) then l else r;
    assert NodeOk(nodes, phases, j, exact);
    assert PendAt(phases, multiset{}, j);
  }

  /**
   * When no step is pending the computation is over: the root's finish step has run,
   * every other node has been freed, and (barring allocation failures) the root holds
   * F(fib_number).
   */
  lemma {:induction false} Quiescent(nodes: seq<FibCtx>, phases: seq<Phase>, exact: bool)
    requires TreeInv(nodes, phases, multiset{}, exact)
    ensures phases[0].Done?
    ensures forall i | 0 < i < |nodes| :: phases[i].Freed?
    ensures exact ==> nodes[0].res == Fib(nodes[0].n)
  {
    NoAwaitingFrom(nodes, phases, exact, 0);
    assert PendAt(phases, multiset{}, 0);
    assert NodeOk(nodes, phases, 0, exact);
    forall i | 0 < i < |nodes|
      ensures phases[i].Freed?
    {
      assert NodeOk(nodes, phases, i, exact);
      assert PendAt(phases, multiset{}, i);
    }
  }
}
