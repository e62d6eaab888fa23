/**
 * The work split of `run_parallel_spawn`, which c/benchmarks.c and benchmarks.c
 * write identically: each of `num_threads` spawner tasks is told how many no-op
 * tasks to submit, `num_tasks / num_threads` each plus one for the first
 * `num_tasks % num_threads` spawners.  C's `/` and `%` truncate toward zero.
 */
module Spawn {
  import opened Wrappers

  /** C's `a / b` on `int`: the quotient truncated toward zero. */
  function CDiv(a: int, b: int): (q: int)
    requires b != 0
    ensures a >= 0 && b > 0 ==> q == a / b
  {
    if (a >= 0) == (b > 0) then Abs(a) / Abs(b) else -(Abs(a) / Abs(b))
  }

  /** C's `a % b` on `int`: the remainder that goes with `CDiv`, with the sign of `a`. */
  function CRem(a: int, b: int): (r: int)
    requires b != 0
    ensures a == CDiv(a, b) * b + r
    ensures a >= 0 ==> 0 <= r < Abs(b)
    ensures a < 0 ==> -(Abs(b) as int) < r <= 0
  {
    a - CDiv(a, b) * b
  }

  function Abs(x: int): nat
  {
    if x < 0 then -x else x
  }

  /** The sum of a sequence of counts. */
  function Sum(s: seq<int>): int
  {
    if s == [] then 0 else Sum(s[..|s| - 1]) + s[|s| - 1]
  }

  /** How many of the first i spawners receive the extra task when `remaining_tasks` is r. */
  function Extra(i: nat, r: int): nat
  {
    if r <= 0 then 0 else if i < r then i else r
  }

  /** What spawner i is told to spawn: `tasks_per_thread`, plus one when `i < remaining_tasks`. */
  function Share(i: nat, numThreads: int, numTasks: int): int
    requires numThreads > 0
  {
    CDiv(numTasks, numThreads) + (if i < CRem(numTasks, numThreads) then 1 else 0)
  }

  /** The `tasks_to_spawn` values of spawners 0 .. i-1. */
  function Shares(i: nat, numThreads: int, numTasks: int): seq<int>
    requires numThreads > 0
  {
    if i == 0 then [] else Shares(i - 1, numThreads, numTasks) + [Share(i - 1, numThreads, numTasks)]
  }

  /**
   * `run_parallel_spawn(pool, num_tasks)` up to `threadpool_wait_all`: when the `malloc`
   * of `spawn_args` fails (`allocOk` false) nothing is submitted and there are no counts;
   * otherwise spawner i is given its share and submitted, in the order i = 0, 1, ….  The
   * shares differ by at most one, the larger ones go to the lowest spawner numbers, and
   * for a non-negative task count they add up to `num_tasks`.
   */
  method ParallelSpawnSplit(numThreads: int, numTasks: int, allocOk: bool)
      returns (counts: Option<seq<int>>, submitted: seq<nat>)
    requires numThreads > 0
    ensures counts.None? <==> !allocOk
    ensures counts.None? ==> submitted == []
    ensures counts.Some? ==>
              && counts.value == Shares(numThreads, numThreads, numTasks)
              && |submitted| == numThreads && (forall i | 0 <= i < numThreads :: submitted[i] == i)
    ensures counts.Some? ==>
              && |counts.value| == numThreads
              && (forall i, j | 0 <= i < numThreads && 0 <= j < numThreads ::
                    counts.value[i] <= counts.value[j] + 1)
              && (forall i, j | 0 <= i <= j < numThreads :: counts.value[j] <= counts.value[i])
              && (numTasks >= 0 ==> Sum(counts.value) == numTasks)
  {
    var tasksPerThread := CDiv(numTasks, numThreads);
    var remainingTasks := CRem(numTasks, numThreads);
    if !allocOk {
      return None, [];
    }
    var spawnArgs := new int[numThreads];
    submitted := [];
    var i := 0;
    while i < numThreads
      invariant 0 <= i <= numThreads && |submitted| == i
      invariant forall k | 0 <= k < i :: submitted[k] == k
      invariant spawnArgs[..i] == Shares(i, numThreads, numTasks)
    {
      spawnArgs[i] := tasksPerThread;
      if i < remainingTasks {
        spawnArgs[i] := spawnArgs[i] + 1;
      }
      assert spawnArgs[..i + 1] == spawnArgs[..i] + [spawnArgs[i]];
      submitted := submitted + [i];
      i := i + 1;
    }
    assert spawnArgs[..] == spawnArgs[..numThreads];
    counts := Some(spawnArgs[..]);
    SharesBalanced(numThreads, numTasks);
    if numTasks >= 0 {
      SharesSum(numThreads, numTasks);
    }
  }

  /** There are i shares, and entry k is spawner k's share. */
  lemma {:induction false} SharesAt(i: nat, numThreads: int, numTasks: int)
    requires numThreads > 0
    ensures |Shares(i, numThreads, numTasks)| == i
    ensures forall k | 0 <= k < i :: Shares(i, numThreads, numTasks)[k] == Share(k, numThreads, numTasks)
  {
    if i > 0 {
      SharesAt(i - 1, numThreads, numTasks);
    }
  }

  /** The first i shares add up to i * `tasks_per_thread` plus the extra tasks among them. */
  lemma {:induction false} SharesPrefixSum(i: nat, numThreads: int, numTasks: int)
    requires numThreads > 0
    ensures Sum(Shares(i, numThreads, numTasks))
            == i * CDiv(numTasks, numThreads) + Extra(i, CRem(numTasks, numThreads))
  {
    if i > 0 {
      SharesPrefixSum(i - 1, numThreads, numTasks);
      var s := Shares(i, numThreads, numTasks);
      assert s[..|s| - 1] == Shares(i - 1, numThreads, numTasks);
      assert i * CDiv(numTasks, numThreads) == (i - 1) * CDiv(numTasks, numThreads) + CDiv(numTasks, numThreads);
    }
  }

  /** For a non-negative task count, all `num_threads` shares add up to `num_tasks`. */
  lemma {:induction false} SharesSum(numThreads: int, numTasks: int)
    requires numThreads > 0 && numTasks >= 0
    ensures Sum(Shares(numThreads, numThreads, numTasks)) == numTasks
  {
    SharesPrefixSum(numThreads, numThreads, numTasks);
  }

  /**
   * The shares differ by at most one and do not increase with the spawner number; the
   * spawners with the extra task are exactly those below `remaining_tasks`.
   */
  lemma {:induction false} SharesBalanced(numThreads: int, numTasks: int)
    requires numThreads > 0
    ensures var s := Shares(numThreads, numThreads, numTasks);
            && |s| == numThreads
            && (forall i | 0 <= i < numThreads ::
                  s[i] == CDiv(numTasks, numThreads) + 1 <==> i < CRem(numTasks, numThreads))
            && (forall i | 0 <= i < numThreads ::
                  s[i] == CDiv(numTasks, numThreads) || s[i] == CDiv(numTasks, numThreads) + 1)
            && (forall i, j | 0 <= i < numThreads && 0 <= j < numThreads :: s[i] <= s[j] + 1)
            && (forall i, j | 0 <= i <= j < numThreads :: s[j] <= s[i])
  {
    SharesAt(numThreads, numThreads, numTasks);
  }
}
