/**
 * The blocking fork-join Fibonacci of benchmarks.c.  A `fib_task_t` is a record whose
 * `value` and `completed` fields the task writes; a parent submits its two children and
 * waits on each child's condition variable until the child is completed.  Run one step
 * at a time, the submission of a child and the wait for it collapse into a call: the wait
 * loop `while (!child.completed)` is never entered once the child has run.
 */
module BlockingBenchmarks {
  import opened Fibonacci

  /** `fib_task_t`, without its pool pointer, mutex and condition variable. */
  class FibTaskArgs {
    const n: int
    var value: int
    var remainingChildren: int
    var completed: bool

    /** The initialiser `{ .n = n, .value = 0, .remaining_children = 0, .completed = false }`. */
    constructor (n: int)
      ensures this.n == n && value == 0 && remainingChildren == 0 && !completed
    {
      this.n := n;
      value := 0;
      remainingChildren := 0;
      completed := false;
    }
  }

  /**
   * `fib_task(arg)`: for n < 2 the value is n; otherwise two children n-1 and n-2 with
   * value 0 and not completed are run, and once both are completed the value is the sum
   * of theirs.  Either way the record ends completed with value F(n).
   */
  method FibTask(args: FibTaskArgs)
    modifies args
    ensures args.completed && args.value == Fib(args.n)
    ensures args.remainingChildren == old(args.remainingChildren)
    decreases args.n
  {
    if args.n < 2 {
      args.value := args.n;
      args.completed := true;
      return;
    }
    var child1 := new FibTaskArgs(args.n - 1);
    var child2 := new FibTaskArgs(args.n - 2);
    FibTask(child1);
    FibTask(child2);
    assert child1.completed && child2.completed;
    args.value := child1.value + child2.value;
    args.completed := true;
  }

  /**
   * `run_fibonacci(pool, fib_number)`: the root record has n = fib_number, value 0 and
   * is not completed; after the wait for its completion the value reported is F(fib_number).
   */
  method RunFibonacci(fibNumber: int) returns (value: int)
    ensures value == Fib(fibNumber)
  {
    var fibArgs := new FibTaskArgs(fibNumber);
    assert fibArgs.value == 0 && !fibArgs.completed;
    FibTask(fibArgs);
    value := fibArgs.value;
  }
}
