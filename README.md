# Fork-join runtime benchmarks: a Dafny model

This project models the logic inside a set of parallel-runtime benchmarks. The benchmarks come in C, Go and Rust, and the model covers:

- **The C thread pool** (c/threadpool.c): a fixed array of 700000 task slots used as a ring, indexed by `queue_front`, `queue_rear` and `queue_size`. Around it are the `outstanding_tasks` counter, the `shutdown_flag`, and the rule that a worker meeting a full queue runs the task itself. A worker's loop body is dequeue, run, then decrement. `ThreadPool.Pool` is a class over an `array`. Each blocking wait becomes an outcome saying the step is not enabled yet (`WouldBlock`, `Idle`).
- **The continuation-passing Fibonacci tree** of c/benchmarks.c and go/fib.go:
  - `fib_ctx` records (`n`, `res`, `pending`, `parent`) are created by `fibonacci_task` and joined by `fibonacci_finish_task`.
  - A `ForkJoin.FibTree` holds the records by node id, together with a ghost phase per node and a ghost count of finish runs per node.
  - `Benchmarks.FibScheduler` runs the tree on a `Pool`, with workers that take one task at a time.
  - `GoFib.GoScheduler` runs it on goroutines that are counted by `activeWorkers` and run in arbitrary order.
  - The `TaskTree` and `TreeSteps` modules hold the invariant and the lemmas that prove the results. The root ends with F(fib_number) unless a child allocation failed. Every node's finish step runs exactly once. The run ends because every step lowers a measure of the work left.
- **The blocking Fibonacci** of benchmarks.c: `fib_task` waits for its two children. Run one step at a time, this collapses to recursion over `fib_task_t` records.
- **The iterative `fib_serial`/`fibSerial` loop** and the **memoised `fib`** of rust/src/tasks.rs (a table of n + 1 `Option` slots).
- **The work split of `run_parallel_spawn`**, including C's truncating `/` and `%`.
- **The command line of c/main.c**: benchmark keywords, benchmark names, option validation and defaults.

Integers are mathematical throughout. The reference function is `Fibonacci.Fib`, with F(n) = n for n < 2.

Shutdown in c/threadpool.c: `threadpool_destroy` sets the shutdown flag, wakes the workers and joins them. The model keeps only the flag (see "## Left out"). A worker keeps dequeuing and leaves only once the flag is set and the queue is empty. So tasks queued before shutdown still run, and only submissions made after the flag is set are dropped.

## Model

| member | source | states |
|---|---|---|
| Fibonacci.FibSerial | c/benchmarks.c:108-117 | `fib_serial(n)`, and the identical `fibSerial` at go/fib.go:24-35, returns n for n < 2 and otherwise F(n), using the loop invariant a = F(i-2), b = F(i-1) |
| Ring.SlotsLength | c/threadpool.c:102-104 | the ring window from `queue_front` holds exactly `queue_size` tasks |
| Ring.SlotsAt | c/threadpool.c:102-103 | the k-th oldest queued task is in slot `(front + k) % capacity` |
| Ring.SlotsPush | c/threadpool.c:150-152 | writing the free slot `(front + size) % capacity` of a ring that is not full appends the task after all held tasks (FIFO) |
| Ring.PushStep | c/threadpool.c:149-152 | a push writes `queue_rear`; afterwards rear is `(rear + 1) % capacity` and still equals `(front + size) % capacity`, and the contents gain the task at the end |
| Ring.PopStep | c/threadpool.c:102-104 | a pop removes the front task, advances front with wrap-around, and keeps rear equal to `(front + size) % capacity` |
| ThreadPool.Pool.constructor | c/threadpool.c:25-52 | a fresh pool has capacity 700000, size/front/rear 0, `outstanding_tasks` 0, shutdown false, an empty queue, and satisfies the invariant |
| ThreadPool.Pool.Submit | c/threadpool.c:125-156 | a worker meeting a full queue runs the task inline; an accepted task is stored at `queue_rear`, rear advances modulo capacity, size and `outstanding_tasks` grow by one, front is unchanged, and the contents gain the task at the end; on shutdown the task is dropped with a net counter change of zero; a non-worker meeting a full queue is not enabled |
| ThreadPool.Pool.WorkerTake | c/threadpool.c:86-108 | idle on an empty running pool; exits only on shutdown with an empty queue (so after shutdown the queue is drained); otherwise returns the task at `queue_front`, advances front modulo capacity, shrinks size by one, and leaves rear unchanged |
| ThreadPool.Pool.WorkerFinish | c/threadpool.c:110-118 | `outstanding_tasks` drops by one, and completion is signalled exactly when it reaches 0, at which point nothing is queued or executing |
| ThreadPool.Pool.Shutdown | c/threadpool.c:173-176 | sets the shutdown flag and changes nothing else |
| ThreadPool.Pool.WaitAllDone | c/threadpool.c:158-166 | `threadpool_wait_all` can return exactly when `outstanding_tasks` is at most 0, and then no task is queued or executing and every stored task was taken |
| ThreadPool.Create | c/threadpool.c:11-78 | NULL exactly when an allocation, initialisation or thread start fails; otherwise a fresh, valid, empty, running pool |
| TaskTree.RootTree | c/benchmarks.c:206-212 | the root record (n = fib_number, res 0, pending 0, no parent) with its task pending satisfies the tree invariant |
| TaskTree.Children | c/benchmarks.c:172-186 | the two children are fresh records (res 0, pending 0) whose parent is the node; their sizes are below the node's, and for n >= 2 their Fibonacci numbers add up to F(n) |
| TaskTree.StepLeaf | c/benchmarks.c:147-158 | a node that sets res directly (n < 2, or the cutoff) replaces its task step with its finish step, keeps the invariant, and lowers the measure; the value stays exact only when it is F(n) |
| TaskTree.StepFork | c/benchmarks.c:172-191 | forking adds both children with `pending = 2`, replaces the node's task step with the children's, keeps the invariant, and lowers the measure |
| TaskTree.StepJoin | c/benchmarks.c:133-139 | a child's finish adds its res into the parent and frees the child; the parent's finish becomes pending exactly when the pre-decrement `pending` was 1, that is, when both children have joined |
| TaskTree.OnlyRootOrphan | c/benchmarks.c:133 | in a well-formed tree only node 0 has no parent, and every parent id is smaller than its child's |
| TaskTree.StepRootFinish | c/benchmarks.c:133-141 | the root's finish step changes no record and completes the run |
| TaskTree.Quiescent | c/benchmarks.c:216-221 | with nothing pending, the root is done, every other node is freed, and an exact run leaves F(n) in the root |
| TreeSteps.Finished | c/benchmarks.c:216-221 | with nothing pending, the root holds F(fib_number) unless an allocation failed, and every node's finish ran exactly once |
| ForkJoin.FibTree.constructor | c/benchmarks.c:200-212 | the root record n = fib_number, res 0, pending 0, no parent, with its task step pending |
| ForkJoin.FibTree.Record | c/benchmarks.c:147-158 | `ctx->res = v` for a node that does not fork: only that record's res changes, the node is Computed, its finish step is now pending, and every size, parent and settled record is kept (`Keeps`) |
| ForkJoin.FibTree.Split | c/benchmarks.c:172-188 | appends the two children at ids l and l+1 and sets the node's pending to 2; nothing else changes, and the node is now Awaiting |
| ForkJoin.FibTree.Pending | c/benchmarks.c:133 | a pending step names a node in the matching phase, and that node has a parent exactly when it is not the root |
| ForkJoin.FibTree.Join | c/benchmarks.c:133-138 | the parent's res gains the child's and its pending drops by one; the child is freed; the parent is Computed and its finish pending exactly when the previous value was 1 |
| ForkJoin.JoinKeeps | c/benchmarks.c:133-139 | a join changes no node's size or parent, never makes a node Ready again, and leaves every settled (Computed, Done or Freed) record as it was |
| ForkJoin.FibTree.FinishRoot | c/benchmarks.c:133-141 | the root's finish step changes no record |
| ForkJoin.FibTree.Complete | c/benchmarks.c:216-221 | with nothing pending, the root holds F(fib_number) when no allocation failed, and each node's finish ran exactly once |
| Benchmarks.FibScheduler.Drain | c/threadpool.c:86-119 | workers take turns while `outstanding_tasks` is positive; afterwards the queue is empty and the tree invariant holds with nothing pending |
| Benchmarks.FibScheduler.WorkerTurn | c/threadpool.c:88-118 | one dequeue, run and decrement keeps the scheduler invariant and lowers the work left |
| Benchmarks.FibScheduler.Run | c/threadpool.c:110 | `task.func(task.arg)` dispatches to the task or the finish function; afterwards the step has run (`StepRan`), the records are kept (`Keeps`), the queue has only grown at its end, and the invariant holds |
| Benchmarks.FibScheduler.Submit | c/threadpool.c:125-156 | a worker's submission during a run: with room, the step is appended to the queue and the records are unchanged; on a full queue it runs inline and has run on return; it is never dropped and never waits |
| Benchmarks.FibScheduler.EnqueueOrRun | c/benchmarks.c:120-127 | on a full queue (the worker's check) the task runs inline and has run on return; otherwise it is submitted, appended to the queue with the records unchanged |
| Benchmarks.FibScheduler.FibonacciTask | c/benchmarks.c:143-192 | n < 2 leaves res = n, the cutoff branch (n <= 10) res = F(n), a failed child allocation res = -1; each of these queues its finish step (or runs it on a full queue). Otherwise the children n-1 and n-2, with the node as parent, get the next two ids; the right child has run and the left one is queued or, on a full queue, has run |
| Benchmarks.FibScheduler.SetResult | c/benchmarks.c:147-169 | the node's record changes only in res, which becomes v, and stays so; its finish step is appended to the queue, or has run if the queue was full |
| Benchmarks.FibScheduler.Fork | c/benchmarks.c:172-191 | the children n-1 and n-2 with the node as parent get the next two ids; the left child is queued right after the earlier contents, or has run if the queue was full; the right child has run |
| Benchmarks.FibScheduler.FibonacciFinishTask | c/benchmarks.c:129-141 | the finish has run; for a child, the parent's res gains the child's res and its pending drops by one, and the parent's finish is queued (or run on a full queue) when the pre-decrement pending was 1, with the queue unchanged otherwise; the root's finish changes no record and queues nothing |
| Benchmarks.RunFibonacci | c/benchmarks.c:194-225 | no result and no records when the root allocation fails (`-1.0`); otherwise the run's records are returned with nothing pending: the root has n = fib_number and no parent and holds the result, every node's finish ran exactly once, and without allocation failures the result is F(fib_number); the pool ends valid, running and idle |
| BlockingBenchmarks.FibTaskArgs.constructor | benchmarks.c:121-135 | a record has value 0, remaining_children 0, and is not completed |
| BlockingBenchmarks.FibTask | benchmarks.c:105-170 | n < 2 gives value n; otherwise the value is the sum of the children's values once both are completed; either way the record ends completed with value F(n) |
| BlockingBenchmarks.RunFibonacci | benchmarks.c:172-208 | the root starts at value 0, not completed; the value reported once it completes is F(fib_number) |
| Spawn.CDiv | c/benchmarks.c:74 | C's truncating `/`, which equals Dafny's `/` for a non-negative dividend and a positive divisor |
| Spawn.CRem | c/benchmarks.c:75 | C's `%`: dividend = quotient * divisor + remainder, with the remainder taking the dividend's sign and smaller in magnitude than the divisor |
| Spawn.ParallelSpawnSplit | c/benchmarks.c:74-95 | the split of c/benchmarks.c and the identical one at benchmarks.c:73-94: `malloc` failure submits nothing and yields no counts (benchmarks.c:76-81 likewise); otherwise spawner i gets `num_tasks / num_threads`, plus one exactly for i below `num_tasks % num_threads`, spawners are submitted in order, the counts differ by at most one and never increase, and they sum to `num_tasks` |
| Spawn.SharesAt | c/benchmarks.c:87-94 | the loop yields one count per spawner, and entry k is spawner k's share |
| Spawn.SharesSum | c/benchmarks.c:74-94 | for a non-negative task count the shares add up to `num_tasks` |
| Spawn.SharesPrefixSum | c/benchmarks.c:87-94 | the first i shares add up to i times `tasks_per_thread` plus the extra tasks among them |
| Spawn.SharesBalanced | c/benchmarks.c:89-94 | each share is `tasks_per_thread` or one more, one more exactly below `remaining_tasks`; shares differ by at most one and never increase |
| GoFib.MaxWorkers | go/fib.go:126-132 | `maxWorkers` is `numThreads` when goroutines are limited and `4 * numThreads` otherwise; for a positive thread count it lies between the two and equals `numThreads` exactly when goroutines are limited |
| GoFib.GoScheduler.constructor | go/fib.go:21 | `activeWorkers` starts at 0, with no goroutines |
| GoFib.GoScheduler.Drain | go/fib.go:144-150 | goroutines run while `activeWorkers > 0`; afterwards none is left, nothing is pending, and the running maximum `peak` has not decreased |
| GoFib.GoScheduler.GoroutineTurn | go/fib.go:48-51 | any waiting goroutine runs its step, its deferred decrement lowers `activeWorkers` by one, and the invariant is kept |
| GoFib.GoScheduler.Run | go/fib.go:50 | `fn(ctx)` dispatches to the task or the finish closure; afterwards the step has run, the records are kept, and goroutines were only added |
| GoFib.GoScheduler.EnqueueOrRun | go/fib.go:39-53 | when `activeWorkers >= maxWorkers` the step runs inline and has run on return; otherwise `activeWorkers` grows by one and a goroutine for the step is appended, with the records unchanged; in the model `activeWorkers` stays within `maxWorkers` (or the root's one) |
| GoFib.GoScheduler.FibonacciTask | go/fib.go:72-110 | n < 2 leaves res = n and n <= 10 res = F(n) = fibSerial(n), each handing the finish to `enqueueOrRun` (a new goroutine, or run inline); otherwise the children n-1 and n-2 with the node as parent get the next two ids, the right child has run, and the left one got a goroutine or has run inline |
| GoFib.GoScheduler.SetResult | go/fib.go:74-84 | the node's record changes only in res, which becomes v, and stays so; its finish step gets a goroutine when `activeWorkers < maxWorkers` and has run inline otherwise |
| GoFib.GoScheduler.Fork | go/fib.go:87-109 | the children n-1 and n-2 with the node as parent get the next two ids; the left child gets a goroutine when `activeWorkers < maxWorkers` and has run inline otherwise; the right child has run |
| GoFib.GoScheduler.FibonacciFinishTask | go/fib.go:56-69 | the finish has run; for a child, the parent's res gains the child's res and its pending drops by one, and when pending reaches 0 the parent's finish goes to `enqueueOrRun` (a goroutine, or run inline), with no goroutine added otherwise; the root's finish changes no record |
| GoFib.RunFibonacci | go/fib.go:113-156 | the run's scheduler is returned: the root has n = fibNumber and no parent, `root.res` is F(fibNumber), every node's finish ran exactly once, `activeWorkers` ends at 0, and in the model its running maximum stayed between 1 and `maxWorkers` (or 1) |
| MemoFib.MemoTable.constructor | rust/src/tasks.rs:11 | the table starts with no slots |
| MemoFib.MemoTable.PushEmpty | rust/src/tasks.rs:12-17 | one more empty slot, and every filled slot k still holds F(k) |
| MemoFib.MemoTable.FibHelper | rust/src/tasks.rs:21-45 | returns F(n) and leaves `Some(F(n))` in slot n; a filled slot n is returned with no slot written; base cases are 0 and 1, then `fib_helper(n-1) + fib_helper(n-2)`; filled slots never change, slots above n are untouched, and every filled slot k holds F(k) |
| MemoFib.NewTable | rust/src/tasks.rs:11-17 | `Vec::new()` and the `for _ in 0..=n` pushes give a fresh table of exactly n + 1 empty slots |
| MemoFib.MemoizedFib | rust/src/tasks.rs:10-19 | on a fresh table of n + 1 empty slots, the result is F(n), slot n holds it, the table still has n + 1 slots, and every filled slot k holds F(k) |
| Cli.ParseBenchmarkType | c/main.c:32-42 | a string parses to a type exactly when it is that type's keyword ("serial", "parallel", "fib"); every other string gives -1 |
| Cli.Digits | c/main.c:51 | `%d` digits form a non-empty string of the characters 0 to 9 |
| Cli.DigitsRoundTrip | c/main.c:51 | reading back the `%d` digits of a natural number gives the number |
| Cli.DecimalRoundTrip | c/main.c:51 | reading back the `%d` text of any int, sign included, gives the int |
| Cli.DecimalInjective | c/main.c:51 | no two ints print the same under `%d` |
| Cli.DigitsLength | c/main.c:46-51 | a natural below 10^k has at most k digits |
| Cli.GetBenchmarkName | c/main.c:45-55 | the name is "Unknown" exactly for values outside the enum; the serial and parallel types give "Serial Spawn" and "Parallel Spawn"; the Fibonacci name has the form "Fibonacci(...)", and the text between the parentheses reads back as `fib_number` |
| Cli.FibNameFits | c/main.c:46-51 | for a 32-bit `fib_number`, "Fibonacci(<n>)" plus its NUL fits the 32-byte buffer, so `snprintf` does not truncate |
| Cli.NamesDistinct | c/main.c:45-55 | equal names come from the same benchmark type (all values outside the enum give "Unknown"), and equal Fibonacci names from the same `fib_number` |
| Cli.SettingsLast | c/main.c:58-64 | the thread count is the last `-t` value or the default 8, and pinning is set exactly when `--pin` was given |
| Cli.HandleOption | c/main.c:83-128 | an accepted option updates the config, the simple flag or the run count; `-h` gives status 0; an invalid type, a count <= 0, a negative fib number, or an unknown option gives status 1 |
| Cli.ApplyOk | c/main.c:84-124 | an accepted option keeps the config valid: a benchmark type or none yet, positive thread and task counts, and a non-negative fib number |
| Cli.ScanOptions | c/main.c:82-129 | the option loop stops at the first option that returns a status; no status exactly when every option was accepted, and then the settings are the fold of all options (the last value of each wins), with 5 runs exactly when `-q` was given and `simple` exactly when `-s` was; the status is 0 exactly when a `-h` comes before any rejected option, and 1 otherwise |
| Cli.ParseArguments | c/main.c:58-136 | the benchmark starts exactly when every option is valid and a type was given. In that case it uses the options over the defaults (8 threads, 1048576 tasks, fib 30) with 40 runs, or 5 with `-q`, and `simple` exactly when `-s` was given. Status 0 exactly when `-h` comes before any invalid option. Every other case gives status 1 |

## Left out

- Threads, mutexes, condition variables and C11/Go atomics. The workers and goroutines are run by a sequential scheduler. A blocking wait is an outcome meaning "not enabled yet": `WouldBlock` for the `queue_not_full` wait and `Idle` for the `queue_not_empty` wait. `threadpool_wait_all` is modelled as `WaitAllDone`.
- ThreadPool.Pool.Submit: a non-worker's submission into a full queue returns `WouldBlock` with no effect. In the code, `outstanding_tasks` is already incremented while it waits. The model counts the task only once the submission goes through.
- The race on the unlocked read of `queue_size` at c/threadpool.c:128 and the non-atomic `ctx->parent->res += ctx->res` at c/benchmarks.c:134. Run sequentially, neither can lose an update.
- The thread-local `is_worker` flag is an explicit parameter. Every Fibonacci step and every submission it makes runs as a worker (`is_worker` true). The external first submission in `run_fibonacci` is a non-worker's.
- The thread start and join loop, and the rollback in `threadpool_create` on a failed `pthread_create`. `ThreadPool.Create` models only whether some allocation, initialisation or thread start failed.
- The wake-up (`pthread_cond_broadcast`), the joining of the worker threads and the destruction and freeing of the locks, the queue, the workers and the pool in `threadpool_destroy` (c/threadpool.c:168-193). Only its setting of the shutdown flag is modelled.
- Cli.GetBenchmarkName: the source writes the Fibonacci name into one static 32-byte buffer (c/main.c:46), so a later call overwrites a name returned earlier. The model returns a fresh string value and does not capture that aliasing.
- `malloc`, `calloc` and `free`. An allocation failure is an input:
  - `allocFails` is the nodes whose children cannot be allocated;
  - `rootAllocOk` is the root's `calloc`;
  - `allocOk` is `spawn_args`.
  A freed node stays in the sequence, in phase Freed.
- C `long` and Go `int64` overflow past F(92), Rust `usize` overflow, and `int` overflow of `numThreads * 4` in go/fib.go and of `num_tasks` in C. All integers are unbounded.
- Timing (`clock_gettime`, `get_time_diff`, `time.Now`), `set_thread_affinity`, the core-count warning in `main`, and all `printf`/`fmt` output.
- `run_serial_spawn`, `parallel_spawner_task` and the spawner submissions themselves. `Spawn.ParallelSpawnSplit` records the submission order of the spawners but not their queueing.
- BlockingBenchmarks.FibTask: children are run by direct calls. As a result, the model does not show that the blocking `fib_task` can deadlock a pool whose workers are all waiting on children.
- GoFib.GoScheduler.EnqueueOrRun: the bound on `activeWorkers` holds in the model only, because a goroutine runs to its end once picked. In go/fib.go the load of `activeWorkers` and its increment (go/fib.go:40-47) are separate atomic operations, so two goroutines can both pass the check and exceed `maxWorkers`.
- GoFib.RunFibonacci: the running maximum `peak` is bounded under the same run-to-completion assumption; the source makes no such promise.
- In go/fib.go, the ordering between goroutines is arbitrary in the model. The interleaving of a goroutine's own steps with other goroutines' steps is not modelled: a goroutine runs to its end once picked.
- The Go `activeWorkers` global is a field of a per-run scheduler. It starts at 0, which is the value `runFibonacci` leaves it at. The `done` channel is left out, because the wait on `activeWorkers` subsumes it.
- `getopt_long` and `atoi`. The options arrive already recognised, with their numeric values. Also left out: `print_usage`, the pool-creation failure exit, and the benchmark-run loop of `main` after option handling.
- rust/src/tasks.rs `dummy_task`, because it has no logic.

