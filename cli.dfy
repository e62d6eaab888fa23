/**
 * The command line of c/main.c: the benchmark-type keywords, the benchmark names, and
 * the `getopt_long` loop of `main` with its checks and defaults.  `getopt_long` and
 * `atoi` are not modelled: the loop receives the options already recognised, each with
 * its `atoi` value.
 */
module Cli {
  import opened Wrappers

  /** `benchmark_type_t`, a C enum; -1 is the "no type / invalid type" marker of `main`. */
  const BenchmarkSerial := 0
  const BenchmarkParallel := 1
  const BenchmarkFibonacci := 2
  const NoType := -1

  const DefaultThreads := 8
  const DefaultTasks := 1048576
  const DefaultFibNumber := 30
  const DefaultRuns := 40
  const QuickRuns := 5

  /** The three values of the enum. */
  predicate IsBenchmarkType(t: int)
  {
    t == BenchmarkSerial || t == BenchmarkParallel || t == BenchmarkFibonacci
  }

  /** The `-b` argument that selects benchmark type t. */
  function Keyword(t: int): string
    requires IsBenchmarkType(t)
  {
    if t == BenchmarkSerial then "serial" else if t == BenchmarkParallel then "parallel" else "fib"
  }

  /**
   * `parse_benchmark_type(type_str)`: the `strcmp` chain over the three keywords, and
   * -1 for any other string.  The parser inverts `Keyword`: a string yields a type
   * exactly when it is that type's keyword.
   */
  function ParseBenchmarkType(s: string): (t: int)
    ensures t != NoType ==> IsBenchmarkType(t) && Keyword(t) == s
    ensures t == NoType ==> forall u | IsBenchmarkType(u) :: Keyword(u) != s
  {
    if s == "serial" then BenchmarkSerial
    else if s == "parallel" then BenchmarkParallel
    else if s == "fib" then BenchmarkFibonacci
    else NoType
  }

  /** The decimal digits of a natural number, as `%d` prints them. */
  function Digits(n: nat): (s: string)
    ensures |s| > 0 && forall i | 0 <= i < |s| :: '0' <= s[i] <= '9'
  {
    if n < 10 then [DigitChar(n)] else Digits(n / 10) + [DigitChar(n % 10)]
  }

  function DigitChar(d: nat): char
    requires d < 10
  {
    "0123456789"[d]
  }

  /** `%d` of an int: a minus sign before the digits of a negative number. */
  function Decimal(n: int): string
  {
    if n < 0 then "-" + Digits(-n) else Digits(n)
  }

  /** The value of a string of decimal digits: the reading back of `Digits`. */
  function DigitsValue(s: string): int
  {
    if s == [] then 0 else DigitsValue(s[..|s| - 1]) * 10 + (s[|s| - 1] as int - '0' as int)
  }

  /** Reading the digits back gives the number. */
  lemma {:induction false} DigitsRoundTrip(n: nat)
    ensures DigitsValue(Digits(n)) == n
  {
    if n >= 10 {
      DigitsRoundTrip(n / 10);
      var s := Digits(n);
      assert s[..|s| - 1] == Digits(n / 10);
    }
  }

  /** The value of `%d` output: an optional minus sign, then decimal digits. */
  function DecimalValue(s: string): int
  {
    if |s| > 0 && s[0] == '-' then -DigitsValue(s[1..]) else DigitsValue(s)
  }

  /** Reading a printed int back gives the int. */
  lemma {:induction false} DecimalRoundTrip(n: int)
    ensures DecimalValue(Decimal(n)) == n
  {
    var d := Digits(if n < 0 then -n else n);
    DigitsRoundTrip(if n < 0 then -n else n);
    if n < 0 {
      assert Decimal(n) == "-" + d;
      SignedValue(d);
    } else {
      assert Decimal(n) == d;
      UnsignedValue(d);
    }
  }

  lemma {:induction false} SignedValue(d: string)
    ensures DecimalValue("-" + d) == -DigitsValue(d)
  {
    var s := "-" + d;
    assert s[0] == '-' && s[1..] == d;
  }

  lemma {:induction false} UnsignedValue(d: string)
    requires |d| > 0 && '0' <= d[0] <= '9'
    ensures DecimalValue(d) == DigitsValue(d)
  {
  }

  /** No two ints print the same. */
  lemma {:induction false} DecimalInjective(a: int, b: int)
    requires Decimal(a) == Decimal(b)
    ensures a == b
  {
    var da := Digits(if a < 0 then -a else a);
    var db := Digits(if b < 0 then -b else b);
    assert (a < 0) == (Decimal(a)[0] == '-') && (b < 0) == (Decimal(b)[0] == '-');
    if a < 0 {
      assert da == Decimal(a)[1..];
    }
    if b < 0 {
      assert db == Decimal(b)[1..];
    }
    assert da == db;
    DigitsRoundTrip(if a < 0 then -a else a);
    DigitsRoundTrip(if b < 0 then -b else b);
  }

  /** A number of at most k digits: below 10^k. */
  function Pow10(k: nat): nat
  {
    if k == 0 then 1 else 10 * Pow10(k - 1)
  }

  /** A natural below 10^k has at most k digits (k >= 1). */
  lemma {:induction false} DigitsLength(n: nat, k: nat)
    requires k >= 1 && n < Pow10(k)
    ensures |Digits(n)| <= k
  {
    if n >= 10 {
      DigitsLength(n / 10, k - 1);
    }
  }

  /**
   * `get_benchmark_name(type, fib_number)`: "Serial Spawn", "Parallel Spawn",
   * "Fibonacci(<fib_number>)" written by `snprintf` into a 32-byte static buffer, and
   * "Unknown" for any other value of the enum.
   */
  function GetBenchmarkName(t: int, fibNumber: int): (name: string)
    ensures name == "Unknown" <==> !IsBenchmarkType(t)
    ensures t == BenchmarkSerial ==> name == "Serial Spawn"
    ensures t == BenchmarkParallel ==> name == "Parallel Spawn"
    ensures t == BenchmarkFibonacci ==>
              && |name| > 11 && name[..10] == "Fibonacci(" && name[|name| - 1] == ')'
              && DecimalValue(name[10..|name| - 1]) == fibNumber
  {
    if t == BenchmarkSerial then "Serial Spawn"
    else if t == BenchmarkParallel then "Parallel Spawn"
    else if t == BenchmarkFibonacci then
      var d := Decimal(fibNumber);
      var name := "Fibonacci(" + d + ")";
      DecimalRoundTrip(fibNumber);
      assert name[10..|name| - 1] == d;
      name
    else "Unknown"
  }

  /**
   * For a 32-bit `fib_number` the Fibonacci name and its terminating NUL fit the
   * 32-byte buffer, so `snprintf` never cuts it short.
   */
  lemma {:induction false} FibNameFits(fibNumber: int)
    requires -0x8000_0000 <= fibNumber < 0x8000_0000
    ensures |GetBenchmarkName(BenchmarkFibonacci, fibNumber)| + 1 <= 32
  {
    assert Pow10(10) == 10_000_000_000;
    DigitsLength(if fibNumber < 0 then -fibNumber else fibNumber, 10);
  }

  /**
   * The names tell the benchmarks apart: two equal names come from the same type (all
   * values outside the enum sharing "Unknown"), and two equal Fibonacci names from the
   * same `fib_number`.
   */
  lemma {:induction false} NamesDistinct(t1: int, f1: int, t2: int, f2: int)
    requires GetBenchmarkName(t1, f1) == GetBenchmarkName(t2, f2)
    ensures IsBenchmarkType(t1) <==> IsBenchmarkType(t2)
    ensures IsBenchmarkType(t1) ==> t1 == t2
    ensures t1 == BenchmarkFibonacci ==> f1 == f2
  {
    var n1, n2 := GetBenchmarkName(t1, f1), GetBenchmarkName(t2, f2);
    assert n1[0] == n2[0];
    if t1 == BenchmarkFibonacci && t2 == BenchmarkFibonacci {
      assert Decimal(f1) == n1[10..|n1| - 1];
      assert Decimal(f2) == n2[10..|n2| - 1];
      DecimalInjective(f1, f2);
    }
  }

  /** An option as `getopt_long` returns it, with `atoi` of its argument where it takes a number. */
  datatype Opt =
    | Benchmark(arg: string)   // -b, --benchmark
    | Threads(value: int)      // -t, --threads
    | Tasks(value: int)        // -n, --tasks
    | FibNumber(value: int)    // -f, --fib-number
    | Pin                      // --pin (-p)
    | Help                     // -h, --help
    | Simple                   // -s
    | Quick                    // -q
    | Unrecognised             // '?': an unknown option or a missing argument

  /** `benchmark_config_t`. */
  datatype Config = Config(benchmarkType: int, numThreads: int, numTasks: int, fibNumber: int, pinThreads: bool)

  /** Where the option handling of `main` ends: an early `return` with a status, or the benchmark runs. */
  datatype Outcome = Exit(status: int) | Start(config: Config, runs: int, simple: bool)

  /** An option the loop accepts and goes on from; any other makes `main` return. */
  predicate Accepted(o: Opt)
  {
    match o
    case Benchmark(arg) => ParseBenchmarkType(arg) != NoType
    case Threads(v) => v > 0
    case Tasks(v) => v > 0
    case FibNumber(v) => v >= 0
    case Pin => true
    case Simple => true
    case Quick => true
    case Help => false
    case Unrecognised => false
  }

  /** The setting an option makes, if any: the config with that option applied. */
  function Apply(c: Config, o: Opt): Config
  {
    match o
    case Benchmark(arg) => c.(benchmarkType := ParseBenchmarkType(arg))
    case Threads(v) => c.(numThreads := v)
    case Tasks(v) => c.(numTasks := v)
    case FibNumber(v) => c.(fibNumber := v)
    case Pin => c.(pinThreads := true)
    case _ => c
  }

  /** A config that the accepted options can produce: a type or none yet, and positive counts. */
  predicate ConfigOk(c: Config)
  {
    && (c.benchmarkType == NoType || IsBenchmarkType(c.benchmarkType))
    && c.numThreads > 0 && c.numTasks > 0 && c.fibNumber >= 0
  }

  /** An accepted option keeps the config valid. */
  lemma {:induction false} ApplyOk(c: Config, o: Opt)
    requires ConfigOk(c) && Accepted(o)
    ensures ConfigOk(Apply(c, o))
  {
    match o
    case Benchmark(arg) =>
      assert IsBenchmarkType(ParseBenchmarkType(arg));
    case _ =>
  }

  /** The config after a run of options: each field holds the last value given for it, or its default. */
  function Settings(opts: seq<Opt>): Config
  {
    if opts == [] then Config(NoType, DefaultThreads, DefaultTasks, DefaultFibNumber, false)
    else Apply(Settings(opts[..|opts| - 1]), opts[|opts| - 1])
  }

  /** The last `-t` value among the options, or the default thread count. */
  function LastThreads(opts: seq<Opt>): int
  {
    if opts == [] then DefaultThreads
    else if opts[|opts| - 1].Threads? then opts[|opts| - 1].value
    else LastThreads(opts[..|opts| - 1])
  }

  /**
   * The defaults of `main` are overridden only by the options that set them: the
   * thread count is the last `-t` value or 8, and the pinning flag is set exactly when
   * `--pin` was given.
   */
  lemma {:induction false} SettingsLast(opts: seq<Opt>)
    ensures Settings(opts).numThreads == LastThreads(opts)
    ensures Settings(opts).pinThreads <==> Pin in opts
  {
    if opts != [] {
      var init := opts[..|opts| - 1];
      SettingsLast(init);
      assert opts == init + [opts[|opts| - 1]];
    }
  }

  /**
   * The option loop of `main` and the test for a missing type after it.  An invalid benchmark type,
   * a thread or task count <= 0, a negative Fibonacci number or an unrecognised option
   * ends it with status 1 and `-h` with status 0, whichever of these comes first; with
   * none of them and no `-b`, the status is 1.  Otherwise the benchmark starts with the
   * options' settings over the defaults (8 threads, 2^20 tasks, fib number 30), 40 runs
   * or 5 with `-q`, and the simple flag exactly when `-s` was given.
   */
  method ParseArguments(opts: seq<Opt>) returns (outcome: Outcome)
    ensures outcome.Start? <==>
              (forall k | 0 <= k < |opts| :: Accepted(opts[k])) && Settings(opts).benchmarkType != NoType
    ensures outcome.Exit? ==> outcome.status == 0 || outcome.status == 1
    ensures outcome == Exit(0) <==>
              exists i | 0 <= i < |opts| :: opts[i].Help? && forall k | 0 <= k < i :: Accepted(opts[k])
    ensures outcome.Start? ==>
              && outcome.config == Settings(opts)
              && IsBenchmarkType(outcome.config.benchmarkType)
              && outcome.config.numThreads > 0 && outcome.config.numTasks > 0 && outcome.config.fibNumber >= 0
              && outcome.runs == (if Quick in opts then QuickRuns else DefaultRuns)
              && (outcome.simple <==> Simple in opts)
  {
    var status, config, simple, runs := ScanOptions(opts);
    if status.Some? {
      return Exit(status.value);
    }
    if config.benchmarkType == NoType {
      NoHelpAtAll(opts);
      return Exit(1);
    }
    return Start(config, runs, simple);
  }

  /**
   * The `while ((opt = getopt_long(...)) != -1)` loop of `main`: the options are handled
   * in order until one of them returns a status.  With no status every option was
   * accepted and the settings are the fold of all of them; a status is 0 exactly when a
   * `-h` comes before any rejected option.
   */
  method ScanOptions(opts: seq<Opt>) returns (status: Option<int>, config: Config, simple: bool, runs: int)
    ensures status.None? <==> forall k | 0 <= k < |opts| :: Accepted(opts[k])
    ensures status.Some? ==> status.value == 0 || status.value == 1
    ensures status == Some(0) <==>
              exists i | 0 <= i < |opts| :: opts[i].Help? && forall k | 0 <= k < i :: Accepted(opts[k])
    ensures status.None? ==>
              && config == Settings(opts)
              && (config.benchmarkType == NoType || IsBenchmarkType(config.benchmarkType))
              && config.numThreads > 0 && config.numTasks > 0 && config.fibNumber >= 0
              && runs == (if Quick in opts then QuickRuns else DefaultRuns)
              && (simple <==> Simple in opts)
  {
    config := Config(NoType, DefaultThreads, DefaultTasks, DefaultFibNumber, false);
    simple := false;
    runs := DefaultRuns;
    var i := 0;
    while i < |opts|
      invariant 0 <= i <= |opts|
      invariant forall k | 0 <= k < i :: Accepted(opts[k])
      invariant config == Settings(opts[..i]) && ConfigOk(config)
      invariant runs == (if Quick in opts[..i] then QuickRuns else DefaultRuns)
      invariant simple <==> Simple in opts[..i]
    {
      var o := opts[i];
      assert opts[..i + 1] == opts[..i] + [o];
      ghost var before := config;
      status, config, simple, runs := HandleOption(o, config, simple, runs);
      if status.None? {
        ApplyOk(before, o);
      }
      if status.Some? {
        if status.value == 1 {
          NoHelpBefore(opts, i);
        }
        return;
      }
      i := i + 1;
    }
    assert opts[..i] == opts;
    NoHelpAtAll(opts);
    status := None;
  }

  /**
   * One `case` of the `switch (opt)` in `main`: an accepted option updates the config,
   * the simple flag or the run count and the loop goes on (no status); `-h` returns 0;
   * an invalid value or an unrecognised option returns 1.
   */
  method HandleOption(o: Opt, config: Config, simple: bool, runs: int)
      returns (status: Option<int>, config': Config, simple': bool, runs': int)
    ensures status.None? <==> Accepted(o)
    ensures status == Some(0) <==> o.Help?
    ensures status.Some? ==> status.value == 0 || status.value == 1
    ensures status.None? ==>
              && config' == Apply(config, o)
              && (simple' <==> simple || o.Simple?)
              && runs' == (if o.Quick? then QuickRuns else runs)
  {
    config', simple', runs' := config, simple, runs;
    match o {
      case Benchmark(arg) =>
        config' := config'.(benchmarkType := ParseBenchmarkType(arg));
        if config'.benchmarkType == NoType {
          return Some(1), config', simple', runs';
        }
      case Threads(v) =>
        config' := config'.(numThreads := v);
        if config'.numThreads <= 0 {
          return Some(1), config', simple', runs';
        }
      case Tasks(v) =>
        config' := config'.(numTasks := v);
        if config'.numTasks <= 0 {
          return Some(1), config', simple', runs';
        }
      case FibNumber(v) =>
        config' := config'.(fibNumber := v);
        if config'.fibNumber < 0 {
          return Some(1), config', simple', runs';
        }
      case Pin =>
        config' := config'.(pinThreads := true);
      case Help =>
        return Some(0), config', simple', runs';
      case Simple =>
        simple' := true;
      case Quick =>
        runs' := QuickRuns;
      case Unrecognised =>
        return Some(1), config', simple', runs';
    }
    status := None;
  }

  /** When option i stops the loop and is not `-h`, no `-h` is reached first. */
  lemma {:induction false} NoHelpBefore(opts: seq<Opt>, i: nat)
    requires i < |opts| && !Accepted(opts[i]) && !opts[i].Help?
    requires forall k | 0 <= k < i :: Accepted(opts[k])
    ensures !exists j | 0 <= j < |opts| :: opts[j].Help? && forall k | 0 <= k < j :: Accepted(opts[k])
  {
    forall j | 0 <= j < |opts| && opts[j].Help?
      ensures exists k | 0 <= k < j :: !Accepted(opts[k])
    {
      assert i < j && !Accepted(opts[i]);
    }
  }

  /** When every option is accepted, none is `-h`. */
  lemma {:induction false} NoHelpAtAll(opts: seq<Opt>)
    requires forall k | 0 <= k < |opts| :: Accepted(opts[k])
    ensures !exists j | 0 <= j < |opts| :: opts[j].Help? && forall k | 0 <= k < j :: Accepted(opts[k])
  {
  }
}
