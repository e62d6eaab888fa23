/**
 * The reference Fibonacci function and the iterative `fib_serial` loop
 * (c/benchmarks.c, and the identical `fibSerial` in go/fib.go).
 */
module Fibonacci {

  /**
   * F(n) for every integer n.  For n < 2 the value is n itself, which is what every
   * implementation in the repository returns for its base cases (and for negative n).
   */
  function Fib(n: int): int
    decreases if n < 0 then 0 else n
  {
    if n < 2 then n else Fib(n - 1) + Fib(n - 2)
  }

  /**
   * `fib_serial(n)`: n for n < 2, and otherwise the two-variable loop
   * `temp = a + b; a = b; b = temp` for i = 2 .. n, returning b.
   */
  method FibSerial(n: int) returns (r: int)
    ensures r == Fib(n)
  {
    if n < 2 {
      return n;
    }
    var a, b := 0, 1;
    var i := 2;
    while i <= n
      invariant 2 <= i <= n + 1
      invariant a == Fib(i - 2) && b == Fib(i - 1)
    {
      var temp := a + b;
      a := b;
      b := temp;
      i := i + 1;
    }
    return b;
  }
}
