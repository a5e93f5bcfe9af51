/** The recursive Fibonacci benchmark: a C `int` argument, an
    `unsigned long long` result, so every sum wraps modulo 2^64 and a
    negative argument is converted to 2^64 + n. */
module Fib {

  /** 2^64, the modulus of `unsigned long long` arithmetic. */
  const TwoTo64: int := 0x1_0000_0000_0000_0000

  /** The C `int` type (32 bits, two's complement). */
  newtype Int32 = x: int | -0x8000_0000 <= x < 0x8000_0000

  /** The mathematical Fibonacci numbers, unbounded. */
  function Fib(n: nat): nat
  {
    if n <= 1 then n else Fib(n - 1) + Fib(n - 2)
  }

  /** Conversion of an `int` to `unsigned long long`: C defines it as
      reduction modulo 2^64. */
  function ToUnsigned64(n: Int32): (r: nat)
    ensures r < TwoTo64
    ensures r == (n as int) % TwoTo64
  {
    if n < 0 then TwoTo64 + n as int else n as int
  }

  /** `fibonacci(n)` as the C function computes it. */
  function Fibonacci(n: Int32): (r: nat)
    ensures r < TwoTo64
    decreases if n < 0 then 0 else n as int
  {
    if n <= 1 then ToUnsigned64(n)
    else (Fibonacci(n - 1) + Fibonacci(n - 2)) % TwoTo64
  }

  /** Base cases. */
  lemma FibonacciBase()
    ensures Fibonacci(0) == 0 && Fibonacci(1) == 1
  {
  }

  /** A negative argument is returned at once, converted to unsigned. */
  lemma FibonacciNegative(n: Int32)
    requires n < 0
    ensures Fibonacci(n) == TwoTo64 + n as int
  {
  }

  /** For every non-negative argument the C function returns the true
      Fibonacci number reduced modulo 2^64. */
  lemma {:induction false} FibonacciIsFibMod(n: Int32)
    requires n >= 0
    ensures Fibonacci(n) == Fib(n as nat) % TwoTo64
  {
    if n >= 2 {
      FibonacciIsFibMod(n - 1);
      FibonacciIsFibMod(n - 2);
      var a, b := Fib(n as nat - 1), Fib(n as nat - 2);
      ModSum(a, b);
    }
  }

  /** (a mod m + b mod m) mod m == (a + b) mod m for m = 2^64. */
  lemma ModSum(a: nat, b: nat)
    ensures (a % TwoTo64 + b % TwoTo64) % TwoTo64 == (a + b) % TwoTo64
  {
    var qa, ra := a / TwoTo64, a % TwoTo64;
    var qb, rb := b / TwoTo64, b % TwoTo64;
    assert a + b == (qa + qb) * TwoTo64 + (ra + rb);
    ModMultipleAdd(qa + qb, ra + rb);
  }

  lemma ModMultipleAdd(q: nat, r: nat)
    ensures (q * TwoTo64 + r) % TwoTo64 == r % TwoTo64
  {
    if q > 0 {
      ModMultipleAdd(q - 1, r);
      assert q * TwoTo64 + r == (q - 1) * TwoTo64 + r + TwoTo64;
    }
  }
}
