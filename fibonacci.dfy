/** The two iterative Fibonacci routines of algorithm.go. Both keep the pair
    `f, g` of consecutive Fibonacci numbers in Go `uint64` variables, so every
    value is the true Fibonacci number reduced modulo 2^64. */
module Fibonacci {
  import opened Uint64

  /** The Fibonacci numbers, F(0) = 0 and F(1) = 1. */
  function Fib(n: nat): nat {
    if n < 2 then n else Fib(n - 2) + Fib(n - 1)
  }

  /** One turn of the loop body `g += f; f = g - f` on uint64 values moves the
      pair (F(k), F(k + 1)) mod 2^64 on to (F(k + 1), F(k + 2)) mod 2^64. */
  lemma {:induction false} StepPair(k: nat, f: U64, g: U64)
    requires f == Fib(k) % U64_MOD && g == Fib(k + 1) % U64_MOD
    ensures (g + f) % U64_MOD == Fib(k + 2) % U64_MOD
    ensures ((g + f) % U64_MOD - f) % U64_MOD == Fib(k + 1) % U64_MOD
  {
    AddMod(Fib(k + 1), Fib(k));
    WrapAddSub(g, f);
  }

  /** A list of Fibonacci numbers mod 2^64, starting at F(1), satisfies the
      recurrence with wrap-around. */
  lemma WrappedRecurrence(data: seq<U64>)
    requires forall k :: 0 <= k < |data| ==> data[k] == Fib(k + 1) % U64_MOD
    ensures forall k :: 2 <= k < |data| ==> data[k] == (data[k - 2] + data[k - 1]) % U64_MOD
  {
    forall k | 2 <= k < |data| ensures data[k] == (data[k - 2] + data[k - 1]) % U64_MOD {
      var a, b := Fib(k - 1), Fib(k);
      assert data[k - 2] == a % U64_MOD && data[k - 1] == b % U64_MOD;
      assert data[k] == (a + b) % U64_MOD;
      AddMod(a, b);
    }
  }

  /** Fibonacci: F(n) mod 2^64 for positive `n`; 0 when `n` is zero or negative
      (the loop does not run). */
  method Fibonacci(n: int) returns (f: U64)
    ensures n <= 0 ==> f == 0
    ensures n > 0 ==> f == Fib(n) % U64_MOD
  {
    f := 0;
    var g: U64 := 1;
    var count := n;
    ghost var k: nat := 0;
    while 0 < count
      invariant k + count == n
      invariant 0 <= count || k == 0
      invariant f == Fib(k) % U64_MOD && g == Fib(k + 1) % U64_MOD
    {
      count := count - 1;
      StepPair(k, f, g);
      g := (g + f) % U64_MOD;
      f := (g - f) % U64_MOD;
      k := k + 1;
    }
  }

  /** FibonacciSlice: the list F(1), ..., F(n), each mod 2^64, empty when `n` is
      zero or negative; so its last element is what `Fibonacci(n)` returns, and
      each element from the third on is the wrapped sum of the two before it. */
  method FibonacciSlice(n: int) returns (data: seq<U64>)
    ensures |data| == if n <= 0 then 0 else n
    ensures forall k :: 0 <= k < |data| ==> data[k] == Fib(k + 1) % U64_MOD
    ensures forall k :: 2 <= k < |data| ==> data[k] == (data[k - 2] + data[k - 1]) % U64_MOD
  {
    data := [];
    var f: U64, g: U64 := 0, 1;
    var count := n;
    while 0 < count
      invariant |data| + count == n
      invariant 0 <= count || |data| == 0
      invariant forall k :: 0 <= k < |data| ==> data[k] == Fib(k + 1) % U64_MOD
      invariant f == Fib(|data|) % U64_MOD && g == Fib(|data| + 1) % U64_MOD
    {
      count := count - 1;
      StepPair(|data|, f, g);
      g := (g + f) % U64_MOD;
      f := (g - f) % U64_MOD;
      data := data + [f];
    }
    WrappedRecurrence(data);
  }
}
