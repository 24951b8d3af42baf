/** The integer routines of algorithm.go: Euclid's algorithm on `int64`,
    square-and-multiply exponentiation on `uint64`, and the count of set bits. */
module Numeric {
  import opened Uint64

  // ---------------------------------------------------------------------------
  // Gcd

  function Abs(x: int): nat {
    if x < 0 then -x else x
  }

  /** `d` divides `x`. Dafny's `%` is Euclidean, so the test is on `Abs(d)`. */
  predicate Divides(d: int, x: int) {
    d != 0 && x % Abs(d) == 0
  }

  /** A multiple of a positive `m` that lies strictly between `-m` and `m` is zero. */
  lemma SmallMultipleIsZero(d: int, m: int)
    requires m > 0 && -m < d * m < m
    ensures d == 0
  {
  }

  /** Euclidean division by a positive `m` is unique. */
  lemma DivModUnique(x: int, q: int, r: int, m: int)
    requires m > 0 && 0 <= r < m && x == q * m + r
    ensures x / m == q && x % m == r
  {
    SmallMultipleIsZero(q - x / m, m);
  }

  /** A multiple of a positive `m` leaves remainder zero. */
  lemma MultipleMod(q: int, m: int)
    requires m > 0
    ensures (q * m) % m == 0
  {
    DivModUnique(q * m, q, 0, m);
  }

  /** Go's `%` on integers: truncated division, so a non-zero remainder takes
      the sign of the dividend (`-7 % 2 == -1`), unlike Dafny's Euclidean `%`. */
  function GoRem(a: int, b: int): (r: int)
    requires b != 0
    ensures Abs(r) < Abs(b)
    ensures a >= 0 ==> r >= 0
    ensures a <= 0 ==> r <= 0
  {
    if a >= 0 then a % Abs(b) else -((-a) % Abs(b))
  }

  /** Go's remainder differs from the dividend by a multiple of the divisor. */
  lemma GoRemCongruent(a: int, b: int)
    requires b != 0
    ensures (a - GoRem(a, b)) % Abs(b) == 0
  {
    var m := Abs(b);
    if a >= 0 {
      var q: int := a / m;
      assert a - GoRem(a, b) == q * m;
      MultipleMod(q, m);
    } else {
      var q: int := (-a) / m;
      assert a - GoRem(a, b) == (-q) * m;
      MultipleMod(-q, m);
    }
  }

  /** Divisibility is transitive. */
  lemma DividesTransitive(d: int, m: int, x: int)
    requires Divides(d, m) && Divides(m, x)
    ensures Divides(d, x)
  {
    var dd := Abs(d);
    var t: int, q: int := m / dd, x / Abs(m);
    var s: int := if m < 0 then -t else t;
    assert Abs(m) == s * dd;
    assert x == (q * s) * dd;
    MultipleMod(q * s, dd);
  }

  /** A divisor of `x - y` divides `x` exactly when it divides `y`. */
  lemma DividesDifference(d: int, x: int, y: int)
    requires Divides(d, x - y)
    ensures Divides(d, x) <==> Divides(d, y)
  {
    var dd := Abs(d);
    var k: int, qy: int := (x - y) / dd, y / dd;
    DivModUnique(x, k + qy, y % dd, dd);
  }

  /** `a, b` and `b, GoRem(a, b)` have the same common divisors: the step of
      Euclid's algorithm loses none and gains none. */
  lemma RemKeepsCommonDivisors(a: int, b: int, d: int)
    requires b != 0
    ensures Divides(d, a) && Divides(d, b) <==> Divides(d, b) && Divides(d, GoRem(a, b))
  {
    if Divides(d, b) {
      GoRemCongruent(a, b);
      DividesTransitive(d, b, a - GoRem(a, b));
      DividesDifference(d, a, GoRem(a, b));
    }
  }

  /** A non-zero number divides itself, and every non-zero number divides 0. */
  lemma DividesSelf(a: int)
    ensures a != 0 ==> Divides(a, a)
    ensures forall d :: d != 0 ==> Divides(d, 0)
  {
    if a != 0 {
      DivModUnique(a, if a < 0 then -1 else 1, 0, Abs(a));
    }
    forall d | d != 0 ensures Divides(d, 0) {
      DivModUnique(0, 0, 0, Abs(d));
    }
  }

  /** If `r` is a greatest common divisor of `b` and `GoRem(a, b)`, it is one
      of `a` and `b`. */
  lemma EuclidStep(a: int, b: int, r: int)
    requires b != 0 && r != 0
    requires Divides(r, b) && Divides(r, GoRem(a, b))
    requires forall d :: Divides(d, b) && Divides(d, GoRem(a, b)) ==> Divides(d, r)
    ensures Divides(r, a)
    ensures forall d :: Divides(d, a) && Divides(d, b) ==> Divides(d, r)
  {
    RemKeepsCommonDivisors(a, b, r);
    forall d | Divides(d, a) && Divides(d, b) ensures Divides(d, r) {
      RemKeepsCommonDivisors(a, b, d);
    }
  }

  /** Gcd: Euclid's algorithm with Go's remainder. For any integers the result
      is a common divisor that every common divisor divides (a greatest common
      divisor up to sign); it is 0 only for (0, 0), never negative for
      non-negative arguments, and `Gcd(a, 0) == a`. */
  function Gcd(a: int, b: int): (r: int)
    ensures b == 0 ==> r == a
    ensures a >= 0 && b >= 0 ==> r >= 0
    ensures r == 0 <==> a == 0 && b == 0
    ensures r != 0 ==> Divides(r, a) && Divides(r, b)
    ensures forall d :: Divides(d, a) && Divides(d, b) ==> Divides(d, r)
    decreases Abs(b)
  {
    if b == 0 then
      DividesSelf(a);
      a
    else
      var r := Gcd(b, GoRem(a, b));
      EuclidStep(a, b, r);
      r
  }

  // ---------------------------------------------------------------------------
  // BinPow

  /** `b` to the power `e`, in unbounded integers. */
  function Pow(b: int, e: nat): int {
    if e == 0 then 1 else b * Pow(b, e - 1)
  }

  /** Squaring the base halves the exponent. */
  lemma {:induction false} PowSquare(b: int, e: nat)
    ensures Pow(b * b, e) == Pow(b, 2 * e)
  {
    if e > 0 {
      PowSquare(b, e - 1);
      assert Pow(b, 2 * e) == b * (b * Pow(b, 2 * e - 2));
    }
  }

  /** Equal remainders stay equal after multiplying by the same factor. */
  lemma MulCongruent(x: int, y1: int, y2: int)
    requires y1 % U64_MOD == y2 % U64_MOD
    ensures (x * y1) % U64_MOD == (x * y2) % U64_MOD
  {
    MulModLeft(y1, x);
    MulModLeft(y2, x);
    assert x * y1 == y1 * x && x * y2 == y2 * x;
  }

  /** Reducing the base modulo 2^64 first does not change the power modulo 2^64. */
  lemma {:induction false} PowMod(b: int, e: nat)
    ensures Pow(b % U64_MOD, e) % U64_MOD == Pow(b, e) % U64_MOD
  {
    if e > 0 {
      PowMod(b, e - 1);
      MulCongruent(b % U64_MOD, Pow(b % U64_MOD, e - 1), Pow(b, e - 1));
      MulModLeft(b, Pow(b, e - 1));
    }
  }

  /** One turn of the square-and-multiply loop keeps
      `result * base^exponent` unchanged modulo 2^64. */
  lemma BinPowStep(result: int, b: int, e: nat)
    requires e > 0
    ensures var result' := if e % 2 == 1 then (result * b) % U64_MOD else result;
            (result' * Pow((b * b) % U64_MOD, e / 2)) % U64_MOD == (result * Pow(b, e)) % U64_MOD
  {
    var half := e / 2;
    PowSquare(b, half);
    PowMod(b * b, half);
    if e % 2 == 1 {
      var result' := (result * b) % U64_MOD;
      assert Pow(b, e) == b * Pow(b * b, half);
      MulCongruent(result', Pow((b * b) % U64_MOD, half), Pow(b * b, half));
      MulModLeft(result * b, Pow(b * b, half));
      assert (result * b) * Pow(b * b, half) == result * Pow(b, e);
    } else {
      assert Pow(b, e) == Pow(b * b, half);
      MulCongruent(result, Pow((b * b) % U64_MOD, half), Pow(b * b, half));
    }
  }

  /** BinPow: `base^exponent` modulo 2^64 by square-and-multiply; `BinPow(_, 0) == 1`. */
  method BinPow(base: U64, exponent: U64) returns (result: U64)
    ensures result == Pow(base, exponent) % U64_MOD
    ensures exponent == 0 ==> result == 1
  {
    result := 1;
    var b, e := base, exponent;
    while e > 0
      invariant (result * Pow(b, e)) % U64_MOD == Pow(base, exponent) % U64_MOD
    {
      BinPowStep(result, b, e);
      if e % 2 == 1 {
        result := (result * b) % U64_MOD;
      }
      b := (b * b) % U64_MOD;
      e := e / 2;
    }
  }

  // ---------------------------------------------------------------------------
  // CountOnes

  function Pow2(k: nat): nat {
    if k == 0 then 1 else 2 * Pow2(k - 1)
  }

  /** `n >> i`: `n` shifted right by `i` places. */
  function Shift(n: nat, i: nat): nat {
    if i == 0 then n else Shift(n / 2, i - 1)
  }

  /** Bit `i` of the binary expansion of `n` (0 or 1). */
  function Bit(n: nat, i: nat): nat {
    Shift(n, i) % 2
  }

  /** The number of 1 bits among positions `0 .. k - 1` of `n`. */
  function OnesBelow(n: nat, k: nat): nat {
    if k == 0 then 0 else OnesBelow(n, k - 1) + Bit(n, k - 1)
  }

  /** Counting from the lowest bit: bit 0, then the bits of `n / 2`. */
  lemma {:induction false} OnesBelowHalve(n: nat, k: nat)
    requires k >= 1
    ensures OnesBelow(n, k) == n % 2 + OnesBelow(n / 2, k - 1)
  {
    if k > 1 {
      OnesBelowHalve(n, k - 1);
    }
  }

  /** Zero has no 1 bits. */
  lemma {:induction false} OnesBelowZero(k: nat)
    ensures OnesBelow(0, k) == 0
  {
    if k > 0 {
      OnesBelowZero(k - 1);
      OnesBelowHalve(0, k);
    }
  }

  /** At most one 1 bit per position. */
  lemma {:induction false} OnesBelowBound(n: nat, k: nat)
    ensures OnesBelow(n, k) <= k
  {
    if k > 0 {
      OnesBelowBound(n, k - 1);
    }
  }

  /** A Go `uint64` holds exactly the values below 2^64. */
  lemma U64ModIsPow2()
    ensures Pow2(64) == U64_MOD
  {
    assert Pow2(8) == 0x100;
    assert Pow2(16) == 0x1_0000;
    assert Pow2(24) == 0x100_0000;
    assert Pow2(32) == 0x1_0000_0000;
    assert Pow2(40) == 0x100_0000_0000;
    assert Pow2(48) == 0x1_0000_0000_0000;
    assert Pow2(56) == 0x100_0000_0000_0000;
  }

  /** CountOnes: adds the low bit and shifts right until nothing is left; the
      result is the number of 1 bits of the (at most 64-bit) unsigned value. */
  method CountOnes(n: U64) returns (ones: nat)
    ensures ones == OnesBelow(n, 64)
    ensures ones <= 64
  {
    ones := 0;
    var m: nat := n;
    ghost var k: nat := 64;
    U64ModIsPow2();
    while 0 < m
      invariant m < Pow2(k)
      invariant ones + OnesBelow(m, k) == OnesBelow(n, 64)
    {
      OnesBelowHalve(m, k);
      ones := ones + m % 2;
      m := m / 2;
      k := k - 1;
    }
    OnesBelowZero(k);
    OnesBelowBound(n, 64);
  }
}
