/** Go's `uint64` arithmetic wraps around modulo 2^64. The model keeps values
    as mathematical integers and writes every wrap-around as `% U64_MOD`. */
module Uint64 {

  const U64_MOD: int := 0x1_0000_0000_0000_0000

  /** The values a Go `uint64` can hold. */
  type U64 = x: int | 0 <= x < U64_MOD

  /** Adding a multiple of the modulus does not change the remainder. */
  lemma AddMultipleMod(k: int, y: int)
    ensures (k * U64_MOD + y) % U64_MOD == y % U64_MOD
  {
    var q, r := y / U64_MOD, y % U64_MOD;
    assert y == q * U64_MOD + r;
    assert k * U64_MOD + y == (k + q) * U64_MOD + r;
  }

  /** Reducing an addend first gives the same sum modulo 2^64. */
  lemma AddMod(a: int, b: int)
    ensures (a % U64_MOD + b % U64_MOD) % U64_MOD == (a + b) % U64_MOD
  {
    AddMultipleMod(a / U64_MOD + b / U64_MOD, a % U64_MOD + b % U64_MOD);
  }

  /** Reducing a factor first gives the same product modulo 2^64. */
  lemma MulModLeft(a: int, b: int)
    ensures ((a % U64_MOD) * b) % U64_MOD == (a * b) % U64_MOD
  {
    var q, r := a / U64_MOD, a % U64_MOD;
    assert a * b == (q * b) * U64_MOD + r * b by {
      assert a == q * U64_MOD + r;
    }
    AddMultipleMod(q * b, r * b);
  }

  /** Go's `(g + f) - f` on uint64 gives back `g`, overflow or not. */
  lemma WrapAddSub(g: U64, f: U64)
    ensures ((g + f) % U64_MOD - f) % U64_MOD == g
  {
    if g + f >= U64_MOD {
      assert (g + f) % U64_MOD == g + f - U64_MOD;
    }
  }
}
