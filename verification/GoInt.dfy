/** Go's 64-bit signed integers: values are mathematical integers in range, and
  * every operation that can leave the range wraps modulo 2^64. */
module GoInt {
  const MIN64: int := -0x8000_0000_0000_0000
  const MAX64: int := 0x7FFF_FFFF_FFFF_FFFF
  const TWO64: int := 0x1_0000_0000_0000_0000

  type int64 = x: int | MIN64 <= x <= MAX64

  predicate Fits64(x: int) {
    MIN64 <= x <= MAX64
  }

  /** The int64 that Go computes when the exact result is `x`. */
  function Wrap64(x: int): (r: int64)
    ensures r == x <==> Fits64(x)
  {
    (x - MIN64) % TWO64 + MIN64
  }

  /** Go's unary minus: the least value is its own negation. */
  function Negate64(x: int64): (r: int64)
    ensures x != MIN64 ==> r == 0 - x
    ensures x == MIN64 ==> r == MIN64
  {
    Wrap64(0 - x)
  }

  lemma WrapIsUnique(x: int, r: int64, k: int)
    requires x == r + k * TWO64
    ensures Wrap64(x) == r
  {
  }

  lemma WrapIsPeriodic(x: int)
    ensures Wrap64(x + TWO64) == Wrap64(x)
  {
  }

  /** Wrapping early or late makes no difference to a sum. */
  lemma WrapAdd(x: int, y: int)
    ensures Wrap64(Wrap64(x) + y) == Wrap64(x + y)
  {
  }

  lemma WrapAddBoth(x: int, y: int)
    ensures Wrap64(Wrap64(x) + Wrap64(y)) == Wrap64(x + y)
  {
    WrapAdd(x, Wrap64(y));
    WrapAdd(y, x);
  }

  /** The wrapped value is the one in the range of 64-bit integers that differs from the exact
    * one by a multiple of 2^64. */
  lemma WrapOnLiterals(x: int, r: int)
    ensures r == Wrap64(x)
       <==> -9_223_372_036_854_775_808 <= r <= 9_223_372_036_854_775_807 && (x - r) % 18_446_744_073_709_551_616 == 0
  {
  }
}
