/** Rust's fixed-width integers as ranges of the mathematical integers, and the facts about
    products and quotients the proofs lean on. */
module Arithmetic {
  predicate IsI64(x: int) {
    -0x8000_0000_0000_0000 <= x <= 0x7fff_ffff_ffff_ffff
  }

  predicate IsU64(x: int) {
    0 <= x <= 0xffff_ffff_ffff_ffff
  }

  predicate IsU32(x: int) {
    0 <= x <= 0xffff_ffff
  }

  /** The saturating result of 64-bit signed arithmetic. */
  function ClampI64(x: int): (r: int)
    ensures IsI64(r) && (IsI64(x) ==> r == x)
  {
    if x < -0x8000_0000_0000_0000 then -0x8000_0000_0000_0000
    else if x > 0x7fff_ffff_ffff_ffff then 0x7fff_ffff_ffff_ffff
    else x
  }

  /** The saturating result of 128-bit signed arithmetic. */
  function ClampI128(x: int): int {
    if x < -0x8000_0000_0000_0000_0000_0000_0000_0000 then -0x8000_0000_0000_0000_0000_0000_0000_0000
    else if x > 0x7fff_ffff_ffff_ffff_ffff_ffff_ffff_ffff then 0x7fff_ffff_ffff_ffff_ffff_ffff_ffff_ffff
    else x
  }

  /** Rust's `/` on signed integers: truncation toward zero. */
  function TruncDiv(a: int, b: int): int
    requires b > 0
  {
    if a >= 0 then a / b else -((-a) / b)
  }

  function Min(a: int, b: int): int {
    if a <= b then a else b
  }

  function Max(a: int, b: int): int {
    if a >= b then a else b
  }

  lemma Distribute(a: int, b: int, c: int)
    ensures a * (b + c) == a * b + a * c
  {
  }

  lemma ProductMonotone(a: int, b: int, c: int, d: int)
    requires 0 <= a <= b && 0 <= c <= d
    ensures 0 <= a * c <= b * d
  {
    assert a * c <= a * d;
    assert (b - a) * d >= 0;
  }

  lemma ProductOrder(n: nat, a: int, b: int)
    requires n > 0
    ensures a <= b ==> n * a <= n * b
    ensures a < b ==> n * a < n * b
  {
    Distribute(n, a, b - a);
    if a < b {
      ProductMonotone(n, n, 1, b - a);
    }
  }

  lemma DivModUnique(a: nat, d: nat, q: nat, r: nat)
    requires d > 0 && r < d && a == d * q + r
    ensures a / d == q && a % d == r
  {
    Distribute(d, q, 1);
    Distribute(d, a / d, 1);
    ProductOrder(d, q + 1, a / d);
    ProductOrder(d, a / d + 1, q);
  }

  lemma ModuloOfMultiple(k: nat, d: nat, f: nat)
    requires d > 0
    ensures k * d + f >= 0
    ensures (k * d + f) % d == f % d && (k * d + f) / d == k + f / d
  {
    var q, r := f / d, f % d;
    Distribute(d, k, q);
    DivModUnique(k * d + f, d, k + q, r);
  }

  lemma DivBounds(a: int, b: int, k: int)
    requires 0 <= a < b * k && b > 0
    ensures 0 <= a / b < k
  {
    ProductOrder(b, k, a / b);
  }

  function Pow2(k: nat): (p: nat)
    ensures p > 0
  {
    if k == 0 then 1 else 2 * Pow2(k - 1)
  }

  lemma {:induction false} Pow2Monotone(a: nat, b: nat)
    requires a <= b
    ensures Pow2(a) <= Pow2(b)
    decreases b
  {
    if a < b {
      Pow2Monotone(a, b - 1);
    }
  }

  lemma {:induction false} Pow2Sum(a: nat, b: nat)
    ensures Pow2(a + b) == Pow2(a) * Pow2(b)
  {
    if a == 0 {
    } else {
      Pow2Sum(a - 1, b);
    }
  }
}
