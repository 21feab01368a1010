/** Two's-complement integers as unbounded ints: `a % 2` is the lowest bit and `a / 2` the arithmetic
    shift right, for negative `a` too. */
module Bits {

  function Pow2(n: nat): (p: nat)
    ensures p > 0
  {
    if n == 0 then 1 else 2 * Pow2(n - 1)
  }

  /** `a & m` for a mask without sign bit. */
  function And(a: int, m: nat): (r: nat)
    decreases m
  {
    if m == 0 then 0 else 2 * And(a / 2, m / 2) + (a % 2) * (m % 2)
  }

  /** `a & ~m` for a mask without sign bit. */
  function AndNot(a: int, m: nat): int
    decreases m
  {
    if m == 0 then a else 2 * AndNot(a / 2, m / 2) + (a % 2) * (1 - m % 2)
  }

  /** `a >> n` */
  function Shr(a: int, n: nat): int {
    a / Pow2(n)
  }

  lemma {:induction false} DivMod(a: int, p: nat)
    requires p > 0
    ensures a / (2 * p) == a / 2 / p && a % (2 * p) == 2 * (a / 2 % p) + a % 2
  {
    var q, r := a / 2 / p, a / 2 % p;
    assert a == 2 * (p * q + r) + a % 2;
    assert a == (2 * p) * q + (2 * r + a % 2);
    DivUnique(a, 2 * p, q, 2 * r + a % 2);
  }

  lemma DivUnique(a: int, d: nat, q: int, r: int)
    requires d > 0 && a == d * q + r && 0 <= r < d
    ensures a / d == q && a % d == r
  {
    var q' := a / d;
    assert d * q' <= a < d * q' + d;
    if q < q' {
      MulMonotone(d, q + 1, q');
    } else {
      MulMonotone(d, q', q);
      if q' < q {
        MulMonotone(d, q' + 1, q);
      }
    }
  }

  lemma MulMonotone(d: nat, x: int, y: int)
    requires x <= y
    ensures d * x <= d * y
  {
    assert d * (y - x) >= 0;
  }

  /** Masking with 2^n - 1 is the remainder, clearing these bits rounds down, for every sign. */
  lemma {:induction false} MaskIsMod(a: int, n: nat)
    ensures And(a, Pow2(n) - 1) == a % Pow2(n)
    ensures AndNot(a, Pow2(n) - 1) == a - a % Pow2(n)
    decreases n
  {
    hide And, AndNot;
    if n > 0 {
      MaskIsMod(a / 2, n - 1);
      DivMod(a, Pow2(n - 1));
      MaskStep(a, Pow2(n - 1));
    } else {
      NoMask(a);
    }
  }

  lemma MaskStep(a: int, p: nat)
    requires p > 0
    ensures And(a, 2 * p - 1) == 2 * And(a / 2, p - 1) + a % 2
    ensures AndNot(a, 2 * p - 1) == 2 * AndNot(a / 2, p - 1)
  {
    assert (2 * p - 1) / 2 == p - 1 && (2 * p - 1) % 2 == 1;
  }

  lemma NoMask(a: int)
    ensures And(a, 0) == 0 && AndNot(a, 0) == a
  {
  }

  lemma {:induction false} Pow2Add(m: nat, n: nat)
    ensures Pow2(m + n) == Pow2(m) * Pow2(n)
  {
    if m > 0 {
      Pow2Add(m - 1, n);
      assert Pow2(m + n) == 2 * (Pow2(m - 1) * Pow2(n)) == (2 * Pow2(m - 1)) * Pow2(n);
    }
  }
}
