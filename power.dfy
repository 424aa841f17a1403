/** Powers of two: the solver's masks and the engine's termination measure. */
module Power {

  function Pow2(n: nat): (p: nat)
    ensures p >= 1
    ensures n >= 1 ==> p >= 2
  {
    if n == 0 then 1 else 2 * Pow2(n - 1)
  }

  lemma {:induction false} Pow2Add(a: nat, b: nat)
    ensures Pow2(a + b) == Pow2(a) * Pow2(b)
  {
    if a > 0 {
      Pow2Add(a - 1, b);
      assert Pow2(a + b) == 2 * Pow2(a - 1 + b);
    }
  }

  lemma {:induction false} Pow2Monotone(a: nat, b: nat)
    requires a <= b
    ensures Pow2(a) <= Pow2(b)
  {
    if a < b {
      Pow2Monotone(a, b - 1);
    }
  }

  /** Two powers of two that are both at least 2 sum to at most their product. */
  lemma SumBelowProduct(x: nat, y: nat)
    requires x >= 2 && y >= 2
    ensures x + y <= x * y
  {
    assert (x - 1) * (y - 1) >= 1;
  }

  lemma MulMonotone(x: nat, y: nat, z: nat)
    requires y <= z
    ensures x * y <= x * z
  {
    assert x * z - x * y == x * (z - y);
  }

  /** The factoring step of the distribution measure. */
  lemma Factor(p: nat, q: nat, r: nat)
    ensures 2 * (p * q) + 2 * q * r == 2 * q * (p + r)
  {
  }

  /** If `s == 2 * x * y`, `y <= z` and `p == z * x`, then `s <= 2 * p`. */
  lemma ScaledBound(x: nat, y: nat, z: nat, s: nat, p: nat)
    requires s == 2 * x * y && y <= z && p == z * x
    ensures s <= 2 * p
  {
    MulMonotone(x, y, z);
  }

  /** A quantity within `Pow2(w)`, for `1 <= w <= total`, stays below
      `2 * Pow2(total)` even after adding one. */
  lemma Pow2Below(s: nat, w: nat, total: nat)
    requires s <= Pow2(w) && 1 <= w <= total
    ensures 1 + s < 2 * Pow2(total)
  {
    Pow2Monotone(w, total);
  }

  /** The arithmetic of the distribution measure: `s == 2 * 2^t * b` with
      `b <= 2^u` stays below `2 * 2^total` once `1 + u + t <= total`. */
  lemma SpreadArith(s: nat, b: nat, u: nat, t: nat, total: nat)
    requires s == 2 * Pow2(t) * b && b <= Pow2(u) && 1 + u + t <= total
    ensures 1 + s < 2 * Pow2(total)
  {
    Pow2Add(u, t);
    ScaledBound(Pow2(t), b, Pow2(u), s, Pow2(u + t));
    assert Pow2(1 + u + t) == 2 * Pow2(u + t);
    Pow2Below(s, 1 + u + t, total);
  }
}
