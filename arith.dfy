/** Facts about floor division and modulus by a positive divisor that the
    solver does not find by itself. */
module Arith {

  lemma {:induction false} MulAtLeast(k: int, d: int)
    requires k > 0 && d >= 1
    ensures k * d >= k
    decreases d
  {
    if d > 1 {
      MulAtLeast(k, d - 1);
      assert k * d == k * (d - 1) + k;
    }
  }

  /** Multiplying both sides of `x < p` by a positive factor keeps the order. */
  lemma MulStrict(x: int, p: int, q: int)
    requires 0 <= x < p && q >= 1
    ensures 0 <= x * q < p * q
  {
    MulAtLeast(q, p - x);
    assert p * q - x * q == q * (p - x);
    if x > 0 {
      MulAtLeast(q, x);
      assert x * q == q * x;
    }
  }

  /** Quotient and remainder are determined by `a == k * q + r` with `0 <= r < k`. */
  lemma DivUnique(a: int, k: int, q: int, r: int)
    requires k > 0 && a == k * q + r && 0 <= r < k
    ensures a / k == q && a % k == r
  {
    var q0, r0 := a / k, a % k;
    if q > q0 {
      assert k * q == k * q0 + k * (q - q0);
      MulAtLeast(k, q - q0);
    } else if q < q0 {
      assert k * q0 == k * q + k * (q0 - q);
      MulAtLeast(k, q0 - q);
    }
  }

  /** The quotient grows by one exactly when `a + 1` is a multiple of `k`. */
  lemma DivStep(a: int, k: int)
    requires k > 0
    ensures (a + 1) / k == a / k + (if (a + 1) % k == 0 then 1 else 0)
  {
    var q, r := a / k, a % k;
    if r == k - 1 {
      DivUnique(a + 1, k, q + 1, 0);
    } else {
      DivUnique(a + 1, k, q, r + 1);
    }
  }

  /** Adding a multiple of `k` shifts the quotient and keeps the remainder. */
  lemma DivShift(a: int, k: int, q: int)
    requires k > 0
    ensures (a + k * q) / k == a / k + q
    ensures (a + k * q) % k == a % k
  {
    assert a + k * q == k * (a / k + q) + a % k;
    DivUnique(a + k * q, k, a / k + q, a % k);
  }

  /** Go's integer `/`: the quotient truncated toward zero. */
  function Quo(a: int, b: int): int
    requires b > 0
  {
    if a >= 0 then a / b else -((-a) / b)
  }

  /** Dividing an exact multiple gives the multiplier back, whatever its sign. */
  lemma QuoExact(q: int, b: int)
    requires b > 0
    ensures Quo(q * b, b) == q
  {
    if q >= 0 {
      assert q * b >= 0 by {
        if q > 0 { MulAtLeast(b, q); }
      }
      DivUnique(q * b, b, q, 0);
    } else {
      assert -(q * b) == (-q) * b;
      MulAtLeast(b, -q);
      DivUnique(-(q * b), b, -q, 0);
    }
  }
}
