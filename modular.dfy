/** Facts about Euclidean remainder that the matrix and Fibonacci proofs rely on. */
module ModArith {

  /** A quotient and a remainder in range are the ones `/` and `%` give. */
  lemma DivModUnique(a: int, m: int, q: int, r: int)
    requires 0 < m && a == q * m + r && 0 <= r < m
    ensures q == a / m && r == a % m
  {
    var q0, r0 := a / m, a % m;
    assert a == q0 * m + r0;
    if q != q0 {
      var d := if q > q0 then q - q0 else q0 - q;
      assert d * m == if q > q0 then q * m - q0 * m else q0 * m - q * m;
      PositiveMultiple(d, m);
      assert false;
    }
  }

  lemma PositiveMultiple(d: int, m: int)
    requires 1 <= d && 0 < m
    ensures d * m >= m
  {
    assert d * m == (d - 1) * m + m;
  }

  /** Adding a multiple of `m` does not change the remainder. */
  lemma ModMultiplePlus(k: int, r: int, m: int)
    requires 0 < m
    ensures (k * m + r) % m == r % m
  {
    assert r == (r / m) * m + r % m;
    assert k * m + r == (k + r / m) * m + r % m;
    DivModUnique(k * m + r, m, k + r / m, r % m);
  }

  /** Reducing twice is reducing once. */
  lemma ModMod(a: int, m: int)
    requires 0 < m
    ensures (a % m) % m == a % m
  {
    DivModUnique(a % m, m, 0, a % m);
  }

  /** A value already below the modulus is its own remainder. */
  lemma ModSmall(a: int, m: int)
    requires 0 < m && 0 <= a < m
    ensures a % m == a
  {
    DivModUnique(a, m, 0, a);
  }

  lemma ModAdd(a: int, b: int, m: int)
    requires 0 < m
    ensures (a + b) % m == (a % m + b % m) % m
  {
    assert a == (a / m) * m + a % m;
    assert b == (b / m) * m + b % m;
    assert a + b == (a / m + b / m) * m + (a % m + b % m);
    ModMultiplePlus(a / m + b / m, a % m + b % m, m);
  }

  lemma ModMul(a: int, b: int, m: int)
    requires 0 < m
    ensures (a * b) % m == ((a % m) * (b % m)) % m
  {
    var qa, ra, qb, rb := a / m, a % m, b / m, b % m;
    assert a == qa * m + ra;
    assert b == qb * m + rb;
    assert a * b == (qa * qb * m + qa * rb + ra * qb) * m + ra * rb by {
      assert a * b == (qa * m + ra) * (qb * m + rb);
    }
    ModMultiplePlus(qa * qb * m + qa * rb + ra * qb, ra * rb, m);
  }

  /** Sums of congruent summands are congruent. */
  lemma SumCongruent(p: int, q: int, a: int, b: int, m: int)
    requires 0 < m && p % m == a % m && q % m == b % m
    ensures (p + q) % m == (a + b) % m
  {
    ModAdd(p, q, m);
    ModAdd(a, b, m);
  }

  /** The entry `p*q + r*s` of a 2x2 product only depends on its factors modulo `m`. */
  lemma DotMod(p: int, q: int, r: int, s: int, m: int)
    requires 0 < m
    ensures (p * q + r * s) % m == ((p % m) * (q % m) + (r % m) * (s % m)) % m
  {
    ModAdd(p * q, r * s, m);
    ModMul(p, q, m);
    ModMul(r, s, m);
    ModAdd((p % m) * (q % m), (r % m) * (s % m), m);
  }

  /** A product of two values bounded by `k` is bounded by `k * k`. */
  lemma MulBounded(p: nat, q: nat, k: nat)
    requires p <= k && q <= k
    ensures p * q <= k * k
  {
    assert p * q <= p * k;
    assert p * k <= k * k;
  }
}
