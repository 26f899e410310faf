/**
 * The Fibonacci facade: five ways of computing F(x) mod m, built on the
 * matrix engine.
 */
module Fibonacci {
  import opened ModArith
  import opened Matrix

  /** The Fibonacci sequence: F(0) = 0, F(1) = 1, F(n) = F(n-2) + F(n-1). */
  ghost function Fib(n: nat): nat
  {
    if n < 2 then n else Fib(n - 2) + Fib(n - 1)
  }

  /**
   * The sum of two values at most `max(m - 1, 1)` fits in a `u64`. These are the
   * only sums `FiboRec` and `FiboSeq` form: both operands are reduced, or are
   * one of the unreduced starting values 0 and 1.
   */
  predicate SumFits(m: nat)
  {
    0 < m && 2 * (m - 1) < U64_LIMIT
  }

  lemma SafeModulusSumFits(m: nat)
    requires SafeModulus(m)
    ensures SumFits(m)
  {
    if m > 1 {
      assert (m - 1) <= (m - 1) * (m - 1) by {
        PositiveMultiple(m - 1, m - 1);
      }
    }
  }

  /** `fibo_rec`: naive recursion. The base cases are returned unreduced. */
  function FiboRec(x: nat, m: nat): (r: nat)
    requires x < 2 || SumFits(m)
    ensures x < 2 ==> r == Fib(x)
    ensures x >= 2 ==> r == Fib(x) % m
    decreases x
  {
    if x == 0 then 0
    else if x == 1 then 1
    else
      var p, q := FiboRec(x - 2, m), FiboRec(x - 1, m);
      ModReduced(Fib(x - 2), p, m);
      ModReduced(Fib(x - 1), q, m);
      SumCongruent(p, q, Fib(x - 2), Fib(x - 1), m);
      assert p + q < U64_LIMIT;
      (p + q) % m
  }

  /** `v` is `n` itself below 2 and `n % m` from 2 on; either way `v` is congruent to `n`. */
  lemma ModReduced(n: nat, v: nat, m: nat)
    requires 0 < m && (v == n || v == n % m)
    ensures v % m == n % m && v <= Max(m - 1, n)
  {
    ModMod(n, m);
  }

  /** `fibo_seq`: the pair `(a, b)` walks along the sequence `x` times. */
  method FiboSeq(x: nat, m: nat) returns (r: nat)
    requires x == 0 || SumFits(m)
    ensures x < 2 ==> r == Fib(x)
    ensures x >= 2 ==> r == Fib(x) % m
    ensures r == FiboRec(x, m)
  {
    var a, b := 0, 1;
    for i := 0 to x
      invariant a == if i < 2 then Fib(i) else Fib(i) % m
      invariant b == if i == 0 then Fib(1) else Fib(i + 1) % m
    {
      ModReduced(Fib(i), a, m);
      ModReduced(Fib(i + 1), b, m);
      SumCongruent(a, b, Fib(i), Fib(i + 1), m);
      assert a + b < U64_LIMIT;
      var t := (a + b) % m;
      a := b;
      b := t;
    }
    r := a;
  }

  /** `fibo_mat`: `x` multiplications by `M`, starting from `I`. */
  method FiboMat(x: nat, m: nat) returns (r: nat)
    requires x == 0 || SafeModulus(m)
    ensures x == 0 ==> r == 0
    ensures x > 0 ==> r == Fib(x) % m
    ensures r == FiboMatReq(x, m)
  {
    var t := I;
    for i := 0 to x
      invariant i == 0 ==> t == I
      invariant i > 0 ==> t == Reduce(Power(M, i), m)
    {
      TimesMStep(t, i, m);
      t := t.Times(M, m);
    }
    FibOfPowerM(x);
    r := t.b;
  }

  /** One iteration of `FiboMat` takes the reduced `M^i` to the reduced `M^(i+1)`. */
  lemma TimesMStep(t: Mat, i: nat, m: nat)
    requires SafeModulus(m) && (i == 0 ==> t == I) && (i > 0 ==> t == Reduce(Power(M, i), m))
    ensures NoOverflow(t, M)
    ensures Reduce(Product(t, M), m) == Reduce(Power(M, i + 1), m)
  {
    SafeModulusFitsM(m);
    WithinBound(t, M, m);
    WithinBound(M, M, m);
    NoOverflowWithin(t, M, M, m);
    PowerSucc(M, i);
    if i > 0 {
      ReduceCongruent(Power(M, i), m);
      ProductCongruent(t, Power(M, i), M, M, m);
    } else {
      ProductIdentity(M);
    }
  }

  /**
   * `fibo_mat_req`: the top-right entry of `M^x` computed by `ExpReq`, which
   * is 0 at `x == 0` and F(x) mod m otherwise.
   */
  function FiboMatReq(x: nat, m: nat): (r: nat)
    requires x == 0 || SafeModulus(m)
    ensures x == 0 ==> r == 0
    ensures x > 0 ==> r == Fib(x) % m
  {
    if x > 0 then
      SafeModulusFitsM(m);
      ExpReqIsPower(M, x, m);
      FibOfPowerM(x);
      ExpReq(M, x, m).b
    else
      ExpReq(M, x, m).b
  }

  /** `fibo_mat_loop`: the top-right entry of `M^x` computed by `Mat.Pow`. */
  method FiboMatLoop(x: nat, m: nat) returns (r: nat)
    requires x == 0 || SafeModulus(m)
    ensures x == 0 ==> r == 0
    ensures x > 0 ==> r == Fib(x) % m
    ensures r == FiboMatReq(x, m)
  {
    if x > 0 {
      SafeModulusFitsM(m);
    }
    var p := M.Pow(x, m);
    if x > 0 {
      ExpReqIsPower(M, x, m);
    }
    assert p == ExpReq(M, x, m);
    r := p.b;
    assert r == FiboMatReq(x, m);
  }

  // ----- correctness -----

  /** `M^n == ((F(n-1), F(n)), (F(n), F(n+1)))` for `n >= 1`; the top-right entry is always `F(n)`. */
  lemma {:induction false} PowerOfM(n: nat)
    ensures Power(M, n + 1) == Mat(Fib(n), Fib(n + 1), Fib(n + 1), Fib(n + 2))
  {
    if n == 0 {
      PowerOfMOne();
    } else {
      var k := n - 1;
      PowerOfM(k);
      PowerOfMStep(k);
      assert k + 2 == n + 1 && k + 3 == n + 2;
    }
  }

  lemma PowerOfMOne()
    ensures Power(M, 1) == Mat(Fib(0), Fib(1), Fib(1), Fib(2))
  {
    PowerSucc(M, 0);
    ProductIdentity(M);
  }

  lemma PowerOfMStep(k: nat)
    requires Power(M, k + 1) == Mat(Fib(k), Fib(k + 1), Fib(k + 1), Fib(k + 2))
    ensures Power(M, k + 2) == Mat(Fib(k + 1), Fib(k + 2), Fib(k + 2), Fib(k + 3))
  {
    var p := Power(M, k + 1);
    PowerSucc(M, k + 1);
    ConsecutiveTimesM(k, p);
  }

  /** The top-right entry of `M^n` is `F(n)`. */
  lemma FibOfPowerM(n: nat)
    ensures Power(M, n).b == Fib(n)
  {
    if n > 0 {
      PowerOfM(n - 1);
    }
  }

  /** Multiplying consecutive Fibonacci numbers by `M` moves one step along the sequence. */
  lemma ConsecutiveTimesM(k: nat, p: Mat)
    requires p == Mat(Fib(k), Fib(k + 1), Fib(k + 1), Fib(k + 2))
    ensures Product(p, M) == Mat(Fib(k + 1), Fib(k + 2), Fib(k + 2), Fib(k + 3))
  {
    ProductByM(p);
  }

  /** Multiplying by `M` on the right shifts the columns: `(a, b) -> (b, a + b)`. */
  lemma ProductByM(p: Mat)
    ensures Product(p, M) == Mat(p.b, p.a + p.b, p.d, p.c + p.d)
  {
  }

  /** For `m > 1` the recursive and the matrix strategies agree, and compute F(x) mod m. */
  lemma StrategiesAgree(x: nat, m: nat)
    requires 1 < m && SafeModulus(m)
    ensures FiboRec(x, m) == FiboMatReq(x, m) == Fib(x) % m
  {
    SafeModulusSumFits(m);
    if x == 1 {
      ModSmall(1, m);
    }
  }

  /** At `m == 1` they do not: the unreduced base case of `FiboRec` returns 1. */
  lemma StrategiesDisagreeAtModulusOne()
    ensures FiboRec(1, 1) == 1 && FiboMatReq(1, 1) == 0
  {
  }

  // ----- the source's unit tests -----

  /** The test `fibo_rec_n_10`. */
  lemma FiboRecExample()
    ensures FiboRec(10, 1000) == 55
  {
    assert Fib(10) == 55;
  }
}
