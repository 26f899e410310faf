/**
 * The 2x2 matrix engine: modular matrix product and two strategies for
 * raising a matrix to a power by repeated squaring.
 *
 * The source stores `u64` entries; here entries are `nat` and every product
 * the source computes is kept below 2^64 by the preconditions.
 */
module Matrix {
  import opened ModArith

  /** One more than the largest `u64`. */
  const U64_LIMIT: nat := 0x1_0000_0000_0000_0000

  /** The matrix `Mat((a, b), (c, d))`, that is
    *   | a b |
    *   | c d |
    */
  datatype Mat = Mat(a: nat, b: nat, c: nat, d: nat)
  {
    /** `Mat::mul`, the method form of the free `Mul`. */
    function Times(other: Mat, m: nat): (r: Mat)
      requires 0 < m && NoOverflow(this, other)
      ensures Reduced(r, m) && r == Reduce(Product(this, other), m)
    {
      MulIsReducedProduct(this, other, m);
      Mul(this, other, m)
    }

    /** `Mat::pow`, which runs the iterative strategy. */
    method Pow(n: nat, m: nat) returns (r: Mat)
      requires n == 0 || Fits(this, m)
      ensures n == 0 ==> r == I
      ensures n > 0 ==> r == Reduce(Power(this, n), m)
    {
      r := ExpLoop(this, n, m);
    }
  }

  /** The zero matrix (declared by the source, never used). */
  const O := Mat(0, 0, 0, 0)
  /** The identity matrix. */
  const I := Mat(1, 0, 0, 1)
  /** The Fibonacci Q-matrix. */
  const M := Mat(0, 1, 1, 1)

  // ----- mathematical reference: unbounded matrices over the naturals -----

  /** The ordinary 2x2 matrix product, with no reduction. */
  ghost function Product(x: Mat, y: Mat): Mat
  {
    Mat(x.a * y.a + x.b * y.c, x.a * y.b + x.b * y.d,
        x.c * y.a + x.d * y.c, x.c * y.b + x.d * y.d)
  }

  /** The ordinary power `x^n`, with `x^0` the identity. */
  ghost function Power(x: Mat, n: nat): Mat
  {
    if n == 0 then I else Product(Power(x, n - 1), x)
  }

  /** Every entry replaced by its remainder modulo `m`. */
  ghost function Reduce(x: Mat, m: nat): Mat
    requires 0 < m
  {
    Mat(x.a % m, x.b % m, x.c % m, x.d % m)
  }

  /** Every entry lies in `[0, m)`. */
  ghost predicate Reduced(x: Mat, m: nat)
  {
    x.a < m && x.b < m && x.c < m && x.d < m
  }

  /** Entrywise congruence modulo `m`. */
  ghost predicate Congruent(x: Mat, y: Mat, m: nat)
    requires 0 < m
  {
    Reduce(x, m) == Reduce(y, m)
  }

  // ----- u64 overflow -----

  /** Every entry is a `u64`. */
  predicate IsU64(x: Mat)
  {
    x.a < U64_LIMIT && x.b < U64_LIMIT && x.c < U64_LIMIT && x.d < U64_LIMIT
  }

  /** `u64` inputs whose four sums of products in `Mul` stay below 2^64. */
  predicate NoOverflow(x: Mat, y: Mat)
  {
    && IsU64(x) && IsU64(y)
    && x.a * y.a + x.b * y.c < U64_LIMIT && x.a * y.b + x.b * y.d < U64_LIMIT
    && x.c * y.a + x.d * y.c < U64_LIMIT && x.c * y.b + x.d * y.d < U64_LIMIT
  }

  predicate AtMost(x: Mat, k: int)
  {
    x.a <= k && x.b <= k && x.c <= k && x.d <= k
  }

  function Max(p: int, q: int): int { if p < q then q else p }

  /**
   * An upper bound on every entry that the power strategies ever multiply:
   * the entries of the base, `m - 1` for reduced matrices, and 1 for `I`.
   */
  function Bound(x: Mat, m: nat): nat
  {
    Max(Max(Max(x.a, x.b), Max(x.c, x.d)), Max(m - 1, 1))
  }

  /** `x` can be raised to any positive power modulo `m` without a `u64` overflow. */
  predicate Fits(x: Mat, m: nat)
  {
    0 < m && 2 * Bound(x, m) * Bound(x, m) < U64_LIMIT
  }

  /** A modulus for which the powers of `I` and `M` never overflow. */
  predicate SafeModulus(m: nat)
  {
    0 < m && 2 * (m - 1) * (m - 1) < U64_LIMIT
  }

  lemma SafeModulusFitsM(m: nat)
    requires SafeModulus(m)
    ensures Fits(M, m) && Fits(I, m)
  {
  }

  /** Two matrices bounded by `Bound(x, m)` multiply without overflow. */
  lemma NoOverflowWithin(y: Mat, z: Mat, x: Mat, m: nat)
    requires Fits(x, m) && AtMost(y, Bound(x, m)) && AtMost(z, Bound(x, m))
    ensures NoOverflow(y, z)
  {
    var k := Bound(x, m);
    DotBounded(y.a, z.a, y.b, z.c, k);
    DotBounded(y.a, z.b, y.b, z.d, k);
    DotBounded(y.c, z.a, y.d, z.c, k);
    DotBounded(y.c, z.b, y.d, z.d, k);
  }

  lemma DotBounded(p: nat, q: nat, r: nat, s: nat, k: nat)
    requires p <= k && q <= k && r <= k && s <= k && 2 * k * k < U64_LIMIT
    ensures p * q + r * s < U64_LIMIT
  {
    MulBounded(p, q, k);
    MulBounded(r, s, k);
  }

  /** `I`, `x` itself and any reduced matrix are bounded by `Bound(x, m)`. */
  lemma WithinBound(y: Mat, x: Mat, m: nat)
    requires 0 < m && (y == I || y == x || Reduced(y, m))
    ensures AtMost(y, Bound(x, m))
  {
  }

  // ----- the engine -----

  /** The free `mul`: the product of `x` and `y` with every entry reduced modulo `m`. */
  function Mul(x: Mat, y: Mat, m: nat): (r: Mat)
    requires 0 < m && NoOverflow(x, y)
    ensures Reduced(r, m)
  {
    Mat((x.a * y.a + x.b * y.c) % m, (x.a * y.b + x.b * y.d) % m,
        (x.c * y.a + x.d * y.c) % m, (x.c * y.b + x.d * y.d) % m)
  }

  /** Each entry of `Mul(x, y, m)` is the entry of the ordinary product taken modulo `m`. */
  lemma MulIsReducedProduct(x: Mat, y: Mat, m: nat)
    requires 0 < m && NoOverflow(x, y)
    ensures Mul(x, y, m) == Reduce(Product(x, y), m)
  {
  }

  /** `exp_req`: `x^n` modulo `m` by recursive halving of `n` (`n >> 1` is `n / 2`). */
  function ExpReq(x: Mat, n: nat, m: nat): (r: Mat)
    requires n == 0 || Fits(x, m)
    ensures n == 0 ==> r == I
    ensures n > 0 ==> Reduced(r, m)
    decreases ExpReqDepth(n)
  {
    if n == 0 then I
    else
      var y := ExpReq(x, n / 2, m);
      WithinBound(y, x, m);
      NoOverflowWithin(y, y, x, m);
      var y2 := Mul(y, y, m);
      WithinBound(y2, x, m);
      WithinBound(x, x, m);
      NoOverflowWithin(y2, x, x, m);
      if n % 2 == 0 then y2 else Mul(y2, x, m)
  }

  /** `exp_loop`: `x^n` modulo `m` by walking the bits of `n` from the least significant. */
  method ExpLoop(x: Mat, n: nat, m: nat) returns (z: Mat)
    requires n == 0 || Fits(x, m)
    ensures n == 0 ==> z == I
    ensures n > 0 ==> z == Reduce(Power(x, n), m)
    ensures z == ExpReq(x, n, m)
  {
    var y := x;
    z := I;
    var k: nat := n;  // the source shifts its parameter `n` in place
    while k > 0
      invariant k <= n
      invariant n == 0 ==> z == I
      invariant y == x || Reduced(y, m)
      invariant z == I || Reduced(z, m)
      invariant n > 0 ==> Congruent(Product(z, Power(y, k)), Power(x, n), m)
      invariant n > 0 && k == 0 ==> Reduced(z, m)
    {
      WithinBound(y, x, m);
      WithinBound(z, x, m);
      NoOverflowWithin(z, y, x, m);
      NoOverflowWithin(y, y, x, m);
      ExpLoopStep(z, y, k, m);
      if k % 2 == 1 {
        z := z.Times(y, m);
      }
      y := y.Times(y, m);
      assert k / 2 == 0 ==> k % 2 == 1;
      k := k / 2;
    }
    if n > 0 {
      ProductIdentity(z);
      ReducedIsFixed(z, m);
      ExpReqIsPower(x, n, m);
    }
  }

  // ----- algebra of the reference product -----

  lemma ProductAssociative(x: Mat, y: Mat, z: Mat)
    ensures Product(Product(x, y), z) == Product(x, Product(y, z))
  {
    DotAssociative(x.a, x.b, y.a, y.b, y.c, y.d, z.a, z.c);
    DotAssociative(x.a, x.b, y.a, y.b, y.c, y.d, z.b, z.d);
    DotAssociative(x.c, x.d, y.a, y.b, y.c, y.d, z.a, z.c);
    DotAssociative(x.c, x.d, y.a, y.b, y.c, y.d, z.b, z.d);
  }

  /** One entry of `(x*y)*z == x*(y*z)`: row `(p, q)` of `x` against column `(u, v)` of `z`. */
  lemma DotAssociative(p: int, q: int, ya: int, yb: int, yc: int, yd: int, u: int, v: int)
    ensures (p * ya + q * yc) * u + (p * yb + q * yd) * v
         == p * (ya * u + yb * v) + q * (yc * u + yd * v)
  {
  }

  lemma ProductIdentity(x: Mat)
    ensures Product(I, x) == x && Product(x, I) == x
  {
  }

  lemma PowerSucc(x: Mat, n: nat)
    ensures Power(x, n + 1) == Product(Power(x, n), x)
  {
  }

  /** `x^i * x^j == x^(i+j)`. */
  lemma {:induction false} PowerAdd(x: Mat, i: nat, j: nat)
    ensures Product(Power(x, i), Power(x, j)) == Power(x, i + j)
    decreases j
  {
    if j == 0 {
      ProductIdentity(Power(x, i));
    } else {
      ProductAssociative(Power(x, i), Power(x, j - 1), x);
      PowerAdd(x, i, j - 1);
    }
  }

  /** `(y*y)^k == y^(2k)`. */
  lemma {:induction false} PowerOfSquare(y: Mat, k: nat)
    ensures Power(Product(y, y), k) == Power(y, 2 * k)
  {
    if k > 0 {
      PowerOfSquare(y, k - 1);
      ProductAssociative(Power(y, 2 * k - 2), y, y);
    }
  }

  // ----- congruence -----

  /** The reduced product only depends on the factors modulo `m`. */
  lemma ProductOfReduced(x: Mat, y: Mat, m: nat)
    requires 0 < m
    ensures Congruent(Product(x, y), Product(Reduce(x, m), Reduce(y, m)), m)
  {
    DotMod(x.a, y.a, x.b, y.c, m);
    DotMod(x.a, y.b, x.b, y.d, m);
    DotMod(x.c, y.a, x.d, y.c, m);
    DotMod(x.c, y.b, x.d, y.d, m);
  }

  lemma ProductCongruent(x: Mat, x': Mat, y: Mat, y': Mat, m: nat)
    requires 0 < m && Congruent(x, x', m) && Congruent(y, y', m)
    ensures Congruent(Product(x, y), Product(x', y'), m)
  {
    ProductOfReduced(x, y, m);
    ProductOfReduced(x', y', m);
  }

  lemma ReduceCongruent(x: Mat, m: nat)
    requires 0 < m
    ensures Congruent(Reduce(x, m), x, m)
  {
    ModMod(x.a, m); ModMod(x.b, m); ModMod(x.c, m); ModMod(x.d, m);
  }

  lemma ReducedIsFixed(x: Mat, m: nat)
    requires 0 < m && Reduced(x, m)
    ensures Reduce(x, m) == x
  {
    ModSmall(x.a, m); ModSmall(x.b, m); ModSmall(x.c, m); ModSmall(x.d, m);
  }

  lemma {:induction false} PowerCongruent(x: Mat, x': Mat, n: nat, m: nat)
    requires 0 < m && Congruent(x, x', m)
    ensures Congruent(Power(x, n), Power(x', n), m)
  {
    if n > 0 {
      PowerCongruent(x, x', n - 1, m);
      ProductCongruent(Power(x, n - 1), Power(x', n - 1), x, x', m);
    }
  }

  // ----- correctness of the two strategies -----

  /** For `n >= 1`, `ExpReq` is the power `x^n` with every entry reduced modulo `m`. */
  lemma {:induction false} ExpReqIsPower(x: Mat, n: nat, m: nat)
    requires Fits(x, m)
    ensures Congruent(ExpReq(x, n, m), Power(x, n), m)
    ensures n > 0 ==> ExpReq(x, n, m) == Reduce(Power(x, n), m)
    decreases n
  {
    if n > 0 {
      var h := n / 2;
      var y := ExpReq(x, h, m);
      ExpReqIsPower(x, h, m);
      var y2 := SquareOfHalf(x, h, m, y);
      if n % 2 == 1 {
        TimesBase(x, h, m, y2);
        assert Power(x, n) == Product(Power(x, 2 * h), x);
      }
      ReducedIsFixed(ExpReq(x, n, m), m);
    }
  }

  /** Squaring the reduced half power `y` does not overflow and gives the reduced `x^(2h)`. */
  lemma SquareOfHalf(x: Mat, h: nat, m: nat, y: Mat) returns (y2: Mat)
    requires Fits(x, m) && (y == I || Reduced(y, m)) && Congruent(y, Power(x, h), m)
    ensures NoOverflow(y, y) && y2 == Mul(y, y, m)
    ensures Reduced(y2, m) && Congruent(y2, Power(x, 2 * h), m)
  {
    WithinBound(y, x, m);
    NoOverflowWithin(y, y, x, m);
    y2 := Mul(y, y, m);
    MulIsReducedProduct(y, y, m);
    ReduceCongruent(Product(y, y), m);
    ProductCongruent(y, Power(x, h), y, Power(x, h), m);
    PowerAdd(x, h, h);
  }

  /** Multiplying the reduced `x^(2h)` by the base does not overflow and stays congruent. */
  lemma TimesBase(x: Mat, h: nat, m: nat, y2: Mat)
    requires Fits(x, m) && Reduced(y2, m) && Congruent(y2, Power(x, 2 * h), m)
    ensures NoOverflow(y2, x) && Congruent(Mul(y2, x, m), Product(Power(x, 2 * h), x), m)
  {
    WithinBound(y2, x, m);
    WithinBound(x, x, m);
    NoOverflowWithin(y2, x, x, m);
    MulIsReducedProduct(y2, x, m);
    ReduceCongruent(Product(y2, x), m);
    ProductCongruent(y2, Power(x, 2 * h), x, x, m);
  }

  /** One iteration of `ExpLoop` keeps `z * y^k` the same modulo `m`. */
  lemma ExpLoopStep(z: Mat, y: Mat, k: nat, m: nat)
    requires 0 < m && 0 < k
    ensures Congruent(
              Product(if k % 2 == 1 then Reduce(Product(z, y), m) else z,
                      Power(Reduce(Product(y, y), m), k / 2)),
              Product(z, Power(y, k)), m)
  {
    var h := k / 2;
    var p := Power(Reduce(Product(y, y), m), h);
    SquaredPower(y, h, m);
    if k % 2 == 1 {
      OddStep(z, y, p, h, m);
      assert k == 1 + 2 * h;
    } else {
      ProductCongruent(z, z, p, Power(y, 2 * h), m);
      assert k == 2 * h;
    }
  }

  /** Squaring the reduced base halves the exponent. */
  lemma SquaredPower(y: Mat, h: nat, m: nat)
    requires 0 < m
    ensures Congruent(Power(Reduce(Product(y, y), m), h), Power(y, 2 * h), m)
  {
    ReduceCongruent(Product(y, y), m);
    PowerCongruent(Reduce(Product(y, y), m), Product(y, y), h, m);
    PowerOfSquare(y, h);
  }

  /** On an odd exponent the factor `y` moves from the power into `z`. */
  lemma OddStep(z: Mat, y: Mat, p: Mat, h: nat, m: nat)
    requires 0 < m && Congruent(p, Power(y, 2 * h), m)
    ensures Congruent(Product(Reduce(Product(z, y), m), p), Product(z, Power(y, 1 + 2 * h)), m)
  {
    ReduceCongruent(Product(z, y), m);
    ProductCongruent(Reduce(Product(z, y), m), Product(z, y), p, Power(y, 2 * h), m);
    ProductAssociative(z, y, Power(y, 2 * h));
    PowerAdd(y, 1, 2 * h);
    ProductIdentity(y);
    assert Power(y, 1) == y;
  }

  /**
   * Number of nested calls `ExpReq` makes below its top call: `n`'s bit
   * length. It is the termination measure of `ExpReq`.
   */
  function ExpReqDepth(n: nat): (r: nat)
    ensures n == 0 <==> r == 0
    ensures n > 0 ==> Pow2(r - 1) <= n < Pow2(r)
  {
    if n == 0 then 0 else 1 + ExpReqDepth(n / 2)
  }

  /** `2^k`, the reference for the bit-length bounds of `ExpReqDepth`. */
  function Pow2(k: nat): nat
  {
    if k == 0 then 1 else 2 * Pow2(k - 1)
  }

  // ----- the source's unit tests -----

  /** The test `mul_1234_5678`. */
  lemma MulExample()
    ensures Mat(1, 2, 3, 4).Times(Mat(5, 6, 7, 8), 1000) == Mat(19, 22, 43, 50)
  {
  }

  /** One unfolding of `ExpReq`, for evaluating it on concrete arguments step by step. */
  lemma ExpReqStep(x: Mat, n: nat, m: nat, y: Mat)
    requires 0 < n && Fits(x, m) && ExpReq(x, n / 2, m) == y
    requires NoOverflow(y, y) && NoOverflow(Mul(y, y, m), x)
    ensures ExpReq(x, n, m) == if n % 2 == 0 then Mul(y, y, m) else Mul(Mul(y, y, m), x, m)
  {
  }

  /**
   * The test `exp_req_1234_100`. The test has no arguments; `x` and `m` are
   * parameters, pinned to the test's values by the precondition, only so
   * that the verifier evaluates `ExpReq` one halving step at a time instead
   * of unfolding it on literals all at once.
   */
  lemma ExpReqExample(x: Mat, m: nat)
    requires x == Mat(1, 2, 3, 4) && m == 1000
    ensures ExpReq(x, 100, m) == Mat(999, 250, 875, 874)
  {
    assert Mul(Mat(1, 0, 0, 1), Mat(1, 0, 0, 1), m) == Mat(1, 0, 0, 1);
    assert Mul(Mat(1, 0, 0, 1), x, m) == Mat(1, 2, 3, 4);
    ExpReqStep(x, 1, m, Mat(1, 0, 0, 1));
    assert Mul(x, x, m) == Mat(7, 10, 15, 22);
    assert Mul(Mat(7, 10, 15, 22), x, m) == Mat(37, 54, 81, 118);
    ExpReqStep(x, 3, m, Mat(1, 2, 3, 4));
    assert Mul(Mat(37, 54, 81, 118), Mat(37, 54, 81, 118), m) == Mat(743, 370, 555, 298);
    ExpReqStep(x, 6, m, Mat(37, 54, 81, 118));
    assert Mul(Mat(743, 370, 555, 298), Mat(743, 370, 555, 298), m) == Mat(399, 170, 755, 154);
    ExpReqStep(x, 12, m, Mat(743, 370, 555, 298));
    assert Mul(Mat(399, 170, 755, 154), Mat(399, 170, 755, 154), m) == Mat(551, 10, 515, 66);
    assert Mul(Mat(551, 10, 515, 66), x, m) == Mat(581, 142, 713, 294);
    ExpReqStep(x, 25, m, Mat(399, 170, 755, 154));
    assert Mul(Mat(581, 142, 713, 294), Mat(581, 142, 713, 294), m) == Mat(807, 250, 875, 682);
    ExpReqStep(x, 50, m, Mat(581, 142, 713, 294));
    assert Mul(Mat(807, 250, 875, 682), Mat(807, 250, 875, 682), m) == Mat(999, 250, 875, 874);
    ExpReqStep(x, 100, m, Mat(807, 250, 875, 682));
  }

  /**
   * The test `exp_loop_1234_100`. As in `ExpReqExample`, the parameters exist
   * only to keep the verifier's evaluation step by step; the precondition
   * pins them to the test's values.
   */
  method ExpLoopExample(x: Mat, m: nat) returns (z: Mat)
    requires x == Mat(1, 2, 3, 4) && m == 1000
    ensures z == Mat(999, 250, 875, 874)
  {
    z := ExpLoop(x, 100, m);
    ExpReqExample(x, m);
  }
}
