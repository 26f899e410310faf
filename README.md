# rust_fibo in Dafny

A model of the crate `rust_fibo`, which computes the `x`-th Fibonacci number
modulo `m` in five ways. It also models the modular residue type declared
beside it. Three source files make up the core:

- `src/mat.rs` holds a 2x2 matrix of `u64` entries with the constants `O`, `I`
  and `M`, the Fibonacci Q-matrix `((0,1),(1,1))`. It provides a product
  reduced modulo `m` and two strategies for computing `x^n mod m`:
  - a recursive one, `exp_req`, which halves `n`;
  - an iterative one, `exp_loop`, which walks the bits of `n` from the least
    significant. `Mat::pow` runs it.
- `src/lib.rs` computes `F(x) mod m` five ways:
  - by naive recursion (`fibo_rec`);
  - by a pair update (`fibo_seq`);
  - by `x` multiplications by `M` (`fibo_mat`);
  - as the top-right entry of `M^x` computed by either power strategy
    (`fibo_mat_req`, `fibo_mat_loop`).
- `src/algebra.rs` defines `IntegerRingBigUint`, a value paired with its
  modulus, with `new`, `add`, `zero` and `is_zero`.

The Dafny modules follow these files:

- `Matrix` (`mat.dfy`) models `src/mat.rs`.
  - The matrix `Mat((a, b), (c, d))` is the datatype `Mat(a, b, c, d)`.
  - `Mat::mul` and `Mat::pow` are its members `Times` and `Pow`.
  - `mul` and `exp_req` are functions.
  - `exp_loop` is a method with a `while` loop, as in the source.
  - The ghost functions `Product`, `Power`, `Reduce` and `Congruent` are the
    mathematical reference: unbounded matrices over the naturals and entrywise
    reduction. The contracts are stated against them.
- `Fibonacci` (`fibo.dfy`) models `src/lib.rs`.
  - `fibo_rec` and `fibo_mat_req` are functions.
  - `fibo_seq`, `fibo_mat` and `fibo_mat_loop` are methods. The first two keep
    their `for` loops.
  - The ghost function `Fib` is the reference sequence.
  - The proofs rest on the identity `M^(n+1) = ((F(n), F(n+1)), (F(n+1), F(n+2)))`.
- `Algebra` (`algebra.dfy`) models `src/algebra.rs` on values.
- `ModArith` (`modular.dfy`) holds auxiliary facts about Euclidean remainder.

How integers are modelled:

- Integers are unbounded `nat`s.
- Every `u64` product or sum the source forms is kept below 2^64 by a
  precondition:
  - `NoOverflow` for one product;
  - `Fits` for a whole power computation;
  - `SafeModulus` for the powers of `M`;
  - `SumFits` for the additions of `fibo_rec` and `fibo_seq`.
- Division by a zero modulus is excluded by a precondition only on the paths
  that divide. For example, `exp_req(x, 0, 0)` is `I` and `fibo_rec(1, 0)` is
  1, and the preconditions allow both.
- `n >> 1` is `n / 2`.

The five strategies are meant to agree. The model follows the code, and by the
code they agree only for `m > 1`. They do not at `m = 1`:

- `fibo_rec(1, 1)` and `fibo_seq(1, 1)` return the unreduced base value 1.
- The matrix strategies return 0.

The model proves agreement for `m > 1` (`StrategiesAgree`) and the
disagreement at `m = 1` (`StrategiesDisagreeAtModulusOne`).

## Model

| member | source | states |
|---|---|---|
| `Matrix.Mul` | src/mat.rs:11-14 | For `m > 0` and products that fit in a `u64`, every entry of the result is below `m`. |
| `Matrix.MulIsReducedProduct` | src/mat.rs:11-14 | Each entry of `mul(x, y, m)` is the corresponding entry of the ordinary 2x2 product taken modulo `m`. |
| `Matrix.Mat.Times` | src/mat.rs:16-20 | `Mat::mul` is the reduced ordinary product of the receiver and the argument, with every entry below `m`. |
| `Matrix.ExpReq` | src/mat.rs:22-33 | `exp_req(x, 0, m)` is exactly `I`, not reduced; for `n > 0` every entry of the result is below `m`. |
| `Matrix.ExpReqIsPower` | src/mat.rs:22-33 | `exp_req(x, n, m)` is congruent to the power `x^n` for every `n`; for `n >= 1` it equals `x^n` with every entry reduced modulo `m`. |
| `Matrix.SquareOfHalf` | src/mat.rs:27 | Squaring the reduced half power does not overflow, and gives a reduced matrix congruent to `x^(2h)`. |
| `Matrix.TimesBase` | src/mat.rs:31 | On an odd `n`, multiplying the reduced `x^(2h)` by `x` does not overflow and stays congruent to `x^(2h) * x`. |
| `Matrix.ExpReqDepth` | src/mat.rs:22-26 | The number of nested recursive calls under `exp_req(x, n, m)` is the bit length of `n`: 0 for `n = 0`, otherwise the `r` with `2^(r-1) <= n < 2^r`. `ExpReq` uses it as its termination measure. |
| `Matrix.ExpLoop` | src/mat.rs:35-46 | `exp_loop(x, 0, m)` is exactly `I`. For `n > 0` it is `x^n` with every entry reduced. It equals `exp_req(x, n, m)` for every `n`. The loop keeps `z * y^k` congruent to `x^n`. |
| `Matrix.ExpLoopStep` | src/mat.rs:38-44 | One iteration of the loop keeps `z * y^k` the same modulo `m`: multiply `z` by `y` on an odd bit, square `y`, halve `k`. |
| `Matrix.SquaredPower` | src/mat.rs:42-43 | Replacing `y` by its reduced square and halving the exponent keeps `y^(2h)` modulo `m`. |
| `Matrix.OddStep` | src/mat.rs:39-41 | On an odd exponent, moving one factor `y` into `z` keeps `z * y^(2h+1)` modulo `m`. |
| `Matrix.Mat.Pow` | src/mat.rs:48-52 | `Mat::pow` is `I` at `n = 0` and the reduced power `x^n` for `n > 0`, computed by `exp_loop`. |
| `Matrix.MulExample` | src/mat.rs:58-63 | `((1,2),(3,4)) * ((5,6),(7,8))` modulo 1000 is `((19,22),(43,50))`. |
| `Matrix.ExpReqExample` | src/mat.rs:65-69 | `exp_req(((1,2),(3,4)), 100, 1000)` is `((999,250),(875,874))`. |
| `Matrix.ExpLoopExample` | src/mat.rs:71-75 | `exp_loop(((1,2),(3,4)), 100, 1000)` is `((999,250),(875,874))`. |
| `Fibonacci.FiboRec` | src/lib.rs:4-12 | `fibo_rec(x, m)` is `F(x)` for `x < 2`, which is unreduced, and `F(x) mod m` from 2 on. |
| `Fibonacci.FiboSeq` | src/lib.rs:14-23 | After `i` iterations `a` is `F(i)` (reduced once `i >= 2`) and `b` is `F(i+1)` (reduced once `i >= 1`). The result equals `fibo_rec(x, m)`. |
| `Fibonacci.FiboMat` | src/lib.rs:25-31 | After `i >= 1` iterations `t` is `M^i` reduced modulo `m`. The result is 0 at `x = 0`, `F(x) mod m` otherwise, and equals `fibo_mat_req(x, m)`. |
| `Fibonacci.TimesMStep` | src/lib.rs:27-29 | One iteration of `fibo_mat` does not overflow, and takes the reduced `M^i` to the reduced `M^(i+1)`. |
| `Fibonacci.FiboMatReq` | src/lib.rs:33-35 | `fibo_mat_req(x, m)`, the top-right entry of `exp_req(M, x, m)`, is 0 at `x = 0` and `F(x) mod m` for `x >= 1`. |
| `Fibonacci.FiboMatLoop` | src/lib.rs:37-39 | `fibo_mat_loop(x, m)` is 0 at `x = 0` and `F(x) mod m` otherwise, and equals `fibo_mat_req(x, m)`. |
| `Fibonacci.PowerOfM` | src/mat.rs:8 | `M^(n+1) = ((F(n), F(n+1)), (F(n+1), F(n+2)))`. |
| `Fibonacci.FibOfPowerM` | src/lib.rs:30 | The top-right entry `.0.1` of `M^n` is `F(n)` for every `n`, including `I` at `n = 0`. |
| `Fibonacci.StrategiesAgree` | src/lib.rs:4-39 | For `m > 1`, `fibo_rec`, `fibo_mat_req` and `F(x) mod m` coincide. With the ensures of `FiboSeq`, `FiboMat` and `FiboMatLoop`, all five strategies agree. |
| `Fibonacci.StrategiesDisagreeAtModulusOne` | src/lib.rs:8-10 | At `m = 1`, `fibo_rec(1, 1)` is 1 but `fibo_mat_req(1, 1)` is 0. |
| `Fibonacci.FiboRecExample` | src/lib.rs:44-46 | `fibo_rec(10, 1000)` is 55. |
| `Algebra.New` | src/algebra.rs:29-31 | For `m > 0`, `new(v, m)` has modulus `m` and a value below `m` that is congruent to `v`. |
| `Algebra.NewFixesExactlyReduced` | src/algebra.rs:29-31 | `new(v, m)` stores `v` unchanged exactly when `v < m`. |
| `Algebra.NewOfReduced` | src/algebra.rs:29-31 | Reducing the value before `new` yields the same residue. |
| `Algebra.Add` | src/algebra.rs:35-40 | `add` fails (the `assert_eq!` panic) exactly when the moduli differ. Otherwise it keeps the modulus and returns a value below it that is congruent to the sum. |
| `Algebra.AddIsNewOfSum` | src/algebra.rs:36-39 | On equal moduli, `add(a, b)` is `new(a.v + b.v, a.m)`. |
| `Algebra.AddCommutative` | src/algebra.rs:36-39 | `add(a, b) == add(b, a)`, including whether it panics. |
| `Algebra.AddAssociative` | src/algebra.rs:36-39 | On one modulus, `(a + b) + c == a + (b + c)`. |
| `Algebra.Zero` | src/algebra.rs:43-45 | `x.zero()` has value 0 and the modulus of `x`, and is valid. |
| `Algebra.IsZero` | src/algebra.rs:46-48 | On a valid residue, `is_zero` holds exactly when the residue class is that of 0, i.e. `m` divides the stored value. |
| `Algebra.ZeroIsZero` | src/algebra.rs:43-48 | `x.zero().is_zero()` holds. |
| `Algebra.ZeroIsIdentity` | src/algebra.rs:36-45 | On a valid residue `x`, `add(x, x.zero())` and `add(x.zero(), x)` are both `x`. |
| `Algebra.IsZeroOfNew` | src/algebra.rs:29-31 | `new(v, m).is_zero()` holds exactly when `m` divides `v`. |
| `Algebra.IsZeroOfAdd` | src/algebra.rs:36-48 | `add(a, b).is_zero()` holds exactly when `m` divides `a.v + b.v`. |

## Left out

- `src/main.rs` is not part of this model. Its five Fibonacci functions are copies of those in `src/lib.rs`. Its `run` and `main` only time the calls with a clock and print the results.
- The traits `AdditiveGroup`, `MultiplicativeGroup`, `Ring`, `EuclideanDomain` and `Exponent` are signatures only, and their `u64` and `BigUint` impls are commented out. `zero` and `is_zero` are modelled as plain functions on `IntegerRingBigUint`.
- The model does not capture `u64` overflow (a panic in debug builds, wrap-around in release builds). Preconditions exclude it.
- `Matrix.ExpReq`: its precondition `Fits` bounds every entry by `max(x's entries, m - 1, 1)` and requires twice that bound squared to stay below 2^64. This suffices for no overflow but is stronger than the exact condition under which the source does not overflow. The same bound is on `Matrix.ExpLoop`, `Matrix.Mat.Pow` and `Matrix.ExpReqIsPower`.
- `Fibonacci.FiboMat`: requires `SafeModulus(m)`, that is `2*(m-1)^2 < 2^64`. This suffices, but is not the exact no-overflow condition. The same holds of `Fibonacci.FiboMatReq`, `Fibonacci.FiboMatLoop` and `Fibonacci.StrategiesAgree`.
- `Fibonacci.FiboRec`: requires `SumFits(m)`, that is `2*(m-1) < 2^64`, for `x >= 2`. This suffices, but is not the exact no-overflow condition. The same holds of `Fibonacci.FiboSeq`.
- `exp_loop` squares `y` once more after it has used the last bit. That product is never read, but it must not overflow, so `Fits` covers it.
- The large unit tests are not evaluated: `fibo_seq(1000, 1_000_000_000) == 849228875`, and 875 for the three matrix strategies at `(1_000_000, 1000)`. Evaluating them would take hundreds of modular matrix products. They are instances of the general results: `FiboSeq`, `FiboMat` and `FiboMatLoop` return `F(x) mod m`, and all strategies agree (`StrategiesAgree`). The expected values themselves are not checked.
- `Mat::O` is declared as the constant `O` and, as in the source, never used.
- The derived `Debug` is not modelled. `PartialEq` is Dafny's structural equality of datatypes. `Clone` and passing by reference are value semantics, so no input is ever changed.
- `BigUint` in `src/algebra.rs` is modelled as `nat`. `new(v, 0)` and `add` on two zero moduli divide by zero in the source, so the model requires a positive modulus there. The `assert_eq!` failure of `add` is the result `None`.
