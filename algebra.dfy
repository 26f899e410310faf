/**
 * The residue type of `src/algebra.rs`: a value paired with its modulus.
 * `BigUint` is unbounded, so both fields are `nat`. The source keeps the
 * fields private to its module; `Valid` states the invariant that `new`
 * and `add` establish for the values they build.
 */
module Algebra {
  import opened ModArith

  datatype Option<T> = None | Some(value: T)

  /** `IntegerRingBigUint { v, m }`. */
  datatype IntegerRingBigUint = IntegerRingBigUint(v: nat, m: nat)

  /** The invariant `new` establishes: a positive modulus and a reduced value. */
  predicate Valid(x: IntegerRingBigUint)
  {
    0 < x.m && x.v < x.m
  }

  /** `p` and `q` leave the same remainder modulo `m`. */
  predicate SameResidue(p: nat, q: nat, m: nat)
    requires 0 < m
  {
    p % m == q % m
  }

  /**
   * `new(v, m)` keeps the residue of `v`. A zero modulus is a division by
   * zero in the source, so it is the caller's obligation here.
   */
  function New(v: nat, m: nat): (r: IntegerRingBigUint)
    requires 0 < m
    ensures Valid(r) && r.m == m && SameResidue(r.v, v, m)
  {
    ModMod(v, m);
    IntegerRingBigUint(v % m, m)
  }

  /**
   * `add`: `None` stands for the `assert_eq!` failure on different moduli;
   * otherwise the sum is reduced modulo the common modulus.
   */
  function Add(a: IntegerRingBigUint, b: IntegerRingBigUint): (r: Option<IntegerRingBigUint>)
    requires a.m == b.m ==> 0 < a.m
    ensures r.None? <==> a.m != b.m
    ensures r.Some? ==> Valid(r.value) && r.value.m == a.m && SameResidue(r.value.v, a.v + b.v, a.m)
  {
    if a.m != b.m then None
    else
      ModMod(a.v + b.v, a.m);
      Some(IntegerRingBigUint((a.v + b.v) % a.m, a.m))
  }

  /** `zero`: the residue 0 with the modulus of `x`. */
  function Zero(x: IntegerRingBigUint): (r: IntegerRingBigUint)
    requires 0 < x.m
    ensures Valid(r) && r.m == x.m && r.v == 0
  {
    ModSmall(0, x.m);
    New(0, x.m)
  }

  /**
   * `is_zero`: the stored value is 0. On a valid residue that is the same as
   * the residue class being that of 0.
   */
  predicate IsZero(x: IntegerRingBigUint): (b: bool)
    ensures Valid(x) ==> (b <==> x.v % x.m == 0)
  {
    x.v == 0
  }

  // ----- properties -----

  /** `New` leaves a value-modulus pair unchanged exactly when the value is already reduced. */
  lemma NewFixesExactlyReduced(v: nat, m: nat)
    requires 0 < m
    ensures New(v, m) == IntegerRingBigUint(v, m) <==> v < m
  {
    if v < m {
      ModSmall(v, m);
    }
  }

  /** Any two valid residues that are congruent with the same modulus are equal. */
  lemma ValidSameResidueEqual(x: IntegerRingBigUint, y: IntegerRingBigUint)
    requires Valid(x) && Valid(y) && x.m == y.m && SameResidue(x.v, y.v, x.m)
    ensures x == y
  {
    ModSmall(x.v, x.m);
    ModSmall(y.v, y.m);
  }

  /** Reducing `v` first does not change the residue `New` builds. */
  lemma NewOfReduced(v: nat, m: nat)
    requires 0 < m
    ensures New(v % m, m) == New(v, m)
  {
    ModMod(v, m);
  }

  /** `add` only depends on the residues of its summands. */
  lemma AddIsNewOfSum(a: IntegerRingBigUint, b: IntegerRingBigUint)
    requires a.m == b.m && 0 < a.m
    ensures Add(a, b) == Some(New(a.v + b.v, a.m))
  {
    ValidSameResidueEqual(Add(a, b).value, New(a.v + b.v, a.m));
  }

  /** `add` is commutative, including in whether it panics. */
  lemma AddCommutative(a: IntegerRingBigUint, b: IntegerRingBigUint)
    requires a.m == b.m ==> 0 < a.m
    ensures Add(a, b) == Add(b, a)
  {
    if a.m == b.m {
      assert a.v + b.v == b.v + a.v;
    }
  }

  /** `add` is associative on residues with one modulus. */
  lemma AddAssociative(a: IntegerRingBigUint, b: IntegerRingBigUint, c: IntegerRingBigUint)
    requires a.m == b.m == c.m && 0 < a.m
    ensures Add(Add(a, b).value, c) == Add(a, Add(b, c).value)
  {
    var m := a.m;
    var ab, bc := Add(a, b).value, Add(b, c).value;
    AddIsNewOfSum(ab, c);
    AddIsNewOfSum(a, bc);
    SumCongruent(ab.v, c.v, a.v + b.v, c.v, m);
    SumCongruent(a.v, bc.v, a.v, b.v + c.v, m);
    assert a.v + b.v + c.v == a.v + (b.v + c.v);
    ValidSameResidueEqual(New(ab.v + c.v, m), New(a.v + bc.v, m));
  }

  /** `x.zero()` is zero. */
  lemma ZeroIsZero(x: IntegerRingBigUint)
    requires 0 < x.m
    ensures IsZero(Zero(x))
  {
  }

  /** `zero` is a right and a left identity of `add` on valid residues. */
  lemma ZeroIsIdentity(x: IntegerRingBigUint)
    requires Valid(x)
    ensures Add(x, Zero(x)) == Some(x)
    ensures Add(Zero(x), x) == Some(x)
  {
    ModSmall(x.v, x.m);
  }

  /** On a residue built by `new`, `is_zero` tests divisibility of the original value. */
  lemma IsZeroOfNew(v: nat, m: nat)
    requires 0 < m
    ensures IsZero(New(v, m)) <==> v % m == 0
  {
  }

  /** A sum is zero exactly when the summands' values add up to a multiple of the modulus. */
  lemma IsZeroOfAdd(a: IntegerRingBigUint, b: IntegerRingBigUint)
    requires a.m == b.m && 0 < a.m
    ensures IsZero(Add(a, b).value) <==> (a.v + b.v) % a.m == 0
  {
    AddIsNewOfSum(a, b);
  }
}
