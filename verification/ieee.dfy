/**
  IEEE doubles as far as the option analytics need them.

  A `Double` is either the quiet NaN the library returns to signal an error, or
  a finite value carried exactly as a `real`. Arithmetic propagates NaN and
  every ordered comparison involving NaN is false, as in IEEE 754. There are no
  infinities: a division by zero yields NaN.

  Strikes need one more IEEE feature, the sign of zero, because fsm_option.h
  chooses between the two degenerate zero-strike prices with `signbit`. A
  `Finite` is a finite double with its sign bit.

  The transcendental functions of the C library are not given bodies: they are
  the fields of a `Libm` value that every caller passes in. The facts assumed
  about them are the ones `Libm.Lawful` names, and for the lattice step the laws
  of `Binomial.Exponential`.
*/
module Ieee {

  datatype Double = NaN | Val(v: real)

  function Neg(a: Double): Double
  {
    if a.Val? then Val(-a.v) else NaN
  }

  function Add(a: Double, b: Double): Double
  {
    if a.Val? && b.Val? then Val(a.v + b.v) else NaN
  }

  function Sub(a: Double, b: Double): Double
  {
    if a.Val? && b.Val? then Val(a.v - b.v) else NaN
  }

  function Mul(a: Double, b: Double): Double
  {
    if a.Val? && b.Val? then Val(a.v * b.v) else NaN
  }

  /** IEEE gives +-infinity for a nonzero number over zero; without infinities that is NaN here. */
  function Div(a: Double, b: Double): Double
  {
    if a.Val? && b.Val? && b.v != 0.0 then Val(a.v / b.v) else NaN
  }

  /** `fabs` */
  function Abs(a: Double): Double
  {
    if a.Val? then Val(if a.v < 0.0 then -a.v else a.v) else NaN
  }

  /** `a < b`: false whenever either side is NaN. */
  predicate Lt(a: Double, b: Double)
  {
    a.Val? && b.Val? && a.v < b.v
  }

  /** `a <= b`: false whenever either side is NaN. */
  predicate Le(a: Double, b: Double)
  {
    a.Val? && b.Val? && a.v <= b.v
  }

  /** `a > b`: false whenever either side is NaN. */
  predicate Gt(a: Double, b: Double)
  {
    a.Val? && b.Val? && a.v > b.v
  }

  /** `std::max(a, b)`, which is `(a < b) ? b : a`, on finite values. */
  function Max(a: real, b: real): real
  {
    if a < b then b else a
  }

  function RealAbs(a: real): real
  {
    if a < 0.0 then -a else a
  }

  /** The machine epsilon of a double, 2^-52. */
  const Epsilon: real := 1.0 / 4503599627370496.0

  /** A finite double together with its sign bit. */
  datatype Signed = Signed(v: real, neg: bool)

  /** Only zero can carry either sign bit; every other value's sign bit is its sign. */
  type Finite = x: Signed | x.v != 0.0 ==> x.neg == (x.v < 0.0) witness Signed(0.0, false)

  /** The double a real literal denotes; a literal zero is +0. */
  function FromReal(r: real): Finite
  {
    Signed(r, r < 0.0)
  }

  /** Unary minus flips the sign bit, so -(+0) is -0. */
  function Negate(x: Finite): Finite
  {
    Signed(-x.v, !x.neg)
  }

  /** `fabs` clears the sign bit. */
  function FAbs(x: Finite): Finite
  {
    Signed(RealAbs(x.v), false)
  }

  /** The C library's transcendental functions, left abstract. */
  datatype Libm = Libm(erf: real -> real, exp: real -> real, log: real -> real, sqrt: real -> real,
                       pow: (real, real) -> real)
  {
    /** The facts the model assumes about the library everywhere. */
    ghost predicate Lawful()
    {
      && erf(0.0) == 0.0
      && exp(0.0) == 1.0
      && (forall x :: exp(x) > 0.0)
      && (forall x :: pow(x, 0.0) == 1.0)
      && (forall x, y :: x > 0.0 ==> pow(x, y) > 0.0)
    }
  }

  /** `sqrt`, which is NaN for a negative argument. */
  function Sqrt(m: Libm, x: real): Double
  {
    if x < 0.0 then NaN else Val(m.sqrt(x))
  }

  /** `cosh`, by its definition in terms of `exp`. */
  function Cosh(m: Libm, x: real): real
  {
    (m.exp(x) + m.exp(-x)) / 2.0
  }
}
