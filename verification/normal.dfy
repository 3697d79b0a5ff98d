/**
  The standard normal variate: Hermite polynomials, the distribution function
  and its derivatives, the Esscher-shifted distribution function and the
  derivatives of the cumulant generating function kappa(s) = s^2/2.
*/
module Normal {
  import opened Ieee

  /** sqrt(2 pi), to the digits fms_variate_normal.h gives. */
  const Sqrt2Pi: real := 2.50662827463100050240

  /** sqrt(2), to the digits fms_variate_normal.h gives. */
  const Sqrt2: real := 1.41421356237309504880

  /** (-1)^n */
  function Alternating(n: nat): real
  {
    if n % 2 == 1 then -1.0 else 1.0
  }

  /** Probabilists' Hermite polynomials: H_0 = 1, H_1 = x, H_n = x H_{n-1} - (n-1) H_{n-2}. */
  function H(n: nat, x: real): real
    decreases n
  {
    if n == 0 then 1.0
    else if n == 1 then x
    else x * H(n - 1, x) - (n - 1) as real * H(n - 2, x)
  }

  /** The standard normal density phi(x). */
  function Density(m: Libm, x: real): real
  {
    m.exp(-x * x / 2.0) / Sqrt2Pi
  }

  /** The n-th derivative of the standard normal distribution function at x. */
  function N(m: Libm, x: Double, n: nat): (r: Double)
    ensures r.NaN? <==> x.NaN?
    ensures x.Val? && n >= 1 ==> r.v == Density(m, x.v) * H(n - 1, x.v) * Alternating(n - 1)
  {
    match x
    case NaN => NaN
    case Val(y) =>
      if n == 0 then Val((1.0 + m.erf(y / Sqrt2)) / 2.0)
      else
        var phi := Density(m, y);
        if n == 1 then Val(phi)
        else Val(phi * H(n - 1, y) * Alternating(n - 1))
  }

  /**
    The (nx, ns)-th partial derivative of P_s(X <= x) = P(X <= x - s) in x and s:
    each s-derivative contributes a factor -1.
  */
  function Cdf(m: Libm, x: Double, s: Double, nx: nat, ns: nat): Double
  {
    Mul(N(m, Sub(x, s), nx + ns), Val(Alternating(ns)))
  }

  /** The n-th derivative of kappa(s) = log E[exp(s X)] = s^2/2. */
  function Cumulant(s: Double, n: nat): (r: Double)
    ensures s.Val? ==> r.Val?
    ensures n >= 2 ==> r.Val?
    ensures r.NaN? <==> s.NaN? && n < 2
  {
    if n == 0 then Div(Mul(s, s), Val(2.0))
    else if n == 1 then s
    else if n == 2 then Val(1.0)
    else Val(0.0)
  }

  lemma HermiteLowOrders(x: real)
    ensures H(0, x) == 1.0
    ensures H(1, x) == x
    ensures H(2, x) == x * x - 1.0
    ensures H(3, x) == x * x * x - 3.0 * x
  {
  }

  lemma HermiteRecurrence(n: nat, x: real)
    requires n >= 1
    ensures H(n + 1, x) == x * H(n, x) - n as real * H(n - 1, x)
  {
  }

  /** Hermite polynomials of even degree are even functions and those of odd degree odd. */
  lemma {:induction false} HermiteParity(n: nat, x: real)
    ensures H(n, -x) == (if n % 2 == 0 then H(n, x) else -H(n, x))
    decreases n
  {
    if n >= 2 {
      if n % 2 == 0 {
        assert (n - 1) % 2 == 1 && (n - 2) % 2 == 0;
        HermiteParity(n - 1, x);
        HermiteParity(n - 2, x);
        EvenStep(n, x);
      } else {
        assert (n - 1) % 2 == 0 && (n - 2) % 2 == 1;
        HermiteParity(n - 1, x);
        HermiteParity(n - 2, x);
        OddStep(n, x);
      }
    }
  }

  /** One parity step to an even degree, from the parities of the two degrees below. */
  lemma EvenStep(n: nat, x: real)
    requires n >= 2
    requires H(n - 1, -x) == -H(n - 1, x) && H(n - 2, -x) == H(n - 2, x)
    ensures H(n, -x) == H(n, x)
  {
    var a, b, c := H(n - 1, x), H(n - 2, x), (n - 1) as real;
    assert H(n, -x) == -x * -a - c * b;
  }

  /** One parity step to an odd degree, from the parities of the two degrees below. */
  lemma OddStep(n: nat, x: real)
    requires n >= 2
    requires H(n - 1, -x) == H(n - 1, x) && H(n - 2, -x) == -H(n - 2, x)
    ensures H(n, -x) == -H(n, x)
  {
    var a, b, c := H(n - 1, x), H(n - 2, x), (n - 1) as real;
    assert H(n, -x) == -x * a - c * -b;
  }

  /** Every odd-degree Hermite polynomial vanishes at zero. */
  lemma {:induction false} HermiteOddVanishesAtZero(n: nat)
    requires n % 2 == 1
    ensures H(n, 0.0) == 0.0
    decreases n
  {
    if n >= 3 {
      HermiteOddVanishesAtZero(n - 2);
    }
  }

  /** The second derivative of the distribution function is -x times the density. */
  lemma DensityDerivatives(m: Libm, x: real)
    ensures N(m, Val(x), 2) == Val(-x * N(m, Val(x), 1).v)
  {
    var phi := Density(m, x);
    assert H(1, x) == x && Alternating(1) == -1.0;
    assert N(m, Val(x), 2).v == -x * phi;
  }

  /** The values the unit tests check at zero, from erf(0) = 0 and exp(0) = 1 alone. */
  lemma AtZero(m: Libm, n: nat)
    requires m.erf(0.0) == 0.0 && m.exp(0.0) == 1.0
    ensures N(m, Val(0.0), 0) == Val(0.5)
    ensures N(m, Val(0.0), 1) == Val(1.0 / Sqrt2Pi)
    ensures n >= 2 && n % 2 == 0 ==> N(m, Val(0.0), n) == Val(0.0)
  {
    assert -0.0 * 0.0 / 2.0 == 0.0;
    if n >= 2 && n % 2 == 0 {
      HermiteOddVanishesAtZero(n - 1);
    }
  }

  /** Reflecting x multiplies the n-th derivative (n >= 1) by (-1)^(n-1). */
  lemma Reflection(m: Libm, x: real, n: nat)
    requires n >= 1
    ensures N(m, Val(-x), n) == Mul(Val(Alternating(n - 1)), N(m, Val(x), n))
  {
    var a := Alternating(n - 1);
    var d, p, q := Density(m, x), H(n - 1, x), H(n - 1, -x);
    assert q == if a == 1.0 then p else -p by {
      HermiteParity(n - 1, x);
    }
    assert N(m, Val(-x), n).v == d * q * a by {
      DensityEven(m, x);
    }
    assert N(m, Val(x), n).v == d * p * a;
    SignAlgebra(d, p, q, a);
  }

  lemma DensityEven(m: Libm, x: real)
    ensures Density(m, -x) == Density(m, x)
  {
    assert -(-x) * (-x) / 2.0 == -x * x / 2.0;
  }

  lemma SignAlgebra(d: real, p: real, q: real, a: real)
    requires a == 1.0 || a == -1.0
    requires q == if a == 1.0 then p else -p
    ensures d * q * a == a * (d * p * a)
  {
  }

  /**
    The Esscher tilt by s shifts the law by kappa'(s), so the shifted distribution
    function depends on x and s only through x - kappa'(s), and on the orders only
    through nx + ns and the parity of ns.
  */
  lemma EsscherShift(m: Libm, x: Double, s: Double, nx: nat, ns: nat, x': Double, s': Double, nx': nat, ns': nat)
    requires Sub(x, Cumulant(s, 1)) == Sub(x', Cumulant(s', 1))
    requires nx + ns == nx' + ns' && ns % 2 == ns' % 2
    ensures Cdf(m, x, s, nx, ns) == Cdf(m, x', s', nx', ns')
    ensures Cdf(m, x, s, nx, ns) == Mul(N(m, Sub(x, s), nx + ns), Val(Alternating(ns)))
  {
  }

  /**
    The table at s: kappa(s) = s^2/2, kappa'(s) = s, kappa''(s) = 1, and every
    higher derivative 0.
  */
  lemma CumulantTable(s: real, n: nat)
    ensures Cumulant(Val(s), 0) == Val(s * s / 2.0)
    ensures Cumulant(Val(s), 1) == Val(s)
    ensures Cumulant(Val(s), 2) == Val(1.0)
    ensures n >= 3 ==> Cumulant(Val(s), n) == Val(0.0)
  {
  }

  /**
    kappa is the quadratic s^2/2: the symmetric difference quotient of every entry
    of the derivative table is exactly the next entry.
  */
  lemma CumulantDifferences(s: real, h: real, n: nat)
    requires h != 0.0
    ensures Div(Sub(Cumulant(Val(s + h), n), Cumulant(Val(s - h), n)), Val(2.0 * h)) == Cumulant(Val(s), n + 1)
  {
    if n == 0 {
      assert Cumulant(Val(s + h), 0) == Val((s + h) * (s + h) / 2.0);
      assert Cumulant(Val(s - h), 0) == Val((s - h) * (s - h) / 2.0);
      QuadraticDifference(s, h);
    } else if n == 1 {
      LinearDifference(s, h);
    } else {
      ConstantDifference(h);
    }
  }

  lemma LinearDifference(s: real, h: real)
    requires h != 0.0
    ensures ((s + h) - (s - h)) / (2.0 * h) == 1.0
  {
    var w := 2.0 * h;
    assert (s + h) - (s - h) == w;
    SelfQuotient(w);
  }

  lemma SelfQuotient(w: real)
    requires w != 0.0
    ensures w / w == 1.0
  {
  }

  lemma ConstantDifference(h: real)
    requires h != 0.0
    ensures 0.0 / (2.0 * h) == 0.0
  {
  }

  lemma QuadraticDifference(s: real, h: real)
    requires h != 0.0
    ensures ((s + h) * (s + h) / 2.0 - (s - h) * (s - h) / 2.0) / (2.0 * h) == s
  {
    assert (s + h) * (s + h) == s * s + 2.0 * s * h + h * h;
    assert (s - h) * (s - h) == s * s - 2.0 * s * h + h * h;
    assert (s + h) * (s + h) / 2.0 - (s - h) * (s - h) / 2.0 == s * (2.0 * h);
  }
}
