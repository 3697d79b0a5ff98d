/**
  Forward (Black) option analytics on the standard normal variate: moneyness,
  value and greeks of a put (k < 0) or call (k > 0) on a forward f with total
  volatility s, and the implied-volatility solver.

  Strikes carry their sign bit, because at a zero strike the value and delta
  are chosen by the sign of the zero alone. The volatility is a `Double`: the
  solver feeds its own iterates back in, and the BSM mapping produces NaN for a
  negative time.
*/
module Option {
  import opened Ieee
  import Normal
  import Newton

  /** (log(k/f) + kappa(s))/s, or NaN outside f, s, k > 0. */
  function Moneyness(m: Libm, f: real, s: Double, k: real): (r: Double)
    ensures r.NaN? <==> (f <= 0.0 || s.NaN? || s.v <= 0.0 || k <= 0.0)
    ensures r.Val? ==> r.v == (m.log(k / f) + s.v * s.v / 2.0) / s.v
  {
    if f <= 0.0 || Le(s, Val(0.0)) || k <= 0.0 then NaN
    else Div(Add(Val(m.log(k / f)), Normal.Cumulant(s, 0)), s)
  }

  /** Put (k < 0) or call (k > 0) value; a call is priced from the put by parity. */
  function Value(m: Libm, f: real, s: Double, k: Finite): (r: Double)
    ensures k.v != 0.0 ==> (r.NaN? <==> Moneyness(m, f, s, RealAbs(k.v)).NaN?)
    decreases if k.v > 0.0 then 1 else 0
  {
    if k.v < 0.0 then
      var x := Moneyness(m, f, s, -k.v);
      Sub(Mul(Val(-k.v), Normal.Cdf(m, x, Val(0.0), 0, 0)), Mul(Val(f), Normal.Cdf(m, x, s, 0, 0)))
    else if k.v > 0.0 then
      Sub(Add(Value(m, f, s, Negate(k)), Val(f)), Val(k.v))
    else if k.neg then Val(0.0)
    else Val(f)
  }

  /** Put (k < 0) or call (k > 0) delta, dv/df. */
  function Delta(m: Libm, f: real, s: Double, k: Finite): (r: Double)
    ensures k.v != 0.0 ==> (r.NaN? <==> Moneyness(m, f, s, RealAbs(k.v)).NaN?)
    decreases if k.v > 0.0 then 1 else 0
  {
    if k.v < 0.0 then
      var x := Moneyness(m, f, s, -k.v);
      Neg(Normal.Cdf(m, x, s, 0, 0))
    else if k.v > 0.0 then
      Add(Delta(m, f, s, Negate(k)), Val(1.0))
    else if k.neg then Val(0.0)
    else Val(1.0)
  }

  /** Gamma, d^2v/df^2, the same for a put and a call. */
  function Gamma(m: Libm, f: real, s: Double, k: Finite): (r: Double)
    ensures r.NaN? <==> Moneyness(m, f, s, RealAbs(k.v)).NaN?
    ensures r.Val? ==> r.v == Normal.Density(m, Moneyness(m, f, s, RealAbs(k.v)).v - s.v) / (f * s.v)
  {
    var x := Moneyness(m, f, s, FAbs(k).v);
    Div(Normal.Cdf(m, x, s, 1, 0), Mul(Val(f), s))
  }

  /** Vega, dv/ds, the same for a put and a call. */
  function Vega(m: Libm, f: real, s: Double, k: Finite): (r: Double)
    ensures r.NaN? <==> Moneyness(m, f, s, RealAbs(k.v)).NaN?
    ensures r.Val? ==> r.v == Normal.Density(m, Moneyness(m, f, s, RealAbs(k.v)).v - s.v) * f
  {
    var x := Moneyness(m, f, s, FAbs(k).v);
    Mul(Neg(Normal.Cdf(m, x, s, 0, 1)), Val(f))
  }

  /** Theta, dv/dt, through vega at total volatility sigma sqrt(t). */
  function Theta(m: Libm, f: real, sigma: real, k: Finite, t: real): (r: Double)
    ensures t < 0.0 ==> r.NaN?
    ensures k.v == 0.0 ==> r.NaN?
  {
    var root := Sqrt(m, t);
    var vega := Vega(m, f, Mul(Val(sigma), root), k);
    Div(Mul(vega, Val(sigma)), Mul(Val(2.0), root))
  }

  /** Value as a function of the volatility alone, for the solver. */
  function ValueAt(m: Libm, f: real, k: Finite): Double -> Double
  {
    (s: Double) => Value(m, f, s, k)
  }

  /** Vega as a function of the volatility alone, for the solver. */
  function VegaAt(m: Libm, f: real, k: Finite): Double -> Double
  {
    (s: Double) => Vega(m, f, s, k)
  }

  /** The arbitrage-bound test the solver applies first, as fsm_option.h writes it. */
  predicate Rejected(f: real, v: real, k: real)
  {
    if k < 0.0 then v <= Max(-k - f, 0.0) || v >= k
    else if k > 0.0 then v <= Max(f - k, 0.0) || v >= f
    else false
  }

  /** The arbitrage-bound test with the put's upper bound at the economic strike -k. */
  predicate RejectedCorrected(f: real, v: real, k: real)
  {
    if k < 0.0 then v <= Max(-k - f, 0.0) || v >= -k
    else if k > 0.0 then v <= Max(f - k, 0.0) || v >= f
    else false
  }

  /** A zero initial guess, budget or tolerance selects the default. */
  function DefaultGuess(s: real): real { if s == 0.0 then 0.1 else s }
  function DefaultBudget(n: nat): nat { if n == 0 then 100 else n }
  function DefaultTolerance(m: Libm, tol: real): real { if tol == 0.0 then m.sqrt(Epsilon) else tol }

  /** Implied volatility of a put or call priced v, as fsm_option.h computes it. */
  method Implied(m: Libm, f: real, v: real, k: Finite, s: real, n: nat, tol: real) returns (r: Double)
    ensures k.v < 0.0 && (v <= Max(-k.v - f, 0.0) || v >= k.v) ==> r == NaN
    ensures k.v > 0.0 && (v <= Max(f - k.v, 0.0) || v >= f) ==> r == NaN
    ensures k.v < 0.0 ==> r == NaN
    ensures !Rejected(f, v, k.v) ==>
      r == Newton.Run(ValueAt(m, f, k), VegaAt(m, f, k), v, DefaultGuess(s), DefaultBudget(n), DefaultTolerance(m, tol))
    ensures r.Val? ==> r.v >= 0.0
  {
    if k.v < 0.0 {
      EveryPutRejected(f, v, k.v);
    }
    if Rejected(f, v, k.v) {
      return NaN;
    }
    r := Solve(m, f, v, k, s, n, tol);
  }

  /** Implied volatility with the put bound corrected to v >= -k. */
  method ImpliedCorrected(m: Libm, f: real, v: real, k: Finite, s: real, n: nat, tol: real) returns (r: Double)
    ensures RejectedCorrected(f, v, k.v) ==> r == NaN
    ensures !RejectedCorrected(f, v, k.v) ==>
      r == Newton.Run(ValueAt(m, f, k), VegaAt(m, f, k), v, DefaultGuess(s), DefaultBudget(n), DefaultTolerance(m, tol))
    ensures r.Val? ==> r.v >= 0.0
    ensures (&& m.Lawful() && f > 0.0 && s > 0.0 && k.v != 0.0 && DefaultTolerance(m, tol) >= 0.0
             && Value(m, f, Val(s), k) == Val(v) && !RejectedCorrected(f, v, k.v)) ==> r == Val(s)
  {
    if RejectedCorrected(f, v, k.v) {
      return NaN;
    }
    r := Solve(m, f, v, k, s, n, tol);
    if m.Lawful() && f > 0.0 && s > 0.0 && k.v != 0.0 && DefaultTolerance(m, tol) >= 0.0
       && Value(m, f, Val(s), k) == Val(v) {
      TrueVolatilityIsFixed(m, f, v, k, s, DefaultBudget(n), DefaultTolerance(m, tol));
    }
  }

  /** The part of both solvers after the bound test: defaults, then the Newton loop. */
  method Solve(m: Libm, f: real, v: real, k: Finite, s: real, n: nat, tol: real) returns (r: Double)
    ensures r == Newton.Run(ValueAt(m, f, k), VegaAt(m, f, k), v, DefaultGuess(s), DefaultBudget(n), DefaultTolerance(m, tol))
    ensures r.Val? ==> r.v >= 0.0
  {
    var s0, n0, tol0 := DefaultGuess(s), DefaultBudget(n), DefaultTolerance(m, tol);
    var prev, bodies;
    r, prev, bodies := Newton.Solve(ValueAt(m, f, k), VegaAt(m, f, k), v, s0, n0, tol0);
    if s0 < 0.0 {
      NonPositiveGuessFails(m, f, v, k, s0);
      Newton.NaNStops(ValueAt(m, f, k), VegaAt(m, f, k), v, s0, n0, tol0);
    }
  }

  /** Zero-strike prices and deltas are fixed by the sign bit alone, whatever the volatility. */
  lemma ZeroStrike(m: Libm, f: real, s: Double, k: Finite)
    requires k.v == 0.0
    ensures Value(m, f, s, k) == (if k.neg then Val(0.0) else Val(f))
    ensures Delta(m, f, s, k) == (if k.neg then Val(0.0) else Val(1.0))
    ensures Gamma(m, f, s, k).NaN? && Vega(m, f, s, k).NaN?
  {
  }

  /**
    Put-call parity: the value at k and at -k are both NaN or both numbers, and
    then differ by f - k for a call strike k > 0 (by -f - k for a put strike).
  */
  lemma PutCallParity(m: Libm, f: real, s: Double, k: Finite)
    requires k.v != 0.0
    ensures Value(m, f, s, k).NaN? <==> Value(m, f, s, Negate(k)).NaN?
    ensures Value(m, f, s, k).Val? ==>
      Value(m, f, s, k).v - Value(m, f, s, Negate(k)).v == (if k.v > 0.0 then f - k.v else -f - k.v)
  {
    assert RealAbs(Negate(k).v) == RealAbs(k.v);
    assert Negate(Negate(k)) == k;
  }

  /** The call delta exceeds the put delta by exactly one. */
  lemma DeltaParity(m: Libm, f: real, s: Double, k: Finite)
    requires k.v != 0.0
    ensures Delta(m, f, s, k).NaN? <==> Delta(m, f, s, Negate(k)).NaN?
    ensures Delta(m, f, s, k).Val? ==>
      Delta(m, f, s, k).v - Delta(m, f, s, Negate(k)).v == (if k.v > 0.0 then 1.0 else -1.0)
  {
    assert RealAbs(Negate(k).v) == RealAbs(k.v);
    assert Negate(Negate(k)) == k;
  }

  /** Gamma, vega and theta see the strike only through |k|. */
  lemma GreeksSeeOnlyAbsoluteStrike(m: Libm, f: real, s: Double, k: Finite, k': Finite, sigma: real, t: real)
    requires RealAbs(k.v) == RealAbs(k'.v)
    ensures Gamma(m, f, s, k) == Gamma(m, f, s, k')
    ensures Vega(m, f, s, k) == Vega(m, f, s, k')
    ensures Theta(m, f, sigma, k, t) == Theta(m, f, sigma, k', t)
  {
  }

  /** With a lawful library gamma and vega are positive wherever they are numbers. */
  lemma GreeksPositive(m: Libm, f: real, s: Double, k: Finite)
    requires m.Lawful()
    ensures Gamma(m, f, s, k).Val? ==> Gamma(m, f, s, k).v > 0.0
    ensures Vega(m, f, s, k).Val? ==> Vega(m, f, s, k).v > 0.0
  {
    var x := Moneyness(m, f, s, RealAbs(k.v));
    if x.Val? {
      var d := Normal.Density(m, x.v - s.v);
      assert d > 0.0;
      assert f * s.v > 0.0;
    }
  }

  /** The Black identity vega = f^2 s gamma. */
  lemma VegaGamma(m: Libm, f: real, s: Double, k: Finite)
    ensures Vega(m, f, s, k).Val? <==> Gamma(m, f, s, k).Val?
    ensures Vega(m, f, s, k).Val? ==> Vega(m, f, s, k).v == f * f * s.v * Gamma(m, f, s, k).v
  {
    var x := Moneyness(m, f, s, RealAbs(k.v));
    if x.Val? {
      var d := Normal.Density(m, x.v - s.v);
      Rescale(d, f, s.v);
    }
  }

  lemma Rescale(d: real, f: real, s: real)
    requires f > 0.0 && s > 0.0
    ensures d * f == f * f * s * (d / (f * s))
  {
    assert f * f * s * (d / (f * s)) == f * ((f * s) * (d / (f * s)));
  }

  /** Every put target passes the first half of the test or fails its second half v >= k. */
  lemma EveryPutRejected(f: real, v: real, k: real)
    requires k < 0.0
    ensures Rejected(f, v, k)
  {
  }

  /** The corrected test accepts a put price exactly when it lies strictly between its arbitrage bounds. */
  lemma CorrectedPutBounds(f: real, v: real, k: real)
    requires k < 0.0
    ensures !RejectedCorrected(f, v, k) <==> Max(-k - f, 0.0) < v < -k
  {
  }

  /** From a non-positive initial guess the first step is already NaN. */
  lemma NonPositiveGuessFails(m: Libm, f: real, v: real, k: Finite, s: real)
    requires s <= 0.0
    ensures Newton.Next(ValueAt(m, f, k), VegaAt(m, f, k), v, Val(s)).NaN?
  {
    assert Vega(m, f, Val(s), k).NaN?;
  }

  /** The volatility that prices v is a fixed point of the solver. */
  lemma TrueVolatilityIsFixed(m: Libm, f: real, v: real, k: Finite, s: real, n: nat, tol: real)
    requires m.Lawful() && f > 0.0 && s > 0.0 && k.v != 0.0 && tol >= 0.0
    requires Value(m, f, Val(s), k) == Val(v)
    ensures Newton.Run(ValueAt(m, f, k), VegaAt(m, f, k), v, s, n, tol) == Val(s)
  {
    GreeksPositive(m, f, Val(s), k);
    Newton.FixedPoint(ValueAt(m, f, k), VegaAt(m, f, k), v, s, n, tol);
  }
}
