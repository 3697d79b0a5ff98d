/**
  The older, self-contained Black analytics: a normal variate whose derivative
  table stops at the density, and put (k < 0) / call (k >= 0) pricing without
  signed-zero handling. The same normal variate and moneyness are repeated
  unchanged in the put-only analytics of module XllTemplate.
*/
module BsmOption {
  import opened Ieee
  import Normal
  import Option
  import Newton

  /** P(X <= x) for n = 0 and the density for n = 1; higher orders are not implemented and give NaN. */
  function Cdf(m: Libm, x: Double, n: int): Double
  {
    match x
    case NaN => NaN
    case Val(y) =>
      if n == 0 then Val((1.0 + m.erf(y / Normal.Sqrt2)) / 2.0)
      else
        var phi := Normal.Density(m, y);
        if n == 1 then Val(phi) else NaN
  }

  /** P_s(X <= x) = P(X <= x - s) and its derivatives; `ns % 2` is nonzero exactly for odd ns, of either sign. */
  function ShiftedCdf(m: Libm, x: Double, s: Double, nx: int, ns: int): Double
  {
    Mul(Cdf(m, Sub(x, s), nx + ns), Val(if ns % 2 != 0 then -1.0 else 1.0))
  }

  /** kappa(s) = s^2/2 and its derivatives; every other order, negative ones included, gives 0. */
  function Cumulant(s: Double, n: int): Double
  {
    if n == 0 then Div(Mul(s, s), Val(2.0))
    else if n == 1 then s
    else if n == 2 then Val(1.0)
    else Val(0.0)
  }

  function Moneyness(m: Libm, f: real, s: Double, k: real): Double
  {
    if f <= 0.0 || Le(s, Val(0.0)) || k <= 0.0 then NaN
    else Div(Add(Val(m.log(k / f)), Cumulant(s, 0)), s)
  }

  /**
    Put (k < 0) or call (k > 0) value. A zero strike takes the call branch,
    which asks for the value at -0 and takes the call branch again without
    end, so the strike must be nonzero.
  */
  function Value(m: Libm, f: real, s: Double, k: real): Double
    requires k != 0.0
    decreases if k < 0.0 then 0 else 1
  {
    if k < 0.0 then
      var x := Moneyness(m, f, s, -k);
      Sub(Mul(Val(-k), Cdf(m, x, 0)), Mul(Val(f), ShiftedCdf(m, x, s, 0, 0)))
    else
      Sub(Add(Value(m, f, s, -k), Val(f)), Val(k))
  }

  /** Put (k < 0) or call (k > 0) delta; the same zero-strike recursion as Value. */
  function Delta(m: Libm, f: real, s: Double, k: real): Double
    requires k != 0.0
    decreases if k < 0.0 then 0 else 1
  {
    if k < 0.0 then
      var x := Moneyness(m, f, s, -k);
      Neg(ShiftedCdf(m, x, s, 0, 0))
    else
      Add(Delta(m, f, s, -k), Val(1.0))
  }

  /** Vega, at the strike |k|. */
  function Vega(m: Libm, f: real, s: Double, k: real): Double
  {
    var x := Moneyness(m, f, s, RealAbs(k));
    Mul(Val(-f), ShiftedCdf(m, x, s, 0, 1))
  }

  /** Value as a function of the volatility alone, for the solver. */
  function ValueAt(m: Libm, f: real, k: real): Double -> Double
    requires k != 0.0
  {
    (s: Double) => Value(m, f, s, k)
  }

  /** Vega as a function of the volatility alone, for the solver. */
  function VegaAt(m: Libm, f: real, k: real): Double -> Double
  {
    (s: Double) => Vega(m, f, s, k)
  }

  /**
    Implied volatility of a put or call priced v: the defaults of the newer
    solver, then the same Newton loop, with no arbitrage-bound test first.
  */
  method Implied(m: Libm, f: real, v: real, k: real, s: real, n: nat, tol: real) returns (r: Double)
    requires k != 0.0
    ensures r == Newton.Run(ValueAt(m, f, k), VegaAt(m, f, k), v,
                            Option.DefaultGuess(s), Option.DefaultBudget(n), Option.DefaultTolerance(m, tol))
    ensures r.Val? ==> r.v >= 0.0
    ensures (&& m.Lawful() && f > 0.0 && s > 0.0 && Option.DefaultTolerance(m, tol) >= 0.0
             && Value(m, f, Val(s), k) == Val(v)) ==> r == Val(s)
  {
    var s0, n0, tol0 := Option.DefaultGuess(s), Option.DefaultBudget(n), Option.DefaultTolerance(m, tol);
    var prev, bodies;
    r, prev, bodies := Newton.Solve(ValueAt(m, f, k), VegaAt(m, f, k), v, s0, n0, tol0);
    if s0 < 0.0 {
      VegaAgrees(m, f, Val(s0), k);
      Newton.NaNStops(ValueAt(m, f, k), VegaAt(m, f, k), v, s0, n0, tol0);
    }
    if m.Lawful() && f > 0.0 && s > 0.0 && tol0 >= 0.0 && Value(m, f, Val(s), k) == Val(v) {
      VegaAgrees(m, f, Val(s), k);
      Option.GreeksPositive(m, f, Val(s), FromReal(k));
      Newton.FixedPoint(ValueAt(m, f, k), VegaAt(m, f, k), v, s, n0, tol0);
    }
  }

  /** The derivative table agrees with the full one where it is implemented and is NaN beyond it. */
  lemma CdfOrders(m: Libm, x: Double, n: int)
    ensures 0 <= n <= 1 ==> Cdf(m, x, n) == Normal.N(m, x, n)
    ensures (n < 0 || n >= 2) ==> Cdf(m, x, n).NaN?
  {
  }

  /** The shifted distribution function agrees with the full one up to total order 1. */
  lemma ShiftedCdfOrders(m: Libm, x: Double, s: Double, nx: int, ns: int)
    requires nx >= 0 && ns >= 0
    ensures nx + ns <= 1 ==> ShiftedCdf(m, x, s, nx, ns) == Normal.Cdf(m, x, s, nx, ns)
    ensures nx + ns >= 2 ==> ShiftedCdf(m, x, s, nx, ns).NaN?
  {
  }

  /** The cumulant table is the full one, extended by 0 to negative orders. */
  lemma CumulantOrders(s: Double, n: int)
    ensures n >= 0 ==> Cumulant(s, n) == Normal.Cumulant(s, n)
    ensures n < 0 ==> Cumulant(s, n) == Val(0.0)
  {
  }

  /** Moneyness is the newer one: NaN exactly outside f, s, k > 0. */
  lemma MoneynessAgrees(m: Libm, f: real, s: Double, k: real)
    ensures Moneyness(m, f, s, k) == Option.Moneyness(m, f, s, k)
  {
  }

  /** For a nonzero strike, value and delta are those of the signed-zero aware analytics. */
  lemma ValueAgrees(m: Libm, f: real, s: Double, k: real)
    requires k != 0.0
    ensures Value(m, f, s, k) == Option.Value(m, f, s, FromReal(k))
    ensures Delta(m, f, s, k) == Option.Delta(m, f, s, FromReal(k))
    decreases if k < 0.0 then 0 else 1
  {
    if k < 0.0 {
      var x := Moneyness(m, f, s, -k);
      MoneynessAgrees(m, f, s, -k);
      assert Sub(x, Val(0.0)) == x;
    } else {
      ValueAgrees(m, f, s, -k);
      assert Negate(FromReal(k)) == FromReal(-k);
    }
  }

  /** Put-call parity and delta parity, inherited through ValueAgrees. */
  lemma PutCallParity(m: Libm, f: real, s: Double, k: real)
    requires k > 0.0
    ensures Value(m, f, s, k).NaN? <==> Value(m, f, s, -k).NaN?
    ensures Value(m, f, s, k).Val? ==> Value(m, f, s, k).v - Value(m, f, s, -k).v == f - k
    ensures Delta(m, f, s, k).Val? ==> Delta(m, f, s, -k).Val? && Delta(m, f, s, k).v - Delta(m, f, s, -k).v == 1.0
  {
    ValueAgrees(m, f, s, k);
    ValueAgrees(m, f, s, -k);
    assert Negate(FromReal(k)) == FromReal(-k);
    Option.PutCallParity(m, f, s, FromReal(k));
    Option.DeltaParity(m, f, s, FromReal(k));
  }

  /** Vega is the newer one at every strike, zero included, so it sees only |k|. */
  lemma VegaAgrees(m: Libm, f: real, s: Double, k: real)
    ensures Vega(m, f, s, k) == Option.Vega(m, f, s, FromReal(k))
    ensures Vega(m, f, s, k) == Vega(m, f, s, -k)
  {
    assert FAbs(FromReal(k)).v == RealAbs(k);
    assert Mul(Val(-f), Val(-1.0)) == Val(f);
    MoneynessAgrees(m, f, s, RealAbs(k));
  }

  /** How a recursive evaluation ends: with a value, or by running out of call stack. */
  datatype Outcome = Returns(d: Double) | StackExhausted

  /**
    The value recursion as written, for every strike, evaluated with a call
    stack of the given depth.
  */
  function ValueWithStack(m: Libm, f: real, s: Double, k: real, depth: nat): Outcome
    decreases depth
  {
    if k < 0.0 then Returns(Value(m, f, s, k))
    else if depth == 0 then StackExhausted
    else match ValueWithStack(m, f, s, -k, depth - 1)
      case StackExhausted => StackExhausted
      case Returns(p) => Returns(Sub(Add(p, Val(f)), Val(k)))
  }

  /** A zero strike exhausts every call stack: the recursion never reaches a put. */
  lemma {:induction false} ZeroStrikeExhaustsStack(m: Libm, f: real, s: Double, depth: nat)
    ensures ValueWithStack(m, f, s, 0.0, depth) == StackExhausted
    decreases depth
  {
    if depth > 0 {
      ZeroStrikeExhaustsStack(m, f, s, depth - 1);
    }
  }

  /** Every nonzero strike returns Value once the stack holds two frames. */
  lemma NonzeroStrikeReturns(m: Libm, f: real, s: Double, k: real, depth: nat)
    requires k != 0.0 && depth >= 1
    ensures ValueWithStack(m, f, s, k, depth) == Returns(Value(m, f, s, k))
  {
    if k > 0.0 {
      assert ValueWithStack(m, f, s, -k, depth - 1) == Returns(Value(m, f, s, -k));
    }
  }
}
