/**
  The damped Newton-Raphson iteration behind both implied-volatility solvers.

  Given a pricing function `value` and its volatility derivative `vega`, a
  step from volatility s proposes s - (value(s) - v)/vega(s); a negative
  proposal is replaced by s/2. The iteration stops when two consecutive
  iterates are within the tolerance, and fails with NaN once the iteration
  budget is exhausted. A NaN iterate stops the loop at once, because every
  comparison with NaN is false.
*/
module Newton {
  import opened Ieee

  /** One step of the iteration from s, with the halving rule for a negative proposal. */
  function Next(value: Double -> Double, vega: Double -> Double, v: real, s: Double): (r: Double)
    ensures Le(Val(0.0), s) ==> r.NaN? || r.v >= 0.0
  {
    var proposal := Sub(s, Div(Sub(value(s), Val(v)), vega(s)));
    if Lt(proposal, Val(0.0)) then Div(s, Val(2.0)) else proposal
  }

  /**
    The loop as a recursive definition: `prev` and `cur` are the last two
    iterates and `n` the iterations left before the solver gives up.
  */
  function Iterate(value: Double -> Double, vega: Double -> Double, v: real,
                   prev: Double, cur: Double, tol: real, n: nat): Double
    decreases n
  {
    if !Gt(Abs(Sub(cur, prev)), Val(tol)) then cur
    else if n == 0 then NaN
    else Iterate(value, vega, v, cur, Next(value, vega, v, cur), tol, n - 1)
  }

  /** The whole solve from the initial guess s with budget n. */
  function Run(value: Double -> Double, vega: Double -> Double, v: real, s: real, n: nat, tol: real): Double
  {
    Iterate(value, vega, v, Val(s), Next(value, vega, v, Val(s)), tol, n)
  }

  /**
    The solver loop. Besides the result it returns the iterate before it and
    the number of times the loop body ran.
  */
  method Solve(value: Double -> Double, vega: Double -> Double, v: real, s0: real, n0: nat, tol: real)
    returns (r: Double, prev: Double, bodies: nat)
    ensures r == Run(value, vega, v, s0, n0, tol)
    ensures bodies <= n0 + 1
    ensures bodies == n0 + 1 ==> r == NaN
    ensures r.Val? ==> prev.Val? && RealAbs(r.v - prev.v) <= tol && r == Next(value, vega, v, prev)
    ensures s0 >= 0.0 && r.Val? ==> r.v >= 0.0
  {
    var last := Val(s0);
    var cur := Next(value, vega, v, last);
    var n: nat := n0;
    bodies := 0;
    while Gt(Abs(Sub(cur, last)), Val(tol))
      invariant n + bodies == n0
      invariant last.Val? && cur == Next(value, vega, v, last)
      invariant Iterate(value, vega, v, last, cur, tol, n) == Run(value, vega, v, s0, n0, tol)
      invariant s0 >= 0.0 ==> last.v >= 0.0
      decreases n
    {
      var t := Next(value, vega, v, cur);
      last, cur := cur, t;
      bodies := bodies + 1;
      if n == 0 {
        return NaN, last, bodies;
      }
      n := n - 1;
    }
    return cur, last, bodies;
  }

  /**
    A volatility that already prices the target exactly is a fixed point: the
    solver started there returns it at once, whatever the budget.
  */
  lemma FixedPoint(value: Double -> Double, vega: Double -> Double, v: real, s: real, n: nat, tol: real)
    requires value(Val(s)) == Val(v) && vega(Val(s)).Val? && vega(Val(s)).v != 0.0
    requires s >= 0.0 && tol >= 0.0
    ensures Run(value, vega, v, s, n, tol) == Val(s)
  {
    assert Next(value, vega, v, Val(s)) == Val(s);
  }

  /** A NaN step ends the iteration with NaN, whatever the budget. */
  lemma NaNStops(value: Double -> Double, vega: Double -> Double, v: real, s: real, n: nat, tol: real)
    requires Next(value, vega, v, Val(s)).NaN?
    ensures Run(value, vega, v, s, n, tol) == NaN
  {
  }
}
