/**
  The recombining binomial lattice for the forward. After j of n steps with
  i down moves the forward is F_j(i) = f exp(s (j - 2 i)) / cosh(s)^j, and the
  value of the payoff nu is the plain average of the two successor nodes,
  down to nu(F_n) at expiration.
*/
module Binomial {
  import opened Ieee

  /** The forward at node (i, j). */
  function Level(m: Libm, i: int, j: int, f: real, s: real): real
    requires m.Lawful()
  {
    CoshPositive(m, s);
    f * Growth(m, i, j, s) / m.pow(Cosh(m, s), j as real)
  }

  /** s (j - 2 i): j steps, i of them down. */
  function Exponent(i: int, j: int, s: real): real
  {
    s * (j as real - 2.0 * i as real)
  }

  /** exp(s (j - 2 i)), the move of the forward to node (i, j). */
  function Growth(m: Libm, i: int, j: int, s: real): real
  {
    m.exp(Exponent(i, j, s))
  }

  lemma CoshPositive(m: Libm, s: real)
    requires m.Lawful()
    ensures Cosh(m, s) > 0.0
  {
    assert m.exp(s) > 0.0 && m.exp(-s) > 0.0;
  }

  /**
    Value at node (i, j) of the payoff nu at step n. The American flag selects
    early exercise, which is not implemented: the flag has no effect.
  */
  function Value(m: Libm, i: int, j: int, n: int, f: real, s: real, nu: real -> real, american: bool): real
    requires m.Lawful() && j <= n
    decreases n - j
  {
    if j == n then nu(Level(m, i, j, f, s))
    else
      var v := (Value(m, i, j + 1, n, f, s, nu, american) + Value(m, i + 1, j + 1, n, f, s, nu, american)) / 2.0;
      if american then v else v
  }

  /** The put payoff max(-k - F, 0), for a put strike k < 0. */
  function PutPayoff(k: real): (nu: real -> real)
    ensures forall F :: nu(F) >= 0.0
  {
    var nu := (F: real) => Max(-k - F, 0.0);
    assert forall F :: nu(F) == Max(-k - F, 0.0);
    nu
  }

  /** The call payoff max(F - k, 0), for a call strike k > 0. */
  function CallPayoff(k: real): (nu: real -> real)
    ensures forall F :: nu(F) >= 0.0
  {
    var nu := (F: real) => Max(F - k, 0.0);
    assert forall F :: nu(F) == Max(F - k, 0.0);
    nu
  }

  /** Put (k < 0) or call (k > 0) value at node (i, j); a zero strike is an error. */
  function ValueStrike(m: Libm, i: int, j: int, n: int, f: real, s: real, k: real, american: bool): (r: Double)
    requires m.Lawful() && j <= n
    ensures r.NaN? <==> k == 0.0
    ensures r.Val? ==> r.v >= 0.0
  {
    if k < 0.0 then
      NonNegative(m, i, j, n, f, s, PutPayoff(k), american);
      Val(Value(m, i, j, n, f, s, PutPayoff(k), american))
    else if k > 0.0 then
      NonNegative(m, i, j, n, f, s, CallPayoff(k), american);
      Val(Value(m, i, j, n, f, s, CallPayoff(k), american))
    else NaN
  }

  /** The American flag changes nothing. */
  lemma {:induction false} AmericanNoOp(m: Libm, i: int, j: int, n: int, f: real, s: real, nu: real -> real)
    requires m.Lawful() && j <= n
    ensures Value(m, i, j, n, f, s, nu, true) == Value(m, i, j, n, f, s, nu, false)
    decreases n - j
  {
    if j < n {
      AmericanNoOp(m, i, j + 1, n, f, s, nu);
      AmericanNoOp(m, i + 1, j + 1, n, f, s, nu);
    }
  }

  /**
    Every node value lies between the least and the greatest payoff over the
    terminal nodes it can reach, i .. i + (n - j).
  */
  lemma {:induction false} Bounds(m: Libm, i: int, j: int, n: int, f: real, s: real, nu: real -> real,
                                  american: bool, lo: real, hi: real)
    requires m.Lawful() && j <= n
    requires forall ii :: i <= ii <= i + (n - j) ==> lo <= nu(Level(m, ii, n, f, s)) <= hi
    ensures lo <= Value(m, i, j, n, f, s, nu, american) <= hi
    decreases n - j
  {
    if j < n {
      Bounds(m, i, j + 1, n, f, s, nu, american, lo, hi);
      Bounds(m, i + 1, j + 1, n, f, s, nu, american, lo, hi);
    }
  }

  /** A non-negative payoff has a non-negative value. */
  lemma NonNegative(m: Libm, i: int, j: int, n: int, f: real, s: real, nu: real -> real, american: bool)
    requires m.Lawful() && j <= n
    requires forall F :: nu(F) >= 0.0
    ensures Value(m, i, j, n, f, s, nu, american) >= 0.0
  {
    var hi := MaxTerminal(m, i, n - j, n, f, s, nu);
    Bounds(m, i, j, n, f, s, nu, american, 0.0, hi);
  }

  /** The greatest payoff over the terminal nodes i .. i + w. */
  function MaxTerminal(m: Libm, i: int, w: nat, n: int, f: real, s: real, nu: real -> real): (hi: real)
    requires m.Lawful()
    ensures forall ii :: i <= ii <= i + w ==> nu(Level(m, ii, n, f, s)) <= hi
    decreases w
  {
    if w == 0 then nu(Level(m, i, n, f, s))
    else Max(MaxTerminal(m, i, w - 1, n, f, s, nu), nu(Level(m, i + w, n, f, s)))
  }

  /** Valuation is linear: the difference of two values is the value of the difference of the payoffs. */
  lemma {:induction false} Linearity(m: Libm, i: int, j: int, n: int, f: real, s: real,
                                     nu: real -> real, mu: real -> real, g: real -> real, american: bool)
    requires m.Lawful() && j <= n
    requires forall F :: g(F) == nu(F) - mu(F)
    ensures Value(m, i, j, n, f, s, nu, american) - Value(m, i, j, n, f, s, mu, american)
         == Value(m, i, j, n, f, s, g, american)
    decreases n - j
  {
    if j < n {
      Linearity(m, i, j + 1, n, f, s, nu, mu, g, american);
      Linearity(m, i + 1, j + 1, n, f, s, nu, mu, g, american);
    }
  }

  /** A constant payoff is worth that constant at every node. */
  lemma {:induction false} ConstantPayoff(m: Libm, i: int, j: int, n: int, f: real, s: real, c: real,
                                          nu: real -> real, american: bool)
    requires m.Lawful() && j <= n
    requires forall F :: nu(F) == c
    ensures Value(m, i, j, n, f, s, nu, american) == c
    decreases n - j
  {
    if j < n {
      ConstantPayoff(m, i, j + 1, n, f, s, c, nu, american);
      ConstantPayoff(m, i + 1, j + 1, n, f, s, c, nu, american);
    }
  }

  /** exp(a + b) = exp(a) exp(b) at one pair of points. */
  ghost predicate ExpAdds(m: Libm, a: real, b: real)
  {
    m.exp(a + b) == m.exp(a) * m.exp(b)
  }

  /** pow(c, j + 1) = pow(c, j) c at one positive base c and integer exponent j. */
  ghost predicate PowSteps(m: Libm, c: real, j: int)
  {
    c > 0.0 ==> m.pow(c, (j + 1) as real) == m.pow(c, j as real) * c
  }

  /**
    The laws of the library the lattice step relies on beyond Lawful: exp turns
    sums into products, and pow at an integer exponent is repeated multiplication.
  */
  ghost predicate Exponential(m: Libm)
  {
    && (forall a, b :: ExpAdds(m, a, b))
    && (forall c, j :: PowSteps(m, c, j))
  }

  /** Each forward is the average of its two successors. */
  lemma LevelAverage(m: Libm, i: int, j: int, f: real, s: real)
    requires m.Lawful() && Exponential(m)
    ensures Level(m, i, j, f, s) == (Level(m, i, j + 1, f, s) + Level(m, i + 1, j + 1, f, s)) / 2.0
  {
    CoshPositive(m, s);
    ExponentStep(i, j, s);
    NextLevel(m, i, i, j, f, s, s);
    NextLevel(m, i, i + 1, j, f, s, -s);
    Mix(Level(m, i, j, f, s), m.exp(s), m.exp(-s), Cosh(m, s));
  }

  /**
    A step from (i, j) that moves the exponent by h multiplies the forward by
    exp(h)/cosh(s): h = s for a step up, h = -s for a step down.
  */
  lemma NextLevel(m: Libm, i: int, i': int, j: int, f: real, s: real, h: real)
    requires m.Lawful() && Exponential(m)
    requires Exponent(i', j + 1, s) == Exponent(i, j, s) + h
    ensures Level(m, i', j + 1, f, s) == Level(m, i, j, f, s) * m.exp(h) / Cosh(m, s)
  {
    assert ExpAdds(m, Exponent(i, j, s), h);
    assert PowSteps(m, Cosh(m, s), j);
    LevelRatio(m, i, i', j, f, s, m.exp(h));
  }

  /** When the growth to a successor is u times the growth to (i, j), so is its forward, up to one factor cosh(s). */
  lemma LevelRatio(m: Libm, i: int, i': int, j: int, f: real, s: real, u: real)
    requires m.Lawful() && PowSteps(m, Cosh(m, s), j)
    requires Growth(m, i', j + 1, s) == Growth(m, i, j, s) * u
    ensures Level(m, i', j + 1, f, s) == Level(m, i, j, f, s) * u / Cosh(m, s)
  {
    CoshPositive(m, s);
    Regroup(f, Growth(m, i, j, s), u, m.pow(Cosh(m, s), j as real), Cosh(m, s));
  }

  lemma Regroup(f: real, e: real, u: real, p: real, c: real)
    requires p > 0.0 && c > 0.0
    ensures f * (e * u) / (p * c) == (f * e / p) * u / c
  {
  }

  lemma Mix(x: real, up: real, down: real, c: real)
    requires c > 0.0 && c == (up + down) / 2.0
    ensures x == (x * up / c + x * down / c) / 2.0
  {
    assert x * up / c + x * down / c == x * (up + down) / c;
  }

  /** A step up adds s to the exponent, a step down subtracts it. */
  lemma ExponentStep(i: int, j: int, s: real)
    ensures Exponent(i, j + 1, s) == Exponent(i, j, s) + s
    ensures Exponent(i + 1, j + 1, s) == Exponent(i, j, s) + -s
  {
  }

  /** The forward is a martingale on the lattice: its value at every node is that node's forward. */
  lemma {:induction false} Martingale(m: Libm, i: int, j: int, n: int, f: real, s: real,
                                      nu: real -> real, american: bool)
    requires m.Lawful() && Exponential(m) && j <= n
    requires forall F :: nu(F) == F
    ensures Value(m, i, j, n, f, s, nu, american) == Level(m, i, j, f, s)
    decreases n - j
  {
    if j < n {
      Martingale(m, i, j + 1, n, f, s, nu, american);
      Martingale(m, i + 1, j + 1, n, f, s, nu, american);
      LevelAverage(m, i, j, f, s);
    }
  }

  /**
    Put-call parity on the lattice: the call at strike k > 0 less the put at the
    same economic strike (signed -k) is worth f - k at the root.
  */
  lemma PutCallParity(m: Libm, n: nat, f: real, s: real, k: real, american: bool)
    requires m.Lawful() && Exponential(m) && k > 0.0
    ensures ValueStrike(m, 0, 0, n, f, s, k, american).v - ValueStrike(m, 0, 0, n, f, s, -k, american).v == f - k
  {
    var forward := (F: real) => F;
    var strike := (F: real) => k;
    var diff := (F: real) => F - k;
    forall F ensures diff(F) == CallPayoff(k)(F) - PutPayoff(-k)(F) {
      Hockey(F, k);
    }
    Linearity(m, 0, 0, n, f, s, CallPayoff(k), PutPayoff(-k), diff, american);
    Linearity(m, 0, 0, n, f, s, forward, strike, diff, american);
    Martingale(m, 0, 0, n, f, s, forward, american);
    ConstantPayoff(m, 0, 0, n, f, s, k, strike, american);
    RootLevel(m, f, s);
  }

  /** The forward at the root is f. */
  lemma RootLevel(m: Libm, f: real, s: real)
    requires m.Lawful()
    ensures Level(m, 0, 0, f, s) == f
  {
    assert Exponent(0, 0, s) == 0.0;
    assert Growth(m, 0, 0, s) == 1.0;
    CoshPositive(m, s);
    assert m.pow(Cosh(m, s), 0 as real) == 1.0;
  }

  /** max(F - k, 0) - max(k - F, 0) = F - k */
  lemma Hockey(F: real, k: real)
    ensures Max(F - k, 0.0) - Max(-(-k) - F, 0.0) == F - k
  {
  }
}
