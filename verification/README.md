# Option analytics of FRE6233, modelled in Dafny

The repository FRE6233 holds a course's option analytics in C++. This project
models its computational core, with the transcendental functions left abstract:

- **The standard normal variate** (`Normal`). It covers the Hermite polynomials,
  the distribution function N and its derivatives, the Esscher-shifted distribution
  function P_s(X <= x) = P(X <= x - s), and the derivatives of the cumulant
  kappa(s) = s^2/2.
- **The forward (Black) analytics** (`Option`). They cover moneyness, value, delta,
  gamma, vega and theta of a put (strike k < 0) or a call (k > 0), and the
  implied-volatility solver. Its Newton-Raphson loop lives in `Newton`.
- **The Black-Scholes/Merton mapping** (`Bsm`). A spot, rate, volatility and contract
  become a discount factor, a forward, a total volatility and a strike.
- **Two older copies of the analytics.**
  - `BsmOption` is self-contained: its derivative table stops at the density, and
    it has no sign-bit handling at a zero strike.
  - `XllTemplate` is a put-only add-in template. Its normal variate and moneyness
    (xll_template.h:25-69) are the ones of `BsmOption` repeated unchanged, so they
    are modelled once there.
- **The recombining binomial lattice** (`Binomial`). It covers valuation by backward
  averaging, and put/call payoffs chosen by the strike's sign.
- **A piecewise flat, left-continuous curve** (`Pwflat`), read with `std::lower_bound`.
- **The numerically stable running mean of Monte Carlo draws** (`MonteCarlo`).

Doubles are `Ieee.Double`, which is either `NaN` or a real value. The operators
propagate NaN, and every comparison involving NaN is false, as in IEEE 754.

A strike of the forward analytics is `Ieee.Finite`: a real together with its sign
bit. The source chooses the zero-strike value by `signbit`. The BSM put also negates
its strike, which turns +0 into -0.

`erf`, `exp`, `log`, `sqrt` and `pow` are fields of `Ieee.Libm`, passed as a
parameter. The facts assumed about them are:

- `Libm.Lawful`: erf(0) = 0, exp(0) = 1, exp > 0, pow(x, 0) = 1, and pow(x, y) > 0
  for x > 0.
- For the lattice step and everything built on it, `Binomial.Exponential`:
  exp(a + b) = exp(a) exp(b), and pow(c, j + 1) = pow(c, j) c for c > 0 and every
  integer j.
- `cosh` is not a field of `Libm`. `Ieee.Cosh` defines it as (exp(x) + exp(-x))/2,
  which a floating-point `cosh` meets only approximately.

## Model

| member | source | states |
|---|---|---|
| Normal.N | fms_variate_normal.h:32-46 | NaN exactly for a NaN argument; every order n >= 1 is the (n-1)-th derivative of the density, phi(x) H_{n-1}(x) (-1)^(n-1) |
| Normal.Cumulant | fms_variate_normal.h:55-68 | the cumulant table is NaN exactly when s is NaN at order 0 or 1; it is a number whenever s is, and at every order of at least 2 |
| Normal.CumulantTable | fms_variate_normal.h:55-68 | at every s the table holds kappa(s) = s^2/2, kappa'(s) = s, kappa''(s) = 1 and 0 at every order from 3 on |
| Normal.HermiteLowOrders | fms_variate_normal.t.cpp:13-28 | H_0 = 1, H_1 = x, H_2 = x^2 - 1 and H_3 = x^3 - 3x for every x |
| Normal.HermiteRecurrence | fms_variate_normal.h:17-29 | H_{n+1}(x) = x H_n(x) - n H_{n-1}(x) for every n >= 1 |
| Normal.HermiteParity | fms_variate_normal.h:19-29 | H_n is an even function for even n and an odd one for odd n |
| Normal.HermiteOddVanishesAtZero | fms_variate_normal.h:19-29 | every Hermite polynomial of odd degree vanishes at 0 |
| Normal.DensityDerivatives | fms_variate_normal.h:38-45 | the second derivative is -x times the first: N(x, 2) = -x N(x, 1) |
| Normal.AtZero | fms_variate_normal.t.cpp:40-42 | from erf(0) = 0 and exp(0) = 1 alone: N(0) = 1/2, N(0, 1) = 1/sqrt(2 pi), and every even order n >= 2 is 0 at 0 |
| Normal.Reflection | fms_variate_normal.h:38-45 | reflecting x multiplies the n-th derivative by (-1)^(n-1) |
| Normal.EsscherShift | fms_variate_normal.h:48-52 | the shifted distribution function depends only on x - kappa'(s), on nx + ns and on the parity of ns, and equals N(x - s, nx + ns) negated for odd ns |
| Normal.CumulantDifferences | fms_variate_normal.h:54-68 | each table entry's symmetric difference quotient in s is exactly the next entry; with the anchor kappa(s) = s^2/2 of Normal.CumulantTable this makes the table the derivatives of s^2/2 |
| Newton.Next | fsm_option.h:116-119 | from a non-negative iterate the next one is NaN or non-negative |
| Newton.Solve | fsm_option.h:114-134 | the loop agrees with the recursive iteration; its body runs at most n + 1 times, and the (n+1)-th run gives NaN; a number it returns is within tol of the iterate before it and is that iterate's Newton step; from a non-negative guess a number it returns is non-negative |
| Newton.FixedPoint | fsm_option.h:114-134 | a volatility that prices the target exactly, with a nonzero vega, is returned at once for every budget |
| Newton.NaNStops | fsm_option.h:120 | a NaN step ends the iteration with NaN for every budget |
| Option.Moneyness | fsm_option.h:21-28 | NaN exactly when f <= 0, s <= 0 (or NaN) or k <= 0; otherwise (log(k/f) + s^2/2)/s |
| Option.Value | fsm_option.h:31-45 | for a nonzero strike the value is NaN exactly when the moneyness at abs(k) is |
| Option.Delta | fsm_option.h:47-61 | for a nonzero strike the delta is NaN exactly when the moneyness at abs(k) is |
| Option.Gamma | fsm_option.h:63-69 | NaN exactly when the moneyness at abs(k) is; otherwise phi(x - s)/(f s) |
| Option.Vega | fsm_option.h:71-77 | NaN exactly when the moneyness at abs(k) is; otherwise f phi(x - s), the sign flip of the s-derivative cancelling the leading minus |
| Option.Theta | fsm_option.h:79-83 | NaN for a negative time and at a zero strike |
| Option.Implied | fsm_option.h:85-135 | the arbitrage-bound test as written: a call outside max(f - k, 0) < v < f gives NaN; every put gives NaN; otherwise the defaulted Newton solve; a number it returns is non-negative |
| Option.ImpliedCorrected | fsm_option.h:85-135 | the solver with the put bound v < -k: NaN outside the bounds, the defaulted Newton solve inside them, and the true volatility returned unchanged when it is the guess and the tolerance, after its default, is not negative |
| Option.Solve | fsm_option.h:104-134 | zero guess, budget and tolerance become 0.1, 100 and sqrt(epsilon); the result is the Newton iteration from there, and a number it returns is non-negative |
| Option.ZeroStrike | fsm_option.h:43-44 | at a zero strike value and delta are chosen by the sign bit alone (0 or f, 0 or 1), whatever the volatility; gamma and vega are NaN |
| Option.PutCallParity | fsm_option.h:38-41 | value at k and at -k are NaN together, and otherwise differ by f - k for a call strike k > 0 |
| Option.DeltaParity | fsm_option.h:55-58 | call delta and put delta are NaN together, and otherwise differ by exactly one |
| Option.GreeksSeeOnlyAbsoluteStrike | fsm_option.h:63-83 | gamma, vega and theta agree at any two strikes of equal absolute value |
| Option.GreeksPositive | fsm_option.h:63-77 | with a lawful library, gamma and vega are positive wherever they are numbers |
| Option.VegaGamma | fsm_option.h:63-77 | vega and gamma are numbers together, and vega = f^2 s gamma |
| Option.EveryPutRejected | fsm_option.h:91-95 | the put test as written rejects every target price |
| Option.CorrectedPutBounds | fsm_option.h:89-95 | the corrected test accepts a put price exactly when max(-k - f, 0) < v < -k |
| Option.NonPositiveGuessFails | fsm_option.h:114-119 | from a non-positive guess the first Newton step is NaN |
| Option.TrueVolatilityIsFixed | fsm_option.h:114-134 | the volatility that prices v is a fixed point of the solver for every budget and every non-negative tolerance |
| Bsm.Discount | fsm_option.h:153 | the discount factor is positive, and 1 when r t = 0 |
| Bsm.Dfsk | fsm_option.h:150-158 | D f = S with D > 0; at r t = 0 the forward is the spot; s = sigma sqrt(t) for t >= 0 and NaN for t < 0; the strike passes through |
| Bsm.Moneyness | fsm_option.h:160-167 | NaN exactly when S <= 0, k = 0, t < 0 or sigma sqrt(t) <= 0 |
| Bsm.MoneynessSeesOnlyAbsoluteStrike | fsm_option.h:160-167 | moneyness ignores the contract type and the strike's sign |
| Bsm.PutCallParity | fsm_option.h:169-182 | call and put on the same strike k > 0 are NaN together, and otherwise differ by S - exp(-r t) k |
| Bsm.ZeroRate | fsm_option.h:150-182 | at a zero rate the value is the undiscounted Black value on the forward S |
| Bsm.ZeroStrike | fsm_option.h:169-182 | at a zero strike a put on -0 or a call on +0 is worth the spot, and a put on +0 or a call on -0 is worthless |
| BsmOption.CdfOrders | bsm_option.h:29-44 | orders 0 and 1 are the full normal table's, every other order is NaN |
| BsmOption.ShiftedCdfOrders | bsm_option.h:45-49 | the shifted distribution function agrees with the full one up to total order 1 and is NaN beyond |
| BsmOption.CumulantOrders | bsm_option.h:51-65 | the cumulant table is the full one, extended by 0 to negative orders |
| BsmOption.MoneynessAgrees | bsm_option.h:70-78 | moneyness is the newer analytics' moneyness at every input |
| BsmOption.ValueAgrees | bsm_option.h:80-106 | for a nonzero strike, value and delta equal those of the newer analytics |
| BsmOption.PutCallParity | bsm_option.h:88-91 | for k > 0 call and put values are NaN together and otherwise differ by f - k; the call delta is the put delta plus one |
| BsmOption.VegaAgrees | bsm_option.h:108-115 | vega is the newer analytics' vega at every strike, and vega at k equals vega at -k |
| BsmOption.Implied | bsm_option.h:117-152 | no bound test: the defaulted Newton solve; a number it returns is non-negative; the true volatility is returned unchanged when it is the guess and the tolerance, after its default, is not negative |
| BsmOption.ZeroStrikeExhaustsStack | bsm_option.h:80-92 | at a zero strike the value recursion never reaches a put, so it exhausts any call stack |
| BsmOption.NonzeroStrikeReturns | bsm_option.h:80-92 | every nonzero strike returns the value with a stack of two frames |
| XllTemplate.Value | xll_template.h:71-77 | the put value is NaN exactly when the moneyness is |
| XllTemplate.Delta | xll_template.h:79-85 | the put delta is NaN exactly when the moneyness is |
| XllTemplate.PutAgrees | xll_template.h:71-85 | at a strike k > 0 value and delta are those of the signed-strike put at -k; at any other strike both are NaN |
| Binomial.PutPayoff | fms_binomial.h:38-39 | the put payoff is non-negative |
| Binomial.CallPayoff | fms_binomial.h:41-42 | the call payoff is non-negative |
| Binomial.ValueStrike | fms_binomial.h:33-48 | NaN exactly at a zero strike, and a non-negative number otherwise |
| Binomial.AmericanNoOp | fms_binomial.h:25-27 | the American flag changes no node value |
| Binomial.Bounds | fms_binomial.h:13-30 | every node value lies between any bounds of the payoff over the terminal nodes that node reaches |
| Binomial.NonNegative | fms_binomial.h:13-30 | a non-negative payoff has a non-negative value at every node |
| Binomial.Linearity | fms_binomial.h:22-23 | the difference of the values of two payoffs is the value of their difference |
| Binomial.ConstantPayoff | fms_binomial.h:13-30 | a constant payoff is worth that constant at every node |
| Binomial.NextLevel | fms_binomial.h:11-16 | a step that moves the exponent s (j - 2i) by h multiplies the node's forward by exp(h)/cosh(s): h = s up, h = -s down |
| Binomial.LevelAverage | fms_binomial.h:11-16 | each node's forward is the average of its two successors' |
| Binomial.RootLevel | fms_binomial.h:16 | the forward at the root is f |
| Binomial.Martingale | fms_binomial.h:11-30 | the payoff F is worth the node's forward at every node |
| Binomial.PutCallParity | fms_binomial.t.cpp:10-13 | at the root, the call at k > 0 less the put at the same economic strike is worth f - k |
| Pwflat.LowerBound | fms_pwflat.h:22 | on a sequence partitioned by u, the index returned splits the knots below u from those that are not |
| Pwflat.SplitPoint | fms_pwflat.h:22-24 | that split point is the index the linear scan finds |
| Pwflat.Value | fms_pwflat.h:11-25 | the binary search gives the linear-scan value: NaN below 0, else f[i] at the first knot not below u, else the extrapolation |
| Pwflat.Integral | fms_pwflat.h:47-62 | NaN when u < 0 or u > v; otherwise the curve value at u, whatever v is |
| Pwflat.Characterisation | fms_pwflat.h:11-13 | for u >= 0, the value is f[i] on t[i-1] < u <= t[i], and the extrapolation beyond every knot |
| Pwflat.SortedIsPartitioned | fms_pwflat.h:22 | sorted knots meet the search's precondition for every argument |
| Pwflat.NaNArgument | fms_pwflat.h:18-24 | a NaN argument is no error: it reads the first value, or the extrapolation when there are no knots |
| Pwflat.Example | fms_pwflat.h:28-44 | on knots 1, 2, 3 with values .1, .2, .3: NaN at -1; .1 at 0; each knot and each interval midpoint reads its own value; extrapolation 4 at 4 |
| MonteCarlo.Average | fms_monte_carlo.h:7-21 | the running update gives the arithmetic mean of the draws, and 0 for none; the positions it reads are 0, 1, ..., n - 1, each once and in that order |
| MonteCarlo.MeanStep | fms_monte_carlo.h:8-10 | s_n = s_{n-1} + (x_n - s_{n-1})/n for the means of successive prefixes |

## Left out

- Infinities: a nonzero number over zero is NaN here, where IEEE 754 gives an
  infinity. No rounding is modelled: arithmetic is exact on reals.
- NaN in most inputs. Only these carry NaN:
  - the volatility argument of the forward analytics, and the Newton iterates;
  - the moneyness and every result derived from it;
  - the argument of the normal distribution function;
  - the curve argument and the extrapolation value of the piecewise flat curve.

  Strikes, forwards, prices, the initial volatility guess and the tolerance of the
  solvers are reals. So are the BSM inputs, the lattice inputs and the Monte Carlo
  draws.
- Option.Theta: its contract states only the NaN cases, not the formula through vega
  at sigma sqrt(t).
- The finite-difference checks of the normal derivatives (fms_variate_normal.t.cpp and
  fms_derivative.h): they need `erf` and `exp` to be differentiable, which abstract
  functions are not.
- Convergence of Newton's method to the implied volatility, and of the lattice to
  the closed form.
- Binomial.NextLevel, Binomial.LevelAverage, Binomial.Martingale and
  Binomial.PutCallParity assume the exponential law exp(a + b) = exp(a) exp(b) of the
  library, and that pow at an integer exponent is exact repeated multiplication. They
  also assume `cosh` is exactly (exp(x) + exp(-x))/2. A floating-point library meets
  these only approximately, which is why the lattice test allows a tolerance.
- Underflow: Libm.Lawful assumes exp > 0 and pow(x, y) > 0 for x > 0. Floating-point exp and pow
  underflow to 0 far enough out, which the model does not represent.
- Binomial.Value requires j <= n. For j > n, for example n < 0 at the root j = 0,
  the source's recursion never reaches j == n and does not terminate. The model does
  not represent that divergence. Binomial.ValueStrike inherits the requirement.
- BsmOption.Value and BsmOption.Delta require a nonzero strike, because the source's
  recursion does not terminate at zero. `BsmOption.ValueWithStack` models that case.
  BsmOption.ValueAt and BsmOption.Implied inherit the requirement.
- Unsigned wrap-around: derivative orders, budgets and lattice indices are unbounded
  integers here. The sum nx + ns of two `unsigned` orders cannot wrap in the model.
- The payoff-function lattice is modelled by its recursion only. The source computes
  no array sweep.
- American early exercise: it is not implemented in the source, and the flag is
  modelled as the no-op it is.
- The digital contract types exist as `Bsm.Kind` values without a valuation, as in
  the source.
- fms_option.h is not part of this model. It calls normal-variate overloads that do
  not exist.
- Also not part of this model:
  - fms_variate_triangular.h, whose distribution function is a NaN placeholder;
  - fms_variate.h, an interface with no logic;
  - the Excel add-in files xll_*.cpp, which only register and marshal.
- The lattice test calls a BSM overload of the lattice valuation that fms_binomial.h
  does not define. `Binomial.PutCallParity` states its parity at zero rate on the
  forward lattice instead.
- Monte Carlo generators are the sequence of draws they return; their randomness
  is not modelled.

## Findings

| source | as written | input that shows it | evidently intended | confidence | as-written member | corrected member |
|---|---|---|---|---|---|---|
| fsm_option.h:92 | a put price is rejected when v >= k, with the put strike k < 0 | f = 100, k = -100 (put struck at 100), v = 5: rejected, although 0 < 5 < 100 | reject when v >= -k, the put's upper bound | not executed | Option.Implied | Option.ImpliedCorrected |
| bsm_option.h:88-91 | a zero strike takes the call branch, which asks for the value at -0 and takes the call branch again | f = 100, s = 0.2, k = 0: the recursion never ends | a terminating answer at k = 0, as the newer analytics give by the sign bit | not executed | BsmOption.ZeroStrikeExhaustsStack | Option.ZeroStrike |
