/**
  Black-Scholes/Merton inputs mapped to the forward analytics: a spot S, a
  continuously compounded rate r and a volatility sigma become the discount
  factor D = exp(-r t), the forward f = S/D and the total volatility
  s = sigma sqrt(t) of a contract with strike k and expiration t.
*/
module Bsm {
  import opened Ieee
  import Option

  /** The four contract types share their data and differ only in type. */
  datatype Kind = Put | Call | DigitalPut | DigitalCall

  datatype Contract = Contract(kind: Kind, k: Finite, t: real)

  /** Discount factor, forward, total volatility and strike. */
  datatype Forward = Forward(D: real, f: real, s: Double, k: Finite)

  /** The discount factor exp(-r t) to time t. */
  function Discount(m: Libm, r: real, t: real): (d: real)
    ensures m.Lawful() ==> d > 0.0
    ensures m.Lawful() && r * t == 0.0 ==> d == 1.0
  {
    assert r * t == 0.0 ==> -r * t == 0.0;
    m.exp(-r * t)
  }

  function Dfsk(m: Libm, r: real, S: real, sigma: real, o: Contract): (p: Forward)
    requires m.Lawful()
    ensures p.D == Discount(m, r, o.t)
    ensures p.D > 0.0 && p.D * p.f == S
    ensures r * o.t == 0.0 ==> p.D == 1.0 && p.f == S
    ensures o.t >= 0.0 ==> p.s.Val? && p.s.v == sigma * m.sqrt(o.t)
    ensures o.t < 0.0 ==> p.s.NaN?
    ensures p.k == o.k
  {
    var D := Discount(m, r, o.t);
    Forward(D, S / D, Mul(Val(sigma), Sqrt(m, o.t)), o.k)
  }

  /** Moneyness of any contract type, at the economic strike |k|. */
  function Moneyness(m: Libm, r: real, S: real, sigma: real, o: Contract): (x: Double)
    requires m.Lawful()
    ensures x.NaN? <==> (S <= 0.0 || o.k.v == 0.0 || o.t < 0.0 || sigma * m.sqrt(o.t) <= 0.0)
  {
    var p := Dfsk(m, r, S, sigma, o);
    assert p.f > 0.0 <==> S > 0.0 by {
      PositiveQuotient(S, p.D, p.f);
    }
    Option.Moneyness(m, p.f, p.s, FAbs(o.k).v)
  }

  lemma PositiveQuotient(S: real, D: real, f: real)
    requires D > 0.0 && D * f == S
    ensures f > 0.0 <==> S > 0.0
  {
    if f > 0.0 {
      assert D * f > 0.0;
    } else {
      assert D * f <= 0.0;
    }
  }

  /** Discounted value of a put or call (fsm_option.h has no overload for the digital types). */
  function Value(m: Libm, r: real, S: real, sigma: real, o: Contract): Double
    requires m.Lawful() && (o.kind.Put? || o.kind.Call?)
  {
    var p := Dfsk(m, r, S, sigma, o);
    if o.kind.Put? then Mul(Val(p.D), Option.Value(m, p.f, p.s, Negate(o.k)))
    else Mul(Val(p.D), Option.Value(m, p.f, p.s, o.k))
  }

  /** Moneyness ignores the contract type and the sign of the strike. */
  lemma MoneynessSeesOnlyAbsoluteStrike(m: Libm, r: real, S: real, sigma: real, o: Contract, o': Contract)
    requires m.Lawful()
    requires o.t == o'.t && RealAbs(o.k.v) == RealAbs(o'.k.v)
    ensures Moneyness(m, r, S, sigma, o) == Moneyness(m, r, S, sigma, o')
  {
    var p, p' := Dfsk(m, r, S, sigma, o), Dfsk(m, r, S, sigma, o');
    assert p.D == p'.D;
    assert p.f == p'.f && p.s == p'.s;
    assert FAbs(o.k).v == FAbs(o'.k).v;
  }

  /**
    Discounted put-call parity in spot terms: for a strike k > 0 the call and put
    are both NaN or both numbers, and then differ by S - D k.
  */
  lemma PutCallParity(m: Libm, r: real, S: real, sigma: real, k: Finite, t: real)
    requires m.Lawful() && k.v > 0.0
    ensures Value(m, r, S, sigma, Contract(Call, k, t)).NaN? <==> Value(m, r, S, sigma, Contract(Put, k, t)).NaN?
    ensures Value(m, r, S, sigma, Contract(Call, k, t)).Val? ==>
      Value(m, r, S, sigma, Contract(Call, k, t)).v - Value(m, r, S, sigma, Contract(Put, k, t)).v
        == S - Discount(m, r, t) * k.v
  {
    var p, p' := Dfsk(m, r, S, sigma, Contract(Call, k, t)), Dfsk(m, r, S, sigma, Contract(Put, k, t));
    assert p.D == p'.D;
    assert p.f == p'.f && p.s == p'.s;
    Option.PutCallParity(m, p.f, p.s, k);
    var c, q := Option.Value(m, p.f, p.s, k), Option.Value(m, p.f, p.s, Negate(k));
    if c.Val? {
      Scale(p.D, c.v, q.v, p.f, k.v);
    }
  }

  lemma Scale(D: real, c: real, q: real, f: real, k: real)
    requires c - q == f - k
    ensures D * c - D * q == D * f - D * k
  {
    assert D * c - D * q == D * (c - q);
  }

  /** At zero rate the BSM value is the Black value on the forward S. */
  lemma ZeroRate(m: Libm, S: real, sigma: real, o: Contract)
    requires m.Lawful() && (o.kind.Put? || o.kind.Call?)
    ensures Value(m, 0.0, S, sigma, o)
      == Option.Value(m, S, Mul(Val(sigma), Sqrt(m, o.t)), if o.kind.Put? then Negate(o.k) else o.k)
  {
  }

  /**
    At a zero strike the put prices at the negated strike, whose sign bit is
    flipped: a put on -0 and a call on +0 are worth the spot, a put on +0 and a
    call on -0 are worthless.
  */
  lemma ZeroStrike(m: Libm, r: real, S: real, sigma: real, o: Contract)
    requires m.Lawful() && (o.kind.Put? || o.kind.Call?) && o.k.v == 0.0
    ensures Value(m, r, S, sigma, o) == if o.kind.Put? == o.k.neg then Val(S) else Val(0.0)
  {
    var p := Dfsk(m, r, S, sigma, o);
    var k := if o.kind.Put? then Negate(o.k) else o.k;
    Option.ZeroStrike(m, p.f, p.s, k);
    if k.neg {
      assert p.D * 0.0 == 0.0;
    } else {
      assert Value(m, r, S, sigma, o) == Mul(Val(p.D), Val(p.f));
    }
  }
}
