/**
  The put-only analytics of the add-in template. Its normal variate and
  moneyness are the ones of module BsmOption, repeated there unchanged; the
  strike is the positive put strike itself rather than a signed one.
*/
module XllTemplate {
  import opened Ieee
  import BsmOption
  import Option

  /** Put value k P(X <= m) - f P_s(X <= m) at m = moneyness(f, s, k). */
  function Value(m: Libm, f: real, s: Double, k: real): (r: Double)
    ensures r.NaN? <==> BsmOption.Moneyness(m, f, s, k).NaN?
  {
    var x := BsmOption.Moneyness(m, f, s, k);
    Sub(Mul(Val(k), BsmOption.Cdf(m, x, 0)), Mul(Val(f), BsmOption.ShiftedCdf(m, x, s, 0, 0)))
  }

  /** Put delta -P_s(X <= m). */
  function Delta(m: Libm, f: real, s: Double, k: real): (r: Double)
    ensures r.NaN? <==> BsmOption.Moneyness(m, f, s, k).NaN?
  {
    var x := BsmOption.Moneyness(m, f, s, k);
    Neg(BsmOption.ShiftedCdf(m, x, s, 0, 0))
  }

  /**
    The template's put at strike k > 0 is the signed-strike put at -k, in value
    and in delta; any other strike gives NaN.
  */
  lemma PutAgrees(m: Libm, f: real, s: Double, k: real)
    ensures k > 0.0 ==> Value(m, f, s, k) == Option.Value(m, f, s, FromReal(-k))
    ensures k > 0.0 ==> Delta(m, f, s, k) == Option.Delta(m, f, s, FromReal(-k))
    ensures k <= 0.0 ==> Value(m, f, s, k).NaN? && Delta(m, f, s, k).NaN?
  {
    if k > 0.0 {
      BsmOption.ValueAgrees(m, f, s, -k);
    }
  }
}
