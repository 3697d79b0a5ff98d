/**
  The running mean of n draws of a generator. The generator is the sequence
  of the draws it returns, in the order it returns them.
*/
module MonteCarlo {

  /** x_1 + ... + x_n */
  function Sum(xs: seq<real>): real
  {
    if |xs| == 0 then 0.0 else Sum(xs[..|xs| - 1]) + xs[|xs| - 1]
  }

  /** The arithmetic mean (x_1 + ... + x_n)/n, and 0 for no draws. */
  function Mean(xs: seq<real>): real
  {
    if |xs| == 0 then 0.0 else Sum(xs) / |xs| as real
  }

  /**
    `average`: starting from 0, the m-th draw moves the estimate by
    (x_m - s)/m. Besides the mean it returns the positions of the draws it
    read, in the order it read them.
  */
  method Average(xs: seq<real>) returns (s: real, read: seq<nat>)
    ensures s == Mean(xs)
    ensures read == seq(|xs|, j => j)
    ensures |xs| == 0 ==> s == 0.0
  {
    s, read := 0.0, [];
    var m := 1;
    while m <= |xs|
      invariant 1 <= m <= |xs| + 1
      invariant read == seq(m - 1, j => j)
      invariant s == Mean(xs[..m - 1])
    {
      var x := xs[|read|];
      read := read + [|read|];
      MeanStep(xs[..m]);
      assert xs[..m][..m - 1] == xs[..m - 1];
      s := s + (x - s) / m as real;
      m := m + 1;
    }
    assert xs[..|xs|] == xs;
  }

  /** The update rule: s_n = s_{n-1} + (x_n - s_{n-1})/n, from n s_n - (n-1) s_{n-1} = x_n. */
  lemma MeanStep(xs: seq<real>)
    requires |xs| >= 1
    ensures Mean(xs) == Mean(xs[..|xs| - 1]) + (xs[|xs| - 1] - Mean(xs[..|xs| - 1])) / |xs| as real
  {
    var n := |xs| as real;
    var p := xs[..|xs| - 1];
    var x := xs[|xs| - 1];
    assert Sum(xs) == Sum(p) + x;
    if |p| == 0 {
      assert Sum(p) == 0.0;
    } else {
      var q := Sum(p) / (n - 1.0);
      assert Mean(p) == q;
      assert Sum(p) == q * (n - 1.0);
      Rearrange(q, x, n);
    }
  }

  lemma Rearrange(q: real, x: real, n: real)
    requires n > 1.0
    ensures (q * (n - 1.0) + x) / n == q + (x - q) / n
  {
    assert q * (n - 1.0) + x == q * n + (x - q);
    assert (q * n + (x - q)) / n == q + (x - q) / n;
  }
}
