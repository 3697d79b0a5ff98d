/**
  Piecewise flat, left-continuous curves: f(u) = f[i] for t[i-1] < u <= t[i],
  NaN for u < 0 and the extrapolation value beyond the last knot. The knots
  are searched with `std::lower_bound`.

  The argument u is a `Double`, because a NaN argument passes the u < 0 test
  and then compares false against every knot.
*/
module Pwflat {
  import opened Ieee

  /** `t < u`, the comparison `lower_bound` uses. */
  predicate Below(t: real, u: Double)
  {
    Lt(Val(t), u)
  }

  /**
    The precondition of `lower_bound`: every knot below u comes before every
    knot that is not. Sorted knots are partitioned for every u.
  */
  predicate Partitioned(t: seq<real>, u: Double)
  {
    forall a, b :: 0 <= a < b < |t| && !Below(t[a], u) ==> !Below(t[b], u)
  }

  predicate Sorted(t: seq<real>)
  {
    forall a, b :: 0 <= a < b < |t| ==> t[a] <= t[b]
  }

  /** The number of leading knots below u: the index of the first knot not below u, or |t|. */
  function FirstNotBelow(t: seq<real>, u: Double): (i: nat)
    ensures i <= |t|
  {
    if |t| == 0 then 0
    else if Below(t[0], u) then 1 + FirstNotBelow(t[1..], u)
    else 0
  }

  /** The curve value, defined by a linear scan of the knots. */
  function Lookup(t: seq<real>, f: seq<real>, u: Double, fExt: Double): Double
    requires |f| >= |t|
  {
    if Lt(u, Val(0.0)) then NaN
    else
      var i := FirstNotBelow(t, u);
      if i == |t| then fExt else Val(f[i])
  }

  /** `std::lower_bound` on t: a binary search for the first knot not below u. */
  method LowerBound(t: seq<real>, u: Double) returns (i: nat)
    requires Partitioned(t, u)
    ensures i <= |t|
    ensures forall j :: 0 <= j < i ==> Below(t[j], u)
    ensures forall j :: i <= j < |t| ==> !Below(t[j], u)
  {
    var first: nat, count: nat := 0, |t|;
    while count > 0
      invariant first + count <= |t|
      invariant forall j :: 0 <= j < first ==> Below(t[j], u)
      invariant forall j :: first + count <= j < |t| ==> !Below(t[j], u)
      decreases count
    {
      var step := count / 2;
      var mid := first + step;
      if Below(t[mid], u) {
        first, count := mid + 1, count - step - 1;
      } else {
        count := step;
      }
    }
    i := first;
  }

  /** The first knot not below u is the only split point of a partitioned sequence. */
  lemma {:induction false} SplitPoint(t: seq<real>, u: Double, i: nat)
    requires i <= |t|
    requires forall j :: 0 <= j < i ==> Below(t[j], u)
    requires forall j :: i <= j < |t| ==> !Below(t[j], u)
    ensures FirstNotBelow(t, u) == i
    decreases |t|
  {
    if |t| > 0 && i > 0 {
      SplitPoint(t[1..], u, i - 1);
    }
  }

  /** `value`: NaN below zero, otherwise the value of the first knot not below u, or the extrapolation. */
  method Value(u: Double, t: seq<real>, f: seq<real>, fExt: Double) returns (r: Double)
    requires |f| >= |t|
    requires !Lt(u, Val(0.0)) ==> Partitioned(t, u)
    ensures r == Lookup(t, f, u, fExt)
  {
    if Lt(u, Val(0.0)) {
      return NaN;
    }
    var i := LowerBound(t, u);
    SplitPoint(t, u, i);
    r := if i == |t| then fExt else Val(f[i]);
  }

  /**
    `integral` is a stub: NaN when u < 0 or u > v, otherwise the value at u.
  */
  method Integral(u: Double, v: Double, t: seq<real>, f: seq<real>, fExt: Double) returns (r: Double)
    requires |f| >= |t|
    requires !Lt(u, Val(0.0)) ==> Partitioned(t, u)
    ensures Lt(u, Val(0.0)) || Gt(u, v) ==> r == NaN
    ensures !Gt(u, v) ==> r == Lookup(t, f, u, fExt)
  {
    if Lt(u, Val(0.0)) || Gt(u, v) {
      return NaN;
    }
    var i := LowerBound(t, u);
    SplitPoint(t, u, i);
    if i == |t| {
      return fExt;
    }
    r := Val(f[i]);
  }

  /**
    For partitioned knots and u >= 0 the value is f[i] on the interval
    t[i-1] < u <= t[i], and the extrapolation beyond every knot.
  */
  lemma Characterisation(t: seq<real>, f: seq<real>, u: real, fExt: Double, i: nat)
    requires |f| >= |t| && Partitioned(t, Val(u)) && u >= 0.0
    ensures i < |t| && u <= t[i] && (i == 0 || t[i - 1] < u) ==> Lookup(t, f, Val(u), fExt) == Val(f[i])
    ensures (forall j :: 0 <= j < |t| ==> t[j] < u) ==> Lookup(t, f, Val(u), fExt) == fExt
  {
    if i < |t| && u <= t[i] && (i == 0 || t[i - 1] < u) {
      SplitPoint(t, Val(u), i);
    }
    if forall j :: 0 <= j < |t| ==> t[j] < u {
      SplitPoint(t, Val(u), |t|);
    }
  }

  /** Sorted knots are partitioned for every argument. */
  lemma SortedIsPartitioned(t: seq<real>, u: Double)
    requires Sorted(t)
    ensures Partitioned(t, u)
  {
  }

  /** A NaN argument is no error: it reads the first value, or the extrapolation when there are no knots. */
  lemma NaNArgument(t: seq<real>, f: seq<real>, fExt: Double)
    requires |f| >= |t|
    ensures Lookup(t, f, NaN, fExt) == if |t| == 0 then fExt else Val(f[0])
  {
  }

  /** The curve with knots 1, 2, 3 and values .1, .2, .3. */
  lemma Example(fExt: Double)
    ensures Lookup([1.0, 2.0, 3.0], [0.1, 0.2, 0.3], Val(-1.0), fExt) == NaN
    ensures Lookup([1.0, 2.0, 3.0], [0.1, 0.2, 0.3], Val(0.0), fExt) == Val(0.1)
    ensures Lookup([1.0, 2.0, 3.0], [0.1, 0.2, 0.3], Val(0.5), fExt) == Val(0.1)
    ensures Lookup([1.0, 2.0, 3.0], [0.1, 0.2, 0.3], Val(1.0), fExt) == Val(0.1)
    ensures Lookup([1.0, 2.0, 3.0], [0.1, 0.2, 0.3], Val(1.5), fExt) == Val(0.2)
    ensures Lookup([1.0, 2.0, 3.0], [0.1, 0.2, 0.3], Val(2.0), fExt) == Val(0.2)
    ensures Lookup([1.0, 2.0, 3.0], [0.1, 0.2, 0.3], Val(2.5), fExt) == Val(0.3)
    ensures Lookup([1.0, 2.0, 3.0], [0.1, 0.2, 0.3], Val(3.0), fExt) == Val(0.3)
    ensures Lookup([1.0, 2.0, 3.0], [0.1, 0.2, 0.3], Val(4.0), Val(4.0)) == Val(4.0)
  {
    var t := [1.0, 2.0, 3.0];
    assert t[1..] == [2.0, 3.0] && t[1..][1..] == [3.0] && t[1..][1..][1..] == [];
  }
}
