/**
 * Piecewise-linear interpolation of a calibration curve (src/chronologer/pymccarbon.py):
 * the bin index of a calendar age is the number of control points at or below it,
 * minus one, and the curve's mean and sigma are interpolated on that bin.
 */
module PyMcCarbon {
  import opened Grid

  /** The ages at which the interpolation reads two neighbouring control points. */
  predicate InDomain(tau: real, calbp: seq<real>) {
    |calbp| >= 2 && calbp[0] <= tau < calbp[|calbp| - 1]
  }

  /** On a sorted curve the count either splits it at tau or says nothing. */
  lemma CountSplits(tau: real, s: seq<real>)
    ensures NonDecreasing(s) ==>
      (forall j :: 0 <= j < CountAtOrBelow(tau, s) ==> s[j] <= tau) &&
      (forall j :: CountAtOrBelow(tau, s) <= j < |s| ==> s[j] > tau)
  {
    if NonDecreasing(s) {
      CountSorted(tau, s);
    }
  }

  /**
   * The bin index of one age: on a sorted curve it is the last control point at or
   * below tau (-1 when there is none).
   */
  function BinIndex(tau: real, calbp: seq<real>): (i: int)
    ensures -1 <= i < |calbp|
    ensures NonDecreasing(calbp) ==>
      (forall j :: 0 <= j <= i ==> calbp[j] <= tau) &&
      (forall j :: i < j < |calbp| ==> calbp[j] > tau)
    ensures NonDecreasing(calbp) && InDomain(tau, calbp) ==> 0 <= i <= |calbp| - 2
  {
    CountSplits(tau, calbp);
    CountAtOrBelow(tau, calbp) - 1
  }

  /** compute_bin_index over a vector of ages. */
  function ComputeBinIndex(taus: seq<real>, calbp: seq<real>): (r: seq<int>)
    ensures |r| == |taus|
    ensures forall k :: 0 <= k < |taus| ==> -1 <= r[k] < |calbp|
    ensures NonDecreasing(calbp) ==> forall k :: 0 <= k < |taus| && InDomain(taus[k], calbp) ==>
      0 <= r[k] < |calbp| - 1 && calbp[r[k]] <= taus[k] < calbp[r[k] + 1]
  {
    seq(|taus|, k requires 0 <= k < |taus| => BinIndex(taus[k], calbp))
  }

  /** Inside the domain the bin index lies in [0, n-2] and its bin brackets tau. */
  lemma BinIndexBracket(tau: real, calbp: seq<real>)
    requires NonDecreasing(calbp) && InDomain(tau, calbp)
    ensures 0 <= BinIndex(tau, calbp) <= |calbp| - 2
    ensures calbp[BinIndex(tau, calbp)] <= tau < calbp[BinIndex(tau, calbp) + 1]
  {
  }

  /** The bin index is the unique i whose bin [calbp[i], calbp[i+1]) holds tau. */
  lemma BinIndexOfBracket(tau: real, calbp: seq<real>, i: nat)
    requires NonDecreasing(calbp) && i < |calbp| - 1 && calbp[i] <= tau < calbp[i + 1]
    ensures BinIndex(tau, calbp) == i
  {
  }

  /** An age equal to a control point (other than the last) belongs to the bin starting there. */
  lemma BinIndexAtControlPoint(calbp: seq<real>, k: nat)
    requires StrictlyIncreasing(calbp) && k < |calbp| - 1
    ensures BinIndex(calbp[k], calbp) == k
  {
    BinIndexOfBracket(calbp[k], calbp, k);
  }

  /** A later age never has an earlier bin. */
  lemma BinIndexMonotone(tau1: real, tau2: real, calbp: seq<real>)
    requires tau1 <= tau2
    ensures BinIndex(tau1, calbp) <= BinIndex(tau2, calbp)
  {
    CountMonotone(tau1, tau2, calbp);
  }

  /** v lies between a and b, whichever is larger. */
  predicate Between(v: real, a: real, b: real) {
    (a <= v <= b) || (b <= v <= a)
  }

  /** The interpolated value of one curve column at tau. */
  function Lerp(tau: real, calbp: seq<real>, values: seq<real>): (v: real)
    requires |values| == |calbp| && NonDecreasing(calbp) && InDomain(tau, calbp)
    ensures Between(v, values[BinIndex(tau, calbp)], values[BinIndex(tau, calbp) + 1])
  {
    var i := BinIndex(tau, calbp);
    var slope := (values[i + 1] - values[i]) / (calbp[i + 1] - calbp[i]);
    var f := (tau - calbp[i]) / (calbp[i + 1] - calbp[i]);
    FractionInUnit(tau - calbp[i], calbp[i + 1] - calbp[i]);
    assert slope * (tau - calbp[i]) == f * (values[i + 1] - values[i]);
    ConvexCombinationBetween(values[i], values[i + 1], f, Min2(values[i], values[i + 1]), Max2(values[i], values[i + 1]));
    values[i] + slope * (tau - calbp[i])
  }

  function Min2(a: real, b: real): real { if a <= b then a else b }
  function Max2(a: real, b: real): real { if a <= b then b else a }

  /**
   * interpolate_calcurve over a vector of ages: the interpolated curve mean and sigma,
   * each element between the curve values at the two edges of its bin.
   */
  function InterpolateCalcurve(taus: seq<real>, calbp: seq<real>, c14bp: seq<real>, c14Sigma: seq<real>)
    : (r: (seq<real>, seq<real>))
    requires |c14bp| == |calbp| && |c14Sigma| == |calbp| && NonDecreasing(calbp)
    requires forall k :: 0 <= k < |taus| ==> InDomain(taus[k], calbp)
    ensures |r.0| == |taus| && |r.1| == |taus|
    ensures forall k :: 0 <= k < |taus| ==>
      var i := BinIndex(taus[k], calbp);
      Between(r.0[k], c14bp[i], c14bp[i + 1]) && Between(r.1[k], c14Sigma[i], c14Sigma[i + 1])
  {
    (seq(|taus|, k requires 0 <= k < |taus| => Lerp(taus[k], calbp, c14bp)),
     seq(|taus|, k requires 0 <= k < |taus| => Lerp(taus[k], calbp, c14Sigma)))
  }

  /** At a control point the interpolation returns that point's value exactly. */
  lemma LerpAtControlPoint(calbp: seq<real>, values: seq<real>, k: nat)
    requires |values| == |calbp| && StrictlyIncreasing(calbp) && k < |calbp| - 1
    ensures InDomain(calbp[k], calbp)
    ensures Lerp(calbp[k], calbp, values) == values[k]
  {
    assert calbp[k] < calbp[|calbp| - 1];
    BinIndexAtControlPoint(calbp, k);
  }

  /** At the midpoint of a bin the interpolation is the mean of the bin's two end values. */
  lemma LerpAtMidpoint(calbp: seq<real>, values: seq<real>, i: nat)
    requires |values| == |calbp| && StrictlyIncreasing(calbp) && i < |calbp| - 1
    ensures InDomain((calbp[i] + calbp[i + 1]) / 2.0, calbp)
    ensures Lerp((calbp[i] + calbp[i + 1]) / 2.0, calbp, values) == (values[i] + values[i + 1]) / 2.0
  {
    var mid := (calbp[i] + calbp[i + 1]) / 2.0;
    assert calbp[i + 1] <= calbp[|calbp| - 1];
    BinIndexOfBracket(mid, calbp, i);
    var w := calbp[i + 1] - calbp[i];
    var slope := (values[i + 1] - values[i]) / w;
    assert mid - calbp[i] == w / 2.0;
    assert slope * (w / 2.0) == (values[i + 1] - values[i]) / 2.0;
  }

  /** At a control point the interpolated mean and sigma are the curve's own values. */
  lemma InterpolateCalcurveExact(calbp: seq<real>, c14bp: seq<real>, c14Sigma: seq<real>, k: nat)
    requires |c14bp| == |calbp| && |c14Sigma| == |calbp| && StrictlyIncreasing(calbp) && k < |calbp| - 1
    ensures InDomain(calbp[k], calbp)
    ensures InterpolateCalcurve([calbp[k]], calbp, c14bp, c14Sigma) == ([c14bp[k]], [c14Sigma[k]])
  {
    LerpAtControlPoint(calbp, c14bp, k);
    LerpAtControlPoint(calbp, c14Sigma, k);
    var r := InterpolateCalcurve([calbp[k]], calbp, c14bp, c14Sigma);
    assert r.0 == [c14bp[k]];
    assert r.1 == [c14Sigma[k]];
  }

  /** Each age of a batch is interpolated exactly as it would be on its own. */
  lemma InterpolateCalcurveElementwise(taus: seq<real>, calbp: seq<real>, c14bp: seq<real>, c14Sigma: seq<real>, k: nat)
    requires |c14bp| == |calbp| && |c14Sigma| == |calbp| && NonDecreasing(calbp)
    requires forall j :: 0 <= j < |taus| ==> InDomain(taus[j], calbp)
    requires k < |taus|
    ensures InterpolateCalcurve(taus, calbp, c14bp, c14Sigma).0[k] == InterpolateCalcurve([taus[k]], calbp, c14bp, c14Sigma).0[0]
    ensures InterpolateCalcurve(taus, calbp, c14bp, c14Sigma).1[k] == InterpolateCalcurve([taus[k]], calbp, c14bp, c14Sigma).1[0]
  {
  }
}
