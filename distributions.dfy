/**
 * The calibrated radiocarbon date distribution of chronologer/distributions.py
 * (class calrcarbon). The curve interpolators are fitted once, on the first
 * construction, and shared by every later instance; the cdf, ppf and moments are
 * computed on a trimmed and normalised 10000-point grid of density values.
 *
 * The density itself (a normal pdf whose location and scale come from cubic splines of
 * the fitted curve) is an abstract non-negative function of the fitted curve, the
 * calendar age and the radiocarbon mean and error.
 */
module Distributions {
  import opened Wrappers
  import opened Grid
  import opened CalCurves

  /** norm.pdf(c14_mean, spline_mean(tau), sqrt(c14_err**2 + spline_err(tau)**2)) for a fitted curve. */
  type Density = d: (CalCurve, real, real, real) -> real | forall c, tau, m, e :: d(c, tau, m, e) >= 0.0
    witness (c: CalCurve, tau: real, m: real, e: real) => 0.0

  /** Both grids of _get_pdf_values have this many points. */
  const GridSize: nat := 10000

  /** _get_pdf_values' default threshold, 1e-7. */
  const DefaultThreshold: real := 0.0000001

  /**
   * The class-level attributes _interp_mean and _interp_error: None until the first
   * instance is built, then the splines of that instance's curve. One object is shared
   * by every instance, as the class attributes are.
   */
  class SplineCache {
    var fitted: Option<CalCurve>

    constructor()
      ensures fitted == None
    {
      fitted := None;
    }
  }

  // ---------------------------------------------------------------------------
  // The grid of density values (_get_pdf_values)

  /** _pdf at every point of a grid. */
  function Evaluate(density: Density, fitted: CalCurve, t: seq<real>, m: real, e: real): (r: seq<real>)
    ensures |r| == |t| && AllNonNegative(r)
  {
    seq(|t|, i requires 0 <= i < |t| => density(fitted, t[i], m, e))
  }

  /** pdf_values > threshold */
  function AboveThreshold(p: seq<real>, threshold: real): (mask: seq<bool>)
    ensures |mask| == |p|
    ensures forall i :: 0 <= i < |p| ==> (mask[i] <==> p[i] > threshold)
  {
    seq(|p|, i requires 0 <= i < |p| => p[i] > threshold)
  }

  /** t_values[1] - t_values[0], the width every moment and cumulative sum is scaled by. */
  function Spacing(t: seq<real>): real
    requires |t| >= 2
  {
    t[1] - t[0]
  }

  /**
   * What _get_pdf_values returns: an ascending, evenly spaced grid of two or more
   * points and non-negative density values on it whose trapezoid integral is one.
   */
  predicate ValidPdfGrid(t: seq<real>, p: seq<real>) {
    |t| == |p| >= 2 &&
    NonDecreasing(t) &&
    (forall i :: 0 <= i < |t| - 1 ==> t[i + 1] - t[i] == Spacing(t)) &&
    AllNonNegative(p) &&
    Trapz(p, t) == 1.0
  }

  /** The first grid, linspace(a, b, 10000). */
  function FirstGrid(a: real, b: real): seq<real> {
    Linspace(a, b, GridSize)
  }

  /** The first-grid points whose density exceeds the threshold, t_values[mask]. */
  function Kept(density: Density, fitted: CalCurve, a: real, b: real, m: real, e: real, threshold: real): seq<real> {
    var t := FirstGrid(a, b);
    Masked(t, AboveThreshold(Evaluate(density, fitted, t, m, e), threshold))
  }

  /**
   * _get_pdf_values: min() of an empty selection raises, a zero integral makes the
   * division produce NaN; otherwise the returned grid is a valid pdf grid.
   */
  function PdfGrid(density: Density, fitted: CalCurve, a: real, b: real, m: real, e: real, threshold: real)
    : (r: Result<(seq<real>, seq<real>)>)
    ensures r.Ok? ==> ValidPdfGrid(r.value.0, r.value.1)
  {
    var kept := Kept(density, fitted, a, b, m, e, threshold);
    if |kept| == 0 then Err(EmptyReduction)
    else
      var t := Linspace(Min(kept), Max(kept), GridSize);
      var p := Evaluate(density, fitted, t, m, e);
      var z := Trapz(p, t);
      if z == 0.0 then Err(NotANumber)
      else
        MinAtMostMax(kept);
        NormalisedGridValid(Min(kept), Max(kept), p);
        Ok((t, DivideBy(p, z)))
  }

  /** A non-negative density on an ascending grid has positive integral once it is not zero, and dividing by it normalises. */
  lemma NormalisedGridValid(lo: real, hi: real, p: seq<real>)
    requires lo <= hi && |p| == GridSize && AllNonNegative(p)
    requires Trapz(p, Linspace(lo, hi, GridSize)) != 0.0
    ensures ValidPdfGrid(Linspace(lo, hi, GridSize), DivideBy(p, Trapz(p, Linspace(lo, hi, GridSize))))
  {
    var t := Linspace(lo, hi, GridSize);
    var z := Trapz(p, t);
    LinspaceOrdered(lo, hi, GridSize);
    assert forall i :: 0 <= i < |t| - 1 ==> t[i + 1] - t[i] == Spacing(t) by {
      LinspaceUniform(lo, hi, GridSize);
    }
    assert z > 0.0 by {
      TrapzNonNegative(p, t);
    }
    forall i | 0 <= i < |p|
      ensures DivideBy(p, z)[i] >= 0.0
    {
      DivideOrdered(0.0, p[i], z);
    }
    TrapzDivideBy(p, t, z);
    SelfQuotient(z);
  }

  /** Trimming leaves nothing, the error case, exactly when no first-grid point is above the threshold. */
  lemma PdfGridEmpty(density: Density, fitted: CalCurve, a: real, b: real, m: real, e: real, threshold: real)
    ensures var first := FirstGrid(a, b);
      var p := Evaluate(density, fitted, first, m, e);
      PdfGrid(density, fitted, a, b, m, e, threshold) == Err(EmptyReduction) <==>
        (forall i :: 0 <= i < |first| ==> p[i] <= threshold)
  {
    var first := FirstGrid(a, b);
    var p := Evaluate(density, fitted, first, m, e);
    MaskedEmptyIff(first, AboveThreshold(p, threshold));
  }

  /**
   * Otherwise the second grid runs from the least to the greatest kept point, inside
   * [a, b], and covers every first-grid point above the threshold.
   */
  lemma PdfGridSpan(density: Density, fitted: CalCurve, a: real, b: real, m: real, e: real, threshold: real)
    requires a <= b
    ensures var r := PdfGrid(density, fitted, a, b, m, e, threshold);
      r.Ok? ==>
        var first := FirstGrid(a, b);
        var p := Evaluate(density, fitted, first, m, e);
        var t := r.value.0;
        a <= t[0] <= t[|t| - 1] <= b &&
        (forall i :: 0 <= i < |first| && p[i] > threshold ==> t[0] <= first[i] <= t[|t| - 1])
  {
    var first := FirstGrid(a, b);
    var mask := AboveThreshold(Evaluate(density, fitted, first, m, e), threshold);
    var kept := Masked(first, mask);
    if |kept| > 0 {
      LinspaceOrdered(a, b, GridSize);
      MaskedSpan(first, mask, a, b);
      LinspaceEnds(Min(kept), Max(kept), GridSize);
    }
  }

  // ---------------------------------------------------------------------------
  // The normalised cumulative array of _cdf, _ppf and _rvs

  lemma DivideOrdered(x: real, y: real, d: real)
    requires x <= y && d > 0.0
    ensures x / d <= y / d
  {
  }

  /** A non-decreasing, non-negative array with a positive last element, divided by it. */
  lemma NormaliseByLast(c: seq<real>, last: real)
    requires |c| > 0 && NonDecreasing(c) && c[0] >= 0.0 && last == c[|c| - 1] && last > 0.0
    ensures var d := DivideBy(c, last);
      NonDecreasing(d) && (forall i :: 0 <= i < |d| ==> 0.0 <= d[i] <= 1.0) && d[|d| - 1] == 1.0
  {
    var d := DivideBy(c, last);
    forall i, j | 0 <= i <= j < |c|
      ensures d[i] <= d[j]
    {
      DivideOrdered(c[i], c[j], last);
    }
    forall i | 0 <= i < |c|
      ensures 0.0 <= d[i] <= 1.0
    {
      DivideOrdered(0.0, c[i], last);
      DivideOrdered(c[i], last, last);
      SelfQuotient(last);
    }
    assert d[|c| - 1] == last / last;
    SelfQuotient(last);
  }

  /** On a valid grid the spacing and the plain sum of the density are both positive. */
  lemma SpacingAndSumPositive(t: seq<real>, p: seq<real>)
    requires ValidPdfGrid(t, p)
    ensures Spacing(t) > 0.0 && Sum(p) > 0.0
  {
    var h := Spacing(t);
    var inner := Sum(p) - (p[0] + p[|p| - 1]) / 2.0;
    assert h >= 0.0 by {
      assert t[0] <= t[1];
    }
    assert h * inner == 1.0 by {
      TrapzUniform(p, t, h);
    }
    UnitProductPositive(h, inner);
    assert p[0] >= 0.0 && p[|p| - 1] >= 0.0;
  }

  /** Two factors, the first non-negative, whose product is one are both positive. */
  lemma UnitProductPositive(h: real, x: real)
    requires h >= 0.0 && h * x == 1.0
    ensures h > 0.0 && x > 0.0
  {
    if x <= 0.0 {
      ProductNonNegative(h, -x);
    }
  }

  lemma CumSumFirst(p: seq<real>)
    requires |p| > 0
    ensures CumSum(p)[0] == p[0]
  {
    assert CumSum(p)[0] == Sum(p[..1]);
    assert p[..1][..0] == [];
  }

  /** cumsum(pdf_values) * (t[1] - t[0]) on a valid grid rises to a positive last element. */
  lemma CumulativePositive(t: seq<real>, p: seq<real>)
    requires ValidPdfGrid(t, p)
    ensures var c := Scale(CumSum(p), Spacing(t));
      NonDecreasing(c) && c[0] >= 0.0 && c[|c| - 1] > 0.0
  {
    var h := Spacing(t);
    SpacingAndSumPositive(t, p);
    CumSumNonDecreasing(p);
    ScaleNonDecreasing(CumSum(p), h);
    CumSumLast(p);
    CumSumFirst(p);
    ProductNonNegative(p[0], h);
    assert Sum(p) * h > 0.0;
  }

  /** cdf_values /= cdf_values[-1]: the normalised cumulative array. */
  function CdfValues(t: seq<real>, p: seq<real>): (r: seq<real>)
    requires ValidPdfGrid(t, p)
    ensures |r| == |t|
  {
    var c := Scale(CumSum(p), Spacing(t));
    CumulativePositive(t, p);
    DivideBy(c, c[|c| - 1])
  }

  /** The normalised cumulative array is non-decreasing, lies in [0, 1] and ends at exactly 1. */
  lemma CdfValuesNormalised(t: seq<real>, p: seq<real>)
    requires ValidPdfGrid(t, p)
    ensures var c := CdfValues(t, p);
      NonDecreasing(c) &&
      (forall i :: 0 <= i < |c| ==> 0.0 <= c[i] <= 1.0) &&
      c[|c| - 1] == 1.0
  {
    CumulativePositive(t, p);
    var c := Scale(CumSum(p), Spacing(t));
    NormaliseByLast(c, c[|c| - 1]);
  }

  /** The cumulative array, normalised in place as the source does. */
  method CumulativeValues(t: seq<real>, p: seq<real>) returns (cdf: seq<real>)
    requires ValidPdfGrid(t, p)
    ensures cdf == CdfValues(t, p)
  {
    var c := Scale(CumSum(p), Spacing(t));
    CumulativePositive(t, p);
    var values := new real[|c|](i requires 0 <= i < |c| => c[i]);
    assert values[..] == c;
    DivideInPlace(values, values[values.Length - 1]);
    cdf := values[..];
  }

  // ---------------------------------------------------------------------------
  // The distribution functions, on explicit parameters

  /** The public wrappers' defaulting: an argument that is None falls back to the stored value. */
  function Resolve(arg: Option<real>, stored: Option<real>): (r: Result<real>)
    ensures arg.Some? ==> r == Ok(arg.value)
    ensures arg.None? && stored.Some? ==> r == Ok(stored.value)
    ensures arg.None? && stored.None? ==> r == Err(MissingParameter)
  {
    if arg.Some? then Ok(arg.value)
    else if stored.Some? then Ok(stored.value)
    else Err(MissingParameter)
  }

  /** _cdf: numpy.interp of tau on the normalised cumulative array. */
  function CdfAt(density: Density, fitted: CalCurve, a: real, b: real, m: real, e: real, tau: real): Result<real> {
    var g :- PdfGrid(density, fitted, a, b, m, e, DefaultThreshold);
    Ok(NumpyInterp(tau, g.0, CdfValues(g.0, g.1)))
  }

  /** _ppf: numpy.interp of q with the roles of grid and cumulative array exchanged. */
  function PpfAt(density: Density, fitted: CalCurve, a: real, b: real, m: real, e: real, q: real): Result<real> {
    var g :- PdfGrid(density, fitted, a, b, m, e, DefaultThreshold);
    CdfValuesNormalised(g.0, g.1);
    Ok(NumpyInterp(q, CdfValues(g.0, g.1), g.0))
  }

  /** np.sum(t_values * pdf_values) * (t_values[1] - t_values[0]) */
  function GridMean(t: seq<real>, p: seq<real>): real
    requires |t| == |p| >= 2
  {
    Sum(Mul(t, p)) * Spacing(t)
  }

  /** np.sum((t_values - mean_val) ** 2 * pdf_values) * (t_values[1] - t_values[0]) */
  function GridVariance(t: seq<real>, p: seq<real>): real
    requires |t| == |p| >= 2
  {
    Sum(Mul(SquaredDeviations(t, GridMean(t, p)), p)) * Spacing(t)
  }

  /** np.sum(t_values ** n * pdf_values) * (t_values[1] - t_values[0]) */
  function GridMoment(t: seq<real>, p: seq<real>, n: nat): real
    requires |t| == |p| >= 2
  {
    Sum(Mul(PowAll(t, n), p)) * Spacing(t)
  }

  // ---------------------------------------------------------------------------
  // The distribution object

  /**
   * What CubicSpline demands of the curve it is fitted from: at least two calendar ages,
   * strictly increasing, and c14bp and c14_sigma of the same length as calbp.
   */
  predicate Fittable(c: CalCurve) {
    |c.calbp| >= 2 && StrictlyIncreasing(c.calbp) && Aligned(c)
  }

  /**
   * calrcarbon(curve, ...) succeeds on a cache in this state: min() needs a non-empty
   * calbp, and the splines need a fittable curve unless they are already fitted.
   */
  predicate Constructible(cached: Option<CalCurve>, curve: CalCurve) {
    |curve.calbp| > 0 && (cached.Some? || Fittable(curve))
  }

  /** The exception of a construction that fails: min() of an empty calbp comes first. */
  function ConstructionFailure(curve: CalCurve): Error {
    if |curve.calbp| == 0 then EmptyReduction else InvalidCurve
  }

  class CalRCarbon {
    const cache: SplineCache
    const a: real
    const b: real
    const c14Mean: Option<real>
    const c14Err: Option<real>

    /** An instance can compute: the splines are fitted and its range is ordered. */
    predicate Valid()
      reads cache
    {
      cache.fitted.Some? && a <= b
    }

    /**
     * __init__: a and b are the least and greatest calendar age of the curve; the
     * shared splines are fitted from this curve only when none are fitted yet.
     */
    constructor(cache: SplineCache, curve: CalCurve, c14Mean: Option<real>, c14Err: Option<real>)
      requires Constructible(cache.fitted, curve)
      modifies cache
      ensures this.cache == cache && this.c14Mean == c14Mean && this.c14Err == c14Err
      ensures a == Min(curve.calbp) && b == Max(curve.calbp)
      ensures cache.fitted == if old(cache.fitted).Some? then old(cache.fitted) else Some(curve)
      ensures Valid()
    {
      this.cache := cache;
      a := Min(curve.calbp);
      b := Max(curve.calbp);
      this.c14Mean := c14Mean;
      this.c14Err := c14Err;
      new;
      MinAtMostMax(curve.calbp);
      if cache.fitted.None? {
        cache.fitted := Some(curve);
      }
    }

    /** pdf: the density at tau with the parameters defaulted from the stored ones. */
    function Pdf(density: Density, tau: real, m: Option<real>, e: Option<real>): (r: Result<real>)
      reads cache
      requires Valid()
      ensures r.Ok? <==> (m.Some? || c14Mean.Some?) && (e.Some? || c14Err.Some?)
      ensures r.Ok? ==> r.value >= 0.0
    {
      var mm :- Resolve(m, c14Mean);
      var ee :- Resolve(e, c14Err);
      Ok(density(cache.fitted.value, tau, mm, ee))
    }

    /** _get_pdf_values, its in-place division included. */
    method GetPdfValues(density: Density, m: real, e: real, threshold: real) returns (r: Result<(seq<real>, seq<real>)>)
      requires Valid()
      ensures r == PdfGrid(density, cache.fitted.value, a, b, m, e, threshold)
    {
      var fitted := cache.fitted.value;
      var kept := Kept(density, fitted, a, b, m, e, threshold);
      if |kept| == 0 {
        return Err(EmptyReduction);
      }
      var t := Linspace(Min(kept), Max(kept), GridSize);
      var p := Evaluate(density, fitted, t, m, e);
      var z := Trapz(p, t);
      if z == 0.0 {
        return Err(NotANumber);
      }
      var values := new real[|p|](i requires 0 <= i < |p| => p[i]);
      assert values[..] == p;
      DivideInPlace(values, z);
      r := Ok((t, values[..]));
    }

    /** cdf (with _cdf): the normalised cumulative array interpolated at tau. */
    method Cdf(density: Density, tau: real, m: Option<real>, e: Option<real>) returns (r: Result<real>)
      requires Valid()
      ensures r == CdfOf(density, tau, m, e)
    {
      var mm :- Resolve(m, c14Mean);
      var ee :- Resolve(e, c14Err);
      var g :- GetPdfValues(density, mm, ee, DefaultThreshold);
      var cdf := CumulativeValues(g.0, g.1);
      r := Ok(NumpyInterp(tau, g.0, cdf));
    }

    /** sf (with _sf): one minus the cdf, failing exactly when the cdf does. */
    method Sf(density: Density, tau: real, m: Option<real>, e: Option<real>) returns (r: Result<real>)
      requires Valid()
      ensures var c := CdfOf(density, tau, m, e);
        (r.Ok? <==> c.Ok?) && (r.Ok? ==> r.value == 1.0 - c.value) && (r.Err? ==> r.error == c.error)
    {
      var c := Cdf(density, tau, m, e);
      if c.Err? {
        return Err(c.error);
      }
      r := Ok(1.0 - c.value);
    }

    /** What cdf returns, as a function of the same arguments. */
    function CdfOf(density: Density, tau: real, m: Option<real>, e: Option<real>): Result<real>
      reads cache
      requires Valid()
    {
      var mm :- Resolve(m, c14Mean);
      var ee :- Resolve(e, c14Err);
      CdfAt(density, cache.fitted.value, a, b, mm, ee, tau)
    }

    /** ppf (with _ppf): the grid interpolated at q on the normalised cumulative array. */
    method Ppf(density: Density, q: real, m: Option<real>, e: Option<real>) returns (r: Result<real>)
      requires Valid()
      ensures r == (var mm :- Resolve(m, c14Mean); var ee :- Resolve(e, c14Err);
                    PpfAt(density, cache.fitted.value, a, b, mm, ee, q))
    {
      var mm :- Resolve(m, c14Mean);
      var ee :- Resolve(e, c14Err);
      var g :- GetPdfValues(density, mm, ee, DefaultThreshold);
      var cdf := CumulativeValues(g.0, g.1);
      CdfValuesNormalised(g.0, g.1);
      r := Ok(NumpyInterp(q, cdf, g.0));
    }

    /** mean */
    function Mean(density: Density, m: Option<real>, e: Option<real>): Result<real>
      reads cache
      requires Valid()
    {
      var mm :- Resolve(m, c14Mean);
      var ee :- Resolve(e, c14Err);
      var g :- PdfGrid(density, cache.fitted.value, a, b, mm, ee, DefaultThreshold);
      Ok(GridMean(g.0, g.1))
    }

    /** variance, about the mean of the same parameters. */
    function Variance(density: Density, m: Option<real>, e: Option<real>): Result<real>
      reads cache
      requires Valid()
    {
      var mm :- Resolve(m, c14Mean);
      var ee :- Resolve(e, c14Err);
      var g :- PdfGrid(density, cache.fitted.value, a, b, mm, ee, DefaultThreshold);
      Ok(GridVariance(g.0, g.1))
    }

    /** moment, for a natural exponent n (the source accepts any numeric order). */
    function Moment(density: Density, n: nat, m: Option<real>, e: Option<real>): Result<real>
      reads cache
      requires Valid()
    {
      var mm :- Resolve(m, c14Mean);
      var ee :- Resolve(e, c14Err);
      var g :- PdfGrid(density, cache.fitted.value, a, b, mm, ee, DefaultThreshold);
      Ok(GridMoment(g.0, g.1, n))
    }
  }

  /**
   * New: building an instance from an empty curve raises in min(), and fitting the
   * first splines from a curve CubicSpline rejects raises in turn; either way the
   * shared splines are left as they were. Otherwise it is the constructor.
   */
  method New(cache: SplineCache, curve: CalCurve, c14Mean: Option<real>, c14Err: Option<real>)
    returns (r: Result<CalRCarbon>)
    modifies cache
    ensures r.Ok? <==> Constructible(old(cache.fitted), curve)
    ensures r.Err? ==> r.error == ConstructionFailure(curve) && cache.fitted == old(cache.fitted)
    ensures r.Ok? ==> fresh(r.value) && r.value.Valid() && r.value.cache == cache
    ensures r.Ok? ==> r.value.a == Min(curve.calbp) && r.value.b == Max(curve.calbp)
    ensures r.Ok? ==> r.value.c14Mean == c14Mean && r.value.c14Err == c14Err
    ensures r.Ok? ==> cache.fitted == if old(cache.fitted).Some? then old(cache.fitted) else Some(curve)
  {
    if |curve.calbp| == 0 {
      return Err(EmptyReduction);
    }
    if cache.fitted.None? && !Fittable(curve) {
      return Err(InvalidCurve);
    }
    var x := new CalRCarbon(cache, curve, c14Mean, c14Err);
    r := Ok(x);
  }

  // ---------------------------------------------------------------------------
  // Properties of the distribution functions

  /** The cdf lies in [0, 1]. */
  lemma CdfBounds(density: Density, fitted: CalCurve, a: real, b: real, m: real, e: real, tau: real)
    ensures var r := CdfAt(density, fitted, a, b, m, e, tau);
      r.Ok? ==> 0.0 <= r.value <= 1.0
  {
    var g := PdfGrid(density, fitted, a, b, m, e, DefaultThreshold);
    if g.Ok? {
      CdfValuesNormalised(g.value.0, g.value.1);
      NumpyInterpBetween(tau, g.value.0, CdfValues(g.value.0, g.value.1), 0.0, 1.0);
    }
  }

  /** The cdf is non-decreasing in tau. */
  lemma CdfMonotone(density: Density, fitted: CalCurve, a: real, b: real, m: real, e: real, tau1: real, tau2: real)
    requires tau1 <= tau2
    ensures var r1 := CdfAt(density, fitted, a, b, m, e, tau1);
      var r2 := CdfAt(density, fitted, a, b, m, e, tau2);
      r1.Ok? == r2.Ok? && (r1.Ok? ==> r1.value <= r2.value)
  {
    var g := PdfGrid(density, fitted, a, b, m, e, DefaultThreshold);
    if g.Ok? {
      CdfValuesNormalised(g.value.0, g.value.1);
      NumpyInterpMonotone(tau1, tau2, g.value.0, CdfValues(g.value.0, g.value.1));
    }
  }

  /** From the last grid point on, the cdf is exactly 1 (the survival function exactly 0). */
  lemma CdfAtRightEnd(density: Density, fitted: CalCurve, a: real, b: real, m: real, e: real, tau: real)
    ensures var g := PdfGrid(density, fitted, a, b, m, e, DefaultThreshold);
      g.Ok? && tau >= g.value.0[|g.value.0| - 1] ==> CdfAt(density, fitted, a, b, m, e, tau) == Ok(1.0)
  {
    var g := PdfGrid(density, fitted, a, b, m, e, DefaultThreshold);
    if g.Ok? {
      CdfValuesNormalised(g.value.0, g.value.1);
    }
  }

  /** The ppf lies on the trimmed grid's range, and a probability of 1 or more maps to its upper end. */
  lemma PpfBounds(density: Density, fitted: CalCurve, a: real, b: real, m: real, e: real, q: real)
    ensures var g := PdfGrid(density, fitted, a, b, m, e, DefaultThreshold);
      var r := PpfAt(density, fitted, a, b, m, e, q);
      g.Ok? ==>
        var t := g.value.0;
        r.Ok? && t[0] <= r.value <= t[|t| - 1] && (q >= 1.0 ==> r.value == t[|t| - 1])
  {
    var g := PdfGrid(density, fitted, a, b, m, e, DefaultThreshold);
    if g.Ok? {
      var t := g.value.0;
      CdfValuesNormalised(t, g.value.1);
      assert forall i :: 0 <= i < |t| ==> t[0] <= t[i] <= t[|t| - 1];
      NumpyInterpBetween(q, CdfValues(t, g.value.1), t, t[0], t[|t| - 1]);
    }
  }

  /** The survival function is one minus the cdf and lies in [0, 1]. */
  lemma SfBounds(x: CalRCarbon, density: Density, tau: real, m: Option<real>, e: Option<real>)
    requires x.Valid()
    ensures var c := x.CdfOf(density, tau, m, e);
      c.Ok? ==> 0.0 <= 1.0 - c.value <= 1.0
  {
    var mm := Resolve(m, x.c14Mean);
    var ee := Resolve(e, x.c14Err);
    if mm.Ok? && ee.Ok? {
      CdfBounds(density, x.cache.fitted.value, x.a, x.b, mm.value, ee.value, tau);
    }
  }

  /** moment(1) is the mean. */
  lemma {:induction false} GridMomentOneIsMean(t: seq<real>, p: seq<real>)
    requires |t| == |p| >= 2
    ensures GridMoment(t, p, 1) == GridMean(t, p)
  {
    PowAllOne(t);
  }

  lemma MomentOneIsMean(x: CalRCarbon, density: Density, m: Option<real>, e: Option<real>)
    requires x.Valid()
    ensures x.Moment(density, 1, m, e) == x.Mean(density, m, e)
  {
    var mm := Resolve(m, x.c14Mean);
    var ee := Resolve(e, x.c14Err);
    if mm.Ok? && ee.Ok? {
      var g := PdfGrid(density, x.cache.fitted.value, x.a, x.b, mm.value, ee.value, DefaultThreshold);
      if g.Ok? {
        GridMomentOneIsMean(g.value.0, g.value.1);
      }
    }
  }

  /** With ascending first points and a non-negative density the grid variance is non-negative. */
  lemma GridVarianceNonNegative(t: seq<real>, p: seq<real>)
    requires |t| == |p| >= 2 && t[0] <= t[1] && AllNonNegative(p)
    ensures GridVariance(t, p) >= 0.0
  {
    WeightedSquaresNonNegative(t, GridMean(t, p), p);
    ProductNonNegative(Sum(Mul(SquaredDeviations(t, GridMean(t, p)), p)), Spacing(t));
  }

  lemma VarianceNonNegative(x: CalRCarbon, density: Density, m: Option<real>, e: Option<real>)
    requires x.Valid()
    ensures x.Variance(density, m, e).Ok? ==> x.Variance(density, m, e).value >= 0.0
  {
    var mm := Resolve(m, x.c14Mean);
    var ee := Resolve(e, x.c14Err);
    if mm.Ok? && ee.Ok? {
      var g := PdfGrid(density, x.cache.fitted.value, x.a, x.b, mm.value, ee.value, DefaultThreshold);
      if g.Ok? {
        assert g.value.0[0] <= g.value.0[1];
        GridVarianceNonNegative(g.value.0, g.value.1);
      }
    }
  }

  /**
   * The moments fail exactly when the parameters cannot be resolved or the grid cannot
   * be built, and then all three fail alike.
   */
  lemma MomentsFailTogether(x: CalRCarbon, density: Density, n: nat, m: Option<real>, e: Option<real>)
    requires x.Valid()
    ensures x.Mean(density, m, e).Ok? <==> x.Variance(density, m, e).Ok?
    ensures x.Mean(density, m, e).Ok? <==> x.Moment(density, n, m, e).Ok?
    ensures x.Mean(density, m, e).Ok? <==> x.CdfOf(density, 0.0, m, e).Ok?
  {
  }
}
