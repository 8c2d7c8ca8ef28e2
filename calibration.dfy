/**
 * calibrate of src/chronologer/calibration.py: for each (age, error) pair a calrcarbon
 * distribution is built, its density is sampled on 10000 points across the curve's
 * range, trimmed to the points above a tolerance, and summarised by a grid mean and
 * variance and by its highest-density intervals.
 */
module Calibration {
  import opened Wrappers
  import opened Grid
  import opened CalCurves
  import Distributions
  import Hdi

  /** The results of one date; std is the square root of variance. */
  datatype DateSummary = DateSummary(
    radiocarbonAge: real,
    mean: real,
    variance: real,
    hdiIntervals: seq<Hdi.Interval>,
    tValues: seq<real>,
    pdfValues: seq<real>)

  /** One entry of the results list: the summary and the calibrated_distribution object. */
  datatype DateResult = DateResult(summary: DateSummary, distribution: Distributions.CalRCarbon)

  /** The density values on the sampled grid, before trimming. */
  function SampledPdf(density: Distributions.Density, fitted: CalCurve, a: real, b: real, age: real, err: real)
    : (r: seq<real>)
    ensures |r| == |Distributions.FirstGrid(a, b)|
  {
    Distributions.Evaluate(density, fitted, Distributions.FirstGrid(a, b), age, err)
  }

  /** mask = pdf_values > tol */
  function TrimMask(density: Distributions.Density, fitted: CalCurve, a: real, b: real, age: real, err: real, tol: real)
    : (mask: seq<bool>)
    ensures |mask| == |Distributions.FirstGrid(a, b)|
  {
    Distributions.AboveThreshold(SampledPdf(density, fitted, a, b, age, err), tol)
  }

  /** t_values[mask] */
  function TrimmedAges(density: Distributions.Density, fitted: CalCurve, a: real, b: real, age: real, err: real, tol: real)
    : (r: seq<real>)
    ensures |r| == CountTrue(TrimMask(density, fitted, a, b, age, err, tol))
  {
    var mask := TrimMask(density, fitted, a, b, age, err, tol);
    MaskedLength(Distributions.FirstGrid(a, b), mask);
    Masked(Distributions.FirstGrid(a, b), mask)
  }

  /** pdf_values[mask] */
  function TrimmedPdf(density: Distributions.Density, fitted: CalCurve, a: real, b: real, age: real, err: real, tol: real)
    : (r: seq<real>)
    ensures |r| == CountTrue(TrimMask(density, fitted, a, b, age, err, tol))
  {
    var mask := TrimMask(density, fitted, a, b, age, err, tol);
    MaskedLength(SampledPdf(density, fitted, a, b, age, err), mask);
    Masked(SampledPdf(density, fitted, a, b, age, err), mask)
  }

  /**
   * The summary of one trimmed grid: t_values[1] raises IndexError when fewer than two
   * points survive the trimming, and hdi may raise in turn.
   */
  function Summarise(t: seq<real>, p: seq<real>, age: real, prob: real): Result<DateSummary>
    requires |t| == |p|
  {
    if |t| < 2 then Err(IndexOutOfRange)
    else
      var intervals :- Hdi.HdiSpec(t, p, prob, Hdi.ArgsortDesc(p));
      Ok(DateSummary(age, Distributions.GridMean(t, p), Distributions.GridVariance(t, p), intervals, t, p))
  }

  /**
   * One iteration of the loop, on a distribution whose splines were fitted from
   * `fitted` and whose range is [a, b].
   */
  function CalibrateDate(density: Distributions.Density, fitted: CalCurve, a: real, b: real, age: real, err: real,
                         prob: real, tol: real): Result<DateSummary>
  {
    Summarise(TrimmedAges(density, fitted, a, b, age, err, tol), TrimmedPdf(density, fitted, a, b, age, err, tol),
              age, prob)
  }

  /** The curve every distribution's splines come from: the cached one, or this one if none is cached. */
  function FittedCurve(cached: Option<CalCurve>, curve: CalCurve): CalCurve {
    if cached.Some? then cached.value else curve
  }

  function ZipLength(ages: seq<real>, errors: seq<real>): nat {
    if |ages| <= |errors| then |ages| else |errors|
  }

  /** The date i of the zip, calibrated against the splines of `fitted` on the range of `curve`. */
  function DateOf(density: Distributions.Density, fitted: CalCurve, curve: CalCurve, ages: seq<real>, errors: seq<real>,
                  i: nat, prob: real, tol: real): Result<DateSummary>
    requires |curve.calbp| > 0 && i < |ages| && i < |errors|
  {
    CalibrateDate(density, fitted, Min(curve.calbp), Max(curve.calbp), ages[i], errors[i], prob, tol)
  }

  /**
   * The body of the loop for one distribution object: its density on the grid over its
   * range, trimmed, then the grid mean and variance and hdi.
   */
  method CalibrateWith(cal: Distributions.CalRCarbon, density: Distributions.Density, prob: real, tol: real)
    returns (r: Result<DateSummary>)
    requires cal.Valid() && cal.c14Mean.Some? && cal.c14Err.Some?
    ensures r == CalibrateDate(density, cal.cache.fitted.value, cal.a, cal.b, cal.c14Mean.value, cal.c14Err.value, prob, tol)
  {
    var age := cal.c14Mean.value;
    var err := cal.c14Err.value;
    var t := Distributions.FirstGrid(cal.a, cal.b);
    var pdfValues := Distributions.Evaluate(density, cal.cache.fitted.value, t, age, err);
    var mask := Distributions.AboveThreshold(pdfValues, tol);
    MaskedLength(t, mask);
    MaskedLength(pdfValues, mask);
    t := Masked(t, mask);
    pdfValues := Masked(pdfValues, mask);
    if |t| < 2 {
      return Err(IndexOutOfRange);
    }
    var meanAge := Distributions.GridMean(t, pdfValues);
    var varianceAge := Distributions.GridVariance(t, pdfValues);
    var intervals :- Hdi.ComputeHdi(t, pdfValues, prob, Hdi.ArgsortDesc(pdfValues));
    r := Ok(DateSummary(age, meanAge, varianceAge, intervals, t, pdfValues));
  }

  /** x is the distribution calrcarbon(curve, c14_mean=age, c14_err=err) built on the shared cache. */
  predicate MadeFrom(x: Distributions.CalRCarbon, cache: Distributions.SplineCache, curve: CalCurve, age: real, err: real) {
    x.cache == cache && x.c14Mean == Some(age) && x.c14Err == Some(err) &&
    |curve.calbp| > 0 && x.a == Min(curve.calbp) && x.b == Max(curve.calbp)
  }

  /**
   * One iteration of the loop, on pair i of the zip: build the distribution, then
   * summarise it. `fitted` is the curve the shared splines are (or will be) fitted from.
   */
  method CalibrateStep(cache: Distributions.SplineCache, density: Distributions.Density, curve: CalCurve,
                       ghost fitted: CalCurve, ages: seq<real>, errors: seq<real>, i: nat, prob: real, tol: real)
    returns (r: Result<DateResult>)
    requires i < |ages| && i < |errors| && fitted == FittedCurve(cache.fitted, curve)
    modifies cache
    ensures !Distributions.Constructible(old(cache.fitted), curve) ==>
      r == Err(Distributions.ConstructionFailure(curve)) && cache.fitted == old(cache.fitted)
    ensures Distributions.Constructible(old(cache.fitted), curve) ==> cache.fitted == Some(fitted)
    ensures Distributions.Constructible(old(cache.fitted), curve) && r.Ok? ==>
      DateOf(density, fitted, curve, ages, errors, i, prob, tol) == Ok(r.value.summary)
    ensures Distributions.Constructible(old(cache.fitted), curve) && r.Err? ==>
      DateOf(density, fitted, curve, ages, errors, i, prob, tol) == Err(r.error)
    ensures r.Ok? ==> fresh(r.value.distribution) && MadeFrom(r.value.distribution, cache, curve, ages[i], errors[i])
  {
    var cal :- Distributions.New(cache, curve, Some(ages[i]), Some(errors[i]));
    var summary :- CalibrateWith(cal, density, prob, tol);
    r := Ok(DateResult(summary, cal));
  }

  /**
   * What calibrate returns for the zip of ages and errors: one result per pair, in
   * order, whose summary is that pair's date and whose distribution was built from that
   * pair on the shared cache, or else the error of the first pair that fails.
   */
  predicate Calibrated(density: Distributions.Density, fitted: CalCurve, cache: Distributions.SplineCache,
                       curve: CalCurve, ages: seq<real>, errors: seq<real>, prob: real, tol: real,
                       r: Result<seq<DateResult>>)
    requires |curve.calbp| > 0
  {
    var n := ZipLength(ages, errors);
    (r.Ok? <==> forall i :: 0 <= i < n ==> DateOf(density, fitted, curve, ages, errors, i, prob, tol).Ok?) &&
    (r.Ok? ==> (|r.value| == n &&
      forall i :: 0 <= i < n ==>
        r.value[i].summary == DateOf(density, fitted, curve, ages, errors, i, prob, tol).value &&
        MadeFrom(r.value[i].distribution, cache, curve, ages[i], errors[i]))) &&
    (r.Err? ==> exists i :: (0 <= i < n && DateOf(density, fitted, curve, ages, errors, i, prob, tol) == Err(r.error) &&
      forall j :: 0 <= j < i ==> DateOf(density, fitted, curve, ages, errors, j, prob, tol).Ok?))
  }

  /** The results of the first |results| pairs, each agreeing with its date. */
  predicate Agrees(density: Distributions.Density, fitted: CalCurve, cache: Distributions.SplineCache,
                   curve: CalCurve, ages: seq<real>, errors: seq<real>, prob: real, tol: real,
                   results: seq<DateResult>)
  {
    |results| <= ZipLength(ages, errors) &&
    (|results| == 0 || |curve.calbp| > 0) &&
    forall j :: 0 <= j < |results| ==>
      |curve.calbp| > 0 &&
      DateOf(density, fitted, curve, ages, errors, j, prob, tol) == Ok(results[j].summary) &&
      MadeFrom(results[j].distribution, cache, curve, ages[j], errors[j])
  }

  /** A further pair that calibrates extends the agreeing results. */
  lemma AgreesExtend(density: Distributions.Density, fitted: CalCurve, cache: Distributions.SplineCache,
                     curve: CalCurve, ages: seq<real>, errors: seq<real>, prob: real, tol: real,
                     results: seq<DateResult>, i: nat, x: DateResult)
    requires Agrees(density, fitted, cache, curve, ages, errors, prob, tol, results)
    requires i == |results| < ZipLength(ages, errors) && |curve.calbp| > 0
    requires DateOf(density, fitted, curve, ages, errors, i, prob, tol) == Ok(x.summary)
    requires MadeFrom(x.distribution, cache, curve, ages[i], errors[i])
    ensures Agrees(density, fitted, cache, curve, ages, errors, prob, tol, results + [x])
  {
    var extended := results + [x];
    forall j | 0 <= j < |extended|
      ensures DateOf(density, fitted, curve, ages, errors, j, prob, tol) == Ok(extended[j].summary)
      ensures MadeFrom(extended[j].distribution, cache, curve, ages[j], errors[j])
    {
      if j < i {
        assert extended[j] == results[j];
      }
    }
  }

  /** Results agreeing on every pair of the zip are what calibrate returns. */
  lemma AgreesComplete(density: Distributions.Density, fitted: CalCurve, cache: Distributions.SplineCache,
                       curve: CalCurve, ages: seq<real>, errors: seq<real>, prob: real, tol: real,
                       results: seq<DateResult>)
    requires Agrees(density, fitted, cache, curve, ages, errors, prob, tol, results)
    requires |results| == ZipLength(ages, errors) && |curve.calbp| > 0
    ensures Calibrated(density, fitted, cache, curve, ages, errors, prob, tol, Ok(results))
  {
  }

  /** After agreeing results, the first pair that fails decides the error calibrate returns. */
  lemma AgreesThenFails(density: Distributions.Density, fitted: CalCurve, cache: Distributions.SplineCache,
                        curve: CalCurve, ages: seq<real>, errors: seq<real>, prob: real, tol: real,
                        results: seq<DateResult>, i: nat, e: Error)
    requires Agrees(density, fitted, cache, curve, ages, errors, prob, tol, results)
    requires i == |results| < ZipLength(ages, errors) && |curve.calbp| > 0
    requires DateOf(density, fitted, curve, ages, errors, i, prob, tol) == Err(e)
    ensures Calibrated(density, fitted, cache, curve, ages, errors, prob, tol, Err(e))
  {
    assert forall j :: 0 <= j < i ==> DateOf(density, fitted, curve, ages, errors, j, prob, tol).Ok?;
  }

  /**
   * calibrate with as_pandas=False. The first construction raises on an empty curve,
   * and on a curve CubicSpline rejects when no splines are cached; otherwise it fits
   * the shared splines when none are cached, and every later construction succeeds.
   */
  method Calibrate(cache: Distributions.SplineCache, density: Distributions.Density, ages: seq<real>, errors: seq<real>,
                   curve: CalCurve, prob: real, tol: real) returns (r: Result<seq<DateResult>>)
    modifies cache
    ensures ZipLength(ages, errors) == 0 ==> r == Ok([]) && cache.fitted == old(cache.fitted)
    ensures ZipLength(ages, errors) > 0 && !Distributions.Constructible(old(cache.fitted), curve) ==>
      r == Err(Distributions.ConstructionFailure(curve)) && cache.fitted == old(cache.fitted)
    ensures ZipLength(ages, errors) > 0 && Distributions.Constructible(old(cache.fitted), curve) ==>
      cache.fitted == Some(FittedCurve(old(cache.fitted), curve))
    ensures Distributions.Constructible(old(cache.fitted), curve) ==>
      Calibrated(density, FittedCurve(old(cache.fitted), curve), cache, curve, ages, errors, prob, tol, r)
  {
    var n := ZipLength(ages, errors);
    ghost var fitted := FittedCurve(cache.fitted, curve);
    var results: seq<DateResult> := [];
    for i := 0 to n
      invariant |results| == i
      invariant i == 0 ==> cache.fitted == old(cache.fitted)
      invariant i > 0 ==> Distributions.Constructible(old(cache.fitted), curve) && cache.fitted == Some(fitted)
      invariant Agrees(density, fitted, cache, curve, ages, errors, prob, tol, results)
    {
      var d := CalibrateStep(cache, density, curve, fitted, ages, errors, i, prob, tol);
      if d.Err? {
        if Distributions.Constructible(old(cache.fitted), curve) {
          AgreesThenFails(density, fitted, cache, curve, ages, errors, prob, tol, results, i, d.error);
        }
        return Err(d.error);
      }
      AgreesExtend(density, fitted, cache, curve, ages, errors, prob, tol, results, i, d.value);
      results := results + [d.value];
    }
    if Distributions.Constructible(old(cache.fitted), curve) {
      AgreesComplete(density, fitted, cache, curve, ages, errors, prob, tol, results);
    }
    return Ok(results);
  }

  // ---------------------------------------------------------------------------
  // Properties of one calibrated date

  /** The shape the trimming guarantees: equal lengths, ascending first two ages, no negative density. */
  predicate TrimmedShape(t: seq<real>, p: seq<real>) {
    |t| == |p| && (|t| >= 2 ==> t[0] <= t[1]) && AllNonNegative(p)
  }

  /**
   * A trimmed grid is summarised exactly when it has at least two points and the mass
   * of the top-ranked point alone does not exceed hdi_prob.
   */
  lemma SummariseSucceeds(t: seq<real>, p: seq<real>, age: real, prob: real)
    requires TrimmedShape(t, p)
    ensures Summarise(t, p, age, prob).Ok? <==> (|t| >= 2 && p[Hdi.ArgsortDesc(p)[0]] * Hdi.Step(t) <= prob)
  {
    SummariseOk(t, p, age, prob);
    if |t| >= 2 {
      Hdi.HdiFailsIff(t, p, prob, Hdi.ArgsortDesc(p));
    }
  }

  lemma SummariseOk(t: seq<real>, p: seq<real>, age: real, prob: real)
    requires |t| == |p|
    ensures Summarise(t, p, age, prob).Ok? <==> (|t| >= 2 && Hdi.HdiSpec(t, p, prob, Hdi.ArgsortDesc(p)).Ok?)
  {
  }

  /** The variance of a summarised grid is non-negative, so its std is defined. */
  lemma SummariseVariance(t: seq<real>, p: seq<real>, age: real, prob: real)
    requires TrimmedShape(t, p)
    ensures Summarise(t, p, age, prob).Ok? ==> Summarise(t, p, age, prob).value.variance >= 0.0
  {
    if |t| >= 2 {
      Distributions.GridVarianceNonNegative(t, p);
    }
  }

  /**
   * A summary keeps the trimmed grid and the radiocarbon age, and its intervals are
   * those hdi computes on the grid, so every selected age lies in exactly one of them.
   */
  lemma SummariseIntervals(t: seq<real>, p: seq<real>, age: real, prob: real, x: real)
    requires TrimmedShape(t, p) && Summarise(t, p, age, prob).Ok?
    ensures var s := Summarise(t, p, age, prob).value;
      s.tValues == t && s.pdfValues == p && s.radiocarbonAge == age &&
      Hdi.HdiSpec(t, p, prob, Hdi.ArgsortDesc(p)) == Ok(s.hdiIntervals)
    ensures var runs := Summarise(t, p, age, prob).value.hdiIntervals;
      x in Hdi.Selection(t, p, prob, Hdi.ArgsortDesc(p)) ==>
        (exists k :: 0 <= k < |runs| && runs[k].start <= x <= runs[k].end) &&
        forall k, l ::
          (0 <= k < |runs| && 0 <= l < |runs| &&
           runs[k].start <= x <= runs[k].end && runs[l].start <= x <= runs[l].end) ==> k == l
  {
    if x in Hdi.Selection(t, p, prob, Hdi.ArgsortDesc(p)) {
      Hdi.HdiCoversSelection(t, p, prob, Hdi.ArgsortDesc(p), x);
    }
  }

  /** Masking the sampled density is sampling the density on the masked grid. */
  lemma {:induction false} MaskedEvaluate(density: Distributions.Density, fitted: CalCurve, t: seq<real>, m: real, e: real,
                                          mask: seq<bool>)
    requires |mask| == |t|
    ensures Masked(Distributions.Evaluate(density, fitted, t, m, e), mask)
         == Distributions.Evaluate(density, fitted, Masked(t, mask), m, e)
  {
    if |t| > 0 {
      var p := Distributions.Evaluate(density, fitted, t, m, e);
      assert p[1..] == Distributions.Evaluate(density, fitted, t[1..], m, e);
      MaskedEvaluate(density, fitted, t[1..], m, e, mask[1..]);
    }
  }

  /**
   * The trimming keeps, in ascending order and inside [a, b], exactly the sampled ages
   * whose density exceeds the tolerance, each with its own density value.
   */
  lemma Trimmed(density: Distributions.Density, fitted: CalCurve, a: real, b: real, age: real, err: real, tol: real)
    requires a <= b
    ensures var t := TrimmedAges(density, fitted, a, b, age, err, tol);
      var p := TrimmedPdf(density, fitted, a, b, age, err, tol);
      |t| == |p| &&
      NonDecreasing(t) && AllNonNegative(p) &&
      (forall k :: 0 <= k < |t| ==> a <= t[k] <= b) &&
      (forall k :: 0 <= k < |t| ==> p[k] == density(fitted, t[k], age, err) && p[k] > tol)
    ensures var s := Distributions.FirstGrid(a, b);
      var q := SampledPdf(density, fitted, a, b, age, err);
      forall i :: 0 <= i < |s| && q[i] > tol ==> s[i] in TrimmedAges(density, fitted, a, b, age, err, tol)
  {
    var s := Distributions.FirstGrid(a, b);
    var mask := TrimMask(density, fitted, a, b, age, err, tol);
    var t := TrimmedAges(density, fitted, a, b, age, err, tol);
    var p := TrimmedPdf(density, fitted, a, b, age, err, tol);
    LinspaceOrdered(a, b, Distributions.GridSize);
    MaskedSorted(s, mask);
    MaskedMembers(s, mask);
    MaskedEvaluate(density, fitted, s, age, err, mask);
    assert p == Distributions.Evaluate(density, fitted, t, age, err);
    forall k | 0 <= k < |t|
      ensures a <= t[k] <= b && p[k] > tol
    {
      assert t[k] in t;
      var i :| 0 <= i < |s| && mask[i] && s[i] == t[k];
    }
  }

  /** The part of Trimmed the summary relies on. */
  lemma TrimmedStart(density: Distributions.Density, fitted: CalCurve, a: real, b: real, age: real, err: real, tol: real)
    requires a <= b
    ensures TrimmedShape(TrimmedAges(density, fitted, a, b, age, err, tol), TrimmedPdf(density, fitted, a, b, age, err, tol))
  {
    var t := TrimmedAges(density, fitted, a, b, age, err, tol);
    Trimmed(density, fitted, a, b, age, err, tol);
    if |t| >= 2 {
      assert t[0] <= t[1];
    }
  }

  /** The variance of a calibrated date is non-negative, so its std is defined. */
  lemma VarianceNonNegative(density: Distributions.Density, fitted: CalCurve, a: real, b: real, age: real, err: real,
                            prob: real, tol: real)
    requires a <= b
    ensures var r := CalibrateDate(density, fitted, a, b, age, err, prob, tol);
      r.Ok? ==> r.value.variance >= 0.0
  {
    TrimmedStart(density, fitted, a, b, age, err, tol);
    SummariseVariance(TrimmedAges(density, fitted, a, b, age, err, tol), TrimmedPdf(density, fitted, a, b, age, err, tol),
                      age, prob);
  }

  /**
   * A calibrated date keeps the trimmed grid, and its intervals are those hdi computes
   * on it, so every trimmed age hdi selects lies in exactly one of them.
   */
  lemma CalibratedIntervals(density: Distributions.Density, fitted: CalCurve, a: real, b: real, age: real, err: real,
                            prob: real, tol: real, x: real)
    requires a <= b
    requires CalibrateDate(density, fitted, a, b, age, err, prob, tol).Ok?
    ensures var t := TrimmedAges(density, fitted, a, b, age, err, tol);
      var p := TrimmedPdf(density, fitted, a, b, age, err, tol);
      var s := CalibrateDate(density, fitted, a, b, age, err, prob, tol).value;
      s.tValues == t && s.pdfValues == p && s.radiocarbonAge == age &&
      Hdi.HdiSpec(t, p, prob, Hdi.ArgsortDesc(p)) == Ok(s.hdiIntervals)
    ensures var t := TrimmedAges(density, fitted, a, b, age, err, tol);
      var p := TrimmedPdf(density, fitted, a, b, age, err, tol);
      var runs := CalibrateDate(density, fitted, a, b, age, err, prob, tol).value.hdiIntervals;
      x in Hdi.Selection(t, p, prob, Hdi.ArgsortDesc(p)) ==>
        (exists k :: 0 <= k < |runs| && runs[k].start <= x <= runs[k].end) &&
        forall k, l ::
          (0 <= k < |runs| && 0 <= l < |runs| &&
           runs[k].start <= x <= runs[k].end && runs[l].start <= x <= runs[l].end) ==> k == l
  {
    TrimmedStart(density, fitted, a, b, age, err, tol);
    SummariseIntervals(TrimmedAges(density, fitted, a, b, age, err, tol), TrimmedPdf(density, fitted, a, b, age, err, tol),
                       age, prob, x);
  }
}
