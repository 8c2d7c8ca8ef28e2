/**
 * The grid calibration of chronologer/calibration.py: for each (age, error) pair the
 * likelihood of every curve point is normalised to sum to one, and the calibrated
 * mean, variance and equal-tailed interval are read off that discrete density.
 * The Gaussian likelihood is an abstract kernel; the pandas summary is not modelled.
 */
module LegacyCalibration {
  import opened Wrappers
  import opened Grid

  /**
   * norm.pdf(age, loc=c14bp[j], scale=sqrt(c14_sigma[j]**2 + error**2)), as a function
   * of (age, error, c14bp[j], c14_sigma[j]); a density, so never negative.
   */
  type Kernel = k: (real, real, real, real) -> real | forall age, err, mu, sigma :: k(age, err, mu, sigma) >= 0.0
    witness (age: real, err: real, mu: real, sigma: real) => 0.0

  /** The per-date record of results; std is the square root of variance. */
  datatype Summary = Summary(
    radiocarbonAge: real,
    mean: real,
    variance: real,
    lowerIndex: nat,
    upperIndex: nat,
    hdiLower: real,
    hdiUpper: real,
    density: seq<real>,
    domain: seq<real>)

  function Likelihoods(age: real, err: real, c14bp: seq<real>, c14Sigma: seq<real>, kernel: Kernel): (r: seq<real>)
    requires |c14Sigma| == |c14bp|
    ensures |r| == |c14bp| && AllNonNegative(r)
  {
    seq(|c14bp|, j requires 0 <= j < |c14bp| => kernel(age, err, c14bp[j], c14Sigma[j]))
  }

  /** The two quantiles searched for: (1 - hdi_prob) / 2 and 1 - (1 - hdi_prob) / 2. */
  function LowerTail(prob: real): real { (1.0 - prob) / 2.0 }
  function UpperTail(prob: real): real { 1.0 - (1.0 - prob) / 2.0 }

  /** Summary statistics of an already normalised density over calbp. */
  function Summarise(age: real, calbp: seq<real>, density: seq<real>, prob: real): Result<Summary>
    requires |density| == |calbp|
  {
    var mean := Sum(Mul(calbp, density));
    var variance := Sum(Mul(SquaredDeviations(calbp, mean), density));
    var cdf := CumSum(density);
    var lower := SearchSortedLeft(cdf, LowerTail(prob));
    var upper := SearchSortedLeft(cdf, UpperTail(prob));
    if lower >= |calbp| || upper >= |calbp| then Err(IndexOutOfRange)   // calbp[idx]
    else Ok(Summary(age, mean, variance, lower, upper, calbp[lower], calbp[upper], density, calbp))
  }

  /** One iteration of the loop of calibrate. */
  function CalibrateDate(age: real, err: real, calbp: seq<real>, c14bp: seq<real>, c14Sigma: seq<real>,
                         prob: real, kernel: Kernel): Result<Summary>
    requires |c14bp| == |calbp| && |c14Sigma| == |calbp|
  {
    var lik := Likelihoods(age, err, c14bp, c14Sigma, kernel);
    var total := Sum(lik);
    if |calbp| == 0 then Err(IndexOutOfRange)   // calbp[lower_idx] of an empty curve
    else if total == 0.0 then Err(NotANumber)   // likelihoods /= 0
    else Summarise(age, calbp, DivideBy(lik, total), prob)
  }

  /** How many pairs zip(ages, errors) yields. */
  function ZipLength(ages: seq<real>, errors: seq<real>): nat {
    if |ages| <= |errors| then |ages| else |errors|
  }

  /**
   * What calibrate promises: every pair of the zip calibrates and the summaries are
   * theirs, in input order, or the error is that of the first pair that fails.
   */
  predicate Calibrated(ages: seq<real>, errors: seq<real>, calbp: seq<real>, c14bp: seq<real>, c14Sigma: seq<real>,
                       prob: real, kernel: Kernel, r: Result<seq<Summary>>)
    requires |c14bp| == |calbp| && |c14Sigma| == |calbp|
  {
    var n := ZipLength(ages, errors);
    (r.Ok? <==> forall i :: 0 <= i < n ==> CalibrateDate(ages[i], errors[i], calbp, c14bp, c14Sigma, prob, kernel).Ok?) &&
    (r.Ok? ==> (|r.value| == n &&
       forall i :: 0 <= i < n ==> r.value[i] == CalibrateDate(ages[i], errors[i], calbp, c14bp, c14Sigma, prob, kernel).value)) &&
    (r.Err? ==> exists i :: (0 <= i < n &&
       CalibrateDate(ages[i], errors[i], calbp, c14bp, c14Sigma, prob, kernel) == Err(r.error) &&
       forall j :: 0 <= j < i ==> CalibrateDate(ages[j], errors[j], calbp, c14bp, c14Sigma, prob, kernel).Ok?))
  }

  /** The summaries of the first |results| pairs. */
  predicate Agrees(ages: seq<real>, errors: seq<real>, calbp: seq<real>, c14bp: seq<real>, c14Sigma: seq<real>,
                   prob: real, kernel: Kernel, results: seq<Summary>)
    requires |c14bp| == |calbp| && |c14Sigma| == |calbp|
  {
    |results| <= ZipLength(ages, errors) &&
    forall j :: 0 <= j < |results| ==>
      CalibrateDate(ages[j], errors[j], calbp, c14bp, c14Sigma, prob, kernel) == Ok(results[j])
  }

  /** A further pair that calibrates extends the agreeing summaries. */
  lemma AgreesExtend(ages: seq<real>, errors: seq<real>, calbp: seq<real>, c14bp: seq<real>, c14Sigma: seq<real>,
                     prob: real, kernel: Kernel, results: seq<Summary>, x: Summary)
    requires |c14bp| == |calbp| && |c14Sigma| == |calbp|
    requires Agrees(ages, errors, calbp, c14bp, c14Sigma, prob, kernel, results)
    requires |results| < ZipLength(ages, errors)
    requires CalibrateDate(ages[|results|], errors[|results|], calbp, c14bp, c14Sigma, prob, kernel) == Ok(x)
    ensures Agrees(ages, errors, calbp, c14bp, c14Sigma, prob, kernel, results + [x])
  {
    var extended := results + [x];
    forall j | 0 <= j < |extended|
      ensures CalibrateDate(ages[j], errors[j], calbp, c14bp, c14Sigma, prob, kernel) == Ok(extended[j])
    {
      if j < |results| {
        assert extended[j] == results[j];
      }
    }
  }

  /** Summaries agreeing on every pair of the zip are what calibrate returns. */
  lemma AgreesComplete(ages: seq<real>, errors: seq<real>, calbp: seq<real>, c14bp: seq<real>, c14Sigma: seq<real>,
                       prob: real, kernel: Kernel, results: seq<Summary>)
    requires |c14bp| == |calbp| && |c14Sigma| == |calbp|
    requires Agrees(ages, errors, calbp, c14bp, c14Sigma, prob, kernel, results)
    requires |results| == ZipLength(ages, errors)
    ensures Calibrated(ages, errors, calbp, c14bp, c14Sigma, prob, kernel, Ok(results))
  {
  }

  /** After agreeing summaries, the first pair that fails decides the error. */
  lemma AgreesThenFails(ages: seq<real>, errors: seq<real>, calbp: seq<real>, c14bp: seq<real>, c14Sigma: seq<real>,
                        prob: real, kernel: Kernel, results: seq<Summary>, e: Error)
    requires |c14bp| == |calbp| && |c14Sigma| == |calbp|
    requires Agrees(ages, errors, calbp, c14bp, c14Sigma, prob, kernel, results)
    requires |results| < ZipLength(ages, errors)
    requires CalibrateDate(ages[|results|], errors[|results|], calbp, c14bp, c14Sigma, prob, kernel) == Err(e)
    ensures Calibrated(ages, errors, calbp, c14bp, c14Sigma, prob, kernel, Err(e))
  {
    var i := |results|;
    assert forall j :: 0 <= j < i ==> CalibrateDate(ages[j], errors[j], calbp, c14bp, c14Sigma, prob, kernel).Ok?;
  }

  /**
   * calibrate with as_pandas=False: one summary per (age, error) pair of the zip, in
   * input order, or the error of the first pair that fails.
   */
  method Calibrate(ages: seq<real>, errors: seq<real>, calbp: seq<real>, c14bp: seq<real>, c14Sigma: seq<real>,
                   prob: real, kernel: Kernel) returns (r: Result<seq<Summary>>)
    requires |c14bp| == |calbp| && |c14Sigma| == |calbp|
    ensures Calibrated(ages, errors, calbp, c14bp, c14Sigma, prob, kernel, r)
  {
    var n := ZipLength(ages, errors);
    var results: seq<Summary> := [];
    for i := 0 to n
      invariant |results| == i
      invariant Agrees(ages, errors, calbp, c14bp, c14Sigma, prob, kernel, results)
    {
      var summary := CalibrateOne(ages[i], errors[i], calbp, c14bp, c14Sigma, prob, kernel);
      if summary.Err? {
        AgreesThenFails(ages, errors, calbp, c14bp, c14Sigma, prob, kernel, results, summary.error);
        return Err(summary.error);
      }
      AgreesExtend(ages, errors, calbp, c14bp, c14Sigma, prob, kernel, results, summary.value);
      results := results + [summary.value];
    }
    AgreesComplete(ages, errors, calbp, c14bp, c14Sigma, prob, kernel, results);
    return Ok(results);
  }

  /** The body of the loop: the likelihood array, normalised in place, then summarised. */
  method CalibrateOne(age: real, err: real, calbp: seq<real>, c14bp: seq<real>, c14Sigma: seq<real>,
                      prob: real, kernel: Kernel) returns (r: Result<Summary>)
    requires |c14bp| == |calbp| && |c14Sigma| == |calbp|
    ensures r == CalibrateDate(age, err, calbp, c14bp, c14Sigma, prob, kernel)
  {
    var lik := Likelihoods(age, err, c14bp, c14Sigma, kernel);
    var likelihoods := new real[|lik|](j requires 0 <= j < |lik| => lik[j]);
    var total := Sum(likelihoods[..]);
    assert likelihoods[..] == lik;
    if |calbp| == 0 {
      return Err(IndexOutOfRange);
    }
    if total == 0.0 {
      return Err(NotANumber);
    }
    DivideInPlace(likelihoods, total);
    r := Summarise(age, calbp, likelihoods[..], prob);
  }

  // ---------------------------------------------------------------------------
  // Properties of one calibrated date

  /** The density of a successful calibration, and its sum before normalisation. */
  lemma CalibratedDensity(age: real, err: real, calbp: seq<real>, c14bp: seq<real>, c14Sigma: seq<real>,
                          prob: real, kernel: Kernel)
    requires |c14bp| == |calbp| && |c14Sigma| == |calbp|
    requires CalibrateDate(age, err, calbp, c14bp, c14Sigma, prob, kernel).Ok?
    ensures var lik := Likelihoods(age, err, c14bp, c14Sigma, kernel);
      var s := CalibrateDate(age, err, calbp, c14bp, c14Sigma, prob, kernel).value;
      |calbp| > 0 && Sum(lik) != 0.0 && s.density == DivideBy(lik, Sum(lik)) && s.domain == calbp &&
      s.radiocarbonAge == age &&
      s.mean == Sum(Mul(calbp, s.density)) &&
      s.variance == Sum(Mul(SquaredDeviations(calbp, s.mean), s.density))
  {
  }

  /** After normalisation the density sums to one. */
  lemma DensitySumsToOne(age: real, err: real, calbp: seq<real>, c14bp: seq<real>, c14Sigma: seq<real>,
                         prob: real, kernel: Kernel)
    requires |c14bp| == |calbp| && |c14Sigma| == |calbp|
    requires CalibrateDate(age, err, calbp, c14bp, c14Sigma, prob, kernel).Ok?
    ensures Sum(CalibrateDate(age, err, calbp, c14bp, c14Sigma, prob, kernel).value.density) == 1.0
  {
    var lik := Likelihoods(age, err, c14bp, c14Sigma, kernel);
    CalibratedDensity(age, err, calbp, c14bp, c14Sigma, prob, kernel);
    Normalised(lik);
  }

  /** The normalised density is non-negative. */
  lemma DensityNonNegative(age: real, err: real, calbp: seq<real>, c14bp: seq<real>, c14Sigma: seq<real>,
                           prob: real, kernel: Kernel)
    requires |c14bp| == |calbp| && |c14Sigma| == |calbp|
    requires CalibrateDate(age, err, calbp, c14bp, c14Sigma, prob, kernel).Ok?
    ensures AllNonNegative(CalibrateDate(age, err, calbp, c14bp, c14Sigma, prob, kernel).value.density)
  {
    var lik := Likelihoods(age, err, c14bp, c14Sigma, kernel);
    CalibratedDensity(age, err, calbp, c14bp, c14Sigma, prob, kernel);
    Normalised(lik);
  }

  /** Non-negative likelihoods with a non-zero sum, divided by it, are a probability vector. */
  lemma Normalised(lik: seq<real>)
    requires AllNonNegative(lik) && Sum(lik) != 0.0
    ensures AllNonNegative(DivideBy(lik, Sum(lik))) && Sum(DivideBy(lik, Sum(lik))) == 1.0
  {
    var z := Sum(lik);
    SumNonNegative(lik);
    assert z > 0.0;
    forall i | 0 <= i < |lik|
      ensures DivideBy(lik, z)[i] >= 0.0
    {
      assert lik[i] >= 0.0;
    }
    SumDivideBy(lik, z);
    SelfQuotient(z);
  }

  /** The mean age lies between the youngest and oldest curve ages; the variance is non-negative. */
  lemma MeanAndVarianceBounds(age: real, err: real, calbp: seq<real>, c14bp: seq<real>, c14Sigma: seq<real>,
                              prob: real, kernel: Kernel)
    requires |c14bp| == |calbp| && |c14Sigma| == |calbp|
    requires CalibrateDate(age, err, calbp, c14bp, c14Sigma, prob, kernel).Ok?
    ensures var s := CalibrateDate(age, err, calbp, c14bp, c14Sigma, prob, kernel).value;
      |calbp| > 0 && Min(calbp) <= s.mean <= Max(calbp) && s.variance >= 0.0
  {
    var s := CalibrateDate(age, err, calbp, c14bp, c14Sigma, prob, kernel).value;
    CalibratedDensity(age, err, calbp, c14bp, c14Sigma, prob, kernel);
    DensitySumsToOne(age, err, calbp, c14bp, c14Sigma, prob, kernel);
    DensityNonNegative(age, err, calbp, c14bp, c14Sigma, prob, kernel);
    WeightedMoments(calbp, s.density);
  }

  /** Mean and variance of a probability vector over calbp. */
  lemma WeightedMoments(calbp: seq<real>, density: seq<real>)
    requires |density| == |calbp| > 0 && AllNonNegative(density) && Sum(density) == 1.0
    ensures Min(calbp) <= Sum(Mul(calbp, density)) <= Max(calbp)
    ensures Sum(Mul(SquaredDeviations(calbp, Sum(Mul(calbp, density))), density)) >= 0.0
  {
    MinIsLeast(calbp);
    MaxIsGreatest(calbp);
    MeanBetween(calbp, density, Min(calbp), Max(calbp));
    WeightedSquaresNonNegative(calbp, Sum(Mul(calbp, density)), density);
  }

  lemma MeanBetween(calbp: seq<real>, density: seq<real>, lo: real, hi: real)
    requires |density| == |calbp| && AllNonNegative(density) && Sum(density) == 1.0
    requires forall i :: 0 <= i < |calbp| ==> lo <= calbp[i] <= hi
    ensures lo <= Sum(Mul(calbp, density)) <= hi
  {
    WeightedSumBounds(calbp, density, lo, hi);
  }

  /** The cumulative density never decreases and its last element is one. */
  lemma CumulativeDensityNormalised(age: real, err: real, calbp: seq<real>, c14bp: seq<real>, c14Sigma: seq<real>,
                                    prob: real, kernel: Kernel)
    requires |c14bp| == |calbp| && |c14Sigma| == |calbp|
    requires CalibrateDate(age, err, calbp, c14bp, c14Sigma, prob, kernel).Ok?
    ensures var cdf := CumSum(CalibrateDate(age, err, calbp, c14bp, c14Sigma, prob, kernel).value.density);
      |cdf| == |calbp| > 0 && NonDecreasing(cdf) && cdf[|cdf| - 1] == 1.0
  {
    var s := CalibrateDate(age, err, calbp, c14bp, c14Sigma, prob, kernel).value;
    DensitySumsToOne(age, err, calbp, c14bp, c14Sigma, prob, kernel);
    DensityNonNegative(age, err, calbp, c14bp, c14Sigma, prob, kernel);
    CumSumNonDecreasing(s.density);
    CumSumLast(s.density);
  }

  /**
   * The interval indices are the least indices whose cumulative density reaches
   * (1 - hdi_prob) / 2 and 1 - (1 - hdi_prob) / 2, and the bounds are the curve ages there.
   */
  lemma IntervalIndices(age: real, err: real, calbp: seq<real>, c14bp: seq<real>, c14Sigma: seq<real>,
                        prob: real, kernel: Kernel)
    requires |c14bp| == |calbp| && |c14Sigma| == |calbp|
    requires CalibrateDate(age, err, calbp, c14bp, c14Sigma, prob, kernel).Ok?
    ensures var s := CalibrateDate(age, err, calbp, c14bp, c14Sigma, prob, kernel).value;
      var cdf := CumSum(s.density);
      s.lowerIndex < |calbp| && s.upperIndex < |calbp| &&
      cdf[s.lowerIndex] >= LowerTail(prob) && (forall j :: 0 <= j < s.lowerIndex ==> cdf[j] < LowerTail(prob)) &&
      cdf[s.upperIndex] >= UpperTail(prob) && (forall j :: 0 <= j < s.upperIndex ==> cdf[j] < UpperTail(prob)) &&
      s.hdiLower == calbp[s.lowerIndex] && s.hdiUpper == calbp[s.upperIndex]
  {
  }

  /**
   * Summarising a probability vector with 0 <= hdi_prob <= 1 succeeds, with
   * lower_idx <= upper_idx, and on an ascending curve hdi_lower <= hdi_upper.
   */
  lemma SummariseSucceeds(age: real, calbp: seq<real>, density: seq<real>, prob: real)
    requires |density| == |calbp| > 0 && AllNonNegative(density) && Sum(density) == 1.0
    requires 0.0 <= prob <= 1.0
    ensures var r := Summarise(age, calbp, density, prob);
      r.Ok? && r.value.lowerIndex <= r.value.upperIndex &&
      (NonDecreasing(calbp) ==> r.value.hdiLower <= r.value.hdiUpper)
  {
    TailIndices(density, prob);
  }

  /** Both quantiles of a probability vector's cumulative sum are found, in order. */
  lemma TailIndices(density: seq<real>, prob: real)
    requires |density| > 0 && AllNonNegative(density) && Sum(density) == 1.0
    requires 0.0 <= prob <= 1.0
    ensures var cdf := CumSum(density);
      SearchSortedLeft(cdf, LowerTail(prob)) <= SearchSortedLeft(cdf, UpperTail(prob)) < |density|
  {
    CumSumLast(density);
    var cdf := CumSum(density);
    assert cdf[|density| - 1] == 1.0;
    SearchSortedLeftMonotone(cdf, LowerTail(prob), UpperTail(prob));
  }

  /**
   * For 0 <= hdi_prob <= 1, a date calibrates exactly when
   * the curve is non-empty and the likelihoods do not all vanish; then
   * lower_idx <= upper_idx, and on an ascending curve hdi_lower <= hdi_upper.
   */
  lemma CalibrateDateSucceeds(age: real, err: real, calbp: seq<real>, c14bp: seq<real>, c14Sigma: seq<real>,
                              prob: real, kernel: Kernel)
    requires |c14bp| == |calbp| && |c14Sigma| == |calbp|
    requires 0.0 <= prob <= 1.0
    ensures var r := CalibrateDate(age, err, calbp, c14bp, c14Sigma, prob, kernel);
      r.Ok? <==> (|calbp| > 0 && Sum(Likelihoods(age, err, c14bp, c14Sigma, kernel)) != 0.0)
    ensures var r := CalibrateDate(age, err, calbp, c14bp, c14Sigma, prob, kernel);
      r.Ok? ==> r.value.lowerIndex <= r.value.upperIndex &&
                (NonDecreasing(calbp) ==> r.value.hdiLower <= r.value.hdiUpper)
  {
    var lik := Likelihoods(age, err, c14bp, c14Sigma, kernel);
    if |calbp| > 0 && Sum(lik) != 0.0 {
      var density := DivideBy(lik, Sum(lik));
      Normalised(lik);
      SummariseSucceeds(age, calbp, density, prob);
    }
  }
}
