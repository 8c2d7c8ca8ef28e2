# chronologer: a verified model of radiocarbon calibration

This project models the deterministic core of chronologer, a Python package for
calibrating radiocarbon ages against a calibration curve such as IntCal20. All
arithmetic is over Dafny's `real`. The Gaussian likelihood and the cubic splines are
an abstract non-negative density.

The modules follow the package's files:

- `CalCurves` (`calcurves.dfy`, for `chronologer/calcurves.py`). `load_calcurve`:
  - chooses the source: a custom path before a predefined curve name;
  - checks the required `calbp`, `c14bp` and `c14_sigma` columns;
  - applies the orientation fix-up, which negates `calbp` and `c14bp` when the file
    runs from young to old.

  The file system and the CSV reader are function parameters.
- `PyMcCarbon` (`pymccarbon.dfy`, for `src/chronologer/pymccarbon.py`). Two functions:
  - `compute_bin_index`: the number of control points at or below `tau`, minus one;
  - `interpolate_calcurve`: the straight line between the two control points of that
    bin, for the curve mean and sigma alike.

  The identical copies in `chronologer/calibration.py` are modelled by the same
  functions.
- `TestingCaldist` (`linear_interp.dfy`). `pytensor_linear_interp` of
  `examples/testing_caldist.py`: one condition and one linear formula per segment,
  folded by a loop of `switch`es. It is proved to agree with the bin-index
  interpolation.
- `Grid` (`grid.dfy`). The numpy operations the package relies on, each with its
  properties:
  - `sum`, `cumsum`, `linspace`, `trapz`;
  - left `searchsorted`, `interp`, boolean masking, `sort`;
  - `min` and `max`, and an in-place array division.
- `Distributions` (`distributions.dfy`, for `chronologer/distributions.py`). The class
  `calrcarbon`:
  - The class-level spline attributes become a shared `SplineCache` object, which the
    first construction fills and later constructions leave alone.
  - `_get_pdf_values`: sample, trim above the threshold, resample between the extreme
    kept ages, and divide by the trapezoid integral in place.
  - The normalised cumulative array of `_cdf` and `_ppf`.
  - `cdf`, `sf` and `ppf`, the grid `mean`, `variance` and `moment`, and the public
    wrappers' defaulting of `None` arguments to the stored parameters.
- `Hdi` (`hdi.dfy`). `hdi` of `src/chronologer/calibration.py`:
  - the argsort by descending density;
  - the cumulative-mass selection;
  - the sort back into time order, the gap positions, and the loop that cuts the kept
    ages into runs.
- `Calibration` (`calibration.dfy`). `calibrate` of `src/chronologer/calibration.py`.
  Each `(age, error)` pair builds a distribution on the shared cache. Its density is
  sampled on 10000 points, trimmed above `tol`, and summarised by the grid mean and
  variance and by `hdi`.
- `LegacyCalibration` (`legacy_calibration.dfy`). `calibrate` of
  `chronologer/calibration.py`:
  - normalise the curve-point likelihoods to sum to one;
  - take the mean and variance against `calbp`;
  - take the interval bounds by `searchsorted` on the cumulative density.
- `Wrappers` (`wrappers.dfy`). `Option`, `Result`, and the exceptions the code raises.

Errors are values. An `IndexError`, a `ValueError` from `min()` of an empty array or
from `CubicSpline`, a missing file, a missing column, and a division by zero (which numpy turns into NaN)
each become an `Err` of `Result`.

`hdi` keeps exactly the ranked points whose cumulative mass is at most `hdi_prob`
(`cumulative_mass <= hdi_prob` at src/chronologer/calibration.py:33). The kept mass
therefore never exceeds `hdi_prob`, and adding the next ranked point would exceed it.
`Hdi.SelectedMass` proves this. The set is not the smallest one whose mass reaches
`hdi_prob`.

When no splines are cached, the first construction of a `calrcarbon` fits them with
`CubicSpline`, which raises a `ValueError` for a curve it cannot fit: fewer than two
points, a `calbp` that is not strictly increasing, or a column of another length. The
model returns `Err(InvalidCurve)` and leaves the cache unfitted.

## Model

| member | source | states |
|---|---|---|
| CalCurves.SelectSource | chronologer/calcurves.py:41-59 | a custom path is used whenever given, and fails with FileNotFoundError when it does not exist; otherwise a predefined name maps to its download URL and any other name is a ValueError |
| CalCurves.OrientCurve | chronologer/calcurves.py:66-73 | keeps all three lengths and c14_sigma; afterwards calbp[0] <= calbp[-1]; a descending curve has calbp and c14bp negated elementwise, any other curve is returned unchanged |
| CalCurves.OrientIdempotent | chronologer/calcurves.py:66-73 | orienting an oriented curve changes nothing |
| CalCurves.LoadCalcurve | chronologer/calcurves.py:61-79 | a loaded curve is non-empty and runs from older (smaller) to younger calbp |
| CalCurves.CustomPathTakesPrecedence | chronologer/calcurves.py:41-45 | with a custom path the result does not depend on the curve name |
| CalCurves.UnknownCurveFails | chronologer/calcurves.py:58-59 | an unknown name without a custom path is a ValueError |
| CalCurves.MissingColumnFails | chronologer/calcurves.py:62-64 | a file lacking calbp, c14bp or c14_sigma is a ValueError |
| CalCurves.LoadedColumns | chronologer/calcurves.py:76-79 | the result is the file's three columns, oriented, with their lengths kept; equal-length columns give an aligned curve |
| Grid.CountSorted | src/chronologer/pymccarbon.py:20-24 | on a sorted curve the count splits it into the points <= tau and the points > tau |
| Grid.CountMonotone | src/chronologer/pymccarbon.py:20-24 | the count never decreases as tau grows |
| PyMcCarbon.BinIndex | src/chronologer/pymccarbon.py:20-24 | the index is in [-1, n-1]; on a sorted curve every point up to it is <= tau and every later one is > tau; inside [calbp[0], calbp[-1]) it is in [0, n-2] |
| PyMcCarbon.ComputeBinIndex | src/chronologer/pymccarbon.py:3-24 | one index per tau; each tau in the domain gets an index in [0, n-2] whose bin brackets it |
| PyMcCarbon.BinIndexBracket | src/chronologer/pymccarbon.py:4-8 | inside the domain calbp[i] <= tau < calbp[i+1] for the returned i, with 0 <= i <= n-2 |
| PyMcCarbon.BinIndexOfBracket | chronologer/calibration.py:102-106 | the index is the unique i whose bin [calbp[i], calbp[i+1]) holds tau (the copy in chronologer/calibration.py is the same expression) |
| PyMcCarbon.BinIndexAtControlPoint | src/chronologer/pymccarbon.py:20 | tau == calbp[k] with k < n-1 gives index k, since the comparison is >= |
| PyMcCarbon.BinIndexMonotone | src/chronologer/pymccarbon.py:20-24 | tau1 <= tau2 implies idx(tau1) <= idx(tau2) |
| PyMcCarbon.Lerp | src/chronologer/pymccarbon.py:57-61 | the interpolated value lies between the curve values at the two edges of tau's bin |
| PyMcCarbon.InterpolateCalcurve | src/chronologer/pymccarbon.py:32-63 | one mean and one sigma per tau, each between its bin's edge values |
| PyMcCarbon.LerpAtControlPoint | chronologer/calibration.py:123-137 | at a control point other than the last the interpolation returns that point's value exactly (as in the copy in chronologer/calibration.py) |
| PyMcCarbon.LerpAtMidpoint | src/chronologer/pymccarbon.py:57-61 | at the midpoint of a bin the result is the mean of the two edge values |
| PyMcCarbon.InterpolateCalcurveExact | src/chronologer/pymccarbon.py:47-61 | at tau == calbp[k] the mean is c14bp[k] and the sigma c14_sigma[k] |
| PyMcCarbon.InterpolateCalcurveElementwise | src/chronologer/pymccarbon.py:41-61 | each element of a batch is interpolated exactly as it would be alone |
| TestingCaldist.SegmentsDisjoint | examples/testing_caldist.py:10 | on a strictly increasing xp no two segment conditions hold at once |
| TestingCaldist.InSegmentIsBinIndex | examples/testing_caldist.py:10 | segment i's condition holds exactly when the bin index of x is i |
| TestingCaldist.LinearInterp | examples/testing_caldist.py:5-23 | the switch chain returns the formula of the segment whose condition holds, or the last segment's formula when none holds |
| TestingCaldist.SwitchValueAtKnot | examples/testing_caldist.py:13-21 | x == xp[i], for i < n-1, gives fp[i] |
| TestingCaldist.SwitchValueAtLastKnot | examples/testing_caldist.py:19 | x == xp[-1] satisfies no condition and the last formula gives fp[-1] |
| TestingCaldist.SwitchValueAgreesWithLerp | examples/testing_caldist.py:10-21 | on [xp[0], xp[-1]) the switch chain equals interpolate_calcurve's line |
| Grid.SumPrefixMonotone | chronologer/calibration.py:44 | with non-negative terms a longer prefix has a sum at least as large |
| Grid.CumSumNonDecreasing | chronologer/calibration.py:44 | the cumulative sum of non-negative terms never decreases |
| Grid.CumSumLast | chronologer/calibration.py:44 | the last cumulative sum is the total |
| Grid.SumDivideBy | chronologer/calibration.py:36 | dividing every element by c divides the sum by c |
| Grid.SumScale | src/chronologer/calibration.py:86 | scaling every element by c scales the sum by c |
| Grid.WeightedSumBounds | chronologer/calibration.py:39 | with non-negative weights the weighted sum lies between lo and hi times the total weight |
| Grid.SumMonotone | chronologer/calibration.py:39 | summing preserves an elementwise ordering |
| Grid.WeightedSquaresNonNegative | chronologer/calibration.py:40 | squared deviations weighted by non-negative weights sum to a non-negative value |
| Grid.MinIsLeast | chronologer/distributions.py:18 | min() is an element and no larger than any element |
| Grid.MaxIsGreatest | chronologer/distributions.py:19 | max() is an element and no smaller than any element |
| Grid.MinAtMostMax | chronologer/distributions.py:18-19 | min() <= max() |
| Grid.LinspaceEnds | chronologer/distributions.py:76 | linspace(lo, hi, n) starts at lo and ends at hi |
| Grid.LinspaceUniform | chronologer/distributions.py:71 | consecutive linspace points are one step apart |
| Grid.LinspaceOrdered | chronologer/distributions.py:71 | linspace points are ascending and lie in [lo, hi] |
| Grid.TrapzDivideBy | chronologer/distributions.py:78 | trapz of y / c is trapz of y divided by c |
| Grid.TrapzUniform | chronologer/distributions.py:78 | on uniformly spaced points trapz is the step times the sum less half the two end values |
| Grid.TrapzNonNegative | chronologer/distributions.py:78 | the trapz integral of non-negative values over ascending points is non-negative |
| Grid.SumAtLeastEnds | chronologer/distributions.py:78 | a non-negative array sums to at least its two end values |
| Grid.PowAllOne | chronologer/distributions.py:157 | t ** 1 == t elementwise |
| Grid.SearchSortedLeft | chronologer/calibration.py:47-48 | the least index whose element is >= v, or the length: every earlier element is < v |
| Grid.SearchSortedLeftMonotone | chronologer/calibration.py:47-48 | a larger v never gives a smaller index |
| Grid.NumpyInterpBetween | chronologer/distributions.py:49 | interp returns a value within any bounds of the fp values |
| Grid.NumpyInterpInterior | chronologer/distributions.py:49 | inside the grid interp is the straight line of the bin holding x |
| Grid.BinValueBounds | chronologer/distributions.py:49 | on an ascending bin the line lies between its end values and rises with x |
| Grid.NumpyInterpMonotone | chronologer/distributions.py:49 | with ascending fp, interp is non-decreasing in x |
| Grid.MaskedLength | src/chronologer/calibration.py:81-83 | the masked array has one element per true mask entry |
| Grid.MaskedMembers | src/chronologer/calibration.py:81-83 | an element whose mask entry is true is kept, and nothing else is |
| Grid.MaskedSorted | src/chronologer/calibration.py:81-83 | masking keeps ascending order |
| Grid.MaskedStrictlyIncreasing | src/chronologer/calibration.py:81-83 | masking keeps strictly ascending order |
| Grid.MaskedPrefix | src/chronologer/calibration.py:33-36 | a mask true exactly on the first m positions selects the first m elements |
| Grid.MaskedEmptyIff | chronologer/distributions.py:73-74 | masking selects nothing exactly when the mask has no true entry |
| Grid.MaskedSpan | chronologer/distributions.py:73-75 | a non-empty selection of values in [lo, hi] has min and max inside [lo, hi], and every selected value lies between them |
| Grid.MaskedNone | chronologer/distributions.py:73-74 | an all-false mask selects nothing |
| Grid.InsertAscMultiset | src/chronologer/calibration.py:36 | inserting adds exactly that element |
| Grid.InsertAscSorted | src/chronologer/calibration.py:36 | inserting into an ascending array keeps it ascending |
| Grid.SortAscCorrect | src/chronologer/calibration.py:36 | np.sort returns an ascending permutation of its input |
| Grid.DivideInPlace | chronologer/calibration.py:36 | the array afterwards holds each old element divided by c |
| Distributions.SplineCache.constructor | chronologer/distributions.py:13-14 | no splines are fitted before the first instance |
| Distributions.Evaluate | chronologer/distributions.py:72 | one non-negative density value per grid point |
| Distributions.AboveThreshold | chronologer/distributions.py:73 | mask[i] holds exactly when pdf[i] > threshold |
| Distributions.PdfGrid | chronologer/distributions.py:70-79 | a returned grid is ascending, evenly spaced, at least two points long, with non-negative values whose trapz integral is exactly 1 |
| Distributions.NormalisedGridValid | chronologer/distributions.py:76-78 | a non-negative density on linspace(lo, hi) with a non-zero integral, divided by that integral, integrates to 1 |
| Distributions.PdfGridEmpty | chronologer/distributions.py:73-74 | min() of the empty selection raises exactly when no first-grid point is above the threshold |
| Distributions.PdfGridSpan | chronologer/distributions.py:71-76 | the second grid runs from t_min to t_max with a <= t_min <= t_max <= b, and every first-grid point above the threshold lies in [t_min, t_max] |
| Distributions.NormaliseByLast | chronologer/distributions.py:48 | dividing a non-negative, non-decreasing array by its positive last element gives a non-decreasing array in [0, 1] ending at 1 |
| Distributions.SpacingAndSumPositive | chronologer/distributions.py:47 | on a normalised grid the step and the sum of the density are positive |
| Distributions.CumulativePositive | chronologer/distributions.py:47 | cumsum(pdf) * step is non-decreasing, starts non-negative and ends positive, so the division is defined |
| Distributions.CdfValuesNormalised | chronologer/distributions.py:47-48 | the normalised cumulative array is non-decreasing, lies in [0, 1] and ends at exactly 1 |
| Distributions.CumulativeValues | chronologer/distributions.py:47-48 | the in-place normalisation computes the normalised cumulative array |
| Distributions.Resolve | chronologer/distributions.py:83-86 | an argument is used when given; otherwise the stored value; with neither the call fails |
| Distributions.CalRCarbon.constructor | chronologer/distributions.py:16-28 | a = min(calbp), b = max(calbp); the parameters are stored; the shared splines are fitted from this curve only if none were fitted yet, which needs a curve CubicSpline accepts |
| Distributions.New | chronologer/distributions.py:16-28 | succeeds exactly when calbp is non-empty and either splines are cached or the curve has two or more strictly increasing ages with columns of equal length; an empty curve raises in min(), an unfittable one in CubicSpline, and both leave the shared splines alone; otherwise it is the constructor |
| Distributions.CalRCarbon.Pdf | chronologer/distributions.py:81-87 | succeeds exactly when both parameters resolve, with a non-negative value |
| Distributions.CalRCarbon.GetPdfValues | chronologer/distributions.py:70-79 | the in-place normalisation computes the normalised pdf grid |
| Distributions.CalRCarbon.Cdf | chronologer/distributions.py:97-103 | cdf is _cdf on the resolved parameters |
| Distributions.CalRCarbon.Sf | chronologer/distributions.py:105-111 | sf fails exactly when cdf does, and is 1 - cdf otherwise |
| Distributions.CalRCarbon.Ppf | chronologer/distributions.py:113-119 | ppf is _ppf on the resolved parameters |
| Distributions.CdfBounds | chronologer/distributions.py:45-49 | the cdf lies in [0, 1] |
| Distributions.CdfMonotone | chronologer/distributions.py:45-49 | the cdf is non-decreasing in tau |
| Distributions.CdfAtRightEnd | chronologer/distributions.py:47-49 | from the last grid point on the cdf is exactly 1 |
| Distributions.PpfBounds | chronologer/distributions.py:54-58 | the ppf lies in the trimmed grid's range, and q >= 1 gives its upper end |
| Distributions.SfBounds | chronologer/distributions.py:51-52 | sf = 1 - cdf lies in [0, 1] |
| Distributions.GridMomentOneIsMean | chronologer/distributions.py:136-157 | the grid moment of order 1 is the grid mean |
| Distributions.MomentOneIsMean | chronologer/distributions.py:129-157 | moment(1, ...) == mean(...) for the same arguments |
| Distributions.GridVarianceNonNegative | chronologer/distributions.py:146-148 | the grid variance of a non-negative density on an ascending grid is >= 0 |
| Distributions.VarianceNonNegative | chronologer/distributions.py:138-148 | variance(...) >= 0 |
| Distributions.MomentsFailTogether | chronologer/distributions.py:129-157 | mean, variance, moment and cdf fail on exactly the same arguments |
| Hdi.InsertByDensity | src/chronologer/calibration.py:27 | inserting an index adds exactly that index |
| Hdi.InsertByDensitySorted | src/chronologer/calibration.py:27 | inserting into a density-descending order keeps it descending |
| Hdi.SortByDensity | src/chronologer/calibration.py:27 | the sort is a permutation of its indices |
| Hdi.SortByDensitySorted | src/chronologer/calibration.py:27 | the sort lists indices by non-increasing density |
| Hdi.ArgsortDescCorrect | src/chronologer/calibration.py:27 | argsort(-pdf) is a permutation of the indices by non-increasing density |
| Hdi.ArgsortDescFirst | src/chronologer/calibration.py:27-28 | the top-ranked point has the maximum density |
| Hdi.GapsFromBounded | src/chronologer/calibration.py:39 | every listed position is a gap: the next age is more than a step later |
| Hdi.GapsFromComplete | src/chronologer/calibration.py:39 | every gap is listed |
| Hdi.GapsFromIncreasing | src/chronologer/calibration.py:39 | the positions are listed in increasing order |
| Hdi.GapsCorrect | src/chronologer/calibration.py:39 | the gaps are exactly, and in order, the positions where the difference exceeds the step |
| Hdi.CollectRuns | src/chronologer/calibration.py:40-48 | the loop appends exactly the runs between consecutive gaps |
| Hdi.ComputeHdi | src/chronologer/calibration.py:5-49 | hdi returns the runs of the sorted selected ages, or an IndexError |
| Hdi.RunsShape | src/chronologer/calibration.py:42-48 | one run per gap plus one; each run starts no later than it ends; the first starts at the smallest (oldest) kept age and the last ends at the largest (youngest); every endpoint is a kept age |
| Hdi.RunsSeparated | src/chronologer/calibration.py:39-46 | consecutive runs are more than one step apart |
| Hdi.RunsMaximal | src/chronologer/calibration.py:39-48 | within a run no two neighbouring ages are more than a step apart |
| Hdi.RunsDisjoint | src/chronologer/calibration.py:39-48 | with a non-negative step the runs are in ascending order and disjoint |
| Hdi.RunOf | src/chronologer/calibration.py:43-46 | the index of the run that holds a given position |
| Hdi.RunsCover | src/chronologer/calibration.py:42-48 | every kept age lies in a run |
| Hdi.RunsUnique | src/chronologer/calibration.py:39-48 | with a non-negative step no value lies in two runs |
| Hdi.SingleAgeSingleRun | src/chronologer/calibration.py:42-48 | a single kept point t yields the interval (t, t) |
| Hdi.NoGapsOneRun | src/chronologer/calibration.py:39-48 | ages without a gap give one interval from the first to the last |
| Hdi.WithinHdiPrefix | src/chronologer/calibration.py:33 | over a non-decreasing mass the points within hdi_prob are a prefix |
| Hdi.MassNonDecreasing | src/chronologer/calibration.py:32 | with non-negative densities and step the cumulative mass never decreases |
| Hdi.MassPrefix | src/chronologer/calibration.py:32-33 | the ranked points kept are the first m, exactly those whose cumulative mass is <= hdi_prob |
| Hdi.SelectionIsPrefix | src/chronologer/calibration.py:27-36 | the selection is a prefix of the ranking, a point is excluded exactly when its cumulative mass exceeds hdi_prob, and every selected point's density is >= every unselected one's |
| Hdi.SelectedMass | src/chronologer/calibration.py:32-33 | the selected mass (sum of selected densities times the step) is <= hdi_prob, and adding the next ranked point would exceed it |
| Hdi.MassAtBoundary | src/chronologer/calibration.py:32-33 | the last kept rank's cumulative mass is <= hdi_prob and the first left-out rank's is > hdi_prob |
| Hdi.NothingSelectedIff | src/chronologer/calibration.py:32-33 | nothing is kept exactly when there is no point or the top-ranked point's mass alone exceeds hdi_prob |
| Hdi.HdiAgesLength | src/chronologer/calibration.py:36 | hdi_ages has one age per true mask entry |
| Hdi.HdiFailsIff | src/chronologer/calibration.py:27-42 | hdi raises exactly when the grid has fewer than two points or fewer points than the density, or nothing is kept (hdi_ages[0]) |
| Hdi.HdiCoversSelection | src/chronologer/calibration.py:36-48 | every selected age lies in one returned interval, in exactly one for a non-negative step |
| Hdi.HdiCoversAges | src/chronologer/calibration.py:36-48 | every element of the selection lies in a run of its sorted copy, in only one for a non-negative step |
| Hdi.HdiIntervals | src/chronologer/calibration.py:36-48 | one interval per gap plus one, each with start <= end, endpoints that are selected ages, consecutive intervals more than a step apart |
| Calibration.CalibrateWith | src/chronologer/calibration.py:76-98 | one iteration of the loop computes that date's summary or error |
| Calibration.CalibrateStep | src/chronologer/calibration.py:73-102 | builds the pair's distribution on the shared cache (a fresh object made from that pair) and summarises it; when the construction cannot succeed (an empty curve, or an unfittable one with no splines cached) it raises that error and leaves the cache alone |
| Calibration.AgreesExtend | src/chronologer/calibration.py:73-102 | a further pair that calibrates extends the results that agree with their dates |
| Calibration.AgreesComplete | src/chronologer/calibration.py:73-117 | results agreeing on every pair of the zip are what calibrate returns |
| Calibration.AgreesThenFails | src/chronologer/calibration.py:73-102 | after agreeing results, the first pair that fails decides the error |
| Calibration.Calibrate | src/chronologer/calibration.py:71-117 | one result per (age, error) pair of the zip, in input order, each that pair's date with a distribution built from it, or the error of the first pair that fails; with no splines cached, an empty or unfittable curve fails at the first pair with the cache left unfitted; otherwise the shared splines come from the first curve seen |
| Calibration.SummariseSucceeds | src/chronologer/calibration.py:82-91 | a trimmed grid is summarised exactly when at least two points remain and the top-ranked point's mass does not exceed hdi_prob |
| Calibration.SummariseVariance | src/chronologer/calibration.py:86-88 | the summary's variance is non-negative, so its std is defined |
| Calibration.SummariseIntervals | src/chronologer/calibration.py:86-98 | the summary keeps the trimmed grid and the age, its intervals are hdi's, and each selected age lies in exactly one of them |
| Calibration.MaskedEvaluate | src/chronologer/calibration.py:78-83 | masking the sampled density is sampling the density on the masked ages |
| Calibration.Trimmed | src/chronologer/calibration.py:77-83 | after trimming every kept density is > tol and is that age's density, the ages stay in original (ascending) order inside [a, b], and every sampled age above tol is kept |
| Calibration.TrimmedStart | src/chronologer/calibration.py:81-86 | the trimmed grid has equal lengths, ascending first two ages and no negative density |
| Calibration.VarianceNonNegative | src/chronologer/calibration.py:86-88 | a calibrated date's variance is non-negative |
| Calibration.CalibratedIntervals | src/chronologer/calibration.py:76-98 | a calibrated date keeps the trimmed grid, its intervals are hdi's on it, and each selected trimmed age lies in exactly one of them |
| LegacyCalibration.Likelihoods | chronologer/calibration.py:33 | one non-negative likelihood per curve point |
| LegacyCalibration.CalibrateOne | chronologer/calibration.py:32-61 | the loop body, with its in-place normalisation, computes the date's summary or error |
| LegacyCalibration.AgreesExtend | chronologer/calibration.py:31-61 | a further pair that calibrates extends the agreeing summaries |
| LegacyCalibration.AgreesComplete | chronologer/calibration.py:31-61 | summaries agreeing on every pair of the zip are what calibrate returns |
| LegacyCalibration.AgreesThenFails | chronologer/calibration.py:31-61 | after agreeing summaries, the first pair that fails decides the error |
| LegacyCalibration.Calibrate | chronologer/calibration.py:29-61 | one summary per (age, error) pair of the zip, in input order (the shorter input's length), or the error of the first pair that fails |
| LegacyCalibration.CalibratedDensity | chronologer/calibration.py:33-61 | a successful date has a non-empty curve, a non-zero likelihood sum, the normalised likelihoods as density, and its mean and variance |
| LegacyCalibration.DensitySumsToOne | chronologer/calibration.py:36 | after normalisation the density sums to 1 |
| LegacyCalibration.DensityNonNegative | chronologer/calibration.py:33-36 | the normalised density is non-negative |
| LegacyCalibration.Normalised | chronologer/calibration.py:36 | non-negative likelihoods with a non-zero sum, divided by it, are non-negative and sum to 1 |
| LegacyCalibration.MeanAndVarianceBounds | chronologer/calibration.py:39-41 | the mean lies in [min calbp, max calbp] and the variance is >= 0 |
| LegacyCalibration.WeightedMoments | chronologer/calibration.py:39-40 | a probability vector's mean over calbp lies in [min, max] and its variance is >= 0 |
| LegacyCalibration.MeanBetween | chronologer/calibration.py:39 | the mean of a probability vector lies within any bounds of calbp |
| LegacyCalibration.CumulativeDensityNormalised | chronologer/calibration.py:44 | cumulative_density is non-decreasing and ends at 1 |
| LegacyCalibration.IntervalIndices | chronologer/calibration.py:47-50 | lower_idx and upper_idx are the least indices whose cumulative density reaches (1-hdi_prob)/2 and 1-(1-hdi_prob)/2, and the bounds are the curve ages there |
| LegacyCalibration.SummariseSucceeds | chronologer/calibration.py:39-50 | for 0 <= hdi_prob <= 1 a probability vector is summarised, with lower_idx <= upper_idx, and hdi_lower <= hdi_upper on an ascending curve |
| LegacyCalibration.TailIndices | chronologer/calibration.py:47-48 | both quantile searches land in range, the lower no later than the upper |
| LegacyCalibration.CalibrateDateSucceeds | chronologer/calibration.py:31-50 | for 0 <= hdi_prob <= 1 a date calibrates exactly when the curve is non-empty and the likelihoods do not all vanish; then lower_idx <= upper_idx, and hdi_lower <= hdi_upper on an ascending curve |

## Left out

- The normal pdf and logpdf, `sqrt` and `CubicSpline` (chronologer/distributions.py:7-8,
  21-26, 35-43; chronologer/calibration.py:33) are transcendental or foreign numerics.
  They are the abstract non-negative `Distributions.Density` and
  `LegacyCalibration.Kernel`. `extrapolate=False` (NaN outside the curve) is part of
  that abstraction. `std` is not computed; the model proves its argument, the
  variance, is non-negative.
- `logpdf`, `rvs` and `_rvs` (chronologer/distributions.py:40-43, 60-68, 89-95,
  121-127) are not modelled. Sampling is nondeterministic.
- chronologer/models.py, chronologer/utils.py, the PyMC models and sampling in
  examples/testing_caldist.py, and examples/example.py, docs/conf.py, setup.py and
  both `__init__.py` files are not part of this model. chronologer/__init__.py imports
  names that none of the modelled modules defines.
- `load_calcurve`'s download, cache directory, `read_csv`, `to_csv` and `print`
  (chronologer/calcurves.py:16-17, 46-57, 62, 68-69) are I/O. They are the parameters
  `pathExists` and `read`. The `quiet` flag only affects printing.
- The `as_pandas` branches of both `calibrate` functions are not modelled; the model
  returns the list of results. A data frame is formatting only.
- chronologer/calibration.py:104 uses `pt` without importing it, so its
  `compute_bin_index` raises NameError as written. The model gives that copy the
  intended meaning by sharing `PyMcCarbon.BinIndex`. The `pyt` flag and `.eval()` of
  src/chronologer/pymccarbon.py are PyTensor mechanics.
- Floating-point rounding is not modelled. The gap test at
  src/chronologer/calibration.py:39 and the equal spacing of `linspace` therefore hold
  exactly.
- NaN is not a value. A division by a zero sum, a zero integral or a zero last
  cumulative value is `Err(NotANumber)`, where numpy would carry NaN on silently.
- Distributions.New: `CubicSpline`'s rejection of non-finite values is not modelled.
  When calbp and c14bp can be fitted but c14_sigma has another length, the source has
  already set `_interp_mean` before the second spline raises. Later instances then
  skip fitting and fail on the missing `_interp_error`. The model treats the failed
  construction as leaving the cache unfitted.
- Distributions.CalRCarbon.Moment: the order `n` is a natural number. The source's
  `t_values**n` accepts any numeric order, including negative and fractional ones,
  which give inf or NaN on zero or negative ages. `Distributions.GridMoment` has the
  same restriction.
- PyMcCarbon.Lerp: requires `calbp[0] <= tau < calbp[-1]`. Index -1 for an earlier
  `tau` wraps around in numpy, and `tau == calbp[-1]` reads past the end; neither is
  modelled.
- PyMcCarbon.InterpolateCalcurve: has the same domain requirement for every `tau`.
- Distributions.CalRCarbon.Pdf, Distributions.CalRCarbon.Cdf, Distributions.CalRCarbon.Sf and
  Distributions.CalRCarbon.Ppf: each takes one `tau` or `q`. The source also accepts
  arrays, which numpy evaluates element by element with the same computation.
- TestingCaldist.LinearInterp: requires a strictly increasing `xp`. With equal knots
  the source divides by zero.
- Hdi.HdiFailsIff: assumes non-negative densities and a non-negative grid step. The
  same assumption is needed for the prefix and mass properties, since the cumulative
  mass is only monotone then.
- Hdi.ArgsortDesc: breaks ties in index order. numpy's `argsort` order among equal
  densities is unspecified. Every `Hdi` lemma holds for any descending order passed
  as `order`, and `Calibration` supplies `ArgsortDesc`.
- Hdi.HdiSpec: the case `len(pdf_values) > len(t_values)` is an IndexError
  (`t_values[idx]`). When the density is shorter than the grid, the extra grid points
  are never ranked.
- Calibration.SummariseSucceeds: is stated with the density of the top-ranked point,
  `p[argsort(-p)[0]]`. That this is the maximum density is `Hdi.ArgsortDescFirst`. A
  date's success then follows from `Calibration.TrimmedStart`.
- Distributions.CalRCarbon: `a`, `b`, `c14_mean` and `c14_err` are immutable fields,
  because nothing after `__init__` assigns them. The `name` attribute is not modelled.
  A `None` parameter that reaches the density (a TypeError in Python) is
  `Err(MissingParameter)`.
- Distributions.CalRCarbon.Ppf: `np.interp` on a cumulative array with flat stretches
  (repeated x values) follows the model's definition of `interp` for a non-decreasing
  grid. numpy does not document that case.
- Calibration.CalibrateStep: freshness of each result's distribution is stated. That
  distinct results are distinct objects only follows from it.
- LegacyCalibration.CalibrateDate: an empty curve is an IndexError at
  `calbp[lower_idx]`. The division by the zero sum of an empty array gives no error in
  numpy.
