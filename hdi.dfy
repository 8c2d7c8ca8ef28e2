/**
 * Highest-density-interval extraction (hdi in src/chronologer/calibration.py).
 * The grid points are ranked by descending density; those whose cumulative mass
 * (running sum of the ranked densities times the grid step t[1] - t[0]) stays within
 * hdi_prob are kept; the kept ages are sorted and cut into maximal runs wherever two
 * neighbours are more than one grid step apart.
 */
module Hdi {
  import opened Wrappers
  import opened Grid

  datatype Interval = Interval(start: real, end: real)

  function Range(n: nat): seq<nat> {
    seq(n, i requires 0 <= i < n => i)
  }

  /**
   * order is an argsort of -pdf: a permutation of the indices of pdf listing them by
   * non-increasing density. Ties may come in any order.
   */
  predicate IsDescendingOrder(order: seq<nat>, pdf: seq<real>) {
    |order| == |pdf| &&
    multiset(order) == multiset(Range(|pdf|)) &&
    (forall k :: 0 <= k < |order| ==> order[k] < |pdf|) &&
    (forall i, j :: 0 <= i < j < |order| ==> pdf[order[i]] >= pdf[order[j]])
  }

  predicate IndicesBelow(s: seq<nat>, n: nat) {
    forall k :: 0 <= k < |s| ==> s[k] < n
  }

  /** order has one entry per point of pdf, each an index of pdf: what hdi needs to run. */
  predicate Indexes(order: seq<nat>, pdf: seq<real>) {
    |order| == |pdf| && IndicesBelow(order, |pdf|)
  }

  /** s[order] in numpy. */
  function Gather(s: seq<real>, order: seq<nat>): (r: seq<real>)
    requires IndicesBelow(order, |s|)
    ensures |r| == |order|
  {
    seq(|order|, k requires 0 <= k < |order| => s[order[k]])
  }

  // ---------------------------------------------------------------------------
  // A concrete argsort by descending density (insertion sort on indices)

  function InsertByDensity(i: nat, s: seq<nat>, pdf: seq<real>): (r: seq<nat>)
    requires i < |pdf| && IndicesBelow(s, |pdf|)
    ensures |r| == |s| + 1 && IndicesBelow(r, |pdf|)
    ensures multiset(r) == multiset(s) + multiset{i}
    ensures r[0] == i || (|s| > 0 && r[0] == s[0])
  {
    if |s| == 0 || pdf[i] >= pdf[s[0]] then [i] + s
    else
      assert s == [s[0]] + s[1..];
      [s[0]] + InsertByDensity(i, s[1..], pdf)
  }

  predicate DescendingBy(s: seq<nat>, pdf: seq<real>)
    requires IndicesBelow(s, |pdf|)
  {
    forall i, j :: 0 <= i < j < |s| ==> pdf[s[i]] >= pdf[s[j]]
  }

  lemma {:induction false} InsertByDensitySorted(i: nat, s: seq<nat>, pdf: seq<real>)
    requires i < |pdf| && IndicesBelow(s, |pdf|) && DescendingBy(s, pdf)
    ensures DescendingBy(InsertByDensity(i, s, pdf), pdf)
  {
    if |s| > 0 && pdf[i] < pdf[s[0]] {
      InsertByDensitySorted(i, s[1..], pdf);
      var r := InsertByDensity(i, s[1..], pdf);
      assert |s| > 1 ==> pdf[s[0]] >= pdf[s[1..][0]];
      assert pdf[s[0]] >= pdf[r[0]];
      assert InsertByDensity(i, s, pdf) == [s[0]] + r;
    }
  }

  function SortByDensity(idx: seq<nat>, pdf: seq<real>): (r: seq<nat>)
    requires IndicesBelow(idx, |pdf|)
    ensures |r| == |idx| && IndicesBelow(r, |pdf|)
    ensures multiset(r) == multiset(idx)
  {
    if |idx| == 0 then []
    else
      assert idx == [idx[0]] + idx[1..];
      InsertByDensity(idx[0], SortByDensity(idx[1..], pdf), pdf)
  }

  lemma {:induction false} SortByDensitySorted(idx: seq<nat>, pdf: seq<real>)
    requires IndicesBelow(idx, |pdf|)
    ensures DescendingBy(SortByDensity(idx, pdf), pdf)
  {
    if |idx| > 0 {
      SortByDensitySorted(idx[1..], pdf);
      InsertByDensitySorted(idx[0], SortByDensity(idx[1..], pdf), pdf);
    }
  }

  /** np.argsort(-pdf), with ties kept in index order. */
  function ArgsortDesc(pdf: seq<real>): (order: seq<nat>)
    ensures Indexes(order, pdf)
  {
    SortByDensity(Range(|pdf|), pdf)
  }

  lemma ArgsortDescCorrect(pdf: seq<real>)
    ensures IsDescendingOrder(ArgsortDesc(pdf), pdf)
  {
    SortByDensitySorted(Range(|pdf|), pdf);
  }

  /** The first index of the argsort is that of the highest density. */
  lemma ArgsortDescFirst(pdf: seq<real>)
    requires |pdf| > 0
    ensures pdf[ArgsortDesc(pdf)[0]] == Max(pdf)
  {
    var order := ArgsortDesc(pdf);
    ArgsortDescCorrect(pdf);
    MaxIsGreatest(pdf);
    var i :| 0 <= i < |pdf| && pdf[i] == Max(pdf);
    assert Range(|pdf|)[i] == i;
    assert i in multiset(Range(|pdf|));
    assert i in multiset(order);
    var k :| 0 <= k < |order| && order[k] == i;
    if k > 0 {
      assert pdf[order[0]] >= pdf[order[k]];
    }
  }

  // ---------------------------------------------------------------------------
  // Selecting the points inside the HDI

  /** t_values[1] - t_values[0], the grid step the mass and the gaps are measured with. */
  function Step(t: seq<real>): real
    requires |t| >= 2
  {
    t[1] - t[0]
  }

  /** cumsum(sorted_pdf) * step */
  function CumulativeMass(sortedPdf: seq<real>, step: real): seq<real> {
    Scale(CumSum(sortedPdf), step)
  }

  /** cumulative_mass <= hdi_prob */
  function WithinHdi(mass: seq<real>, prob: real): seq<bool> {
    seq(|mass|, k requires 0 <= k < |mass| => mass[k] <= prob)
  }

  /** The conditions under which the descending-order steps of hdi can run. */
  predicate Ranked(t: seq<real>, pdf: seq<real>, order: seq<nat>) {
    |t| >= 2 && |pdf| <= |t| && Indexes(order, pdf)
  }

  function SelectionMask(t: seq<real>, pdf: seq<real>, prob: real, order: seq<nat>): (mask: seq<bool>)
    requires Ranked(t, pdf, order)
    ensures |mask| == |pdf|
  {
    WithinHdi(CumulativeMass(Gather(pdf, order), Step(t)), prob)
  }

  /** sorted_t[within_hdi] */
  function Selection(t: seq<real>, pdf: seq<real>, prob: real, order: seq<nat>): seq<real>
    requires Ranked(t, pdf, order)
  {
    Masked(Gather(t, order), SelectionMask(t, pdf, prob, order))
  }

  /** hdi_ages: the selected ages in ascending order. */
  function HdiAges(t: seq<real>, pdf: seq<real>, prob: real, order: seq<nat>): seq<real>
    requires Ranked(t, pdf, order)
  {
    SortAsc(Selection(t, pdf, prob, order))
  }

  // ---------------------------------------------------------------------------
  // Gaps and runs

  /** np.where(np.diff(ages) > step)[0] restricted to the positions from g on. */
  function GapsFrom(ages: seq<real>, step: real, g: nat): seq<nat>
    decreases |ages| - g
  {
    if g + 1 >= |ages| then []
    else
      var rest := GapsFrom(ages, step, g + 1);
      (if ages[g + 1] - ages[g] > step then [g] else []) + rest
  }

  function Gaps(ages: seq<real>, step: real): (gaps: seq<nat>)
    ensures ValidGaps(ages, gaps)
  {
    GapsFromBounded(ages, step, 0);
    GapsFromIncreasing(ages, step, 0);
    GapsFrom(ages, step, 0)
  }

  /** Every position GapsFrom lists is at least g and is a gap. */
  lemma {:induction false} GapsFromBounded(ages: seq<real>, step: real, g: nat)
    decreases |ages| - g
    ensures forall k :: 0 <= k < |GapsFrom(ages, step, g)| ==>
      g <= GapsFrom(ages, step, g)[k] && GapsFrom(ages, step, g)[k] + 1 < |ages| &&
      ages[GapsFrom(ages, step, g)[k] + 1] - ages[GapsFrom(ages, step, g)[k]] > step
  {
    if g + 1 < |ages| {
      GapsFromBounded(ages, step, g + 1);
      var rest, r := GapsFrom(ages, step, g + 1), GapsFrom(ages, step, g);
      forall k | 0 <= k < |r|
        ensures g <= r[k] && r[k] + 1 < |ages| && ages[r[k] + 1] - ages[r[k]] > step
      {
        if ages[g + 1] - ages[g] > step {
          assert r == [g] + rest;
          if k > 0 {
            assert r[k] == rest[k - 1];
          }
        } else {
          assert r == rest;
        }
      }
    }
  }

  /** Every gap from position g on is listed. */
  lemma {:induction false} GapsFromComplete(ages: seq<real>, step: real, g: nat)
    decreases |ages| - g
    ensures forall j: nat :: g <= j && j + 1 < |ages| && ages[j + 1] - ages[j] > step ==> j in GapsFrom(ages, step, g)
  {
    if g + 1 < |ages| {
      GapsFromComplete(ages, step, g + 1);
    }
  }

  /** The positions are listed in increasing order. */
  lemma {:induction false} GapsFromIncreasing(ages: seq<real>, step: real, g: nat)
    decreases |ages| - g
    ensures forall i, j :: 0 <= i < j < |GapsFrom(ages, step, g)| ==> GapsFrom(ages, step, g)[i] < GapsFrom(ages, step, g)[j]
  {
    if g + 1 < |ages| {
      GapsFromIncreasing(ages, step, g + 1);
      GapsFromBounded(ages, step, g + 1);
      var rest, r := GapsFrom(ages, step, g + 1), GapsFrom(ages, step, g);
      forall i, j | 0 <= i < j < |r|
        ensures r[i] < r[j]
      {
        if ages[g + 1] - ages[g] > step {
          assert r == [g] + rest;
          assert r[j] == rest[j - 1];
          if i > 0 {
            assert r[i] == rest[i - 1];
          }
        } else {
          assert r == rest;
        }
      }
    }
  }

  /** Gap positions that index into ages, in increasing order. */
  predicate ValidGaps(ages: seq<real>, gaps: seq<nat>) {
    (forall k :: 0 <= k < |gaps| ==> gaps[k] + 1 < |ages|) &&
    (forall i, j :: 0 <= i < j < |gaps| ==> gaps[i] < gaps[j])
  }

  /** Index of the first age of run k. */
  function RunStart(gaps: seq<nat>, k: nat): nat
    requires k <= |gaps|
  {
    if k == 0 then 0 else gaps[k - 1] + 1
  }

  /** Index of the last age of run k. */
  function RunEnd(gaps: seq<nat>, k: nat, n: nat): int
    requires k <= |gaps|
  {
    if k == |gaps| then n - 1 else gaps[k]
  }

  /** The intervals the loop of hdi appends, in closed form. */
  function Runs(ages: seq<real>, gaps: seq<nat>): seq<Interval>
    requires |ages| >= 1 && ValidGaps(ages, gaps)
  {
    seq(|gaps| + 1, k requires 0 <= k <= |gaps| =>
      Interval(ages[RunStart(gaps, k)], ages[RunEnd(gaps, k, |ages|)]))
  }

  /** What hdi returns, or the IndexError it raises. */
  function HdiSpec(t: seq<real>, pdf: seq<real>, prob: real, order: seq<nat>): Result<seq<Interval>>
    requires Indexes(order, pdf)
  {
    if |t| < 2 || |pdf| > |t| then Err(IndexOutOfRange)   // t_values[idx] or t_values[1]
    else
      var ages := HdiAges(t, pdf, prob, order);
      if |ages| == 0 then Err(IndexOutOfRange)           // hdi_ages[0]
      else Ok(Runs(ages, Gaps(ages, Step(t))))
  }

  /** hdi: the ranked selection, then the loop over the gaps that closes one run per gap. */
  method ComputeHdi(t: seq<real>, pdf: seq<real>, prob: real, order: seq<nat>) returns (r: Result<seq<Interval>>)
    requires Indexes(order, pdf)
    ensures r == HdiSpec(t, pdf, prob, order)
  {
    if |t| < 2 || |pdf| > |t| {
      return Err(IndexOutOfRange);
    }
    var ages := HdiAges(t, pdf, prob, order);
    if |ages| == 0 {
      return Err(IndexOutOfRange);
    }
    var gaps := Gaps(ages, Step(t));
    var intervals := CollectRuns(ages, gaps);
    return Ok(intervals);
  }

  /** The loop of hdi: close the current run at each gap and open the next after it. */
  method CollectRuns(ages: seq<real>, gaps: seq<nat>) returns (intervals: seq<Interval>)
    requires |ages| >= 1 && ValidGaps(ages, gaps)
    ensures intervals == Runs(ages, gaps)
  {
    intervals := [];
    var start := ages[0];
    for i := 0 to |gaps|
      invariant intervals == Runs(ages, gaps)[..i]
      invariant start == ages[RunStart(gaps, i)]
    {
      var end := ages[gaps[i]];
      intervals := intervals + [Interval(start, end)];
      start := ages[gaps[i] + 1];
    }
    intervals := intervals + [Interval(start, ages[|ages| - 1])];
    assert intervals == Runs(ages, gaps);
  }

  // ---------------------------------------------------------------------------
  // The runs

  /** gaps lists, in increasing order, exactly the positions j with ages[j+1] - ages[j] > step. */
  predicate IsGapsOf(ages: seq<real>, step: real, gaps: seq<nat>) {
    ValidGaps(ages, gaps) &&
    (forall k :: 0 <= k < |gaps| ==> ages[gaps[k] + 1] - ages[gaps[k]] > step) &&
    (forall j: nat :: j + 1 < |ages| && ages[j + 1] - ages[j] > step ==> j in gaps)
  }

  lemma GapsCorrect(ages: seq<real>, step: real)
    ensures IsGapsOf(ages, step, Gaps(ages, step))
  {
    GapsFromBounded(ages, step, 0);
    GapsFromComplete(ages, step, 0);
    GapsFromIncreasing(ages, step, 0);
  }

  /** Run k's first index is no later than its last. */
  lemma RunIndices(ages: seq<real>, gaps: seq<nat>, k: nat)
    requires |ages| >= 1 && ValidGaps(ages, gaps) && k <= |gaps|
    ensures 0 <= RunStart(gaps, k) <= RunEnd(gaps, k, |ages|) < |ages|
  {
    if 0 < k < |gaps| {
      assert gaps[k - 1] < gaps[k];
    }
  }

  /**
   * There is one run more than there are gaps; each run starts no later than it ends,
   * the first starts at the smallest (oldest) kept age and the last ends at the largest
   * (youngest), and every endpoint is a kept age.
   */
  lemma RunsShape(ages: seq<real>, gaps: seq<nat>)
    requires |ages| >= 1 && NonDecreasing(ages) && ValidGaps(ages, gaps)
    ensures var runs := Runs(ages, gaps);
      |runs| == |gaps| + 1 &&
      runs[0].start == ages[0] && runs[|runs| - 1].end == ages[|ages| - 1] &&
      (forall k :: 0 <= k < |runs| ==> runs[k].start <= runs[k].end) &&
      (forall k :: 0 <= k < |runs| ==> runs[k].start in ages && runs[k].end in ages)
  {
    var runs := Runs(ages, gaps);
    forall k | 0 <= k < |runs|
      ensures runs[k].start <= runs[k].end
      ensures runs[k].start in ages && runs[k].end in ages
    {
      RunIndices(ages, gaps, k);
    }
  }

  /** Consecutive runs are more than one step apart. */
  lemma RunsSeparated(ages: seq<real>, step: real, gaps: seq<nat>)
    requires |ages| >= 1 && IsGapsOf(ages, step, gaps)
    ensures var runs := Runs(ages, gaps);
      forall k :: 0 <= k < |runs| - 1 ==> runs[k + 1].start - runs[k].end > step
  {
  }

  /** Within a run no two neighbouring ages are more than a step apart: the runs are maximal. */
  lemma RunsMaximal(ages: seq<real>, step: real, gaps: seq<nat>)
    requires |ages| >= 1 && IsGapsOf(ages, step, gaps)
    ensures forall k: nat, j: nat :: k <= |gaps| && RunStart(gaps, k) <= j < RunEnd(gaps, k, |ages|) ==>
      ages[j + 1] - ages[j] <= step
  {
    forall k: nat, j: nat | k <= |gaps| && RunStart(gaps, k) <= j < RunEnd(gaps, k, |ages|)
      ensures ages[j + 1] - ages[j] <= step
    {
      if ages[j + 1] - ages[j] > step {
        assert false;
      }
    }
  }

  /** With a non-negative step the runs are disjoint and in ascending order. */
  lemma RunsDisjoint(ages: seq<real>, step: real, gaps: seq<nat>)
    requires |ages| >= 1 && NonDecreasing(ages) && IsGapsOf(ages, step, gaps) && step >= 0.0
    ensures var runs := Runs(ages, gaps);
      forall k, l :: 0 <= k < l < |runs| ==> runs[k].end < runs[l].start
  {
    var runs := Runs(ages, gaps);
    forall k, l | 0 <= k < l < |runs|
      ensures runs[k].end < runs[l].start
    {
      assert gaps[k] <= gaps[l - 1];
      assert ages[gaps[k] + 1] <= ages[gaps[l - 1] + 1];
    }
  }

  /** The first k in [from, |gaps|] with k == |gaps| or gaps[k] >= p: the run holding index p. */
  function RunOf(gaps: seq<nat>, p: nat, from: nat): (k: nat)
    requires from <= |gaps|
    decreases |gaps| - from
    ensures from <= k <= |gaps|
    ensures forall j :: from <= j < k ==> gaps[j] < p
    ensures k < |gaps| ==> gaps[k] >= p
  {
    if from == |gaps| || gaps[from] >= p then from else RunOf(gaps, p, from + 1)
  }

  /** Every kept age lies in a run: the one RunOf names. */
  lemma RunsCover(ages: seq<real>, gaps: seq<nat>, p: nat)
    requires |ages| >= 1 && NonDecreasing(ages) && ValidGaps(ages, gaps) && p < |ages|
    ensures var runs := Runs(ages, gaps);
      var k := RunOf(gaps, p, 0);
      RunStart(gaps, k) <= p <= RunEnd(gaps, k, |ages|) &&
      runs[k].start <= ages[p] <= runs[k].end
  {
    var k := RunOf(gaps, p, 0);
    assert RunStart(gaps, k) <= p <= RunEnd(gaps, k, |ages|);
  }

  /** With a non-negative step no value lies in two runs. */
  lemma RunsUnique(ages: seq<real>, step: real, gaps: seq<nat>, x: real)
    requires |ages| >= 1 && NonDecreasing(ages) && IsGapsOf(ages, step, gaps) && step >= 0.0
    ensures var runs := Runs(ages, gaps);
      forall k, l ::
        (0 <= k < |runs| && 0 <= l < |runs| &&
         runs[k].start <= x <= runs[k].end && runs[l].start <= x <= runs[l].end) ==> k == l
  {
    RunsDisjoint(ages, step, gaps);
  }

  /** A single kept age gives the single interval (t, t). */
  lemma SingleAgeSingleRun(a: real, step: real)
    ensures Runs([a], Gaps([a], step)) == [Interval(a, a)]
  {
    assert Gaps([a], step) == [];
  }

  /** Ages without a gap form one run from the first to the last. */
  lemma NoGapsOneRun(ages: seq<real>, step: real)
    requires |ages| >= 1
    requires forall j :: 0 <= j < |ages| - 1 ==> ages[j + 1] - ages[j] <= step
    ensures Runs(ages, Gaps(ages, step)) == [Interval(ages[0], ages[|ages| - 1])]
  {
    var gaps := Gaps(ages, step);
    NoGapsFrom(ages, step, 0);
    assert Runs(ages, gaps)[0] == Interval(ages[0], ages[|ages| - 1]);
  }

  lemma {:induction false} NoGapsFrom(ages: seq<real>, step: real, g: nat)
    requires forall j :: 0 <= j < |ages| - 1 ==> ages[j + 1] - ages[j] <= step
    decreases |ages| - g
    ensures GapsFrom(ages, step, g) == []
  {
    if g + 1 < |ages| {
      NoGapsFrom(ages, step, g + 1);
      assert ages[g + 1] - ages[g] <= step;
    }
  }

  // ---------------------------------------------------------------------------
  // The selection

  /** A mask where a true entry implies true entries before it is true on a prefix. */
  lemma {:induction false} PrefixClosedCount(mask: seq<bool>)
    requires forall i, j :: 0 <= i < j < |mask| && mask[j] ==> mask[i]
    ensures CountTrue(mask) <= |mask|
    ensures forall i :: 0 <= i < |mask| ==> (mask[i] <==> i < CountTrue(mask))
  {
    if |mask| > 0 {
      var rest := mask[1..];
      PrefixClosedCount(rest);
      if !mask[0] {
        assert forall j :: 0 <= j < |mask| ==> !mask[j];
      } else {
        assert forall j :: 1 <= j < |mask| ==> rest[j - 1] == mask[j];
      }
    }
  }

  /** Over a non-decreasing mass, the points within hdi_prob are a prefix. */
  lemma WithinHdiPrefix(mass: seq<real>, prob: real)
    requires NonDecreasing(mass)
    ensures var m := CountTrue(WithinHdi(mass, prob));
      m <= |mass| &&
      (forall k :: 0 <= k < |mass| ==> (WithinHdi(mass, prob)[k] <==> k < m)) &&
      (forall k :: 0 <= k < |mass| ==> (mass[k] <= prob <==> k < m))
  {
    var mask := WithinHdi(mass, prob);
    assert forall i, j :: 0 <= i < j < |mask| && mask[j] ==> mask[i] by {
      forall i, j | 0 <= i < j < |mask| && mask[j] ensures mask[i] {
        assert mass[i] <= mass[j];
      }
    }
    PrefixClosedCount(mask);
    forall k | 0 <= k < |mass|
      ensures mask[k] == (mass[k] <= prob)
    {
    }
  }

  lemma GatherNonNegative(pdf: seq<real>, order: seq<nat>)
    requires IndicesBelow(order, |pdf|) && AllNonNegative(pdf)
    ensures AllNonNegative(Gather(pdf, order))
  {
  }

  /** With non-negative densities and step the cumulative mass never decreases. */
  lemma MassNonDecreasing(sp: seq<real>, step: real)
    requires AllNonNegative(sp) && step >= 0.0
    ensures NonDecreasing(CumulativeMass(sp, step))
  {
    CumSumNonDecreasing(sp);
    ScaleNonDecreasing(CumSum(sp), step);
  }

  /**
   * Ranked densities that are non-negative, with a non-negative step: the points within
   * hdi_prob are the first m.
   */
  lemma MassPrefix(sp: seq<real>, step: real, prob: real)
    requires AllNonNegative(sp) && step >= 0.0
    ensures var mass := CumulativeMass(sp, step);
      var m := CountTrue(WithinHdi(mass, prob));
      m <= |sp| &&
      (forall k :: 0 <= k < |sp| ==> (WithinHdi(mass, prob)[k] <==> k < m)) &&
      (forall k :: 0 <= k < |sp| ==> (mass[k] <= prob <==> k < m))
  {
    MassNonDecreasing(sp, step);
    WithinHdiPrefix(CumulativeMass(sp, step), prob);
  }

  /** The cumulative mass at rank k - 1 is the mass of the first k ranked points. */
  lemma MassAt(sp: seq<real>, step: real, k: nat)
    requires 0 < k <= |sp|
    ensures CumulativeMass(sp, step)[k - 1] == Sum(sp[..k]) * step
  {
  }

  /**
   * For a non-negative density and a non-negative step the selection is the first m
   * points of the ranking: exactly those whose cumulative mass is within hdi_prob,
   * and each has a density at least that of every point left out.
   */
  lemma SelectionIsPrefix(t: seq<real>, pdf: seq<real>, prob: real, order: seq<nat>)
    requires Ranked(t, pdf, order) && IsDescendingOrder(order, pdf) && AllNonNegative(pdf) && Step(t) >= 0.0
    ensures var mask := SelectionMask(t, pdf, prob, order);
      var mass := CumulativeMass(Gather(pdf, order), Step(t));
      var m := CountTrue(mask);
      m <= |pdf| &&
      Selection(t, pdf, prob, order) == Gather(t, order)[..m] &&
      (forall k :: 0 <= k < |pdf| ==> (mass[k] <= prob <==> k < m)) &&
      (forall k, l :: 0 <= k < m <= l < |pdf| ==> pdf[order[k]] >= pdf[order[l]])
  {
    var sp := Gather(pdf, order);
    GatherNonNegative(pdf, order);
    MassPrefix(sp, Step(t), prob);
    var mask := SelectionMask(t, pdf, prob, order);
    MaskedPrefix(Gather(t, order), mask, CountTrue(mask));
  }

  /**
   * The mass of the selection (the selected ranked densities summed, times the step)
   * is within hdi_prob, and taking the next ranked point as well would exceed it.
   */
  lemma SelectedMass(sp: seq<real>, step: real, prob: real)
    requires AllNonNegative(sp) && step >= 0.0
    ensures var m := CountTrue(WithinHdi(CumulativeMass(sp, step), prob));
      m <= |sp| &&
      (m > 0 ==> Sum(sp[..m]) * step <= prob) &&
      (m < |sp| ==> Sum(sp[..m + 1]) * step > prob)
  {
    var m := CountTrue(WithinHdi(CumulativeMass(sp, step), prob));
    MassAtBoundary(sp, step, prob);
    if m > 0 {
      MassAt(sp, step, m);
    }
    if m < |sp| {
      MassAt(sp, step, m + 1);
    }
  }

  /** The last selected rank is within hdi_prob and the first rank left out is not. */
  lemma MassAtBoundary(sp: seq<real>, step: real, prob: real)
    requires AllNonNegative(sp) && step >= 0.0
    ensures var m := CountTrue(WithinHdi(CumulativeMass(sp, step), prob));
      m <= |sp| &&
      (m > 0 ==> CumulativeMass(sp, step)[m - 1] <= prob) &&
      (m < |sp| ==> CumulativeMass(sp, step)[m] > prob)
  {
    MassPrefix(sp, step, prob);
  }

  /** Nothing is kept exactly when there is no point or the top-ranked point alone exceeds hdi_prob. */
  lemma NothingSelectedIff(sp: seq<real>, step: real, prob: real)
    requires AllNonNegative(sp) && step >= 0.0
    ensures CountTrue(WithinHdi(CumulativeMass(sp, step), prob)) == 0 <==> (|sp| == 0 || sp[0] * step > prob)
  {
    MassPrefix(sp, step, prob);
    if |sp| > 0 {
      assert Sum(sp[..1]) == sp[0] by {
        assert sp[..1][..0] == [];
      }
      assert CumulativeMass(sp, step)[0] == sp[0] * step;
    }
  }

  /** hdi_ages has one age per point of the selection mask. */
  lemma HdiAgesLength(t: seq<real>, pdf: seq<real>, prob: real, order: seq<nat>)
    requires Ranked(t, pdf, order)
    ensures |HdiAges(t, pdf, prob, order)| == CountTrue(SelectionMask(t, pdf, prob, order))
  {
    MaskedLength(Gather(t, order), SelectionMask(t, pdf, prob, order));
    SortAscCorrect(Selection(t, pdf, prob, order));
  }

  /**
   * hdi fails exactly when the grid has fewer than two points, has fewer points than
   * the density, or keeps nothing: there is no density or the top-ranked point's mass
   * alone exceeds hdi_prob.
   */
  lemma HdiFailsIff(t: seq<real>, pdf: seq<real>, prob: real, order: seq<nat>)
    requires Indexes(order, pdf) && AllNonNegative(pdf)
    requires |t| >= 2 ==> Step(t) >= 0.0
    ensures HdiSpec(t, pdf, prob, order).Err? <==>
      (|t| < 2 || |pdf| > |t| || |pdf| == 0 || pdf[order[0]] * Step(t) > prob)
  {
    if |t| >= 2 && |pdf| <= |t| {
      var sp := Gather(pdf, order);
      GatherNonNegative(pdf, order);
      NothingSelectedIff(sp, Step(t), prob);
      HdiAgesLength(t, pdf, prob, order);
    }
  }

  /**
   * On success the intervals are the maximal runs of the selected ages, sorted; every
   * selected age lies in one of them (exactly one when the step is non-negative).
   */
  lemma HdiCoversSelection(t: seq<real>, pdf: seq<real>, prob: real, order: seq<nat>, x: real)
    requires Indexes(order, pdf)
    requires HdiSpec(t, pdf, prob, order).Ok?
    requires x in Selection(t, pdf, prob, order)
    ensures var runs := HdiSpec(t, pdf, prob, order).value;
      (exists k :: 0 <= k < |runs| && runs[k].start <= x <= runs[k].end) &&
      (Step(t) >= 0.0 ==> forall k, l ::
         (0 <= k < |runs| && 0 <= l < |runs| &&
          runs[k].start <= x <= runs[k].end && runs[l].start <= x <= runs[l].end) ==> k == l)
  {
    assert |t| >= 2 && |pdf| <= |t|;
    var sel := Selection(t, pdf, prob, order);
    var ages := HdiAges(t, pdf, prob, order);
    var gaps := Gaps(ages, Step(t));
    assert HdiSpec(t, pdf, prob, order).value == Runs(ages, gaps);
    HdiCoversAges(ages, Step(t), sel, x);
  }

  /** Every element of the selection lies in a run of its sorted copy (in one, for a non-negative step). */
  lemma HdiCoversAges(ages: seq<real>, step: real, sel: seq<real>, x: real)
    requires ages == SortAsc(sel) && x in sel
    ensures |ages| >= 1
    ensures var runs := Runs(ages, Gaps(ages, step));
      (exists k :: 0 <= k < |runs| && runs[k].start <= x <= runs[k].end) &&
      (step >= 0.0 ==> forall k, l ::
         (0 <= k < |runs| && 0 <= l < |runs| &&
          runs[k].start <= x <= runs[k].end && runs[l].start <= x <= runs[l].end) ==> k == l)
  {
    assert NonDecreasing(ages) && exists p :: 0 <= p < |ages| && ages[p] == x by {
      SortAscCorrect(sel);
      assert x in multiset(ages);
    }
    var p :| 0 <= p < |ages| && ages[p] == x;
    var gaps := Gaps(ages, step);
    var runs := Runs(ages, gaps);
    var k := RunOf(gaps, p, 0);
    assert runs[k].start <= x <= runs[k].end by {
      RunsCover(ages, gaps, p);
    }
    if step >= 0.0 {
      GapsCorrect(ages, step);
      RunsUnique(ages, step, gaps, x);
    }
  }

  /**
   * On success: one interval per gap plus one, each starting no later than it ends,
   * with both endpoints selected ages, consecutive intervals more than a step apart.
   */
  lemma HdiIntervals(t: seq<real>, pdf: seq<real>, prob: real, order: seq<nat>)
    requires Indexes(order, pdf)
    requires HdiSpec(t, pdf, prob, order).Ok?
    ensures |t| >= 2 && |pdf| <= |t|
    ensures var runs := HdiSpec(t, pdf, prob, order).value;
      var ages := HdiAges(t, pdf, prob, order);
      var sel := Selection(t, pdf, prob, order);
      |runs| == |Gaps(ages, Step(t))| + 1 &&
      (forall k :: 0 <= k < |runs| ==> runs[k].start <= runs[k].end) &&
      (forall k :: 0 <= k < |runs| ==> runs[k].start in sel && runs[k].end in sel) &&
      (forall k :: 0 <= k < |runs| - 1 ==> runs[k + 1].start - runs[k].end > Step(t))
  {
    var sel := Selection(t, pdf, prob, order);
    var ages := HdiAges(t, pdf, prob, order);
    var gaps := Gaps(ages, Step(t));
    var runs := Runs(ages, gaps);
    assert HdiSpec(t, pdf, prob, order).value == runs;
    assert multiset(ages) == multiset(sel) && NonDecreasing(ages) by {
      SortAscCorrect(sel);
    }
    assert forall k :: 0 <= k < |runs| - 1 ==> runs[k + 1].start - runs[k].end > Step(t) by {
      GapsCorrect(ages, Step(t));
      RunsSeparated(ages, Step(t), gaps);
    }
    RunsShape(ages, gaps);
    forall k | 0 <= k < |runs|
      ensures runs[k].start in sel && runs[k].end in sel
    {
      assert runs[k].start in multiset(ages) && runs[k].end in multiset(ages);
    }
  }
}
