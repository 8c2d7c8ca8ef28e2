/**
 * The switch-chain linear interpolation of the testing_caldist.py script: one condition
 * and one linear formula per segment of xp, folded into a result that starts from the
 * first segment (or, failing that, the last segment's formula) and is overridden by
 * every later segment whose condition holds.
 */
module TestingCaldist {
  import opened Grid
  import PyMcCarbon

  /** Segment i's condition: xp[i] <= x < xp[i+1]. */
  predicate InSegment(x: real, xp: seq<real>, i: nat)
    requires i < |xp| - 1
  {
    x >= xp[i] && x < xp[i + 1]
  }

  /** Segment i's linear formula, evaluated at x (possibly outside the segment). */
  function SegmentValue(x: real, xp: seq<real>, fp: seq<real>, i: nat): real
    requires |fp| == |xp| && i < |xp| - 1 && xp[i] < xp[i + 1]
  {
    fp[i] + (fp[i + 1] - fp[i]) * (x - xp[i]) / (xp[i + 1] - xp[i])
  }

  /** On a strictly increasing xp no two segment conditions hold at once. */
  lemma SegmentsDisjoint(x: real, xp: seq<real>, i: nat, j: nat)
    requires StrictlyIncreasing(xp) && i < j < |xp| - 1
    ensures !(InSegment(x, xp, i) && InSegment(x, xp, j))
  {
    if InSegment(x, xp, i) {
      assert xp[i + 1] <= xp[j];
    }
  }

  /** The segment whose condition holds is the one the bin index names. */
  lemma InSegmentIsBinIndex(x: real, xp: seq<real>, i: nat)
    requires StrictlyIncreasing(xp) && i < |xp| - 1
    ensures InSegment(x, xp, i) <==> PyMcCarbon.BinIndex(x, xp) == i
  {
    if InSegment(x, xp, i) {
      PyMcCarbon.BinIndexOfBracket(x, xp, i);
    }
  }

  /**
   * A closed form of the switch chain: the formula of the segment holding x, or the
   * last segment's formula when x lies in no segment (x < xp[0] or x >= xp[-1]).
   */
  function SwitchValue(x: real, xp: seq<real>, fp: seq<real>): real
    requires |xp| >= 2 && |fp| == |xp| && StrictlyIncreasing(xp)
  {
    var i := PyMcCarbon.BinIndex(x, xp);
    if 0 <= i < |xp| - 1 then SegmentValue(x, xp, fp, i) else SegmentValue(x, xp, fp, |xp| - 2)
  }

  /**
   * pytensor_linear_interp. It needs at least two knots (conditions[0] and
   * interpolated_values[-1] are indexed) and distinct knots for the divisions.
   */
  method LinearInterp(x: real, xp: seq<real>, fp: seq<real>) returns (r: real)
    requires |xp| >= 2 && |fp| == |xp| && StrictlyIncreasing(xp)
    ensures forall i: nat :: i < |xp| - 1 && InSegment(x, xp, i) ==> r == SegmentValue(x, xp, fp, i)
    ensures (forall i: nat :: i < |xp| - 1 ==> !InSegment(x, xp, i)) ==> r == SegmentValue(x, xp, fp, |xp| - 2)
    ensures r == SwitchValue(x, xp, fp)
  {
    var m := |xp| - 1;
    r := if InSegment(x, xp, 0) then SegmentValue(x, xp, fp, 0) else SegmentValue(x, xp, fp, m - 1);
    for k := 1 to m
      invariant forall i: nat :: i < k && InSegment(x, xp, i) ==> r == SegmentValue(x, xp, fp, i)
      invariant (forall i: nat :: i < k ==> !InSegment(x, xp, i)) ==> r == SegmentValue(x, xp, fp, m - 1)
    {
      if InSegment(x, xp, k) {
        forall i: nat | i < k
          ensures !InSegment(x, xp, i)
        {
          SegmentsDisjoint(x, xp, i, k);
        }
        r := SegmentValue(x, xp, fp, k);
      }
    }
    var b := PyMcCarbon.BinIndex(x, xp);
    if 0 <= b < m {
      InSegmentIsBinIndex(x, xp, b);
    } else {
      forall i: nat | i < m
        ensures !InSegment(x, xp, i)
      {
        InSegmentIsBinIndex(x, xp, i);
      }
    }
  }

  /** At a knot other than the last the result is that knot's value. */
  lemma SwitchValueAtKnot(xp: seq<real>, fp: seq<real>, i: nat)
    requires |xp| >= 2 && |fp| == |xp| && StrictlyIncreasing(xp) && i < |xp| - 1
    ensures SwitchValue(xp[i], xp, fp) == fp[i]
  {
    PyMcCarbon.BinIndexOfBracket(xp[i], xp, i);
  }

  /** At the last knot no condition holds, and the last formula gives fp[-1]. */
  lemma SwitchValueAtLastKnot(xp: seq<real>, fp: seq<real>)
    requires |xp| >= 2 && |fp| == |xp| && StrictlyIncreasing(xp)
    ensures SwitchValue(xp[|xp| - 1], xp, fp) == fp[|fp| - 1]
  {
    var n := |xp|;
    assert PyMcCarbon.BinIndex(xp[n - 1], xp) == n - 1;
    assert xp[n - 2] < xp[n - 1];
    var w := xp[n - 1] - xp[n - 2];
    assert (fp[n - 1] - fp[n - 2]) * w / w == fp[n - 1] - fp[n - 2];
  }

  /** On [xp[0], xp[-1]) the switch chain agrees with the bin-index interpolation. */
  lemma SwitchValueAgreesWithLerp(x: real, xp: seq<real>, fp: seq<real>)
    requires |xp| >= 2 && |fp| == |xp| && StrictlyIncreasing(xp) && PyMcCarbon.InDomain(x, xp)
    ensures SwitchValue(x, xp, fp) == PyMcCarbon.Lerp(x, xp, fp)
  {
    var i := PyMcCarbon.BinIndex(x, xp);
    ScaledQuotient(fp[i + 1] - fp[i], x - xp[i], xp[i + 1] - xp[i]);
  }

  lemma ScaledQuotient(a: real, b: real, w: real)
    requires w != 0.0
    ensures a * b / w == a / w * b
  {
  }
}
