/**
 * Discrete-grid arithmetic shared by the calibration code: the numpy primitives
 * it relies on (sum, cumsum, linspace, trapz, searchsorted, interp, boolean masks,
 * sort) stated over exact reals, with the facts about them the rest of the model uses.
 */
module Grid {

  predicate NonDecreasing(s: seq<real>) {
    forall i, j :: 0 <= i < j < |s| ==> s[i] <= s[j]
  }

  predicate StrictlyIncreasing(s: seq<real>) {
    forall i, j :: 0 <= i < j < |s| ==> s[i] < s[j]
  }

  predicate AllNonNegative(s: seq<real>) {
    forall i :: 0 <= i < |s| ==> s[i] >= 0.0
  }

  // ---------------------------------------------------------------------------
  // Sums

  /** numpy.sum */
  function Sum(s: seq<real>): real {
    if |s| == 0 then 0.0 else Sum(s[..|s| - 1]) + s[|s| - 1]
  }

  /** numpy.cumsum: element k is the sum of the first k + 1 elements. */
  function CumSum(s: seq<real>): seq<real> {
    seq(|s|, k requires 0 <= k < |s| => Sum(s[..k + 1]))
  }

  function Scale(s: seq<real>, c: real): seq<real> {
    seq(|s|, i requires 0 <= i < |s| => s[i] * c)
  }

  function DivideBy(s: seq<real>, c: real): seq<real>
    requires c != 0.0
  {
    seq(|s|, i requires 0 <= i < |s| => s[i] / c)
  }

  /** Elementwise product of two aligned arrays. */
  function Mul(a: seq<real>, b: seq<real>): seq<real>
    requires |a| == |b|
  {
    seq(|a|, i requires 0 <= i < |a| => a[i] * b[i])
  }

  /** (x - m) ** 2, elementwise. */
  function SquaredDeviations(x: seq<real>, m: real): seq<real> {
    seq(|x|, i requires 0 <= i < |x| => (x[i] - m) * (x[i] - m))
  }

  function Pow(x: real, n: nat): real {
    if n == 0 then 1.0 else x * Pow(x, n - 1)
  }

  /** x ** n, elementwise. */
  function PowAll(x: seq<real>, n: nat): seq<real> {
    seq(|x|, i requires 0 <= i < |x| => Pow(x[i], n))
  }

  lemma ScalePrefix(s: seq<real>, c: real, k: nat)
    requires k <= |s|
    ensures Scale(s, c)[..k] == Scale(s[..k], c)
  {
    forall i | 0 <= i < k
      ensures Scale(s, c)[..k][i] == Scale(s[..k], c)[i]
    {
    }
  }

  lemma DivideByPrefix(s: seq<real>, c: real, k: nat)
    requires k <= |s| && c != 0.0
    ensures DivideBy(s, c)[..k] == DivideBy(s[..k], c)
  {
    forall i | 0 <= i < k
      ensures DivideBy(s, c)[..k][i] == DivideBy(s[..k], c)[i]
    {
    }
  }

  lemma MulPrefix(a: seq<real>, b: seq<real>, k: nat)
    requires |a| == |b| && k <= |a|
    ensures Mul(a, b)[..k] == Mul(a[..k], b[..k])
  {
    forall i | 0 <= i < k
      ensures Mul(a, b)[..k][i] == Mul(a[..k], b[..k])[i]
    {
    }
  }

  lemma {:induction false} SumNonNegative(s: seq<real>)
    requires AllNonNegative(s)
    ensures Sum(s) >= 0.0
  {
    if |s| > 0 {
      SumNonNegative(s[..|s| - 1]);
    }
  }

  lemma {:induction false} SumPrefixMonotone(s: seq<real>, i: nat, j: nat)
    requires AllNonNegative(s) && i <= j <= |s|
    ensures Sum(s[..i]) <= Sum(s[..j])
  {
    if i < j {
      SumPrefixMonotone(s, i, j - 1);
      assert s[..j][..j - 1] == s[..j - 1];
    }
  }

  /** Adding one more element to a prefix adds that element to its sum. */
  lemma SumPrefixStep(s: seq<real>, k: nat)
    requires k < |s|
    ensures Sum(s[..k + 1]) == Sum(s[..k]) + s[k]
  {
    assert s[..k + 1][..k] == s[..k];
  }

  lemma CumSumNonDecreasing(s: seq<real>)
    requires AllNonNegative(s)
    ensures NonDecreasing(CumSum(s))
  {
    forall i, j | 0 <= i < j < |s|
      ensures CumSum(s)[i] <= CumSum(s)[j]
    {
      SumPrefixMonotone(s, i + 1, j + 1);
    }
  }

  lemma CumSumLast(s: seq<real>)
    requires |s| > 0
    ensures CumSum(s)[|s| - 1] == Sum(s)
  {
    assert s[..|s|] == s;
  }

  lemma {:induction false} SumDivideBy(s: seq<real>, c: real)
    requires c != 0.0
    ensures Sum(DivideBy(s, c)) == Sum(s) / c
  {
    if |s| > 0 {
      var n := |s|;
      SumDivideBy(s[..n - 1], c);
      DivideByPrefix(s, c, n - 1);
      DivideSum(Sum(s[..n - 1]), s[n - 1], c);
    }
  }

  lemma SelfQuotient(z: real)
    requires z != 0.0
    ensures z / z == 1.0
  {
  }

  lemma DivideSum(a: real, b: real, c: real)
    requires c != 0.0
    ensures a / c + b / c == (a + b) / c
  {
  }

  lemma ScaleSum(a: real, b: real, c: real)
    ensures a * c + b * c == (a + b) * c
  {
  }

  lemma {:induction false} SumScale(s: seq<real>, c: real)
    ensures Sum(Scale(s, c)) == Sum(s) * c
  {
    if |s| > 0 {
      var n := |s|;
      SumScale(s[..n - 1], c);
      ScalePrefix(s, c, n - 1);
      ScaleSum(Sum(s[..n - 1]), s[n - 1], c);
    }
  }

  lemma MulMonotone(a: real, b: real, c: real)
    requires a <= b && c >= 0.0
    ensures a * c <= b * c
  {
    ProductNonNegative(b - a, c);
  }

  /** Scaling by a non-negative factor keeps a sequence in ascending order. */
  lemma ScaleNonDecreasing(s: seq<real>, c: real)
    requires NonDecreasing(s) && c >= 0.0
    ensures NonDecreasing(Scale(s, c))
  {
    var r := Scale(s, c);
    forall i, j | 0 <= i < j < |r|
      ensures r[i] <= r[j]
    {
      MulMonotone(s[i], s[j], c);
    }
  }

  lemma ProductNonNegative(x: real, y: real)
    requires x >= 0.0 && y >= 0.0
    ensures x * y >= 0.0
  {
  }

  /** A weighted sum with non-negative weights lies between lo and hi times the total weight. */
  lemma WeightedSumBounds(x: seq<real>, w: seq<real>, lo: real, hi: real)
    requires |x| == |w| && AllNonNegative(w)
    requires forall i :: 0 <= i < |x| ==> lo <= x[i] <= hi
    ensures lo * Sum(w) <= Sum(Mul(x, w)) <= hi * Sum(w)
  {
    var m := Mul(x, w);
    assert Sum(Scale(w, lo)) <= Sum(m) <= Sum(Scale(w, hi)) by {
      forall i | 0 <= i < |x|
        ensures Scale(w, lo)[i] <= m[i] <= Scale(w, hi)[i]
      {
        WeightedBetween(Scale(w, lo)[i], m[i], Scale(w, hi)[i], x[i], w[i], lo, hi);
      }
      SumMonotone(Scale(w, lo), m);
      SumMonotone(m, Scale(w, hi));
    }
    SumScale(w, lo);
    SumScale(w, hi);
  }

  lemma WeightedBetween(low: real, y: real, high: real, x: real, w: real, lo: real, hi: real)
    requires lo <= x <= hi && w >= 0.0
    requires low == w * lo && y == x * w && high == w * hi
    ensures low <= y <= high
  {
    ProductNonNegative(x - lo, w);
    ProductNonNegative(hi - x, w);
  }

  /** Summing preserves an elementwise ordering. */
  lemma {:induction false} SumMonotone(a: seq<real>, b: seq<real>)
    requires |a| == |b|
    requires forall i :: 0 <= i < |a| ==> a[i] <= b[i]
    ensures Sum(a) <= Sum(b)
  {
    var n := |a|;
    if n > 0 {
      var a', b' := a[..n - 1], b[..n - 1];
      assert forall i :: 0 <= i < n - 1 ==> a'[i] <= b'[i] by {
        forall i | 0 <= i < n - 1 ensures a'[i] <= b'[i] {
          assert a'[i] == a[i] && b'[i] == b[i];
        }
      }
      SumMonotone(a', b');
    }
  }

  /** A variance-like sum of squared deviations under non-negative weights is non-negative. */
  lemma WeightedSquaresNonNegative(x: seq<real>, m: real, w: seq<real>)
    requires |x| == |w| && AllNonNegative(w)
    ensures Sum(Mul(SquaredDeviations(x, m), w)) >= 0.0
  {
    var terms := Mul(SquaredDeviations(x, m), w);
    forall i | 0 <= i < |terms|
      ensures terms[i] >= 0.0
    {
      ProductNonNegative((x[i] - m) * (x[i] - m), w[i]);
    }
    SumNonNegative(terms);
  }

  // ---------------------------------------------------------------------------
  // Minimum and maximum

  /** Python min() of a non-empty array. */
  function Min(s: seq<real>): real
    requires |s| > 0
  {
    if |s| == 1 then s[0]
    else
      var r := Min(s[1..]);
      if s[0] <= r then s[0] else r
  }

  /** Python max() of a non-empty array. */
  function Max(s: seq<real>): real
    requires |s| > 0
  {
    if |s| == 1 then s[0]
    else
      var r := Max(s[1..]);
      if s[0] >= r then s[0] else r
  }

  /** min() is an element no larger than any other. */
  lemma {:induction false} MinIsLeast(s: seq<real>)
    requires |s| > 0
    ensures (forall i :: 0 <= i < |s| ==> Min(s) <= s[i]) && Min(s) in s
  {
    if |s| > 1 {
      MinIsLeast(s[1..]);
      assert forall i :: 1 <= i < |s| ==> s[1..][i - 1] == s[i];
    }
  }

  /** max() is an element no smaller than any other. */
  lemma {:induction false} MaxIsGreatest(s: seq<real>)
    requires |s| > 0
    ensures (forall i :: 0 <= i < |s| ==> s[i] <= Max(s)) && Max(s) in s
  {
    if |s| > 1 {
      MaxIsGreatest(s[1..]);
      assert forall i :: 1 <= i < |s| ==> s[1..][i - 1] == s[i];
    }
  }

  lemma MinAtMostMax(s: seq<real>)
    requires |s| > 0
    ensures Min(s) <= Max(s)
  {
    MinIsLeast(s);
    MaxIsGreatest(s);
  }

  // ---------------------------------------------------------------------------
  // Evenly spaced grids and the trapezoid rule

  function LinStep(lo: real, hi: real, n: nat): real
    requires n >= 2
  {
    (hi - lo) / ((n - 1) as real)
  }

  /** numpy.linspace(lo, hi, n): n evenly spaced points from lo to hi inclusive. */
  function Linspace(lo: real, hi: real, n: nat): seq<real> {
    seq(n, i requires 0 <= i < n => if n == 1 then lo else lo + (i as real) * LinStep(lo, hi, n))
  }

  lemma LinspaceEnds(lo: real, hi: real, n: nat)
    requires n >= 2
    ensures Linspace(lo, hi, n)[0] == lo
    ensures Linspace(lo, hi, n)[n - 1] == hi
  {
    assert Linspace(lo, hi, n)[n - 1] == lo + ((n - 1) as real) * LinStep(lo, hi, n);
    CountTimesStep(lo, hi, (n - 1) as real);
  }

  lemma CountTimesStep(lo: real, hi: real, k: real)
    requires k > 0.0
    ensures k * ((hi - lo) / k) == hi - lo
  {
  }

  lemma LinspaceUniform(lo: real, hi: real, n: nat)
    requires n >= 2
    ensures forall i :: 0 <= i < n - 1 ==>
      Linspace(lo, hi, n)[i + 1] - Linspace(lo, hi, n)[i] == LinStep(lo, hi, n)
  {
    var h := LinStep(lo, hi, n);
    forall i | 0 <= i < n - 1
      ensures Linspace(lo, hi, n)[i + 1] - Linspace(lo, hi, n)[i] == h
    {
      assert ((i + 1) as real) * h == (i as real) * h + h;
    }
  }

  /** Points of a grid from lo to hi lie in [lo, hi] and are in ascending order. */
  lemma LinspaceOrdered(lo: real, hi: real, n: nat)
    requires lo <= hi
    ensures NonDecreasing(Linspace(lo, hi, n))
    ensures forall i :: 0 <= i < n ==> lo <= Linspace(lo, hi, n)[i] <= hi
  {
    var t := Linspace(lo, hi, n);
    if n >= 2 {
      var h := LinStep(lo, hi, n);
      assert h >= 0.0;
      forall i, j | 0 <= i < j < n
        ensures t[i] <= t[j]
      {
        ProductNonNegative((j - i) as real, h);
        assert (j as real) * h == (i as real) * h + ((j - i) as real) * h;
      }
      forall i | 0 <= i < n
        ensures lo <= t[i] <= hi
      {
        ProductNonNegative(i as real, h);
        ProductNonNegative((n - 1 - i) as real, h);
        CountTimesStep(lo, hi, (n - 1) as real);
        assert ((n - 1) as real) * h == (i as real) * h + ((n - 1 - i) as real) * h;
      }
    }
  }

  /** numpy.trapz(y, x): the trapezoid-rule integral of y over the points x. */
  function Trapz(y: seq<real>, x: seq<real>): real
    requires |y| == |x|
  {
    if |y| < 2 then 0.0
    else Trapz(y[..|y| - 1], x[..|x| - 1]) + (x[|x| - 1] - x[|x| - 2]) * (y[|y| - 1] + y[|y| - 2]) / 2.0
  }

  lemma {:induction false} TrapzDivideBy(y: seq<real>, x: seq<real>, c: real)
    requires |y| == |x| && c != 0.0
    ensures Trapz(DivideBy(y, c), x) == Trapz(y, x) / c
  {
    var n := |y|;
    if n >= 2 {
      var yc, d := DivideBy(y, c), x[n - 1] - x[n - 2];
      assert Trapz(yc[..n - 1], x[..n - 1]) == Trapz(y[..n - 1], x[..n - 1]) / c by {
        TrapzDivideBy(y[..n - 1], x[..n - 1], c);
        DivideByPrefix(y, c, n - 1);
      }
      TrapzStepDivide(Trapz(yc, x), Trapz(y, x), Trapz(yc[..n - 1], x[..n - 1]), Trapz(y[..n - 1], x[..n - 1]),
        d, yc[n - 1], y[n - 1], yc[n - 2], y[n - 2], c);
    }
  }

  /** One trapezoid step commutes with dividing the heights by c. */
  lemma TrapzStepDivide(t': real, t: real, h': real, h: real, d: real, a': real, a: real, b': real, b: real, c: real)
    requires c != 0.0 && h' == h / c && a' == a / c && b' == b / c
    requires t == h + d * (a + b) / 2.0
    requires t' == h' + d * (a' + b') / 2.0
    ensures t' == t / c
  {
    DivideSum(a, b, c);
    HalfProductDivide(d, a + b, c);
    DivideSum(h, d * (a + b) / 2.0, c);
  }

  lemma HalfProductDivide(d: real, s: real, c: real)
    requires c != 0.0
    ensures d * (s / c) / 2.0 == d * s / 2.0 / c
  {
  }

  /** On points with constant spacing h the trapezoid rule is h times the sum less half the end points. */
  lemma {:induction false} TrapzUniform(y: seq<real>, x: seq<real>, h: real)
    requires |y| == |x| >= 1
    requires forall i :: 0 <= i < |x| - 1 ==> x[i + 1] - x[i] == h
    ensures Trapz(y, x) == h * (Sum(y) - (y[0] + y[|y| - 1]) / 2.0)
  {
    var n := |y|;
    if n == 1 {
      assert y[..0] == [];
    } else {
      TrapzUniform(y[..n - 1], x[..n - 1], h);
      assert x[n - 1] - x[n - 2] == h;
      TrapStep(h, Sum(y[..n - 1]), y[0], y[n - 2], y[n - 1]);
    }
  }

  /** The trapezoid integral of a non-negative array over an ascending grid is not negative. */
  lemma {:induction false} TrapzNonNegative(y: seq<real>, x: seq<real>)
    requires |y| == |x| && AllNonNegative(y) && NonDecreasing(x)
    ensures Trapz(y, x) >= 0.0
  {
    var n := |y|;
    if n >= 2 {
      var y', x' := y[..n - 1], x[..n - 1];
      assert Trapz(y', x') >= 0.0 by {
        assert AllNonNegative(y') && NonDecreasing(x') by {
          forall i | 0 <= i < n - 1
            ensures y'[i] == y[i] && x'[i] == x[i]
          {
          }
        }
        TrapzNonNegative(y', x');
      }
      assert x[n - 2] <= x[n - 1] && y[n - 1] >= 0.0 && y[n - 2] >= 0.0;
      TrapzStepNonNegative(Trapz(y, x), Trapz(y', x'), x[n - 1] - x[n - 2], y[n - 1] + y[n - 2]);
    }
  }

  lemma TrapzStepNonNegative(t: real, h: real, d: real, s: real)
    requires h >= 0.0 && d >= 0.0 && s >= 0.0
    requires t == h + d * s / 2.0
    ensures t >= 0.0
  {
    ProductNonNegative(d, s);
  }

  lemma TrapStep(h: real, s: real, first: real, b: real, a: real)
    ensures h * (s - (first + b) / 2.0) + h * (a + b) / 2.0 == h * (s + a - (first + a) / 2.0)
  {
  }

  /** A non-negative array of two or more points sums to at least its two end points. */
  lemma SumAtLeastEnds(y: seq<real>)
    requires |y| >= 2 && AllNonNegative(y)
    ensures Sum(y) >= y[0] + y[|y| - 1]
  {
    var n := |y|;
    var init := y[..n - 1];
    SumNonNegative(init[1..]);
    SumSplitFirst(init);
  }

  lemma {:induction false} SumSplitFirst(s: seq<real>)
    requires |s| >= 1
    ensures Sum(s) == s[0] + Sum(s[1..])
  {
    if |s| > 1 {
      SumSplitFirst(s[..|s| - 1]);
      assert s[..|s| - 1][1..] == s[1..][..|s| - 2];
    } else {
      assert s[..0] == [] && s[1..] == [];
    }
  }

  /** x ** 1 == x, elementwise. */
  lemma PowAllOne(x: seq<real>)
    ensures PowAll(x, 1) == x
  {
    forall i | 0 <= i < |x|
      ensures PowAll(x, 1)[i] == x[i]
    {
      assert Pow(x[i], 1) == x[i] * Pow(x[i], 0);
    }
  }

  // ---------------------------------------------------------------------------
  // Counting, searching and interpolating on sorted arrays

  /** The number of elements of s that are <= tau (numpy: sum(tau - s >= 0)). */
  function CountAtOrBelow(tau: real, s: seq<real>): (c: nat)
    ensures c <= |s|
  {
    if |s| == 0 then 0 else (if s[0] <= tau then 1 else 0) + CountAtOrBelow(tau, s[1..])
  }

  /** On a sorted array the count splits it into the elements <= tau and those > tau. */
  lemma {:induction false} CountSorted(tau: real, s: seq<real>)
    requires NonDecreasing(s)
    ensures CountAtOrBelow(tau, s) <= |s|
    ensures forall j :: 0 <= j < CountAtOrBelow(tau, s) ==> s[j] <= tau
    ensures forall j :: CountAtOrBelow(tau, s) <= j < |s| ==> s[j] > tau
  {
    if |s| > 0 {
      var rest := s[1..];
      CountSorted(tau, rest);
      if s[0] > tau {
        assert forall j :: 0 <= j < |s| ==> s[0] <= s[j];
        if |rest| > 0 {
          assert rest[0] == s[1] && s[0] <= s[1];
        }
      } else {
        assert forall j :: 1 <= j < |s| ==> rest[j - 1] == s[j];
      }
    }
  }

  lemma {:induction false} CountMonotone(tau1: real, tau2: real, s: seq<real>)
    requires tau1 <= tau2
    ensures CountAtOrBelow(tau1, s) <= CountAtOrBelow(tau2, s)
  {
    if |s| > 0 {
      CountMonotone(tau1, tau2, s[1..]);
    }
  }

  /**
   * numpy.searchsorted(a, v) (side 'left') for an ascending a: the least index whose
   * element is >= v, or |a| when there is none.
   */
  function SearchSortedLeft(a: seq<real>, v: real): (i: nat)
    ensures i <= |a|
    ensures forall j :: 0 <= j < i ==> a[j] < v
    ensures i < |a| ==> a[i] >= v
  {
    if |a| == 0 || a[0] >= v then 0
    else
      var r := SearchSortedLeft(a[1..], v);
      assert forall j :: 1 <= j < |a| ==> a[1..][j - 1] == a[j];
      1 + r
  }

  lemma SearchSortedLeftMonotone(a: seq<real>, v1: real, v2: real)
    requires v1 <= v2
    ensures SearchSortedLeft(a, v1) <= SearchSortedLeft(a, v2)
  {
  }

  /**
   * numpy.interp(x, xp, fp) for an ascending xp: fp[0] to the left of the grid,
   * fp[-1] from the last point on, and the straight line between the two points
   * that bracket x otherwise.
   */
  function NumpyInterp(x: real, xp: seq<real>, fp: seq<real>): real
    requires |xp| == |fp| >= 1 && NonDecreasing(xp)
  {
    var n := |xp|;
    if x < xp[0] then fp[0]
    else if x >= xp[n - 1] then fp[n - 1]
    else
      CountSorted(x, xp);
      var j := CountAtOrBelow(x, xp) - 1;
      fp[j] + (x - xp[j]) * (fp[j + 1] - fp[j]) / (xp[j + 1] - xp[j])
  }

  /** What numpy.interp returns lies between the smallest and largest of the fp values. */
  lemma NumpyInterpBetween(x: real, xp: seq<real>, fp: seq<real>, lo: real, hi: real)
    requires |xp| == |fp| >= 1 && NonDecreasing(xp)
    requires forall i :: 0 <= i < |fp| ==> lo <= fp[i] <= hi
    ensures lo <= NumpyInterp(x, xp, fp) <= hi
  {
    var n := |xp|;
    if xp[0] <= x < xp[n - 1] {
      NumpyInterpInterior(x, xp, fp);
      var j := CountAtOrBelow(x, xp) - 1;
      BinValueBetween(x, xp, fp, j, lo, hi);
    }
  }

  /** On its bin, the line stays within any bounds of the bin's two end values. */
  lemma BinValueBetween(x: real, xp: seq<real>, fp: seq<real>, j: nat, lo: real, hi: real)
    requires |xp| == |fp| && j + 1 < |xp| && xp[j] <= x < xp[j + 1]
    requires lo <= fp[j] <= hi && lo <= fp[j + 1] <= hi
    ensures lo <= BinValue(x, xp, fp, j) <= hi
  {
    LineBetween(fp[j], fp[j + 1], xp[j], xp[j + 1], x, lo, hi);
  }

  /** The line from (x0, a) to (x1, b), at x in [x0, x1), stays within any bounds of a and b. */
  lemma LineBetween(a: real, b: real, x0: real, x1: real, x: real, lo: real, hi: real)
    requires x0 <= x < x1 && lo <= a <= hi && lo <= b <= hi
    ensures lo <= a + (x - x0) * (b - a) / (x1 - x0) <= hi
  {
    var w := x1 - x0;
    var f := (x - x0) / w;
    assert lo <= a + f * (b - a) <= hi by {
      FractionInUnit(x - x0, w);
      ConvexCombinationBetween(a, b, f, lo, hi);
    }
    MulDivSwap(x - x0, b - a, w);
  }

  /** The straight line through (xp[j], fp[j]) and (xp[j+1], fp[j+1]), at x. */
  function BinValue(x: real, xp: seq<real>, fp: seq<real>, j: nat): real
    requires |xp| == |fp| && j + 1 < |xp| && xp[j] < xp[j + 1]
  {
    fp[j] + (x - xp[j]) * (fp[j + 1] - fp[j]) / (xp[j + 1] - xp[j])
  }

  /** Strictly inside the grid, numpy.interp is the line of the bin holding x. */
  lemma NumpyInterpInterior(x: real, xp: seq<real>, fp: seq<real>)
    requires |xp| == |fp| >= 1 && NonDecreasing(xp)
    requires xp[0] <= x < xp[|xp| - 1]
    ensures 1 <= CountAtOrBelow(x, xp) < |xp|
    ensures var j := CountAtOrBelow(x, xp) - 1;
      xp[j] <= x < xp[j + 1] && NumpyInterp(x, xp, fp) == BinValue(x, xp, fp, j)
  {
    var n := |xp|;
    CountSorted(x, xp);
    var c := CountAtOrBelow(x, xp);
    assert 1 <= c <= n - 1;
    var j := c - 1;
    assert xp[j] <= x < xp[j + 1];
    assert NumpyInterp(x, xp, fp) == fp[j] + (x - xp[j]) * (fp[j + 1] - fp[j]) / (xp[j + 1] - xp[j]);
  }

  lemma MulDivSwap(a: real, d: real, w: real)
    requires w > 0.0
    ensures a * d / w == (a / w) * d
  {
    var q := a / w;
    assert a == q * w;
    assert a * d == (q * d) * w;
  }

  /** On its bin, the line lies between the bin's two end values and rises with x when they do. */
  lemma BinValueBounds(x1: real, x2: real, xp: seq<real>, fp: seq<real>, j: nat)
    requires |xp| == |fp| && j + 1 < |xp| && xp[j] <= x1 <= x2 < xp[j + 1] && fp[j] <= fp[j + 1]
    ensures fp[j] <= BinValue(x1, xp, fp, j) <= BinValue(x2, xp, fp, j) <= fp[j + 1]
  {
    var w := xp[j + 1] - xp[j];
    var d := fp[j + 1] - fp[j];
    var f1 := (x1 - xp[j]) / w;
    var f2 := (x2 - xp[j]) / w;
    FractionInUnit(x1 - xp[j], w);
    FractionInUnit(x2 - xp[j], w);
    assert f1 <= f2;
    MulDivSwap(x1 - xp[j], d, w);
    MulDivSwap(x2 - xp[j], d, w);
    ProductNonNegative(f2 - f1, d);
    ProductNonNegative(f1, d);
    ProductNonNegative(1.0 - f2, d);
  }

  /** With ascending fp values, numpy.interp is non-decreasing in x. */
  lemma NumpyInterpMonotone(x1: real, x2: real, xp: seq<real>, fp: seq<real>)
    requires |xp| == |fp| >= 1 && NonDecreasing(xp) && NonDecreasing(fp) && x1 <= x2
    ensures NumpyInterp(x1, xp, fp) <= NumpyInterp(x2, xp, fp)
  {
    var n := |xp|;
    NumpyInterpBetween(x1, xp, fp, fp[0], fp[n - 1]);
    NumpyInterpBetween(x2, xp, fp, fp[0], fp[n - 1]);
    if xp[0] <= x1 && x2 < xp[n - 1] {
      NumpyInterpInterior(x1, xp, fp);
      NumpyInterpInterior(x2, xp, fp);
      CountMonotone(x1, x2, xp);
      var j1 := CountAtOrBelow(x1, xp) - 1;
      var j2 := CountAtOrBelow(x2, xp) - 1;
      if j1 == j2 {
        BinValueBounds(x1, x2, xp, fp, j1);
      } else {
        BinValueBounds(x1, x1, xp, fp, j1);
        BinValueBounds(x2, x2, xp, fp, j2);
        assert fp[j1 + 1] <= fp[j2];
      }
    }
  }

  lemma FractionInUnit(num: real, den: real)
    requires 0.0 <= num <= den && den > 0.0
    ensures 0.0 <= num / den <= 1.0
  {
  }

  /** a + f * (b - a) with f in [0, 1] stays within any bounds of a and b. */
  lemma ConvexCombinationBetween(a: real, b: real, f: real, lo: real, hi: real)
    requires 0.0 <= f <= 1.0
    requires lo <= a <= hi && lo <= b <= hi
    ensures lo <= a + f * (b - a) <= hi
  {
    if a <= b {
      ProductNonNegative(f, b - a);
      ProductNonNegative(1.0 - f, b - a);
    } else {
      ProductNonNegative(f, a - b);
      ProductNonNegative(1.0 - f, a - b);
    }
  }

  // ---------------------------------------------------------------------------
  // Boolean masks

  /** s[mask] in numpy: the elements whose mask entry is true, in their original order. */
  function Masked<T>(s: seq<T>, mask: seq<bool>): seq<T>
    requires |s| == |mask|
  {
    if |s| == 0 then [] else (if mask[0] then [s[0]] else []) + Masked(s[1..], mask[1..])
  }

  function CountTrue(mask: seq<bool>): nat {
    if |mask| == 0 then 0 else (if mask[0] then 1 else 0) + CountTrue(mask[1..])
  }

  lemma {:induction false} MaskedLength<T>(s: seq<T>, mask: seq<bool>)
    requires |s| == |mask|
    ensures |Masked(s, mask)| == CountTrue(mask)
  {
    if |s| > 0 {
      MaskedLength(s[1..], mask[1..]);
    }
  }

  /** An element kept by the mask occurs in the masked array, and nothing else does. */
  lemma {:induction false} MaskedMembers<T>(s: seq<T>, mask: seq<bool>)
    requires |s| == |mask|
    ensures forall i :: 0 <= i < |s| && mask[i] ==> s[i] in Masked(s, mask)
    ensures forall x :: x in Masked(s, mask) ==> exists i :: 0 <= i < |s| && mask[i] && s[i] == x
  {
    if |s| > 0 {
      MaskedMembers(s[1..], mask[1..]);
      forall i | 1 <= i < |s| && mask[i]
        ensures s[i] in Masked(s, mask)
      {
        assert s[1..][i - 1] == s[i];
      }
      forall x | x in Masked(s, mask)
        ensures exists i :: 0 <= i < |s| && mask[i] && s[i] == x
      {
        if !(mask[0] && x == s[0]) {
          assert x in Masked(s[1..], mask[1..]);
          var i :| 0 <= i < |s| - 1 && mask[1..][i] && s[1..][i] == x;
          assert mask[i + 1] && s[i + 1] == x;
        }
      }
    }
  }

  /** Masking a sorted array leaves it sorted. */
  lemma {:induction false} MaskedSorted(s: seq<real>, mask: seq<bool>)
    requires |s| == |mask| && NonDecreasing(s)
    ensures NonDecreasing(Masked(s, mask))
  {
    if |s| > 0 {
      MaskedSorted(s[1..], mask[1..]);
      MaskedMembers(s[1..], mask[1..]);
      var rest := Masked(s[1..], mask[1..]);
      if mask[0] {
        forall j | 0 <= j < |rest|
          ensures s[0] <= rest[j]
        {
          assert rest[j] in rest;
          var i :| 0 <= i < |s| - 1 && mask[1..][i] && s[1..][i] == rest[j];
        }
      }
    }
  }

  /** Masking a strictly increasing array leaves it strictly increasing. */
  lemma {:induction false} MaskedStrictlyIncreasing(s: seq<real>, mask: seq<bool>)
    requires |s| == |mask| && StrictlyIncreasing(s)
    ensures StrictlyIncreasing(Masked(s, mask))
  {
    if |s| > 0 {
      MaskedStrictlyIncreasing(s[1..], mask[1..]);
      MaskedMembers(s[1..], mask[1..]);
      var rest := Masked(s[1..], mask[1..]);
      if mask[0] {
        forall j | 0 <= j < |rest|
          ensures s[0] < rest[j]
        {
          assert rest[j] in rest;
          var i :| 0 <= i < |s| - 1 && mask[1..][i] && s[1..][i] == rest[j];
        }
      }
    }
  }

  /** A mask that is true on a prefix of length m and false after it selects that prefix. */
  lemma {:induction false} MaskedPrefix<T>(s: seq<T>, mask: seq<bool>, m: nat)
    requires |s| == |mask| && m <= |s|
    requires forall i :: 0 <= i < |mask| ==> (mask[i] <==> i < m)
    ensures Masked(s, mask) == s[..m]
  {
    if |s| > 0 {
      if m == 0 {
        MaskedPrefix(s[1..], mask[1..], 0);
      } else {
        MaskedPrefix(s[1..], mask[1..], m - 1);
        assert [s[0]] + s[1..][..m - 1] == s[..m];
      }
    }
  }

  /** A mask selects nothing exactly when it has no true element. */
  lemma MaskedEmptyIff<T>(s: seq<T>, mask: seq<bool>)
    requires |s| == |mask|
    ensures Masked(s, mask) == [] <==> forall i :: 0 <= i < |mask| ==> !mask[i]
  {
    MaskedMembers(s, mask);
    if forall i :: 0 <= i < |mask| ==> !mask[i] {
      MaskedNone(s, mask);
    }
  }

  /**
   * The selection of an array bounded by [lo, hi], when not empty, has its min() and
   * max() inside [lo, hi], and every selected point lies between them.
   */
  lemma MaskedSpan(s: seq<real>, mask: seq<bool>, lo: real, hi: real)
    requires |s| == |mask| && |Masked(s, mask)| > 0
    requires forall i :: 0 <= i < |s| ==> lo <= s[i] <= hi
    ensures lo <= Min(Masked(s, mask)) <= Max(Masked(s, mask)) <= hi
    ensures forall i :: 0 <= i < |s| && mask[i] ==> Min(Masked(s, mask)) <= s[i] <= Max(Masked(s, mask))
  {
    var kept := Masked(s, mask);
    MaskedMembers(s, mask);
    MinIsLeast(kept);
    MaxIsGreatest(kept);
    var j :| 0 <= j < |s| && mask[j] && s[j] == Min(kept);
    var k :| 0 <= k < |s| && mask[k] && s[k] == Max(kept);
  }

  /** A mask that is false everywhere selects nothing. */
  lemma MaskedNone<T>(s: seq<T>, mask: seq<bool>)
    requires |s| == |mask|
    requires forall i :: 0 <= i < |mask| ==> !mask[i]
    ensures Masked(s, mask) == []
  {
    MaskedPrefix(s, mask, 0);
  }

  // ---------------------------------------------------------------------------
  // Sorting (numpy.sort)

  function InsertAsc(x: real, s: seq<real>): seq<real> {
    if |s| == 0 || x <= s[0] then [x] + s else [s[0]] + InsertAsc(x, s[1..])
  }

  lemma {:induction false} InsertAscMultiset(x: real, s: seq<real>)
    ensures multiset(InsertAsc(x, s)) == multiset(s) + multiset{x}
    ensures |InsertAsc(x, s)| == |s| + 1
    ensures InsertAsc(x, s)[0] == x || InsertAsc(x, s)[0] == s[0]
  {
    if |s| > 0 && x > s[0] {
      InsertAscMultiset(x, s[1..]);
      assert s == [s[0]] + s[1..];
    }
  }

  lemma {:induction false} InsertAscSorted(x: real, s: seq<real>)
    requires NonDecreasing(s)
    ensures NonDecreasing(InsertAsc(x, s))
  {
    if |s| > 0 && x > s[0] {
      InsertAscSorted(x, s[1..]);
      InsertAscMultiset(x, s[1..]);
      var r := InsertAsc(x, s[1..]);
      assert |s| > 1 ==> s[0] <= s[1..][0];
      assert s[0] <= r[0];
      assert InsertAsc(x, s) == [s[0]] + r;
    }
  }

  /** numpy.sort: the elements of s in ascending order. */
  function SortAsc(s: seq<real>): seq<real> {
    if |s| == 0 then [] else InsertAsc(s[0], SortAsc(s[1..]))
  }

  /** The sort returns an ascending permutation of its input. */
  lemma {:induction false} SortAscCorrect(s: seq<real>)
    ensures NonDecreasing(SortAsc(s))
    ensures multiset(SortAsc(s)) == multiset(s)
    ensures |SortAsc(s)| == |s|
  {
    if |s| > 0 {
      var rest := SortAsc(s[1..]);
      assert SortAsc(s) == InsertAsc(s[0], rest);
      SortAscCorrect(s[1..]);
      InsertAscMultiset(s[0], rest);
      InsertAscSorted(s[0], rest);
      assert multiset(s) == multiset(s[1..]) + multiset{s[0]} by {
        assert s == [s[0]] + s[1..];
      }
    }
  }

  // ---------------------------------------------------------------------------
  // In-place division (numpy's a /= c)

  method DivideInPlace(a: array<real>, c: real)
    requires c != 0.0
    modifies a
    ensures a[..] == DivideBy(old(a[..]), c)
  {
    var i := 0;
    while i < a.Length
      invariant 0 <= i <= a.Length
      invariant forall k :: 0 <= k < i ==> a[k] == old(a[k]) / c
      invariant forall k :: i <= k < a.Length ==> a[k] == old(a[k])
    {
      a[i] := a[i] / c;
      i := i + 1;
    }
  }
}
