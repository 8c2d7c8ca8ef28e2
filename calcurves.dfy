/**
 * Loading a calibration curve (chronologer/calcurves.py): choosing the source,
 * checking the required columns, and turning a curve stored young-to-old with
 * positive BP values into the older-is-more-negative convention.
 * Downloading, caching and CSV parsing are I/O and enter as parameters.
 */
module CalCurves {
  import opened Wrappers

  /** A calibration curve: calendar ages, radiocarbon ages and their 1-sigma errors. */
  datatype CalCurve = CalCurve(calbp: seq<real>, c14bp: seq<real>, c14Sigma: seq<real>)

  predicate Aligned(c: CalCurve) {
    |c.c14bp| == |c.calbp| && |c.c14Sigma| == |c.calbp|
  }

  /** The predefined curves and where they are downloaded from. */
  const DefaultCurves: map<string, string> := map[
    "intcal20" := "https://intcal.org/curves/intcal20.14c",
    "shcal20" := "https://intcal.org/curves/shcal20.14c",
    "marine20" := "https://intcal.org/curves/marine20.14c"
  ]

  /** Where the curve file is read from. */
  datatype CurveSource =
    | CustomFile(path: string)
    | CachedDefault(name: string, url: string)   // downloaded into the cache when absent

  /** A curve file as read: named numeric columns. */
  type Table = map<string, seq<real>>

  const CalbpColumn := "calbp"
  const C14bpColumn := "c14bp"
  const SigmaColumn := "c14_sigma"

  /** A table shaped like a data frame: every column has the same length. */
  predicate Rectangular(t: Table) {
    forall a, b :: a in t && b in t ==> |t[a]| == |t[b]|
  }

  /**
   * The file to read: a custom path wins over the curve name and must exist;
   * otherwise the name must be one of the predefined curves.
   */
  function SelectSource(curveName: string, customPath: Option<string>, pathExists: string -> bool): (r: Result<CurveSource>)
    ensures customPath.Some? && pathExists(customPath.value) ==> r == Ok(CustomFile(customPath.value))
    ensures customPath.Some? && !pathExists(customPath.value) ==> r == Err(FileNotFound)
    ensures customPath.None? && curveName in DefaultCurves ==> r == Ok(CachedDefault(curveName, DefaultCurves[curveName]))
    ensures customPath.None? && curveName !in DefaultCurves ==> r == Err(UnknownCurve)
  {
    if customPath.Some? then
      if pathExists(customPath.value) then Ok(CustomFile(customPath.value)) else Err(FileNotFound)
    else if curveName in DefaultCurves then
      Ok(CachedDefault(curveName, DefaultCurves[curveName]))
    else
      Err(UnknownCurve)
  }

  function Negate(s: seq<real>): seq<real> {
    seq(|s|, i requires 0 <= i < |s| => -s[i])
  }

  /**
   * The orientation fix-up: when the first calendar age exceeds the last, calbp and
   * c14bp are negated elementwise; c14_sigma is never touched.
   */
  function OrientCurve(c: CalCurve): (r: CalCurve)
    requires |c.calbp| > 0
    ensures |r.calbp| == |c.calbp| && |r.c14bp| == |c.c14bp| && |r.c14Sigma| == |c.c14Sigma|
    ensures r.c14Sigma == c.c14Sigma
    ensures r.calbp[0] <= r.calbp[|r.calbp| - 1]
    ensures c.calbp[0] > c.calbp[|c.calbp| - 1] ==>
      (forall i :: 0 <= i < |c.calbp| ==> r.calbp[i] == -c.calbp[i]) &&
      (forall i :: 0 <= i < |c.c14bp| ==> r.c14bp[i] == -c.c14bp[i])
    ensures c.calbp[0] <= c.calbp[|c.calbp| - 1] ==> r == c
  {
    if c.calbp[0] > c.calbp[|c.calbp| - 1] then
      CalCurve(Negate(c.calbp), Negate(c.c14bp), c.c14Sigma)
    else
      c
  }

  /** Orienting an already oriented curve changes nothing. */
  lemma OrientIdempotent(c: CalCurve)
    requires |c.calbp| > 0
    ensures OrientCurve(OrientCurve(c)) == OrientCurve(c)
  {
    var r := OrientCurve(c);
    assert r.calbp[0] <= r.calbp[|r.calbp| - 1];
  }

  /**
   * load_calcurve with the file system abstracted: pathExists answers os.path.exists
   * and read returns the table stored at a source (after any download).
   */
  function LoadCalcurve(curveName: string, customPath: Option<string>,
                        pathExists: string -> bool, read: CurveSource -> Table): (r: Result<CalCurve>)
    ensures r.Ok? ==> |r.value.calbp| > 0 && r.value.calbp[0] <= r.value.calbp[|r.value.calbp| - 1]
  {
    var source :- SelectSource(curveName, customPath, pathExists);
    var table := read(source);
    if !(CalbpColumn in table && C14bpColumn in table && SigmaColumn in table) then
      Err(MissingColumns)
    else
      var raw := CalCurve(table[CalbpColumn], table[C14bpColumn], table[SigmaColumn]);
      if |raw.calbp| == 0 then Err(IndexOutOfRange)   // iloc[0] of an empty column
      else Ok(OrientCurve(raw))
  }

  /** The curve name plays no part once a custom path is given. */
  lemma CustomPathTakesPrecedence(name1: string, name2: string, path: string,
                                  pathExists: string -> bool, read: CurveSource -> Table)
    ensures LoadCalcurve(name1, Some(path), pathExists, read) == LoadCalcurve(name2, Some(path), pathExists, read)
  {
  }

  /** An unknown curve name without a custom path is a ValueError. */
  lemma UnknownCurveFails(name: string, pathExists: string -> bool, read: CurveSource -> Table)
    requires name !in DefaultCurves
    ensures LoadCalcurve(name, None, pathExists, read) == Err(UnknownCurve)
  {
  }

  /** A file lacking one of calbp, c14bp, c14_sigma is a ValueError. */
  lemma MissingColumnFails(curveName: string, customPath: Option<string>,
                           pathExists: string -> bool, read: CurveSource -> Table)
    requires SelectSource(curveName, customPath, pathExists).Ok?
    requires var t := read(SelectSource(curveName, customPath, pathExists).value);
             CalbpColumn !in t || C14bpColumn !in t || SigmaColumn !in t
    ensures LoadCalcurve(curveName, customPath, pathExists, read) == Err(MissingColumns)
  {
  }

  /**
   * A successful load returns the three columns of the file, oriented, each with its
   * original length; a rectangular file therefore gives an aligned curve.
   */
  lemma LoadedColumns(curveName: string, customPath: Option<string>,
                      pathExists: string -> bool, read: CurveSource -> Table)
    requires LoadCalcurve(curveName, customPath, pathExists, read).Ok?
    ensures var t := read(SelectSource(curveName, customPath, pathExists).value);
            var c := LoadCalcurve(curveName, customPath, pathExists, read).value;
            CalbpColumn in t && C14bpColumn in t && SigmaColumn in t &&
            c == OrientCurve(CalCurve(t[CalbpColumn], t[C14bpColumn], t[SigmaColumn])) &&
            |c.calbp| == |t[CalbpColumn]| && |c.c14bp| == |t[C14bpColumn]| && c.c14Sigma == t[SigmaColumn] &&
            (Rectangular(t) ==> Aligned(c))
  {
  }
}
