/** The random-forest run parameters (`DRF.DRFParams`) and the split-feature default. */
module Params {
  import opened Wrappers

  /** The split statistic. */
  datatype StatType = Entropy | Gini

  /** A Java `float` value: a number, or NaN, which compares false with everything.
      Infinities are not told apart from large numbers. */
  datatype Float = Num(value: real) | NaN

  /** Java's `x < c` and `x > c` for a `float` and a constant: false when `x` is NaN. */
  predicate FloatBelow(x: Float, c: real)
  {
    x.Num? && x.value < c
  }

  predicate FloatAbove(x: Float, c: real)
  {
    x.Num? && x.value > c
  }

  /** The run parameters, as `DRFParams.create` fills them in field by field.
      `sample` is the sampling rate (a Java `float`), `numSplitFeatures` is -1
      for "choose the default", `classcol` is the response column's index. */
  datatype DRFParams = DRFParams(
    ntrees: int,
    depth: int,
    sample: Float,
    binLimit: int,
    stat: StatType,
    classcol: int,
    seed: int,
    parallel: bool,
    classWt: Option<seq<real>>,
    numSplitFeatures: int,
    samplingStrategy: nat,
    verbose: int,
    exclusiveSplitLimit: int,
    strataSamples: Option<seq<real>>,
    numrows: int,
    useNonLocalData: bool)

  /** The largest `r` with `r * r <= n`: `(int)Math.sqrt(n)`, exact for every `int`. */
  function FloorSqrt(n: nat): (r: nat)
    ensures r * r <= n < (r + 1) * (r + 1)
  {
    if n == 0 then 0
    else
      var s := FloorSqrt(n - 1);
      if (s + 1) * (s + 1) <= n then s + 1 else s
  }

  /** `howManySplitFeatures`: an explicit count is kept; -1 selects the floor of the
      square root of the number of columns other than the response. With no column
      at all `Math.sqrt(-1)` is NaN, which the cast turns into 0. */
  function HowManySplitFeatures(numSplitFeatures: int, numCols: int): (r: int)
    ensures numSplitFeatures != -1 ==> r == numSplitFeatures
    ensures numSplitFeatures == -1 && numCols >= 1 ==> 0 <= r && r * r <= numCols - 1 < (r + 1) * (r + 1)
    ensures numSplitFeatures == -1 && numCols < 1 ==> r == 0
  {
    if numSplitFeatures != -1 then numSplitFeatures
    else if numCols - 1 < 0 then 0
    else FloorSqrt(numCols - 1)
  }

  /** With at least two columns the default lies in the range validation demands of
      an explicit count, `[1, numCols - 1]`. */
  lemma DefaultSplitFeaturesInRange(numCols: int)
    requires numCols >= 2
    ensures 1 <= HowManySplitFeatures(-1, numCols) <= numCols - 1
  {
  }
}
