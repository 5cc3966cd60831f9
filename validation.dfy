/** `DRFTask.validateInputData`: a fixed sequence of guards, the first failing one
    raising an `IllegalArgumentException` whose message names what was wrong. */
module Validation {
  import opened Wrappers
  import opened Cluster
  import opened JavaInt
  import opened Params
  import opened Admission

  /** A column as validation sees it: whether it is categorical or integral, and its
      smallest and largest values (integral, as both kinds of column have). */
  datatype Column = Column(isEnum: bool, isInt: bool, min: int, max: int)

  /** The model's frame: its columns with the response last, the chunks of one of
      its columns, and the byte size of the whole frame. */
  datatype Frame = Frame(columns: seq<Column>, chunks: seq<Chunk>, byteSize: int)

  /** Why validation rejects a run; each carries what the message reports. */
  datatype ValidationError =
    | RegressionNotSupported
    | ClassCountOutOfRange(classes: int)
    | SampleRateOutOfRange(sample: Float)
    | SplitFeaturesOutOfRange(maxFeatures: int)
    | CannotLoadAll(info: AllocInfo)

  function Response(fr: Frame): Column
    requires |fr.columns| >= 1
  {
    fr.columns[|fr.columns| - 1]
  }

  /** `(int)(c.max() - c.min()) + 1`: the cast saturates at the int range and the
      increment wraps around. */
  function ClassCount(c: Column): (classes: int)
    ensures IntMin <= c.max - c.min < IntMax ==> classes == c.max - c.min + 1
    ensures c.max - c.min >= IntMax ==> classes == IntMin
    ensures c.max - c.min < IntMin ==> classes == IntMin + 1
  {
    WrapInt(SaturateToInt(c.max - c.min) + 1)
  }

  /** The class count is accepted exactly when the column spans 2 to 254 values:
      saturation and wrap-around never let a wider column through. */
  lemma ClassCountAccepted(c: Column)
    ensures 2 <= ClassCount(c) <= 254 <==> 1 <= c.max - c.min <= 253
  {
  }

  predicate IsClassification(c: Column)
  {
    c.isEnum || c.isInt
  }

  predicate ClassCountOk(c: Column)
  {
    2 <= ClassCount(c) <= 254
  }

  predicate SampleOk(p: DRFParams)
  {
    !(FloatBelow(p.sample, 0.0) || FloatAbove(p.sample, 1.0))
  }

  predicate SplitFeaturesOk(p: DRFParams, numCols: int)
  {
    !(p.numSplitFeatures != -1 && (p.numSplitFeatures < 1 || p.numSplitFeatures > numCols - 1))
  }

  /** `validateInputData`: the guards in source order; the admission check is
      consulted only when non-local data is requested. */
  function Validate(p: DRFParams, fr: Frame, self: NodeId, heartbeats: seq<HeartBeat>): (r: Outcome<ValidationError>)
    requires |fr.columns| >= 1
    ensures r == Fail(RegressionNotSupported) <==> !IsClassification(Response(fr))
    ensures r.Fail? && r.error.ClassCountOutOfRange? ==>
              IsClassification(Response(fr)) && !ClassCountOk(Response(fr))
              && r.error.classes == ClassCount(Response(fr))
    ensures r.Fail? && r.error.SampleRateOutOfRange? ==>
              IsClassification(Response(fr)) && ClassCountOk(Response(fr)) && !SampleOk(p)
              && r.error.sample == p.sample
    ensures r.Fail? && r.error.SplitFeaturesOutOfRange? ==>
              IsClassification(Response(fr)) && ClassCountOk(Response(fr)) && SampleOk(p)
              && !SplitFeaturesOk(p, |fr.columns|) && r.error.maxFeatures == |fr.columns| - 1
    ensures r.Fail? && r.error.CannotLoadAll? ==>
              IsClassification(Response(fr)) && ClassCountOk(Response(fr)) && SampleOk(p)
              && SplitFeaturesOk(p, |fr.columns|) && p.useNonLocalData
              && Admit(fr.chunks, self, fr.byteSize, heartbeats) == Some(r.error.info)
  {
    var c := Response(fr);
    var numCols := |fr.columns|;
    if !IsClassification(c) then Fail(RegressionNotSupported)
    else if !ClassCountOk(c) then Fail(ClassCountOutOfRange(ClassCount(c)))
    else if !SampleOk(p) then Fail(SampleRateOutOfRange(p.sample))
    else if !SplitFeaturesOk(p, numCols) then Fail(SplitFeaturesOutOfRange(numCols - 1))
    else if p.useNonLocalData then
      match Admit(fr.chunks, self, fr.byteSize, heartbeats)
      case None => Pass
      case Some(info) => Fail(CannotLoadAll(info))
    else Pass
  }

  /** The conditions a run must meet, stated directly: a categorical or integral
      response spanning 2 to 254 values, a sampling rate in `[0, 1]` or NaN (which
      the guard's two comparisons both let through), an explicit
      split-feature count in `[1, numCols - 1]`, and, for non-local data, usable
      memory above the non-local bytes on every node. */
  ghost predicate Acceptable(p: DRFParams, fr: Frame, self: NodeId, heartbeats: seq<HeartBeat>)
    requires |fr.columns| >= 1
  {
    var c := Response(fr);
    var numCols := |fr.columns|;
    && (c.isEnum || c.isInt)
    && 1 <= c.max - c.min <= 253
    && (p.sample.Num? ==> 0.0 <= p.sample.value <= 1.0)
    && (p.numSplitFeatures == -1 || 1 <= p.numSplitFeatures <= numCols - 1)
    && (p.useNonLocalData ==>
          forall i :: 0 <= i < |heartbeats| ==> Usable(heartbeats[i]) > fr.byteSize - LocalBytes(fr.chunks, self))
  }

  /** Validation passes exactly for the acceptable runs. */
  lemma ValidateAcceptsExactly(p: DRFParams, fr: Frame, self: NodeId, heartbeats: seq<HeartBeat>)
    requires |fr.columns| >= 1
    ensures Validate(p, fr, self, heartbeats) == Pass <==> Acceptable(p, fr, self, heartbeats)
  {
    ClassCountAccepted(Response(fr));
  }

  /** Without non-local data the outcome does not depend on the chunks, the frame's
      size or any node's memory figures. */
  lemma LocalRunIgnoresMemory(p: DRFParams, fr: Frame, self: NodeId, heartbeats: seq<HeartBeat>,
                              chunks': seq<Chunk>, byteSize': int, self': NodeId, heartbeats': seq<HeartBeat>)
    requires |fr.columns| >= 1
    requires !p.useNonLocalData
    ensures Validate(p, fr, self, heartbeats) == Validate(p, Frame(fr.columns, chunks', byteSize'), self', heartbeats')
    ensures !Validate(p, fr, self, heartbeats).Fail? || !Validate(p, fr, self, heartbeats).error.CannotLoadAll?
  {
  }

  /** After validation passes, the split-feature count a node uses lies in `[1, numCols - 1]`
      whenever the frame has a column besides the response. */
  lemma ValidatedSplitFeaturesInRange(p: DRFParams, fr: Frame, self: NodeId, heartbeats: seq<HeartBeat>)
    requires |fr.columns| >= 2
    requires Validate(p, fr, self, heartbeats) == Pass
    ensures 1 <= HowManySplitFeatures(p.numSplitFeatures, |fr.columns|) <= |fr.columns| - 1
  {
    if p.numSplitFeatures == -1 {
      DefaultSplitFeaturesInRange(|fr.columns|);
    }
  }

  /** A NaN sampling rate passes the rate guard: both of its comparisons are false. */
  lemma NaNRatePassesGuard(p: DRFParams, fr: Frame, self: NodeId, heartbeats: seq<HeartBeat>)
    requires |fr.columns| >= 1
    requires p.sample == NaN
    ensures !(Validate(p, fr, self, heartbeats).Fail? && Validate(p, fr, self, heartbeats).error.SampleRateOutOfRange?)
  {
  }

  /** Validation does not keep the default split-feature count in range: a frame that
      holds only the response column passes with -1, and the default is then 0,
      outside `[1, numCols - 1]`. */
  lemma OneColumnDefaultOutOfRange()
    ensures var p := DRFParams(10, 20, Num(0.5), 1024, Gini, 0, 42, true, None, -1, 0, 0, 0, None, 1000, false);
            var fr := Frame([Column(true, false, 0, 1)], [], 0);
            Validate(p, fr, 0, []) == Pass && HowManySplitFeatures(p.numSplitFeatures, |fr.columns|) == 0
  {
  }
}
