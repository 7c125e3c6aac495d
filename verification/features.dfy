/**
 * The feature derivation of transform: every missing reading of the raw table becomes 0,
 * five pairs of opposite movement channels are each averaged into one feature, and ten
 * columns are kept for the classifier.
 */
module Features {
  import opened Optional
  import opened Stats

  /** One row of the raw table: a timestamp in seconds and fifteen sensor channels, each possibly missing. */
  datatype RawRecord = RawRecord(
    time: int,
    engineSpeed: Option<real>,
    hydraulicDriveOff: Option<real>,
    drillBoomInAnchorPosition: Option<real>,
    pvalveDrillForward: Option<real>,
    bolt: Option<real>,
    boomLift: Option<real>,
    boomLower: Option<real>,
    boomForward: Option<real>,
    boomBackward: Option<real>,
    drillBoomTurnLeft: Option<real>,
    drillBoomTurnRight: Option<real>,
    drillBoomTurnForward: Option<real>,
    drillBoomTurnBackward: Option<real>,
    beamLeft: Option<real>,
    beamRight: Option<real>)

  /** One row of the transformed table, in the column order the classifier receives. */
  datatype FeatureRow = FeatureRow(
    engineSpeed: real,
    hydraulicDriveOff: real,
    drillBoomInAnchorPosition: real,
    pvalveDrillForward: real,
    bolt: real,
    boomLong: real,
    boomLati: real,
    drillBoomLong: real,
    drillBoomLati: real,
    beam: real)

  /**
   * The row-wise mean of two channels after missing readings became 0: the midpoint of the
   * two filled values.
   */
  function PairMean(a: Option<real>, b: Option<real>): (r: real)
    ensures r - FillZero(a) == FillZero(b) - r
    ensures FillZero(a) <= FillZero(b) ==> FillZero(a) <= r <= FillZero(b)
    ensures FillZero(b) <= FillZero(a) ==> FillZero(b) <= r <= FillZero(a)
    ensures a.None? && b.None? ==> r == 0.0
  {
    (FillZero(a) + FillZero(b)) / 2.0
  }

  /** The pair feature is the mean, in the sense of Stats.Mean, of the two filled channels. */
  lemma PairMeanIsMean(a: Option<real>, b: Option<real>)
    ensures PairMean(a, b) == Mean([FillZero(a), FillZero(b)])
  {
    var xs := [FillZero(a), FillZero(b)];
    assert xs[..1][..0] == [];
    assert xs[..1] == [FillZero(a)];
    assert Sum(xs[..1]) == FillZero(a);
  }

  /** One transformed row: five channels passed through, five pair features. */
  function TransformRow(x: RawRecord): (r: FeatureRow)
    ensures r.engineSpeed == FillZero(x.engineSpeed)
    ensures r.hydraulicDriveOff == FillZero(x.hydraulicDriveOff)
    ensures r.drillBoomInAnchorPosition == FillZero(x.drillBoomInAnchorPosition)
    ensures r.pvalveDrillForward == FillZero(x.pvalveDrillForward)
    ensures r.bolt == FillZero(x.bolt)
    ensures 2.0 * r.boomLong == FillZero(x.boomLift) + FillZero(x.boomLower)
    ensures 2.0 * r.boomLati == FillZero(x.boomForward) + FillZero(x.boomBackward)
    ensures 2.0 * r.drillBoomLong == FillZero(x.drillBoomTurnLeft) + FillZero(x.drillBoomTurnRight)
    ensures 2.0 * r.drillBoomLati == FillZero(x.drillBoomTurnForward) + FillZero(x.drillBoomTurnBackward)
    ensures 2.0 * r.beam == FillZero(x.beamLeft) + FillZero(x.beamRight)
  {
    FeatureRow(
      FillZero(x.engineSpeed),
      FillZero(x.hydraulicDriveOff),
      FillZero(x.drillBoomInAnchorPosition),
      FillZero(x.pvalveDrillForward),
      FillZero(x.bolt),
      PairMean(x.boomLift, x.boomLower),
      PairMean(x.boomForward, x.boomBackward),
      PairMean(x.drillBoomTurnLeft, x.drillBoomTurnRight),
      PairMean(x.drillBoomTurnForward, x.drillBoomTurnBackward),
      PairMean(x.beamLeft, x.beamRight))
  }

  /** The transformed table: one feature row per raw row, in the same order. */
  function Transform(raws: seq<RawRecord>): (r: seq<FeatureRow>)
    ensures |r| == |raws|
    ensures forall i :: 0 <= i < |r| ==> r[i] == TransformRow(raws[i])
  {
    seq(|raws|, i requires 0 <= i < |raws| => TransformRow(raws[i]))
  }

  /** Transforming two stretches of the raw table and joining them gives the transform of the whole. */
  lemma TransformConcat(xs: seq<RawRecord>, ys: seq<RawRecord>)
    ensures Transform(xs + ys) == Transform(xs) + Transform(ys)
  {
    var whole := Transform(xs + ys);
    forall i | 0 <= i < |whole|
      ensures whole[i] == (Transform(xs) + Transform(ys))[i]
    {
      if i >= |xs| {
        assert (xs + ys)[i] == ys[i - |xs|];
      }
    }
  }

  /** A raw row whose channels are all missing becomes a row of zeros. */
  lemma AllMissingIsZero(x: RawRecord)
    requires x.engineSpeed.None? && x.hydraulicDriveOff.None? && x.drillBoomInAnchorPosition.None?
    requires x.pvalveDrillForward.None? && x.bolt.None?
    requires x.boomLift.None? && x.boomLower.None? && x.boomForward.None? && x.boomBackward.None?
    requires x.drillBoomTurnLeft.None? && x.drillBoomTurnRight.None?
    requires x.drillBoomTurnForward.None? && x.drillBoomTurnBackward.None?
    requires x.beamLeft.None? && x.beamRight.None?
    ensures TransformRow(x) == FeatureRow(0.0, 0.0, 0.0, 0.0, 0.0, 0.0, 0.0, 0.0, 0.0, 0.0)
  {
  }
}
