/**
 * How the script feeds one raw table to the three stages: the transformed table goes to the
 * classifier, whose labels are joined back to the raw timestamps by position and segmented
 * into the ACTIVITY table; the raw engine speed goes to the aggregator for the SPEED table.
 *
 * The trained classifier, with the normalisation in front of it, is a parameter: any total
 * function from a transformed table to one label per row.
 */
module Pipeline {
  import opened Features
  import opened Segmenter
  import opened SpeedAggregator

  /** The classifier yields one label per transformed row, as a scikit-learn predict does. */
  predicate OneLabelPerRow<L>(raws: seq<RawRecord>, classify: seq<FeatureRow> -> seq<L>)
  {
    |classify(Transform(raws))| == |raws|
  }

  /** The predicted table: each raw timestamp next to the label the classifier gave its row. */
  function Predict<L>(raws: seq<RawRecord>, classify: seq<FeatureRow> -> seq<L>): (r: seq<Labeled<L>>)
    requires OneLabelPerRow(raws, classify)
    ensures |r| == |raws|
    ensures forall i :: 0 <= i < |r| ==>
      r[i].time == raws[i].time && r[i].predicted == classify(Transform(raws))[i]
  {
    var labels := classify(Transform(raws));
    seq(|raws|, i requires 0 <= i < |raws| => Labeled(raws[i].time, labels[i]))
  }

  /** The aggregator's view of the raw table: timestamps and engine speeds, missing readings kept missing. */
  function Readings(raws: seq<RawRecord>): (r: seq<Reading>)
    ensures |r| == |raws|
    ensures forall i :: 0 <= i < |r| ==> r[i].time == raws[i].time && r[i].speed == raws[i].engineSpeed
  {
    seq(|raws|, i requires 0 <= i < |raws| => Reading(raws[i].time, raws[i].engineSpeed))
  }

  /** The SPEED table: five-minute averages over the raw engine speed. */
  function SpeedTable(raws: seq<RawRecord>): seq<SpeedSample>
  {
    Aggregate(Readings(raws), FIVE_MINUTES)
  }

  /** The ACTIVITY table: the runs of the classifier's labels along the raw timestamps. */
  function ActivityTable<L(==)>(raws: seq<RawRecord>, classify: seq<FeatureRow> -> seq<L>): seq<Interval<L>>
    requires |raws| > 0 && OneLabelPerRow(raws, classify)
  {
    Segment(Predict(raws, classify))
  }

  /**
   * The SPEED table has one row per started five minutes of records, keyed by the timestamps
   * of records 0, 300, 600, ...
   */
  lemma SpeedTableKeys(raws: seq<RawRecord>)
    ensures |SpeedTable(raws)| == (|raws| + FIVE_MINUTES - 1) / FIVE_MINUTES
    ensures forall k :: 0 <= k < |SpeedTable(raws)| ==>
      k * FIVE_MINUTES < |raws| && SpeedTable(raws)[k].time == raws[k * FIVE_MINUTES].time
  {
    KeptRows(Readings(raws), FIVE_MINUTES);
  }

  /** The SPEED table reads nothing of a raw row but its timestamp and its engine speed. */
  lemma SpeedTableReadsEngineSpeedOnly(xs: seq<RawRecord>, ys: seq<RawRecord>)
    requires |xs| == |ys|
    requires forall i :: 0 <= i < |xs| ==> xs[i].time == ys[i].time && xs[i].engineSpeed == ys[i].engineSpeed
    ensures SpeedTable(xs) == SpeedTable(ys)
  {
    assert Readings(xs) == Readings(ys);
  }

  /**
   * Every ACTIVITY row closes at a raw record where the classifier's label changes: it ends at
   * that record's timestamp and carries the label of the record before it.
   */
  lemma ActivityEndsAtLabelChange<L>(raws: seq<RawRecord>, classify: seq<FeatureRow> -> seq<L>, k: nat)
    requires |raws| > 0 && OneLabelPerRow(raws, classify)
    requires k < |ActivityTable(raws, classify)|
    ensures var labels, row := classify(Transform(raws)), ActivityTable(raws, classify)[k];
      exists i :: 1 <= i < |raws| && labels[i] != labels[i - 1]
        && row.end == raws[i].time && row.activity == labels[i - 1]
  {
    var recs := Predict(raws, classify);
    IntervalClosesAtChange(recs);
    var i := ChangePoints(recs)[k];
    assert IsChange(recs, i);
  }

  /** Every change of the classifier's label closes an ACTIVITY row at that record's timestamp. */
  lemma LabelChangeEndsActivity<L>(raws: seq<RawRecord>, classify: seq<FeatureRow> -> seq<L>, i: nat)
    requires |raws| > 0 && OneLabelPerRow(raws, classify)
    requires 1 <= i < |raws| && classify(Transform(raws))[i] != classify(Transform(raws))[i - 1]
    ensures var labels, table := classify(Transform(raws)), ActivityTable(raws, classify);
      exists k :: 0 <= k < |table| && table[k].end == raws[i].time && table[k].activity == labels[i - 1]
  {
    var recs := Predict(raws, classify);
    assert IsChange(recs, i);
    IntervalPerChange(recs);
    IntervalClosesAtChange(recs);
    var cps := ChangePoints(recs);
    var k :| 0 <= k < |cps| && cps[k] == i;
    assert ActivityTable(raws, classify)[k] == Segment(recs)[k];
    assert Segment(recs)[k].end == raws[i].time;
    assert recs[i - 1].predicted == classify(Transform(raws))[i - 1];
  }

  /** A classifier that gives every row the same label leaves the ACTIVITY table empty. */
  lemma ConstantClassifierYieldsNoActivity<L>(raws: seq<RawRecord>, classify: seq<FeatureRow> -> seq<L>)
    requires |raws| > 0 && OneLabelPerRow(raws, classify)
    requires forall i :: 0 <= i < |raws| ==> classify(Transform(raws))[i] == classify(Transform(raws))[0]
    ensures ActivityTable(raws, classify) == []
  {
    UniformLabelsYieldNothing(Predict(raws, classify));
  }
}
