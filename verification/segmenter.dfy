/**
 * The run-length segmenter of compute_results_activity: one forward pass over the
 * predicted table that closes the open run every time the label changes.
 *
 * As in the program, a run is closed only by a change of label, so the run that is
 * still open after the last record is never emitted.
 */
module Segmenter {

  /** One row of the predicted table: a timestamp in seconds and the predicted activity. */
  datatype Labeled<L> = Labeled(time: int, predicted: L)

  /** One row of the ACTIVITY table. */
  datatype Interval<L> = Interval(start: int, end: int, activity: L, duration: int)

  /** The label changes at record i, so the run that ended at record i - 1 is closed there. */
  predicate IsChange<L(==)>(recs: seq<Labeled<L>>, i: int)
  {
    1 <= i < |recs| && recs[i].predicted != recs[i - 1].predicted
  }

  /** The indices j >= from at which the label changes, in ascending order. */
  function ChangesFrom<L(==)>(recs: seq<Labeled<L>>, from: nat): (r: seq<nat>)
    requires 1 <= from <= |recs|
    ensures forall a :: 0 <= a < |r| ==> from <= r[a] && IsChange(recs, r[a])
    decreases |recs| - from
  {
    if from == |recs| then []
    else if IsChange(recs, from) then [from] + ChangesFrom(recs, from + 1)
    else ChangesFrom(recs, from + 1)
  }

  /** ChangesFrom misses no change point at or after `from`. */
  lemma {:induction false} ChangesFromComplete<L>(recs: seq<Labeled<L>>, from: nat, j: int)
    requires 1 <= from <= |recs|
    requires from <= j && IsChange(recs, j)
    ensures j in ChangesFrom(recs, from)
    decreases |recs| - from
  {
    if from < j {
      ChangesFromComplete(recs, from + 1, j);
    }
  }

  /** ChangesFrom lists its change points in strictly ascending order. */
  lemma {:induction false} ChangesFromAscending<L>(recs: seq<Labeled<L>>, from: nat)
    requires 1 <= from <= |recs|
    ensures forall a, b :: 0 <= a < b < |ChangesFrom(recs, from)| ==>
      ChangesFrom(recs, from)[a] < ChangesFrom(recs, from)[b]
    decreases |recs| - from
  {
    if from < |recs| {
      ChangesFromAscending(recs, from + 1);
      var rest := ChangesFrom(recs, from + 1);
      if IsChange(recs, from) {
        var r := [from] + rest;
        assert ChangesFrom(recs, from) == r;
        forall a, b | 0 <= a < b < |r|
          ensures r[a] < r[b]
        {
          assert from + 1 <= rest[b - 1];
          if a > 0 {
            assert rest[a - 1] < rest[b - 1];
          }
        }
      }
    }
  }

  /** Every index of the table at which the label changes, in ascending order. */
  function ChangePoints<L(==)>(recs: seq<Labeled<L>>): seq<nat>
    requires |recs| > 0
  {
    ChangesFrom(recs, 1)
  }

  /**
   * The loop of compute_results_activity from record i on, where `current` is the label
   * of the previous record and `start` the timestamp at which the open run began.
   */
  function Scan<L(==)>(recs: seq<Labeled<L>>, i: nat, current: L, start: int): seq<Interval<L>>
    requires i <= |recs|
    decreases |recs| - i
  {
    if i == |recs| then []
    else if recs[i].predicted != current then
      var end := recs[i].time;
      [Interval(start, end, current, end - start)] + Scan(recs, i + 1, recs[i].predicted, end)
    else
      Scan(recs, i + 1, recs[i].predicted, start)
  }

  /** compute_results_activity: record 0 seeds the open run and the loop visits every record. */
  function Segment<L(==)>(recs: seq<Labeled<L>>): seq<Interval<L>>
    requires |recs| > 0
  {
    Scan(recs, 0, recs[0].predicted, recs[0].time)
  }

  /**
   * Reference definition: the intervals closed at the given change points when the first
   * run opens at `start`. Interval k ends at the record of the k-th change point, carries
   * the label of the record just before it, and the next interval opens where it ends.
   */
  function Closing<L>(recs: seq<Labeled<L>>, cps: seq<nat>, start: int): (r: seq<Interval<L>>)
    requires forall a :: 0 <= a < |cps| ==> 1 <= cps[a] < |recs|
    ensures |r| == |cps|
  {
    seq(|cps|, k requires 0 <= k < |cps| =>
      var open := if k == 0 then start else recs[cps[k - 1]].time;
      var end := recs[cps[k]].time;
      Interval(open, end, recs[cps[k] - 1].predicted, end - open))
  }

  /** Closing the first change point emits its interval and opens the next run at its record. */
  lemma ClosingFirst<L>(recs: seq<Labeled<L>>, c: nat, rest: seq<nat>, start: int)
    requires 1 <= c < |recs|
    requires forall a :: 0 <= a < |rest| ==> 1 <= rest[a] < |recs|
    ensures var end := recs[c].time;
      Closing(recs, [c] + rest, start)
        == [Interval(start, end, recs[c - 1].predicted, end - start)] + Closing(recs, rest, end)
  {
    var end := recs[c].time;
    var whole, tail := Closing(recs, [c] + rest, start), Closing(recs, rest, end);
    forall k | 1 <= k < |whole|
      ensures whole[k] == tail[k - 1]
    {
      assert ([c] + rest)[k] == rest[k - 1];
      assert ([c] + rest)[k - 1] == if k == 1 then c else rest[k - 2];
    }
  }

  /** From any record on, the scan closes exactly the runs that end at the remaining change points. */
  lemma {:induction false} ScanClosesChanges<L>(recs: seq<Labeled<L>>, i: nat, start: int)
    requires 1 <= i <= |recs|
    ensures Scan(recs, i, recs[i - 1].predicted, start) == Closing(recs, ChangesFrom(recs, i), start)
    decreases |recs| - i
  {
    if i < |recs| {
      var rest := ChangesFrom(recs, i + 1);
      if IsChange(recs, i) {
        ScanClosesChanges(recs, i + 1, recs[i].time);
        ClosingFirst(recs, i, rest, start);
      } else {
        ScanClosesChanges(recs, i + 1, start);
      }
    }
  }

  /** The segmenter emits the reference intervals of the table's change points. */
  lemma SegmentClosesChanges<L>(recs: seq<Labeled<L>>)
    requires |recs| > 0
    ensures Segment(recs) == Closing(recs, ChangePoints(recs), recs[0].time)
  {
    ScanClosesChanges(recs, 1, recs[0].time);
  }

  /** There are as many intervals as change points. */
  lemma SegmentLength<L>(recs: seq<Labeled<L>>)
    requires |recs| > 0
    ensures |Segment(recs)| == |ChangePoints(recs)|
  {
    SegmentClosesChanges(recs);
  }

  /**
   * Interval k runs from record 0, or from the previous change point, to the k-th change
   * point, and carries the label of the record just before the change.
   */
  lemma SegmentAt<L>(recs: seq<Labeled<L>>, k: nat)
    requires |recs| > 0 && k < |ChangePoints(recs)|
    ensures var cps := ChangePoints(recs);
      var open := if k == 0 then recs[0].time else recs[cps[k - 1]].time;
      var end := recs[cps[k]].time;
      |Segment(recs)| == |cps| && Segment(recs)[k] == Interval(open, end, recs[cps[k] - 1].predicted, end - open)
  {
    SegmentClosesChanges(recs);
  }

  /**
   * One interval per index at which the label changes, and no other: the run still open
   * after the last record is dropped.
   */
  lemma IntervalPerChange<L>(recs: seq<Labeled<L>>)
    requires |recs| > 0
    ensures |Segment(recs)| == |ChangePoints(recs)|
    ensures forall i :: i in ChangePoints(recs) <==> IsChange(recs, i)
  {
    SegmentLength(recs);
    var cps := ChangePoints(recs);
    forall i | i in cps
      ensures IsChange(recs, i)
    {
      var a :| 0 <= a < |cps| && cps[a] == i;
    }
    forall i | IsChange(recs, i)
      ensures i in cps
    {
      ChangesFromComplete(recs, 1, i);
    }
  }

  /**
   * Interval k closes at the record of the k-th change point: its end is that record's
   * timestamp, its activity the label of the run it closes, and its duration end - start.
   */
  lemma IntervalClosesAtChange<L>(recs: seq<Labeled<L>>)
    requires |recs| > 0
    ensures var out, cps := Segment(recs), ChangePoints(recs);
      |out| == |cps| &&
      forall k :: 0 <= k < |out| ==>
        && IsChange(recs, cps[k])
        && out[k].end == recs[cps[k]].time
        && out[k].activity == recs[cps[k] - 1].predicted
        && out[k].duration == out[k].end - out[k].start
  {
    SegmentLength(recs);
    var out, cps := Segment(recs), ChangePoints(recs);
    forall k | 0 <= k < |out|
      ensures IsChange(recs, cps[k]) && out[k].end == recs[cps[k]].time
      ensures out[k].activity == recs[cps[k] - 1].predicted
      ensures out[k].duration == out[k].end - out[k].start
    {
      SegmentAt(recs, k);
    }
  }

  /** The intervals are contiguous: the first opens at record 0, each later one where the previous closed. */
  lemma IntervalsContiguous<L>(recs: seq<Labeled<L>>)
    requires |recs| > 0
    ensures var out := Segment(recs);
      && (|out| > 0 ==> out[0].start == recs[0].time)
      && forall k :: 0 < k < |out| ==> out[k].start == out[k - 1].end
  {
    SegmentLength(recs);
    var out := Segment(recs);
    if |out| > 0 {
      SegmentAt(recs, 0);
    }
    forall k | 0 < k < |out|
      ensures out[k].start == out[k - 1].end
    {
      SegmentAt(recs, k);
      SegmentAt(recs, k - 1);
    }
  }

  /** Within a stretch free of change points the label stays that of its first record. */
  lemma {:induction false} SteadyRun<L>(recs: seq<Labeled<L>>, a: nat, b: nat)
    requires a < b <= |recs|
    requires forall j :: a < j < b ==> !IsChange(recs, j)
    ensures recs[b - 1].predicted == recs[a].predicted
    decreases b - a
  {
    if b - 1 > a {
      SteadyRun(recs, a, b - 1);
      assert !IsChange(recs, b - 1);
    }
  }

  /**
   * No label changes strictly between two consecutive change points, nor before the first
   * change point.
   */
  lemma NoChangeBetween<L>(recs: seq<Labeled<L>>, k: nat, j: int)
    requires |recs| > 0
    requires k < |ChangePoints(recs)|
    requires (if k == 0 then 0 else ChangePoints(recs)[k - 1]) < j < ChangePoints(recs)[k]
    ensures !IsChange(recs, j)
  {
    var cps := ChangePoints(recs);
    ChangesFromAscending(recs, 1);
    if IsChange(recs, j) {
      ChangesFromComplete(recs, 1, j);
      assert false;
    }
  }

  /**
   * Interval k is one run: every record from the one that opens it (record 0 or the
   * previous change point) up to the one that closes it carries its activity.
   */
  lemma IntervalIsRun<L>(recs: seq<Labeled<L>>, k: nat, j: int)
    requires |recs| > 0 && k < |ChangePoints(recs)|
    requires (if k == 0 then 0 else ChangePoints(recs)[k - 1]) <= j < ChangePoints(recs)[k]
    ensures |Segment(recs)| == |ChangePoints(recs)| && recs[j].predicted == Segment(recs)[k].activity
  {
    SegmentAt(recs, k);
    var cps := ChangePoints(recs);
    var first := if k == 0 then 0 else cps[k - 1];
    forall i | first < i < cps[k]
      ensures !IsChange(recs, i)
    {
      NoChangeBetween(recs, k, i);
    }
    SteadyRun(recs, first, j + 1);
    SteadyRun(recs, first, cps[k]);
  }

  /** Two consecutive intervals never carry the same activity. */
  lemma ConsecutiveActivitiesDiffer<L>(recs: seq<Labeled<L>>)
    requires |recs| > 0
    ensures var out := Segment(recs);
      forall k :: 0 < k < |out| ==> out[k].activity != out[k - 1].activity
  {
    SegmentLength(recs);
    ChangesFromAscending(recs, 1);
    var out, cps := Segment(recs), ChangePoints(recs);
    assert cps == ChangesFrom(recs, 1);
    forall k | 0 < k < |out|
      ensures out[k].activity != out[k - 1].activity
    {
      SegmentAt(recs, k);
      SegmentAt(recs, k - 1);
      var a, b := cps[k - 1], cps[k];
      forall j | a < j < b
        ensures !IsChange(recs, j)
      {
        NoChangeBetween(recs, k, j);
      }
      SteadyRun(recs, a, b);
      assert IsChange(recs, a);
    }
  }

  /** Where the label never changes from record `from` on, no change point remains. */
  lemma {:induction false} SteadyHasNoChanges<L>(recs: seq<Labeled<L>>, from: nat)
    requires 1 <= from <= |recs|
    requires forall j :: from <= j < |recs| ==> recs[j].predicted == recs[j - 1].predicted
    ensures ChangesFrom(recs, from) == []
    decreases |recs| - from
  {
    if from < |recs| {
      SteadyHasNoChanges(recs, from + 1);
    }
  }

  /** A table whose labels never change, a single record among them, yields no interval at all. */
  lemma UniformLabelsYieldNothing<L>(recs: seq<Labeled<L>>)
    requires |recs| > 0
    requires forall i :: 0 <= i < |recs| ==> recs[i].predicted == recs[0].predicted
    ensures Segment(recs) == []
  {
    SegmentClosesChanges(recs);
    SteadyHasNoChanges(recs, 1);
  }

  /** Interval k opens at record 0 or at the previous change point, strictly before it closes. */
  lemma IntervalOpensBefore<L>(recs: seq<Labeled<L>>, k: nat)
    requires |recs| > 0 && k < |ChangePoints(recs)|
    ensures var cps := ChangePoints(recs);
      var first := if k == 0 then 0 else cps[k - 1];
      first < cps[k] && |Segment(recs)| == |cps| && Segment(recs)[k].start == recs[first].time
  {
    SegmentAt(recs, k);
    ChangesFromAscending(recs, 1);
    var cps := ChangePoints(recs);
    assert cps == ChangesFrom(recs, 1);
  }

  /** On a table with strictly increasing timestamps every interval has a positive duration. */
  lemma DurationsPositive<L>(recs: seq<Labeled<L>>)
    requires |recs| > 0
    requires forall i, j :: 0 <= i < j < |recs| ==> recs[i].time < recs[j].time
    ensures forall k :: 0 <= k < |Segment(recs)| ==> Segment(recs)[k].duration > 0
  {
    IntervalClosesAtChange(recs);
    forall k | 0 <= k < |Segment(recs)|
      ensures Segment(recs)[k].duration > 0
    {
      IntervalOpensBefore(recs, k);
    }
  }

  /** Labels A A B B B A at seconds 0..5 close two runs, at seconds 2 and 5; the final A run is dropped. */
  lemma WorkedExample()
    ensures Segment([Labeled(0, 'A'), Labeled(1, 'A'), Labeled(2, 'B'),
                     Labeled(3, 'B'), Labeled(4, 'B'), Labeled(5, 'A')])
         == [Interval(0, 2, 'A', 2), Interval(2, 5, 'B', 3)]
  {
  }

  /** The loop of compute_results_activity as written, appending to a list as it goes. */
  method SegmentLoop<L(==)>(recs: seq<Labeled<L>>) returns (out: seq<Interval<L>>)
    requires |recs| > 0
    ensures out == Segment(recs)
  {
    var current := recs[0].predicted;
    var start := recs[0].time;
    out := [];
    var i := 0;
    while i < |recs|
      invariant 0 <= i <= |recs|
      invariant out + Scan(recs, i, current, start) == Segment(recs)
    {
      var row := recs[i];
      if row.predicted != current {
        var end := row.time;
        out := out + [Interval(start, end, current, end - start)];
        start := end;
      }
      current := row.predicted;
      i := i + 1;
    }
  }
}
