/**
 * The windowed speed aggregator of compute_results_speed: a trailing mean of engine speed
 * over w records, kept at every w-th record, with the rows whose trailing mean is undefined
 * filled with the mean of the first w speeds.
 *
 * Speeds come from the raw table, which is not filled with zeros, so a reading may be
 * missing. A mean that skips missing values is taken over the first w speeds; a trailing
 * mean is undefined as soon as one of its w readings is missing.
 */
module SpeedAggregator {
  import opened Optional
  import opened Stats

  /** One row of the raw table as the aggregator sees it: timestamp and engine speed. */
  datatype Reading = Reading(time: int, speed: Option<real>)

  /** One row of the SPEED table; None stands for an average that is still undefined after filling. */
  datatype SpeedSample = SpeedSample(time: int, average: Option<real>)

  /** Window length and sampling step, in records: five minutes at one record per second. */
  const FIVE_MINUTES: nat := 300

  function Speeds(rows: seq<Reading>): seq<Option<real>>
  {
    seq(|rows|, i requires 0 <= i < |rows| => rows[i].speed)
  }

  /** The readings that are present, in order: what a mean that skips missing values averages. */
  function Present(s: seq<Option<real>>): seq<real>
  {
    if |s| == 0 then []
    else Present(s[..|s| - 1]) + (if s[|s| - 1].Some? then [s[|s| - 1].value] else [])
  }

  /** No reading of the stretch is missing. */
  predicate Complete(s: seq<Option<real>>)
  {
    forall i :: 0 <= i < |s| ==> s[i].Some?
  }

  /** The values of a stretch with no reading missing, in order. */
  function Values(s: seq<Option<real>>): (r: seq<real>)
    requires Complete(s)
    ensures |r| == |s| && forall i :: 0 <= i < |s| ==> s[i] == Some(r[i])
  {
    seq(|s|, i requires 0 <= i < |s| => s[i].value)
  }

  function Min(a: int, b: int): int
  {
    if a < b then a else b
  }

  /** Mean of the present speeds among the first min(w, n); undefined when none of them is present. */
  function InitialMean(speeds: seq<Option<real>>, w: nat): Option<real>
    requires w > 0
  {
    var present := Present(speeds[..Min(w, |speeds|)]);
    if |present| == 0 then None else Some(Mean(present))
  }

  /** Trailing mean at index i over w readings: defined only when all w readings ending at i are present. */
  function RollingMeanAt(speeds: seq<Option<real>>, w: nat, i: nat): Option<real>
    requires w > 0 && i < |speeds|
  {
    if i + 1 < w then None
    else
      var window := speeds[i + 1 - w..i + 1];
      if Complete(window) then Some(Mean(Values(window))) else None
  }

  /** A count c of kept rows brackets n: c * w covers n and (c - 1) * w falls short of it. */
  lemma CeilBounds(n: nat, w: nat)
    requires w > 0
    ensures n <= ((n + w - 1) / w) * w
    ensures (n + w - 1) / w == 0 || ((n + w - 1) / w - 1) * w < n
  {
    var q, r := (n + w - 1) / w, (n + w - 1) % w;
    assert q * w + r == n + w - 1;
    assert (q - 1) * w == q * w - w;
  }

  lemma MulSucc(c: nat, w: nat)
    ensures (c + 1) * w == c * w + w
  {
  }

  lemma MulMonotone(a: int, b: int, w: nat)
    requires a <= b
    ensures a * w <= b * w
  {
    assert b * w - a * w == (b - a) * w;
  }

  /** The bracket of CeilBounds determines the count: it is the ceiling of n / w. */
  lemma CeilCount(n: nat, w: nat, c: nat)
    requires w > 0
    requires n <= c * w
    requires c == 0 || (c - 1) * w < n
    ensures c == (n + w - 1) / w
  {
    var q := (n + w - 1) / w;
    CeilBounds(n, w);
    if c < q {
      MulMonotone(c + 1, q, w);
    } else if q < c {
      MulMonotone(q + 1, c, w);
    }
  }

  /** Index k * w lies inside a table of n rows exactly when k is below the number of kept rows. */
  lemma KeptIndex(n: nat, w: nat, k: nat)
    requires w > 0
    ensures k * w < n <==> k < (n + w - 1) / w
  {
    CeilBounds(n, w);
    var q := (n + w - 1) / w;
    if q <= k {
      MulMonotone(q, k, w);
    } else {
      MulMonotone(k, q - 1, w);
    }
  }

  /** iloc[::w]: the elements at indices 0, w, 2w, ..., in order; there are ceil(n / w) of them. */
  function Downsample<T>(xs: seq<T>, w: nat): (r: seq<T>)
    requires w > 0
    ensures |r| == (|xs| + w - 1) / w
    decreases |xs|
  {
    if |xs| == 0 then
      []
    else if |xs| <= w then
      CeilCount(|xs|, w, 1);
      [xs[0]]
    else
      var rest := Downsample(xs[w..], w);
      CeilBounds(|xs| - w, w);
      CeilCount(|xs|, w, |rest| + 1);
      [xs[0]] + rest
  }

  /** The k-th kept element is the element at index k * w. */
  lemma {:induction false} DownsampleAt<T>(xs: seq<T>, w: nat, k: nat)
    requires w > 0 && k * w < |xs|
    ensures k < |Downsample(xs, w)| && Downsample(xs, w)[k] == xs[k * w]
    decreases |xs|
  {
    KeptIndex(|xs|, w, k);
    if k > 0 {
      MulMonotone(1, k, w);
      assert (k - 1) * w == k * w - w;
      DownsampleAt(xs[w..], w, k - 1);
    }
  }

  /**
   * compute_results_speed with window and step w: the trailing mean of every row, kept at
   * every w-th row, with each undefined mean filled with the mean of the first w speeds.
   */
  function Aggregate(rows: seq<Reading>, w: nat): (r: seq<SpeedSample>)
    requires w > 0
    ensures |r| == (|rows| + w - 1) / w
  {
    var speeds := Speeds(rows);
    var rolled := seq(|rows|, i requires 0 <= i < |rows| => SpeedSample(rows[i].time, RollingMeanAt(speeds, w, i)));
    var kept := Downsample(rolled, w);
    var initial := InitialMean(speeds, w);
    seq(|kept|, k requires 0 <= k < |kept| => SpeedSample(kept[k].time, OrElse(kept[k].average, initial)))
  }

  /** Reference definition: the SPEED row that raw row i gives when it is kept. */
  function SampleAt(rows: seq<Reading>, w: nat, i: nat): SpeedSample
    requires w > 0 && i < |rows|
  {
    var speeds := Speeds(rows);
    SpeedSample(rows[i].time, OrElse(RollingMeanAt(speeds, w, i), InitialMean(speeds, w)))
  }

  /** The k-th row the aggregator emits is the reference row of raw row k * w. */
  lemma AggregateAt(rows: seq<Reading>, w: nat, k: nat)
    requires w > 0 && k * w < |rows|
    ensures k < |Aggregate(rows, w)| && Aggregate(rows, w)[k] == SampleAt(rows, w, k * w)
  {
    KeptIndex(|rows|, w, k);
    var speeds := Speeds(rows);
    var rolled := seq(|rows|, i requires 0 <= i < |rows| => SpeedSample(rows[i].time, RollingMeanAt(speeds, w, i)));
    DownsampleAt(rolled, w, k);
  }

  /**
   * The SPEED table keeps the rows at indices 0, w, 2w, ... of the raw table, in order and
   * keyed by their timestamps, ceil(n / w) of them.
   */
  lemma KeptRows(rows: seq<Reading>, w: nat)
    requires w > 0
    ensures |Aggregate(rows, w)| == (|rows| + w - 1) / w
    ensures forall k :: 0 <= k < |Aggregate(rows, w)| ==>
      k * w < |rows| && Aggregate(rows, w)[k].time == rows[k * w].time
  {
    forall k | 0 <= k < |Aggregate(rows, w)|
      ensures k * w < |rows| && Aggregate(rows, w)[k].time == rows[k * w].time
    {
      KeptIndex(|rows|, w, k);
      AggregateAt(rows, w, k);
    }
  }

  /** A stretch that is complete has every reading present: a mean skipping missing values averages all of them. */
  lemma {:induction false} PresentOfComplete(s: seq<Option<real>>)
    requires Complete(s)
    ensures Present(s) == Values(s)
    decreases |s|
  {
    if |s| > 0 {
      var init := s[..|s| - 1];
      assert Complete(init);
      PresentOfComplete(init);
      assert Values(s) == Values(init) + [s[|s| - 1].value];
    }
  }

  /** Present keeps the readings of a concatenation in order. */
  lemma {:induction false} PresentConcat(s: seq<Option<real>>, t: seq<Option<real>>)
    ensures Present(s + t) == Present(s) + Present(t)
    decreases |t|
  {
    if |t| == 0 {
      assert s + t == s;
    } else {
      var init := t[..|t| - 1];
      assert (s + t)[..|s + t| - 1] == s + init;
      PresentConcat(s, init);
    }
  }

  /** A stretch keeps all its readings exactly when none of them is missing. */
  lemma {:induction false} PresentCount(s: seq<Option<real>>)
    ensures |Present(s)| <= |s|
    ensures |Present(s)| == |s| <==> Complete(s)
    decreases |s|
  {
    if |s| > 0 {
      var init := s[..|s| - 1];
      PresentCount(init);
      if Complete(s) {
        assert Complete(init);
      } else if Complete(init) {
        assert s[|s| - 1].None?;
      }
    }
  }

  /** Kept or not, a row whose w trailing speeds are all present reads their mean. */
  lemma CompleteWindowMean(rows: seq<Reading>, w: nat, i: nat)
    requires w > 0 && w <= i + 1 && i < |rows|
    requires forall j :: i + 1 - w <= j <= i ==> rows[j].speed.Some?
    ensures Complete(Speeds(rows)[i + 1 - w..i + 1])
    ensures SampleAt(rows, w, i).average == Some(Mean(Values(Speeds(rows)[i + 1 - w..i + 1])))
  {
    var lo := i + 1 - w;
    var window := Speeds(rows)[lo..i + 1];
    forall j | 0 <= j < |window|
      ensures window[j].Some?
    {
      assert window[j] == rows[lo + j].speed;
    }
  }

  /** Kept or not, a row with a missing speed among its w trailing readings reads the initial mean. */
  lemma MissingInWindow(rows: seq<Reading>, w: nat, i: nat, j: nat)
    requires w > 0 && i < |rows|
    requires i < j + w && j <= i && rows[j].speed.None?
    ensures SampleAt(rows, w, i).average == InitialMean(Speeds(rows), w)
  {
    if i + 1 >= w {
      var window := Speeds(rows)[i + 1 - w..i + 1];
      assert window[j - (i + 1 - w)].None?;
    }
  }

  /**
   * For k >= 1, when the w speeds ending at index k * w are all present, the k-th SPEED row
   * holds their mean.
   */
  lemma TrailingMean(rows: seq<Reading>, w: nat, k: nat)
    requires w > 0 && 1 <= k && k * w < |rows|
    requires forall j :: 0 <= j && k * w - w < j <= k * w ==> rows[j].speed.Some?
    ensures k < |Aggregate(rows, w)| && w <= k * w + 1
    ensures Complete(Speeds(rows)[k * w + 1 - w..k * w + 1])
    ensures Aggregate(rows, w)[k].average == Some(Mean(Values(Speeds(rows)[k * w + 1 - w..k * w + 1])))
  {
    AggregateAt(rows, w, k);
    MulMonotone(1, k, w);
    CompleteWindowMean(rows, w, k * w);
  }

  /**
   * A missing speed anywhere among the w readings ending at index k * w leaves the trailing
   * mean undefined, and the k-th SPEED row takes the mean of the first w speeds instead.
   */
  lemma MissingSpeedFallsBack(rows: seq<Reading>, w: nat, k: nat, j: nat)
    requires w > 0 && k * w < |rows|
    requires k * w - w < j <= k * w && rows[j].speed.None?
    ensures k < |Aggregate(rows, w)|
    ensures Aggregate(rows, w)[k].average == InitialMean(Speeds(rows), w)
  {
    AggregateAt(rows, w, k);
    MissingInWindow(rows, w, k * w, j);
  }

  /** The mean of one present reading is that reading. */
  lemma MeanSingle(x: real)
    ensures Mean([x]) == x
  {
    assert [x][..0] == [];
    assert Sum([x]) == x;
  }

  /** Row 0 reads the initial mean, also when a window of one record makes its trailing mean defined. */
  lemma FirstSample(rows: seq<Reading>, w: nat)
    requires w > 0 && |rows| > 0
    ensures SampleAt(rows, w, 0).average == InitialMean(Speeds(rows), w)
  {
    var speeds := Speeds(rows);
    var head := speeds[..Min(w, |rows|)];
    if w == 1 {
      assert head == speeds[0..1];
      if speeds[0].Some? {
        assert Present(head) == Present(head[..0]) + [speeds[0].value];
        MeanSingle(speeds[0].value);
        assert Complete(head);
        assert Values(head) == [speeds[0].value];
      }
    }
  }

  /**
   * The first SPEED row is keyed by the first timestamp and holds the mean of the present
   * speeds among the first min(w, n); when none is missing, the mean of all of them.
   */
  lemma FirstRow(rows: seq<Reading>, w: nat)
    requires w > 0 && |rows| > 0
    ensures |Aggregate(rows, w)| > 0
    ensures Aggregate(rows, w)[0].time == rows[0].time
    ensures Aggregate(rows, w)[0].average == InitialMean(Speeds(rows), w)
    ensures var head := Speeds(rows)[..Min(w, |rows|)];
      Complete(head) ==> Aggregate(rows, w)[0].average == Some(Mean(Values(head)))
  {
    AggregateAt(rows, w, 0);
    FirstSample(rows, w);
    var head := Speeds(rows)[..Min(w, |rows|)];
    if Complete(head) {
      PresentOfComplete(head);
    }
  }

  /** A stretch of one repeated present reading c is complete and its mean is c. */
  lemma ConstantStretch(s: seq<Option<real>>, c: real)
    requires |s| > 0
    requires forall i :: 0 <= i < |s| ==> s[i] == Some(c)
    ensures Complete(s) && Present(s) == Values(s) && Mean(Values(s)) == c
  {
    PresentOfComplete(s);
    MeanConstant(Values(s), c);
  }

  /** On a table of constant speed c the mean of the first w speeds is c. */
  lemma ConstantHead(rows: seq<Reading>, w: nat, c: real)
    requires w > 0 && |rows| > 0
    requires forall j :: 0 <= j < |rows| ==> rows[j].speed == Some(c)
    ensures InitialMean(Speeds(rows), w) == Some(c)
  {
    var head := Speeds(rows)[..Min(w, |rows|)];
    assert forall j :: 0 <= j < |head| ==> head[j] == rows[j].speed;
    ConstantStretch(head, c);
  }

  /** On a table of constant speed c every defined trailing mean is c. */
  lemma ConstantWindow(rows: seq<Reading>, w: nat, c: real, i: nat)
    requires w > 0 && w <= i + 1 && i < |rows|
    requires forall j :: 0 <= j < |rows| ==> rows[j].speed == Some(c)
    ensures RollingMeanAt(Speeds(rows), w, i) == Some(c)
  {
    var lo := i + 1 - w;
    var window := Speeds(rows)[lo..i + 1];
    assert forall j :: 0 <= j < |window| ==> window[j] == rows[lo + j].speed;
    ConstantStretch(window, c);
  }

  /** Kept or not, every row of a table of constant speed c reads c. */
  lemma ConstantSample(rows: seq<Reading>, w: nat, c: real, i: nat)
    requires w > 0 && i < |rows|
    requires forall j :: 0 <= j < |rows| ==> rows[j].speed == Some(c)
    ensures SampleAt(rows, w, i).average == Some(c)
  {
    ConstantHead(rows, w, c);
    if i + 1 >= w {
      ConstantWindow(rows, w, c, i);
    }
  }

  /** SPEED row k of a table of constant speed c reads c. */
  lemma ConstantRow(rows: seq<Reading>, w: nat, c: real, k: nat)
    requires w > 0 && k * w < |rows|
    requires forall j :: 0 <= j < |rows| ==> rows[j].speed == Some(c)
    ensures k < |Aggregate(rows, w)| && Aggregate(rows, w)[k].average == Some(c)
  {
    AggregateAt(rows, w, k);
    ConstantSample(rows, w, c, k * w);
  }

  /** A constant engine speed c gives c in every SPEED row. */
  lemma ConstantSpeed(rows: seq<Reading>, w: nat, c: real)
    requires w > 0
    requires forall i :: 0 <= i < |rows| ==> rows[i].speed == Some(c)
    ensures forall k :: 0 <= k < |Aggregate(rows, w)| ==> Aggregate(rows, w)[k].average == Some(c)
  {
    forall k | 0 <= k < |Aggregate(rows, w)|
      ensures Aggregate(rows, w)[k].average == Some(c)
    {
      KeptRows(rows, w);
      ConstantRow(rows, w, c, k);
    }
  }

  /** Ten minutes of a constant speed of 10 give two SPEED rows, both at 10. */
  lemma TenMinutesAtTen(rows: seq<Reading>)
    requires |rows| == 600
    requires forall i :: 0 <= i < |rows| ==> rows[i].speed == Some(10.0)
    ensures |Aggregate(rows, FIVE_MINUTES)| == 2
    ensures Aggregate(rows, FIVE_MINUTES)[0].average == Some(10.0)
    ensures Aggregate(rows, FIVE_MINUTES)[1].average == Some(10.0)
  {
    ConstantSpeed(rows, FIVE_MINUTES, 10.0);
  }

  /** Appending a reading adds it to the sum of the present readings and to their count if present. */
  lemma Admit(s: seq<Option<real>>, x: Option<real>)
    ensures Sum(Present(s + [x])) == Sum(Present(s)) + FillZero(x)
    ensures |Present(s + [x])| == |Present(s)| + (if x.Some? then 1 else 0)
  {
    assert (s + [x])[..|s|] == s;
    var last := if x.Some? then [x.value] else [];
    assert Present(s + [x]) == Present(s) + last;
    SumConcat(Present(s), last);
    if x.Some? {
      assert Sum(last) == Sum([]) + x.value;
    }
  }

  /** Removing the oldest reading takes it out of the sum of the present readings and their count. */
  lemma Evict(x: Option<real>, s: seq<Option<real>>)
    ensures Sum(Present([x] + s)) == FillZero(x) + Sum(Present(s))
    ensures |Present([x] + s)| == (if x.Some? then 1 else 0) + |Present(s)|
  {
    PresentConcat([x], s);
    Admit([], x);
    assert [] + [x] == [x];
    SumConcat(Present([x]), Present(s));
  }

  /** sum and count are the sum and the number of the present readings in speeds[lo..hi]. */
  ghost predicate WindowHolds(speeds: seq<Option<real>>, lo: nat, hi: nat, sum: real, count: int)
  {
    lo <= hi <= |speeds| && sum == Sum(Present(speeds[lo..hi])) && count == |Present(speeds[lo..hi])|
  }

  /** Widening the window by the reading at hi. */
  lemma WindowAdmit(speeds: seq<Option<real>>, lo: nat, hi: nat, sum: real, count: int)
    requires WindowHolds(speeds, lo, hi, sum, count) && hi < |speeds|
    ensures WindowHolds(speeds, lo, hi + 1, sum + FillZero(speeds[hi]),
                        count + (if speeds[hi].Some? then 1 else 0))
  {
    assert speeds[lo..hi + 1] == speeds[lo..hi] + [speeds[hi]];
    Admit(speeds[lo..hi], speeds[hi]);
  }

  /** Narrowing the window by its oldest reading. */
  lemma WindowEvict(speeds: seq<Option<real>>, lo: nat, hi: nat, sum: real, count: int)
    requires WindowHolds(speeds, lo, hi, sum, count) && lo < hi
    ensures WindowHolds(speeds, lo + 1, hi, sum - FillZero(speeds[lo]),
                        count - (if speeds[lo].Some? then 1 else 0))
  {
    assert speeds[lo..hi] == [speeds[lo]] + speeds[lo + 1..hi];
    Evict(speeds[lo], speeds[lo + 1..hi]);
  }

  /** The mean of the present speeds among the first min(w, n), in one pass. */
  method HeadMean(rows: seq<Reading>, w: nat) returns (initial: Option<real>)
    requires w > 0
    ensures initial == InitialMean(Speeds(rows), w)
  {
    ghost var speeds := Speeds(rows);
    var m := Min(w, |rows|);
    var sum, count := 0.0, 0;
    var j := 0;
    while j < m
      invariant 0 <= j <= m
      invariant WindowHolds(speeds, 0, j, sum, count)
    {
      WindowAdmit(speeds, 0, j, sum, count);
      sum := sum + FillZero(rows[j].speed);
      count := count + (if rows[j].speed.Some? then 1 else 0);
      j := j + 1;
    }
    initial := if count == 0 then None else Some(sum / (count as real));
  }

  /**
   * The value emitted at row i from the running window speeds[lo..i + 1]: the window's mean
   * when it holds w present readings, the initial mean otherwise.
   */
  lemma EmittedAverage(speeds: seq<Option<real>>, w: nat, i: nat, lo: nat, sum: real, count: nat)
    requires w > 0 && i < |speeds|
    requires lo == if i + 1 <= w then 0 else i + 1 - w
    requires WindowHolds(speeds, lo, i + 1, sum, count)
    ensures (if count == w then Some(sum / (w as real)) else InitialMean(speeds, w))
         == OrElse(RollingMeanAt(speeds, w, i), InitialMean(speeds, w))
  {
    var window := speeds[lo..i + 1];
    PresentCount(window);
    if count == w {
      PresentOfComplete(window);
    } else if i + 1 >= w {
      assert lo == i + 1 - w;
    }
  }

  /** Every row emitted so far is the reference row of raw row k * w. */
  ghost predicate EmittedSoFar(rows: seq<Reading>, w: nat, out: seq<SpeedSample>)
    requires w > 0
  {
    forall k :: 0 <= k < |out| ==> k * w < |rows| && out[k] == SampleAt(rows, w, k * w)
  }

  /** Emitting the reference row of raw row |out| * w keeps every emitted row in place. */
  lemma EmitStep(rows: seq<Reading>, w: nat, out: seq<SpeedSample>, i: nat, sample: SpeedSample)
    requires w > 0 && i < |rows| && i == |out| * w
    requires EmittedSoFar(rows, w, out) && sample == SampleAt(rows, w, i)
    ensures EmittedSoFar(rows, w, out + [sample]) && |out + [sample]| * w == i + w
  {
    MulSucc(|out|, w);
  }

  /** ceil(n / w) rows that are each the reference row for their index make up the SPEED table. */
  lemma SamplesAreAggregate(rows: seq<Reading>, w: nat, out: seq<SpeedSample>)
    requires w > 0
    requires |rows| <= |out| * w && (|out| == 0 || (|out| - 1) * w < |rows|)
    requires EmittedSoFar(rows, w, out)
    ensures out == Aggregate(rows, w)
  {
    CeilCount(|rows|, w, |out|);
    forall k | 0 <= k < |out|
      ensures out[k] == Aggregate(rows, w)[k]
    {
      AggregateAt(rows, w, k);
    }
  }

  /**
   * Moves the running window from speeds[lo..i] to the last min(i + 1, w) readings ending at
   * row i: the oldest reading leaves once the window is full, then reading i enters.
   */
  method Slide(rows: seq<Reading>, w: nat, i: nat, lo: nat, sum: real, count: int)
    returns (lo': nat, sum': real, count': int)
    requires w > 0 && i < |rows|
    requires lo == if i <= w then 0 else i - w
    requires WindowHolds(Speeds(rows), lo, i, sum, count)
    ensures lo' == if i + 1 <= w then 0 else i + 1 - w
    ensures WindowHolds(Speeds(rows), lo', i + 1, sum', count')
  {
    ghost var speeds := Speeds(rows);
    lo', sum', count' := lo, sum, count;
    if i >= w {
      WindowEvict(speeds, lo', i, sum', count');
      sum' := sum' - FillZero(rows[lo'].speed);
      count' := count' - (if rows[lo'].speed.Some? then 1 else 0);
      lo' := lo' + 1;
    }
    WindowAdmit(speeds, lo', i, sum', count');
    sum' := sum' + FillZero(rows[i].speed);
    count' := count' + (if rows[i].speed.Some? then 1 else 0);
  }

  /**
   * The single-pass variant: a running sum and count over the last w readings replace the
   * full trailing-mean column, and a row is emitted every w records.
   */
  method AggregateStreaming(rows: seq<Reading>, w: nat) returns (out: seq<SpeedSample>)
    requires w > 0
    ensures out == Aggregate(rows, w)
  {
    var initial := HeadMean(rows, w);

    // Before row i the window speeds[lo..i] holds the last min(i, w) readings.
    var sum, count := 0.0, 0;
    var lo, next := 0, 0;
    out := [];
    var i := 0;
    while i < |rows|
      invariant 0 <= i <= |rows|
      invariant lo == if i <= w then 0 else i - w
      invariant WindowHolds(Speeds(rows), lo, i, sum, count)
      invariant next == |out| * w && i <= next && (|out| == 0 || next - w < i)
      invariant EmittedSoFar(rows, w, out)
    {
      lo, sum, count := Slide(rows, w, i, lo, sum, count);
      if i == next {
        EmittedAverage(Speeds(rows), w, i, lo, sum, count);
        var average := if count == w then Some(sum / (w as real)) else initial;
        EmitStep(rows, w, out, i, SpeedSample(rows[i].time, average));
        out := out + [SpeedSample(rows[i].time, average)];
        next := next + w;
      }
      i := i + 1;
    }
    SamplesAreAggregate(rows, w, out);
  }
}
