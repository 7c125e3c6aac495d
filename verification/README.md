# Equipment activity and speed summaries, modelled in Dafny

This project models the data logic of a batch job. The job reads a time series of
heavy-equipment sensor records and produces two tables:

- **ACTIVITY**: the runs of the activity label that a trained classifier gives each record,
  each with start time, end time, activity and duration in seconds;
- **SPEED**: the engine speed averaged over five-minute windows and sampled every five
  minutes.

The model covers three stages and their wiring:

- **feature derivation** (`transform`, main.py:17-38): missing readings become 0, five pairs
  of opposite movement channels become one feature each, and ten columns are kept;
- **run-length segmenter** (`compute_results_activity`, main.py:60-85): one forward pass
  that closes the open run every time the label changes;
- **windowed speed aggregator** (`compute_results_speed`, main.py:88-112): a trailing mean
  over w records, kept at every w-th record, with undefined means filled by the mean of
  the first w speeds. The window w is a parameter, instantiated at 300 (`FIVE_MINUTES`);
- **pipeline** (main.py:42-56, 127-141): the classifier's labels are joined to the raw
  timestamps by position, and the raw engine speed feeds the aggregator.

Modules, one per file:

| file | module | content |
|---|---|---|
| optional.dfy | `Optional` | `Option`, filling a missing cell with 0 or with a fallback |
| stats.dfy | `Stats` | `Sum` and `Mean` over exact reals |
| features.dfy | `Features` | raw and feature rows, pair means, the row-wise transform |
| segmenter.dfy | `Segmenter` | the segmenter as a recursive function, its reference definition over change points, and a loop version |
| speed.dfy | `SpeedAggregator` | the aggregator as a composition (trailing mean, every w-th row, fill), a per-row reference, and a single-pass streaming version |
| pipeline.dfy | `Pipeline` | predicted table, SPEED and ACTIVITY tables from one raw table |

Timestamps are integer seconds. Activity labels are a type parameter. Speeds and sensor
values are exact reals. A missing value is `None`.

Behaviour of the code that the model keeps as it is:

- The segmenter's loop visits row 0 too (main.py:74-81). Row 0 never differs from the label
  it is compared with, which is its own, so it closes nothing.
- On labels A,A,B,B,B,A at times 0..5 the result is (0,2,A,2),(2,5,B,3): runs close at the
  record where the label changes, and the trailing A run is dropped
  (`Segmenter.WorkedExample`).
- The comment at main.py:106 speaks of filling the first missing average speed, but
  `fillna(initial_mean_speed)` at main.py:107 fills **every** kept row whose trailing mean
  is undefined, not only the first one. A missing speed anywhere in a later window
  therefore also yields the initial mean (`SpeedAggregator.MissingSpeedFallsBack`).
- The aggregator reads `raw_data`, not the zero-filled copy made inside `transform`, so its
  speeds may be missing. `head(w).mean()` skips missing values. `rolling(w).mean()` is
  undefined as soon as one of its w readings is missing. If every one of the first w
  speeds is missing, the fallback itself is undefined and the row stays `None`.

## Model

| member | source | states |
|---|---|---|
| Optional.FillZero | main.py:24 | fillna(0) on one cell: a missing reading reads as 0, a present one as itself |
| Optional.OrElse | main.py:107 | fillna(fallback) on one cell: a present value is kept, a missing one takes the fallback, which may itself be missing |
| Features.PairMean | main.py:27-31 | a pair feature is the midpoint of the two zero-filled channels: equidistant from both, between them, 0 when both are missing |
| Features.PairMeanIsMean | main.py:27-31 | a pair feature equals the arithmetic mean of the two filled channels |
| Features.TransformRow | main.py:24-34 | the five pass-through columns are the filled readings; each derived column is half the sum of its two named filled channels |
| Features.Transform | main.py:24-34 | the transformed table has exactly one row per raw row, and row i is the transformed raw row i, so rows stay aligned for the positional join |
| Features.TransformConcat | main.py:24-34 | the transform is row-wise: transforming two stretches and joining them gives the transform of the whole table |
| Features.AllMissingIsZero | main.py:24-34 | a raw row with every channel missing becomes a feature row of zeros |
| Segmenter.IsChange | main.py:76 | record i closes a run when it is not the first record and its label differs from the label of record i - 1, the label the loop carries from line 81 |
| Segmenter.ChangesFrom | main.py:74-76 | every listed index is at or after the start and is a record whose label differs from the previous one |
| Segmenter.ChangesFromComplete | main.py:74-76 | every label change at or after the start is listed |
| Segmenter.ChangesFromAscending | main.py:74 | the change points are listed in strictly ascending order, as the forward pass meets them |
| Segmenter.Scan | main.py:74-81 | the loop from record i on: a record whose label differs from the open run's label closes that run with (start, its timestamp, the run's label, timestamp - start) and opens the next run at its timestamp; each record's label becomes the one the next record is compared with |
| Segmenter.Segment | main.py:66-85 | record 0 opens the first run; the pass over every record, row 0 included, closes a run at each label change; the run still open at the end is never emitted |
| Segmenter.Closing | main.py:76-80 | the reference ACTIVITY table built from a list of change points has one interval per change point |
| Segmenter.ClosingFirst | main.py:76-80 | the first closed interval spans from the run start to the first change point |
| Segmenter.ScanClosesChanges | main.py:74-81 | from any record on, the pass emits exactly the reference intervals for the change points that remain |
| Segmenter.SegmentClosesChanges | main.py:66-85 | the segmenter's output equals the reference table built from all change points, starting at record 0's timestamp |
| Segmenter.SegmentLength | main.py:74-81 | the segmenter emits as many intervals as there are label changes |
| Segmenter.SegmentAt | main.py:70-81 | interval k runs from record 0, or from the previous change point, to the k-th change point, carries the label just before that change, and lasts end - start |
| Segmenter.IntervalPerChange | main.py:74-81 | there is one interval per change point, and an index is a change point exactly when its label differs from the previous record's |
| Segmenter.IntervalClosesAtChange | main.py:76-79 | interval k ends at the timestamp of the k-th change point, carries the label of the run it closes, and lasts end - start |
| Segmenter.IntervalsContiguous | main.py:70-80 | the first interval opens at record 0's timestamp, every later one where the previous one closed |
| Segmenter.SteadyRun | main.py:81 | without a change point in between, the label at the end of a stretch is the label at its start |
| Segmenter.NoChangeBetween | main.py:74-80 | no label change lies strictly between two consecutive change points, nor between record 0 and the first change point |
| Segmenter.IntervalIsRun | main.py:74-81 | interval k is one run: every record from the one that opens it (record 0 or the previous change point) up to, not including, the one that closes it carries interval k's activity |
| Segmenter.ConsecutiveActivitiesDiffer | main.py:79-81 | consecutive intervals carry different activities |
| Segmenter.SteadyHasNoChanges | main.py:74-76 | a stretch without label changes has no change points |
| Segmenter.UniformLabelsYieldNothing | main.py:70-81 | a table with one label throughout, one record included, gives an empty ACTIVITY table: the trailing run is dropped |
| Segmenter.IntervalOpensBefore | main.py:71-80 | interval k opens at record 0 or at the previous change point, strictly before its own change point |
| Segmenter.DurationsPositive | main.py:77-78 | with strictly increasing timestamps every duration is positive |
| Segmenter.WorkedExample | main.py:60-85 | labels A,A,B,B,B,A at times 0..5 give (0,2,A,2) and (2,5,B,3), and the trailing A is dropped |
| Segmenter.SegmentLoop | main.py:66-85 | the loop with a list of closed intervals computes exactly the functional segmenter |
| SpeedAggregator.InitialMean | main.py:97 | the mean of the present speeds among the first min(w, n) readings, missing ones skipped; undefined when none of them is present |
| SpeedAggregator.RollingMeanAt | main.py:100 | the trailing mean at row i over the w readings ending at i; undefined for the first w - 1 rows and whenever one of those w readings is missing |
| SpeedAggregator.SampleAt | main.py:97-107 | the reference SPEED value for raw row i: its timestamp, with its trailing mean when that is defined and the initial mean otherwise |
| SpeedAggregator.KeptIndex | main.py:103 | index k * w lies inside an n-row table exactly when k is below ceil(n / w) |
| SpeedAggregator.Downsample | main.py:103 | keeping every w-th element leaves ceil(n / w) of them |
| SpeedAggregator.DownsampleAt | main.py:103 | the k-th kept element is the element at index k * w |
| SpeedAggregator.Aggregate | main.py:88-112 | the SPEED table has ceil(n / w) rows |
| SpeedAggregator.AggregateAt | main.py:97-107 | SPEED row k is the reference row of raw row k * w: its timestamp, and its trailing mean or else the initial mean |
| SpeedAggregator.KeptRows | main.py:103-111 | SPEED rows are the raw rows at 0, w, 2w, ..., in order, keyed by their timestamps, ceil(n / w) of them |
| SpeedAggregator.CompleteWindowMean | main.py:100 | a row whose w trailing speeds are all present gets their mean |
| SpeedAggregator.MissingInWindow | main.py:100-107 | a row with a missing speed among its w trailing readings gets the initial mean |
| SpeedAggregator.TrailingMean | main.py:100-103 | for k >= 1 with the w speeds ending at k * w present, SPEED row k is the mean of those w speeds |
| SpeedAggregator.MissingSpeedFallsBack | main.py:100-107 | a missing speed among the w ending at k * w makes SPEED row k the initial mean |
| SpeedAggregator.FirstSample | main.py:97-107 | raw row 0 reads the initial mean, also for w = 1 |
| SpeedAggregator.FirstRow | main.py:97-107 | SPEED row 0 exists, is keyed by the first timestamp, and holds the mean of the present speeds among the first min(w, n); if none of them is missing, their plain mean |
| SpeedAggregator.ConstantHead | main.py:97 | on a table of constant speed c the mean of the first min(w, n) speeds is c |
| SpeedAggregator.ConstantWindow | main.py:100 | on a table of constant speed c every defined trailing mean is c |
| SpeedAggregator.ConstantSample | main.py:97-107 | on a table of constant speed c every row reads c |
| SpeedAggregator.ConstantRow | main.py:97-107 | on a table of constant speed c, SPEED row k reads c |
| SpeedAggregator.ConstantSpeed | main.py:97-107 | a constant engine speed c gives c in every SPEED row |
| SpeedAggregator.TenMinutesAtTen | main.py:97-111 | 600 records at speed 10 give two SPEED rows, both 10 |
| SpeedAggregator.HeadMean | main.py:97 | one pass over the first min(w, n) speeds computes the mean of the present ones, undefined if there are none |
| SpeedAggregator.EmittedAverage | main.py:100-107 | a running sum and count over the last w readings give the filled trailing mean |
| SpeedAggregator.Slide | main.py:100 | one step moves the running window to the last min(i + 1, w) readings, keeping sum and count of the present ones |
| SpeedAggregator.AggregateStreaming | main.py:88-112 | the single-pass version emits exactly the SPEED table |
| Pipeline.Predict | main.py:50-55 | the predicted table has one row per raw row, with that row's timestamp and the classifier's label for it |
| Pipeline.Readings | main.py:94 | the aggregator sees each raw row's timestamp and engine speed, missing speeds left missing |
| Pipeline.SpeedTable | main.py:141 | the SPEED table is the aggregator with a window of 300 records (five minutes) over each raw row's timestamp and engine speed |
| Pipeline.ActivityTable | main.py:145 | the ACTIVITY table of a non-empty raw table is the segmenter applied to its predicted table |
| Pipeline.SpeedTableKeys | main.py:103-111 | the SPEED table has ceil(n / 300) rows, keyed by the timestamps of records 0, 300, 600, ... |
| Pipeline.SpeedTableReadsEngineSpeedOnly | main.py:94 | two raw tables that agree on timestamps and engine speed give the same SPEED table |
| Pipeline.ActivityEndsAtLabelChange | main.py:76-79 | every ACTIVITY row ends at the timestamp of a raw record whose label differs from the previous one, and carries the previous label |
| Pipeline.LabelChangeEndsActivity | main.py:74-79 | every label change closes an ACTIVITY row at that record's timestamp, carrying the previous label |
| Pipeline.ConstantClassifierYieldsNoActivity | main.py:70-81 | a classifier giving one label to every row leaves the ACTIVITY table empty |

## Left out

- Reading the CSV and the top-level script (main.py:127-150): file I/O. Timestamps are
  taken as integer seconds. `parse_dates=True` at main.py:129 parses only the index, so the
  type of the timestamp column depends on the file.
- The trained classifier loaded with joblib (main.py:48-51): opaque. It is the parameter
  `classify`, and `Pipeline.OneLabelPerRow` demands one label per row, as a scikit-learn
  `predict` returns. With another length, the left join at main.py:55 would pad or drop
  labels; that case is not modelled.
- Z-score normalisation (main.py:37): floating-point mean, standard deviation and square
  root, with a division by zero on a constant column. The classifier parameter stands for
  the normalisation and the model together.
- `write_to_db` (main.py:115-123): SQLite persistence.
- Missing timestamps: not modelled, timestamps are always present integers. main.py:107
  would fill a missing timestamp of a kept row with the initial mean speed, and main.py:78
  would give a missing duration.
- The progress bar and warning suppression (main.py:13-14, 74), and the console messages.
- SpeedAggregator.Aggregate: means are exact reals and are not rounded to five decimals
  (main.py:97, 104); all contracts about SPEED values hold before rounding.
- Segmenter.Segment: requires a non-empty table, because main.py:70-71 read row 0 and fail
  on an empty table; that failure is not modelled.
- Features.Transform: channels are reals; a non-numeric cell in the file is not modelled.
- The segmenter is modelled as written and drops the run still open after the last record.
  A variant that also closes the final run is not part of this model.
