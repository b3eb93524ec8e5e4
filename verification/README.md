# Noise dashboard and sensor writer, modelled in Dafny

This project models the two halves of a small noise-monitoring system.

**The dashboard (`application.py`).** Loaded rows carry an epoch-second `time` and a
`db_level`. The dashboard derives each row's calendar `month` and `day` five
hours behind UTC. It offers the distinct days as selector options labelled
`"Day <d>"` and keeps a selection only while its day is still offered. The
gauge shows the maximum level of the selected day, or 0 when that day has no
records. The heatmap shows, for every month and day with a record at or above
a decibel threshold, the maximum such level, and 0 where a month and day have
none.

**The sensor writer (`read_write_sensor_data.py`).** It inserts batches of
`(timestamp, value)` rows into a table keyed by timestamp with
`INSERT OR IGNORE`. Its sampling loop appends one reading per iteration and
commits the batch once it holds 100 readings.

Modules:

- `Wrappers`: `Option`.
- `Seqs`: the sequence building blocks the data-frame operations reduce to:
  - `unique()` as `Distinct`, in first-appearance order;
  - `max` as `MaxOf`;
  - the ascending index of a pivot as `SortedDistinct`.
- `Text`: Python's `str` of an integer, its parse back, and the label
  `prefix + str(n)`.
- `Civil`: epoch days to proleptic Gregorian dates and back, and the
  five-hour shift.
- `Dashboard`: the callbacks' data logic over a snapshot of records.
  Boolean-mask filtering is `Select`, which keeps the records of a group:
  the selected day, the records at or above the threshold, or one heatmap
  cell.
- `SensorStore`: the table as `map<int, real>` and `insert_batch`.
- `Sampler`: the sampling loop as a step function folded over a finite
  sequence of readings.

## Model

| member | source | states |
|---|---|---|
| Civil.LocalDate | application.py:35 | The local date of `time - 5h` is a valid calendar date, and `time - 18000` falls within that date's 86400-second day. |
| Civil.DateOf | application.py:35 | Every day number, before or after 1970, names exactly one valid proleptic Gregorian date, and that date's day number is the input. |
| Civil.DateOfDayNumber | application.py:136-137 | Converting a valid date to its day number and back gives the same date. |
| Civil.DayNumberInjective | application.py:136-137 | Two valid dates with the same day number are equal, so `day` and `month` are well defined. |
| Civil.LocalDateUnique | application.py:35 | An instant has exactly one local date: two valid dates whose days both contain `time - 5h` are equal. |
| Dashboard.Derive | application.py:135-137 | A derived record keeps `time` and `db_level`. Its `month` and `day` are those of a valid date whose 86400-second day contains `time - 5h`. |
| Dashboard.DeriveUnique | application.py:135-137 | Every valid date whose day contains `time - 5h` has the derived month and day, so the derived fields are the local date's and no other. |
| Dashboard.DayOptions | application.py:138-139 | Every day of the records has exactly one option. The options appear in order of first appearance, and each label is "Day " followed by the option's value. |
| Dashboard.RefreshSnapshot | application.py:134-140 | There is one record per loaded row, each the derived record of its row, and the options are the day options of those records. |
| Dashboard.RefreshSnapshotSpec | application.py:134-140 | Every record keeps its row's time and level and carries the month and day of the local date of `time - 5h`. The options are labelled "Day " followed by the value, without repeats, in order of first appearance. |
| Dashboard.RefreshOptionDays | application.py:138-139 | The options offer exactly the days that occur among the loaded rows. |
| Dashboard.DayOptionLabelsDistinct | application.py:139 | No two options share a label. |
| Dashboard.ReconcileSelection | application.py:147-156 | The result is None when there are no options. The current value is kept exactly when it is one of the option values. Otherwise the result is None. |
| Dashboard.ReconcileKeepsRecordedDays | application.py:138-156 | Against a snapshot's options, a selected day survives exactly when some record falls on it; otherwise the selection is cleared. |
| Dashboard.ReconcileIdempotent | application.py:147-156 | Reconciling twice gives the same result as reconciling once. |
| Dashboard.Select | application.py:207 | The selection keeps exactly the records of the group, as the boolean masks of the gauge and the heatmap do, and never makes the sequence longer. |
| Dashboard.SelectSingle | application.py:207 | A single record is kept exactly when it is in the group. |
| Dashboard.SelectAppend | application.py:207 | Selecting from two stretches of records is selecting from each and joining the results in order, so the mask keeps the records' order and repeats. |
| Dashboard.MaxLevelOrZero | application.py:171-176 | The result is 0 when no record matches. Otherwise it is at least every matching level and equals one of them. |
| Dashboard.Gauge | application.py:171-176 | The gauge is 0 for no selection or a day without records. Otherwise it is the maximum level of that day's records. |
| Dashboard.Qualifying | application.py:207 | The result keeps exactly the records whose level is at or above the threshold. |
| Dashboard.QualifyingAppend | application.py:207 | The filter keeps the loaded order and repeats: the qualifying records of two stretches are those of the first followed by those of the second, and one record qualifies exactly when its level is at or above the threshold. |
| Dashboard.CellMax | application.py:207-211 | A cell is the maximum level of the qualifying records of its month and day, or 0 when there are none. It is therefore 0 or at least the threshold. |
| Dashboard.UniqueMonths | application.py:208 | The result lists each month with a qualifying record exactly once, in order of first appearance. |
| Dashboard.UniqueDays | application.py:209 | The result lists each day with a qualifying record exactly once, in order of first appearance. |
| Dashboard.MonthAxis | application.py:210-211 | The pivot's rows are the months with a qualifying record, in strictly ascending order. |
| Dashboard.DayAxis | application.py:210-211 | The pivot's columns are the days with a qualifying record, in strictly ascending order. |
| Dashboard.GridSpec | application.py:210-212 | `Grid`, the pivot with `fillna(0)`: one row per month and one column per day. Each entry is that month's and day's cell maximum, filled with 0, so it is 0 or at least the threshold. |
| Dashboard.HeatmapOfSpec | application.py:207-219 | `HeatmapOf`, the heatmap callback as written: the matrix's rows and columns are the ascending axes, and every cell is its cell maximum. There are as many month labels as rows and as many day labels as columns. |
| Dashboard.HeatmapLabelsSpec | application.py:208-219 | The month and day labels name exactly the qualifying months and days, and no two rows and no two columns share a label. |
| Dashboard.AxesAsLongAsUniques | application.py:208-211 | The sorted axes and the first-appearance lists have the same length. |
| Dashboard.LabelsMembership | application.py:218-219 | A label appears in a label list exactly when its number is in the underlying list. |
| Dashboard.LabelsNoDuplicates | application.py:218-219 | Distinct numbers give distinct labels. |
| Dashboard.HeatmapLabelsMisaligned | application.py:208-219 | For any two qualifying records where the first has the earlier month but the later day, and any positive threshold, the as-written heatmap puts some cell under labels that do not name its month and day. |
| Dashboard.AlignedHeatmapSpec | application.py:210-219 | `AlignedHeatmap`, the heatmap labelled from its own axes: it has the matrix of `HeatmapOf`, and its labels name exactly the qualifying months and days. |
| Dashboard.AlignedHeatmapAligned | application.py:210-219 | Every cell of the aligned heatmap lies under the labels of its own month and day. |
| Text.NatToString | application.py:139 | `str` of a natural number is a non-empty digit string without leading zeros, and it has one digit exactly below 10. |
| Text.IntToString | application.py:139 | `str` of an integer is non-empty and starts with a minus sign exactly when the integer is negative. |
| Text.IntToStringRoundTrip | application.py:139 | Parsing `str(n)` gives back `n`, for negative numbers too. |
| Text.IntToStringInjective | application.py:139 | Different integers have different strings. |
| Text.LabelInjective | application.py:218-219 | The same prefix with different numbers gives different labels. |
| Text.LabelRoundTrip | application.py:139 | A label `prefix + str(n)` starts with the prefix, and parsing the rest gives back `n`. |
| Seqs.Distinct | application.py:138 | `unique().tolist()` keeps every element once, has no repeats, and keeps the order of first appearance. |
| Seqs.MaxOf | application.py:176 | The maximum of a non-empty sequence is one of its elements and bounds every element. |
| Seqs.SortedDistinct | application.py:211 | The pivot index holds every value of the column once, in strictly ascending order. |
| Seqs.SortedDistinctUnique | application.py:211 | Any strictly increasing sequence with the same values is that index. |
| Seqs.StrictlyIncreasingUnique | application.py:211 | Two strictly increasing sequences with the same elements are equal. |
| SensorStore.InsertBatchSpec | read_write_sensor_data.py:18-27 | `InsertBatch`, i.e. `insert_batch`: stored values never change. The new key set is the old one plus the batch timestamps. A new timestamp takes the value of its first row in the batch. The count is the number of distinct batch timestamps not stored before. |
| SensorStore.InsertOrIgnoreSpec | read_write_sensor_data.py:22-24 | `InsertOrIgnore`, one `INSERT OR IGNORE`: the row's timestamp is stored afterwards, a stored value is never overwritten, no other key changes, and the count grows by one exactly when the timestamp was new. |
| SensorStore.InsertBatchIdempotent | read_write_sensor_data.py:30-34 | Inserting the same batch again leaves the table unchanged and reports 0 rows. |
| SensorStore.InsertBatchConcat | read_write_sensor_data.py:22-25 | Inserting two batches one after the other gives the same table as inserting their concatenation, and the two counts add up to its count. |
| SensorStore.InsertFreshBatchCount | read_write_sensor_data.py:22-27 | A batch of distinct timestamps that are not yet stored reports its full length. |
| SensorStore.ExampleBatchReplay | read_write_sensor_data.py:30-34 | The example batch inserts 3 rows into an empty table, and its replay inserts 0. |
| Sampler.Step | read_write_sensor_data.py:42-50 | After an iteration the batch holds fewer than 100 readings, and it is empty exactly when the 100th reading arrived. Otherwise the reading is appended and the table is untouched. Stored values are kept, and every pending or new reading is still pending or stored. |
| Sampler.Run | read_write_sensor_data.py:38-50 | Over any finite run the batch stays below 100, stored values are kept, and every reading is pending or has its timestamp stored. |
| Sampler.FlushedCount | read_write_sensor_data.py:44 | The committed count is a multiple of 100, at most the number of readings seen, and within 100 of it, so it is the largest such multiple. |
| Sampler.RunCommitsWholeBatches | read_write_sensor_data.py:38-50 | After any run, the table is the insert of the longest prefix whose length is a multiple of 100, and the batch holds exactly the rest. |
| Sampler.FreshRunStoresCompleteBatches | read_write_sensor_data.py:38-50 | From an empty start, every reading outside the final partial batch has its timestamp in the table. |

## Left out

- Layout, callback wiring, `dcc.Store`, the refresh interval and the Plotly figures (application.py:41-119, 178-193, 214-225): these are user interface.
- `PreventUpdate` when the stored data is empty (application.py:166-167, 202-203): the model's gauge and heatmap are total functions. An empty snapshot gives 0 and an empty heatmap where the dashboard would keep its previous figure.
- CSV loading and the commented-out S3 loader (application.py:11-36): the model takes the loaded rows as input. Only the `time - 5h` conversion to a date is modelled.
- pandas' datetime range and float NaN: times are unbounded integers and levels are exact reals. The range limit of `to_datetime` and NaN comparisons are not modelled.
- The heatmap threshold `None` (the slider's initial value, application.py:101): pandas raises on `>= None`, so the threshold is always a number in the model.
- A missing options list in the selector: it is modelled as the empty sequence, which the source treats the same way.
- sqlite's connection, cursor, commit, `print` and table creation (read_write_sensor_data.py:5-15, 26-27): the table is a `map<int, real>`. `NOT NULL` holds by construction, since a value is always a real.
- The sensor read, `time.time()` and the pacing sleep (read_write_sensor_data.py:40-41, 52): readings arrive as inputs.
- Sampler.Run: models finitely many iterations of the unbounded `while True` loop, folded over any finite sequence of readings.
- The commented-out queue and thread writer (read_write_sensor_data.py:54-69): this is concurrency.
- There is no admission threshold and no flush on shutdown in read_write_sensor_data.py: every reading is batched, and a partial batch is never flushed.
- The writer keys by milliseconds (`int(time.time() * 1000)`), while the dashboard reads `time` as seconds. The two halves are modelled separately, each with its own unit.

## Findings

| source | as written | input that shows it | evidently intended | confidence | as-written member | corrected member |
|---|---|---|---|---|---|---|
| application.py:208-212, 218-219 | The axis labels list months and days in order of first appearance, but the pivoted matrix orders its rows and columns ascending. | Any two qualifying records where the first has the earlier month but the later day, such as May 31 at 80 dB and June 1 at 90 dB with threshold 70: the day labels are "Day 31", "Day 1", but the columns are days 1 and 31. | Each label names the month or day of its own row or column. | not executed | Dashboard.HeatmapLabelsMisaligned | Dashboard.AlignedHeatmapAligned |
