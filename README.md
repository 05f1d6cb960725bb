# Taxi demand forecaster: data preparation core

This project models the data-preparation path of a daily taxi-demand
forecaster in Dafny and proves properties of that model. The path starts with
the loaded trip records. The rows are filtered to the window from 2024-01-01
(inclusive) to 2025-02-01 (exclusive), cleaned and aggregated into a daily
`(ds, y)` series. The last 30 points of that series are held out as the test
set.

Modules, one per source file or concern:

- `Wrappers` (`wrappers.dfy`): `Option` and `Result`. A pandas NaN or NaT is
  `None`, and an exception is a `Failure`.
- `Stats` (`stats.dfy`): the pandas statistics the cleaning calls.
  - `Median` takes the present values, which `Trips.Present` extracts from a
    column, and averages the two middle values of an even count.
  - `Quantile` is linear interpolation at rank `(n-1)*q`.
  - `Mode` is `mode()[0]`: the smallest of the most frequent values.
- `Trips` (`trips.dfy`): the trip record and its columns.
  - Pickup times are whole seconds since 1970-01-01.
  - The seven numeric columns are reals.
  - `store_and_fwd_flag` is a character.
- `Preprocessing` (`preprocessing.dfy`): the four cleaning passes of
  `src/preprocessing.py`.
  - Each pass is a method that rewrites an `array<Trip>` in place, column by
    column. The source changes the frame in place too.
  - Each method is proved equal to a function on sequences: `ApplyColumns`,
    `FillCategorical` or `Preprocess`.
- `CleaningProperties` (`cleaning_properties.dfy`): what the cleaning
  guarantees, stated on those functions.
- `Aggregation` (`aggregation.dfy`): `aggregate_daily` and `aggregate_hourly`.
  They group pickups by day number or by start of hour, count each group and
  sort by key.
- `Evaluation` (`evaluation.dfy`): `train_test_split_prophet`.
  - A sort by `ds` comes first.
  - Then comes the Python slice pair `[:-k]` / `[-k:]`, including Python's
    rules for `k = 0`, for negative `k` and for `k` beyond the length.
- `Pipeline` (`pipeline.dfy`): the order of stages in `main.py`.
  - The date filter comes first, then `preprocess_data`, then
    `aggregate_daily`.
  - Then `pd.to_datetime` turns each day number into its midnight.
  - Last comes the split with `test_size = 30`.

Things the model makes explicit:

- `trip_distance` is scrubbed of negatives and capped, but it is not in the
  median-filled list. A negative or missing distance therefore stays missing
  through the whole pipeline (`PreprocessDistanceNotImputed`).
- `fare_amount` and `total_amount` are scrubbed before they are filled. Their
  fill value is therefore the median of the non-negative values only
  (`ImputedFromNonNegatives`).
- The only way the cleaning can fail is `mode()[0]` on a flag column with no
  value in it. Then every row in the window lacks the flag
  (`PipelineFailsIffNoFlag`).
- The daily series has a point only for days with at least one trip. Gaps
  are not filled with zero.
- Dafny's `/` floors for a positive divisor. That matches `.dt.date` and
  `.dt.floor('h')` for pickups before 1970 as well.

## Model

| member | source | states |
|---|---|---|
| Stats.SortReals | src/preprocessing.py:44-45 | The result is sorted, has the same length as the input and is a permutation of it (multiset equality). |
| Stats.InsertSortedSorted | src/preprocessing.py:44-45 | Inserting a value into a sorted sequence keeps it sorted. |
| Stats.Median | src/preprocessing.py:17 | There is a median iff at least one value is present. `Series.median()` on an all-NaN column gives NaN. |
| Stats.MedianBetweenValues | src/preprocessing.py:17 | The median lies between two of the values: some value is at most the median and some value is at least it. |
| Stats.Quantile | src/preprocessing.py:44-45 | For a level in [0, 1], there is a quantile iff at least one value is present. |
| Stats.QuantileBetweenValues | src/preprocessing.py:44-45 | The interpolated quantile is bounded below and above by values of the column. |
| Stats.QuantileMonotone | src/preprocessing.py:44-45 | A lower level never gives a higher quantile. This is why the 1% bound never exceeds the 99% bound. |
| Stats.MedianIsHalfQuantile | src/preprocessing.py:17 | The median is the 0.5 quantile. This holds for every input, the empty one included. |
| Stats.Mode | src/preprocessing.py:30 | A mode exists iff the input is non-empty. It occurs in the input, no value is more frequent, and it is the smallest of the equally frequent values, which is `mode()[0]`. |
| Trips.Set | src/preprocessing.py:18 | Writing one cell changes that column of the row and no other column, the pickup time or the flag. |
| Trips.ReplaceColumn | src/preprocessing.py:18 | Replacing a column gives a frame of the same length whose column is the new one. Pickups and flags are unchanged. |
| Trips.ReplaceColumnKeepsOthers | src/preprocessing.py:46 | Replacing one column leaves every other numeric column as it was. |
| Trips.ReplaceCatColumn | src/preprocessing.py:31 | Replacing the flag column keeps the length, every numeric column and every pickup, and installs the new flags. |
| Trips.Present | src/preprocessing.py:17 | `dropna`: the present values are exactly the values `v` with `Some(v)` in the column, and there are no more of them than cells. |
| Trips.PresentCounts | src/preprocessing.py:17 | Each value occurs among the present values exactly as often as `Some` of it occurs in the column. |
| Preprocessing.NonNegatives | src/preprocessing.py:59 | The values kept are exactly the non-negative ones, each as often as it occurs in the input. A negative value is not kept at all. |
| Preprocessing.ScrubCell | src/preprocessing.py:59 | A cell ends up missing iff it was missing or negative. A cell that stays present keeps its value, which is non-negative. |
| Preprocessing.ScrubNegatives | src/preprocessing.py:59 | On one column: a negative value becomes missing, every other cell is unchanged, and no negative value remains. |
| Preprocessing.FillWithMedian | src/preprocessing.py:17-18 | `fillna` never changes a present value. |
| Preprocessing.ClipCell | src/preprocessing.py:46 | `clip` keeps whether a cell is present. With ordered bounds the value lands between them, and a value already between them is unchanged. |
| Preprocessing.CapBounds | src/preprocessing.py:44-45 | Bounds exist iff the column has a present value, and then the lower bound is at most the upper bound. |
| Preprocessing.CapSeries | src/preprocessing.py:44-46 | `cap_outliers` on one column keeps its length. What it does to each cell is stated by `CleaningProperties.CapSeriesSpec`, and that it is not idempotent by `CleaningProperties.CapNotIdempotent`. |
| Preprocessing.FillWithMode | src/preprocessing.py:30-31 | On success the column keeps its length. Failure, the mode and the filled cells are stated by `CleaningProperties.FillWithModeSpec`. |
| Preprocessing.Transform | src/preprocessing.py:18 | A column operation (scrub, median fill or clip) keeps the column's length. |
| Preprocessing.ApplyColumn | src/preprocessing.py:18 | Assigning a transformed column keeps the row count. |
| Preprocessing.ApplyColumns | src/preprocessing.py:16-18 | A loop of column assignments keeps the row count, every pickup and the flags. Which columns change, and how, is stated by `CleaningProperties.ColumnAfterPasses` and `CleaningProperties.ColumnAfterScrubs`. |
| Preprocessing.FillCategoricalColumn | src/preprocessing.py:30-31 | No contract of its own. `CleaningProperties.CategoricalStep` states that it succeeds iff the flag column has a mode, and then changes only the flags. |
| Preprocessing.FillCategorical | src/preprocessing.py:29-31 | No contract of its own. `FillCategoricalExtend` and `FailureSticks` state its loop, and `FillMissingCategorical` ties the method to it. |
| Preprocessing.Scrubbed | src/preprocessing.py:74 | No contract of its own. `CleaningProperties.ScrubbedColumn` states each of its columns. |
| Preprocessing.Imputed | src/preprocessing.py:85 | No contract of its own. `CleaningProperties.ImputedColumn` states each of its columns. |
| Preprocessing.Preprocess | src/preprocessing.py:62-95 | No contract of its own. `CleaningProperties.PreprocessShape`, `PreprocessFailsIffNoFlag`, `PreprocessNoNegatives`, `PreprocessFlagPresent`, `ImputedFromNonNegatives` and `PreprocessDistanceNotImputed` state what it promises. |
| Preprocessing.MaskNegatives | src/preprocessing.py:59 | The loop over the array leaves exactly `ApplyColumn(old, Scrub, c)`. |
| Preprocessing.RemoveNegativeValues | src/preprocessing.py:49-60 | After the loop over `cols`, the frame is `ApplyColumns(old, Scrub, cols)`. |
| Preprocessing.AssignColumn | src/preprocessing.py:18 | The array afterwards is the old frame with column `c` replaced. |
| Preprocessing.FillMissingNumeric | src/preprocessing.py:8-19 | After the loop over `numeric_cols`, the frame is `ApplyColumns(old, FillMedian, cols)`. |
| Preprocessing.AssignCatColumn | src/preprocessing.py:31 | The array afterwards is the old frame with the flag column replaced. |
| Preprocessing.FillMissingCategorical | src/preprocessing.py:21-32 | Returns true iff `FillCategorical` succeeds, and then the frame is its value. On false, the columns before the failing one are filled and the failing column has no mode, which is where `mode()[0]` raises. |
| Preprocessing.FillCategoricalExtend | src/preprocessing.py:29-31 | One more iteration of the categorical loop applies `FillCategoricalColumn` to the frame so far. |
| Preprocessing.FailureSticks | src/preprocessing.py:29-31 | Once a column fails, the whole categorical pass fails. A raise ends the loop. |
| Preprocessing.CapOutliers | src/preprocessing.py:34-47 | The frame afterwards is the old frame with column `c` clipped to its own quantiles at the two levels. |
| Preprocessing.CapColumns | src/preprocessing.py:92-93 | After the capping loop, the frame is `ApplyColumns(old, Cap(0.01, 0.99), cols)`. |
| Preprocessing.PreprocessData | src/preprocessing.py:62-95 | Runs the four passes in the source's order. Returns true iff `Preprocess` succeeds, and then the array holds its value. On failure, the array holds the scrubbed and median-filled frame that the raise leaves behind. |
| CleaningProperties.PresentNonEmpty | src/preprocessing.py:17 | A column has a present cell iff its list of present values is non-empty. |
| CleaningProperties.ScrubIdempotent | src/preprocessing.py:59 | Scrubbing twice is scrubbing once. |
| CleaningProperties.ScrubbedPresent | src/preprocessing.py:59 | The present values after scrubbing are the non-negative present values, in order. |
| CleaningProperties.FillCells | src/preprocessing.py:18 | `fillna(v)` leaves no cell missing when `v` is present. It changes nothing when `v` is missing or when no cell is missing. |
| CleaningProperties.FillWithMedianSpec | src/preprocessing.py:17-18 | With a present value: the median exists, every cell ends up present, and each missing cell becomes the median of the present values. With none, the column is unchanged. |
| CleaningProperties.FillWithMedianAtLeast | src/preprocessing.py:17-18 | A lower bound on the present values still holds after filling. |
| CleaningProperties.FillWithMedianIdempotent | src/preprocessing.py:17-18 | Filling a filled column changes nothing. |
| CleaningProperties.FillWithModeSpec | src/preprocessing.py:30-31 | Fails iff no flag is present. Otherwise every cell is present, present flags are kept, and missing ones become the mode: the smallest of the most frequent present flags. |
| CleaningProperties.FillWithModeTotal | src/preprocessing.py:30-31 | Fails iff no flag is present. After success no cell is missing. |
| CleaningProperties.CapSeriesSpec | src/preprocessing.py:44-46 | Capping keeps which cells are missing, puts every value between the bounds and leaves values already inside them unchanged. It keeps the order between any two values, and leaves a column with no value as it is. |
| CleaningProperties.CapKeepsPresence | src/preprocessing.py:46 | `clip` neither fills a missing cell nor empties a present one. |
| CleaningProperties.CapBoundsAreQuantiles | src/preprocessing.py:44-45 | The clip bounds are the two quantiles of the present values. |
| CleaningProperties.CapSeriesAtLeast | src/preprocessing.py:46 | A lower bound on the present values still holds after clipping. |
| CleaningProperties.CapBoundsAtLeast | src/preprocessing.py:44-45 | A lower bound on the present values is also a lower bound on the lower clip bound. |
| CleaningProperties.CapTwoValues | src/preprocessing.py:44-46 | At levels 0.01 and 0.99, a column holding two values `a <= b` becomes `a + (b-a)/100` and `b - (b-a)/100`. |
| CleaningProperties.CapNotIdempotent | src/preprocessing.py:92-93 | Capping a capped column with two distinct values changes it again, because the quantiles are taken afresh on each call. |
| CleaningProperties.ColumnAfterPasses | src/preprocessing.py:58-59 | After a per-column pass over a list without duplicates, a listed column is transformed on its own values and any other column is untouched. |
| CleaningProperties.ColumnAfterScrubs | src/preprocessing.py:58-59 | After `remove_negative_values` over any list, duplicates included, a listed column is scrubbed once and any other column is untouched. |
| CleaningProperties.RemoveNegativesSpec | src/preprocessing.py:49-60 | Row by row: the length and pickups are kept. In the listed columns a negative value becomes missing, other cells are kept and no negative remains. Columns not listed are unchanged. |
| CleaningProperties.RemoveNegativesIdempotent | src/preprocessing.py:49-60 | `remove_negative_values` applied twice equals applying it once, for any list of columns. |
| CleaningProperties.ImputedColumn | src/preprocessing.py:74-85 | After steps 1-2 each column is scrubbed if it is in the negative list and then median-filled if it is in `numeric_cols`. |
| CleaningProperties.ScrubbedColumn | src/preprocessing.py:74 | After step 1 a column of the negative list is scrubbed and every other column is unchanged. |
| CleaningProperties.CategoricalStep | src/preprocessing.py:88-89 | The categorical step succeeds iff the flag column has a mode. It then changes only the flags, to the mode fill. |
| CleaningProperties.CappedColumn | src/preprocessing.py:92-93 | When some row has a flag, each output column is the capped imputed column for `trip_distance`, `fare_amount` and `total_amount`, and the imputed column otherwise. |
| CleaningProperties.PreprocessShape | src/preprocessing.py:62-95 | Success iff the raw flag column has a mode. On success the row count and every pickup are kept, and the flags are the mode fill of the raw flags. |
| CleaningProperties.PreprocessFailsIffFlagsMissing | src/preprocessing.py:30 | `preprocess_data` raises iff no row has a flag. |
| CleaningProperties.PreprocessFailsIffNoFlag | src/preprocessing.py:30 | `preprocess_data` raises iff every row has a missing `store_and_fwd_flag`. |
| CleaningProperties.FlaggedSucceeds | src/preprocessing.py:30 | If some row has a flag, `preprocess_data` does not raise. |
| CleaningProperties.SucceedsFlagged | src/preprocessing.py:30 | If `preprocess_data` does not raise, some row had a flag. |
| CleaningProperties.PreprocessKeepsRows | src/preprocessing.py:62-95 | When some row has a flag, cleaning succeeds, drops no row and changes no pickup time. |
| CleaningProperties.ScrubbedColumnStaysNonNegative | src/preprocessing.py:74 | When some row has a flag, a column of the negative list has no negative value in the output, even after filling and capping. |
| CleaningProperties.NonNegativeThroughCleaning | src/preprocessing.py:74-93 | On one column: after scrubbing, an optional median fill and capping, no negative value remains. |
| CleaningProperties.PreprocessNoNegatives | src/preprocessing.py:74 | When some row has a flag, no output row has a negative distance, fare or total. |
| CleaningProperties.PreprocessFlagColumn | src/preprocessing.py:88-89 | When some row has a flag, every flag in the output is present. |
| CleaningProperties.PreprocessFlagPresent | src/preprocessing.py:88-89 | When some row has a flag, every output row has one. |
| CleaningProperties.NumericColumnPresent | src/preprocessing.py:85 | A column with one usable value is fully present after filling and after capping. |
| CleaningProperties.ImputedColumnPresent | src/preprocessing.py:85 | When some row has a flag, a `numeric_cols` column with one usable raw value has no missing cell in the output. |
| CleaningProperties.PreprocessDistanceColumn | src/preprocessing.py:74-93 | When some row has a flag, the output distance column is the raw one, scrubbed and capped, never median-filled. |
| CleaningProperties.ImputedDistance | src/preprocessing.py:74-85 | After steps 1-2 the distance column is just the scrubbed one. |
| CleaningProperties.ScrubCapPresence | src/preprocessing.py:59 | After scrubbing and capping, a cell is present iff it was present and non-negative. |
| CleaningProperties.PreprocessDistanceNotImputed | src/preprocessing.py:74-93 | When some row has a flag, an output row has a distance iff its raw distance was present and non-negative. A negative or missing distance is never filled. |
| CleaningProperties.FillMissingCell | src/preprocessing.py:17-18 | In a non-negative column with a value, a missing cell becomes the median, which is present and non-negative. |
| CleaningProperties.ScrubFillCell | src/preprocessing.py:59 | A missing or negative cell becomes the median of the column's non-negative values, which is non-negative. |
| CleaningProperties.ImputedFromNonNegatives | src/preprocessing.py:74-85 | A fare or total that was missing or negative is replaced by the median of that column's non-negative raw values. |
| Aggregation.Insert | src/aggregation.py:29 | Counting one more key keeps the table well formed (ascending, no empty group), and its first key is the least. |
| Aggregation.Bucket | src/aggregation.py:26 | No contract of its own. `DailyBucketContains`, `HourlyBucketContains` and `HourlyBucketIdempotent` state what the two keys mean. |
| Aggregation.Keys | src/aggregation.py:26-29 | No contract of its own. `KeysCount` states that it drops NaT pickups and gives each group its number of trips. |
| Aggregation.TripsIn | src/aggregation.py:29 | No contract of its own. `TripsInPositive` and `TripsInWitness` relate it to the trips of the group. |
| Aggregation.Aggregate | src/aggregation.py:26-35 | The table is well formed: strictly ascending keys and no empty group. `AggregateSpec` states its counts. |
| Aggregation.AggregateDaily | src/aggregation.py:8-37 | `aggregate_daily` gives strictly ascending days, each with at least one trip. |
| Aggregation.AggregateHourly | src/aggregation.py:39-68 | `aggregate_hourly` gives strictly ascending hours, each with at least one trip. |
| Aggregation.GroupCount | src/aggregation.py:29 | The count table has strictly ascending keys and no empty group. |
| Aggregation.DailyBucketContains | src/aggregation.py:26 | The day key of a pickup is the day whose 86400 seconds contain it. |
| Aggregation.HourlyBucketContains | src/aggregation.py:57 | The hour key is a multiple of 3600 and the hour that contains the pickup. |
| Aggregation.HourlyBucketIdempotent | src/aggregation.py:57 | Flooring to the hour twice is flooring once. |
| Aggregation.CountOfRows | src/aggregation.py:29 | In a valid table the count of a key is its row's `y`, and 0 when it has no row. |
| Aggregation.InsertCounts | src/aggregation.py:29 | Inserting a key adds one to its count only, and one to the total. |
| Aggregation.GroupCountCounts | src/aggregation.py:29 | Each key's count is its number of occurrences. The counts sum to the number of keys. |
| Aggregation.CountsDetermineTable | src/aggregation.py:35 | Two valid tables with the same counts are equal. Sorting the groups by key leaves no choice. |
| Aggregation.GroupCountUnique | src/aggregation.py:29-35 | The grouped and sorted table is the only valid table with these counts. |
| Aggregation.KeysCount | src/aggregation.py:26-29 | NaT pickups give no key. A key occurs as often as there are trips in its group. |
| Aggregation.TripsInPositive | src/aggregation.py:29 | The group of a trip with a pickup holds at least that trip. |
| Aggregation.TripsInWitness | src/aggregation.py:29 | A non-empty group contains a trip with that key. |
| Aggregation.AggregateSpec | src/aggregation.py:26-35 | The result is strictly ascending, so sorted with no duplicate key. Each `y` is the number of trips in its group and is at least 1. A key has a row iff some trip falls in it. The `y` values sum to the number of trips with a pickup. |
| Aggregation.AggregateCoversTrips | src/aggregation.py:29 | Every trip with a pickup has a row for its group. |
| Aggregation.AggregateRowsFromTrips | src/aggregation.py:29 | Every row comes from at least one trip. |
| Evaluation.InsertByDs | src/evaluation.py:90 | Inserting into a sorted series keeps it sorted and adds exactly that point. |
| Evaluation.SortByDs | src/evaluation.py:90 | `sort_values(by='ds')` gives a series sorted by `ds` that is a permutation of the input. |
| Evaluation.SortByDsSorted | src/evaluation.py:90 | A series already in order is unchanged by the sort. |
| Evaluation.PyCut | src/evaluation.py:91-92 | Python's slice index: negative counts from the end, and out-of-range indexes are clamped to 0 or n. |
| Evaluation.TrainTestSplit | src/evaluation.py:81-93 | Train followed by test is exactly the sorted series. |
| Evaluation.TrainTestSplitSizes | src/evaluation.py:91-92 | With `0 < test_size <= n`, test has `test_size` points and train has `n - test_size`. With `test_size` 0 or at least n, train is empty. With `-m`, train is the first `min(m, n)` points. |
| Evaluation.TrainTestSplitTail | src/evaluation.py:91-92 | Test is the tail of the sorted series and train its head. |
| Evaluation.TrainTestSplitPartition | src/evaluation.py:90-92 | Train and test together are a permutation of the input. No point is lost or duplicated. |
| Evaluation.TrainBeforeTest | src/evaluation.py:90-92 | Every train `ds` is at most every test `ds`. |
| Evaluation.TrainStrictlyBeforeTest | src/evaluation.py:90-92 | For a strictly ascending series the sort is the identity, train followed by test is the input, and every train `ds` is strictly earlier than every test `ds`. |
| Pipeline.InWindow | main.py:39-40 | No contract of its own. `WindowBoundaries` states both ends of the window and the NaT case. |
| Pipeline.FilterWindow | main.py:39-40 | No contract of its own. `FilterWindowSubsequence` and `FilterWindowMembers` state which rows it keeps and in which order. |
| Pipeline.ToDatetimeMidnights | main.py:58 | `pd.to_datetime` turns each day into a midnight: a multiple of 86400 seconds that divides back to the day. It keeps each count and keeps an ascending series ascending. |
| Pipeline.DailySeries | main.py:53-58 | No contract of its own. `SeriesOfWindow` and `CleanSeries` state the series it gives for the window's trips. |
| Pipeline.PrepareSplit | main.py:39-62 | No contract of its own. `PipelineFailsIffNoFlag`, `PipelineSeries` and `PipelineHoldsOutLastDays` state what the run promises. |
| Pipeline.RunPipeline | main.py:39-62 | The imperative run returns `PrepareSplit(raw)`. It filters, cleans in place in an array, aggregates, converts and splits. |
| Pipeline.FilterWindowAppend | main.py:39-40 | Filtering distributes over concatenation. |
| Pipeline.FilterWindowSubsequence | main.py:39-40 | The filtered frame is the subsequence of the rows in the window, in their order. A row is kept iff its pickup is in `[2024-01-01, 2025-02-01)`. |
| Pipeline.FilterWindowMembers | main.py:39-40 | A row is in the output iff it is an input row inside the window. |
| Pipeline.FilterWindowIdempotent | main.py:39-40 | Filtering twice is filtering once. |
| Pipeline.WindowBoundaries | main.py:39-40 | A pickup at exactly 2024-01-01 00:00:00 is kept, one at exactly 2025-02-01 00:00:00 is dropped. So is a NaT pickup. |
| Pipeline.PickupsInWindow | main.py:39-40 | Every pickup after the filter is present and inside the window. |
| Pipeline.DayInWindow | main.py:39-40 | The midnight of a pickup's day in the window is itself in the window. |
| Pipeline.SeriesOfWindow | src/aggregation.py:26-35 | For in-window pickups the daily series is strictly ascending and sums to the number of pickups. Each `ds` is a midnight inside the window and each `y` is that day's trip count, at least 1. |
| Pipeline.PipelineFailsIffNoFlag | main.py:49 | The run fails iff no row inside the window has a `store_and_fwd_flag`. |
| Pipeline.CleanSeries | main.py:49-58 | In a run that succeeds, cleaning does not change the daily series, because it keeps rows and pickups. |
| Pipeline.PipelineSeries | main.py:39-62 | Train followed by test is strictly ascending. The counts sum to the number of rows in the window. Each point is a midnight in the window carrying that day's trip count, at least 1. |
| Pipeline.PipelineHoldsOutLastDays | main.py:61-62 | With at least 30 days the test set is exactly the last 30 points. With fewer, train is empty. Every train date is strictly before every test date. |

## Left out

- Loading data (`load_all_data`, file discovery, Parquet reading) is not modelled: the model starts from the concatenated trip records.
- EDA, plotting, model fitting and forecast evaluation are not modelled (`src/eda.py`, `src/modeling.py`, the rest of `src/evaluation.py`, and `main.py` from line 65 on). They are I/O or an external forecasting library.
- `main.py:45` calls `run_eda` on the filtered frame. The EDA module is not part of this model, so the model assumes it leaves the frame as it is.
- The `__main__` blocks and every `print` call are console I/O.
- Timestamp parsing by `pd.to_datetime(..., errors='coerce')` (`src/aggregation.py:22-23`, `53-54`) is not modelled. Pickups are given as whole seconds, and a value that fails to parse is `None`, like NaT. Time zones and sub-second precision are not modelled.
- Floating point is not modelled: values are unbounded reals, so rounding in median, quantile and average computations is not captured.
- Columns of the trip table outside the seven numeric fields, the pickup time and `store_and_fwd_flag` are not modelled. No cleaning pass touches them.
- Evaluation.SortByDs: the model sorts with a stable insertion sort, while pandas' default quicksort is not stable. The two can differ only in the order of points with equal `ds`, which the daily series never has.
- Stats.Quantile: requires a level in [0, 1]. pandas raises for other levels, and the only levels used are 0.01 and 0.99.
- Preprocessing.CapOutliers: requires percentiles in [0, 1] for the same reason.
- The copies made by `df.copy()` in the aggregation and the new frames returned by `sort_values` are not modelled as objects. They are functions on values, so they cannot alias the caller's frame.
- Preprocessing.PreprocessData: the array is cleaned in place like the source frame. The model does not capture that the frame passed to `preprocess_data` in `main.py` is a filtered copy of the loaded one. `RunPipeline` allocates a fresh array for it.
- Trips.Present: its own ensures states membership and length only. That every value is kept as often as it occurs is `Trips.PresentCounts`.
- Preprocessing.FillWithMedian: its own ensures states only that present values are kept. The full statement, that missing cells become the median, is `CleaningProperties.FillWithMedianSpec`.
- Running `preprocess_data` twice is not the same as running it once: `cap_outliers` takes its quantiles afresh, so a second pass clips a capped column again. On `[0, 100]` one pass gives `[1, 99]` and a second gives `[1.98, 98.02]` (`CleaningProperties.CapNotIdempotent`). The model therefore states no idempotence for the capping step or for the whole cleaning.
