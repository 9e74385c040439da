# chronomaly anomaly detection, modelled in Dafny

This project models the anomaly-detection core of chronomaly.

**The comparator.** `ForecastActualComparator` compares a forecast table with the actual values.
- Every forecast cell holds `|`-separated quantiles: the point forecast is field 0, q10 is field 1 and q90 is field 9.
- The actual table is pivoted into the same metric columns.
- The two tables are aligned on the sorted union of their metric columns, with neutral fill values.
- Each forecast row is paired with the pivoted actual row of the same label. Each metric is then classified as `NO_FORECAST`, `IN_RANGE`, `BELOW_P10` or `ABOVE_P90`, with a deviation percentage from the crossed bound.
- The result table is post-processed in a fixed order:
  1. the metric name is split into dimension columns;
  2. a cumulative-volume cut is applied;
  3. a status filter and a deviation filter are applied;
  4. the deviation is rendered as text;
  5. the metric column is dropped.

**The stages around it.**
- **Pre-filter:** `CumulativeThresholdFilter` keeps the metrics with the largest forecast volume, then restricts the raw actual rows to them.
- **Post-filters:** `AnomalyFilter`, `DeviationFilter` and `DeviationFormatter`.
- **Transformers:** `ColumnFormatter` (including its percentage formatter) and `DateRangeFilter`.
- **The transformer mixin:** it runs the transformers registered for a stage, each through its `filter`, `format` or call.
- **`AnomalyDetectionWorkflow`:** it loads, pre-filters, detects, post-filters and writes.

## Structure

| file | module | models |
|---|---|---|
| `tables.dfy` | `Tables` | tables, rows with index labels, cells, errors, masks, column assignment, `reset_index(drop=True)` |
| `text.dfy` | `Text` | `str.split`, `'sep'.join`, digits, `float()` of decimal text, `sorted(set(...))` |
| `numbers.dfy` | `Numbers` | `round()` (half to even), `round(x, n)`, `f"{x:.nf}"`, `str(round(x, n))` |
| `ranking.dfy` | `Ranking` | `sort_values(ascending=False)`, running totals, `min()` |
| `metric_comparison.dfy` | `MetricComparison` | `_compare_metric` |
| `alignment.dfy` | `Alignment` | `_prepare_data` (with `reset_index` of the pivot), `_standardize_*` |
| `post_processing.dfy` | `PostProcessing` | `_split_metric_to_dimensions`, `_filter_cumulative_threshold`, `_filter_anomalies`, `_post_process_results` |
| `comparator.dfy` | `Comparator` | constructor checks, `_compare_all_metrics`, `detect`, `detect_with_filter` |
| `cumulative_threshold.dfy` | `CumulativeThreshold` | `CumulativeThresholdFilter` |
| `post_filters.dfy` | `PostFilters` | `AnomalyFilter`, `DeviationFilter`, `DeviationFormatter` |
| `column_formatter.dfy` | `ColumnFormatting` | `ColumnFormatter` |
| `date_range_filter.dfy` | `DateRange` | `DateRangeFilter`, `pd.to_datetime` of dates |
| `mixins.dfy` | `Transformers` | `TransformableMixin._apply_transformers` |
| `workflow.dfy` | `Workflow` | `AnomalyDetectionWorkflow` |

### Modelling choices

**Tables and cells**
- A table is a list of column names and a list of rows. A row has an index label and a map from column name to cell.
- A cell is a missing value, a number (`real`), a text or a timestamp (nanoseconds since 1970).
- A column a row lacks reads as a missing value.
- A frame is empty (`df.empty`) when it has no rows or no columns.
- Exceptions are `Err(ValueError | TypeError | KeyError)` results.

**Loops and state**
- Loops in the source are methods whose `ensures` ties them to a specification function. The lemmas are stated about that function.
- The workflow is a class: its readers, detector, filters and writer are constant fields, and its `log` field records every call it makes, in order.

**Outside code**
- The pivot of the transformer, the readers, the detector, the pre-filters, the post-filters and the writer are outside this model. They are parameters (functions and values).
- A reader's `load()` is the value it returns, or the exception it raises.

**Labels and cut rules**
- The anomaly labels are `BELOW_P10` and `ABOVE_P90` (`forecast_actual.py:424,434`).
- Take forecast volumes a=5000, b=3000, c=100 and d=50 with threshold 0.95. The two cumulative rules keep different metrics:
  - `CumulativeThresholdFilter` keeps the ranks whose share is at most the threshold, which is `{a}` alone (`CumulativeThreshold.SampleSelection`).
  - The comparator's own cut takes the first rank whose share reaches the threshold, so it keeps `{a, b}` (`CumulativeThreshold.SampleCut`).
  - The two rules are modelled separately.

## Model

| member | source | states |
|---|---|---|
| `MetricComparison.DecodeForecast` | chronomaly/infrastructure/comparators/forecast_actual.py:384-403 | a number cell is its own single field, so it is the point forecast with q10 and q90 zero; a missing value or a timestamp decodes to the all-zero band |
| `MetricComparison.CoerceActual` | chronomaly/infrastructure/comparators/forecast_actual.py:404-408 | `float(actual)`: a number stays, and a missing value or a timestamp becomes 0.0 |
| `MetricComparison.DecodeRendered` | chronomaly/infrastructure/comparators/forecast_actual.py:384-390 | quantiles written with n decimals and joined by `\|` decode to the rounded fields 0, 1 and 9; an absent q10 or q90 reads as 0.0 |
| `MetricComparison.DecodeFill` | chronomaly/infrastructure/comparators/forecast_actual.py:384-403 | the fill `0\|0\|0\|0\|0\|0\|0\|0\|0\|0` decodes to the all-zero band |
| `MetricComparison.DecodeInvalid` | chronomaly/infrastructure/comparators/forecast_actual.py:386-402 | if the point, q10 or q90 field is present but not a number, all three become 0.0 |
| `MetricComparison.DecodeShort` | chronomaly/infrastructure/comparators/forecast_actual.py:390 | with fewer than ten fields, q90 is 0.0 |
| `MetricComparison.StatusNamesDistinct` | chronomaly/infrastructure/comparators/forecast_actual.py:411-434 | the four status labels are pairwise different, so the label identifies the status |
| `MetricComparison.Classify` | chronomaly/infrastructure/comparators/forecast_actual.py:410-442 | exactly one status holds: `NO_FORECAST` iff the band is all zero; `IN_RANGE` iff q10 <= actual <= q90; `BELOW_P10` iff actual < q10; `ABOVE_P90` iff q10 <= actual and actual > q90; the deviation is zero for the first two |
| `MetricComparison.DeviationRecoversActual` | chronomaly/infrastructure/comparators/forecast_actual.py:423-442 | the deviation of an anomaly gives back the actual value: relative to the crossed bound when that bound is non-zero, as the absolute distance from zero otherwise |
| `MetricComparison.DeviationSign` | chronomaly/infrastructure/comparators/forecast_actual.py:423-442 | an anomaly's deviation is never zero, and it is positive iff the crossed bound is non-negative |
| `MetricComparison.CompareMetric` | chronomaly/infrastructure/comparators/forecast_actual.py:444-458 | the record has exactly the keys metric, actual, forecast, q10, q90, status and deviation_pct, plus date when a date is known (holding the date); the metric is the column name; actual, forecast, q10 and q90 are `round()` of the coerced actual and the decoded quantiles; the status is the classified one's label; the deviation is the classified deviation rounded to 2 places |
| `MetricComparison.CompareMetricValues` | chronomaly/infrastructure/comparators/forecast_actual.py:444-450 | the record's actual, forecast, q10 and q90 are whole numbers within 0.5 of the coerced actual and the decoded quantiles |
| `MetricComparison.CompareMetricVerdict` | chronomaly/infrastructure/comparators/forecast_actual.py:444-451 | the record's status is that of the decoded band and the coerced actual; its deviation lies within 0.005 of the exact one |
| `MetricComparison.DecodeQuantiles` | chronomaly/infrastructure/comparators/forecast_actual.py:384-390 | ten whole-number quantiles joined with `\|` decode to the first as the point forecast, the second as q10 and the last as q90 (so `1000\|900\|…\|1100` decodes to 1000, 900, 1100) |
| `MetricComparison.SampleInRange` | chronomaly/infrastructure/comparators/forecast_actual.py:420-421 | 950 against the band with point 1000, q10 900 and q90 1100 is in range with deviation 0 |
| `MetricComparison.SampleBelow` | chronomaly/infrastructure/comparators/forecast_actual.py:423-427 | 600 is below q10 with deviation 33.33 |
| `MetricComparison.SampleAbove` | chronomaly/infrastructure/comparators/forecast_actual.py:433-437 | 1150 is above q90 with deviation 4.55 |
| `Alignment.Standardized` | chronomaly/infrastructure/comparators/forecast_actual.py:312-326 | every listed column exists afterwards; missing and `'None'` cells of listed columns hold the fill; the original columns keep their order; every other cell, the labels and the row count are unchanged |
| `Alignment.StandardizeColumns` | chronomaly/infrastructure/comparators/forecast_actual.py:295-326 | the column-by-column loop computes `Standardized` |
| `Alignment.ComparisonColumns` | chronomaly/infrastructure/comparators/forecast_actual.py:195-199 | strictly sorted, and holding exactly the non-excluded columns of either table |
| `Alignment.Pivoted` | chronomaly/infrastructure/comparators/forecast_actual.py:191-192 | `reset_index` inserts the index column first (named after the index, else `index`, else `level_0`), keeps every other column's cells, keeps the row count and numbers the rows 0..n-1; a name that is already a column raises `ValueError` |
| `Alignment.IndexColumnCompared` | chronomaly/infrastructure/comparators/forecast_actual.py:191-199 | the reset index column is compared iff it is not excluded, and then holds the pivot's index labels |
| `Alignment.PreparationComplete` | chronomaly/infrastructure/comparators/forecast_actual.py:190-213 | when the reset succeeds, after preparation every compared column exists in both tables with no missing or `'None'` cell, and the pivoted actuals are indexed 0..n-1 |
| `Alignment.PrepareData` | chronomaly/infrastructure/comparators/forecast_actual.py:175-213 | computes `Preparation`, including the reset's `ValueError` |
| `Comparator.NewComparator` | chronomaly/infrastructure/comparators/forecast_actual.py:47-99 | `ValueError` iff dimension names are given, the transformer exposes columns, and the two lists differ (order counts); the excluded columns default to the date column, and an empty list also counts as none |
| `Comparator.EmptyDimensionsRejected` | chronomaly/infrastructure/comparators/forecast_actual.py:68-99 | an empty dimension list is still validated, and it fails against an exposed column |
| `Comparator.DateOf` | chronomaly/infrastructure/comparators/forecast_actual.py:237 | a date is passed iff the forecast has the date column |
| `Comparator.RowRecords` | chronomaly/infrastructure/comparators/forecast_actual.py:239-253 | a forecast row with no actual row of its label gives no record; otherwise it gives one record per column, in column order |
| `Comparator.CompareAllMetrics` | chronomaly/infrastructure/comparators/forecast_actual.py:215-255 | the nested loop yields `Comparisons`: the rows' records in row order |
| `Comparator.ComparisonsAligned` | chronomaly/infrastructure/comparators/forecast_actual.py:235-253 | when both tables are indexed by position, the records are those of forecast row i against actual row i, for the first min(n, actual rows) rows, in row then column order |
| `Comparator.ComparisonsWithoutColumns` | chronomaly/infrastructure/comparators/forecast_actual.py:246-253 | with no compared column there is no record |
| `Comparator.ResultTable` | chronomaly/infrastructure/comparators/forecast_actual.py:142 | one row per record, indexed 0..n-1, with the record's cells; the columns are the result keys plus date |
| `Comparator.Detection` | chronomaly/infrastructure/comparators/forecast_actual.py:101-147 | an empty forecast, then an empty actual, gives its `ValueError`; otherwise detection succeeds iff the pivot's reset does, and every error is a `ValueError`; no records give the empty frame |
| `Comparator.Detect` | chronomaly/infrastructure/comparators/forecast_actual.py:101-147 | computes `Detection` through `PrepareData`, `CompareAllMetrics` and `PostProcessResults` |
| `Comparator.PlainPostProcessing` | chronomaly/infrastructure/comparators/forecast_actual.py:257-293 | with every switch off, post-processing returns the table |
| `Comparator.DetectionPlain` | chronomaly/infrastructure/comparators/forecast_actual.py:129-147 | without switches and with a positional forecast, the result is the table of aligned comparisons of row i with pivoted row i |
| `Comparator.LegacyMasks` | chronomaly/infrastructure/comparators/forecast_actual.py:579-587 | a row is kept iff it is not `NO_FORECAST` (when excluded) and is `IN_RANGE` or deviates by at least the minimum; the only error is a `TypeError` |
| `Comparator.DetectWithFilterAsWritten` | chronomaly/infrastructure/comparators/forecast_actual.py:554-589 | as written, the empty detection result raises `KeyError('status')` |
| `Comparator.DetectWithFilter` | chronomaly/infrastructure/comparators/forecast_actual.py:554-589 | corrected: the empty result passes through; a detection error is passed on; other errors are `TypeError`/`KeyError` |
| `Comparator.LegacyFilterOnNoComparisons` | chronomaly/infrastructure/comparators/forecast_actual.py:577-581 | a forecast holding only its date, against a pivot indexed by the excluded date column, gives the empty frame; the legacy filter as written raises `KeyError('status')` on it, and the corrected one returns it |
| `Comparator.DetectWithFilterKeeps` | chronomaly/infrastructure/comparators/forecast_actual.py:579-587 | the corrected filter keeps exactly the detected rows that pass both masks |
| `PostProcessing.DimensionColumn` | chronomaly/infrastructure/comparators/forecast_actual.py:476 | one value per row |
| `PostProcessing.WithDimensions` | chronomaly/infrastructure/comparators/forecast_actual.py:479-483 | the rows keep their labels and number; the columns are the old ones and the dimension names |
| `PostProcessing.WithDimensionsCells` | chronomaly/infrastructure/comparators/forecast_actual.py:479-483 | dimension column i holds part i of the metric split on `_`, or a missing value, unless a later dimension has the same name; every other column is unchanged |
| `PostProcessing.SplitMetricToDimensions` | chronomaly/infrastructure/comparators/forecast_actual.py:460-485 | unchanged without a metric column or dimensions, `WithDimensions` otherwise |
| `PostProcessing.DimensionsRoundTrip` | chronomaly/infrastructure/comparators/forecast_actual.py:476-483 | a metric built by joining one `_`-free value per dimension splits back into those values |
| `PostProcessing.FirstReaching` | chronomaly/infrastructure/comparators/forecast_actual.py:518-520 | the first rank from k on whose cumulative share is at least the threshold, or none when no rank reaches it |
| `PostProcessing.CumulativeCut` | chronomaly/infrastructure/comparators/forecast_actual.py:487-526 | same columns, and only rows of the input |
| `PostProcessing.CutUnchanged` | chronomaly/infrastructure/comparators/forecast_actual.py:504-510 | an empty table or a zero total passes unchanged |
| `PostProcessing.CutIsTopSet` | chronomaly/infrastructure/comparators/forecast_actual.py:517-526 | a kept row brings every row of at least its value; rows stay in order |
| `PostProcessing.CutKeepsLargest` | chronomaly/infrastructure/comparators/forecast_actual.py:517-526 | a row of the largest value is always kept |
| `PostProcessing.CutKeepsIff` | chronomaly/infrastructure/comparators/forecast_actual.py:517-526 | with a non-zero total, a row is kept iff it is a row of the table whose value is at least the cut value |
| `PostProcessing.CutTotal` | chronomaly/infrastructure/comparators/forecast_actual.py:512-526 | the kept rows sum to what lies at or above the cut value in the ranking |
| `PostProcessing.RankingShare` | chronomaly/infrastructure/comparators/forecast_actual.py:513-523 | over a ranking of non-negative values, the entries at or above the cut value hold at least the threshold's share |
| `PostProcessing.CutShare` | chronomaly/infrastructure/comparators/forecast_actual.py:512-526 | for non-negative values and a threshold in (0, 1], the kept rows hold at least the threshold's share of the total |
| `PostProcessing.FilterAnomalies` | chronomaly/infrastructure/comparators/forecast_actual.py:528-552 | the columns are kept |
| `PostProcessing.FilterAnomaliesKeeps` | chronomaly/infrastructure/comparators/forecast_actual.py:538-552 | a row is kept iff it is an anomaly (when asked) and, with a positive minimum, it is `IN_RANGE` or deviates enough |
| `PostProcessing.PercentText` | chronomaly/infrastructure/comparators/forecast_actual.py:284-287 | always a text ending in `%` |
| `PostProcessing.PercentTextParses` | chronomaly/infrastructure/comparators/forecast_actual.py:285-287 | without its `%`, the text parses back to the deviation rounded to the places |
| `PostProcessing.PostProcessResults` | chronomaly/infrastructure/comparators/forecast_actual.py:257-293 | computes `PostProcessed`: split, cut, filter, format, drop the metric column |
| `PostProcessing.PostProcessedRows` | chronomaly/infrastructure/comparators/forecast_actual.py:267-291 | no row is added, and after a split the metric column is gone |
| `Ranking.SortDescending` | chronomaly/infrastructure/comparators/forecast_actual.py:513 | descending, and a permutation of the entries |
| `Ranking.Minimum` | chronomaly/infrastructure/comparators/forecast_actual.py:521-523 | at most every value, and equal to one of them |
| `Ranking.AtLeastMembers` | chronomaly/infrastructure/comparators/forecast_actual.py:526 | the entries kept are exactly those whose value is at least the cut value |
| `Ranking.TotalSort` | chronomaly/infrastructure/filters/pre/cumulative_threshold.py:76-80 | ranking does not change the total |
| `Numbers.RoundHalfEvenNearest` | chronomaly/infrastructure/comparators/forecast_actual.py:446-449 | `round()` gives an integer within 0.5, and the even one at a tie |
| `Numbers.RoundToNearest` | chronomaly/infrastructure/comparators/forecast_actual.py:451 | `round(x, n)` is within half a unit of the n-th decimal |
| `Numbers.ShowFixedRoundTrip` | chronomaly/infrastructure/transformers/formatters/column_formatter.py:57 | fixed-point text with n decimals parses back to `round(x, n)` |
| `Numbers.ShowRoundedRoundTrip` | chronomaly/infrastructure/filters/post/deviation_formatter.py:46-49 | `str(round(x, n))` parses back to `round(x, n)` |
| `Text.SplitJoin` | chronomaly/infrastructure/comparators/forecast_actual.py:384 | joining `sep`-free parts and splitting gives the parts back |
| `Text.JoinSplit` | chronomaly/infrastructure/comparators/forecast_actual.py:476 | splitting and joining gives the text back |
| `Text.SortedSet` | chronomaly/infrastructure/comparators/forecast_actual.py:199 | `sorted(set(...))` is strictly increasing and holds exactly the names of its input |
| `Text.SortedDistinct` | chronomaly/infrastructure/comparators/forecast_actual.py:199 | in a strictly increasing list, different positions hold different names, so each name appears once |
| `CumulativeThreshold.NewThresholdFilter` | chronomaly/infrastructure/filters/pre/cumulative_threshold.py:34-45 | `ValueError` iff the threshold is outside (0, 1]; the excluded columns default to `['date']` |
| `CumulativeThreshold.PointVolume` | chronomaly/infrastructure/filters/pre/cumulative_threshold.py:67 | `float(str(x).split('\|')[0])` per cell kind: a number is itself, a missing value counts 0, a timestamp fails, and text is the parse of its first field |
| `CumulativeThreshold.ColumnSum` | chronomaly/infrastructure/filters/pre/cumulative_threshold.py:66-70 | fails iff some cell of the column fails |
| `CumulativeThreshold.VolumesMembers` | chronomaly/infrastructure/filters/pre/cumulative_threshold.py:62-70 | holds every non-excluded column among the first n, each with its volume, and nothing else |
| `CumulativeThreshold.MetricVolumes` | chronomaly/infrastructure/filters/pre/cumulative_threshold.py:62-70 | the loop over columns computes `VolumesUpTo` of all columns |
| `CumulativeThreshold.WithinShare` | chronomaly/infrastructure/filters/pre/cumulative_threshold.py:85-89 | exactly the metrics whose cumulative share is at most the threshold |
| `CumulativeThreshold.Selected` | chronomaly/infrastructure/filters/pre/cumulative_threshold.py:72-93 | unchanged iff there is no metric or the total is zero; otherwise at least one metric is kept |
| `CumulativeThreshold.ShareMonotone` | chronomaly/infrastructure/filters/pre/cumulative_threshold.py:79-85 | for non-negative volumes, cumulative shares do not decrease along the ranking |
| `CumulativeThreshold.WithinSharePrefix` | chronomaly/infrastructure/filters/pre/cumulative_threshold.py:85-89 | for non-negative volumes, the metrics within the share are a prefix of the ranking, and the next rank exceeds the threshold |
| `CumulativeThreshold.SelectedPrefix` | chronomaly/infrastructure/filters/pre/cumulative_threshold.py:75-93 | for non-negative volumes, the kept metrics are a non-empty prefix of the ranking, starting with the top metric; the first metric left out exceeds the threshold |
| `CumulativeThreshold.SelectedRanked` | chronomaly/infrastructure/filters/pre/cumulative_threshold.py:75-93 | on an already ranked list, the selection is the metrics within the share |
| `CumulativeThreshold.KeptColumns` | chronomaly/infrastructure/filters/pre/cumulative_threshold.py:96-97 | exactly the present columns that are excluded or kept |
| `CumulativeThreshold.KeptColumnsOrder` | chronomaly/infrastructure/filters/pre/cumulative_threshold.py:96-97 | the excluded columns first, then the kept metrics, each only if present |
| `CumulativeThreshold.MaskAfter` | chronomaly/infrastructure/filters/pre/cumulative_threshold.py:137-141 | a row passes iff each present dimension column equals its part |
| `CumulativeThreshold.MetricMask` | chronomaly/infrastructure/filters/pre/cumulative_threshold.py:138-141 | the `mask &=` loop computes `MaskAfter` |
| `CumulativeThreshold.Masked` | chronomaly/infrastructure/filters/pre/cumulative_threshold.py:143 | exactly the rows the mask selects |
| `CumulativeThreshold.MetricRowsMembers` | chronomaly/infrastructure/filters/pre/cumulative_threshold.py:134-143 | when the metric can be matched against the dimensions, it selects exactly the actual rows of that metric |
| `CumulativeThreshold.FramesMembers` | chronomaly/infrastructure/filters/pre/cumulative_threshold.py:131-143 | the concatenated frames hold exactly the actual rows of some kept metric |
| `CumulativeThreshold.DropDuplicates` | chronomaly/infrastructure/filters/pre/cumulative_threshold.py:146 | no two rows have the same contents; rows come from the input; every input's contents remain |
| `CumulativeThreshold.FilteredActual` | chronomaly/infrastructure/filters/pre/cumulative_threshold.py:120-148 | the actual columns are kept |
| `CumulativeThreshold.FilterActualByMetrics` | chronomaly/infrastructure/filters/pre/cumulative_threshold.py:109-148 | the nested loop computes `FilteredActual` |
| `CumulativeThreshold.FilteredActualMembers` | chronomaly/infrastructure/filters/pre/cumulative_threshold.py:131-148 | holds, once each, the contents of exactly the actual rows of kept metrics |
| `CumulativeThreshold.FilterTables` | chronomaly/infrastructure/filters/pre/cumulative_threshold.py:47-107 | the method computes `Filtered`, whose cases `FilteredUnchanged` and `FilteredActualMembers` state |
| `CumulativeThreshold.FilteredUnchanged` | chronomaly/infrastructure/filters/pre/cumulative_threshold.py:58-83 | both tables pass unchanged when either is empty, no metric column exists, or the total is zero |
| `CumulativeThreshold.SampleShares` | chronomaly/infrastructure/filters/pre/cumulative_threshold.py:79-85 | 5000/3000/100/50 total 8150, with shares of about 61%, 98%, 99% and 100% |
| `CumulativeThreshold.SampleWithin` | chronomaly/infrastructure/filters/pre/cumulative_threshold.py:85-89 | at 0.95 only `a` lies within the share |
| `CumulativeThreshold.SampleSelection` | chronomaly/infrastructure/filters/pre/cumulative_threshold.py:75-93 | the pre-filter keeps `[a]` |
| `CumulativeThreshold.SampleCut` | chronomaly/infrastructure/comparators/forecast_actual.py:512-523 | the comparator's cut value on the same volumes is 3000, so it keeps a and b |
| `PostFilters.KeepAnomalies` | chronomaly/infrastructure/filters/post/anomaly_filter.py:27-43 | unchanged when empty or without status; otherwise a row is kept iff it is `BELOW_P10`/`ABOVE_P90` |
| `PostFilters.KeepAnomaliesSubsequence` | chronomaly/infrastructure/filters/post/anomaly_filter.py:41-43 | the kept rows are an order-preserving subsequence |
| `PostFilters.KeepAnomaliesIdempotent` | chronomaly/infrastructure/filters/post/anomaly_filter.py:24-43 | filtering twice is filtering once, and the `exclude_no_forecast` flag makes no difference |
| `PostFilters.NewDeviationFilter` | chronomaly/infrastructure/filters/post/deviation_filter.py:26-31 | `ValueError` iff the minimum is negative |
| `PostFilters.KeepSignificant` | chronomaly/infrastructure/filters/post/deviation_filter.py:33-53 | unchanged when empty or without deviation; a text or timestamp deviation raises `TypeError`; otherwise a row is kept iff (keep_in_range, status present, `IN_RANGE`) or deviation >= minimum |
| `PostFilters.KeepSignificantSubsequence` | chronomaly/infrastructure/filters/post/deviation_filter.py:53 | the kept rows are an order-preserving subsequence |
| `PostFilters.KeepSignificantIdempotent` | chronomaly/infrastructure/filters/post/deviation_filter.py:43-53 | filtering twice is filtering once |
| `PostFilters.FiltersCommute` | chronomaly/infrastructure/filters/post/deviation_filter.py:46-53 | with numeric deviations, the anomaly filter and the deviation filter commute |
| `PostFilters.NewDeviationFormatter` | chronomaly/infrastructure/filters/post/deviation_formatter.py:24-28 | `ValueError` iff the places are negative |
| `PostFilters.FormatDeviation` | chronomaly/infrastructure/filters/post/deviation_formatter.py:30-52 | unchanged when empty or without deviation; `TypeError` iff a deviation is text or a timestamp; otherwise the columns, rows, labels and other cells stay, and the deviation becomes text |
| `PostFilters.FormatDeviationRoundTrip` | chronomaly/infrastructure/filters/post/deviation_formatter.py:46-50 | the text ends in `%` and parses back to the rounded deviation; a missing deviation becomes `nan%` |
| `PostFilters.FormattedRejected` | chronomaly/infrastructure/filters/post/deviation_formatter.py:46-50 | after formatting, the deviation filter and a second formatter raise `TypeError` |
| `ColumnFormatting.NewColumnFormatter` | chronomaly/infrastructure/transformers/formatters/column_formatter.py:22-26 | `ValueError` iff there is no formatter |
| `ColumnFormatting.Dedup` | chronomaly/infrastructure/transformers/formatters/column_formatter.py:60 | the dictionary's keys: the same names, each once |
| `ColumnFormatting.FormatPercentage` | chronomaly/infrastructure/transformers/formatters/column_formatter.py:54-57 | a text ending in `%`; a text value raises `ValueError`; a timestamp times 100 raises `TypeError` |
| `ColumnFormatting.FormatPercentageRoundTrip` | chronomaly/infrastructure/transformers/formatters/column_formatter.py:54-57 | without its `%`, the text parses back to the value (times 100 when asked) rounded to the places |
| `ColumnFormatting.Percentage` | chronomaly/infrastructure/transformers/formatters/column_formatter.py:28-62 | negative places, or an empty list, give `ValueError`; non-negative places with a name or a non-empty list succeed; on success every listed column (a single name counting as a list of one) is mapped once to the same percentage function |
| `ColumnFormatting.MapColumn` | chronomaly/infrastructure/transformers/formatters/column_formatter.py:81 | one value per row, or the first row's error |
| `ColumnFormatting.ApplyColumn` | chronomaly/infrastructure/transformers/formatters/column_formatter.py:80-81 | fails iff some value fails; otherwise only that column changes, to the function's values |
| `ColumnFormatting.FormattedUpTo` | chronomaly/infrastructure/transformers/formatters/column_formatter.py:79-81 | the columns and row count are kept |
| `ColumnFormatting.Formatted` | chronomaly/infrastructure/transformers/formatters/column_formatter.py:64-83 | an empty table passes; otherwise the columns and row count are kept |
| `ColumnFormatting.Format` | chronomaly/infrastructure/transformers/formatters/column_formatter.py:64-83 | the loop over formatters computes `Formatted` |
| `ColumnFormatting.ErrorStops` | chronomaly/infrastructure/transformers/formatters/column_formatter.py:79-81 | the first error is the result |
| `ColumnFormatting.FormattedCells` | chronomaly/infrastructure/transformers/formatters/column_formatter.py:77-83 | each present mapped column holds its function's value for the original; unmapped columns and labels are unchanged |
| `ColumnFormatting.FormattedAbsent` | chronomaly/infrastructure/transformers/formatters/column_formatter.py:79-80 | formatters only for absent columns change nothing |
| `DateRange.DayNumberOrder` | chronomaly/infrastructure/transformers/filters/date_range_filter.py:71-73 | day numbers compare as the calendar dates do, and are equal exactly for equal dates |
| `DateRange.ParseDate` | chronomaly/infrastructure/transformers/filters/date_range_filter.py:66-67 | text that converts gives midnight of a valid date within the timestamp range |
| `DateRange.ParseShowDate` | chronomaly/infrastructure/transformers/filters/date_range_filter.py:66-67 | a rendered date parses back to its own midnight |
| `DateRange.ToTimestamp` | chronomaly/infrastructure/transformers/filters/date_range_filter.py:100 | a timestamp stays, a missing value is NaT, and text that is no date raises `ValueError` |
| `DateRange.ToBound` | chronomaly/infrastructure/transformers/filters/date_range_filter.py:66-67 | a bound fails iff it is text that is no date |
| `DateRange.NewDateRangeFilter` | chronomaly/infrastructure/transformers/filters/date_range_filter.py:56-73 | `ValueError` iff there is no bound, a bound does not convert, or start > end |
| `DateRange.Bounded` | chronomaly/infrastructure/transformers/filters/date_range_filter.py:103-108 | a row is kept iff its date lies within both inclusive bounds that are set |
| `DateRange.BoundedSubsequence` | chronomaly/infrastructure/transformers/filters/date_range_filter.py:103-108 | the masks keep rows in order |
| `DateRange.ByColumn` | chronomaly/infrastructure/transformers/filters/date_range_filter.py:95-111 | a missing column or an unconvertible date raises `ValueError`; otherwise the in-range rows' contents remain, renumbered 0..n-1 |
| `DateRange.Relabelled` | chronomaly/infrastructure/transformers/filters/date_range_filter.py:114-118 | the index becomes timestamps, or `ValueError` when it does not convert |
| `DateRange.ByIndex` | chronomaly/infrastructure/transformers/filters/date_range_filter.py:112-125 | exactly the relabelled rows whose label is in range |
| `DateRange.DateFilter` | chronomaly/infrastructure/transformers/filters/date_range_filter.py:75-127 | an empty table passes; the only errors are `ValueError`; the columns are kept and no row is added |
| `DateRange.DateFilterOrder` | chronomaly/infrastructure/transformers/filters/date_range_filter.py:92-127 | the kept contents are an order-preserving subsequence of the input's |
| `DateRange.TextBoundsKeep` | chronomaly/infrastructure/transformers/filters/date_range_filter.py:103-108 | with text bounds, a text date is kept iff start <= date <= end, by calendar order |
| `DateRange.BoundsKeep` | chronomaly/infrastructure/transformers/filters/date_range_filter.py:103-108 | for any texts that convert, a date is kept iff its day lies between the bounds' days |
| `DateRange.SameDayKeeps` | tests/test_transformers.py:274-287 | with start equal to end, the filter is accepted and exactly that date is in range |
| `Transformers.Step` | chronomaly/shared/mixins.py:48-61 | `filter` first, then `format`, then the call; with none of filter, format or call, `TypeError` |
| `Transformers.Applied` | chronomaly/shared/mixins.py:40-46 | no transformers, no stage entry, or an empty list is the identity |
| `Transformers.ApplyTransformers` | chronomaly/shared/mixins.py:26-63 | the loop computes `Applied` |
| `Transformers.StepsStop` | chronomaly/shared/mixins.py:46-61 | the first error is the result |
| `Transformers.StepsAppend` | chronomaly/shared/mixins.py:46-63 | two lists run as the first, then the second on its result |
| `Transformers.UnusableFails` | chronomaly/shared/mixins.py:57-61 | an unusable transformer, reached without an earlier error, makes the stage raise `TypeError` |
| `Workflow.PreFiltering` | chronomaly/application/workflows/anomaly_detection_workflow.py:100-101 | on success, the calls are pre-filters 0..n-1 in order; every call is a pre-filter call |
| `Workflow.PostFiltering` | chronomaly/application/workflows/anomaly_detection_workflow.py:116-117 | on success, the calls are post-filters 0..n-1 in order |
| `Workflow.Execution` | chronomaly/application/workflows/anomaly_detection_workflow.py:64-119 | loads the forecast first; an empty or None forecast raises before the actual is loaded; an empty or None actual raises before any pre-filter; detection only after both checks; never writes |
| `Workflow.Loaded` | chronomaly/application/workflows/anomaly_detection_workflow.py:99-119 | once both loads have succeeded, the remaining calls are pre-filters, the detection and post-filters only: no load and no write |
| `Workflow.Detected` | chronomaly/application/workflows/anomaly_detection_workflow.py:103-119 | the detection is the first call and every later call is a post-filter; success requires a detection result that is present and non-empty |
| `Workflow.ExecutionSucceeds` | chronomaly/application/workflows/anomaly_detection_workflow.py:64-119 | on success: both loads, all pre-filters in order, one detection with a non-empty result, all post-filters in order |
| `Workflow.EmptyAfterPostFilters` | chronomaly/application/workflows/anomaly_detection_workflow.py:104-119 | the post-filters' output is not checked again: it may be empty |
| `Workflow.NoComparisonsStopWorkflow` | chronomaly/application/workflows/anomaly_detection_workflow.py:104-113 | the comparator's empty frame stops the workflow with its `ValueError`, and no post-filter runs |
| `Workflow.AnomalyDetectionWorkflow.constructor` | chronomaly/application/workflows/anomaly_detection_workflow.py:48-62 | missing filter lists are empty; the log starts empty |
| `Workflow.AnomalyDetectionWorkflow.ExecuteDetection` | chronomaly/application/workflows/anomaly_detection_workflow.py:64-119 | returns `Execution`'s result and appends its calls to the log |
| `Workflow.AnomalyDetectionWorkflow.RunLoaded` | chronomaly/application/workflows/anomaly_detection_workflow.py:99-119 | returns `Loaded`'s result and appends its calls to the log |
| `Workflow.AnomalyDetectionWorkflow.RunDetector` | chronomaly/application/workflows/anomaly_detection_workflow.py:103-119 | returns `Detected`'s result and appends its calls to the log |
| `Workflow.AnomalyDetectionWorkflow.RunPreFilters` | chronomaly/application/workflows/anomaly_detection_workflow.py:99-101 | the pre-filter loop computes `PreFiltering` |
| `Workflow.AnomalyDetectionWorkflow.RunPostFilters` | chronomaly/application/workflows/anomaly_detection_workflow.py:115-117 | the post-filter loop computes `PostFiltering` |
| `Workflow.AnomalyDetectionWorkflow.Run` | chronomaly/application/workflows/anomaly_detection_workflow.py:121-133 | a failed detection writes nothing; a successful one writes the returned table exactly once; a failing write raises |
| `Workflow.AnomalyDetectionWorkflow.RunWithoutOutput` | chronomaly/application/workflows/anomaly_detection_workflow.py:135-147 | the detection's result, and no write |

## Findings

| source | as written | input that shows it | evidently intended | confidence | as-written member | corrected member |
|---|---|---|---|---|---|---|
| chronomaly/infrastructure/comparators/forecast_actual.py:577-581 | `detect_with_filter` indexes `result_df['status']` on whatever `detect` returns | every column of the forecast and of the reset pivot, its index column included, is excluded (a forecast holding only `date`, a pivot indexed by `date`): `detect` finds nothing to compare and returns `pd.DataFrame()`, which has no `status` column, so `KeyError('status')` is raised | an empty detection result is returned as an empty result | medium, not executed | `Comparator.DetectWithFilterAsWritten` (shown by `Comparator.LegacyFilterOnNoComparisons`) | `Comparator.DetectWithFilter` (proved by `Comparator.DetectWithFilterKeeps`) |

## Left out

**Outside this model**
- The pivot (`transformer.pivot_table`) is not part of this model. Its sanitisation of names is not modelled: it is a parameter that returns the pivoted table together with its index name.
- Readers, writers, the detector and the filters passed to the workflow are parameters. Their I/O is not modelled.
- `warnings.warn` at `forecast_actual.py:394` is left out.
- The `isinstance(..., pd.DataFrame)` checks are left out. The model's inputs are always tables.

**Numbers and text**
- Numbers are exact reals, so there is no floating-point error.
- A missing value is a single `Null` cell that stands for NaN and None at once. `float('nan')`, NaN arithmetic and the `pd.isna` branch at `forecast_actual.py:415` are not modelled. After standardisation, no compared cell is missing.
- `round()` on NaN is not modelled. In Python it raises.
- `float()` accepts an optional sign, digits and an optional fraction. It does not accept exponents, `inf`, `nan`, underscores or surrounding whitespace.
- Number-to-text is fixed-point. `str()` of a very large or very small float (exponent notation) is not modelled.

**Data-frame behaviour**
- Column names are distinct. A data frame with duplicate column names is not modelled.
- The actual table handed to the pre-filter is indexed 0..n-1. The mask alignment of `cumulative_threshold.py:138-141` is positional.
- `CumulativeThreshold.Selected`: a stable descending sort stands in for `sort_values(ascending=False)`. For equal volumes, the quicksort order pandas uses is not modelled.
- `PostProcessing.CumulativeCut`: the cut value is the minimum of the stable ranking prefix. The `idxmax`/`loc` label slicing at `forecast_actual.py:520-521` reaches the same prefix only when the result's labels are distinct, which they are (0..n-1).
- `DateRange.ToTimestamp`:
  - Text converts only in the form `YYYY-MM-DD`; the other formats `pd.to_datetime` accepts are not modelled.
  - A number counts nanoseconds, truncated toward zero.
  - A Python `datetime` bound is given directly as its timestamp.
- `ColumnFormatting.FormatPercentage`: a timestamp formatted without multiplication renders as `.{n}f%`, which is `strftime` of the format text.

**Deliberate simplifications**
- `PostFilters.KeepAnomalies`: `exclude_no_forecast` is stored but has no effect, as in the source.
- The input tables are values, so "the input is not mutated" holds by construction and is not stated separately.
- `Workflow.AnomalyDetectionWorkflow.Run`: a writer that raises is modelled as returning its error after the write call is logged.
