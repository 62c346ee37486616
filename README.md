# Vehicle telemetry cleaning, modelled in Dafny

The model covers the transformation step of `transform_vehicle_data.py`. The script takes a table of raw vehicle
signal records with these columns: `vehicle_id`, `trip_id`, `event_time`, `ingestion_time`, `signal_name`,
`signal_value`, plus any further columns. It then does the following:

1. It coerces the two timestamp columns and the value column tolerantly: a cell that does not parse becomes missing.
2. It counts the missing event times and the missing values.
3. It drops the rows that have no event time.
4. For each distinct signal name, it fills the missing values with the median of that signal's present values.
   A signal whose median is undefined is left alone.
5. It appends `date` and `hour` derived from `event_time`.
6. It sorts stably by `(vehicle_id, trip_id, event_time)` and renumbers the rows from 0.

Modules:

- `Wrappers`: `Option`.
- `Calendar`: timestamps as whole seconds since 1970-01-01 00:00:00, with no time zone. The proleptic Gregorian
  calendar date and the hour of a timestamp. Each is specified by a closed-form day number or by hour bounds.
- `Stats`: median with pandas' rule. It ignores missing values, takes the middle value for an odd count and the mean
  of the two middle values for an even count.
- `Records`: the row types at each stage and the coercion. The counts of missing cells.
- `Filtering`: `dropna(subset=['event_time'])`.
- `Imputation`: the per-signal loop as a method over an array of rows, proved against the function `Imputed`.
  `Imputed` is the table in which every gap is filled from its own group's median, taken in the table before
  imputation.
- `Ordering`: the lexicographic key order and the stable sort.
- `Pipeline`: the derived columns and the whole `Transform`, together with its reported figures.

The loop of lines 37-42 recomputes each group's median from the partly imputed table. The model does the same.
`ImputeGroup` then proves that earlier groups cannot change a later group's values, so each median equals the one
taken in the table before imputation. The order in which `unique()` lists the names therefore does not affect the
result.

The script reports only the median used for each signal (line 42). It does not count the cells it fills, and neither
does the model. Like line 42, the model reports a signal whose median is defined even when that signal has no gap to
fill.

## Model

| member | source | states |
|---|---|---|
| Records.CoerceTable | transform_vehicle_data.py:20-28 | every row is kept, in order; each typed column becomes the parsed value, or missing when the cell is blank or the parser rejects it; the other columns are unchanged |
| Records.CoercionIsIdempotent | transform_vehicle_data.py:20-28 | storing an already coerced table and coercing it again yields the same table |
| Records.CountMissingEventTime | transform_vehicle_data.py:21 | the count of missing event times never exceeds the row count |
| Records.EventTimeCountIsRowCount | transform_vehicle_data.py:21 | that count is exactly the number of row positions whose event time is missing |
| Records.CountMissingSignalValue | transform_vehicle_data.py:29 | the count of missing values never exceeds the row count |
| Records.SignalValueCountIsRowCount | transform_vehicle_data.py:29 | that count is exactly the number of row positions whose value is missing |
| Filtering.DropMissingEventTime | transform_vehicle_data.py:33 | no more rows than the input; every kept row has an event time |
| Filtering.KeptRowsAreAtKeptPositions | transform_vehicle_data.py:33 | the kept table is the input read at the kept positions, one row per position |
| Filtering.KeptPositionsAreTheTimedRows | transform_vehicle_data.py:33 | the kept positions ascend strictly, and a position is kept exactly when its row has an event time |
| Filtering.RemovedRowsAreTheInvalidTimes | transform_vehicle_data.py:33-34 | rows removed = input rows − kept rows = the count of invalid event times |
| Stats.Median | transform_vehicle_data.py:39 | the median is undefined exactly when there are no values |
| Stats.MedianSplitsValues | transform_vehicle_data.py:39 | at most half of the values lie strictly below the median, and at most half strictly above it |
| Stats.MedianWithinRange | transform_vehicle_data.py:39 | the median lies between the smallest and the largest value |
| Stats.MedianIgnoresOrder | transform_vehicle_data.py:39 | the median depends only on the multiset of values, not on their order |
| Stats.MedianOfAnySortedArrangement | transform_vehicle_data.py:39 | for any ascending arrangement of the values, the median is its middle element when the count is odd and the mean of its two middle elements when it is even |
| Stats.MedianOfSpeedExample | transform_vehicle_data.py:39 | the values 0, 12, 48, 60 in any order have median 30 |
| Imputation.GroupValues | transform_vehicle_data.py:39 | a group has no more values than the table has rows, and the missing name's group has none |
| Imputation.GroupValuesAreTheGroupsValues | transform_vehicle_data.py:39 | a number is among a group's values exactly when some row of that group holds it |
| Imputation.GroupValuesKeepRepetitions | transform_vehicle_data.py:39 | each number occurs among a group's values exactly as often as rows of that group hold it, so repeated readings weigh in the median |
| Imputation.Unique | transform_vehicle_data.py:37 | the list of names is no longer than the column |
| Imputation.UniqueListsEachNameOnce | transform_vehicle_data.py:37 | each name in the column is listed, nothing else is, and no name twice |
| Imputation.UniqueFollowsFirstAppearance | transform_vehicle_data.py:37 | the names are listed in the order of their first appearance in the column |
| Imputation.Imputed | transform_vehicle_data.py:37-42 | the table keeps its row count; each row keeps every column except the value; a present value is never changed |
| Imputation.MissingValueGetsGroupMedian | transform_vehicle_data.py:38-41 | a missing value in a group that has a present value is replaced by that group's median |
| Imputation.GroupWithoutValuesStaysMissing | transform_vehicle_data.py:40 | a missing value stays missing when its row has no name, or when its group has no present values, because the median is then undefined |
| Imputation.RemainingGapsHaveNoDonors | transform_vehicle_data.py:37-42 | a value still missing after imputation was missing before, and its group (if it has a name) had no present value |
| Imputation.OtherGroupsDoNotContribute | transform_vehicle_data.py:38-39 | changing a row outside a group does not change how that group's rows are imputed |
| Imputation.NoValuesStayNoValues | transform_vehicle_data.py:40-41 | a group without values still has none after imputation |
| Imputation.ImputationIsIdempotent | transform_vehicle_data.py:37-42 | imputing an imputed table changes nothing |
| Imputation.MedianReportIsExact | transform_vehicle_data.py:40-42 | the reported (signal, median) pairs are exactly the names present whose median is defined, with that median |
| Imputation.MedianReportNamesEachSignalOnce | transform_vehicle_data.py:37-42 | the report names each signal at most once |
| Imputation.FillGaps | transform_vehicle_data.py:38-41 | every row of the group whose value is missing receives the median; every other row is unchanged |
| Imputation.ImputeGroup | transform_vehicle_data.py:38-41 | the median computed from the partly imputed table equals the group's median before imputation; afterward, exactly that group is also processed |
| Imputation.ImputeBySignal | transform_vehicle_data.py:37-42 | the array ends as `Imputed` of its initial contents, and the returned report is the median report of that table |
| Calendar.DateOf | transform_vehicle_data.py:45 | the date is a valid calendar date whose day number is the timestamp's day |
| Calendar.DayNumberIsInjective | transform_vehicle_data.py:45 | two valid dates with the same day number are the same date |
| Calendar.HourOf | transform_vehicle_data.py:46 | the hour lies in 0..23, and the timestamp falls within that hour of its day |
| Pipeline.Annotate | transform_vehicle_data.py:45-46 | removing the derived columns gives the row back, and the derived columns agree with the event time |
| Pipeline.DerivedColumnsAreDetermined | transform_vehicle_data.py:45-46 | derived columns that agree with the event time are its `.dt.date` and `.dt.hour` |
| Pipeline.AnnotateAll | transform_vehicle_data.py:45-46 | the same number of rows; each row is an input row with consistent derived columns appended |
| Pipeline.Cleaned | transform_vehicle_data.py:33-42 | every row after dropna and imputation has an event time |
| Pipeline.RearrangedRowsKeepDerivedColumns | transform_vehicle_data.py:45-49 | reordering the annotated rows keeps the hour in 0..23 and the date and hour equal to those of the event time |
| Pipeline.Transform | transform_vehicle_data.py:19-49 | the reported figures are the two missing-cell counts, rows removed = invalid times, processed = input rows, saved = output rows = input − invalid; the median report is that of the filtered table; the output is the stable sort of the annotated cleaned table; it is sorted and a permutation of it, with consistent date and hour |
| Ordering.StrLessIrreflexive | transform_vehicle_data.py:49 | no identifier sorts before itself |
| Ordering.StrLessTransitive | transform_vehicle_data.py:49 | identifier order is transitive |
| Ordering.StrLessTotal | transform_vehicle_data.py:49 | of two distinct identifiers, one sorts before the other |
| Ordering.KeyLessTotal | transform_vehicle_data.py:49 | two keys, neither before the other, are equal |
| Ordering.Insert | transform_vehicle_data.py:49 | inserting into a sorted table keeps it sorted and adds exactly that row |
| Ordering.SortRows | transform_vehicle_data.py:49 | the result is sorted by (vehicle_id, trip_id, event_time) and is a permutation of the input |
| Ordering.SortIsStable | transform_vehicle_data.py:49 | for every key, the rows with that key appear in the output in their input order |

## Left out

- Reading and writing CSV files, the hard-coded paths, and all printing (lines 1-17, 22, 30, 34, 42, 51-62). The
  figures the script prints are returned in `Diagnostics` instead.
- The parsers behind `pd.to_datetime` and `pd.to_numeric`. They are parameters of type `string -> Option<...>`,
  returning `None` for text that does not parse. Their formats, time zones and sub-second precision are not modelled.
- A missing column (a `KeyError` in pandas): the record types always have every column.
- Floating point: values and medians are `real`, so there is no rounding and there are no infinities. Missing values
  are `None` rather than NaN.
- Missing vehicle or trip ids: the ids are always present strings, so the placement of NaN keys by the sort is not
  modelled.
- Numeric id columns: `read_csv` types an all-digit `vehicle_id` or `trip_id` column as integers, and line 49 then
  sorts it numerically (9 before 10). The model keeps ids as strings in code-point order (10 before 9), so for such
  columns its order differs.
- The pandas `SettingWithCopy` behaviour of assigning into a filtered frame: the model treats the filtered table as
  a copy of its own.
- Renumbering with `reset_index(drop=True)`: it is implicit, because the output is a sequence whose positions are the
  new row numbers.
- Event times hold whole seconds, with no time zone.
- `Pipeline.Transform` keeps the rows in a sequence, and in an array only during imputation. The sort is modelled as
  a function on sequences, not as an in-place sort.
