/**
  The whole transformation of `transform_vehicle_data.py`, lines 19-49:
  coerce the typed columns, count what is missing, drop the rows without an
  event time, impute the missing values per signal, append `date` and `hour`,
  and sort. Line numbers below refer to that script.
 */
module Pipeline {

  import opened Wrappers
  import opened Calendar
  import opened Records
  import opened Filtering
  import opened Imputation
  import opened Ordering

  /** The row without the two derived columns. */
  function Strip(c: CleanRecord): Record {
    Record(c.vehicleId, c.tripId, Some(c.eventTime), c.ingestionTime, c.signalName, c.signalValue, c.extra)
  }

  /**
    `date` is the calendar day containing `event_time`, and `hour` the hour
    of that day in which `event_time` falls.
   */
  predicate DerivedFromEventTime(c: CleanRecord) {
    && ValidDate(c.date)
    && DayNumber(c.date) == c.eventTime / SecondsPerDay
    && 0 <= c.hour < 24
    && c.eventTime / SecondsPerDay * SecondsPerDay + c.hour * SecondsPerHour <= c.eventTime
    && c.eventTime < c.eventTime / SecondsPerDay * SecondsPerDay + (c.hour + 1) * SecondsPerHour
  }

  /** Lines 45-46 on one row: the derived columns are appended, the rest is kept. */
  function Annotate(r: Record): (c: CleanRecord)
    requires r.eventTime.Some?
    ensures Strip(c) == r
    ensures DerivedFromEventTime(c)
  {
    var t := r.eventTime.value;
    CleanRecord(r.vehicleId, r.tripId, t, r.ingestionTime, r.signalName, r.signalValue, r.extra,
                DateOf(t), HourOf(t))
  }

  /** The derived columns are determined by the event time: they are `.dt.date` and `.dt.hour`. */
  lemma DerivedColumnsAreDetermined(c: CleanRecord)
    requires DerivedFromEventTime(c)
    ensures c.date == DateOf(c.eventTime)
    ensures c.hour == HourOf(c.eventTime)
  {
    DayNumberIsInjective(c.date, DateOf(c.eventTime));
    var h, base := HourOf(c.eventTime), c.eventTime / SecondsPerDay * SecondsPerDay;
    assert base + h * SecondsPerHour <= c.eventTime < base + (h + 1) * SecondsPerHour;
    assert c.hour == h;
  }

  /** Lines 45-46 on the whole table. */
  function AnnotateAll(rows: seq<Record>): (out: seq<CleanRecord>)
    requires forall i :: 0 <= i < |rows| ==> rows[i].eventTime.Some?
    ensures |out| == |rows|
    ensures forall i :: 0 <= i < |rows| ==> Strip(out[i]) == rows[i] && DerivedFromEventTime(out[i])
  {
    seq(|rows|, i requires 0 <= i < |rows| => Annotate(rows[i]))
  }

  /** The figures the script reports while it runs. */
  datatype Diagnostics = Diagnostics(
    invalidEventTimes: nat,
    missingSignalValues: nat,
    rowsRemoved: int,
    filledMedians: seq<(string, real)>,
    recordsProcessed: nat,
    recordsSaved: nat)

  /** The table after dropna and imputation, before the derived columns. */
  function Cleaned(raw: seq<RawRecord>, parseTime: TimeParser, parseNumber: NumberParser): (rows: seq<Record>)
    ensures forall i :: 0 <= i < |rows| ==> rows[i].eventTime.Some?
  {
    Imputed(DropMissingEventTime(CoerceTable(raw, parseTime, parseNumber)))
  }

  /**
    Lines 19-49. The output is a sorted permutation of the annotated cleaned
    rows with consistent derived columns, and the reported figures are the
    counts they name.
   */
  method Transform(raw: seq<RawRecord>, parseTime: TimeParser, parseNumber: NumberParser)
    returns (out: seq<CleanRecord>, diag: Diagnostics)
    ensures var df := CoerceTable(raw, parseTime, parseNumber);
      && diag.invalidEventTimes == |MissingEventTimeRows(df)|
      && diag.missingSignalValues == |MissingSignalValueRows(df)|
      && diag.filledMedians == MedianReport(DropMissingEventTime(df))
    ensures diag.rowsRemoved == diag.invalidEventTimes
    ensures diag.recordsProcessed == |raw|
    ensures diag.recordsSaved == |out| == |raw| - diag.invalidEventTimes
    ensures out == SortRows(AnnotateAll(Cleaned(raw, parseTime, parseNumber)))
    ensures Sorted(out)
    ensures multiset(out) == multiset(AnnotateAll(Cleaned(raw, parseTime, parseNumber)))
    ensures forall i :: 0 <= i < |out| ==>
      && 0 <= out[i].hour < 24
      && out[i].date == DateOf(out[i].eventTime)
      && out[i].hour == HourOf(out[i].eventTime)
  {
    var df := CoerceTable(raw, parseTime, parseNumber);
    var invalidTimes := CountMissingEventTime(df);
    var missingValues := CountMissingSignalValue(df);
    EventTimeCountIsRowCount(df);
    SignalValueCountIsRowCount(df);

    var kept := DropMissingEventTime(df);
    RemovedRowsAreTheInvalidTimes(df);
    var a := new Record[|kept|](i requires 0 <= i < |kept| => kept[i]);
    assert a[..] == kept;
    var filled := ImputeBySignal(a);
    var cleaned := a[..];
    assert cleaned == Cleaned(raw, parseTime, parseNumber);

    var annotated := AnnotateAll(cleaned);
    out := SortRows(annotated);
    diag := Diagnostics(invalidTimes, missingValues, |df| - |kept|, filled, |df|, |out|);

    RearrangedRowsKeepDerivedColumns(annotated, out);
  }

  /** Reordering rows whose derived columns are consistent leaves them consistent. */
  lemma RearrangedRowsKeepDerivedColumns(rows: seq<CleanRecord>, perm: seq<CleanRecord>)
    requires multiset(perm) == multiset(rows)
    requires forall i :: 0 <= i < |rows| ==> DerivedFromEventTime(rows[i])
    ensures forall i :: 0 <= i < |perm| ==>
      && 0 <= perm[i].hour < 24
      && perm[i].date == DateOf(perm[i].eventTime)
      && perm[i].hour == HourOf(perm[i].eventTime)
  {
    forall i | 0 <= i < |perm|
      ensures perm[i].date == DateOf(perm[i].eventTime) && perm[i].hour == HourOf(perm[i].eventTime)
    {
      assert perm[i] in multiset(rows);
      var j :| 0 <= j < |rows| && rows[j] == perm[i];
      DerivedColumnsAreDetermined(rows[j]);
    }
  }
}
