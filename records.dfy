/**
  The rows of the telemetry table at each stage, and the tolerant coercion
  of the raw text columns (`pd.to_datetime(..., errors='coerce')` for the two
  timestamp columns, `pd.to_numeric(..., errors='coerce')` for the value).

  The parsers themselves belong to pandas and are passed in as functions: a
  parser maps the text of a cell to a value or to `None` (NaT / NaN). Line
  numbers below refer to `transform_vehicle_data.py`.
 */
module Records {

  import opened Wrappers
  import opened Calendar

  /**
    A cell of a column as the CSV reader delivers it: empty (already NaN),
    text still to be parsed, or a value the reader has already typed.
   */
  datatype Cell<T> = Blank | Text(text: string) | Value(value: T)

  /** A row as loaded; `extra` holds any further columns, carried unchanged. */
  datatype RawRecord = RawRecord(
    vehicleId: string,
    tripId: string,
    eventTime: Cell<Timestamp>,
    ingestionTime: Cell<Timestamp>,
    signalName: Option<string>,
    signalValue: Cell<real>,
    extra: seq<string>)

  /** A row after coercion: every typed column is a value or missing. */
  datatype Record = Record(
    vehicleId: string,
    tripId: string,
    eventTime: Option<Timestamp>,
    ingestionTime: Option<Timestamp>,
    signalName: Option<string>,
    signalValue: Option<real>,
    extra: seq<string>)

  /** A row of the output: the event time is present and `date`, `hour` are appended. */
  datatype CleanRecord = CleanRecord(
    vehicleId: string,
    tripId: string,
    eventTime: Timestamp,
    ingestionTime: Option<Timestamp>,
    signalName: Option<string>,
    signalValue: Option<real>,
    extra: seq<string>,
    date: Date,
    hour: int)

  type TimeParser = string -> Option<Timestamp>
  type NumberParser = string -> Option<real>

  /** Tolerant coercion of one cell: a cell that does not parse becomes missing. */
  function Coerce<T>(parse: string -> Option<T>, c: Cell<T>): Option<T> {
    match c
    case Blank => None
    case Text(t) => parse(t)
    case Value(v) => Some(v)
  }

  /** How a coerced column holds its cells: a typed value, or NaN. */
  function Stored<T>(v: Option<T>): Cell<T> {
    match v
    case None => Blank
    case Some(x) => Value(x)
  }

  function CoerceRecord(r: RawRecord, parseTime: TimeParser, parseNumber: NumberParser): Record {
    Record(r.vehicleId, r.tripId,
           Coerce(parseTime, r.eventTime),
           Coerce(parseTime, r.ingestionTime),
           r.signalName,
           Coerce(parseNumber, r.signalValue),
           r.extra)
  }

  /** The three column overwrites, applied to every row. */
  function CoerceTable(rows: seq<RawRecord>, parseTime: TimeParser, parseNumber: NumberParser): (t: seq<Record>)
    ensures |t| == |rows|
    ensures forall i :: 0 <= i < |rows| ==> t[i] == CoerceRecord(rows[i], parseTime, parseNumber)
  {
    seq(|rows|, i requires 0 <= i < |rows| => CoerceRecord(rows[i], parseTime, parseNumber))
  }

  /** The coerced table as the columns now hold it, ready to be coerced again. */
  function StoredTable(t: seq<Record>): (rows: seq<RawRecord>)
    ensures |rows| == |t|
  {
    seq(|t|, i requires 0 <= i < |t| =>
      RawRecord(t[i].vehicleId, t[i].tripId, Stored(t[i].eventTime), Stored(t[i].ingestionTime),
                t[i].signalName, Stored(t[i].signalValue), t[i].extra))
  }

  /** Coercing a column that has already been coerced changes nothing. */
  lemma CoercionIsIdempotent(rows: seq<RawRecord>, parseTime: TimeParser, parseNumber: NumberParser)
    ensures CoerceTable(StoredTable(CoerceTable(rows, parseTime, parseNumber)), parseTime, parseNumber)
         == CoerceTable(rows, parseTime, parseNumber)
  {
    var once := CoerceTable(rows, parseTime, parseNumber);
    var twice := CoerceTable(StoredTable(once), parseTime, parseNumber);
    forall i | 0 <= i < |rows| ensures twice[i] == once[i] {
      assert Coerce(parseTime, Stored(once[i].eventTime)) == once[i].eventTime;
      assert Coerce(parseTime, Stored(once[i].ingestionTime)) == once[i].ingestionTime;
      assert Coerce(parseNumber, Stored(once[i].signalValue)) == once[i].signalValue;
    }
  }

  /** Line 21: the number of rows whose event time is missing after coercion. */
  function CountMissingEventTime(rows: seq<Record>): (n: nat)
    ensures n <= |rows|
  {
    if rows == [] then 0
    else CountMissingEventTime(rows[..|rows| - 1]) + (if rows[|rows| - 1].eventTime.None? then 1 else 0)
  }

  /** Line 29: the number of rows whose signal value is missing after coercion. */
  function CountMissingSignalValue(rows: seq<Record>): (n: nat)
    ensures n <= |rows|
  {
    if rows == [] then 0
    else CountMissingSignalValue(rows[..|rows| - 1]) + (if rows[|rows| - 1].signalValue.None? then 1 else 0)
  }

  /** The rows with a missing event time, as a set of row positions. */
  function MissingEventTimeRows(rows: seq<Record>): set<int> {
    set i | 0 <= i < |rows| && rows[i].eventTime.None?
  }

  /** The rows with a missing signal value, as a set of row positions. */
  function MissingSignalValueRows(rows: seq<Record>): set<int> {
    set i | 0 <= i < |rows| && rows[i].signalValue.None?
  }

  lemma {:induction false} EventTimeCountIsRowCount(rows: seq<Record>)
    ensures CountMissingEventTime(rows) == |MissingEventTimeRows(rows)|
  {
    if rows != [] {
      var n := |rows| - 1;
      var front := rows[..n];
      EventTimeCountIsRowCount(front);
      assert forall i :: 0 <= i < n ==> front[i] == rows[i];
      if rows[n].eventTime.None? {
        assert MissingEventTimeRows(rows) == MissingEventTimeRows(front) + {n};
      } else {
        assert MissingEventTimeRows(rows) == MissingEventTimeRows(front);
      }
    }
  }

  lemma {:induction false} SignalValueCountIsRowCount(rows: seq<Record>)
    ensures CountMissingSignalValue(rows) == |MissingSignalValueRows(rows)|
  {
    if rows != [] {
      var n := |rows| - 1;
      var front := rows[..n];
      SignalValueCountIsRowCount(front);
      assert forall i :: 0 <= i < n ==> front[i] == rows[i];
      if rows[n].signalValue.None? {
        assert MissingSignalValueRows(rows) == MissingSignalValueRows(front) + {n};
      } else {
        assert MissingSignalValueRows(rows) == MissingSignalValueRows(front);
      }
    }
  }
}
