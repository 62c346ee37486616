/**
  `df.dropna(subset=['event_time'])` in `transform_vehicle_data.py`: the rows
  whose event time survived coercion. Line numbers below refer to that script.
 */
module Filtering {

  import opened Records

  /** Keeps, in their original order, the rows whose event time is present. */
  function DropMissingEventTime(rows: seq<Record>): (kept: seq<Record>)
    ensures |kept| <= |rows|
    ensures forall i :: 0 <= i < |kept| ==> kept[i].eventTime.Some?
  {
    if rows == [] then []
    else
      var last := rows[|rows| - 1];
      DropMissingEventTime(rows[..|rows| - 1]) + (if last.eventTime.Some? then [last] else [])
  }

  /** The positions of the rows the filter keeps, in ascending order. */
  function KeptPositions(rows: seq<Record>): (ix: seq<int>)
    ensures forall j :: 0 <= j < |ix| ==> 0 <= ix[j] < |rows|
  {
    if rows == [] then []
    else
      var n := |rows| - 1;
      KeptPositions(rows[..n]) + (if rows[n].eventTime.Some? then [n] else [])
  }

  /**
    The filter keeps each row in the order of the input: the kept table is
    the input read at the list of kept positions.
   */
  lemma {:induction false} KeptRowsAreAtKeptPositions(rows: seq<Record>)
    ensures var kept, ix := DropMissingEventTime(rows), KeptPositions(rows);
      && |ix| == |kept|
      && (forall j :: 0 <= j < |ix| ==> kept[j] == rows[ix[j]])
  {
    if rows != [] {
      var n := |rows| - 1;
      var front := rows[..n];
      KeptRowsAreAtKeptPositions(front);
      var kept, ix := DropMissingEventTime(front), KeptPositions(front);
      assert forall j :: 0 <= j < |ix| ==> front[ix[j]] == rows[ix[j]];
      if rows[n].eventTime.Some? {
        assert DropMissingEventTime(rows) == kept + [rows[n]];
        assert KeptPositions(rows) == ix + [n];
      }
    }
  }

  /**
    The kept positions ascend strictly, and a position is among them exactly
    when its row has an event time: no timed row is lost, none is kept twice.
   */
  lemma {:induction false} KeptPositionsAreTheTimedRows(rows: seq<Record>)
    ensures var ix := KeptPositions(rows);
      && (forall j, k :: 0 <= j < k < |ix| ==> ix[j] < ix[k])
      && (forall i :: 0 <= i < |rows| ==> (rows[i].eventTime.Some? <==> i in ix))
  {
    if rows != [] {
      var n := |rows| - 1;
      var front := rows[..n];
      KeptPositionsAreTheTimedRows(front);
      var ix := KeptPositions(front);
      assert forall i :: 0 <= i < n ==> front[i] == rows[i];
      assert forall j :: 0 <= j < |ix| ==> ix[j] < n;
      if rows[n].eventTime.Some? {
        assert KeptPositions(rows) == ix + [n];
      }
    }
  }

  /**
    Line 34's "rows removed" (input count minus kept count) is the number of
    missing event times counted at line 21.
   */
  lemma {:induction false} RemovedRowsAreTheInvalidTimes(rows: seq<Record>)
    ensures |rows| - |DropMissingEventTime(rows)| == CountMissingEventTime(rows)
  {
    if rows != [] {
      RemovedRowsAreTheInvalidTimes(rows[..|rows| - 1]);
    }
  }
}
