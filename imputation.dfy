/**
  Per-signal median imputation (the loop over `df_cleaned['signal_name'].unique()`).

  For each distinct signal name, the median of that group's present values
  is written into the group's missing cells; a group without any present
  value has no median (NaN) and is left alone. `Imputed` is the table this
  produces, stated row by row; `ImputeBySignal` is the loop itself, run in
  place on an array, and is proved to produce `Imputed`. Line numbers below
  refer to `transform_vehicle_data.py`.
 */
module Imputation {

  import opened Wrappers
  import opened Records
  import opened Stats

  /**
    Membership in a group as pandas' `df['signal_name'] == signal` decides it:
    a missing (NaN) name equals nothing, not even another NaN.
   */
  predicate InGroup(r: Record, g: Option<string>) {
    g.Some? && r.signalName == g
  }

  /** The present values of group `g`, in row order: what `.median()` is taken over. */
  function GroupValues(rows: seq<Record>, g: Option<string>): (vals: seq<real>)
    ensures |vals| <= |rows|
    ensures g.None? ==> vals == []
  {
    if rows == [] then []
    else
      var n := |rows| - 1;
      GroupValues(rows[..n], g)
      + (if InGroup(rows[n], g) && rows[n].signalValue.Some? then [rows[n].signalValue.value] else [])
  }

  /**
    The median is taken over exactly the present values of the group: a value
    is among them if and only if some row of the group holds it.
   */
  lemma {:induction false} GroupValuesAreTheGroupsValues(rows: seq<Record>, g: Option<string>)
    ensures forall v :: v in GroupValues(rows, g) <==>
      exists j :: 0 <= j < |rows| && InGroup(rows[j], g) && rows[j].signalValue == Some(v)
  {
    if rows != [] {
      var n := |rows| - 1;
      GroupValuesAreTheGroupsValues(rows[..n], g);
      assert forall j :: 0 <= j < n ==> rows[..n][j] == rows[j];
    }
  }

  /** The rows of group `g` whose present value is `v`, as a set of row positions. */
  function RowsHolding(rows: seq<Record>, g: Option<string>, v: real): set<int> {
    set j | 0 <= j < |rows| && InGroup(rows[j], g) && rows[j].signalValue == Some(v)
  }

  /** Extending the table by one row adds that row's position to the holders, if it holds `v`. */
  lemma RowsHoldingStep(rows: seq<Record>, g: Option<string>, v: real)
    requires rows != []
    ensures var n := |rows| - 1;
      RowsHolding(rows, g, v) == RowsHolding(rows[..n], g, v)
        + (if InGroup(rows[n], g) && rows[n].signalValue == Some(v) then {n} else {})
  {
    var n := |rows| - 1;
    var front := rows[..n];
    var extra: set<int> := if InGroup(rows[n], g) && rows[n].signalValue == Some(v) then {n} else {};
    forall j ensures j in RowsHolding(rows, g, v) <==> j in RowsHolding(front, g, v) + extra {
      if 0 <= j < n {
        assert front[j] == rows[j];
      }
    }
  }

  /**
    Repetitions count: each value occurs among the group's values as often as
    rows of the group hold it, so the median weighs repeated readings.
   */
  lemma {:induction false} GroupValuesKeepRepetitions(rows: seq<Record>, g: Option<string>, v: real)
    ensures multiset(GroupValues(rows, g))[v] == |RowsHolding(rows, g, v)|
  {
    if rows != [] {
      var n := |rows| - 1;
      var front := rows[..n];
      GroupValuesKeepRepetitions(front, g, v);
      RowsHoldingStep(rows, g, v);
      var tail := if InGroup(rows[n], g) && rows[n].signalValue.Some? then [rows[n].signalValue.value] else [];
      assert GroupValues(rows, g) == GroupValues(front, g) + tail;
      assert multiset(GroupValues(rows, g)) == multiset(GroupValues(front, g)) + multiset(tail);
      if InGroup(rows[n], g) && rows[n].signalValue == Some(v) {
        assert n !in RowsHolding(front, g, v);
      } else {
        assert multiset(tail)[v] == 0;
      }
    }
  }

  lemma DonorIsCounted(rows: seq<Record>, g: Option<string>, j: int)
    requires 0 <= j < |rows| && InGroup(rows[j], g) && rows[j].signalValue.Some?
    ensures rows[j].signalValue.value in GroupValues(rows, g)
  {
    GroupValuesAreTheGroupsValues(rows, g);
  }

  /** `unique()`: every name once, in order of first appearance. */
  function Unique(s: seq<Option<string>>): (u: seq<Option<string>>)
    ensures |u| <= |s|
  {
    if s == [] then []
    else
      var u := Unique(s[..|s| - 1]);
      var x := s[|s| - 1];
      if x in u then u else u + [x]
  }

  /** The first position of `x` in `s`, or `|s|` when it does not occur. */
  function FirstIndex(s: seq<Option<string>>, x: Option<string>): (p: nat)
    ensures p <= |s|
  {
    if s == [] then 0
    else
      var n := |s| - 1;
      if x in s[..n] then FirstIndex(s[..n], x)
      else if s[n] == x then n
      else |s|
  }

  lemma {:induction false} FirstIndexOfMember(s: seq<Option<string>>, x: Option<string>)
    ensures x in s <==> FirstIndex(s, x) < |s|
  {
    if s != [] {
      var n := |s| - 1;
      FirstIndexOfMember(s[..n], x);
      assert x in s <==> x in s[..n] || s[n] == x by {
        assert s == s[..n] + [s[n]];
      }
    }
  }

  /** `unique()` lists every name of the column and lists each only once. */
  lemma {:induction false} UniqueListsEachNameOnce(s: seq<Option<string>>)
    ensures forall x :: x in Unique(s) <==> x in s
    ensures forall i, j :: 0 <= i < j < |Unique(s)| ==> Unique(s)[i] != Unique(s)[j]
  {
    if s != [] {
      var front := s[..|s| - 1];
      UniqueListsEachNameOnce(front);
      assert forall y :: y in s <==> y in front || y == s[|s| - 1];
    }
  }

  /** `unique()` lists the names in the order in which they first appear. */
  lemma {:induction false} UniqueFollowsFirstAppearance(s: seq<Option<string>>)
    ensures forall i, j :: 0 <= i < j < |Unique(s)| ==>
      FirstIndex(s, Unique(s)[i]) < FirstIndex(s, Unique(s)[j])
  {
    if s != [] {
      var n := |s| - 1;
      var front, x := s[..n], s[n];
      var u := Unique(front);
      UniqueFollowsFirstAppearance(front);
      UniqueListsEachNameOnce(front);
      forall y | y in u ensures FirstIndex(s, y) == FirstIndex(front, y) < n {
        FirstIndexOfMember(front, y);
      }
      if x !in u {
        assert FirstIndex(s, x) == n;
      }
    }
  }

  lemma PrefixStep(u: seq<Option<string>>, k: int)
    requires 0 <= k < |u|
    ensures u[..k + 1] == u[..k] + [u[k]]
  {
  }

  lemma NotSeenBefore(u: seq<Option<string>>, k: int)
    requires 0 <= k < |u|
    requires forall i, j :: 0 <= i < j < |u| ==> u[i] != u[j]
    ensures u[k] !in u[..k]
  {
    assert forall i :: 0 <= i < k ==> u[..k][i] == u[i] != u[k];
  }

  function SignalNames(rows: seq<Record>): (names: seq<Option<string>>)
    ensures |names| == |rows|
  {
    seq(|rows|, i requires 0 <= i < |rows| => rows[i].signalName)
  }

  /** One row after imputation against the (filtered, not yet imputed) table `rows`. */
  function ImputeRecord(r: Record, rows: seq<Record>): Record {
    if r.signalValue.None? && r.signalName.Some? then
      match Median(GroupValues(rows, r.signalName))
      case None => r
      case Some(m) => r.(signalValue := Some(m))
    else r
  }

  /**
    The imputed table. Only the signal value of a row can change, and only
    when it was missing (the mask of line 38); no row is added or removed.
   */
  function Imputed(rows: seq<Record>): (out: seq<Record>)
    ensures |out| == |rows|
    ensures forall i :: 0 <= i < |rows| ==> out[i] == rows[i].(signalValue := out[i].signalValue)
    ensures forall i :: 0 <= i < |rows| && rows[i].signalValue.Some? ==> out[i] == rows[i]
  {
    seq(|rows|, i requires 0 <= i < |rows| => ImputeRecord(rows[i], rows))
  }

  /**
    A missing value in a group with at least one present value receives the
    median of the present values of its own group, taken in the table before
    imputation.
   */
  lemma MissingValueGetsGroupMedian(rows: seq<Record>, i: int)
    requires 0 <= i < |rows| && rows[i].signalValue.None?
    requires exists j :: 0 <= j < |rows| && rows[j].signalName == rows[i].signalName
                         && rows[i].signalName.Some? && rows[j].signalValue.Some?
    ensures Median(GroupValues(rows, rows[i].signalName)).Some?
    ensures Imputed(rows)[i].signalValue == Median(GroupValues(rows, rows[i].signalName))
  {
    var j :| 0 <= j < |rows| && rows[j].signalName == rows[i].signalName
             && rows[i].signalName.Some? && rows[j].signalValue.Some?;
    DonorIsCounted(rows, rows[i].signalName, j);
  }

  lemma {:induction false} NoDonorsNoValues(rows: seq<Record>, g: Option<string>)
    requires forall j :: 0 <= j < |rows| && InGroup(rows[j], g) ==> rows[j].signalValue.None?
    ensures GroupValues(rows, g) == []
  {
    if rows != [] {
      NoDonorsNoValues(rows[..|rows| - 1], g);
    }
  }

  /**
    A group without any present value has an undefined median; its missing
    values stay missing. A row without a name belongs to no group, so its gap
    always stays missing.
   */
  lemma GroupWithoutValuesStaysMissing(rows: seq<Record>, i: int)
    requires 0 <= i < |rows| && rows[i].signalValue.None?
    requires forall j :: 0 <= j < |rows| && InGroup(rows[j], rows[i].signalName) ==> rows[j].signalValue.None?
    ensures Median(GroupValues(rows, rows[i].signalName)).None?
    ensures Imputed(rows)[i].signalValue.None?
  {
    NoDonorsNoValues(rows, rows[i].signalName);
  }

  /**
    A value survives imputation missing only if its row has no name or its
    group has no present value anywhere in the table.
   */
  lemma RemainingGapsHaveNoDonors(rows: seq<Record>, i: int)
    requires 0 <= i < |rows| && Imputed(rows)[i].signalValue.None?
    ensures rows[i].signalValue.None?
    ensures rows[i].signalName.Some? ==>
      forall j :: 0 <= j < |rows| && rows[j].signalName == rows[i].signalName ==> rows[j].signalValue.None?
  {
    var g := rows[i].signalName;
    forall j | 0 <= j < |rows| && rows[j].signalName == g && g.Some?
      ensures rows[j].signalValue.None?
    {
      if rows[j].signalValue.Some? {
        DonorIsCounted(rows, g, j);
      }
    }
  }

  /** Two tables that agree on which rows form group `g` and on their values give `g` the same values. */
  lemma {:induction false} GroupValuesDependOnlyOnGroup(t1: seq<Record>, t2: seq<Record>, g: Option<string>)
    requires |t1| == |t2|
    requires forall i :: 0 <= i < |t1| ==> InGroup(t1[i], g) == InGroup(t2[i], g)
    requires forall i :: 0 <= i < |t1| && InGroup(t1[i], g) ==> t1[i].signalValue == t2[i].signalValue
    ensures GroupValues(t1, g) == GroupValues(t2, g)
  {
    if t1 != [] {
      var n := |t1| - 1;
      GroupValuesDependOnlyOnGroup(t1[..n], t2[..n], g);
    }
  }

  /**
    Values of other groups never contribute: replacing a row that is outside
    group `g` by another row outside `g` changes the imputation of no row of `g`.
   */
  lemma OtherGroupsDoNotContribute(rows: seq<Record>, j: int, x: Record, g: Option<string>)
    requires 0 <= j < |rows| && !InGroup(rows[j], g) && !InGroup(x, g)
    ensures forall i :: 0 <= i < |rows| && i != j && InGroup(rows[i], g) ==>
      Imputed(rows[j := x])[i] == Imputed(rows)[i]
  {
    GroupValuesDependOnlyOnGroup(rows, rows[j := x], g);
  }

  lemma NoValuesStayNoValues(rows: seq<Record>, g: Option<string>)
    requires GroupValues(rows, g) == []
    ensures GroupValues(Imputed(rows), g) == []
  {
    var out := Imputed(rows);
    forall j | 0 <= j < |out| && InGroup(out[j], g) ensures out[j].signalValue.None? {
      if rows[j].signalValue.Some? {
        DonorIsCounted(rows, g, j);
      }
    }
    NoDonorsNoValues(out, g);
  }

  /** Imputing an imputed table changes nothing. */
  lemma ImputationIsIdempotent(rows: seq<Record>)
    ensures Imputed(Imputed(rows)) == Imputed(rows)
  {
    var out := Imputed(rows);
    forall i | 0 <= i < |out| ensures ImputeRecord(out[i], out) == out[i] {
      var g := out[i].signalName;
      if out[i].signalValue.None? && g.Some? {
        assert rows[i].signalName == g && rows[i].signalValue.None?;
        assert Median(GroupValues(rows, g)).None?;
        NoValuesStayNoValues(rows, g);
      }
    }
  }

  /** The (signal, median) pairs that line 42 reports, for the names in `names`. */
  function ReportFor(rows: seq<Record>, names: seq<Option<string>>): seq<(string, real)> {
    if names == [] then []
    else
      var g := names[|names| - 1];
      var m := Median(GroupValues(rows, g));
      ReportFor(rows, names[..|names| - 1]) + (if g.Some? && m.Some? then [(g.value, m.value)] else [])
  }

  /** Line 42's report: one entry per signal, in `unique()` order, for every signal with a median. */
  function MedianReport(rows: seq<Record>): seq<(string, real)> {
    ReportFor(rows, Unique(SignalNames(rows)))
  }

  lemma {:induction false} ReportForEntries(rows: seq<Record>, names: seq<Option<string>>)
    ensures forall e :: e in ReportFor(rows, names) <==>
      Some(e.0) in names && Median(GroupValues(rows, Some(e.0))) == Some(e.1)
  {
    if names != [] {
      var front := names[..|names| - 1];
      ReportForEntries(rows, front);
      assert forall y :: y in names <==> y in front || y == names[|names| - 1];
    }
  }

  /**
    The report names exactly the signals of the table that have a defined
    median, each with that median.
   */
  lemma MedianReportIsExact(rows: seq<Record>)
    ensures forall e :: e in MedianReport(rows) <==>
      (exists i :: 0 <= i < |rows| && rows[i].signalName == Some(e.0))
      && Median(GroupValues(rows, Some(e.0))) == Some(e.1)
  {
    ReportForEntries(rows, Unique(SignalNames(rows)));
    UniqueListsEachNameOnce(SignalNames(rows));
    forall s: string ensures Some(s) in SignalNames(rows) <==> exists i :: 0 <= i < |rows| && rows[i].signalName == Some(s) {
      if Some(s) in SignalNames(rows) {
        var i :| 0 <= i < |rows| && SignalNames(rows)[i] == Some(s);
      }
      if i :| 0 <= i < |rows| && rows[i].signalName == Some(s) {
        assert SignalNames(rows)[i] == Some(s);
      }
    }
  }

  lemma {:induction false} ReportForNamesOnce(rows: seq<Record>, names: seq<Option<string>>)
    requires forall i, j :: 0 <= i < j < |names| ==> names[i] != names[j]
    ensures forall i, j :: 0 <= i < j < |ReportFor(rows, names)| ==>
      ReportFor(rows, names)[i].0 != ReportFor(rows, names)[j].0
  {
    if names != [] {
      var front, g := names[..|names| - 1], names[|names| - 1];
      ReportForNamesOnce(rows, front);
      ReportForEntries(rows, front);
      var r := ReportFor(rows, front);
      assert g !in front;
      forall i | 0 <= i < |r| ensures g.Some? ==> r[i].0 != g.value {
        assert r[i] in r;
      }
    }
  }

  /** The report names each signal at most once. */
  lemma MedianReportNamesEachSignalOnce(rows: seq<Record>)
    ensures forall i, j :: 0 <= i < j < |MedianReport(rows)| ==>
      MedianReport(rows)[i].0 != MedianReport(rows)[j].0
  {
    UniqueListsEachNameOnce(SignalNames(rows));
    ReportForNamesOnce(rows, Unique(SignalNames(rows)));
  }

  /** The row after the groups named in `done` have been processed. */
  function PartlyImputed(r: Record, rows: seq<Record>, done: seq<Option<string>>): Record {
    if r.signalName in done then ImputeRecord(r, rows) else r
  }

  /** The table after the groups named in `done` have been processed. */
  function ProcessedTable(rows: seq<Record>, done: seq<Option<string>>): (t: seq<Record>)
    ensures |t| == |rows|
  {
    seq(|rows|, i requires 0 <= i < |rows| => PartlyImputed(rows[i], rows, done))
  }

  /** Before a group is processed, the table still holds its original rows, so its values are the original ones. */
  lemma UnprocessedGroupIsIntact(rows: seq<Record>, done: seq<Option<string>>, g: Option<string>)
    requires g !in done
    ensures GroupValues(ProcessedTable(rows, done), g) == GroupValues(rows, g)
  {
    GroupValuesDependOnlyOnGroup(ProcessedTable(rows, done), rows, g);
  }

  /** `.loc[mask, 'signal_value'] = m` applied to one row: fills the row if it is a gap of group `g`. */
  function FillIfGap(r: Record, g: Option<string>, m: real): Record {
    if InGroup(r, g) && r.signalValue.None? then r.(signalValue := Some(m)) else r
  }

  /** Writing the group's median into its missing cells completes the round for group `g`. */
  lemma FillStep(r0: Record, rows: seq<Record>, done: seq<Option<string>>, g: Option<string>, m: real)
    requires g !in done && Median(GroupValues(rows, g)) == Some(m)
    ensures FillIfGap(PartlyImputed(r0, rows, done), g, m) == PartlyImputed(r0, rows, done + [g])
  {
  }

  /**
    One round of the loop, for group `g`: filling the group's gaps with its
    median, or doing nothing when it has none, extends the processed names by `g`.
   */
  lemma RoundStep(after: seq<Record>, rows: seq<Record>, done: seq<Option<string>>, g: Option<string>)
    requires g !in done && |after| == |rows|
    requires Median(GroupValues(rows, g)).None? ==> after == ProcessedTable(rows, done)
    requires Median(GroupValues(rows, g)).Some? ==>
      forall i :: 0 <= i < |rows| ==>
        after[i] == FillIfGap(ProcessedTable(rows, done)[i], g, Median(GroupValues(rows, g)).value)
    ensures after == ProcessedTable(rows, done + [g])
  {
    match Median(GroupValues(rows, g))
    case None =>
    case Some(m) =>
      forall i | 0 <= i < |rows| ensures after[i] == ProcessedTable(rows, done + [g])[i] {
        FillStep(rows[i], rows, done, g, m);
      }
  }

  lemma AllNamesProcessed(rows: seq<Record>)
    ensures ProcessedTable(rows, Unique(SignalNames(rows))) == Imputed(rows)
  {
    UniqueListsEachNameOnce(SignalNames(rows));
    forall i | 0 <= i < |rows| ensures ProcessedTable(rows, Unique(SignalNames(rows)))[i] == Imputed(rows)[i] {
      assert SignalNames(rows)[i] == rows[i].signalName;
    }
  }

  /**
    Line 41, in place: every row of group `g` whose value is missing (the mask
    of line 38) receives `m`; every other row is left as it was.
   */
  method FillGaps(a: array<Record>, g: Option<string>, m: real)
    modifies a
    ensures forall i :: 0 <= i < a.Length ==> a[i] == FillIfGap(old(a[i]), g, m)
  {
    for j := 0 to a.Length
      invariant forall i :: 0 <= i < j ==> a[i] == FillIfGap(old(a[i]), g, m)
      invariant forall i :: j <= i < a.Length ==> a[i] == old(a[i])
    {
      if InGroup(a[j], g) && a[j].signalValue.None? {
        a[j] := a[j].(signalValue := Some(m));
      }
    }
  }

  /**
    One round of the loop at lines 38-42 for the name `signal`: the median of
    the group's present values in the current table, and, when it is defined,
    the group's missing cells filled with it.
   */
  method ImputeGroup(a: array<Record>, signal: Option<string>, ghost rows: seq<Record>,
                     ghost done: seq<Option<string>>) returns (median: Option<real>)
    requires a[..] == ProcessedTable(rows, done) && signal !in done
    modifies a
    ensures median == Median(GroupValues(rows, signal))
    ensures a[..] == ProcessedTable(rows, done + [signal])
  {
    UnprocessedGroupIsIntact(rows, done, signal);
    median := Median(GroupValues(a[..], signal));
    if median.Some? {
      FillGaps(a, signal, median.value);
    }
    RoundStep(a[..], rows, done, signal);
  }

  lemma ReportStep(rows: seq<Record>, names: seq<Option<string>>, k: int)
    requires 0 <= k < |names|
    ensures var g, m := names[k], Median(GroupValues(rows, names[k]));
      ReportFor(rows, names[..k + 1])
      == ReportFor(rows, names[..k]) + (if g.Some? && m.Some? then [(g.value, m.value)] else [])
  {
    assert names[..k + 1][..k] == names[..k];
  }

  /**
    The loop at lines 37-42, in place: one round per distinct name, in
    `unique()` order. Returns the (signal, median) pairs reported at line 42.
   */
  method ImputeBySignal(a: array<Record>) returns (filled: seq<(string, real)>)
    modifies a
    ensures a[..] == Imputed(old(a[..]))
    ensures filled == MedianReport(old(a[..]))
  {
    ghost var rows := a[..];
    var names := Unique(SignalNames(a[..]));
    UniqueListsEachNameOnce(SignalNames(rows));
    filled := [];
    assert a[..] == ProcessedTable(rows, names[..0]);
    for k := 0 to |names|
      invariant a[..] == ProcessedTable(rows, names[..k])
      invariant filled == ReportFor(rows, names[..k])
    {
      NotSeenBefore(names, k);
      PrefixStep(names, k);
      var median := ImputeGroup(a, names[k], rows, names[..k]);
      if median.Some? {
        filled := filled + [(names[k].value, median.value)];
      }
      ReportStep(rows, names, k);
    }
    assert names[..|names|] == names;
    AllNamesProcessed(rows);
  }
}
