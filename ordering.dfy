/**
  `sort_values(['vehicle_id', 'trip_id', 'event_time'])`: a stable sort on
  the composite key, ascending. pandas sorts on several columns with a
  lexicographic, stable indexer, so rows with equal keys keep their order.
  Line numbers below refer to `transform_vehicle_data.py`.
 */
module Ordering {

  import opened Records

  /** Python's `<` on `str`: code-point lexicographic order, a proper prefix first. */
  predicate StrLess(a: string, b: string) {
    if a == [] then b != []
    else b != [] && (a[0] < b[0] || (a[0] == b[0] && StrLess(a[1..], b[1..])))
  }

  lemma {:induction false} StrLessIrreflexive(a: string)
    ensures !StrLess(a, a)
  {
    if a != [] {
      StrLessIrreflexive(a[1..]);
    }
  }

  lemma {:induction false} StrLessTransitive(a: string, b: string, c: string)
    requires StrLess(a, b) && StrLess(b, c)
    ensures StrLess(a, c)
  {
    if a != [] && a[0] == b[0] && b[0] == c[0] {
      StrLessTransitive(a[1..], b[1..], c[1..]);
    }
  }

  lemma {:induction false} StrLessTotal(a: string, b: string)
    requires a != b
    ensures StrLess(a, b) || StrLess(b, a)
  {
    if a != [] && b != [] && a[0] == b[0] {
      assert a == [a[0]] + a[1..] && b == [b[0]] + b[1..];
      StrLessTotal(a[1..], b[1..]);
    }
  }

  datatype SortKey = SortKey(vehicleId: string, tripId: string, eventTime: int)

  function KeyOf(r: CleanRecord): SortKey {
    SortKey(r.vehicleId, r.tripId, r.eventTime)
  }

  /** Lexicographic order on (vehicle_id, trip_id, event_time). */
  predicate KeyLess(x: SortKey, y: SortKey) {
    || StrLess(x.vehicleId, y.vehicleId)
    || (x.vehicleId == y.vehicleId && StrLess(x.tripId, y.tripId))
    || (x.vehicleId == y.vehicleId && x.tripId == y.tripId && x.eventTime < y.eventTime)
  }

  lemma KeyLessIrreflexive(x: SortKey)
    ensures !KeyLess(x, x)
  {
    StrLessIrreflexive(x.vehicleId);
    StrLessIrreflexive(x.tripId);
  }

  lemma KeyLessTransitive(x: SortKey, y: SortKey, z: SortKey)
    requires KeyLess(x, y) && KeyLess(y, z)
    ensures KeyLess(x, z)
  {
    if StrLess(x.vehicleId, y.vehicleId) && StrLess(y.vehicleId, z.vehicleId) {
      StrLessTransitive(x.vehicleId, y.vehicleId, z.vehicleId);
    }
    if x.vehicleId == y.vehicleId == z.vehicleId && StrLess(x.tripId, y.tripId) && StrLess(y.tripId, z.tripId) {
      StrLessTransitive(x.tripId, y.tripId, z.tripId);
    }
  }

  /** Two keys neither of which precedes the other are the same key. */
  lemma KeyLessTotal(x: SortKey, y: SortKey)
    requires !KeyLess(x, y) && !KeyLess(y, x)
    ensures x == y
  {
    if x.vehicleId != y.vehicleId {
      StrLessTotal(x.vehicleId, y.vehicleId);
    } else if x.tripId != y.tripId {
      StrLessTotal(x.tripId, y.tripId);
    }
  }

  lemma NotLessIsTransitive(x: SortKey, y: SortKey, z: SortKey)
    requires !KeyLess(y, x) && !KeyLess(z, y)
    ensures !KeyLess(z, x)
  {
    if KeyLess(z, x) {
      if KeyLess(x, y) {
        KeyLessTransitive(z, x, y);
      } else {
        KeyLessTotal(x, y);
      }
    }
  }

  /** Non-decreasing under the key: no row is preceded by a row with a larger key. */
  predicate Sorted(rows: seq<CleanRecord>) {
    forall i, j :: 0 <= i < j < |rows| ==> !KeyLess(KeyOf(rows[j]), KeyOf(rows[i]))
  }

  /** No row of `t` has a key smaller than that of `x`. */
  predicate NoneBefore(x: CleanRecord, t: seq<CleanRecord>) {
    forall k :: 0 <= k < |t| ==> !KeyLess(KeyOf(t[k]), KeyOf(x))
  }

  lemma ConsSorted(x: CleanRecord, t: seq<CleanRecord>)
    requires Sorted(t) && NoneBefore(x, t)
    ensures Sorted([x] + t)
  {
  }

  lemma HeadBoundsSorted(x: CleanRecord, t: seq<CleanRecord>)
    requires Sorted(t) && t != [] && !KeyLess(KeyOf(t[0]), KeyOf(x))
    ensures NoneBefore(x, t)
  {
    forall k | 0 <= k < |t| ensures !KeyLess(KeyOf(t[k]), KeyOf(x)) {
      if k > 0 {
        NotLessIsTransitive(KeyOf(x), KeyOf(t[0]), KeyOf(t[k]));
      }
    }
  }

  lemma BoundSurvivesInsertion(b: CleanRecord, s: seq<CleanRecord>, t: seq<CleanRecord>, x: CleanRecord)
    requires NoneBefore(b, s) && !KeyLess(KeyOf(x), KeyOf(b))
    requires multiset(t) == multiset(s) + multiset{x}
    ensures NoneBefore(b, t)
  {
    forall k | 0 <= k < |t| ensures !KeyLess(KeyOf(t[k]), KeyOf(b)) {
      assert t[k] in multiset(t);
      if t[k] != x {
        assert t[k] in multiset(s);
      }
    }
  }

  /**
    Inserts `x` before the first row whose key is not smaller than its own.
    The same insertion sort appears in `Stats` on plain reals, where it only
    fixes the ascending arrangement the median reads; here it orders rows by
    a key that is not a total order on rows, and its stability is proved.
   */
  function Insert(x: CleanRecord, t: seq<CleanRecord>): (r: seq<CleanRecord>)
    requires Sorted(t)
    ensures Sorted(r)
    ensures multiset(r) == multiset(t) + multiset{x}
  {
    if t == [] then [x]
    else if !KeyLess(KeyOf(t[0]), KeyOf(x)) then
      HeadBoundsSorted(x, t);
      ConsSorted(x, t);
      assert multiset([x] + t) == multiset{x} + multiset(t);
      [x] + t
    else
      var u := Insert(x, t[1..]);
      assert t == [t[0]] + t[1..];
      assert multiset(t) == multiset{t[0]} + multiset(t[1..]);
      assert multiset([t[0]] + u) == multiset{t[0]} + multiset(u);
      assert !KeyLess(KeyOf(x), KeyOf(t[0])) by {
        if KeyLess(KeyOf(x), KeyOf(t[0])) {
          KeyLessTransitive(KeyOf(x), KeyOf(t[0]), KeyOf(x));
          KeyLessIrreflexive(KeyOf(x));
        }
      }
      BoundSurvivesInsertion(t[0], t[1..], u, x);
      ConsSorted(t[0], u);
      [t[0]] + u
  }

  /** The stable sort of line 49: sorted, and a permutation of its input. */
  function SortRows(rows: seq<CleanRecord>): (r: seq<CleanRecord>)
    ensures Sorted(r)
    ensures multiset(r) == multiset(rows)
  {
    if rows == [] then []
    else
      assert rows == [rows[0]] + rows[1..];
      Insert(rows[0], SortRows(rows[1..]))
  }

  /** The rows with key `k`, in their order in `rows`. */
  function WithKey(rows: seq<CleanRecord>, k: SortKey): seq<CleanRecord> {
    if rows == [] then []
    else (if KeyOf(rows[0]) == k then [rows[0]] else []) + WithKey(rows[1..], k)
  }

  lemma {:induction false} WithKeyOfConcat(a: seq<CleanRecord>, b: seq<CleanRecord>, k: SortKey)
    ensures WithKey(a + b, k) == WithKey(a, k) + WithKey(b, k)
  {
    if a != [] {
      WithKeyOfConcat(a[1..], b, k);
      assert (a + b)[1..] == a[1..] + b;
    } else {
      assert a + b == b;
    }
  }

  lemma {:induction false} InsertIsStable(x: CleanRecord, t: seq<CleanRecord>, k: SortKey)
    requires Sorted(t)
    ensures WithKey(Insert(x, t), k) == WithKey([x] + t, k)
  {
    if t != [] && KeyLess(KeyOf(t[0]), KeyOf(x)) {
      var u := Insert(x, t[1..]);
      InsertIsStable(x, t[1..], k);
      KeyLessIrreflexive(KeyOf(x));
      assert ([t[0]] + u)[1..] == u;
      WithKeyOfConcat([x], t[1..], k);
      WithKeyOfConcat([x], t, k);
      assert t == [t[0]] + t[1..];
      WithKeyOfConcat([t[0]], t[1..], k);
      WithKeyOfConcat([t[0]], u, k);
    } else if t == [] {
      assert [x] + t == [x];
    }
  }

  /**
    Stability: for every key, the rows carrying it appear in the output in
    the same relative order as in the input.
   */
  lemma {:induction false} SortIsStable(rows: seq<CleanRecord>, k: SortKey)
    ensures WithKey(SortRows(rows), k) == WithKey(rows, k)
  {
    if rows != [] {
      SortIsStable(rows[1..], k);
      InsertIsStable(rows[0], SortRows(rows[1..]), k);
      assert rows == [rows[0]] + rows[1..];
      WithKeyOfConcat([rows[0]], SortRows(rows[1..]), k);
      WithKeyOfConcat([rows[0]], rows[1..], k);
    }
  }
}
