/**
  The statistic used for imputation: pandas' `Series.median()`, which skips
  missing values, returns the middle value of the sorted present values for
  an odd count, the mean of the two middle values for an even count, and NaN
  when no value is present. Values are exact reals here.
 */
module Stats {

  import opened Wrappers

  predicate SortedReals(s: seq<real>) {
    forall i, j :: 0 <= i < j < |s| ==> s[i] <= s[j]
  }

  lemma SortedAt(s: seq<real>, i: int, j: int)
    requires SortedReals(s) && 0 <= i <= j < |s|
    ensures s[i] <= s[j]
  {
  }

  /** Every element of `s` is at least `b`. */
  predicate BoundedBelow(b: real, s: seq<real>) {
    forall k :: 0 <= k < |s| ==> b <= s[k]
  }

  lemma ConsSorted(y: real, t: seq<real>)
    requires SortedReals(t) && BoundedBelow(y, t)
    ensures SortedReals([y] + t)
  {
  }

  lemma BoundSurvivesInsertion(b: real, s: seq<real>, t: seq<real>, x: real)
    requires BoundedBelow(b, s) && b <= x
    requires multiset(t) == multiset(s) + multiset{x}
    ensures BoundedBelow(b, t)
  {
    forall k | 0 <= k < |t| ensures b <= t[k] {
      assert t[k] in multiset(t);
      if t[k] != x {
        assert t[k] in multiset(s);
      }
    }
  }

  /** Inserts `x` into sorted `s` before the first element not smaller than it. */
  function InsertReal(x: real, s: seq<real>): (r: seq<real>)
    requires SortedReals(s)
    ensures SortedReals(r)
    ensures multiset(r) == multiset(s) + multiset{x}
  {
    if s == [] then [x]
    else if x <= s[0] then
      ConsSorted(x, s);
      assert multiset([x] + s) == multiset{x} + multiset(s);
      [x] + s
    else
      var t := InsertReal(x, s[1..]);
      assert s == [s[0]] + s[1..];
      assert multiset(s) == multiset{s[0]} + multiset(s[1..]);
      assert multiset([s[0]] + t) == multiset{s[0]} + multiset(t);
      BoundSurvivesInsertion(s[0], s[1..], t, x);
      ConsSorted(s[0], t);
      [s[0]] + t
  }

  /** Insertion sort: the ascending arrangement of the same values. */
  function SortReals(s: seq<real>): (r: seq<real>)
    ensures SortedReals(r)
    ensures multiset(r) == multiset(s)
  {
    if s == [] then [] else
      assert s == [s[0]] + s[1..];
      InsertReal(s[0], SortReals(s[1..]))
  }

  /** The middle of a sorted, non-empty sequence: one element or the mean of two. */
  function Middle(s: seq<real>): real
    requires s != []
  {
    var n := |s|;
    if n % 2 == 1 then s[n / 2] else (s[n / 2 - 1] + s[n / 2]) / 2.0
  }

  lemma MiddleBetween(s: seq<real>)
    requires s != [] && SortedReals(s)
    ensures s[(|s| - 1) / 2] <= Middle(s) <= s[|s| / 2]
  {
  }

  /** The median of the present values; `None` stands for pandas' NaN result. */
  function Median(values: seq<real>): (m: Option<real>)
    ensures m.None? <==> values == []
  {
    if values == [] then None
    else
      var s := SortReals(values);
      assert |s| == |values| by { assert |multiset(s)| == |multiset(values)|; }
      Some(Middle(s))
  }

  /** Number of values strictly below `m`. */
  function CountBelow(s: seq<real>, m: real): (c: nat)
    ensures c <= |s|
  {
    if s == [] then 0 else (if s[0] < m then 1 else 0) + CountBelow(s[1..], m)
  }

  /** Number of values strictly above `m`. */
  function CountAbove(s: seq<real>, m: real): (c: nat)
    ensures c <= |s|
  {
    if s == [] then 0 else (if s[0] > m then 1 else 0) + CountAbove(s[1..], m)
  }

  lemma {:induction false} InsertKeepsCounts(x: real, s: seq<real>, m: real)
    requires SortedReals(s)
    ensures CountBelow(InsertReal(x, s), m) == CountBelow(s, m) + (if x < m then 1 else 0)
    ensures CountAbove(InsertReal(x, s), m) == CountAbove(s, m) + (if x > m then 1 else 0)
  {
    if s == [] || x <= s[0] {
      assert ([x] + s)[1..] == s;
    } else {
      InsertKeepsCounts(x, s[1..], m);
      assert ([s[0]] + InsertReal(x, s[1..]))[1..] == InsertReal(x, s[1..]);
    }
  }

  lemma {:induction false} SortKeepsCounts(s: seq<real>, m: real)
    ensures CountBelow(SortReals(s), m) == CountBelow(s, m)
    ensures CountAbove(SortReals(s), m) == CountAbove(s, m)
  {
    if s != [] {
      SortKeepsCounts(s[1..], m);
      InsertKeepsCounts(s[0], SortReals(s[1..]), m);
    }
  }

  lemma {:induction false} FewBelow(s: seq<real>, m: real, k: nat)
    requires k <= |s|
    requires forall j :: k <= j < |s| ==> m <= s[j]
    ensures CountBelow(s, m) <= k
  {
    if s != [] {
      FewBelow(s[1..], m, if k == 0 then 0 else k - 1);
    }
  }

  lemma {:induction false} FewAbove(s: seq<real>, m: real, k: nat)
    requires k <= |s|
    requires forall j :: 0 <= j < k ==> s[j] <= m
    ensures CountAbove(s, m) <= |s| - k
  {
    if s != [] && k > 0 {
      FewAbove(s[1..], m, k - 1);
    }
  }

  /**
    What makes the result a median: at most half of the values lie strictly
    below it and at most half strictly above it.
   */
  lemma MedianSplitsValues(values: seq<real>)
    requires values != []
    ensures CountBelow(values, Median(values).value) <= |values| / 2
    ensures CountAbove(values, Median(values).value) <= |values| / 2
  {
    var s := SortReals(values);
    assert |s| == |values| by { assert |multiset(s)| == |multiset(values)|; }
    var n := |s|;
    var m := Median(values).value;
    assert m == Middle(s);
    MiddleBetween(s);
    var lo, hi := (n - 1) / 2, n / 2;
    forall j | hi <= j < n ensures m <= s[j] {
      SortedAt(s, hi, j);
    }
    FewBelow(s, m, hi);
    forall j | 0 <= j < lo + 1 ensures s[j] <= m {
      SortedAt(s, j, lo);
    }
    FewAbove(s, m, lo + 1);
    SortKeepsCounts(values, m);
  }

  /** The median lies between the smallest and the largest value. */
  lemma MedianWithinRange(values: seq<real>)
    requires values != []
    ensures exists i :: 0 <= i < |values| && values[i] <= Median(values).value
    ensures exists j :: 0 <= j < |values| && Median(values).value <= values[j]
  {
    var s := SortReals(values);
    assert |s| == |values| by { assert |multiset(s)| == |multiset(values)|; }
    var n := |s|;
    var m := Median(values).value;
    assert m == Middle(s);
    MiddleBetween(s);
    var lo, hi := s[(n - 1) / 2], s[n / 2];
    assert lo in multiset(values) by { assert lo in multiset(s); }
    assert hi in multiset(values) by { assert hi in multiset(s); }
    assert lo in values && hi in values;
  }

  lemma HeadIsLeast(a: seq<real>, y: real)
    requires SortedReals(a) && y in multiset(a)
    ensures a[0] <= y
  {
    assert y in a;
  }

  lemma {:induction false} SortedArrangementIsUnique(a: seq<real>, b: seq<real>)
    requires SortedReals(a) && SortedReals(b)
    requires multiset(a) == multiset(b)
    ensures a == b
  {
    if a != [] {
      assert a[0] in multiset(a);
      assert b != [];
      assert b[0] in multiset(b);
      HeadIsLeast(a, b[0]);
      HeadIsLeast(b, a[0]);
      assert a[0] == b[0];
      assert a == [a[0]] + a[1..];
      assert b == [b[0]] + b[1..];
      assert multiset(a) == multiset{a[0]} + multiset(a[1..]);
      assert multiset(b) == multiset{b[0]} + multiset(b[1..]);
      assert multiset(a[1..]) == multiset(a) - multiset{a[0]};
      assert multiset(b[1..]) == multiset(b) - multiset{b[0]};
      assert SortedReals(a[1..]) && SortedReals(b[1..]);
      SortedArrangementIsUnique(a[1..], b[1..]);
    }
  }

  /**
    The median read off any ascending arrangement of the values: its middle
    element for an odd count, the mean of its two middle elements for an even one.
   */
  lemma MedianOfAnySortedArrangement(values: seq<real>, s: seq<real>)
    requires values != [] && SortedReals(s) && multiset(s) == multiset(values)
    ensures |s| == |values|
    ensures |s| % 2 == 1 ==> Median(values) == Some(s[|s| / 2])
    ensures |s| % 2 == 0 ==> Median(values) == Some((s[|s| / 2 - 1] + s[|s| / 2]) / 2.0)
  {
    assert |s| == |values| by { assert |multiset(s)| == |multiset(values)|; }
    SortedArrangementIsUnique(SortReals(values), s);
  }

  /** The median depends only on the values, not on the order of the rows they come from. */
  lemma MedianIgnoresOrder(a: seq<real>, b: seq<real>)
    requires multiset(a) == multiset(b)
    ensures Median(a) == Median(b)
  {
    SortedArrangementIsUnique(SortReals(a), SortReals(b));
  }

  lemma {:induction false} SortingSortedIsIdentity(s: seq<real>)
    requires SortedReals(s)
    ensures SortReals(s) == s
  {
    if s != [] {
      SortingSortedIsIdentity(s[1..]);
      assert s == [s[0]] + s[1..];
    }
  }

  /** The speed example: the present values 0, 12, 48 and 60, in any order, have median 30. */
  lemma MedianOfSpeedExample(values: seq<real>)
    requires multiset(values) == multiset{0.0, 12.0, 48.0, 60.0}
    ensures Median(values) == Some(30.0)
  {
    var sorted := [0.0, 12.0, 48.0, 60.0];
    assert multiset(sorted) == multiset{0.0, 12.0, 48.0, 60.0};
    SortingSortedIsIdentity(sorted);
    MedianIgnoresOrder(values, sorted);
    assert Middle(sorted) == 30.0;
  }
}
