/**
  Timestamps and the two columns derived from them: the calendar date
  (`.dt.date`) and the hour of day (`.dt.hour`).

  A timestamp is a count of seconds since 1970-01-01 00:00:00 in the
  proleptic Gregorian calendar, without a time zone, as pandas keeps naive
  `datetime64` values. Dafny's `/` and `%` round towards minus infinity for a
  positive divisor, which is what pandas does for instants before 1970.
 */
module Calendar {

  type Timestamp = int

  const SecondsPerDay: int := 86400
  const SecondsPerHour: int := 3600

  datatype Date = Date(year: int, month: int, day: int)

  predicate IsLeapYear(y: int) {
    y % 4 == 0 && (y % 100 != 0 || y % 400 == 0)
  }

  function DaysInYear(y: int): int {
    if IsLeapYear(y) then 366 else 365
  }

  function DaysInMonth(y: int, m: int): int
    requires 1 <= m <= 12
  {
    if m == 2 then (if IsLeapYear(y) then 29 else 28)
    else if m == 4 || m == 6 || m == 9 || m == 11 then 30
    else 31
  }

  predicate ValidDate(d: Date) {
    1 <= d.month <= 12 && 1 <= d.day <= DaysInMonth(d.year, d.month)
  }

  /** Number of leap years among the years 1 .. y - 1 (negative below year 1). */
  function LeapYearsBefore(y: int): int {
    (y - 1) / 4 - (y - 1) / 100 + (y - 1) / 400
  }

  /** Days from 1970-01-01 to January 1st of year `y`, in closed form. */
  function DaysBeforeYear(y: int): int {
    365 * (y - 1970) + LeapYearsBefore(y) - LeapYearsBefore(1970)
  }

  /** Days from January 1st of year `y` to the first day of month `m`. */
  function DaysBeforeMonth(y: int, m: int): int
    requires 1 <= m <= 13
  {
    if m == 1 then 0 else DaysBeforeMonth(y, m - 1) + DaysInMonth(y, m - 1)
  }

  /** The day number of a date: days since 1970-01-01 (negative before it). */
  function DayNumber(d: Date): int
    requires 1 <= d.month <= 12
  {
    DaysBeforeYear(d.year) + DaysBeforeMonth(d.year, d.month) + d.day - 1
  }

  /** Quotient and remainder are unique. */
  lemma DivUnique(x: int, d: int, q: int, r: int)
    requires 0 < d && 0 <= r < d && x == d * q + r
    ensures x / d == q
  {
    var q', r' := x / d, x % d;
    assert d * q + r == d * q' + r';
    if q' < q {
      MulStep(d, q', q);
    } else if q < q' {
      MulStep(d, q, q');
    }
  }

  lemma {:induction false} MulStep(d: int, a: int, b: int)
    requires 0 < d && a < b
    ensures d * a + d <= d * b
    decreases b - a
  {
    if a + 1 < b {
      MulStep(d, a + 1, b);
    }
    assert d * (a + 1) == d * a + d;
  }

  /** Going from `y - 1` to `y`, the quotient by `d` grows exactly when `d` divides `y`. */
  lemma DivStep(y: int, d: int)
    requires 0 < d
    ensures y / d - (y - 1) / d == (if y % d == 0 then 1 else 0)
  {
    var q, r := y / d, y % d;
    if r == 0 {
      DivUnique(y - 1, d, q - 1, d - 1);
    } else {
      DivUnique(y - 1, d, q, r - 1);
    }
  }

  lemma YearStep(y: int)
    ensures DaysBeforeYear(y + 1) == DaysBeforeYear(y) + DaysInYear(y)
  {
    DivStep(y, 4);
    DivStep(y, 100);
    DivStep(y, 400);
  }

  lemma MonthsFillYear(y: int)
    ensures DaysBeforeMonth(y, 13) == DaysInYear(y)
  {
    var february := DaysInMonth(y, 2);
    assert DaysBeforeMonth(y, 2) == 31;
    assert DaysBeforeMonth(y, 3) == 31 + february;
    assert DaysBeforeMonth(y, 4) == 62 + february;
    assert DaysBeforeMonth(y, 5) == 92 + february;
    assert DaysBeforeMonth(y, 6) == 123 + february;
    assert DaysBeforeMonth(y, 7) == 153 + february;
    assert DaysBeforeMonth(y, 8) == 184 + february;
    assert DaysBeforeMonth(y, 9) == 215 + february;
    assert DaysBeforeMonth(y, 10) == 245 + february;
    assert DaysBeforeMonth(y, 11) == 276 + february;
    assert DaysBeforeMonth(y, 12) == 306 + february;
  }

  /**
    Moves from the start of year `y` by `offset` days, one whole year at a
    time, and returns the year reached together with the day of that year.
   */
  function YearOf(y: int, offset: int): (p: (int, int))
    ensures 0 <= p.1 < DaysInYear(p.0)
    ensures DaysBeforeYear(p.0) + p.1 == DaysBeforeYear(y) + offset
    decreases if offset < 0 then -offset else 0, if offset < 0 then 0 else offset
  {
    if offset < 0 then
      YearStep(y - 1);
      YearOf(y - 1, offset + DaysInYear(y - 1))
    else if offset >= DaysInYear(y) then
      YearStep(y);
      YearOf(y + 1, offset - DaysInYear(y))
    else
      (y, offset)
  }

  /**
    Moves from the first day of month `m` of year `y` by `offset` days, one
    whole month at a time, and returns the month reached and the day of it.
   */
  function MonthOf(y: int, m: int, offset: int): (p: (int, int))
    requires 1 <= m <= 12
    requires 0 <= offset < DaysBeforeMonth(y, 13) - DaysBeforeMonth(y, m)
    ensures 1 <= p.0 <= 12 && 0 <= p.1 < DaysInMonth(y, p.0)
    ensures DaysBeforeMonth(y, p.0) + p.1 == DaysBeforeMonth(y, m) + offset
    decreases 12 - m
  {
    if offset < DaysInMonth(y, m) then (m, offset)
    else MonthOf(y, m + 1, offset - DaysInMonth(y, m))
  }

  /** `.dt.date`: the calendar date on which instant `t` falls. */
  function DateOf(t: Timestamp): (d: Date)
    ensures ValidDate(d)
    ensures DayNumber(d) == t / SecondsPerDay
  {
    var (y, dayOfYear) := YearOf(1970, t / SecondsPerDay);
    MonthsFillYear(y);
    var (m, dayOfMonth) := MonthOf(y, 1, dayOfYear);
    Date(y, m, dayOfMonth + 1)
  }

  lemma {:induction false} YearsAreOrdered(y1: int, y2: int)
    requires y1 < y2
    ensures DaysBeforeYear(y1) + DaysInYear(y1) <= DaysBeforeYear(y2)
    decreases y2 - y1
  {
    YearStep(y1);
    if y1 + 1 < y2 {
      YearsAreOrdered(y1 + 1, y2);
    }
  }

  lemma {:induction false} MonthsAreOrdered(y: int, m1: int, m2: int)
    requires 1 <= m1 < m2 <= 13
    ensures DaysBeforeMonth(y, m1) + DaysInMonth(y, m1) <= DaysBeforeMonth(y, m2)
    decreases m2 - m1
  {
    if m1 + 1 < m2 {
      MonthsAreOrdered(y, m1 + 1, m2);
    }
  }

  /** Distinct valid dates have distinct day numbers, so `DateOf` names the only date of its day. */
  lemma DayNumberIsInjective(d1: Date, d2: Date)
    requires ValidDate(d1) && ValidDate(d2)
    requires DayNumber(d1) == DayNumber(d2)
    ensures d1 == d2
  {
    forall d | ValidDate(d)
      ensures 0 <= DaysBeforeMonth(d.year, d.month) + d.day - 1 < DaysInYear(d.year)
    {
      if 1 < d.month {
        MonthsAreOrdered(d.year, 1, d.month);
      }
      MonthsFillYear(d.year);
      MonthsAreOrdered(d.year, d.month, 13);
    }
    if d1.year < d2.year {
      YearsAreOrdered(d1.year, d2.year);
    } else if d2.year < d1.year {
      YearsAreOrdered(d2.year, d1.year);
    }
    assert d1.year == d2.year;
    if d1.month < d2.month {
      MonthsAreOrdered(d1.year, d1.month, d2.month);
    } else if d2.month < d1.month {
      MonthsAreOrdered(d2.year, d2.month, d1.month);
    }
  }

  /** `.dt.hour`: the hour of day, 0 .. 23, at instant `t`. */
  function HourOf(t: Timestamp): (h: int)
    ensures 0 <= h < 24
    ensures t / SecondsPerDay * SecondsPerDay + h * SecondsPerHour <= t
    ensures t < t / SecondsPerDay * SecondsPerDay + (h + 1) * SecondsPerHour
  {
    t % SecondsPerDay / SecondsPerHour
  }
}
