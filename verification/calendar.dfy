/**
 * The proleptic Gregorian calendar of Python's `datetime`, in exact integer arithmetic.
 * Day numbers count from 0001-01-01 (day 0), so day `n` is Python ordinal `n + 1`.
 */
module Calendar {

  const MinYear := 1
  const MaxYear := 9999

  predicate IsLeap(y: int) {
    y % 4 == 0 && (y % 100 != 0 || y % 400 == 0)
  }

  function YearLength(y: int): int {
    if IsLeap(y) then 366 else 365
  }

  function DaysInMonth(y: int, m: int): (n: int)
    requires 1 <= m <= 12
    ensures 28 <= n <= 31
  {
    if m == 2 then (if IsLeap(y) then 29 else 28)
    else if m == 4 || m == 6 || m == 9 || m == 11 then 30
    else 31
  }

  /** Days in the months of year `y` before month `m`; month 13 stands for the whole year. */
  function DaysBeforeMonth(y: int, m: int): int
    requires 1 <= m <= 13
  {
    var common :=
      if m == 1 then 0 else if m == 2 then 31 else if m == 3 then 59
      else if m == 4 then 90 else if m == 5 then 120 else if m == 6 then 151
      else if m == 7 then 181 else if m == 8 then 212 else if m == 9 then 243
      else if m == 10 then 273 else if m == 11 then 304 else if m == 12 then 334
      else 365;
    if m > 2 && IsLeap(y) then common + 1 else common
  }

  lemma MonthTable(y: int, m: int)
    requires 1 <= m <= 12
    ensures DaysBeforeMonth(y, m + 1) == DaysBeforeMonth(y, m) + DaysInMonth(y, m)
    ensures DaysBeforeMonth(y, 13) == YearLength(y)
  {
  }

  /** Days in the years before year `y`. */
  function DaysBeforeYear(y: int): int
    requires y >= 1
  {
    var p := y - 1;
    365 * p + p / 4 - p / 100 + p / 400
  }

  lemma NextYear(y: int)
    requires y >= 1
    ensures DaysBeforeYear(y + 1) == DaysBeforeYear(y) + YearLength(y)
  {
    var p := y - 1;
    SuccDiv4(p);
    SuccDiv100(p);
    SuccDiv400(p);
  }

  /** Counting multiples: `(p + 1) / k` steps up exactly when `p + 1` is a multiple of `k`. */
  lemma SuccDiv4(p: int)
    requires p >= 0
    ensures (p + 1) / 4 == p / 4 + (if (p + 1) % 4 == 0 then 1 else 0)
  {
    var q, r := p / 4, p % 4;
    if r == 3 {
      assert p + 1 == 4 * (q + 1);
    } else {
      assert p + 1 == 4 * q + (r + 1);
    }
  }

  lemma SuccDiv100(p: int)
    requires p >= 0
    ensures (p + 1) / 100 == p / 100 + (if (p + 1) % 100 == 0 then 1 else 0)
  {
    var q, r := p / 100, p % 100;
    if r == 99 {
      assert p + 1 == 100 * (q + 1);
    } else {
      assert p + 1 == 100 * q + (r + 1);
    }
  }

  lemma SuccDiv400(p: int)
    requires p >= 0
    ensures (p + 1) / 400 == p / 400 + (if (p + 1) % 400 == 0 then 1 else 0)
  {
    var q, r := p / 400, p % 400;
    if r == 399 {
      assert p + 1 == 400 * (q + 1);
    } else {
      assert p + 1 == 400 * q + (r + 1);
    }
  }

  /** Day 0 of the Unix epoch, 1970-01-01. */
  const EpochDay := 719162

  /** Days in the representable range, 0001-01-01 through 9999-12-31. */
  const DayLimit := 3652059

  lemma Constants()
    ensures DaysBeforeYear(1970) == EpochDay
    ensures DaysBeforeYear(MaxYear + 1) == DayLimit
  {
  }

  datatype Date = Date(year: int, month: int, day: int)

  predicate ValidDate(d: Date) {
    && MinYear <= d.year <= MaxYear
    && 1 <= d.month <= 12
    && 1 <= d.day <= DaysInMonth(d.year, d.month)
  }

  /** The day number of a date. */
  function ToDays(d: Date): int
    requires ValidDate(d)
  {
    DaysBeforeYear(d.year) + DaysBeforeMonth(d.year, d.month) + d.day - 1
  }

  /** The year whose days contain day `n`, searching upward from year `y`. */
  function FindYear(n: int, y: int): (r: int)
    requires MinYear <= y <= MaxYear
    requires DaysBeforeYear(y) <= n < DayLimit
    ensures y <= r <= MaxYear
    ensures DaysBeforeYear(r) <= n < DaysBeforeYear(r) + YearLength(r)
    decreases MaxYear - y
  {
    NextYear(y);
    Constants();
    if n < DaysBeforeYear(y + 1) then y else FindYear(n, y + 1)
  }

  /** The month of year `y` holding day-of-year `k`, searching upward from month `m`. */
  function FindMonth(y: int, k: int, m: int): (r: int)
    requires 1 <= m <= 12
    requires DaysBeforeMonth(y, m) <= k < YearLength(y)
    ensures m <= r <= 12
    ensures DaysBeforeMonth(y, r) <= k < DaysBeforeMonth(y, r) + DaysInMonth(y, r)
    decreases 12 - m
  {
    MonthTable(y, m);
    if k < DaysBeforeMonth(y, m + 1) then m else FindMonth(y, k, m + 1)
  }

  /** The date of day number `n`, as `date.fromordinal(n + 1)` computes it. */
  function FromDays(n: int): (d: Date)
    requires 0 <= n < DayLimit
    ensures ValidDate(d) && ToDays(d) == n
  {
    var y := FindYear(n, MinYear);
    var m := FindMonth(y, n - DaysBeforeYear(y), 1);
    Date(y, m, n - DaysBeforeYear(y) - DaysBeforeMonth(y, m) + 1)
  }

  lemma {:induction false} DaysBeforeYearMonotone(a: int, b: int)
    requires 1 <= a <= b
    ensures DaysBeforeYear(a) + 365 * (b - a) <= DaysBeforeYear(b)
    decreases b - a
  {
    if a < b {
      DaysBeforeYearMonotone(a, b - 1);
      NextYear(b - 1);
    }
  }

  /** Every valid date has a day number in range. */
  lemma DateInRange(d: Date)
    requires ValidDate(d)
    ensures 0 <= ToDays(d) < DayLimit
  {
    MonthTable(d.year, d.month);
    NextYear(d.year);
    DaysBeforeYearMonotone(1, d.year);
    DaysBeforeYearMonotone(d.year + 1, MaxYear + 1);
    Constants();
  }

  /** A day number lies within the days of exactly one year. */
  lemma YearUnique(n: int, a: int, b: int)
    requires 1 <= a && 1 <= b
    requires DaysBeforeYear(a) <= n < DaysBeforeYear(a) + YearLength(a)
    requires DaysBeforeYear(b) <= n < DaysBeforeYear(b) + YearLength(b)
    ensures a == b
  {
    NextYear(a);
    NextYear(b);
    if a < b {
      DaysBeforeYearMonotone(a + 1, b);
    } else if b < a {
      DaysBeforeYearMonotone(b + 1, a);
    }
  }

  /** A day of the year lies within exactly one month. */
  lemma MonthUnique(y: int, k: int, a: int, b: int)
    requires 1 <= a <= 12 && 1 <= b <= 12
    requires DaysBeforeMonth(y, a) <= k < DaysBeforeMonth(y, a) + DaysInMonth(y, a)
    requires DaysBeforeMonth(y, b) <= k < DaysBeforeMonth(y, b) + DaysInMonth(y, b)
    ensures a == b
  {
    if a < b {
      MonthsOrdered(y, a, b);
    } else if b < a {
      MonthsOrdered(y, b, a);
    }
  }

  /** A valid date's day number lies within the days of its year. */
  lemma WithinYear(d: Date)
    requires ValidDate(d)
    ensures DaysBeforeYear(d.year) <= ToDays(d) < DaysBeforeYear(d.year) + YearLength(d.year)
  {
    MonthTable(d.year, d.month);
    if d.month < 11 {
      MonthsOrdered(d.year, d.month + 1, 12);
      MonthTable(d.year, 12);
    }
  }

  /** Distinct valid dates have distinct day numbers, so `FromDays` also inverts `ToDays`. */
  lemma DaysOfDate(d: Date)
    requires ValidDate(d)
    ensures 0 <= ToDays(d) < DayLimit
    ensures FromDays(ToDays(d)) == d
  {
    DateInRange(d);
    var n := ToDays(d);
    var e := FromDays(n);
    WithinYear(d);
    WithinYear(e);
    YearUnique(n, d.year, e.year);
    assert e.year == d.year;
    var k := n - DaysBeforeYear(d.year);
    assert k == DaysBeforeMonth(d.year, e.month) + e.day - 1;
    assert k == DaysBeforeMonth(d.year, d.month) + d.day - 1;
    MonthUnique(d.year, k, d.month, e.month);
  }

  /** Month start offsets grow at least by the length of each month in between. */
  lemma MonthsOrdered(y: int, a: int, b: int)
    requires 1 <= a < b <= 12
    ensures DaysBeforeMonth(y, a) + DaysInMonth(y, a) <= DaysBeforeMonth(y, b)
  {
  }
}
