/**
The proleptic Gregorian calendar in UTC, as Go's `time` package keeps it.

An instant is a whole number of seconds since 0001-01-01T00:00:00Z, so Go's zero
time (`IsZero`) is the instant 0. A day number counts days from the same moment:
day 0 is 0001-01-01, a Monday. A month number is `12 * year + month - 1`.
*/
module Calendar {
  import opened Arithmetic

  type Day = int
  type Instant = int

  const SECONDS_PER_DAY := 86400

  /** Sunday is 0, as in Go's time.Weekday. */
  type Weekday = w: int | 0 <= w < 7

  datatype Civil = Civil(year: int, month: int, day: int)

  function DayOf(t: Instant): Day {
    t / SECONDS_PER_DAY
  }

  /** Seconds since midnight. */
  function ClockOf(t: Instant): int {
    t % SECONDS_PER_DAY
  }

  function At(d: Day, clock: int): Instant {
    SECONDS_PER_DAY * d + clock
  }

  function WeekdayOf(d: Day): Weekday {
    (d + 1) % 7
  }

  /** The number of the Sunday-based week holding a day. */
  function WeekOf(d: Day): int {
    (d + 1) / 7
  }

  /** The Sunday on which a day's week starts. */
  function WeekStart(d: Day): Day {
    d - WeekdayOf(d)
  }

  predicate IsLeap(y: int) {
    y % 4 == 0 && (y % 100 != 0 || y % 400 == 0)
  }

  function DaysIn(y: int, m: int): int
    requires 1 <= m <= 12
  {
    if m == 2 then (if IsLeap(y) then 29 else 28)
    else if m == 4 || m == 6 || m == 9 || m == 11 then 30
    else 31
  }

  /** Days from 0001-01-01 to the first of January of a year. */
  function YearStart(y: int): Day {
    365 * (y - 1) + (y - 1) / 4 - (y - 1) / 100 + (y - 1) / 400
  }

  /** Days from the first of January to the first of a month. */
  function DaysBeforeMonth(y: int, m: int): int
    requires 1 <= m <= 12
  {
    if m == 1 then 0 else DaysBeforeMonth(y, m - 1) + DaysIn(y, m - 1)
  }

  function YearOfMonth(n: int): int {
    n / 12
  }

  function MonthInYear(n: int): (m: int)
    ensures 1 <= m <= 12
  {
    n % 12 + 1
  }

  function MonthNumber(y: int, m: int): int {
    12 * y + m - 1
  }

  function MonthLength(n: int): int {
    DaysIn(YearOfMonth(n), MonthInYear(n))
  }

  function MonthStart(n: int): Day {
    YearStart(YearOfMonth(n)) + DaysBeforeMonth(YearOfMonth(n), MonthInYear(n))
  }

  /** time.Date for a day inside its month. */
  function ToDay(c: Civil): Day
    requires 1 <= c.month <= 12
  {
    YearStart(c.year) + DaysBeforeMonth(c.year, c.month) + c.day - 1
  }

  predicate ValidCivil(c: Civil) {
    1 <= c.month <= 12 && 1 <= c.day <= DaysIn(c.year, c.month)
  }

  /**
  The year holding a day, found by peeling off 400-year, 100-year, 4-year and
  1-year blocks; the last block of a century cycle and of a leap cycle is one
  day longer, which the two corrections take back.
  */
  function YearOf(d: Day): int {
    var r400 := d % 146097;
    var q100 := r400 / 36524 - r400 / 36524 / 4;
    var r100 := r400 - 36524 * q100;
    var q4 := r100 / 1461;
    var r4 := r100 % 1461;
    var q1 := r4 / 365 - r4 / 365 / 4;
    400 * (d / 146097) + 100 * q100 + 4 * q4 + q1 + 1
  }

  function MonthFrom(y: int, m: int, dayOfYear: int): (int, int)
    requires 1 <= m <= 12
    decreases 12 - m
  {
    if m == 12 || dayOfYear < DaysIn(y, m) then (m, dayOfYear + 1)
    else MonthFrom(y, m + 1, dayOfYear - DaysIn(y, m))
  }

  /** Year, month and day of a day number, as Go's Date reads them. */
  function FromDay(d: Day): Civil {
    var y := YearOf(d);
    var md := MonthFrom(y, 1, d - YearStart(y));
    Civil(y, md.0, md.1)
  }

  function MonthOf(d: Day): int {
    var c := FromDay(d);
    MonthNumber(c.year, c.month)
  }

  function DayInMonth(d: Day): int {
    FromDay(d).day
  }

  // ---- days, weeks and instants ------------------------------------------------

  lemma SplitInstant(t: Instant)
    ensures At(DayOf(t), ClockOf(t)) == t
    ensures 0 <= ClockOf(t) < SECONDS_PER_DAY
  {
  }

  lemma WeekStartShift(d: Day, weeks: int, n: int)
    requires 0 <= n < 7
    ensures WeekdayOf(WeekStart(d) + 7 * weeks + n) == n
    ensures WeekOf(WeekStart(d) + 7 * weeks + n) == WeekOf(d) + weeks
  {
  }

  // ---- years -------------------------------------------------------------------

  lemma YearLength(y: int)
    ensures YearStart(y + 1) == YearStart(y) + DaysBeforeMonth(y, 12) + DaysIn(y, 12)
    ensures DaysBeforeMonth(y, 12) + DaysIn(y, 12) == (if IsLeap(y) then 366 else 365)
  {
    assert DaysBeforeMonth(y, 2) == 31;
    assert DaysBeforeMonth(y, 3) == 31 + DaysIn(y, 2);
    assert DaysBeforeMonth(y, 5) == DaysBeforeMonth(y, 3) + 61;
    assert DaysBeforeMonth(y, 7) == DaysBeforeMonth(y, 5) + 61;
    assert DaysBeforeMonth(y, 9) == DaysBeforeMonth(y, 7) + 62;
    assert DaysBeforeMonth(y, 11) == DaysBeforeMonth(y, 9) + 61;
    YearStartStep(y);
  }

  lemma YearStartStep(y: int)
    ensures YearStart(y + 1) == YearStart(y) + (if IsLeap(y) then 366 else 365)
  {
    DivStep(y, 4);
    DivStep(y, 100);
    DivStep(y, 400);
    Euclid(y, 100, y / 400 * 4 + y % 400 / 100, y % 400 % 100);
    Euclid(y, 4, y / 100 * 25 + y % 100 / 4, y % 100 % 4);
  }

  lemma DivStep(y: int, i: int)
    requires 2 <= i
    ensures y / i == (y - 1) / i + (if y % i == 0 then 1 else 0)
  {
    if y % i == 0 {
      assert i * (y / i - 1) == i * (y / i) - i;
      Euclid(y - 1, i, y / i - 1, i - 1);
    } else {
      Euclid(y - 1, i, y / i, y % i - 1);
    }
  }

  /** Where a year starts, and whether it is a leap year, read off its block counts. */
  lemma BlockYear(c: int, q100: int, q4: int, q1: int)
    requires 0 <= q100 <= 3 && 0 <= q4 <= 24 && 0 <= q1 <= 3
    ensures var y := 400 * c + 100 * q100 + 4 * q4 + q1 + 1;
            YearStart(y) == 146097 * c + 36524 * q100 + 1461 * q4 + 365 * q1
            && IsLeap(y) == (q1 == 3 && (q4 != 24 || q100 == 3))
  {
    var x := 400 * c + 100 * q100 + 4 * q4 + q1;
    Euclid(x, 4, 100 * c + 25 * q100 + q4, q1);
    Euclid(x, 100, 4 * c + q100, 4 * q4 + q1);
    Euclid(x, 400, c, 100 * q100 + 4 * q4 + q1);
    if q1 < 3 {
      Euclid(x + 1, 4, 100 * c + 25 * q100 + q4, q1 + 1);
    } else {
      Euclid(x + 1, 4, 100 * c + 25 * q100 + q4 + 1, 0);
      if q4 < 24 {
        Euclid(x + 1, 100, 4 * c + q100, 4 * q4 + 4);
      } else {
        Euclid(x + 1, 100, 4 * c + q100 + 1, 0);
        if q100 < 3 {
          Euclid(x + 1, 400, c, 100 * q100 + 100);
        } else {
          Euclid(x + 1, 400, c + 1, 0);
        }
      }
    }
  }

  lemma CenturySplit(r: int)
    requires 0 <= r < 146097
    ensures var q := r / 36524 - r / 36524 / 4;
            0 <= q <= 3 && 0 <= r - 36524 * q <= 36524 && (r - 36524 * q == 36524 ==> q == 3)
  {
  }

  lemma YearSplit(r: int)
    requires 0 <= r < 1461
    ensures var q := r / 365 - r / 365 / 4;
            0 <= q <= 3 && 0 <= r - 365 * q <= 365 && (r - 365 * q == 365 ==> q == 3 && r == 1460)
  {
  }

  lemma YearBlocks(d: Day) returns (c: int, q100: int, q4: int, q1: int, rest: int)
    ensures 0 <= q100 <= 3 && 0 <= q4 <= 24 && 0 <= q1 <= 3
    ensures 0 <= rest <= 365 && (rest == 365 ==> q1 == 3 && (q4 != 24 || q100 == 3))
    ensures d == 146097 * c + 36524 * q100 + 1461 * q4 + 365 * q1 + rest
    ensures YearOf(d) == 400 * c + 100 * q100 + 4 * q4 + q1 + 1
  {
    c := d / 146097;
    var r400 := d % 146097;
    CenturySplit(r400);
    q100 := r400 / 36524 - r400 / 36524 / 4;
    var r100 := r400 - 36524 * q100;
    q4 := r100 / 1461;
    var r4 := r100 % 1461;
    YearSplit(r4);
    q1 := r4 / 365 - r4 / 365 / 4;
    rest := r4 - 365 * q1;
  }

  /** The block-peeling year computation finds the year that holds the day. */
  lemma YearOfBounds(d: Day)
    ensures YearStart(YearOf(d)) <= d < YearStart(YearOf(d) + 1)
  {
    hide YearOf, YearStart, IsLeap;
    var c, q100, q4, q1, rest := YearBlocks(d);
    BlockYear(c, q100, q4, q1);
    YearStartStep(YearOf(d));
  }

  // ---- months ------------------------------------------------------------------

  lemma MonthStartStep(n: int)
    ensures MonthStart(n + 1) == MonthStart(n) + MonthLength(n)
    ensures 28 <= MonthLength(n) <= 31
  {
    hide YearStart, IsLeap;
    if n % 12 == 11 {
      Euclid(n + 1, 12, n / 12 + 1, 0);
      YearLength(YearOfMonth(n));
    } else {
      Euclid(n + 1, 12, n / 12, n % 12 + 1);
    }
  }

  /** Later months start later, by at least 28 days a month. */
  lemma {:induction false} MonthStartMonotone(a: int, b: int)
    requires a <= b
    ensures MonthStart(a) + 28 * (b - a) <= MonthStart(b)
    decreases b - a
  {
    if a < b {
      MonthStartMonotone(a, b - 1);
      MonthStartStep(b - 1);
    }
  }

  lemma {:induction false} MonthFromBounds(y: int, m: int, n: int)
    requires 1 <= m <= 12
    requires 0 <= n
    requires DaysBeforeMonth(y, m) + n < DaysBeforeMonth(y, 12) + DaysIn(y, 12)
    ensures var (month, day) := MonthFrom(y, m, n);
            1 <= month <= 12 && 1 <= day <= DaysIn(y, month)
            && DaysBeforeMonth(y, month) + day - 1 == DaysBeforeMonth(y, m) + n
    decreases 12 - m
  {
    if m < 12 && n >= DaysIn(y, m) {
      MonthFromBounds(y, m + 1, n - DaysIn(y, m));
    }
  }

  /** Reading a day number as a civil date and writing it back gives the same day. */
  lemma CivilOfDay(d: Day)
    ensures ValidCivil(FromDay(d))
    ensures ToDay(FromDay(d)) == d
  {
    YearOfBounds(d);
    YearLength(YearOf(d));
    MonthFromBounds(YearOf(d), 1, d - YearStart(YearOf(d)));
  }

  lemma MonthNumberSplit(y: int, m: int)
    requires 1 <= m <= 12
    ensures YearOfMonth(MonthNumber(y, m)) == y && MonthInYear(MonthNumber(y, m)) == m
  {
  }

  lemma DayWithinMonth(d: Day)
    ensures 1 <= DayInMonth(d) <= MonthLength(MonthOf(d))
    ensures d == MonthStart(MonthOf(d)) + DayInMonth(d) - 1
  {
    CivilOfDay(d);
    MonthNumberSplit(FromDay(d).year, FromDay(d).month);
  }

  /** A day lies in exactly one month, at exactly one position. */
  lemma MonthUnique(d: Day, n: int, day: int)
    requires 1 <= day <= MonthLength(n)
    requires d == MonthStart(n) + day - 1
    ensures MonthOf(d) == n && DayInMonth(d) == day
  {
    hide FromDay, MonthStart, MonthLength;
    DayWithinMonth(d);
    MonthStartStep(n);
    MonthStartStep(MonthOf(d));
    if MonthOf(d) < n {
      MonthStartMonotone(MonthOf(d) + 1, n);
    } else if n < MonthOf(d) {
      MonthStartMonotone(n + 1, MonthOf(d));
    }
  }

  /** Writing a valid civil date as a day number and reading it back gives the same date. */
  lemma DayOfCivil(c: Civil)
    requires ValidCivil(c)
    ensures FromDay(ToDay(c)) == c
  {
    hide FromDay, YearStart, DaysBeforeMonth, DaysIn, YearOfMonth, MonthInYear, MonthNumber;
    var d, n := ToDay(c), MonthNumber(c.year, c.month);
    MonthNumberSplit(c.year, c.month);
    MonthUnique(d, n, c.day);
    CivilOfDay(d);
    MonthNumberSplit(FromDay(d).year, FromDay(d).month);
  }

  // ---- closed form ---------------------------------------------------------------

  /** The first day of a month without counting months; month 13 is the next January. */
  function FirstOf(y: int, m: int): Day
    requires 1 <= m <= 13
  {
    365 * (y - 1) + (y - 1) / 4 - (y - 1) / 100 + (y - 1) / 400 + (367 * m - 362) / 12
    + if m <= 2 then 0 else if y % 4 == 0 && (y % 100 != 0 || y % 400 == 0) then -1 else -2
  }

  lemma {:induction false} DaysBeforeClosed(y: int, m: int)
    requires 1 <= m <= 12
    ensures YearStart(y) + DaysBeforeMonth(y, m) == FirstOf(y, m)
    ensures DaysIn(y, m) == FirstOf(y, m + 1) - FirstOf(y, m)
    decreases m
  {
    if m > 1 {
      DaysBeforeClosed(y, m - 1);
    }
  }

  /** Every month of every year starts, and is as long, as the closed form says. */
  lemma MonthsClosed(y: int, m: int)
    requires 1 <= m <= 12
    ensures MonthStart(MonthNumber(y, m)) == FirstOf(y, m)
    ensures MonthLength(MonthNumber(y, m)) == FirstOf(y, m + 1) - FirstOf(y, m)
    ensures forall day :: ToDay(Civil(y, m, day)) == FirstOf(y, m) + day - 1
  {
    DaysBeforeClosed(y, m);
    MonthNumberSplit(y, m);
    hide FirstOf, YearStart, DaysBeforeMonth, DaysIn, YearOfMonth, MonthInYear, MonthNumber;
  }

  /** 1 January 1970 was a Thursday, and day 0 is 1 January of year 1. */
  lemma KnownDays()
    ensures WeekdayOf(ToDay(Civil(1970, 1, 1))) == 4 && ToDay(Civil(1, 1, 1)) == 0
  {
  }
}
