/** The part of JavaScript's `Date` that the new-tab utilities rely on, as
    values: proleptic-Gregorian calendar dates, a day number that counts days
    from 1 January of year 1, the weekday as `getDay` reports it, the rollover
    that `setDate` and the `Date(y, m, d)` constructor perform when the day of
    the month overflows, and local wall-clock moments with their millisecond
    timestamps. */
module Calendar {

  /** A calendar date; `month` runs 1..12 (one more than `getMonth`). */
  datatype Date = Date(year: int, month: int, day: int)

  predicate IsLeapYear(y: int) {
    y % 4 == 0 && (y % 100 != 0 || y % 400 == 0)
  }

  function DaysInMonth(y: int, m: int): (n: int)
    ensures 28 <= n <= 31
    ensures m == 2 ==> (n == 29 <==> IsLeapYear(y))
  {
    if m == 2 then (if IsLeapYear(y) then 29 else 28)
    else if m == 4 || m == 6 || m == 9 || m == 11 then 30
    else 31
  }

  predicate ValidDate(d: Date) {
    d.year >= 1 && 1 <= d.month <= 12 && 1 <= d.day <= DaysInMonth(d.year, d.month)
  }

  /** Days of year `y` before the first day of month `m`; `m == 13` gives
      the length of the year. */
  function DaysBeforeMonth(y: int, m: int): (n: int)
    requires 1 <= m <= 13
  {
    var leap := if m >= 3 && IsLeapYear(y) then 1 else 0;
    leap + (match m
      case 1 => 0     case 2 => 31    case 3 => 59    case 4 => 90
      case 5 => 120   case 6 => 151   case 7 => 181   case 8 => 212
      case 9 => 243   case 10 => 273  case 11 => 304  case 12 => 334
      case _ => 365)
  }

  /** The table above agrees with the month lengths. */
  lemma MonthStep(y: int, m: int)
    requires 1 <= m <= 12
    ensures DaysBeforeMonth(y, m + 1) == DaysBeforeMonth(y, m) + DaysInMonth(y, m)
  {
  }

  /** Days from 1 January of year 1 to 1 January of year `y`. */
  function DaysBeforeYear(y: int): int
    requires y >= 1
  {
    var k := y - 1;
    365 * k + k / 4 - k / 100 + k / 400
  }

  /** Counting multiples of 4, 100 and 400: the count steps up by one
      exactly at a multiple. */
  lemma DivStep4(k: int)
    requires k >= 0
    ensures (k + 1) / 4 == k / 4 + (if (k + 1) % 4 == 0 then 1 else 0)
  {
  }

  lemma DivStep100(k: int)
    requires k >= 0
    ensures (k + 1) / 100 == k / 100 + (if (k + 1) % 100 == 0 then 1 else 0)
  {
  }

  lemma DivStep400(k: int)
    requires k >= 0
    ensures (k + 1) / 400 == k / 400 + (if (k + 1) % 400 == 0 then 1 else 0)
  {
  }

  /** A year is as long as its twelve months. */
  lemma YearLength(y: int)
    requires y >= 1
    ensures DaysBeforeYear(y + 1) == DaysBeforeYear(y) + DaysBeforeMonth(y, 13)
  {
    var k := y - 1;
    DivStep4(k);
    DivStep100(k);
    DivStep400(k);
    Divisibility(y);
    var leapDays := (y / 4 - k / 4) - (y / 100 - k / 100) + (y / 400 - k / 400);
    assert DaysBeforeYear(y + 1) == DaysBeforeYear(y) + 365 + leapDays;
  }

  /** Multiples of 400 are multiples of 100, which are multiples of 4. */
  lemma Divisibility(y: int)
    ensures y % 400 == 0 ==> y % 100 == 0
    ensures y % 100 == 0 ==> y % 4 == 0
  {
  }

  /** Days since 1 January of year 1, which was a Monday. The day of the
      month enters linearly, so an overflowing day numbers the same day as
      the date `Date` rolls it over to (see `Normalize`). */
  function DayNumber(d: Date): int
    requires d.year >= 1 && 1 <= d.month <= 12
  {
    DaysBeforeYear(d.year) + DaysBeforeMonth(d.year, d.month) + d.day - 1
  }

  /** The weekday of a day number, numbered as `getDay` numbers it:
      0 is Sunday, 1 Monday, ..., 6 Saturday. */
  function WeekdayOf(n: int): (w: int)
    ensures 0 <= w < 7
  {
    (n + 1) % 7
  }

  function Weekday(d: Date): (w: int)
    requires d.year >= 1 && 1 <= d.month <= 12
    ensures 0 <= w < 7
  {
    WeekdayOf(DayNumber(d))
  }

  /** The date that JavaScript's `Date` denotes by day `d` of month `m` of
      year `y` (what `setDate(d)` produces on a date of that month): days
      past the end of the month roll over into the following months and
      years. */
  function Normalize(y: int, m: int, d: int): (r: Date)
    requires y >= 1 && 1 <= m <= 12 && d >= 1
    ensures ValidDate(r) && r.year >= y
    ensures DayNumber(r) == DayNumber(Date(y, m, 1)) + d - 1
    ensures d <= DaysInMonth(y, m) ==> r == Date(y, m, d)
    decreases d
  {
    if d <= DaysInMonth(y, m) then Date(y, m, d)
    else if m == 12 then
      NextMonthStart(y, m);
      Normalize(y + 1, 1, d - 31)
    else
      NextMonthStart(y, m);
      Normalize(y, m + 1, d - DaysInMonth(y, m))
  }

  /** The first day of the following month, in the next year after
      December, is numbered right after the last day of month `m`. */
  lemma NextMonthStart(y: int, m: int)
    requires y >= 1 && 1 <= m <= 12
    ensures m < 12 ==> DayNumber(Date(y, m + 1, 1)) == DayNumber(Date(y, m, 1)) + DaysInMonth(y, m)
    ensures m == 12 ==> DayNumber(Date(y + 1, 1, 1)) == DayNumber(Date(y, m, 1)) + DaysInMonth(y, m)
  {
    MonthStep(y, m);
    if m == 12 {
      YearLength(y);
    }
  }

  /** Within one year, day numbers are ordered as (month, day) pairs are
      ordered lexicographically. */
  lemma DateOrder(a: Date, b: Date)
    requires ValidDate(a) && ValidDate(b) && a.year == b.year
    ensures DayNumber(a) < DayNumber(b) <==> (a.month < b.month || (a.month == b.month && a.day < b.day))
  {
    if a.month < b.month {
      MonthStep(a.year, a.month);
      assert DaysBeforeMonth(a.year, b.month) >= DaysBeforeMonth(a.year, a.month + 1);
    } else if b.month < a.month {
      MonthStep(b.year, b.month);
      assert DaysBeforeMonth(b.year, a.month) >= DaysBeforeMonth(b.year, b.month + 1);
    }
  }

  /** Valid dates are numbered without collision. */
  lemma DayNumberInjective(a: Date, b: Date)
    requires ValidDate(a) && ValidDate(b)
    requires DayNumber(a) == DayNumber(b)
    ensures a == b
  {
    if a.year < b.year {
      YearsApart(a, b);
    } else if b.year < a.year {
      YearsApart(b, a);
    } else {
      DateOrder(a, b);
      DateOrder(b, a);
    }
  }

  /** Every valid date of an earlier year has a smaller day number. */
  lemma YearsApart(a: Date, b: Date)
    requires ValidDate(a) && ValidDate(b) && a.year < b.year
    ensures DayNumber(a) < DayNumber(b)
  {
    YearsGrow(a.year, b.year);
    YearLength(a.year);
  }

  /** Day numbers of New Year's Days never decrease. */
  lemma {:induction false} YearsGrow(y: int, z: int)
    requires 1 <= y < z
    ensures DaysBeforeYear(z) >= DaysBeforeYear(y + 1)
    decreases z - y
  {
    if z > y + 1 {
      YearsGrow(y, z - 1);
      YearLength(z - 1);
    }
  }

  /** Milliseconds in a day. */
  const MsPerDay: int := 24 * 60 * 60 * 1000

  /** A local wall-clock moment: a date and the milliseconds since its
      local midnight. */
  datatype Moment = Moment(date: Date, msOfDay: int)

  predicate ValidMoment(t: Moment) {
    ValidDate(t.date) && 0 <= t.msOfDay < MsPerDay
  }

  /** The moment's millisecond timestamp on a local clock (the value whose
      differences `getTime` differences would give, time zones aside). */
  function Timestamp(t: Moment): int
    requires t.date.year >= 1 && 1 <= t.date.month <= 12
  {
    DayNumber(t.date) * MsPerDay + t.msOfDay
  }

  /** Local midnight of a date, as `new Date(y, m, d)` gives it. */
  function Midnight(d: Date): (t: Moment)
    ensures t.date == d && t.msOfDay == 0
  {
    Moment(d, 0)
  }
}
