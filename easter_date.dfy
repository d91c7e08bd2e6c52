/** The Easter calculator behind the seasonal backgrounds
    (React/Utils/getEasterDate.ts). Its variables are named after the
    Gregorian computus, but the D and E steps use other formulas, so for many
    years the date differs from the ecclesiastical Easter; this module
    computes what the code computes. All arithmetic is on non-negative
    operands for the years admitted here, so JavaScript's `%` and
    `Math.floor(a / b)` coincide with Dafny's `%` and `/`. */
module EasterDate {
  import opened Calendar

  /** First year of the Gregorian calendar; every intermediate value below is
      non-negative from here on. */
  const FirstGregorianYear: int := 1583

  /** Step 1: the golden number. */
  function GoldenNumber(year: int): (gn: int)
    requires year >= FirstGregorianYear
    ensures 1 <= gn <= 19
    ensures (gn - 1) % 19 == year % 19
  {
    year % 19 + 1
  }

  /** Step 2: the century, counted from 1. */
  function Century(year: int): (c: int)
    requires year >= FirstGregorianYear
    ensures c >= 16
    ensures (c - 1) * 100 <= year < c * 100
  {
    year / 100 + 1
  }

  /** Step 3. */
  function XValue(year: int): (x: int)
    requires year >= FirstGregorianYear
    ensures x >= 0
  {
    3 * Century(year) / 4 - 12
  }

  /** Step 4. */
  function ZValue(year: int): (z: int)
    requires year >= FirstGregorianYear
    ensures z >= 0
  {
    (8 * Century(year) + 5) / 25 - 5
  }

  /** Step 5. */
  function DValue(year: int): (d: int)
    requires year >= FirstGregorianYear
    ensures 0 <= d <= 29
  {
    (5 * GoldenNumber(year) + XValue(year)) % 30
  }

  /** Step 6: the epact before the correction. */
  function RawEpact(year: int): (e: int)
    requires year >= FirstGregorianYear
    ensures 0 <= e <= 29
  {
    (11 * DValue(year) + ZValue(year)) % 30
  }

  /** The condition under which step 7 decrements the epact. */
  predicate NeedsCorrection(e: int, d: int, gn: int) {
    (e == 24 && ((d == 29 && gn > 11) || (d == 28 && gn > 12))) || (e == 25 && d == 28)
  }

  /** Step 7: the corrected epact. */
  function Epact(year: int): (e: int)
    requires year >= FirstGregorianYear
    ensures 0 <= e <= 29
  {
    var e := RawEpact(year);
    if NeedsCorrection(e, DValue(year), GoldenNumber(year)) then e - 1 else e
  }

  /** The correction subtracts exactly one when its condition holds and
      changes nothing otherwise. */
  lemma EpactCorrection(year: int)
    requires year >= FirstGregorianYear
    ensures NeedsCorrection(RawEpact(year), DValue(year), GoldenNumber(year)) ==> Epact(year) == RawEpact(year) - 1
    ensures !NeedsCorrection(RawEpact(year), DValue(year), GoldenNumber(year)) ==> Epact(year) == RawEpact(year)
    ensures Epact(year) != RawEpact(year) ==> RawEpact(year) in {24, 25}
  {
  }

  /** Steps 8 and 9: 21 March plus the epact, rolled over into April by
      `setDate`. */
  function FullMoon(year: int): (fm: Date)
    requires year >= FirstGregorianYear
    ensures ValidDate(fm) && fm.year == year
    ensures DayNumber(fm) == DayNumber(Date(year, 3, 21)) + Epact(year)
    ensures (fm.month == 3 && 21 <= fm.day) || (fm.month == 4 && fm.day <= 19)
  {
    var d := 21 + Epact(year);
    assert d > 31 ==> Normalize(year, 4, d - 31) == Date(year, 4, d - 31);
    Normalize(year, 3, d)
  }

  /** Step 10, first half: days from a date to the next Sunday, 0 when the
      date is itself a Sunday. */
  function DaysToSunday(d: Date): (n: int)
    requires d.year >= 1 && 1 <= d.month <= 12
    ensures 0 <= n <= 6
    ensures WeekdayOf(DayNumber(d) + n) == 0
    ensures n == 0 <==> Weekday(d) == 0
  {
    (7 - Weekday(d)) % 7
  }

  /** The date `getEasterDate(year)` returns, at local midnight. */
  function Easter(year: int): (e: Date)
    requires year >= FirstGregorianYear
    ensures ValidDate(e) && e.year == year
    ensures Weekday(e) == 0
    ensures DayNumber(e) == DayNumber(FullMoon(year)) + DaysToSunday(FullMoon(year))
    ensures DayNumber(Date(year, 3, 21)) <= DayNumber(e) <= DayNumber(Date(year, 3, 21)) + 35
    ensures (e.month == 3 && 21 <= e.day) || (e.month == 4 && e.day <= 25)
  {
    var fm := FullMoon(year);
    var k := DaysToSunday(fm);
    SundayAfterFullMoon(year, fm, k);
    Normalize(year, fm.month, fm.day + k)
  }

  /** Moving the full moon forward by at most six days with `setDate` stays
      in the same year, between 21 March and 25 April. */
  lemma SundayAfterFullMoon(year: int, fm: Date, k: int)
    requires year >= FirstGregorianYear && fm == FullMoon(year) && 0 <= k <= 6
    ensures Normalize(year, fm.month, fm.day + k).year == year
    ensures var e := Normalize(year, fm.month, fm.day + k);
            (e.month == 3 && 21 <= e.day) || (e.month == 4 && e.day <= 25)
  {
    var d := fm.day + k;
    if fm.month == 3 && d > 31 {
      assert Normalize(year, 4, d - 31) == Date(year, 4, d - 31);
    }
  }

  /** The result is the first Sunday on or after the full moon: a Sunday,
      at most six days later, with no Sunday in between. */
  lemma EasterIsFirstSundayFromFullMoon(year: int)
    requires year >= FirstGregorianYear
    ensures Weekday(Easter(year)) == 0
    ensures 0 <= DayNumber(Easter(year)) - DayNumber(FullMoon(year)) <= 6
    ensures forall n :: DayNumber(FullMoon(year)) <= n < DayNumber(Easter(year)) ==> WeekdayOf(n) != 0
  {
    var f := DayNumber(FullMoon(year));
    var k := DaysToSunday(FullMoon(year));
    forall n | f <= n < f + k
      ensures WeekdayOf(n) != 0
    {
      SundaysAreAWeekApart(n, f + k);
    }
  }

  /** Two Sundays lie at least a week apart. */
  lemma SundaysAreAWeekApart(m: int, n: int)
    requires m < n < m + 7
    requires WeekdayOf(n) == 0
    ensures WeekdayOf(m) != 0
  {
    var q := (n + 1) / 7;
    assert n + 1 == 7 * q;
    assert 7 * (q - 1) < m + 1 < 7 * q;
  }

  /** A full moon on a Sunday is itself the result, not the Sunday after. */
  lemma SundayFullMoonIsEaster(year: int)
    requires year >= FirstGregorianYear
    requires Weekday(FullMoon(year)) == 0
    ensures Easter(year) == FullMoon(year)
  {
    DayNumberInjective(Easter(year), FullMoon(year));
  }

  /** 2024: full moon on Saturday 30 March, result Sunday 31 March. */
  lemma Easter2024()
    ensures Easter(2024) == Date(2024, 3, 31)
  {
    assert DaysBeforeYear(2024) == 738885;
    assert Epact(2024) == 9;
    assert FullMoon(2024) == Date(2024, 3, 30);
    assert DayNumber(Date(2024, 3, 30)) == 738974;
    assert DaysToSunday(Date(2024, 3, 30)) == 1;
  }

  /** 2025: full moon on Tuesday 25 March, result Sunday 30 March (the
      ecclesiastical Easter of 2025 is 20 April). */
  lemma Easter2025()
    ensures Easter(2025) == Date(2025, 3, 30)
  {
    assert DaysBeforeYear(2025) == 739251;
    assert Epact(2025) == 4;
    assert FullMoon(2025) == Date(2025, 3, 25);
    assert DayNumber(Date(2025, 3, 25)) == 739334;
    assert DaysToSunday(Date(2025, 3, 25)) == 5;
  }
}
