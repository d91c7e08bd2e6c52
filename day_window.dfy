/** The two "within X days" predicates (React/Utils/isWithinXDays.ts), on
    the millisecond timestamps that `getTime` returns. */
module DayWindow {
  import opened Calendar

  /** `isWithinDaysBefore(a, days, b)`: `a` lies strictly before `b` and at
      most `days` days before it. */
  function IsWithinDaysBefore(a: int, days: int, b: int): (r: bool)
    ensures r ==> a < b
    ensures r ==> days > 0
  {
    a < b && b - a <= days * MsPerDay
  }

  /** `isWithinDaysAfter(a, days, b)`: `a` lies strictly after `b` and at
      most `days` days after it. */
  function IsWithinDaysAfter(a: int, days: int, b: int): (r: bool)
    ensures r ==> b < a
    ensures r ==> days > 0
  {
    b < a && a - b <= days * MsPerDay
  }

  /** The window is exclusive of `b` itself, whatever `days` is. */
  lemma SameInstantIsOutside(a: int, days: int)
    ensures !IsWithinDaysBefore(a, days, a)
    ensures !IsWithinDaysAfter(a, days, a)
  {
  }

  /** "After" is "before" with the two instants swapped, so the two
      predicates never hold together. */
  lemma AfterIsSwappedBefore(a: int, days: int, b: int)
    ensures IsWithinDaysAfter(a, days, b) == IsWithinDaysBefore(b, days, a)
    ensures !(IsWithinDaysAfter(a, days, b) && IsWithinDaysBefore(a, days, b))
  {
  }

  /** Widening the window keeps every instant that was inside it. */
  lemma MonotoneInDays(a: int, days: int, wider: int, b: int)
    requires days <= wider
    ensures IsWithinDaysBefore(a, days, b) ==> IsWithinDaysBefore(a, wider, b)
    ensures IsWithinDaysAfter(a, days, b) ==> IsWithinDaysAfter(a, wider, b)
  {
  }

  /** Against a local midnight, the window "at most `days` days before" holds
      exactly for the moments on the `days` calendar days before that
      midnight's date, at any time of day. */
  lemma BeforeMidnightByDay(t: Moment, days: int, d: Date)
    requires ValidMoment(t) && ValidDate(d)
    ensures IsWithinDaysBefore(Timestamp(t), days, Timestamp(Midnight(d)))
            <==> DayNumber(d) - days <= DayNumber(t.date) < DayNumber(d)
  {
    var k := DayNumber(d) - DayNumber(t.date);
    assert Timestamp(Midnight(d)) - Timestamp(t) == k * MsPerDay - t.msOfDay;
    WholeDaysBefore(k, t.msOfDay, days);
  }

  /** A gap of `k` whole days less a part of a day is positive and at most
      `days` days exactly when `0 < k <= days`. */
  lemma WholeDaysBefore(k: int, ms: int, days: int)
    requires 0 <= ms < MsPerDay
    ensures (0 < k * MsPerDay - ms <= days * MsPerDay) <==> (0 < k <= days)
  {
    if 0 < k <= days {
      assert k * MsPerDay <= days * MsPerDay;
    } else if k > days && k > 0 {
      assert k * MsPerDay >= (days + 1) * MsPerDay;
    }
  }
}
