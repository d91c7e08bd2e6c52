/** The seasonal tag resolver of React/Utils/getBackground.ts: the
    `SEASONAL_THEME` strings and `getSeasonalTag`, which lets the five days
    before the computed Easter override a month/day table. */
module Seasonal {
  import opened Calendar
  import opened EasterDate
  import opened DayWindow

  /** The members of `SEASONAL_THEME`. Three of them share one string. */
  datatype SeasonalTheme =
    | Winter | NewYears | GroundhogDay | ValentinesDay | WomensDay | StPatricksDay
    | PiDay | EasterTheme | AprilFools | Spring | EarthDay | Starwars | CincoDeMayo
    | Summer | FlagDay | Juneteenth | IndigenousPeoplesDay | CanadaDay | JulyFirst
    | Fall | Halloween | RemembranceDay | Christmas
  {
    /** The search tag the member stands for; no tag contains '&', the
        separator of the URL's query. */
    function Tag(): (t: string)
      ensures '&' !in t
    {
      match this
      case Winter => "winter"
      case NewYears => "fireworks"
      case GroundhogDay => "groundhog"
      case ValentinesDay => "valentine"
      case WomensDay => "womensday"
      case StPatricksDay => "pub"
      case PiDay => "pie"
      case EasterTheme => "easter"
      case AprilFools => "laughing"
      case Spring => "spring"
      case EarthDay => "earth"
      case Starwars => "yoda"
      case CincoDeMayo => "mexico"
      case Summer => "summer"
      case FlagDay => "america,flag"
      case Juneteenth => "juneteenth"
      case IndigenousPeoplesDay => "firstnations"
      case CanadaDay => "fireworks"
      case JulyFirst => "fireworks"
      case Fall => "fall"
      case Halloween => "helloween"
      case RemembranceDay => "veteran"
      case Christmas => "christmas"
    }
  }

  /** The `switch (month)` of `getSeasonalTag`, for months 1..12. */
  function MonthDayTheme(month: int, day: int): (t: SeasonalTheme)
    requires 1 <= month <= 12
    ensures t != EasterTheme
  {
    if month == 1 then (if day == 1 then NewYears else Winter)
    else if month == 2 then
      (if day == 2 then GroundhogDay else if day == 14 then ValentinesDay else Winter)
    else if month == 3 then
      (if day == 8 then WomensDay else if day == 14 then PiDay
       else if day == 17 then StPatricksDay else Winter)
    else if month == 4 then
      (if day == 1 then AprilFools else if day == 22 then EarthDay else Spring)
    else if month == 5 then
      (if day == 4 then Starwars else if day == 5 then CincoDeMayo else Spring)
    else if month == 6 then
      (if day == 14 then FlagDay else if day == 19 then Juneteenth
       else if day == 21 then IndigenousPeoplesDay else Summer)
    else if month == 7 then
      (if day == 1 then CanadaDay else if day == 4 then JulyFirst else Summer)
    else if month == 8 || month == 9 then Summer
    else if month == 10 then (if day == 31 then Halloween else Fall)
    else if month == 11 then (if day == 11 then RemembranceDay else Fall)
    else (if day == 31 then NewYears else Christmas)
  }

  /** `isWithinXDays(now, easter, 5)`: is the moment less than five days
      before the midnight that starts its year's computed Easter? That is
      the five calendar days before Easter, at any time of day; Easter day
      itself is outside. */
  function InEasterWindow(now: Moment): (w: bool)
    requires ValidMoment(now) && now.date.year >= FirstGregorianYear
    ensures w <==>
              DayNumber(Easter(now.date.year)) - 5 <= DayNumber(now.date) < DayNumber(Easter(now.date.year))
  {
    BeforeMidnightByDay(now, 5, Easter(now.date.year));
    IsWithinDaysBefore(Timestamp(now), 5, Timestamp(Midnight(Easter(now.date.year))))
  }

  /** `getSeasonalTag(now)`. The tag is "easter" exactly in the window;
      everywhere else it is the table's. */
  function SeasonalTag(now: Moment): (t: SeasonalTheme)
    requires ValidMoment(now) && now.date.year >= FirstGregorianYear
    ensures t == EasterTheme <==> InEasterWindow(now)
    ensures t != EasterTheme ==> t == MonthDayTheme(now.date.month, now.date.day)
  {
    if InEasterWindow(now) then EasterTheme
    else MonthDayTheme(now.date.month, now.date.day)
  }

  // ---------------------------------------------------------------------
  // The month/day table, restated independently

  /** The fixed days of the table. */
  const FixedDays: map<(int, int), SeasonalTheme> := map[
    (1, 1) := NewYears, (2, 2) := GroundhogDay, (2, 14) := ValentinesDay,
    (3, 8) := WomensDay, (3, 14) := PiDay, (3, 17) := StPatricksDay,
    (4, 1) := AprilFools, (4, 22) := EarthDay,
    (5, 4) := Starwars, (5, 5) := CincoDeMayo,
    (6, 14) := FlagDay, (6, 19) := Juneteenth, (6, 21) := IndigenousPeoplesDay,
    (7, 1) := CanadaDay, (7, 4) := JulyFirst,
    (10, 31) := Halloween, (11, 11) := RemembranceDay, (12, 31) := NewYears]

  /** The season a month defaults to. */
  function SeasonOf(month: int): (s: SeasonalTheme)
    requires 1 <= month <= 12
    ensures s in {Winter, Spring, Summer, Fall, Christmas}
  {
    if month <= 3 then Winter
    else if month <= 5 then Spring
    else if month <= 9 then Summer
    else if month <= 11 then Fall
    else Christmas
  }

  /** The table gives the fixed day's theme on a fixed day and the month's
      season on every other day. */
  lemma MonthDayTable(month: int, day: int)
    requires 1 <= month <= 12
    ensures (month, day) in FixedDays ==> MonthDayTheme(month, day) == FixedDays[(month, day)]
    ensures (month, day) !in FixedDays ==> MonthDayTheme(month, day) == SeasonOf(month)
  {
    if (month, day) in FixedDays {
      FixedDayTheme(month, day);
    } else {
      OrdinaryDayTheme(month, day);
    }
  }

  /** On a fixed day the table gives that day's theme. */
  lemma FixedDayTheme(month: int, day: int)
    requires 1 <= month <= 12 && (month, day) in FixedDays
    ensures MonthDayTheme(month, day) == FixedDays[(month, day)]
  {
    assert (month, day) in FixedDays.Keys;
    assert month in {1, 2, 3, 4, 5, 6, 7, 10, 11, 12};
  }

  /** On any other day the table gives the month's season. */
  lemma OrdinaryDayTheme(month: int, day: int)
    requires 1 <= month <= 12 && (month, day) !in FixedDays
    ensures MonthDayTheme(month, day) == SeasonOf(month)
  {
  }

  /** New Year's Day, Canada Day, 4 July and New Year's Eve share the tag
      "fireworks". */
  lemma FireworksDays(month: int, day: int)
    requires (month, day) in {(1, 1), (7, 1), (7, 4), (12, 31)}
    ensures MonthDayTheme(month, day).Tag() == "fireworks"
  {
  }

  // ---------------------------------------------------------------------
  // The Easter window

  /** Inside the window the tag is "easter", whatever the table says. */
  lemma EasterOverridesTable(now: Moment)
    requires ValidMoment(now) && now.date.year >= FirstGregorianYear
    requires DayNumber(Easter(now.date.year)) - 5 <= DayNumber(now.date) < DayNumber(Easter(now.date.year))
    ensures SeasonalTag(now) == EasterTheme
  {
  }

  /** On Easter day itself, at any time, the table decides. */
  lemma EasterDayFallsThrough(now: Moment)
    requires ValidMoment(now) && now.date.year >= FirstGregorianYear
    requires now.date == Easter(now.date.year)
    ensures SeasonalTag(now) == MonthDayTheme(now.date.month, now.date.day)
  {
  }

  /** The window only ever covers days from 16 March to 24 April. */
  lemma EasterWindowDates(now: Moment)
    requires ValidMoment(now) && now.date.year >= FirstGregorianYear
    requires InEasterWindow(now)
    ensures (now.date.month == 3 && now.date.day >= 16) || (now.date.month == 4 && now.date.day <= 24)
  {
    var y := now.date.year;
    MonthStep(y, 3);
    DateOrder(Date(y, 3, 16), now.date);
    DateOrder(now.date, Date(y, 4, 24));
    if DayNumber(now.date) == DayNumber(Date(y, 3, 16)) {
      DayNumberInjective(now.date, Date(y, 3, 16));
    }
    if DayNumber(now.date) == DayNumber(Date(y, 4, 24)) {
      DayNumberInjective(now.date, Date(y, 4, 24));
    }
  }

  /** Outside 16 March to 24 April the tag depends on month and day alone. */
  lemma TagOutsideSpringIsTable(now: Moment)
    requires ValidMoment(now) && now.date.year >= FirstGregorianYear
    requires !((now.date.month == 3 && now.date.day >= 16) || (now.date.month == 4 && now.date.day <= 24))
    ensures SeasonalTag(now) == MonthDayTheme(now.date.month, now.date.day)
  {
    if InEasterWindow(now) {
      EasterWindowDates(now);
    }
  }

  /** 28 March 2024 is three days before that year's computed Easter (31
      March); 31 March 2024 falls through to the March default. */
  lemma Spring2024(t: int)
    requires 0 <= t < MsPerDay
    ensures SeasonalTag(Moment(Date(2024, 3, 28), t)) == EasterTheme
    ensures SeasonalTag(Moment(Date(2024, 3, 31), t)) == Winter
  {
    Easter2024();
    EasterOverridesTable(Moment(Date(2024, 3, 28), t));
    EasterDayFallsThrough(Moment(Date(2024, 3, 31), t));
  }
}
