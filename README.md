# Beautitab new-tab utilities in Dafny

A model of the small utilities behind the Beautitab new-tab page of the
Obsidian plugin: the Easter calculator and the seasonal tag it feeds, the
"within X days" predicates, the background resolver, the bookmark-tree
flattening, the settings `Observable`, and the clock, greeting and
capitalisation helpers. Everything that reads the clock, the random source or
the host takes those values as parameters.

One module per source file, plus a calendar helper and a text helper:

- `Calendar` (calendar.dfy): proleptic-Gregorian dates, day numbers counted
  from 1 January of year 1, `getDay`-style weekdays (0 = Sunday), the day
  rollover that `Date.setDate` performs (`Normalize`), and local moments with
  millisecond timestamps.
- `Text` (text.dfy): an optional value, `indexOf` with "not found" as the
  length, and the splitting facts the URL and clock parsers rely on.
- `EasterDate` (easter_date.dfy): `getEasterDate`, step by step. The code's
  D and E steps differ from the Gregorian computus whose variable names it
  borrows. The model follows the code, not the ecclesiastical date. For 2024
  both give 31 March. For 2025 the code gives 30 March, while Easter 2025 was
  on 20 April.
- `DayWindow` (day_window.dfy): `isWithinDaysBefore` and `isWithinDaysAfter`.
- `Seasonal` (seasonal.dfy): `SEASONAL_THEME` and `getSeasonalTag`.
- `Background` (background.dfy): `getBackground`. A small parser for the
  image URL is the partner of its URL construction.
- `Bookmarks` (bookmarks.dfy): `flattenBookmarks`, `getBookmarksByGroupName`
  and `flattenBookmarkGroups`. Each is a recursive function that states the
  result and a loop method, built the way the source builds it, proved equal
  to that function. `getBookmarks` is also here.
- `Observables` (observable.dfy): the `Observable` class. Callbacks are
  integer handles, and a ghost log records every subscriber call. The
  unsubscribe closure's filter keeps the entries EQUAL to the callback
  (`value === callback`), so it drops every other subscriber. This is
  modelled as written.
- `Clock` (clock.dfy), `Greeting` (greeting.dfy), `Capitalize`
  (capitalize.dfy): `getTime`, `getTimeOfDayGreeting`,
  `capitalizeFirstLetter`.

The `BackgroundTheme` enum in src/Types/Enums.ts:1-13 has no `TRANSPARENT`
or `TRANSPARENT_WITH_SHADOWS` members. getBackground.ts:184-185 and the view
(React/Components/App/App.tsx:136-142) use both, so the model's theme
datatype includes them. The fixed-category variants carry the suffix
`Category` (`WinterCategory`, ...) only to keep them apart from the seasonal
tags.

## Model

| member | source | states |
|---|---|---|
| `Calendar.Normalize` | React/Utils/getEasterDate.ts:36-42 | `setDate(d)` rollover: a valid date, `d - 1` days after the first of the month, unchanged when `d` fits the month |
| `EasterDate.GoldenNumber` | React/Utils/getEasterDate.ts:7 | GN lies in 1..19 and is one more than the year mod 19 |
| `EasterDate.Century` | React/Utils/getEasterDate.ts:10 | C is the 1-based century: `(C-1)*100 <= year < C*100`, at least 16 |
| `EasterDate.XValue` | React/Utils/getEasterDate.ts:13 | X is non-negative from 1583 on |
| `EasterDate.ZValue` | React/Utils/getEasterDate.ts:16 | Z is non-negative from 1583 on |
| `EasterDate.DValue` | React/Utils/getEasterDate.ts:19 | D lies in 0..29 |
| `EasterDate.RawEpact` | React/Utils/getEasterDate.ts:22 | E before the correction lies in 0..29 |
| `EasterDate.Epact` | React/Utils/getEasterDate.ts:25-30 | E after the correction lies in 0..29 |
| `EasterDate.EpactCorrection` | React/Utils/getEasterDate.ts:25-30 | E drops by exactly one iff the correction condition holds, only from 24 or 25, and is unchanged otherwise |
| `EasterDate.FullMoon` | React/Utils/getEasterDate.ts:33-37 | the full moon is 21 March + E days of the same year, between 21 March and 19 April |
| `EasterDate.DaysToSunday` | React/Utils/getEasterDate.ts:40 | offset in 0..6 that lands on a Sunday, 0 exactly when the date is a Sunday |
| `EasterDate.Easter` | React/Utils/getEasterDate.ts:5-44 | the result is a valid Sunday of the input year, 0..35 days after 21 March, between 21 March and 25 April |
| `EasterDate.SundayAfterFullMoon` | React/Utils/getEasterDate.ts:41-42 | moving the full moon forward by at most six days with `setDate` stays in the same year, between 21 March and 25 April |
| `EasterDate.EasterIsFirstSundayFromFullMoon` | React/Utils/getEasterDate.ts:39-42 | the result is the first Sunday on or after the full moon: no Sunday lies between them |
| `EasterDate.SundayFullMoonIsEaster` | React/Utils/getEasterDate.ts:40-42 | a full moon on a Sunday is returned itself, not the Sunday after |
| `EasterDate.Easter2024` | React/Utils/getEasterDate.ts:5-44 | 2024 gives 31 March |
| `EasterDate.Easter2025` | React/Utils/getEasterDate.ts:5-44 | 2025 gives 30 March, not the ecclesiastical 20 April |
| `DayWindow.IsWithinDaysBefore` | React/Utils/isWithinXDays.ts:7-19 | true only when `a` is strictly before `b` and `days` is positive |
| `DayWindow.IsWithinDaysAfter` | React/Utils/isWithinXDays.ts:28-40 | true only when `a` is strictly after `b` and `days` is positive |
| `DayWindow.SameInstantIsOutside` | React/Utils/isWithinXDays.ts:16-18 | the comparison is strict: equal instants are never within, whatever `days` is |
| `DayWindow.WholeDaysBefore` | React/Utils/isWithinXDays.ts:14-18 | a gap of `k` whole days minus part of a day is positive and at most `days` days exactly when `0 < k <= days` |
| `DayWindow.AfterIsSwappedBefore` | React/Utils/isWithinXDays.ts:7-40 | "after" equals "before" with the instants swapped, so the two never hold together |
| `DayWindow.MonotoneInDays` | React/Utils/isWithinXDays.ts:14-18 | widening `days` keeps every instant that was within |
| `DayWindow.BeforeMidnightByDay` | React/Utils/isWithinXDays.ts:12-18 | against a local midnight, "within `days` before" holds exactly on the `days` calendar days before it, at any time of day |
| `Seasonal.SeasonalTheme.Tag` | React/Utils/getBackground.ts:20-44 | no seasonal tag contains '&', so the URL stays unambiguous |
| `Seasonal.MonthDayTheme` | React/Utils/getBackground.ts:61-142 | the month/day table never yields "easter" |
| `Seasonal.SeasonalTag` | React/Utils/getBackground.ts:50-59 | the tag is "easter" exactly in the Easter window, and the table's tag everywhere else |
| `Seasonal.SeasonOf` | React/Utils/getBackground.ts:61-142 | the month defaults are winter, spring, summer, fall or christmas |
| `Seasonal.MonthDayTable` | React/Utils/getBackground.ts:61-142 | the table yields the listed fixed-day theme on the 18 fixed days and the month default (Jan-Mar winter, Apr-May spring, Jun-Sep summer, Oct-Nov fall, Dec christmas) on every other day |
| `Seasonal.FireworksDays` | React/Utils/getBackground.ts:20-44 | 1 Jan, 1 Jul, 4 Jul and 31 Dec all yield "fireworks" |
| `Seasonal.InEasterWindow` | React/Utils/getBackground.ts:56-57 | `isWithinDaysBefore(now, 5, easter)` holds exactly on the five calendar days before the computed Easter, at any time of day; Easter day itself is outside |
| `Seasonal.EasterOverridesTable` | React/Utils/getBackground.ts:56-59 | inside the window the tag is "easter", whatever the table says |
| `Seasonal.EasterDayFallsThrough` | React/Utils/getBackground.ts:56-59 | on Easter day itself, at any time, the table decides |
| `Seasonal.EasterWindowDates` | React/Utils/getBackground.ts:56-59 | the window only covers dates from 16 March to 24 April |
| `Seasonal.TagOutsideSpringIsTable` | React/Utils/getBackground.ts:50-142 | outside 16 March to 24 April the tag depends on month and day alone |
| `Seasonal.Spring2024` | React/Utils/getBackground.ts:50-142 | 28 March 2024 gives "easter" and 31 March 2024 gives "winter", at any time of day |
| `Background.WithoutSpaces` | React/Utils/getBackground.ts:171 | a text without spaces is returned unchanged |
| `Background.WithoutSpacesCons` | React/Utils/getBackground.ts:171 | a leading space is dropped and any other leading character kept |
| `Background.WithoutSpacesAppend` | React/Utils/getBackground.ts:171 | the removal works piecewise over a concatenation, so the kept characters stay in order |
| `Background.WithoutSpacesRemovesExactlySpaces` | React/Utils/getBackground.ts:171 | no space is left and every other character keeps its count |
| `Background.UnsplashUrl` | React/Utils/getBackground.ts:169-171 | for a tag without '&', the search tag and the space-free date text read back from the URL |
| `Background.BackgroundTheme.CategoryTag` | React/Utils/getBackground.ts:188-193 | no category tag contains '&', so the URL stays unambiguous |
| `Background.RandomIndex` | React/Utils/getBackground.ts:179-181 | the index is the whole part of `r * n` (`i <= r * n < i + 1`), hence a valid index of a non-empty pool for `r` in [0, 1) |
| `Background.PickLocal` | React/Utils/getBackground.ts:178-183 | a non-empty pool yields its element at the index `floor(r * n)`, an empty pool yields undefined |
| `Background.GetBackground` | React/Utils/getBackground.ts:152-195 | null exactly for the transparent themes, the custom string for CUSTOM, a pool element for LOCAL, and for the seasonal and category themes a URL whose tag and cache tag read back as the seasonal tag or the category name and the space-free date text |
| `Background.SeasonalUrlDependsOnTag` | React/Utils/getBackground.ts:167-174 | two moments give the same seasonal URL iff they have the same tag |
| `Bookmarks.Flatten` | React/Utils/getBookmarks.ts:8-22 | only files are returned |
| `Bookmarks.Opened` | React/Utils/getBookmarks.ts:12-17 | what one item contributes holds files only |
| `Bookmarks.FlattenSnoc` | React/Utils/getBookmarks.ts:11-19 | appending an item appends exactly that item's contribution |
| `Bookmarks.FlattenContents` | React/Utils/getBookmarks.ts:8-22 | a file is in the result iff it is reachable through groups; groups and other item kinds never appear |
| `Bookmarks.FlattenLength` | React/Utils/getBookmarks.ts:11-18 | the output length is the number of file leaves reachable through groups |
| `Bookmarks.FlattenAppend` | React/Utils/getBookmarks.ts:11-19 | flattening distributes over concatenation, so sibling order is kept |
| `Bookmarks.FlattenFiles` | React/Utils/getBookmarks.ts:12-13 | a list of files flattens to itself |
| `Bookmarks.FlattenBookmarks` | React/Utils/getBookmarks.ts:8-22 | the push/concat loop computes `Flatten` |
| `Bookmarks.ByGroupName` | React/Utils/getBookmarks.ts:29-48 | only files are returned |
| `Bookmarks.ByGroupNameFindsGroup` | React/Utils/getBookmarks.ts:29-48 | the result is empty or the flattened contents of some group, at any depth, with the title |
| `Bookmarks.NoSuchGroupGivesNothing` | React/Utils/getBookmarks.ts:29-48 | with no group of that title at any depth the result is empty |
| `Bookmarks.LastMatchingGroupWins` | React/Utils/getBookmarks.ts:35-37 | a later matching group replaces the result with its flattened contents, even when empty |
| `Bookmarks.LaterNestedMatchWinsIfNonEmpty` | React/Utils/getBookmarks.ts:38-43 | a later non-matching group replaces the result only with a non-empty search result of its own |
| `Bookmarks.GetBookmarksByGroupName` | React/Utils/getBookmarks.ts:29-48 | the loop computes `ByGroupName` |
| `Bookmarks.GroupPath` | React/Utils/getBookmarks.ts:85-87 | an empty parent path gives the title, otherwise parent + "/" + title |
| `Bookmarks.FlattenGroups` | React/Utils/getBookmarks.ts:80-96 | one entry per group node reachable through groups |
| `Bookmarks.GroupEntries` | React/Utils/getBookmarks.ts:83-92 | a group contributes its own `{ title, path }` entry first, followed by one entry per subgroup; other items contribute nothing |
| `Bookmarks.FlattenGroupsSnoc` | React/Utils/getBookmarks.ts:83-93 | appending an item appends exactly that item's entries |
| `Bookmarks.FlattenGroupsPaths` | React/Utils/getBookmarks.ts:80-96 | every path ends with its title; under a non-empty parent every path starts with parent + "/" |
| `Bookmarks.TopLevelGroup` | React/Utils/getBookmarks.ts:84-91 | a top-level group's path is its title, and its subgroups follow it under that path |
| `Bookmarks.FlattenBookmarkGroups` | React/Utils/getBookmarks.ts:80-96 | the push/concat loop computes `FlattenGroups` |
| `Bookmarks.SelectBookmarks` | React/Utils/getBookmarks.ts:62-66 | the selected list holds files only |
| `Bookmarks.GetBookmarks` | React/Utils/getBookmarks.ts:55-73 | one looked-up file per selected bookmark, in order, and with ALL one per file leaf |
| `Observables.Broadcast` | src/Utils/Observable.ts:16-19 | one call per subscriber, in subscription order, each with the new value |
| `Observables.KeepOnly` | src/Utils/Observable.ts:35-39 | the filter keeps only entries equal to the callback, and all of them |
| `Observables.KeepOnlyIsRepeat` | src/Utils/Observable.ts:35-39 | after unsubscribing, the list is the callback repeated once per time it subscribed |
| `Observables.KeepOnlyIdempotent` | src/Utils/Observable.ts:35-39 | unsubscribing a second time leaves the list unchanged |
| `Observables.Observable.constructor` | src/Utils/Observable.ts:5-10 | holds the given value and no subscribers |
| `Observables.Observable.SetValue` | src/Utils/Observable.ts:16-19 | stores the value, keeps the subscriber list, and calls each subscriber once, in order, with the value |
| `Observables.Observable.GetValue` | src/Utils/Observable.ts:24-26 | returns the stored value |
| `Observables.Observable.OnChange` | src/Utils/Observable.ts:32-33 | appends the callback, leaving the value unchanged |
| `Observables.Observable.Unsubscribe` | src/Utils/Observable.ts:35-39 | replaces the list by its entries equal to the callback, leaving the value unchanged |
| `Observables.TwoSubscribersThenUnsubscribe` | src/Utils/Observable.ts:8-39 | after subscribing 1 and 2, a change and unsubscribing 1, the value is the new one and only 1 remains subscribed |
| `Clock.DisplayHour` | React/Utils/getTime.ts:6-11 | for hours 0..23 the shown hour is in 1..12 and agrees with the hour mod 12 |
| `Clock.DecimalString` | React/Utils/getTime.ts:12-14 | `toString` of a natural number: digits only, one below 10, two below 100, no leading zero for a positive number |
| `Clock.DecimalRoundTrip` | React/Utils/getTime.ts:12-14 | the decimal text reads back as the number |
| `Clock.PadStart` | React/Utils/getTime.ts:12 | `padStart` keeps the text at the end and fills the front up to the length |
| `Clock.MinuteText` | React/Utils/getTime.ts:12 | digits reading back as the minute; below 100 exactly two, zero-padded exactly below 10 |
| `Clock.JoinAtColon` | React/Utils/getTime.ts:14 | joining two digit strings with ':' leaves the colon as the only non-digit and the first ':', and both sides split back out |
| `Clock.GetTime` | React/Utils/getTime.ts:4-15 | the text has exactly one colon, right after the hour's digits, two characters after it, and every other character is a digit |
| `Clock.GetTimeRoundTrip` | React/Utils/getTime.ts:4-15 | the text reads back as the displayed hour and the minute |
| `Clock.ClockExamples` | React/Utils/getTime.ts:6-14 | 00:05 shows "12:05", noon "12:00", 13:15 "1:15" |
| `Greeting.TimeOfDayGreeting` | React/Utils/getTimeOfDayGreeting.ts:5-15 | one of the three greetings |
| `Greeting.GreetingByHour` | React/Utils/getTimeOfDayGreeting.ts:8-14 | evening iff hour >= 18 or < 5, afternoon iff 12..17, morning iff 5..11 |
| `Capitalize.ToUpper` | src/Utils/capitalizeFirstLetter.ts:6 | the result is never a lower-case letter; lower-case letters move to upper case, all else is unchanged |
| `Capitalize.CapitalizeFirstLetter` | src/Utils/capitalizeFirstLetter.ts:5-6 | the length is kept, the first character is upper-cased, the rest is unchanged, and the result does not start with a lower-case letter |
| `Capitalize.CapitalizeChangesOnlyFirst` | src/Utils/capitalizeFirstLetter.ts:6 | the string is unchanged iff empty or not starting with a lower-case letter |
| `Capitalize.CapitalizeIdempotent` | src/Utils/capitalizeFirstLetter.ts:6 | capitalising twice is capitalising once |

## Left out

- Time zones and daylight-saving shifts: timestamps are local milliseconds, a day number times 86 400 000 plus the milliseconds since local midnight. The Easter window is therefore exactly five calendar days.
- `new Date()`, `Math.random()` and `toDateString()` are parameters: a `Moment`, a real `r` in [0, 1), and the date text. The seasonal branch of `getBackground` reads the clock twice. The moment and the date text are independent parameters, so the model also covers a call that spans midnight.
- Years before 1583: `EasterDate` and the seasonal tag require year >= 1583. From then on every operand is non-negative, so JavaScript's `%` and `Math.floor` agree with Dafny's. Earlier and negative years are not modelled.
- `days` in the day-window predicates is an integer. Fractional day counts are not modelled.
- `getBackground`'s `logDebug`/`console.log` output and `getBookmarksByGroupName`'s `console.log` calls: output only.
- The unsplash fetch itself: `getBackground` only builds the URL. No code shown reads or writes the `CachedBackground` record declared in src/Types/Interfaces.ts:13-17. The model therefore has no cache, freshness check or API key.
- `getBookmarks`: the host's bookmark list (`app.internalPlugins...items`) is the `items` parameter, and `vault.getAbstractFileByPath` is the uninterpreted parameter `lookup`. An undefined `app` is not modelled.
- `getBookmarkGroups` (React/Utils/getBookmarks.ts:102-107) only passes the host's list to `flattenBookmarkGroups`. The omitted `parentPath` argument (null) is the empty string, which the source also treats as falsy.
- Bookmark items of kinds other than file and group are `Other(kind)`, and their fields are not modelled. A file carries only its path.
- `Observable`: callbacks are integer handles compared by identity. Their effects are not modelled, including a callback that subscribes or unsubscribes while `setValue` is iterating. The shallow copy `{ ...value }` is the value itself. The closure `onChange` returns is the method `Unsubscribe(cb)`.
- `getTime`'s `timeFormat` argument (passed at React/Components/App/App.tsx:48 and :92) is not a parameter of `getTime`. The output is always 12-hour without AM/PM. Hour and minute are parameters in 0..23 and 0..59, the ranges `getHours`/`getMinutes` return.
- `Capitalize.ToUpper`: models `toUpperCase` on ASCII letters only. Unicode case mapping is not modelled, including mappings that change the length, such as "ß" to "SS".
- `Greeting.TimeOfDayGreeting`, `Clock.GetTime`: the current hour and minute are parameters.
- React rendering, the settings UI, persistence, modals, the quote fetch and the rest of main.ts and src/Settings/Settings.ts are not part of this model.
