# krashen-tracker: a verified model of the watch-time player, the time log and the calendar

krashen-tracker is a small web application for logging how long its user watches
Spanish-language live news. Three pieces of its client code hold real logic, and this project
models each of them in Dafny and proves what they promise.

- **The player** (`src/Player.jsx`) is modelled as the class `Player.Session`, which holds:
  - the play and buffering flags;
  - the watch-time counter;
  - the handle of the one-second interval;
  - the selected channel.

  The embedded YouTube player's state events (1 playing, 2 paused, 3 buffering, anything
  else), the channel selector, the play/pause button, each firing of the interval, and
  unmounting are all explicit method calls. Each call states the session's whole new state.
  `formatTime` is modelled as a function, with the partner lemma that the `HH:MM:SS` text
  reads back as the original number of seconds.
- **`updateTimeLog`** (`src/timeUtils.js`) is imperative.
  - The `time_logs` table is a class `TimeLog.Store` holding a map from (email, date) to rows.
    Its select, update and insert requests can each fail.
  - The method `TimeLog.UpdateTimeLog` mirrors the source: the guard, the read, the update
    path, the insert path and the rethrown error.
  - Its contract states each path's result and requests. It also states that a failure leaves
    the table untouched, that only today's key can change, and that a success adds exactly
    the given seconds to today's total.
- **The calendar** (`src/Calendar.jsx`) gets its month lengths and week days from JavaScript
  `Date`.
  - These are modelled by `EcmaDate`, the day arithmetic of section 21.4.1 of ECMA-262:
    DayFromYear, YearFromTime, MonthFromTime, DateFromTime, WeekDay and MakeDay, plus the
    constructor's rule that years 0..99 mean 1900..1999.
  - `getDaysInMonth` is proved to give the Gregorian month lengths of the year the
    constructor makes of its argument (`MakeFullYear`: 1900 + y for y in 0..99).
  - `getFirstDayOfMonth` is proved to give 0..6. The lemma `Calendar.WeekDayAnchor` shows
    that the count starts from Sunday: 14 October 2026, a Wednesday, has week day 3.
  - The component state is a class `Calendar.CalendarView`: the current date as a day number,
    and the year field's text.
  - Month navigation, the month selector and the year field are methods, each tied to a
    function giving the (year, month) shown afterwards.
  - `renderCalendar`'s two loops are a method building the cell sequence. It is proved to give
    the leading blanks, the days in order, at most 37 cells, and weekend marks exactly in the
    first and last columns of a seven-wide grid.

Supporting modules:
- `Strings` models the one-character `split` and the template join.
- `Decimal` models `toString`, `padStart` and reading digits back.
- `Common` holds `Option` and `Result`.

Two facts about the code shape the model:
- `src/Player.jsx` and `src/timeUtils.js` contain no batching of watch time, no remainder
  flush and no change feed, and the player never calls `updateTimeLog`. The counter and the
  time log are therefore modelled separately.
- A failed write is rethrown to the caller (`src/timeUtils.js:30, 46, 50-53`), and the
  model's `Failed` outcome returns it in the same way.

## Model

| member | source | states |
|---|---|---|
| Player.FindChannel | src/Player.jsx:95-97 | `find` by video id: a result is a listed channel with that id and no earlier channel has it; there is no result exactly when no channel has the id |
| Player.ChannelIdsDistinct | src/Player.jsx:3-28 | the six listed video ids are pairwise distinct, so the selector value identifies one channel |
| Player.TimeParts | src/Player.jsx:138-141 | minutes and seconds are below 60 and hours*3600 + minutes*60 + seconds is the input |
| Player.FormatTimeRoundTrip | src/Player.jsx:138-145 | the display is three `:`-separated fields of at least two digits each, and reading it back gives the original seconds |
| Player.FormatTimeLength | src/Player.jsx:142-144 | the display is exactly eight characters, with `:` at positions 2 and 5, if and only if the seconds are below 360000 |
| Player.FormatTime | src/Player.jsx:138-145 | `formatTime`: the three parts of `TimeParts`, each written by `Pad2`, joined with `:`; FormatTimeRoundTrip proves the text reads back as the seconds, and FormatTimeLength that it is `HH:MM:SS` exactly below 100 hours |
| Player.Pad2 | src/Player.jsx:142-144 | `n.toString().padStart(2, "0")`; Pad2Facts proves it is at least two digits, has no `:`, denotes n, and is exactly two characters iff n < 100 |
| Player.Pad2Facts | src/Player.jsx:142-144 | a padded part is at least two digits without `:`, reads back as n, and is exactly two characters iff n < 100 |
| Player.SwitchedTo | src/Player.jsx:98-106 | after a channel switch the channel is the new one, buffering is shown, no interval runs, and the counter and play flag are kept |
| Player.Session.AtMostOneTimer | src/Player.jsx:109-124 | at most one interval is registered; the constructor, Create, StartTimer, StopTimer, Tick, OnPlayerStateChange, HandleChannelChange and TogglePlayPause all ensure it together with `Valid`, which pins the registered set to the held handle, and Unmount leaves no interval at all |
| Player.Session.constructor | src/Player.jsx:31-35 | the session starts not playing, not buffering, at 0 seconds, with no interval and the first channel selected |
| Player.Session.Create | src/Player.jsx:55-72 | the player is created on the selected channel; nothing else changes |
| Player.Session.StartTimer | src/Player.jsx:109-117 | any running interval is cleared before a new one is registered; afterwards exactly the new interval runs and its handle is kept |
| Player.Session.StopTimer | src/Player.jsx:119-124 | the running interval is cleared and its handle forgotten; with no interval nothing changes, so stopping twice is stopping once |
| Player.Session.Tick | src/Player.jsx:113-115 | a tick of a registered interval adds exactly 1 to the counter and changes nothing else |
| Player.Session.OnPlayerStateChange | src/Player.jsx:74-92 | code 1 clears buffering, starts the timer and sets playing; code 2 clears buffering, stops the timer and clears playing; code 3 sets buffering and stops the timer; any other code only clears buffering |
| Player.Session.HandleChannelChange | src/Player.jsx:94-107 | selects the channel whose id was chosen, shows buffering, stops the timer, asks an existing player to load it, and keeps the counter |
| Player.Session.TogglePlayPause | src/Player.jsx:126-136 | no player: no change; not playing: only a play request; playing: a pause request, the timer stopped and playing cleared |
| Player.Session.Unmount | src/Player.jsx:38-45 | unmounting clears the running interval |
| Strings.SplitOn | src/timeUtils.js:6 | `split` on one character gives at least one piece and no piece contains the separator |
| Strings.JoinWith | src/Player.jsx:142-144 | the template literal `${a}:${b}:${c}`: the pieces in order with the separator between them; JoinSplit and SplitJoin prove it inverse to `SplitOn` |
| Strings.JoinSplit | src/timeUtils.js:6 | joining the pieces of a split with the separator gives back the string |
| Strings.FirstPiece | src/timeUtils.js:6 | the first piece is a prefix without the separator that ends at the end of the string or at a separator |
| Decimal.DecimalDigits | src/Player.jsx:142-144 | `toString` of a non-negative integer: at least one character, all digits, no leading zero; DecimalRoundTrip proves it denotes the number |
| Decimal.DecimalValue | src/Calendar.jsx:62 | `parseInt` on a run of digits: the number they denote in base 10, most significant first; DecimalRoundTrip and ZeroPadValue pin it to `toString` and `padStart` |
| Decimal.DecimalRoundTrip | src/Player.jsx:142-144 | reading back the digits `toString` writes gives the number |
| Decimal.PadStart | src/Player.jsx:142-144 | `padStart` reaches the width, keeps the text as a suffix and fills only in front |
| Decimal.ZeroPadValue | src/Player.jsx:142-144 | padding digits with `0` keeps them digits and keeps their value |
| Decimal.IntToString | src/Calendar.jsx:37 | `toString` of an integer is digits exactly when the integer is not negative; those digits denote the integer, and a negative integer gives `-` followed by the digits of its absolute value |
| TimeLog.DatePart | src/timeUtils.js:6 | the date key is a prefix of the timestamp, contains no `T`, and stops at the end or at the first `T` |
| TimeLog.DatePartOfTimestamp | src/timeUtils.js:6 | the date key of `date` + `T` + time is `date` |
| TimeLog.Store.constructor | src/timeUtils.js:11-12 | the `time_logs` table as it stands before a call: the given rows, and no requests made yet |
| TimeLog.Store.SelectRow | src/timeUtils.js:11-16 | the read returns the row for the key, `NotFound` when there is none, or a failure |
| TimeLog.Store.UpdateRow | src/timeUtils.js:20-28 | a successful update writes the new total and timestamp to that key only; a failed one changes no row |
| TimeLog.Store.InsertRow | src/timeUtils.js:35-44 | a successful insert adds a row with the given total; a failure or a key already present changes no row |
| TimeLog.UpdateTimeLog | src/timeUtils.js:3-54 | blank email or non-positive seconds: no request and no change; a row read is updated to total + seconds; a failed or empty read inserts seconds; a failed write is returned and leaves the table unchanged; success adds exactly the seconds to today's total; other keys keep their totals |
| TimeLog.TwoCallsAccumulate | src/timeUtils.js:18-42 | 15 seconds and then 10 seconds on one day leave a total of 25 for that day |
| EcmaDate.DaysInMonth | src/Calendar.jsx:26-28 | month lengths are 28 to 31, and February has 29 days exactly in leap years |
| EcmaDate.DayFromYearStep | src/Calendar.jsx:26-28 | consecutive years start one year length apart |
| EcmaDate.DayFromYearMonotone | src/Calendar.jsx:26-28 | an earlier year ends no later than a later year starts |
| EcmaDate.YearFromDay | src/Calendar.jsx:36 | `getFullYear` gives the year whose days include the given day |
| EcmaDate.YearOfDayUnique | src/Calendar.jsx:36 | a day belongs to one year only |
| EcmaDate.MonthOfDayUnique | src/Calendar.jsx:36 | a day of the year belongs to one month only, and `getMonth` gives it |
| EcmaDate.DecomposeDay | src/Calendar.jsx:26-28 | a day inside month m of year y reads back as year y, month m and its date |
| EcmaDate.MakeDayWithinYear | src/Calendar.jsx:26-28 | `new Date(y, m, 1)` starts the month; day 0 of the next month is its last day |
| EcmaDate.LastDateOfMonth | src/Calendar.jsx:26-28 | day 0 of the following month reads back as the month's length |
| EcmaDate.NewDateFields | src/Calendar.jsx:36 | `new Date(y, m, d)` with d inside the month reads back as year `MakeFullYear(y) + floor(m / 12)`, month `m mod 12` and date d |
| EcmaDate.YearMonthOf | src/Calendar.jsx:36 | `new Date(y, m)` read back folds the month into the year, and takes a two-digit year as 1900s |
| EcmaDate.MakeFullYear | src/Calendar.jsx:36 | the `Date` constructor's year argument: 0..99 mean 1900..1999, any other year is itself |
| EcmaDate.MakeDay | src/Calendar.jsx:27 | MakeDay of ECMA-262: the month is folded into the year, then the date counts on from the first of that month; MakeDayWithinYear and LastDateOfMonth prove day 0 is the previous month's last day |
| EcmaDate.NewDate | src/Calendar.jsx:31 | `new Date(y, m, d)` as a day number: MakeDay of MakeFullYear(y); NewDateFields proves it reads back as year MakeFullYear(y) + floor(m / 12), month m mod 12 and date d |
| EcmaDate.MonthFromDay | src/Calendar.jsx:36 | `getMonth`: in 0..11; MonthOfDayUnique and DecomposeDay prove it is the month whose days hold the day |
| EcmaDate.DateFromDay | src/Calendar.jsx:27 | `getDate`: between 1 and the month's length; DecomposeDay proves it is the date within the month |
| EcmaDate.WeekDay | src/Calendar.jsx:30-32 | `getDay` is in 0..6 |
| EcmaDate.NextDateWeekDay | src/Calendar.jsx:85-91 | consecutive dates are consecutive days, so the week day advances by one |
| Calendar.IndexOf | src/Calendar.jsx:52 | `indexOf` is -1 exactly for absent names, otherwise the first position holding the name |
| Calendar.GetDaysInMonth | src/Calendar.jsx:26-28 | `getDaysInMonth`: the date of day 0 of the following month; GetDaysInMonthIsLength and GetDaysInMonthGregorian prove it is the month's Gregorian length in MakeFullYear(year) |
| Calendar.GetDaysInMonthIsLength | src/Calendar.jsx:26-28 | `getDaysInMonth` is the length of the month in the year the constructor uses |
| Calendar.GetDaysInMonthGregorian | src/Calendar.jsx:26-28 | February has 29 days exactly in leap years, otherwise 28; April, June, September and November have 30; the rest have 31 |
| Calendar.GetFirstDayOfMonth | src/Calendar.jsx:30-32 | the first week day is in 0..6 |
| Calendar.WeekDayAnchor | src/Calendar.jsx:30-32 | `getDay` counts from Sunday: 14 October 2026, a Wednesday, gives 3 |
| Calendar.FirstDayOfFollowingMonth | src/Calendar.jsx:26-32 | the next month begins `getDaysInMonth` days after this one, so its first week day is (first + length) mod 7 |
| Calendar.WeekDayShift | src/Calendar.jsx:85-91 | moving n days on moves the week day n places round the week |
| Calendar.WeekDayOfDate | src/Calendar.jsx:85-91 | the week day of date d is (first week day + d - 1) mod 7 |
| Calendar.NextMonthOf | src/Calendar.jsx:42-48 | with Y the year the constructor makes of it (1900 + y for y in 0..99, y itself otherwise): next from December is January of Y + 1; otherwise the month advances within Y, so from December 99 forward one month is January 2000 and from November 99 it is December 1999 |
| Calendar.PrevMonthOf | src/Calendar.jsx:34-40 | with Y the year the constructor makes of it (1900 + y for y in 0..99, y itself otherwise): back from January is December of Y - 1; otherwise the month goes back within Y |
| Calendar.NextThenPrev | src/Calendar.jsx:34-48 | forward then back returns to the same year and month |
| Calendar.PrevThenNext | src/Calendar.jsx:34-48 | back then forward returns to the same year and month |
| Calendar.TwoDigitYearJump | src/Calendar.jsx:34-48 | near year 100 the constructor's 1900s rule makes navigation jump: back from January 100 is December 99, and forward from there is January 2000; likewise forward from December -1 is January 0, and back from there is December 1899 |
| Calendar.MonthSelected | src/Calendar.jsx:50-54 | with Y the year the constructor makes of it (1900 + y for y in 0..99, y itself otherwise): a listed month name selects its position in Y; any other value gives December of Y - 1; so `March` selected in year 99 gives March 1999 |
| Calendar.MonthNamesSelectThemselves | src/Calendar.jsx:9-22 | each of the twelve names selects its own month, in the year the constructor makes of it (1900 + y for y in 0..99, y itself otherwise) |
| Calendar.IsYearText | src/Calendar.jsx:61 | the year field's acceptance test, as four decimal digits; YearEntered and HandleYearChange prove the date moves exactly for such text |
| Calendar.YearEntered | src/Calendar.jsx:56-64 | four-digit text moves to the year the constructor makes of its value (the value itself from 100 on, so `"0099"` gives 1999) and keeps the month; other text changes nothing |
| Calendar.IsWeekend | src/Calendar.jsx:86-91 | `getDay()` of day d is 0 or 6; WeekendColumns proves it holds exactly for the grid's first and last columns |
| Calendar.RenderCalendar | src/Calendar.jsx:66-106 | first-week-day blanks, then one cell per day 1..length in order with its weekend mark, at most 37 cells, and a day cell is a weekend cell exactly in the first or last column |
| Calendar.LayOutCells | src/Calendar.jsx:75-103 | the two loops give `first` blanks followed by the cells of days 1..length |
| Calendar.CalendarFits | src/Calendar.jsx:75-105 | blanks plus days never exceed 37 |
| Calendar.WeekendColumns | src/Calendar.jsx:85-91 | laid out seven to a row, a day is marked weekend exactly when its column is Sunday's or Saturday's |
| Calendar.CalendarView.constructor | src/Calendar.jsx:4-7 | opens on the given day with its year as the year field's text |
| Calendar.CalendarView.HandlePrevMonth | src/Calendar.jsx:34-40 | the date becomes the first of the previous month, and the year field shows the new year |
| Calendar.CalendarView.HandleNextMonth | src/Calendar.jsx:42-48 | the date becomes the first of the next month, and the year field shows the new year |
| Calendar.CalendarView.HandleMonthChange | src/Calendar.jsx:50-54 | with Y the year the constructor makes of the current year (1900 + y for y in 0..99, y itself otherwise): a listed name moves the date to the first of that month in Y; any other value (index -1) moves it to December of Y - 1; the year field is unchanged |
| Calendar.CalendarView.HandleYearChange | src/Calendar.jsx:56-64 | the text is always stored; the date moves to that year, keeping the month, only for four-digit text |

## Left out

- The YouTube iframe API (`src/Player.jsx:47-72`) is left out: script injection and building the player are outside the model. The state codes are method arguments, and play, pause and load are recorded requests.
- Real timers are left out: `setInterval` is a registry of handles, and each firing is a call to `Tick`.
- React's stale closures are left out. The handlers installed once at `src/Player.jsx:55-64` see the first render's state. That includes the interval handle. It also includes `selectedChannel`: the `onYouTubeIframeAPIReady` closure (`src/Player.jsx:55-57`) therefore always creates the real player on the first listed channel. The model reads the current fields at call time instead, which is what the functions are written to do, so `Player.Session.Create` uses the currently selected channel.
- Player.Session.Unmount: the session is discarded afterwards, so its contract does not restore `Valid()`.
- TimeLog.UpdateTimeLog: `seconds` is an integer. `NaN` and `undefined` pass the source's `seconds <= 0` guard (`src/timeUtils.js:4`); they then write a `NaN` total, sent as `null` (line 23), or insert a row whose total is undefined (line 41). Positive fractions pass too and write a fractional total; negative fractions are stopped by the guard. These are left out, because JavaScript number coercion is outside the model.
- Player.TimeParts: seconds are natural numbers. Negative, fractional and `NaN` counts are left out, because JavaScript floating point is outside the model.
- The hosted table's query language (`.eq`, `.single()`, `.select()`) is a map with three operations that can fail. Network failures are the `Faults` argument.
- TimeLog.Store.InsertRow: inserting an existing key fails with `Conflict`. This assumes the table enforces one row per (email, date), which the source does not show.
- Concurrent calls to `updateTimeLog` from several tabs, and the lost updates they can cause, are left out: the model is one sequential call.
- The clock is left out: `new Date().toISOString()` is the `now` parameter (UTC), and the written `last_updated` is `stamp`.
- Console logging is left out (`src/timeUtils.js:7, 31, 47, 51`).
- Flush batching, remainder flushes and change-feed reconciliation are not in the source code, so they are not modelled.
- EcmaDate: time is counted in whole days from 1 January 1970 in local time. Hours, time zones, daylight saving and the ±100,000,000-day limit of TimeClip are left out.
- Calendar.IsYearText: the year field's check (`value.length === 4 && !isNaN(value)`) is narrowed to four ASCII digits. Texts that `isNaN` also accepts, such as `"1e10"`, `"-123"` or four spaces, are left out.
- Calendar.YearEntered: text is read with `DecimalValue`. `parseInt` agrees with it on four-digit text.
- Calendar.NextThenPrev: proved only for years outside -1..99, because the constructor reads 0..99 as 1900..1999. Forward from December -1 is January 0, and back from there is December 1899. Forward from December 99 is January 2000. Calendar.TwoDigitYearJump shows both jumps.
- Calendar.PrevThenNext: proved only for years outside 0..100, for the same reason: back from January 100 is December 99, and forward from there is January 2000.
- JSX rendering and CSS classes are left out: a day cell is `Day(day, weekend)`, and the weekday header row is not modelled.
