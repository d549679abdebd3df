/** The day arithmetic of ECMAScript `Date` (section 21.4.1 of ECMA-262), at the
    granularity of whole days: day 0 is 1 January 1970, months are numbered 0..11 and
    week days 0..6 from Sunday. */
module EcmaDate {

  predicate IsLeapYear(y: int) {
    y % 4 == 0 && (y % 100 != 0 || y % 400 == 0)
  }

  function DaysInYear(y: int): int {
    if IsLeapYear(y) then 366 else 365
  }

  /** `DayFromYear(y)`: the day number of 1 January of year `y` (floors, as in ECMA-262). */
  function DayFromYear(y: int): int {
    365 * (y - 1970) + (y - 1969) / 4 - (y - 1901) / 100 + (y - 1601) / 400
  }

  /** The Gregorian month lengths. */
  function DaysInMonth(y: int, m: int): (d: int)
    requires 0 <= m <= 11
    ensures 28 <= d <= 31
    ensures m == 1 ==> (d == 29 <==> IsLeapYear(y))
  {
    if m == 1 then (if IsLeapYear(y) then 29 else 28)
    else if m == 3 || m == 5 || m == 8 || m == 10 then 30
    else 31
  }

  /** Days of year `y` before the first of month `m` (the table in `MonthFromTime`). */
  function DaysBeforeMonth(y: int, m: int): int
    requires 0 <= m <= 11
  {
    var leap := if IsLeapYear(y) then 1 else 0;
    if m == 0 then 0
    else if m == 1 then 31
    else if m == 2 then 59 + leap
    else if m == 3 then 90 + leap
    else if m == 4 then 120 + leap
    else if m == 5 then 151 + leap
    else if m == 6 then 181 + leap
    else if m == 7 then 212 + leap
    else if m == 8 then 243 + leap
    else if m == 9 then 273 + leap
    else if m == 10 then 304 + leap
    else 334 + leap
  }

  lemma MonthTable(y: int, m: int)
    requires 0 <= m <= 11
    ensures m < 11 ==> DaysBeforeMonth(y, m + 1) == DaysBeforeMonth(y, m) + DaysInMonth(y, m)
    ensures m == 11 ==> DaysBeforeMonth(y, m) + DaysInMonth(y, m) == DaysInYear(y)
  {
  }

  // Moving from year `y` to `y + 1` adds one to each floor term of `DayFromYear` exactly
  // when the term's divisor divides `y`.

  lemma FourStep(y: int)
    ensures (y - 1968) / 4 == (y - 1969) / 4 + (if y % 4 == 0 then 1 else 0)
  {
    var q, r := (y - 1969) / 4, (y - 1969) % 4;
    assert y - 1969 == 4 * q + r && 0 <= r < 4;
    assert y == 4 * (q + 492) + r + 1;
    if r == 3 {
      assert y - 1968 == 4 * (q + 1);
    } else {
      assert y - 1968 == 4 * q + r + 1;
    }
  }

  lemma HundredStep(y: int)
    ensures (y - 1900) / 100 == (y - 1901) / 100 + (if y % 100 == 0 then 1 else 0)
  {
    var q, r := (y - 1901) / 100, (y - 1901) % 100;
    assert y - 1901 == 100 * q + r && 0 <= r < 100;
    assert y == 100 * (q + 19) + r + 1;
    if r == 99 {
      assert y - 1900 == 100 * (q + 1);
    } else {
      assert y - 1900 == 100 * q + r + 1;
    }
  }

  lemma FourHundredStep(y: int)
    ensures (y - 1600) / 400 == (y - 1601) / 400 + (if y % 400 == 0 then 1 else 0)
  {
    var q, r := (y - 1601) / 400, (y - 1601) % 400;
    assert y - 1601 == 400 * q + r && 0 <= r < 400;
    assert y == 400 * (q + 4) + r + 1;
    if r == 399 {
      assert y - 1600 == 400 * (q + 1);
    } else {
      assert y - 1600 == 400 * q + r + 1;
    }
  }

  /** A multiple of `a * b` is a multiple of `b`. */
  lemma MultipleOfFactor(y: int, a: int, b: int)
    requires 0 < a && 0 < b && y % (a * b) == 0
    ensures y % b == 0
  {
    var k := y / (a * b);
    assert y == (a * b) * k;
    assert y == b * (a * k);
  }

  lemma DivisorsOfCenturies(y: int)
    ensures y % 400 == 0 ==> y % 100 == 0
    ensures y % 100 == 0 ==> y % 4 == 0
  {
    if y % 400 == 0 {
      MultipleOfFactor(y, 4, 100);
    }
    if y % 100 == 0 {
      MultipleOfFactor(y, 25, 4);
    }
  }

  /** A year contributes exactly its own length to the day count. */
  lemma DayFromYearStep(y: int)
    ensures DayFromYear(y + 1) == DayFromYear(y) + DaysInYear(y)
  {
    FourStep(y);
    HundredStep(y);
    FourHundredStep(y);
    DivisorsOfCenturies(y);
    var f := if y % 4 == 0 then 1 else 0;
    var h := if y % 100 == 0 then 1 else 0;
    var g := if y % 400 == 0 then 1 else 0;
    assert DaysInYear(y) == 365 + f - h + g;
  }

  /** Later years start later: year `a` ends no later than year `b` starts. */
  lemma {:induction false} DayFromYearMonotone(a: int, b: int)
    requires a < b
    ensures DayFromYear(a) + DaysInYear(a) <= DayFromYear(b)
    decreases b - a
  {
    DayFromYearStep(a);
    if a + 1 < b {
      DayFromYearMonotone(a + 1, b);
      DayFromYearStep(a + 1);
    }
  }

  /** Search upwards from year `y` for the year containing day `t`. */
  function YearSearchUp(t: int, y: int): (r: int)
    requires DayFromYear(y) <= t
    ensures DayFromYear(r) <= t < DayFromYear(r + 1)
    decreases t - DayFromYear(y)
  {
    DayFromYearStep(y);
    if t < DayFromYear(y + 1) then y else YearSearchUp(t, y + 1)
  }

  /** Search downwards from year `y` for the year containing day `t`. */
  function YearSearchDown(t: int, y: int): (r: int)
    requires t < DayFromYear(y + 1)
    ensures DayFromYear(r) <= t < DayFromYear(r + 1)
    decreases DayFromYear(y + 1) - t
  {
    DayFromYearStep(y);
    if DayFromYear(y) <= t then y else YearSearchDown(t, y - 1)
  }

  /** `YearFromTime`: the year whose days include day `t`. */
  function YearFromDay(t: int): (y: int)
    ensures DayFromYear(y) <= t < DayFromYear(y + 1)
  {
    if 0 <= t then YearSearchUp(t, 1970) else YearSearchDown(t, 1969)
  }

  /** A day lies in one year only, so `YearFromDay` is determined by the bracket. */
  lemma YearOfDayUnique(t: int, y: int)
    requires DayFromYear(y) <= t < DayFromYear(y + 1)
    ensures YearFromDay(t) == y
  {
    var z := YearFromDay(t);
    if z < y {
      DayFromYearMonotone(z, y);
      DayFromYearStep(z);
    } else if y < z {
      DayFromYearMonotone(y, z);
      DayFromYearStep(y);
    }
  }

  function DayWithinYear(t: int): (d: int)
    ensures 0 <= d < DaysInYear(YearFromDay(t))
  {
    var y := YearFromDay(t);
    DayFromYearStep(y);
    t - DayFromYear(y)
  }

  /** The month in which day `d` of year `y` falls. */
  function MonthOfDayInYear(y: int, d: int): (m: int)
    requires 0 <= d < DaysInYear(y)
    ensures 0 <= m <= 11
    ensures DaysBeforeMonth(y, m) <= d < DaysBeforeMonth(y, m) + DaysInMonth(y, m)
  {
    var leap := if IsLeapYear(y) then 1 else 0;
    if d < 31 then 0
    else if d < 59 + leap then 1
    else if d < 90 + leap then 2
    else if d < 120 + leap then 3
    else if d < 151 + leap then 4
    else if d < 181 + leap then 5
    else if d < 212 + leap then 6
    else if d < 243 + leap then 7
    else if d < 273 + leap then 8
    else if d < 304 + leap then 9
    else if d < 334 + leap then 10
    else 11
  }

  /** `MonthFromTime` (`getMonth`). */
  function MonthFromDay(t: int): (m: int)
    ensures 0 <= m <= 11
  {
    MonthOfDayInYear(YearFromDay(t), DayWithinYear(t))
  }

  /** `DateFromTime` (`getDate`): the day of the month, from 1. */
  function DateFromDay(t: int): (d: int)
    ensures 1 <= d <= DaysInMonth(YearFromDay(t), MonthFromDay(t))
  {
    DayWithinYear(t) - DaysBeforeMonth(YearFromDay(t), MonthFromDay(t)) + 1
  }

  /** `WeekDay` (`getDay`): 1 January 1970 was a Thursday. */
  function WeekDay(t: int): (w: int)
    ensures 0 <= w <= 6
  {
    (t + 4) % 7
  }

  /** `MakeDay(year, month, date)`: the month is first folded into the year, then the date
      counts on from the first of that month, so it may fall outside the month. */
  function MakeDay(year: int, month: int, date: int): int {
    var ym := year + month / 12;
    var mn := month % 12;
    DayFromYear(ym) + DaysBeforeMonth(ym, mn) + date - 1
  }

  /** The `Date` constructor's treatment of its year argument: 0..99 mean 1900..1999. */
  function MakeFullYear(y: int): (r: int)
    ensures 0 <= y <= 99 ==> r == 1900 + y
    ensures !(0 <= y <= 99) ==> r == y
  {
    if 0 <= y <= 99 then 1900 + y else y
  }

  /** `new Date(year, month, date)` as a day number (midnight, local time). */
  function NewDate(year: int, month: int, date: int): int {
    MakeDay(MakeFullYear(year), month, date)
  }

  /** For a month inside the year, `MakeDay` adds the days of the months before it. */
  lemma MakeDayInYear(y: int, m: int, date: int)
    requires 0 <= m <= 11
    ensures MakeDay(y, m, date) == DayFromYear(y) + DaysBeforeMonth(y, m) + date - 1
  {
    assert m / 12 == 0 && m % 12 == m;
  }

  /** Month 12 is January of the next year. */
  lemma MakeDayTwelve(y: int, date: int)
    ensures MakeDay(y, 12, date) == DayFromYear(y + 1) + date - 1
  {
    assert 12 / 12 == 1 && 12 % 12 == 0;
  }

  /** Day 0 of the following month is the last day of month `m`. */
  lemma LastOfMonth(y: int, m: int)
    requires 0 <= m <= 11
    ensures MakeDay(y, m + 1, 0) == DayFromYear(y) + DaysBeforeMonth(y, m) + DaysInMonth(y, m) - 1
  {
    MonthTable(y, m);
    if m < 11 {
      MakeDayInYear(y, m + 1, 0);
    } else {
      MakeDayTwelve(y, 0);
      DayFromYearStep(y);
    }
  }

  /** The date argument counts days one by one, whatever the month. */
  lemma MakeDayNextDate(y: int, m: int, date: int)
    ensures MakeDay(y, m, date + 1) == MakeDay(y, m, date) + 1
  {
  }

  /** Within a year, `MakeDay` counts on from the first of the month, and day 0 of the next
      month is the last day of this one. */
  lemma MakeDayWithinYear(y: int, m: int)
    requires 0 <= m <= 11
    ensures MakeDay(y, m, 1) == DayFromYear(y) + DaysBeforeMonth(y, m)
    ensures MakeDay(y, m + 1, 0) == MakeDay(y, m, 1) + DaysInMonth(y, m) - 1
    ensures MakeDay(y, m + 1, 1) == MakeDay(y, m + 1, 0) + 1
  {
    MakeDayInYear(y, m, 1);
    LastOfMonth(y, m);
    MakeDayNextDate(y, m + 1, 0);
  }

  /** The first of the month after `month` is as many days on as `month` is long. */
  lemma NextMonthStart(year: int, month: int)
    requires 0 <= month <= 11
    ensures NewDate(year, month + 1, 1) == NewDate(year, month, 1) + DaysInMonth(MakeFullYear(year), month)
  {
    MakeDayWithinYear(MakeFullYear(year), month);
  }

  /** The month table's brackets do not overlap, so a day of the year lies in one month. */
  lemma MonthOfDayUnique(y: int, m: int, d: int)
    requires 0 <= m <= 11
    requires DaysBeforeMonth(y, m) <= d < DaysBeforeMonth(y, m) + DaysInMonth(y, m)
    ensures 0 <= d < DaysInYear(y)
    ensures MonthOfDayInYear(y, d) == m
  {
    var leap := if IsLeapYear(y) then 1 else 0;
    assert DaysInYear(y) == 365 + leap;
  }

  /** A day inside month `m` of year `y` reads back as that year, month and date. */
  lemma DecomposeDay(y: int, m: int, date: int, t: int)
    requires 0 <= m <= 11 && 1 <= date <= DaysInMonth(y, m)
    requires t == DayFromYear(y) + DaysBeforeMonth(y, m) + date - 1
    ensures YearFromDay(t) == y && MonthFromDay(t) == m && DateFromDay(t) == date
  {
    var d := t - DayFromYear(y);
    MonthOfDayUnique(y, m, d);
    DayFromYearStep(y);
    YearOfDayUnique(t, y);
    assert DayWithinYear(t) == d;
  }

  /** Day 0 of the following month reads back as the last date of month `m`. */
  lemma LastDateOfMonth(y: int, m: int)
    requires 0 <= m <= 11
    ensures DateFromDay(MakeDay(y, m + 1, 0)) == DaysInMonth(y, m)
  {
    var date, t := DaysInMonth(y, m), MakeDay(y, m + 1, 0);
    LastOfMonth(y, m);
    DecomposeDay(y, m, date, t);
  }

  /** `new Date(y, m, d)` with `d` inside the month it lands in reads back as the fields
      `MakeDay` normalised to: year `MakeFullYear(y) + floor(m / 12)`, month `m mod 12`. */
  lemma NewDateFields(y: int, m: int, d: int)
    requires 1 <= d <= DaysInMonth(MakeFullYear(y) + m / 12, m % 12)
    ensures YearFromDay(NewDate(y, m, d)) == MakeFullYear(y) + m / 12
    ensures MonthFromDay(NewDate(y, m, d)) == m % 12
    ensures DateFromDay(NewDate(y, m, d)) == d
  {
    var ym, mn := MakeFullYear(y) + m / 12, m % 12;
    var t := NewDate(y, m, d);
    assert t == DayFromYear(ym) + DaysBeforeMonth(ym, mn) + d - 1;
    DecomposeDay(ym, mn, d, t);
  }

  /** `new Date(year, month)` read back through `getFullYear` and `getMonth`: the month is
      folded into the year, and a two-digit year means the 1900s. */
  function YearMonthOf(year: int, month: int): (r: (int, int))
    ensures r == (MakeFullYear(year) + month / 12, month % 12)
  {
    NewDateFields(year, month, 1);
    (YearFromDay(NewDate(year, month, 1)), MonthFromDay(NewDate(year, month, 1)))
  }

  /** Consecutive dates are consecutive day numbers, so the week day advances by one. */
  lemma NextDateWeekDay(y: int, m: int, d: int)
    ensures NewDate(y, m, d + 1) == NewDate(y, m, d) + 1
    ensures WeekDay(NewDate(y, m, d + 1)) == (WeekDay(NewDate(y, m, d)) + 1) % 7
  {
  }
}
