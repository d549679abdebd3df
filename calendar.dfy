/** The month calendar: month lengths and first week days from `Date`, month navigation,
    the month selector and the year field, and the grid of day cells. */
module Calendar {
  import opened Decimal
  import opened EcmaDate

  const Months: seq<string> := [
    "January", "February", "March", "April", "May", "June", "July",
    "August", "September", "October", "November", "December"
  ]

  /** `list.indexOf(name)`: the first position of `name`, or -1. */
  function IndexOf(list: seq<string>, name: string): (i: int)
    ensures -1 <= i < |list|
    ensures i == -1 <==> name !in list
    ensures 0 <= i ==> list[i] == name && forall j | 0 <= j < i :: list[j] != name
    decreases |list|
  {
    if list == [] then -1
    else if list[0] == name then 0
    else
      var i := IndexOf(list[1..], name);
      assert forall j | 1 <= j < |list| :: list[j] == list[1..][j - 1];
      if i == -1 then -1 else i + 1
  }

  /** `getDaysInMonth`: the date of day 0 of the following month, that is, the last day
      of `month`. */
  function GetDaysInMonth(year: int, month: int): int {
    DateFromDay(NewDate(year, month + 1, 0))
  }

  /** `getFirstDayOfMonth`: the week day of the first, 0 for Sunday. */
  function GetFirstDayOfMonth(year: int, month: int): (w: int)
    ensures 0 <= w <= 6
  {
    WeekDay(NewDate(year, month, 1))
  }

  /** `getDaysInMonth` gives the length of the month in the year the `Date` constructor uses
      (`MakeFullYear`). */
  lemma GetDaysInMonthIsLength(year: int, month: int)
    requires 0 <= month <= 11
    ensures GetDaysInMonth(year, month) == DaysInMonth(MakeFullYear(year), month)
  {
    LastDateOfMonth(MakeFullYear(year), month);
  }

  /** The month lengths are the Gregorian ones: February has 29 days exactly in leap years. */
  lemma GetDaysInMonthGregorian(year: int, month: int)
    requires 0 <= month <= 11
    ensures month == 1 ==> (GetDaysInMonth(year, month) == 29 <==> IsLeapYear(MakeFullYear(year)))
    ensures month == 1 ==> 28 <= GetDaysInMonth(year, month) <= 29
    ensures month in {3, 5, 8, 10} ==> GetDaysInMonth(year, month) == 30
    ensures month in {0, 2, 4, 6, 7, 9, 11} ==> GetDaysInMonth(year, month) == 31
  {
    GetDaysInMonthIsLength(year, month);
  }

  /** Months tile the week: the next month starts `GetDaysInMonth` days after this one. */
  lemma FirstDayOfFollowingMonth(year: int, month: int)
    requires 0 <= month <= 11
    ensures WeekDay(NewDate(year, month + 1, 1))
            == (GetFirstDayOfMonth(year, month) + GetDaysInMonth(year, month)) % 7
  {
    var first, length := NewDate(year, month, 1), GetDaysInMonth(year, month);
    GetDaysInMonthIsLength(year, month);
    NextMonthStart(year, month);
    var next := NewDate(year, month + 1, 1);
    assert next == first + length;
    WeekDayShift(first, length);
    assert WeekDay(next) == (WeekDay(first) + length) % 7;
    assert GetFirstDayOfMonth(year, month) == WeekDay(first);
  }

  /** Moving `n` days on moves the week day `n` places round the week. */
  lemma WeekDayShift(t: int, n: int)
    ensures WeekDay(t + n) == (WeekDay(t) + n) % 7
  {
    ModAdd(t + 4, n);
    assert t + n + 4 == t + 4 + n;
  }

  lemma ModAdd(a: int, b: int)
    ensures (a % 7 + b) % 7 == (a + b) % 7
  {
    var q := a / 7;
    assert a == 7 * q + a % 7;
    assert a + b == 7 * q + (a % 7 + b);
  }

  /** Day `d` of a month falls on the week day `d - 1` places after the first. */
  lemma WeekDayOfDate(year: int, month: int, d: int)
    ensures WeekDay(NewDate(year, month, d)) == (GetFirstDayOfMonth(year, month) + d - 1) % 7
  {
    assert NewDate(year, month, d) == NewDate(year, month, 1) + (d - 1);
    WeekDayShift(NewDate(year, month, 1), d - 1);
  }

  /** Week days count from Sunday: 14 October 2026, a Wednesday, has week day 3. */
  lemma WeekDayAnchor()
    ensures WeekDay(NewDate(2026, 9, 14)) == 3
  {
    assert MakeFullYear(2026) == 2026;
    assert DayFromYear(2026) == 20454;
    assert !IsLeapYear(2026) && DaysBeforeMonth(2026, 9) == 273;
    assert NewDate(2026, 9, 14) == 20740;
  }

  // ----- navigation -----

  /** The (year, month) shown after `handleNextMonth`: `new Date(year, month + 1)`. */
  function NextMonthOf(year: int, month: int): (r: (int, int))
    requires 0 <= month <= 11
    ensures r == if month == 11 then (MakeFullYear(year) + 1, 0) else (MakeFullYear(year), month + 1)
  {
    assert (month + 1) / 12 == (if month == 11 then 1 else 0);
    assert (month + 1) % 12 == (if month == 11 then 0 else month + 1);
    YearMonthOf(year, month + 1)
  }

  /** The (year, month) shown after `handlePrevMonth`: `new Date(year, month - 1)`. */
  function PrevMonthOf(year: int, month: int): (r: (int, int))
    requires 0 <= month <= 11
    ensures r == if month == 0 then (MakeFullYear(year) - 1, 11) else (MakeFullYear(year), month - 1)
  {
    assert (month - 1) / 12 == (if month == 0 then -1 else 0);
    assert (month - 1) % 12 == (if month == 0 then 11 else month - 1);
    YearMonthOf(year, month - 1)
  }

  /** Forward then back returns to the same month, for years the constructor takes as given. */
  lemma NextThenPrev(year: int, month: int)
    requires 0 <= month <= 11
    requires year < -1 || 99 < year
    ensures var (y, m) := NextMonthOf(year, month); PrevMonthOf(y, m) == (year, month)
  {
    assert MakeFullYear(year) == year;
    if month == 11 {
      assert NextMonthOf(year, month) == (year + 1, 0);
      assert MakeFullYear(year + 1) == year + 1;
      assert PrevMonthOf(year + 1, 0) == (year, 11);
    } else {
      assert NextMonthOf(year, month) == (year, month + 1);
      assert PrevMonthOf(year, month + 1) == (year, month);
    }
  }

  /** Back then forward returns to the same month, for years the constructor takes as given. */
  lemma PrevThenNext(year: int, month: int)
    requires 0 <= month <= 11
    requires year < 0 || 100 < year
    ensures var (y, m) := PrevMonthOf(year, month); NextMonthOf(y, m) == (year, month)
  {
    assert MakeFullYear(year) == year;
    if month == 0 {
      assert PrevMonthOf(year, month) == (year - 1, 11);
      assert MakeFullYear(year - 1) == year - 1;
      assert NextMonthOf(year - 1, 11) == (year, 0);
    } else {
      assert PrevMonthOf(year, month) == (year, month - 1);
      assert NextMonthOf(year, month - 1) == (year, month);
    }
  }

  /** Near year 100 the round trip breaks: back from January 100 shows December 99, and
      forward from there the constructor reads 99 as 1999 and shows January 2000. */
  lemma TwoDigitYearJump()
    ensures PrevMonthOf(100, 0) == (99, 11)
    ensures NextMonthOf(99, 11) == (2000, 0)
    ensures NextMonthOf(-1, 11) == (0, 0) && PrevMonthOf(0, 0) == (1899, 11)
  {
  }

  /** The (year, month) shown after choosing `name` in the month selector. A listed name
      keeps the year and selects its position; anything else is `indexOf`'s -1, which
      `Date` turns into December of the year before (`IndexOf` is -1 exactly for names
      not in the list). */
  function MonthSelected(year: int, name: string): (r: (int, int))
    ensures IndexOf(Months, name) >= 0 ==> r == (MakeFullYear(year), IndexOf(Months, name))
    ensures IndexOf(Months, name) == -1 ==> r == (MakeFullYear(year) - 1, 11)
  {
    MonthAt(year, IndexOf(Months, name))
  }

  /** `new Date(year, i)` for an `indexOf` result `i`. */
  function MonthAt(year: int, i: int): (r: (int, int))
    requires -1 <= i < 12
    ensures i >= 0 ==> r == (MakeFullYear(year), i)
    ensures i == -1 ==> r == (MakeFullYear(year) - 1, 11)
  {
    assert i >= 0 ==> i / 12 == 0 && i % 12 == i;
    assert i == -1 ==> i / 12 == -1 && i % 12 == 11;
    YearMonthOf(year, i)
  }

  lemma MonthNamesDistinct()
    ensures forall j, l | 0 <= j < l < |Months| :: Months[j] != Months[l]
  {
  }

  /** Each month name selects its own month and keeps the year. */
  lemma MonthNamesSelectThemselves(year: int, k: int)
    requires 0 <= k < 12
    ensures MonthSelected(year, Months[k]) == (MakeFullYear(year), k)
  {
    MonthNamesDistinct();
    var i := IndexOf(Months, Months[k]);
    assert i == k;
  }

  /** The year text the field accepts: four characters, all decimal digits. */
  predicate IsYearText(s: string) {
    |s| == 4 && IsDigits(s)
  }

  /** The (year, month) shown after typing `text` in the year field. Accepted text moves to
      that year (through `MakeFullYear`) keeping the month; other text changes nothing. */
  function YearEntered(year: int, month: int, text: string): (r: (int, int))
    requires 0 <= month <= 11
    ensures IsYearText(text) ==> r == (MakeFullYear(DecimalValue(text)), month)
    ensures IsYearText(text) && DecimalValue(text) >= 100 ==> r == (DecimalValue(text), month)
    ensures !IsYearText(text) ==> r == (year, month)
  {
    assert month / 12 == 0 && month % 12 == month;
    if IsYearText(text) then YearMonthOf(DecimalValue(text), month) else (year, month)
  }

  // ----- the grid -----

  datatype Cell = Blank | Day(day: int, weekend: bool)

  /** Whether day `d` of the month is on a Saturday or a Sunday (`getDay` is 6 or 0). */
  predicate IsWeekend(year: int, month: int, d: int) {
    WeekDay(NewDate(year, month, d)) == 0 || WeekDay(NewDate(year, month, d)) == 6
  }

  /** `renderCalendar`: blank cells up to the first week day, then a cell for each day of the
      month in order, marked when it is a weekend day. Laid out seven to a row, the weekend
      cells are exactly those in the first and last columns. */
  method RenderCalendar(year: int, month: int) returns (days: seq<Cell>)
    requires 0 <= month <= 11
    ensures |days| == GetFirstDayOfMonth(year, month) + GetDaysInMonth(year, month) <= 37
    ensures forall i | 0 <= i < GetFirstDayOfMonth(year, month) :: days[i] == Blank
    ensures forall d | 1 <= d <= GetDaysInMonth(year, month) ::
              days[GetFirstDayOfMonth(year, month) + d - 1] == Day(d, IsWeekend(year, month, d))
    ensures forall i | GetFirstDayOfMonth(year, month) <= i < |days| ::
              days[i].Day? && (days[i].weekend <==> i % 7 == 0 || i % 7 == 6)
  {
    var daysInMonth := GetDaysInMonth(year, month);
    var firstDayOfMonth := GetFirstDayOfMonth(year, month);
    days := LayOutCells(year, month, firstDayOfMonth, daysInMonth);
    CalendarFits(year, month);
    WeekendColumns(year, month, days);
  }

  /** The two loops of `renderCalendar`: `first` blank cells, then the cells of days
      `1..length`, each marked by the week day `Date` gives it. */
  method LayOutCells(year: int, month: int, first: int, length: int) returns (days: seq<Cell>)
    requires 0 <= first && 0 <= length
    ensures |days| == first + length
    ensures forall i | 0 <= i < first :: days[i] == Blank
    ensures forall d | 1 <= d <= length :: days[first + d - 1] == Day(d, IsWeekend(year, month, d))
  {
    days := [];
    var i := 0;
    while i < first
      invariant 0 <= i <= first
      invariant |days| == i
      invariant forall j | 0 <= j < i :: days[j] == Blank
    {
      days := days + [Blank];
      i := i + 1;
    }
    var day := 1;
    while day <= length
      invariant 1 <= day <= length + 1
      invariant |days| == first + day - 1
      invariant forall j | 0 <= j < first :: days[j] == Blank
      invariant forall d | 1 <= d < day :: days[first + d - 1] == Day(d, IsWeekend(year, month, d))
    {
      var date := NewDate(year, month, day);
      var isWeekend := WeekDay(date) == 0 || WeekDay(date) == 6;
      days := days + [Day(day, isWeekend)];
      day := day + 1;
    }
  }

  /** At most six blanks and 31 days: the grid never needs more than 37 cells. */
  lemma CalendarFits(year: int, month: int)
    requires 0 <= month <= 11
    ensures GetFirstDayOfMonth(year, month) + GetDaysInMonth(year, month) <= 37
  {
    GetDaysInMonthIsLength(year, month);
  }

  /** Laid out seven to a row from the first week day on, a day cell is a weekend cell exactly
      when it is in the first (Sunday) or the last (Saturday) column. */
  lemma WeekendColumns(year: int, month: int, days: seq<Cell>)
    requires |days| == GetFirstDayOfMonth(year, month) + GetDaysInMonth(year, month)
    requires forall d | 1 <= d <= GetDaysInMonth(year, month) ::
               days[GetFirstDayOfMonth(year, month) + d - 1] == Day(d, IsWeekend(year, month, d))
    ensures forall i | GetFirstDayOfMonth(year, month) <= i < |days| ::
              days[i].Day? && (days[i].weekend <==> i % 7 == 0 || i % 7 == 6)
  {
    var first := GetFirstDayOfMonth(year, month);
    forall i | first <= i < |days|
      ensures days[i].Day? && (days[i].weekend <==> i % 7 == 0 || i % 7 == 6)
    {
      var d := i - first + 1;
      assert days[i] == Day(d, IsWeekend(year, month, d));
      WeekDayOfDate(year, month, d);
    }
  }

  // ----- the component state -----

  class CalendarView {
    /** `currentDate` as a day number; only its year and month are ever read. */
    var currentDate: int
    /** The text of the year field. */
    var yearInput: string

    function Year(): int
      reads this
    {
      YearFromDay(currentDate)
    }

    function Month(): int
      reads this
      ensures 0 <= Month() <= 11
    {
      MonthFromDay(currentDate)
    }

    /** Opens on day `today` with its year in the year field. */
    constructor (today: int)
      ensures currentDate == today
      ensures yearInput == IntToString(YearFromDay(today))
    {
      currentDate := today;
      yearInput := IntToString(YearFromDay(today));
    }

    method HandlePrevMonth()
      modifies this
      ensures currentDate == NewDate(old(Year()), old(Month()) - 1, 1)
      ensures (Year(), Month()) == PrevMonthOf(old(Year()), old(Month()))
      ensures yearInput == IntToString(Year())
    {
      var y, m := Year(), Month();
      ghost var next := PrevMonthOf(y, m);
      currentDate := NewDate(y, m - 1, 1);
      assert (Year(), Month()) == YearMonthOf(y, m - 1) == next;
      yearInput := IntToString(Year());
    }

    method HandleNextMonth()
      modifies this
      ensures currentDate == NewDate(old(Year()), old(Month()) + 1, 1)
      ensures (Year(), Month()) == NextMonthOf(old(Year()), old(Month()))
      ensures yearInput == IntToString(Year())
    {
      var y, m := Year(), Month();
      ghost var next := NextMonthOf(y, m);
      currentDate := NewDate(y, m + 1, 1);
      assert (Year(), Month()) == YearMonthOf(y, m + 1) == next;
      yearInput := IntToString(Year());
    }

    /** The month selector; the year field is left as it was. */
    method HandleMonthChange(name: string)
      modifies this
      ensures currentDate == NewDate(old(Year()), IndexOf(Months, name), 1)
      ensures (Year(), Month()) == MonthSelected(old(Year()), name)
      ensures yearInput == old(yearInput)
    {
      ghost var fields := YearMonthOf(Year(), IndexOf(Months, name));
      currentDate := NewDate(Year(), IndexOf(Months, name), 1);
    }

    /** The year field: the text is always kept; the date moves only for accepted text. */
    method HandleYearChange(value: string)
      modifies this
      ensures yearInput == value
      ensures IsYearText(value) ==> currentDate == NewDate(DecimalValue(value), old(Month()), 1)
      ensures !IsYearText(value) ==> currentDate == old(currentDate)
      ensures (Year(), Month()) == YearEntered(old(Year()), old(Month()), value)
    {
      yearInput := value;
      if IsYearText(value) {
        ghost var fields := YearMonthOf(DecimalValue(value), Month());
        currentDate := NewDate(DecimalValue(value), Month(), 1);
      }
    }
  }
}
