/**
 * The booking calendar: month navigation, the length of a month, the
 * Monday-first grid of a month (weekday headers, blank cells, one cell per
 * day) and the `YYYY-MM-DD` keys under which days are fetched and looked up.
 *
 * Dates follow JavaScript's `Date`: the proleptic Gregorian calendar, month
 * indexes 0 to 11, out-of-range months and days rolled over into the
 * neighbouring months and years, and two-digit years read as 19xx.
 */
module Calendar {
  import opened Wrappers
  import WorkingCalendar

  // ---------------------------------------------------------------- navigation

  /** The month being shown: a year and a month index (0 = January). */
  datatype ViewingMonth = ViewingMonth(year: int, month: int)

  /** goToNextMonth: December rolls over to January of the next year. */
  function NextMonth(v: ViewingMonth): (r: ViewingMonth)
    ensures 0 <= v.month < 12 ==> 0 <= r.month < 12
    ensures v.month == 11 ==> r == ViewingMonth(v.year + 1, 0)
    ensures v.month != 11 ==> r == ViewingMonth(v.year, v.month + 1)
  {
    if v.month == 11 then ViewingMonth(v.year + 1, 0) else ViewingMonth(v.year, v.month + 1)
  }

  /** goToPrevMonth: January rolls back to December of the previous year. */
  function PrevMonth(v: ViewingMonth): (r: ViewingMonth)
    ensures 0 <= v.month < 12 ==> 0 <= r.month < 12
    ensures v.month == 0 ==> r == ViewingMonth(v.year - 1, 11)
    ensures v.month != 0 ==> r == ViewingMonth(v.year, v.month - 1)
  {
    if v.month == 0 then ViewingMonth(v.year - 1, 11) else ViewingMonth(v.year, v.month - 1)
  }

  /** A month counted from January of year 0; both moves shift it by exactly one. */
  function MonthsSinceEpoch(v: ViewingMonth): int
  {
    12 * v.year + v.month
  }

  lemma NavigationStepsOneMonth(v: ViewingMonth)
    requires 0 <= v.month < 12
    ensures MonthsSinceEpoch(NextMonth(v)) == MonthsSinceEpoch(v) + 1
    ensures MonthsSinceEpoch(PrevMonth(v)) == MonthsSinceEpoch(v) - 1
  {
  }

  /** Going forward then back, or back then forward, returns to the month shown. */
  lemma NavigationRoundTrip(v: ViewingMonth)
    requires 0 <= v.month < 12
    ensures PrevMonth(NextMonth(v)) == v
    ensures NextMonth(PrevMonth(v)) == v
  {
  }

  // ------------------------------------------------------------ month lengths

  predicate IsLeapYear(y: int)
  {
    y % 4 == 0 && (y % 100 != 0 || y % 400 == 0)
  }

  /** The Gregorian length of month index `m` of year `y`. */
  function DaysInMonth(y: int, m: int): (n: int)
    requires 0 <= m < 12
    ensures 28 <= n <= 31
    ensures m == 1 ==> (n == 29 <==> IsLeapYear(y)) && (n == 28 <==> !IsLeapYear(y))
    ensures m != 1 ==> (n == 30 <==> m == 3 || m == 5 || m == 8 || m == 10)
  {
    if m == 1 then (if IsLeapYear(y) then 29 else 28)
    else if m == 3 || m == 5 || m == 8 || m == 10 then 30
    else 31
  }

  function DaysInYear(y: int): int
  {
    if IsLeapYear(y) then 366 else 365
  }

  /** Days of year `y` before the first of month `m`, from the cumulative month table. */
  function DaysBeforeMonth(y: int, m: int): (n: int)
    requires 0 <= m <= 12
    ensures 0 <= n
  {
    [0, 31, 59, 90, 120, 151, 181, 212, 243, 273, 304, 334, 365][m] + (if m >= 2 && IsLeapYear(y) then 1 else 0)
  }

  /** The cumulative table agrees with the month lengths, and a year's months add up to the year. */
  lemma DaysBeforeMonthStep(y: int, m: int)
    requires 0 <= m < 12
    ensures DaysBeforeMonth(y, m + 1) == DaysBeforeMonth(y, m) + DaysInMonth(y, m)
  {
  }

  lemma MonthsFillTheYear(y: int)
    ensures DaysBeforeMonth(y, 12) == DaysInYear(y)
  {
  }

  /** Days from 0001-01-01 to January 1 of year `y` (negative before year 1). */
  function DaysBeforeYear(y: int): int
  {
    365 * (y - 1) + (y - 1) / 4 - (y - 1) / 100 + (y - 1) / 400
  }

  /** Each leap-rule quotient grows by one exactly at a multiple of its divisor. */
  lemma QuarterStep(y: int)
    ensures y / 4 - (y - 1) / 4 == if y % 4 == 0 then 1 else 0
  {
  }

  lemma CenturyStep(y: int)
    ensures y / 100 - (y - 1) / 100 == if y % 100 == 0 then 1 else 0
  {
  }

  lemma QuadCenturyStep(y: int)
    ensures y / 400 - (y - 1) / 400 == if y % 400 == 0 then 1 else 0
  {
  }

  lemma DaysBeforeYearStep(y: int)
    ensures DaysBeforeYear(y + 1) == DaysBeforeYear(y) + DaysInYear(y)
  {
    QuarterStep(y);
    CenturyStep(y);
    QuadCenturyStep(y);
  }

  lemma {:induction false} DaysBeforeYearIncreasing(a: int, b: int)
    requires a < b
    ensures DaysBeforeYear(a + 1) <= DaysBeforeYear(b)
    decreases b - a
  {
    if a + 1 < b {
      DaysBeforeYearIncreasing(a + 1, b);
      DaysBeforeYearStep(a + 1);
    }
  }

  // ---------------------------------------------------------------- day numbers

  /** The year `new Date(y, ...)` means: 0 to 99 stand for 1900 to 1999. */
  function FullYear(y: int): (r: int)
    ensures 0 <= y <= 99 ==> r == 1900 + y
    ensures !(0 <= y <= 99) ==> r == y
  {
    if 0 <= y <= 99 then 1900 + y else y
  }

  /** Days from 0001-01-01 to day `d` of month `m` of year `y`; a `d` outside the month counts on into its neighbours. */
  function DayNumber(y: int, m: int, d: int): int
    requires 0 <= m < 12
  {
    DaysBeforeYear(y) + DaysBeforeMonth(y, m) + d - 1
  }

  /** A day that exists: a month index 0 to 11 and a day within that month's length. */
  predicate IsValidDate(y: int, m: int, d: int)
  {
    0 <= m < 12 && 1 <= d <= DaysInMonth(y, m)
  }

  /** `new Date(y, monthIndex, day)` as a day number: the month index rolls over into the year. */
  function MakeDay(y: int, monthIndex: int, day: int): (n: int)
    ensures 0 <= monthIndex < 12 ==> n == DayNumber(FullYear(y), monthIndex, day)
  {
    DayNumber(FullYear(y) + monthIndex / 12, monthIndex % 12, day)
  }

  lemma DayWithinYear(y: int, m: int, d: int)
    requires IsValidDate(y, m, d)
    ensures DaysBeforeYear(y) + DaysBeforeMonth(y, m) <= DayNumber(y, m, d) < DaysBeforeYear(y) + DaysBeforeMonth(y, m + 1)
    ensures DayNumber(y, m, d) < DaysBeforeYear(y + 1)
  {
    DaysBeforeMonthStep(y, m);
    DaysBeforeYearStep(y);
  }

  /** Distinct days have distinct day numbers, so a day number names one date. */
  lemma DayNumberInjective(y1: int, m1: int, d1: int, y2: int, m2: int, d2: int)
    requires IsValidDate(y1, m1, d1) && IsValidDate(y2, m2, d2)
    requires DayNumber(y1, m1, d1) == DayNumber(y2, m2, d2)
    ensures y1 == y2 && m1 == m2 && d1 == d2
  {
    DayWithinYear(y1, m1, d1);
    DayWithinYear(y2, m2, d2);
    if y1 < y2 {
      DaysBeforeYearIncreasing(y1, y2);
    } else if y2 < y1 {
      DaysBeforeYearIncreasing(y2, y1);
    }
  }

  /**
   * getDaysInMonth: `new Date(y, m + 1, 0)` is the last day of month `m`,
   * December's rolling over into the next year, so its `getDate()` is the
   * month's length.
   */
  function GetDaysInMonth(y: int, m: int): (n: int)
    requires 0 <= m < 12
    ensures IsValidDate(FullYear(y), m, n)
    ensures MakeDay(y, m + 1, 0) == DayNumber(FullYear(y), m, n)
    ensures IsValidDate(FullYear(y), m, n + 1) == false
  {
    DayZeroIsMonthEnd(y, m);
    DaysInMonth(FullYear(y), m)
  }

  /** Day 0 of the following month is the last day of month `m`. */
  lemma DayZeroIsMonthEnd(y: int, m: int)
    requires 0 <= m < 12
    ensures MakeDay(y, m + 1, 0) == DayNumber(FullYear(y), m, DaysInMonth(FullYear(y), m))
  {
    var fy := FullYear(y);
    DaysBeforeMonthStep(fy, m);
    if m == 11 {
      assert (m + 1) / 12 == 1 && (m + 1) % 12 == 0;
      DaysBeforeYearStep(fy);
      MonthsFillTheYear(fy);
    } else {
      assert (m + 1) / 12 == 0 && (m + 1) % 12 == m + 1;
    }
  }

  // ---------------------------------------------------------------- weekdays

  /** `getDay()`: 0 = Sunday to 6 = Saturday; day number 0, 0001-01-01, was a Monday. */
  function Weekday(n: int): (w: int)
    ensures 0 <= w < 7
  {
    (n + 1) % 7
  }

  /** The column of a weekday in a week that starts on Monday. */
  function MondayFirst(w: int): int
  {
    (w + 6) % 7
  }

  /** firstDayOfMonth: the weekday of the first of the month shown. */
  function FirstDayOfMonth(v: ViewingMonth): (w: int)
    requires 0 <= v.month < 12
    ensures 0 <= w < 7
  {
    Weekday(MakeDay(v.year, v.month, 1))
  }

  /** mondayIndex: how many blank cells precede the first of the month in a Monday-first grid. */
  function MondayIndex(firstDay: int): (r: int)
    requires 0 <= firstDay < 7
    ensures 0 <= r < 7
    ensures r == MondayFirst(firstDay)
  {
    if firstDay == 0 then 6 else firstDay - 1
  }

  /** Reducing a summand modulo 7 first does not change the sum modulo 7. */
  lemma ModSevenAdd(x: int, y: int)
    ensures (x % 7 + y) % 7 == (x + y) % 7
  {
    var q := x / 7;
    assert x == 7 * q + x % 7;
    var z := x % 7 + y;
    assert x + y == z + 7 * q;
    assert (z + 7 * q) % 7 == z % 7;
  }

  /** Counting `d - 1` columns on from the column of day number `n1` reaches the column of day number `n1 + d - 1`. */
  lemma ColumnShift(n1: int, d: int)
    ensures (MondayFirst(Weekday(n1)) + d - 1) % 7 == MondayFirst(Weekday(n1 + d - 1))
  {
    calc {
      (MondayFirst(Weekday(n1)) + d - 1) % 7;
      (((n1 + 1) % 7 + 6) % 7 + (d - 1)) % 7;
      { ModSevenAdd((n1 + 1) % 7 + 6, d - 1); }
      ((n1 + 1) % 7 + (6 + d - 1)) % 7;
      { ModSevenAdd(n1 + 1, 6 + d - 1); }
      (n1 + 1 + 6 + d - 1) % 7;
      { ModSevenAdd(n1 + d, 6); }
      ((n1 + d) % 7 + 6) % 7;
    }
  }

  /** Within a month, day `d` is `d - 1` days after the first. */
  lemma MakeDayShift(y: int, m: int, d: int)
    requires 0 <= m < 12
    ensures MakeDay(y, m, d) == MakeDay(y, m, 1) + d - 1
  {
  }

  /** Day `d`, placed after the blank cells, lands in the column of its own weekday. */
  lemma DayColumn(v: ViewingMonth, d: int)
    requires 0 <= v.month < 12
    ensures (MondayIndex(FirstDayOfMonth(v)) + d - 1) % 7 == MondayFirst(Weekday(MakeDay(v.year, v.month, d)))
  {
    var n1 := MakeDay(v.year, v.month, 1);
    MakeDayShift(v.year, v.month, d);
    ColumnShift(n1, d);
  }

  /** The grid position of day `d`, after seven headers and the blanks, is in the column of its weekday. */
  lemma GridColumn(v: ViewingMonth, k: int, d: int)
    requires 0 <= v.month < 12
    requires k == 6 + MondayIndex(FirstDayOfMonth(v)) + d
    ensures k % 7 == MondayFirst(Weekday(MakeDay(v.year, v.month, d)))
  {
    var x := MondayIndex(FirstDayOfMonth(v)) + d - 1;
    DayColumn(v, d);
    ModSevenAdd(7, x);
    assert k == x + 7;
  }

  /** The calendar's weekday of a day is the back end's DayOfWeek of any instant on that day. */
  lemma WeekdayAgreesWithBackEnd(n: nat, minute: nat)
    requires minute < WorkingCalendar.MinutesPerDay
    ensures Weekday(n) == WorkingCalendar.DayOfWeek(WorkingCalendar.At(n, minute))
  {
  }

  /** The grid's last two columns hold exactly the days the back end treats as closed weekend days. */
  lemma WeekendColumns(n: nat, minute: nat)
    requires minute < WorkingCalendar.MinutesPerDay
    ensures MondayFirst(Weekday(n)) >= 5 <==> WorkingCalendar.IsWeekend(WorkingCalendar.At(n, minute))
  {
    WeekdayAgreesWithBackEnd(n, minute);
  }

  /** From year 1 on, a day of a shown month has a back-end day number. */
  lemma DayNumberNonNegative(y: int, m: int, d: int)
    requires FullYear(y) >= 1 && 0 <= m < 12 && d >= 1
    ensures MakeDay(y, m, d) >= 0
  {
  }

  // ---------------------------------------------------------------- date keys

  function DigitChar(n: int): char
    requires 0 <= n < 10
  {
    (48 + n) as char
  }

  function DigitValue(c: char): int
  {
    c as int - 48
  }

  predicate IsDigit(c: char)
  {
    '0' <= c <= '9'
  }

  /** A number's decimal text, as a template literal writes it. */
  function NatToString(n: nat): (s: string)
    ensures |s| >= 1
    ensures forall i :: 0 <= i < |s| ==> IsDigit(s[i])
  {
    if n < 10 then [DigitChar(n)] else NatToString(n / 10) + [DigitChar(n % 10)]
  }

  function IntToString(i: int): string
  {
    if i < 0 then "-" + NatToString(-i) else NatToString(i)
  }

  /** padZero, read as text: one-digit numbers get a leading zero; below 100 the result is the tens and units digits. */
  function PadZero(n: nat): (s: string)
    ensures n < 100 ==> s == [DigitChar(n / 10), DigitChar(n % 10)]
  {
    if n < 10 then "0" + NatToString(n)
    else
      assert n < 100 ==> NatToString(n / 10) == [DigitChar(n / 10)];
      NatToString(n)
  }

  function ParseTwoDigits(s: string): int
    requires |s| == 2
  {
    10 * DigitValue(s[0]) + DigitValue(s[1])
  }

  /** Reading a padded number back gives the number: months 1 to 12 and days 1 to 31 are written unambiguously. */
  lemma PadZeroRoundTrip(n: nat)
    requires n < 100
    ensures |PadZero(n)| == 2 && ParseTwoDigits(PadZero(n)) == n
  {
  }

  /** The `YYYY-MM-DD` key of a day, month numbered from 1. */
  function DateKey(year: int, month: nat, day: nat): string
  {
    IntToString(year) + "-" + PadZero(month) + "-" + PadZero(day)
  }

  /** Within one year, distinct months or days give distinct keys. */
  lemma DateKeyInjective(year: int, m1: nat, d1: nat, m2: nat, d2: nat)
    requires m1 < 100 && d1 < 100 && m2 < 100 && d2 < 100
    requires DateKey(year, m1, d1) == DateKey(year, m2, d2)
    ensures m1 == m2 && d1 == d2
  {
    var p := IntToString(year) + "-";
    var k1 := DateKey(year, m1, d1);
    var k2 := DateKey(year, m2, d2);
    assert k1 == p + PadZero(m1) + "-" + PadZero(d1);
    assert k2 == p + PadZero(m2) + "-" + PadZero(d2);
    assert k1[|p|..|p| + 2] == PadZero(m1) && k2[|p|..|p| + 2] == PadZero(m2);
    assert k1[|p| + 3..] == PadZero(d1) && k2[|p| + 3..] == PadZero(d2);
    PadZeroRoundTrip(m1);
    PadZeroRoundTrip(m2);
    PadZeroRoundTrip(d1);
    PadZeroRoundTrip(d2);
  }

  /** The key a day of the shown month is fetched and looked up under. */
  function DayKey(v: ViewingMonth, day: nat): string
    requires 0 <= v.month < 12
  {
    DateKey(v.year, v.month + 1, day)
  }

  // ---------------------------------------------------------------- available dates

  /** The days 1 to `n` satisfying `p`, in day order. */
  function DaysWhere(p: nat -> bool, n: nat): (r: seq<nat>)
    ensures forall i :: 0 <= i < |r| ==> 1 <= r[i] <= n
    ensures forall i, j :: 0 <= i < j < |r| ==> r[i] < r[j]
  {
    if n == 0 then [] else DaysWhere(p, n - 1) + (if p(n) then [n] else [])
  }

  lemma {:induction false} DaysWhereMembers(p: nat -> bool, n: nat, d: nat)
    ensures d in DaysWhere(p, n) <==> 1 <= d <= n && p(d)
  {
    if n > 0 {
      DaysWhereMembers(p, n - 1, d);
    }
  }

  /** Whether the fetch for a day of the shown month answered with at least one doctor. */
  function HasDoctors(v: ViewingMonth, responseLength: string -> nat): nat -> bool
    requires 0 <= v.month < 12
  {
    (d: nat) => responseLength(DayKey(v, d)) > 0
  }

  /** The days 1 to `n` of the shown month whose fetch answered with at least one doctor, in day order. */
  function AvailableDays(v: ViewingMonth, responseLength: string -> nat, n: nat): (r: seq<nat>)
    requires 0 <= v.month < 12
    ensures forall i :: 0 <= i < |r| ==> 1 <= r[i] <= n
    ensures forall i, j :: 0 <= i < j < |r| ==> r[i] < r[j]
  {
    DaysWhere(HasDoctors(v, responseLength), n)
  }

  /** A day is kept exactly when it is in range and its answer was non-empty. */
  lemma AvailableDaysMembers(v: ViewingMonth, responseLength: string -> nat, n: nat, d: nat)
    requires 0 <= v.month < 12
    ensures d in AvailableDays(v, responseLength, n) <==> 1 <= d <= n && responseLength(DayKey(v, d)) > 0
  {
    DaysWhereMembers(HasDoctors(v, responseLength), n, d);
    assert HasDoctors(v, responseLength)(d) == (responseLength(DayKey(v, d)) > 0);
  }

  /** `f` applied to each of `days`, in the same order. */
  function Apply(f: nat -> string, days: seq<nat>): (r: seq<string>)
    ensures |r| == |days|
    ensures forall i :: 0 <= i < |days| ==> r[i] == f(days[i])
  {
    if |days| == 0 then [] else Apply(f, days[..|days| - 1]) + [f(days[|days| - 1])]
  }

  /** `DayKey` for the shown month, as a function of the day. */
  function KeyOf(v: ViewingMonth): nat -> string
    requires 0 <= v.month < 12
  {
    (d: nat) => DayKey(v, d)
  }

  /** The keys of the given days of the shown month, in the same order. */
  function Keys(v: ViewingMonth, days: seq<nat>): (r: seq<string>)
    requires 0 <= v.month < 12
    ensures |r| == |days|
    ensures forall i :: 0 <= i < |days| ==> r[i] == DayKey(v, days[i])
  {
    Apply(KeyOf(v), days)
  }

  /** A day's key is among the keys of some days exactly when the day is among them. */
  lemma KeysMembership(v: ViewingMonth, days: seq<nat>, d: nat)
    requires 0 <= v.month < 12
    requires d < 100 && forall i :: 0 <= i < |days| ==> days[i] < 100
    ensures DayKey(v, d) in Keys(v, days) <==> d in days
  {
    var keys := Keys(v, days);
    if DayKey(v, d) in keys {
      var i :| 0 <= i < |keys| && keys[i] == DayKey(v, d);
      DateKeyInjective(v.year, v.month + 1, d, v.month + 1, days[i]);
    }
    if d in days {
      var i :| 0 <= i < |days| && days[i] == d;
      assert keys[i] == DayKey(v, d);
    }
  }

  /** One more day either adds its key at the end or leaves the keys as they were. */
  lemma KeysStep(v: ViewingMonth, responseLength: string -> nat, n: nat)
    requires 0 <= v.month < 12 && n >= 1
    ensures Keys(v, AvailableDays(v, responseLength, n)) ==
      Keys(v, AvailableDays(v, responseLength, n - 1)) + (if responseLength(DayKey(v, n)) > 0 then [DayKey(v, n)] else [])
  {
    var before := AvailableDays(v, responseLength, n - 1);
    var after := AvailableDays(v, responseLength, n);
    if HasDoctors(v, responseLength)(n) {
      assert after == before + [n];
      assert after[..|after| - 1] == before;
      assert Apply(KeyOf(v), after) == Apply(KeyOf(v), before) + [KeyOf(v)(n)];
    } else {
      assert after == before;
    }
  }

  /** Within a month, a day's key is among the available keys exactly when that day's answer was non-empty. */
  lemma AvailableKeysMembership(v: ViewingMonth, responseLength: string -> nat, n: nat)
    requires 0 <= v.month < 12 && n < 100
    ensures forall d :: 1 <= d <= n ==>
      (DayKey(v, d) in Keys(v, AvailableDays(v, responseLength, n)) <==> responseLength(DayKey(v, d)) > 0)
  {
    forall d | 1 <= d <= n
      ensures DayKey(v, d) in Keys(v, AvailableDays(v, responseLength, n)) <==> responseLength(DayKey(v, d)) > 0
    {
      KeysMembership(v, AvailableDays(v, responseLength, n), d);
      AvailableDaysMembers(v, responseLength, n, d);
    }
  }

  /**
   * The available-dates loop: fetch each day of the shown month under its key
   * and keep the keys whose answer is non-empty. The lookup the grid makes with
   * the same key therefore finds a day exactly when its answer was non-empty.
   */
  method FetchAvailableAppointmentDates(v: ViewingMonth, responseLength: string -> nat) returns (availableDates: seq<string>)
    requires 0 <= v.month < 12
    ensures availableDates == Keys(v, AvailableDays(v, responseLength, GetDaysInMonth(v.year, v.month)))
    ensures forall d :: 1 <= d <= GetDaysInMonth(v.year, v.month) ==>
      (DayKey(v, d) in availableDates <==> responseLength(DayKey(v, d)) > 0)
  {
    var daysInMonth := GetDaysInMonth(v.year, v.month);
    availableDates := [];
    for day := 1 to daysInMonth + 1
      invariant availableDates == Keys(v, AvailableDays(v, responseLength, day - 1))
    {
      var date := DayKey(v, day);
      KeysStep(v, responseLength, day);
      if responseLength(date) > 0 {
        availableDates := availableDates + [date];
      }
    }
    AvailableKeysMembership(v, responseLength, daysInMonth);
  }

  // ---------------------------------------------------------------- the grid

  const DayNames: seq<string> := ["Monday", "Tuesday", "Wednesday", "Thursday", "Friday", "Saturday", "Sunday"]

  /** The day the user picked: a year, a month index and a day. */
  datatype SelectedDate = SelectedDate(year: int, month: int, day: int)

  /** One cell of the grid: a weekday header, a blank before the first, or a day (bookable or locked, marked when selected). */
  datatype Cell = DayName(text: string) | Blank | DayCell(day: int, available: bool, selected: bool)

  predicate IsSelected(selectedDate: Option<SelectedDate>, v: ViewingMonth, day: int)
  {
    selectedDate.Some? && selectedDate.value.year == v.year && selectedDate.value.month == v.month && selectedDate.value.day == day
  }

  /**
   * The cell-building part of generateDays, given the month's length and the
   * number of blank cells: seven two-letter weekday headers, the blanks, then
   * one cell per day, bookable when its key is among the available dates.
   * `dayKey` is the key the component builds for a day of the month shown
   * (`DayKey(v, _)` when called from `GenerateDays`). `currentWeekday` is
   * advanced as in the source but never read.
   */
  method FillGrid(v: ViewingMonth, dayKey: nat -> string, daysInMonth: int, mondayIndex: int, availableDates: seq<string>, selectedDate: Option<SelectedDate>)
    returns (daysContent: seq<Cell>)
    requires 0 <= v.month < 12 && 0 <= mondayIndex < 7 && daysInMonth >= 0
    ensures |daysContent| == 7 + mondayIndex + daysInMonth
    ensures forall i :: 0 <= i < 7 ==> daysContent[i] == DayName(DayNames[i][..2])
    ensures forall i :: 7 <= i < 7 + mondayIndex ==> daysContent[i] == Blank
    ensures forall d :: 1 <= d <= daysInMonth ==>
      daysContent[6 + mondayIndex + d] == DayCell(d, dayKey(d) in availableDates, IsSelected(selectedDate, v, d))
    ensures forall k :: 7 + mondayIndex <= k < |daysContent| ==> daysContent[k].DayCell? && daysContent[k].day == k - 6 - mondayIndex
  {
    daysContent := [];
    for i := 0 to 7
      invariant |daysContent| == i
      invariant forall j :: 0 <= j < i ==> daysContent[j] == DayName(DayNames[j][..2])
    {
      daysContent := daysContent + [DayName(DayNames[i][..2])];
    }
    if mondayIndex != 0 {
      var i := 1;
      while i <= mondayIndex && i < 7
        invariant 1 <= i <= mondayIndex + 1
        invariant |daysContent| == 6 + i
        invariant forall j :: 0 <= j < 7 ==> daysContent[j] == DayName(DayNames[j][..2])
        invariant forall j :: 7 <= j < 6 + i ==> daysContent[j] == Blank
      {
        daysContent := daysContent + [Blank];
        i := i + 1;
      }
    }
    ghost var prefix := daysContent;
    var currentWeekday := mondayIndex;
    for i := 1 to daysInMonth + 1
      invariant |daysContent| == 6 + mondayIndex + i
      invariant daysContent[..7 + mondayIndex] == prefix
      invariant forall d :: 1 <= d < i ==>
        daysContent[6 + mondayIndex + d] == DayCell(d, dayKey(d) in availableDates, IsSelected(selectedDate, v, d))
    {
      var isAvailable := dayKey(i) in availableDates;
      var isSelectedDate := selectedDate.Some? && selectedDate.value.year == v.year
        && selectedDate.value.month == v.month && selectedDate.value.day == i;
      ghost var before := daysContent;
      daysContent := daysContent + [DayCell(i, isAvailable, isSelectedDate)];
      assert forall j :: 0 <= j < |before| ==> daysContent[j] == before[j];
      currentWeekday := (currentWeekday + 1) % 7;
    }
    forall j | 0 <= j < 7 + mondayIndex ensures daysContent[j] == prefix[j] {
      assert daysContent[..7 + mondayIndex][j] == daysContent[j];
    }
    forall k | 7 + mondayIndex <= k < |daysContent|
      ensures daysContent[k].DayCell? && daysContent[k].day == k - 6 - mondayIndex
    {
      var d := k - 6 - mondayIndex;
      assert daysContent[6 + mondayIndex + d] == DayCell(d, dayKey(d) in availableDates, IsSelected(selectedDate, v, d));
    }
  }

  /**
   * The grid `cells` holds, after the headers and `mondayIndex` blanks, one
   * cell for each of the `n` days of month `v`, flagged available when its
   * key is listed and selected when it is the selected date.
   */
  ghost predicate ListsDays(cells: seq<Cell>, v: ViewingMonth, n: int, mondayIndex: int,
                            availableDates: seq<string>, selectedDate: Option<SelectedDate>)
    requires 0 <= v.month < 12
  {
    forall d :: 1 <= d <= n ==>
      (0 <= 6 + mondayIndex + d < |cells| &&
       cells[6 + mondayIndex + d] == DayCell(d, DayKey(v, d) in availableDates, IsSelected(selectedDate, v, d)))
  }

  /** Cells built with any function that agrees with `DayKey` are the cells built with `DayKey`. */
  lemma KeyedCells(cells: seq<Cell>, v: ViewingMonth, dayKey: nat -> string, n: int, mondayIndex: int,
                   availableDates: seq<string>, selectedDate: Option<SelectedDate>)
    requires 0 <= v.month < 12 && 0 <= mondayIndex
    requires forall d: nat :: dayKey(d) == DayKey(v, d)
    requires |cells| == 7 + mondayIndex + n
    requires forall d :: 1 <= d <= n ==>
      cells[6 + mondayIndex + d] == DayCell(d, dayKey(d) in availableDates, IsSelected(selectedDate, v, d))
    ensures ListsDays(cells, v, n, mondayIndex, availableDates, selectedDate)
  {
    forall d | 1 <= d <= n
      ensures cells[6 + mondayIndex + d] == DayCell(d, DayKey(v, d) in availableDates, IsSelected(selectedDate, v, d))
    {
      assert dayKey(d) == DayKey(v, d);
    }
  }

  /** Every day cell after the headers and blanks of month `v` lies in the column of its weekday. */
  lemma CellColumns(cells: seq<Cell>, v: ViewingMonth)
    requires 0 <= v.month < 12
    requires forall k :: 7 + MondayIndex(FirstDayOfMonth(v)) <= k < |cells| ==>
      cells[k].DayCell? && cells[k].day == k - 6 - MondayIndex(FirstDayOfMonth(v))
    ensures forall k :: 7 + MondayIndex(FirstDayOfMonth(v)) <= k < |cells| ==>
      cells[k].DayCell? && k % 7 == MondayFirst(Weekday(MakeDay(v.year, v.month, cells[k].day)))
  {
    var mondayIndex := MondayIndex(FirstDayOfMonth(v));
    forall k | 7 + mondayIndex <= k < |cells|
      ensures cells[k].DayCell? && k % 7 == MondayFirst(Weekday(MakeDay(v.year, v.month, cells[k].day)))
    {
      GridColumn(v, k, k - 6 - mondayIndex);
    }
  }

  /**
   * generateDays: the month's length and the weekday of its first fix the
   * number of blanks; every day cell then lands in the column of its weekday.
   */
  method GenerateDays(v: ViewingMonth, availableDates: seq<string>, selectedDate: Option<SelectedDate>) returns (daysContent: seq<Cell>)
    requires 0 <= v.month < 12
    ensures |daysContent| == 7 + MondayIndex(FirstDayOfMonth(v)) + GetDaysInMonth(v.year, v.month)
    ensures forall i :: 0 <= i < 7 ==> daysContent[i] == DayName(DayNames[i][..2])
    ensures forall i :: 7 <= i < 7 + MondayIndex(FirstDayOfMonth(v)) ==> daysContent[i] == Blank
    ensures ListsDays(daysContent, v, GetDaysInMonth(v.year, v.month), MondayIndex(FirstDayOfMonth(v)), availableDates, selectedDate)
    ensures forall i :: 7 + MondayIndex(FirstDayOfMonth(v)) <= i < |daysContent| ==>
      daysContent[i].DayCell? && i % 7 == MondayFirst(Weekday(MakeDay(v.year, v.month, daysContent[i].day)))
  {
    var daysInMonth := GetDaysInMonth(v.year, v.month);
    var firstDayOfMonth := FirstDayOfMonth(v);
    var mondayIndex := MondayIndex(firstDayOfMonth);
    var dayKey := (d: nat) => DayKey(v, d);
    daysContent := FillGrid(v, dayKey, daysInMonth, mondayIndex, availableDates, selectedDate);
    KeyedCells(daysContent, v, dayKey, daysInMonth, mondayIndex, availableDates, selectedDate);
    CellColumns(daysContent, v);
  }
}
