/**
 * Time as the back end sees it: a UTC instant with minute resolution,
 * the day's working hours (GetWorkingHours) and the window and past predicates
 * the availability and booking endpoints apply to a timestamp.
 */
module WorkingCalendar {

  const MinutesPerDay: nat := 1440
  const SlotLength: nat := 30

  /** Minute offsets within a day of the four working-hour boundaries. */
  const OpenMinute: nat := 8 * 60
  const BreakStartMinute: nat := 12 * 60
  const BreakEndMinute: nat := 13 * 60
  const CloseMinute: nat := 17 * 60

  /**
   * A point in time: minutes elapsed since 0001-01-01T00:00 UTC, the origin of
   * a DateTime. The origin is the value of `default(DateTime)` and fell on a Monday.
   */
  type Instant = nat

  const DefaultDate: Instant := 0

  /** The calendar day an instant falls on, counted from the origin. */
  function DayOf(t: Instant): nat { t / MinutesPerDay }

  /** `TimeOfDay`, in minutes after midnight. */
  function TimeOfDay(t: Instant): (m: nat)
    ensures m < MinutesPerDay
  {
    t % MinutesPerDay
  }

  /** `Date`: midnight at the start of the instant's day. */
  function Midnight(t: Instant): (r: Instant)
    ensures r <= t && t - r == TimeOfDay(t) && DayOf(r) == DayOf(t) && TimeOfDay(r) == 0
  {
    DayOf(t) * MinutesPerDay
  }

  /** The instant `m` minutes after midnight on `day`. */
  function At(day: nat, m: nat): (t: Instant)
    requires m < MinutesPerDay
    ensures DayOf(t) == day && TimeOfDay(t) == m
  {
    day * MinutesPerDay + m
  }

  /** `DayOfWeek` with .NET's numbering: Sunday = 0, Monday = 1, ..., Saturday = 6. */
  function DayOfWeek(t: Instant): (w: nat)
    ensures w < 7
  {
    (DayOf(t) + 1) % 7
  }

  const Sunday: nat := 0
  const Saturday: nat := 6

  predicate IsWeekend(t: Instant)
  {
    DayOfWeek(t) == Saturday || DayOfWeek(t) == Sunday
  }

  /** The tuple GetWorkingHours returns. */
  datatype WorkingHours = WorkingHours(startTime: Instant, endTime: Instant, breakStartTime: Instant, breakEndTime: Instant)

  /**
   * The day's hours: 08:00 to 17:00 with a break from 12:00 to 13:00, all on
   * the calendar day of `date`; the time of day of `date` plays no part.
   */
  function GetWorkingHours(date: Instant): (wh: WorkingHours)
    ensures DayOf(wh.startTime) == DayOf(date) && TimeOfDay(wh.startTime) == OpenMinute
    ensures DayOf(wh.breakStartTime) == DayOf(date) && TimeOfDay(wh.breakStartTime) == BreakStartMinute
    ensures DayOf(wh.breakEndTime) == DayOf(date) && TimeOfDay(wh.breakEndTime) == BreakEndMinute
    ensures DayOf(wh.endTime) == DayOf(date) && TimeOfDay(wh.endTime) == CloseMinute
    ensures wh.startTime < wh.breakStartTime < wh.breakEndTime < wh.endTime
  {
    var day := DayOf(date);
    WorkingHours(At(day, OpenMinute), At(day, CloseMinute), At(day, BreakStartMinute), At(day, BreakEndMinute))
  }

  /** The day's hours as fixed offsets from the midnight of that day. */
  lemma HoursFromMidnight(date: Instant)
    ensures GetWorkingHours(date).startTime == Midnight(date) + OpenMinute
    ensures GetWorkingHours(date).breakStartTime == Midnight(date) + BreakStartMinute
    ensures GetWorkingHours(date).breakEndTime == Midnight(date) + BreakEndMinute
    ensures GetWorkingHours(date).endTime == Midnight(date) + CloseMinute
  {
  }

  /** Two instants on the same calendar day get the same working hours. */
  lemma WorkingHoursIgnoreTimeOfDay(a: Instant, b: Instant)
    requires DayOf(a) == DayOf(b)
    ensures GetWorkingHours(a) == GetWorkingHours(b)
  {
  }

  /** The open windows as minute offsets: [08:00, 12:00) and [13:00, 17:00). */
  predicate InOpenWindow(m: nat)
  {
    (OpenMinute <= m < BreakStartMinute) || (BreakEndMinute <= m < CloseMinute)
  }

  /** The `isWithinWorkingHours` test of a timestamp against a day's hours. */
  predicate IsWithinWorkingHours(t: Instant, wh: WorkingHours)
  {
    (t >= wh.startTime && t < wh.breakStartTime) || (t >= wh.breakEndTime && t < wh.endTime)
  }

  /** The `isInThePast` test: not strictly after `now`. */
  predicate IsInThePast(t: Instant, now: Instant)
  {
    t <= now
  }

  /**
   * A timestamp checked against its own day's hours is within them exactly
   * when its time of day lies in one of the two open windows.
   */
  lemma WithinOwnHoursIff(t: Instant)
    ensures IsWithinWorkingHours(t, GetWorkingHours(t)) <==> InOpenWindow(TimeOfDay(t))
  {
    var wh := GetWorkingHours(t);
    assert t == Midnight(t) + TimeOfDay(t);
    assert wh.startTime == Midnight(t) + OpenMinute;
    assert wh.breakStartTime == Midnight(t) + BreakStartMinute;
    assert wh.breakEndTime == Midnight(t) + BreakEndMinute;
    assert wh.endTime == Midnight(t) + CloseMinute;
  }

  /** An instant on another day is never within a day's hours. */
  lemma OtherDayNotWithin(t: Instant, date: Instant)
    requires IsWithinWorkingHours(t, GetWorkingHours(date))
    ensures DayOf(t) == DayOf(date) && InOpenWindow(TimeOfDay(t))
  {
    var wh := GetWorkingHours(date);
    assert wh.startTime == Midnight(date) + OpenMinute;
    assert wh.endTime == Midnight(date) + CloseMinute;
    assert wh.breakStartTime == Midnight(date) + BreakStartMinute;
    assert wh.breakEndTime == Midnight(date) + BreakEndMinute;
    assert Midnight(date) <= t < Midnight(date) + MinutesPerDay;
    assert DayOf(t) == DayOf(date);
    WithinOwnHoursIff(t);
  }
}
