/**
 * The month grid of one habit: how each day of the displayed month is
 * classified (future, part of a streak, completed, missed, or plain today),
 * the guard on clicks, and the month navigation.
 *
 * Days are ordinals (see CalendarDates); the component's string comparisons
 * of `YYYY-MM-DD` dates are ordinal comparisons by
 * CalendarDates.IsoOrderIsChronological.  Completion is read through the
 * store's `isHabitCompletedOnDate`.
 */
module HabitCalendar {
  import opened Results
  import opened CalendarDates
  import opened HabitContext

  datatype DayClass = Future | Streak | Completed | Missed | Today

  /** The CSS class the component gives each kind of day. */
  function ClassName(c: DayClass): (s: string)
    ensures |s| >= 12 && s[..12] == "calendar-day"
    ensures c != Today ==> |s| > 12
  {
    match c
    case Future => "calendar-day future"
    case Streak => "calendar-day streak"
    case Completed => "calendar-day completed"
    case Missed => "calendar-day missed"
    case Today => "calendar-day"
  }

  /** A displayed date whose month JavaScript's `Date` has normalised. */
  predicate ValidMonth(current: Date) {
    1 <= current.month <= 12
  }

  /** `firstDayOfMonth`: the weekday (0 = Sunday) of day 1 of the displayed month. */
  function FirstDayOfMonth(current: Date): (w: int)
    requires ValidMonth(current)
    ensures 0 <= w < 7
  {
    Weekday(MonthStart(current.year, current.month))
  }

  /** The next month's grid starts where this month's ends, modulo the week. */
  lemma FirstDayOfNextMonth(current: Date)
    requires ValidMonth(current)
    ensures FirstDayOfMonth(NextMonth(current))
         == (FirstDayOfMonth(current) + DaysInMonth(current.year, current.month)) % 7
  {
    WeekdayAfter(MonthStart(current.year, current.month), DaysInMonth(current.year, current.month));
  }

  /** `getDayClassName(day)` for the displayed month, given the store's habits. */
  function GetDayClassName(habits: seq<Habit>, selected: Option<HabitId>, current: Date, day: int, today: Day): (c: DayClass)
    requires ValidMonth(current)
    ensures selected.None? ==> c == Future
    ensures selected.Some? ==> (c == Future <==> DayOrdinal(current.year, current.month, day) > today)
  {
    if selected.None? then Future
    else
      var date := DayOrdinal(current.year, current.month, day);
      var isCompleted := IsHabitCompletedOnDate(habits, selected.value, date);
      if date > today then Future
      else if isCompleted then
        var prevDate := DayOrdinal(current.year, current.month, day - 1);
        if IsHabitCompletedOnDate(habits, selected.value, prevDate) then Streak else Completed
      else if date < today then Missed
      else Today
  }

  /** A date after today is a future day even when it is marked completed. */
  lemma FutureTakesPrecedence(habits: seq<Habit>, id: HabitId, current: Date, day: int, today: Day)
    requires ValidMonth(current)
    requires DayOrdinal(current.year, current.month, day) > today
    requires IsHabitCompletedOnDate(habits, id, DayOrdinal(current.year, current.month, day))
    ensures GetDayClassName(habits, Some(id), current, day, today) == Future
  {
  }

  /**
   * A completed day up to today is part of a streak exactly when the previous
   * calendar day is completed too; on the 1st that is the last day of the
   * previous month.
   */
  lemma StreakIffPreviousDayCompleted(habits: seq<Habit>, id: HabitId, current: Date, day: int, today: Day)
    requires ValidMonth(current) && 1 <= day <= DaysInMonth(current.year, current.month)
    requires Ordinal(Date(current.year, current.month, day)) <= today
    requires IsHabitCompletedOnDate(habits, id, Ordinal(Date(current.year, current.month, day)))
    ensures var previous :=
        if day == 1 then
          var p := PreviousMonth(current);
          Date(p.year, p.month, DaysInMonth(p.year, p.month))
        else Date(current.year, current.month, day - 1);
      previous.Valid()
      && (GetDayClassName(habits, Some(id), current, day, today) == Streak <==>
            IsHabitCompletedOnDate(habits, id, Ordinal(previous)))
      && (GetDayClassName(habits, Some(id), current, day, today) == Completed <==>
            !IsHabitCompletedOnDate(habits, id, Ordinal(previous)))
  {
    var p := PreviousMonth(current);
    assert Ordinal(Date(p.year, p.month, DaysInMonth(p.year, p.month)))
        == DayOrdinal(current.year, current.month, 0);
  }

  /** A day up to today that is not completed is missed before today and plain on today. */
  lemma UncompletedPastOrToday(habits: seq<Habit>, id: HabitId, current: Date, day: int, today: Day)
    requires ValidMonth(current)
    requires DayOrdinal(current.year, current.month, day) <= today
    requires !IsHabitCompletedOnDate(habits, id, DayOrdinal(current.year, current.month, day))
    ensures DayOrdinal(current.year, current.month, day) < today ==>
      GetDayClassName(habits, Some(id), current, day, today) == Missed
    ensures DayOrdinal(current.year, current.month, day) == today ==>
      GetDayClassName(habits, Some(id), current, day, today) == Today
  {
  }

  /**
   * `handleDateClick(day)`: the toggle it asks the store for, if any.  With no
   * selected habit, or on a day after today, it asks for none.
   */
  function HandleDateClick(selected: Option<HabitId>, current: Date, day: int, today: Day): (r: Option<(HabitId, Day)>)
    requires ValidMonth(current)
    ensures r.None? <==> selected.None? || DayOrdinal(current.year, current.month, day) > today
    ensures r.Some? ==> r.value == (selected.value, DayOrdinal(current.year, current.month, day)) && r.value.1 <= today
  {
    if selected.None? then None
    else
      var clickedDate := DayOrdinal(current.year, current.month, day);
      if clickedDate > today then None else Some((selected.value, clickedDate))
  }

  /** A click does nothing exactly on the days the grid shows as future. */
  lemma ClickIgnoredIffFutureDay(habits: seq<Habit>, selected: Option<HabitId>, current: Date, day: int, today: Day)
    requires ValidMonth(current)
    ensures HandleDateClick(selected, current, day, today).None?
        <==> GetDayClassName(habits, selected, current, day, today) == Future
  {
  }
}
