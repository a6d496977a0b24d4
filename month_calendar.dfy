/**
 * The month calendar of the habits page: a habit -> date -> completed
 * dictionary for the selected habit, refilled for the displayed month from
 * the service and flipped in place when the user clicks a day.
 *
 * Days are ordinals (see CalendarDates); the dictionary's `yyyy-MM-dd` keys
 * are in one-to-one correspondence with them by
 * CalendarDates.IsoOrderIsChronological.
 */
module MonthCalendar {
  import opened Results
  import opened CalendarDates
  import HabitService

  /** The styles `dayClassName` gives a day cell. */
  const CompletedStyle := "bg-primary/10 text-primary rounded-full hover:bg-primary/20"
  const TodayStyle := "border-primary border rounded-full hover:bg-primary/10"

  /** A day is marked when its entry exists and is true (`undefined` is falsy). */
  predicate Marked(inner: map<Day, bool>, d: Day): (r: bool)
    ensures d !in inner ==> !r
    ensures d in inner ==> (r <==> inner[d])
  {
    d in inner && inner[d]
  }

  /** The days `first..last`, both included. */
  function DayRange(first: Day, last: Day): (s: set<Day>)
    ensures forall d :: d in s <==> first <= d <= last
    decreases last - first
  {
    if first > last then {} else {first} + DayRange(first + 1, last)
  }

  /**
   * The entries of one habit after a month load: every day of
   * `first..last` present and true exactly for fetched dates, every fetched
   * date true, every other entry as it was.
   */
  function Refilled(inner: map<Day, bool>, first: Day, last: Day, dates: seq<Day>): (m: map<Day, bool>)
    ensures forall d :: first <= d <= last ==> d in m && (m[d] <==> d in dates)
    ensures forall d :: d in dates ==> d in m && m[d]
    ensures forall d :: !(first <= d <= last) && d !in dates ==>
      (d in m <==> d in inner) && (d in inner ==> m[d] == inner[d])
  {
    var keys := inner.Keys + DayRange(first, last) + (set d | d in dates);
    map d | d in keys :: if d in dates then true else if first <= d <= last then false else inner[d]
  }

  /** The entries of one habit after a click on `d`: that entry negated, a missing one set. */
  function Flipped(inner: map<Day, bool>, d: Day): (m: map<Day, bool>)
    ensures d in m && (m[d] <==> !Marked(inner, d))
    ensures forall e :: e != d ==> (e in m <==> e in inner) && (e in inner ==> m[e] == inner[e])
  {
    inner[d := !Marked(inner, d)]
  }

  /** Two successful clicks on the same day leave that day marked as before. */
  lemma FlipTwiceKeepsMark(inner: map<Day, bool>, d: Day)
    ensures forall e :: Marked(Flipped(Flipped(inner, d), d), e) <==> Marked(inner, e)
  {
  }

  /** The `completed_date` of each row the service returned, in order. */
  function RowDates(rows: seq<HabitService.CompletionRow>): (ds: seq<Day>)
    ensures |ds| == |rows| && forall i :: 0 <= i < |rows| ==> ds[i] == rows[i].date
  {
    if rows == [] then [] else [rows[0].date] + RowDates(rows[1..])
  }

  /**
   * Refilling a month from what the service's `getHabitCompletions` returns
   * for that month marks a day of the month exactly when the table holds a
   * completion of that habit by that user on that day.
   */
  lemma MonthShowsStoredCompletions(table: set<HabitService.CompletionRow>, rows: seq<HabitService.CompletionRow>,
                                    habitId: HabitId, userId: string, inner: map<Day, bool>, first: Day, last: Day)
    requires forall c :: c in rows <==> c in table && HabitService.InRange(c, habitId, userId, first, last)
    ensures forall d :: first <= d <= last ==>
      (Marked(Refilled(inner, first, last, RowDates(rows)), d) <==> HabitService.CompletionRow(habitId, userId, d) in table)
  {
    var ds := RowDates(rows);
    forall d | first <= d <= last
      ensures Marked(Refilled(inner, first, last, ds), d) <==> HabitService.CompletionRow(habitId, userId, d) in table
    {
      var key := HabitService.CompletionRow(habitId, userId, d);
      if d in ds {
        var i :| 0 <= i < |ds| && ds[i] == d;
        assert rows[i] in rows;
        assert rows[i] == key;
      }
      if key in table {
        assert HabitService.InRange(key, habitId, userId, first, last);
        var i :| 0 <= i < |rows| && rows[i] == key;
        assert ds[i] == d;
      }
    }
  }

  /**
   * The first `forEach` of a month load: every day of `first..last` set to
   * false, every other entry kept.
   */
  method ResetDays(inner: map<Day, bool>, first: Day, last: Day) returns (m: map<Day, bool>)
    ensures forall e :: first <= e <= last ==> e in m && !m[e]
    ensures forall e :: !(first <= e <= last) ==> (e in m <==> e in inner) && (e in inner ==> m[e] == inner[e])
  {
    m := inner;
    var d := first;
    while d <= last
      invariant d == first || first <= d <= last + 1
      invariant forall e :: first <= e < d && e <= last ==> e in m && !m[e]
      invariant forall e :: !(first <= e < d) ==> (e in m <==> e in inner) && (e in inner ==> m[e] == inner[e])
      decreases last - d
    {
      m := m[d := false];
      d := d + 1;
    }
  }

  /** The second `forEach` of a month load: every fetched date set to true, every other entry kept. */
  method MarkDates(inner: map<Day, bool>, dates: seq<Day>) returns (m: map<Day, bool>)
    ensures forall e :: e in dates ==> e in m && m[e]
    ensures forall e :: e !in dates ==> (e in m <==> e in inner) && (e in inner ==> m[e] == inner[e])
  {
    m := inner;
    for i := 0 to |dates|
      invariant forall e :: e in dates[..i] ==> e in m && m[e]
      invariant forall e :: e !in dates[..i] ==> (e in m <==> e in inner) && (e in inner ==> m[e] == inner[e])
    {
      assert dates[..i + 1] == dates[..i] + [dates[i]];
      m := m[dates[i] := true];
    }
    assert dates[..|dates|] == dates;
  }

  /** Resetting the month and then marking the fetched dates is the refill. */
  lemma ResetThenMarkRefills(inner: map<Day, bool>, first: Day, last: Day, dates: seq<Day>,
                             reset: map<Day, bool>, m: map<Day, bool>)
    requires forall e :: first <= e <= last ==> e in reset && !reset[e]
    requires forall e :: !(first <= e <= last) ==> (e in reset <==> e in inner) && (e in inner ==> reset[e] == inner[e])
    requires forall e :: e in dates ==> e in m && m[e]
    requires forall e :: e !in dates ==> (e in m <==> e in reset) && (e in reset ==> m[e] == reset[e])
    ensures m == Refilled(inner, first, last, dates)
  {
    var r := Refilled(inner, first, last, dates);
    assert m.Keys == r.Keys;
  }

  /** The two `forEach` loops of a month load, one after the other. */
  method Refill(inner: map<Day, bool>, first: Day, last: Day, dates: seq<Day>) returns (m: map<Day, bool>)
    ensures m == Refilled(inner, first, last, dates)
  {
    var reset := ResetDays(inner, first, last);
    m := MarkDates(reset, dates);
    ResetThenMarkRefills(inner, first, last, dates, reset, m);
  }

  class MonthCalendar {
    var completions: map<HabitId, map<Day, bool>>
    var selected: Option<HabitId>
    var loading: bool

    constructor ()
      ensures completions == map[] && selected.None? && loading
    {
      completions := map[];
      selected := None;
      loading := true;
    }

    /** The selected habit's entries, `{}` when it has none yet. */
    function Entries(h: HabitId): (e: map<Day, bool>)
      reads this
      ensures h !in completions ==> e == map[]
      ensures h in completions ==> e == completions[h]
    {
      if h in completions then completions[h] else map[]
    }

    /**
     * `fetchCompletionsForMonth` for the month of `current`, given the dates
     * of the rows the service returned.  With no selected habit nothing
     * happens.  Otherwise every day of the month is reset to false, then every
     * fetched date set to true; other habits, and this habit's other dates,
     * are left alone.
     */
    method FetchCompletionsForMonth(current: Date, fetched: seq<Day>)
      requires 1 <= current.month <= 12
      modifies this`completions, this`loading
      ensures selected.None? ==> completions == old(completions) && loading == old(loading)
      ensures selected.Some? ==> !loading
      ensures selected.Some? ==>
        var first := MonthStart(current.year, current.month);
        var last := first + DaysInMonth(current.year, current.month) - 1;
        completions == old(completions)[selected.value := Refilled(old(Entries(selected.value)), first, last, fetched)]
    {
      if selected.None? {
        return;
      }
      loading := true;
      var h := selected.value;
      var first := MonthStart(current.year, current.month);
      var last := first + DaysInMonth(current.year, current.month) - 1;
      var inner := Refill(Entries(h), first, last, fetched);
      completions := completions[h := inner];
      loading := false;
    }

    /**
     * The effect run when the habits, the month or the selection change.
     * With no habits loading simply ends.  With no selection the first habit
     * is selected, and the fetch of this same run still sees no selection and
     * does nothing (it happens on the next run).  Otherwise the month is
     * fetched.
     */
    method Refresh(habitIds: seq<HabitId>, current: Date, fetched: seq<Day>)
      requires 1 <= current.month <= 12
      modifies this`completions, this`loading, this`selected
      ensures |habitIds| == 0 ==>
        !loading && completions == old(completions) && selected == old(selected)
      ensures |habitIds| > 0 && old(selected).None? ==>
        selected == Some(habitIds[0]) && completions == old(completions) && loading == old(loading)
      ensures |habitIds| > 0 && old(selected).Some? ==>
        var first := MonthStart(current.year, current.month);
        var last := first + DaysInMonth(current.year, current.month) - 1;
        selected == old(selected) && !loading
        && completions == old(completions)[selected.value := Refilled(old(Entries(selected.value)), first, last, fetched)]
    {
      if |habitIds| == 0 {
        loading := false;
        return;
      }
      if selected.None? {
        selected := Some(habitIds[0]);
        return;
      }
      FetchCompletionsForMonth(current, fetched);
    }

    /**
     * `handleDayClick`: with no selected habit, or on a day after today, the
     * callback is not called and nothing changes.  Otherwise the callback is
     * called; if it succeeds only that day's entry of the selected habit is
     * negated (a missing one becomes true), and if it fails nothing changes.
     */
    method HandleDayClick(day: Day, today: Day, callbackSucceeds: bool) returns (called: bool)
      modifies this`completions
      ensures called <==> selected.Some? && day <= today
      ensures !called || !callbackSucceeds ==> completions == old(completions)
      ensures called && callbackSucceeds ==>
        completions == old(completions)[selected.value := Flipped(old(Entries(selected.value)), day)]
    {
      if selected.None? {
        return false;
      }
      if day > today {
        return false;
      }
      called := true;
      if !callbackSucceeds {
        return;
      }
      var h := selected.value;
      var inner := Entries(h);
      completions := completions[h := Flipped(inner, day)];
    }

    /**
     * `dayClassName`: empty with no selection or no entries for it; the
     * completed style when the day is marked, even on today; the today
     * style on an unmarked today; empty otherwise.
     */
    function DayClassName(day: Day, today: Day): (s: string)
      reads this
      ensures selected.None? || selected.value !in completions ==> s == ""
      ensures selected.Some? && selected.value in completions && Marked(completions[selected.value], day) ==>
        s == CompletedStyle
      ensures s == TodayStyle <==>
        selected.Some? && selected.value in completions && !Marked(completions[selected.value], day) && day == today
      ensures selected.Some? && selected.value in completions && !Marked(completions[selected.value], day) && day != today ==>
        s == ""
    {
      if selected.None? || selected.value !in completions then ""
      else if Marked(completions[selected.value], day) then CompletedStyle
      else if day == today then TodayStyle
      else ""
    }
  }
}
