/**
 * The dashboard's derived figures: the habits shown under each tab, the
 * number completed today, the highest streak, and the free-plan notice.
 * All of them are computed from the store's habit list and today's date.
 */
module Dashboard {
  import opened Results
  import opened CalendarDates
  import opened HabitContext
  import opened Sequences

  /**
   * A habit counts as done today when today's date is among its completions:
   * the store's `isHabitCompletedOnDate` asked about that habit alone.
   */
  predicate DoneOn(h: Habit, today: Day): (r: bool)
    ensures r <==> IsHabitCompletedOnDate([h], h.id, today)
  {
    assert IsFirstWithId([h], h.id, 0);
    today in h.completions
  }

  /** The "active" tab: the habits completed today. */
  function Active(habits: seq<Habit>, today: Day): (r: seq<Habit>)
    ensures |r| <= |habits|
    ensures forall h :: h in r <==> h in habits && DoneOn(h, today)
  {
    Filter(habits, (h: Habit) => DoneOn(h, today))
  }

  /** The "inactive" tab: the habits not completed today. */
  function Inactive(habits: seq<Habit>, today: Day): (r: seq<Habit>)
    ensures |r| <= |habits|
    ensures forall h :: h in r <==> h in habits && !DoneOn(h, today)
  {
    Filter(habits, (h: Habit) => !DoneOn(h, today))
  }

  /**
   * `filteredHabits` for the tab `tab`: "active" and "inactive" filter by
   * today's completion, any other tab value shows every habit.
   */
  function FilteredHabits(habits: seq<Habit>, tab: string, today: Day): (r: seq<Habit>)
    ensures tab == "active" ==> forall h :: h in r <==> h in habits && DoneOn(h, today)
    ensures tab == "inactive" ==> forall h :: h in r <==> h in habits && !DoneOn(h, today)
    ensures tab != "active" && tab != "inactive" ==> r == habits
  {
    if tab == "active" then Active(habits, today)
    else if tab == "inactive" then Inactive(habits, today)
    else habits
  }

  /**
   * The two filtering tabs split the list: every habit is under exactly one
   * of them, as many times as it occurs in the list.
   */
  lemma {:induction false} TabsPartition(habits: seq<Habit>, today: Day)
    ensures multiset(Active(habits, today)) + multiset(Inactive(habits, today)) == multiset(habits)
    ensures |Active(habits, today)| + |Inactive(habits, today)| == |habits|
  {
    if habits != [] {
      TabsPartition(habits[1..], today);
      assert habits == [habits[0]] + habits[1..];
    }
  }

  /**
   * A habit just added by the store (placed first, with no completions)
   * appears under "Not Completed" and leaves "Completed Today" unchanged.
   */
  lemma NewHabitIsNotCompleted(row: HabitRow, habits: seq<Habit>, today: Day)
    ensures Active([NewHabit(row)] + habits, today) == Active(habits, today)
    ensures Inactive([NewHabit(row)] + habits, today) == [NewHabit(row)] + Inactive(habits, today)
  {
    var h := NewHabit(row);
    FilterAppend([h], habits, (g: Habit) => DoneOn(g, today));
    FilterAppend([h], habits, (g: Habit) => !DoneOn(g, today));
    assert [h][1..] == [];
  }

  /** `completedToday`: the number of habits completed today. */
  function CompletedToday(habits: seq<Habit>, today: Day): (n: nat)
    ensures n == |Active(habits, today)| && n <= |habits|
    ensures n == 0 <==> forall h :: h in habits ==> !DoneOn(h, today)
  {
    var active := Active(habits, today);
    assert active != [] ==> active[0] in active;
    |active|
  }

  /** The "Not Completed" tab's count, `habits.length - completedToday`, is the size of that tab. */
  lemma NotCompletedCount(habits: seq<Habit>, today: Day)
    ensures |habits| - CompletedToday(habits, today) == |FilteredHabits(habits, "inactive", today)|
  {
    TabsPartition(habits, today);
  }

  /**
   * The left fold of `highestStreak` from accumulator `acc`: a habit's
   * streak replaces the accumulator when it is strictly greater.
   */
  function HighestFrom(habits: seq<Habit>, acc: nat): (m: nat)
    ensures acc <= m
    ensures forall h :: h in habits ==> h.streakCount <= m
    ensures m == acc || exists h :: h in habits && h.streakCount == m
  {
    if habits == [] then acc
    else
      var h := habits[0];
      var m := HighestFrom(habits[1..], if h.streakCount > acc then h.streakCount else acc);
      assert forall g :: g in habits ==> g == h || g in habits[1..];
      m
  }

  /** `highestStreak`: the largest streak of any habit, 0 for none. */
  function HighestStreak(habits: seq<Habit>): (m: nat)
    ensures forall h :: h in habits ==> h.streakCount <= m
    ensures m == 0 || exists h :: h in habits && h.streakCount == m
  {
    HighestFrom(habits, 0)
  }

  /** The "Start your first streak today!" message shows exactly when no habit has a streak. */
  lemma NoStreakMessage(habits: seq<Habit>)
    ensures HighestStreak(habits) == 0 <==> forall h :: h in habits ==> h.streakCount == 0
  {
  }

  /** `!user?.isPremium`: a missing user counts as not premium. */
  predicate NotPremium(user: Option<User>): (r: bool)
    ensures user.None? ==> r
    ensures user.Some? ==> (r <==> !user.value.isPremium)
  {
    user.None? || !user.value.isPremium
  }

  /** The "(Max for free plan)" note next to the habit count. */
  predicate FreePlanNotice(user: Option<User>, count: nat): (r: bool)
    ensures r <==> UsageCaption(user, count).Used? && count >= UsageCaption(user, count).limit
  {
    NotPremium(user) && count >= FreePlanHabitLimit
  }

  /** The caption under the habit count. */
  datatype Caption = Unlimited | Used(count: nat, limit: nat)

  function UsageCaption(user: Option<User>, count: nat): (c: Caption)
    ensures c.Unlimited? <==> !NotPremium(user)
    ensures c.Used? ==> c.count == count && c.limit == FreePlanHabitLimit
  {
    if user.Some? && user.value.isPremium then Unlimited else Used(count, FreePlanHabitLimit)
  }

  /**
   * The dashboard's notice and the store's check use the same threshold: for
   * a signed-in user and a non-blank name, the notice shows exactly when
   * adding one more habit is refused for the free plan.
   */
  lemma NoticeMatchesAddHabitLimit(user: User, name: string, count: nat)
    requires !AllWhitespace(name)
    ensures FreePlanNotice(Some(user), count) <==> AddHabitCheck(Some(user), name, count) == Some(FreePlanLimit)
  {
  }
}
