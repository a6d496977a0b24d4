/**
 * The habit store of the application: the ordered list of the signed-in
 * user's habits, each with its completion dates and the streak count the
 * server derives, and the operations that change it (load, add, remove,
 * toggle a completion) or read it.
 *
 * The remote database is an abstract collaborator.  Every operation takes,
 * as parameters, the answers the remote gives to the calls it issues, and
 * returns the list of calls it issued, in order; local state changes only
 * after the remote call it depends on has succeeded (there is no optimistic
 * update and no rollback).  The streak count is never computed here: it is
 * whatever natural number the remote reports.
 */
module HabitContext {
  import opened Results
  import opened CalendarDates
  import opened Sequences


  datatype Habit = Habit(
    id: HabitId,
    name: string,
    description: Option<string>,
    createdAt: string,
    completions: seq<Day>,
    streakCount: nat,
    category: Option<string>)

  /** The authenticated user as the store sees it. */
  datatype User = User(id: string, isPremium: bool)

  /** A row of the remote `habits` table (`null` columns are `None`). */
  datatype HabitRow = HabitRow(
    id: HabitId,
    name: string,
    description: Option<string>,
    createdAt: string,
    streakCount: nat,
    category: Option<string>)

  /** A row of the remote `habit_completions` table, as selected at load time. */
  datatype CompletionRow = CompletionRow(habitId: HabitId, date: Day)

  /** What `addHabit` sends to the remote `habits` table. */
  datatype HabitInsert = HabitInsert(
    userId: string,
    name: string,
    description: Option<string>,
    category: Option<string>)

  /** The remote calls the store issues. */
  datatype RemoteCall =
    | SelectHabits(userId: string)
    | SelectCompletions(userId: string)
    | InsertHabit(payload: HabitInsert)
    | DeleteHabit(habitId: HabitId, userId: string)
    | DeleteCompletion(habitId: HabitId, userId: string, date: Day)
    | InsertCompletion(habitId: HabitId, userId: string, date: Day)
    | SelectStreak(habitId: HabitId)

  datatype Error =
    | NotAuthenticated
    | EmptyName
    | FreePlanLimit
    | Remote(message: string)

  /** Number of habits a user without premium may keep. */
  const FreePlanHabitLimit: nat := 5

  // ---------------------------------------------------------------------
  // Strings: JavaScript's `trim` and `x || undefined`

  /** ECMAScript WhiteSpace and LineTerminator code points (what `trim` removes). */
  predicate IsWhitespace(c: char) {
    c == '\t' || c == '\n' || c == '\U{B}' || c == '\U{C}' || c == '\r' || c == ' '
    || c == '\U{A0}' || c == '\U{1680}' || ('\U{2000}' <= c <= '\U{200A}')
    || c == '\U{2028}' || c == '\U{2029}' || c == '\U{202F}' || c == '\U{205F}'
    || c == '\U{3000}' || c == '\U{FEFF}'
  }

  predicate AllWhitespace(s: string) {
    forall i :: 0 <= i < |s| ==> IsWhitespace(s[i])
  }

  function TrimStart(s: string): (r: string)
    ensures |r| <= |s| && r == s[|s| - |r|..]
    ensures AllWhitespace(s[..|s| - |r|])
    ensures r == [] || !IsWhitespace(r[0])
  {
    if s != [] && IsWhitespace(s[0]) then TrimStart(s[1..]) else s
  }

  function TrimEnd(s: string): (r: string)
    ensures |r| <= |s| && r == s[..|r|]
    ensures AllWhitespace(s[|r|..])
    ensures r == [] || !IsWhitespace(r[|r| - 1])
  {
    if s != [] && IsWhitespace(s[|s| - 1]) then TrimEnd(s[..|s| - 1]) else s
  }

  /** `r` occurs in `s` starting at position `i`. */
  predicate SliceAt(s: string, i: int, r: string) {
    0 <= i <= |s| - |r| && s[i..i + |r|] == r
  }

  /** `r` is what is left of `s` after cutting the whitespace `s[..i]` and `s[i + |r|..]`. */
  predicate CutFrom(s: string, i: int, r: string) {
    SliceAt(s, i, r) && AllWhitespace(s[..i]) && AllWhitespace(s[i + |r|..])
  }

  /** `s` starts and ends with a character that is not whitespace, or is empty. */
  predicate IsTrimmed(s: string) {
    s == [] || (!IsWhitespace(s[0]) && !IsWhitespace(s[|s| - 1]))
  }

  /**
   * `s.trim()`: the slice of `s` left after cutting whitespace, and only
   * whitespace, from both ends, with no whitespace at either end.
   */
  function Trim(s: string): (r: string)
    ensures IsTrimmed(r)
    ensures exists i :: CutFrom(s, i, r)
  {
    var t := TrimStart(s);
    var r := TrimEnd(t);
    var i := |s| - |t|;
    assert s[i + |r|..] == t[|r|..];
    assert CutFrom(s, i, r);
    r
  }

  /** `!s.trim()` holds exactly when every character of `s` is whitespace. */
  lemma TrimEmptyIffAllWhitespace(s: string)
    ensures Trim(s) == [] <==> AllWhitespace(s)
  {
    var t := TrimStart(s);
    if Trim(s) == [] {
      assert t == [] by {
        assert t == t[|TrimEnd(t)|..];
      }
      assert s == s[..|s| - |t|];
    } else {
      var r := Trim(s);
      var i :| CutFrom(s, i, r);
      assert s[i] == r[0];
    }
  }

  // ---------------------------------------------------------------------
  // Queries (`habits.find(h => h.id === id)`)

  /** `k` is the position of the first habit whose id is `id`. */
  predicate IsFirstWithId(habits: seq<Habit>, id: HabitId, k: int) {
    0 <= k < |habits| && habits[k].id == id
    && forall j :: 0 <= j < k ==> habits[j].id != id
  }

  predicate HasId(habits: seq<Habit>, id: HabitId) {
    exists k :: 0 <= k < |habits| && habits[k].id == id
  }

  function FindIndex(habits: seq<Habit>, id: HabitId): (k: int)
    ensures k == -1 || IsFirstWithId(habits, id, k)
    ensures k == -1 <==> !HasId(habits, id)
  {
    FirstIndex(habits, (h: Habit) => h.id == id)
  }

  /** `getHabitById`: the first habit with the id, or nothing for an unknown id. */
  function GetHabitById(habits: seq<Habit>, id: HabitId): (r: Option<Habit>)
    ensures r.None? <==> !HasId(habits, id)
    ensures r.Some? ==> exists k :: IsFirstWithId(habits, id, k) && habits[k] == r.value
    ensures forall k :: IsFirstWithId(habits, id, k) ==> r == Some(habits[k])
  {
    var k := FindIndex(habits, id);
    if k == -1 then None else Some(habits[k])
  }

  /** `isHabitCompletedOnDate`: the first habit with the id lists the date. */
  function IsHabitCompletedOnDate(habits: seq<Habit>, id: HabitId, date: Day): (r: bool)
    ensures !HasId(habits, id) ==> !r
    ensures r <==> exists k :: IsFirstWithId(habits, id, k) && date in habits[k].completions
  {
    var h := GetHabitById(habits, id);
    h.Some? && date in h.value.completions
  }

  /** `getCurrentStreak`: the first such habit's streak count, 0 for an unknown id. */
  function GetCurrentStreak(habits: seq<Habit>, id: HabitId): (r: nat)
    ensures !HasId(habits, id) ==> r == 0
    ensures HasId(habits, id) ==> exists k :: IsFirstWithId(habits, id, k) && r == habits[k].streakCount
  {
    var h := GetHabitById(habits, id);
    if h.Some? then h.value.streakCount else 0
  }

  // ---------------------------------------------------------------------
  // Local updates

  /** `prev.map(habit => habit.id === id ? f(habit) : habit)`. */
  function MapHabit(habits: seq<Habit>, id: HabitId, f: Habit -> Habit): (r: seq<Habit>)
    ensures |r| == |habits|
    ensures forall k :: 0 <= k < |habits| ==>
      r[k] == if habits[k].id == id then f(habits[k]) else habits[k]
  {
    if habits == [] then []
    else [if habits[0].id == id then f(habits[0]) else habits[0]] + MapHabit(habits[1..], id, f)
  }

  /** `completions.filter(d => d !== date)`. */
  function RemoveAll(ds: seq<Day>, date: Day): (r: seq<Day>)
    ensures date !in r
    ensures forall x :: x != date ==> multiset(r)[x] == multiset(ds)[x]
  {
    var r := Filter(ds, (x: Day) => x != date);
    forall x | x != date ensures multiset(r)[x] == multiset(ds)[x] {
      FilterCount(ds, (x: Day) => x != date, x);
    }
    r
  }

  lemma RemoveAllAbsent(ds: seq<Day>, date: Day)
    requires date !in ds
    ensures RemoveAll(ds, date) == ds
  {
    FilterAll(ds, (x: Day) => x != date);
  }

  lemma RemoveAllAppend(a: seq<Day>, b: seq<Day>, date: Day)
    ensures RemoveAll(a + b, date) == RemoveAll(a, date) + RemoveAll(b, date)
  {
    FilterAppend(a, b, (x: Day) => x != date);
  }

  /** The dates a completion list holds, ignoring order and repetition. */
  function DateSet(ds: seq<Day>): set<Day> {
    set x | x in ds
  }

  function WithoutDate(h: Habit, date: Day): Habit {
    h.(completions := RemoveAll(h.completions, date))
  }

  function WithDate(h: Habit, date: Day): Habit {
    h.(completions := h.completions + [date])
  }

  /** Local effect of a successful remote delete of the (habit, date) completion. */
  function ClearDate(habits: seq<Habit>, id: HabitId, date: Day): (r: seq<Habit>)
    ensures |r| == |habits|
    ensures forall k :: 0 <= k < |habits| && habits[k].id == id ==>
      r[k] == habits[k].(completions := RemoveAll(habits[k].completions, date)) && date !in r[k].completions
    ensures forall k :: 0 <= k < |habits| && habits[k].id != id ==> r[k] == habits[k]
  {
    MapHabit(habits, id, h => WithoutDate(h, date))
  }

  /** Local effect of a successful remote insert of the (habit, date) completion. */
  function MarkDate(habits: seq<Habit>, id: HabitId, date: Day): (r: seq<Habit>)
    ensures |r| == |habits|
    ensures forall k :: 0 <= k < |habits| && habits[k].id == id ==>
      r[k] == habits[k].(completions := habits[k].completions + [date])
    ensures forall k :: 0 <= k < |habits| && habits[k].id != id ==> r[k] == habits[k]
  {
    MapHabit(habits, id, h => WithDate(h, date))
  }

  /**
   * The remote write a toggle issues: a delete of the completion when the
   * habit is completed on the date, an insert otherwise.
   */
  function ToggleWrite(habits: seq<Habit>, id: HabitId, userId: string, date: Day): (r: RemoteCall)
    ensures r == DeleteCompletion(id, userId, date) || r == InsertCompletion(id, userId, date)
    ensures r.DeleteCompletion? <==> IsHabitCompletedOnDate(habits, id, date)
  {
    if IsHabitCompletedOnDate(habits, id, date) then DeleteCompletion(id, userId, date)
    else InsertCompletion(id, userId, date)
  }

  /** Local effect of a toggle whose remote write succeeded. */
  function LocalToggle(habits: seq<Habit>, id: HabitId, date: Day): (r: seq<Habit>)
    ensures |r| == |habits|
    ensures forall k :: 0 <= k < |habits| && habits[k].id != id ==> r[k] == habits[k]
    ensures !HasId(habits, id) ==> r == habits
  {
    if IsHabitCompletedOnDate(habits, id, date) then ClearDate(habits, id, date)
    else
      var r := MarkDate(habits, id, date);
      assert !HasId(habits, id) ==> r == habits by {
        if !HasId(habits, id) {
          assert forall k :: 0 <= k < |habits| ==> r[k] == habits[k];
        }
      }
      r
  }

  /** Local effect of the streak re-fetch. */
  function WithStreak(habits: seq<Habit>, id: HabitId, n: nat): (r: seq<Habit>)
    ensures |r| == |habits|
    ensures forall k :: 0 <= k < |habits| && habits[k].id == id ==> r[k] == habits[k].(streakCount := n)
    ensures forall k :: 0 <= k < |habits| && habits[k].id != id ==> r[k] == habits[k]
  {
    MapHabit(habits, id, (h: Habit) => h.(streakCount := n))
  }

  /** `prev.filter(habit => habit.id !== id)`. */
  function RemoveHabitLocally(habits: seq<Habit>, id: HabitId): (r: seq<Habit>)
    ensures !HasId(r, id)
    ensures forall h :: h in r <==> h in habits && h.id != id
  {
    var r := Filter(habits, (h: Habit) => h.id != id);
    assert forall j :: 0 <= j < |r| ==> r[j] in r;
    r
  }

  /** Removing keeps the relative order: it distributes over concatenation. */
  lemma RemoveHabitKeepsOrder(a: seq<Habit>, b: seq<Habit>, id: HabitId)
    ensures RemoveHabitLocally(a + b, id) == RemoveHabitLocally(a, id) + RemoveHabitLocally(b, id)
  {
    FilterAppend(a, b, (h: Habit) => h.id != id);
  }

  /** Removing an id no habit has leaves the list as it was. */
  lemma RemoveUnknownHabit(habits: seq<Habit>, id: HabitId)
    requires !HasId(habits, id)
    ensures RemoveHabitLocally(habits, id) == habits
  {
    assert forall h :: h in habits ==> h.id != id;
    FilterAll(habits, (h: Habit) => h.id != id);
  }

  // ---------------------------------------------------------------------
  // Properties of a toggle

  lemma MapHabitKeepsIds(habits: seq<Habit>, id: HabitId, f: Habit -> Habit)
    requires forall h :: f(h).id == h.id
    ensures forall k :: 0 <= k < |habits| ==> MapHabit(habits, id, f)[k].id == habits[k].id
    ensures forall k :: IsFirstWithId(habits, id, k) ==> IsFirstWithId(MapHabit(habits, id, f), id, k)
  {
  }

  /** A successful toggle flips whether the habit counts as completed on that date. */
  lemma ToggleFlipsCompletion(habits: seq<Habit>, id: HabitId, date: Day)
    requires HasId(habits, id)
    ensures IsHabitCompletedOnDate(habits, id, date) ==>
      !IsHabitCompletedOnDate(ClearDate(habits, id, date), id, date)
    ensures !IsHabitCompletedOnDate(habits, id, date) ==>
      IsHabitCompletedOnDate(MarkDate(habits, id, date), id, date)
    ensures IsHabitCompletedOnDate(LocalToggle(habits, id, date), id, date)
        <==> !IsHabitCompletedOnDate(habits, id, date)
  {
    var k := FindIndex(habits, id);
    MapHabitKeepsIds(habits, id, h => WithoutDate(h, date));
    MapHabitKeepsIds(habits, id, h => WithDate(h, date));
    assert IsFirstWithId(ClearDate(habits, id, date), id, k);
    assert IsFirstWithId(MarkDate(habits, id, date), id, k);
    assert MarkDate(habits, id, date)[k].completions == habits[k].completions + [date];
  }

  /**
   * Marking a date that no habit with the id lists, then clearing it,
   * restores the list exactly.
   */
  lemma MarkThenClearRestores(habits: seq<Habit>, id: HabitId, date: Day)
    requires forall h :: h in habits && h.id == id ==> date !in h.completions
    ensures ClearDate(MarkDate(habits, id, date), id, date) == habits
  {
    var r := ClearDate(MarkDate(habits, id, date), id, date);
    forall k | 0 <= k < |habits| ensures r[k] == habits[k] {
      if habits[k].id == id {
        var c := habits[k].completions;
        assert habits[k] in habits;
        RemoveAllAppend(c, [date], date);
        RemoveAllAbsent(c, date);
        assert RemoveAll([date], date) == [];
      }
    }
  }

  /**
   * Clearing a date and marking it again gives every habit with the id the
   * same set of completion dates as before (the date moves to the end).
   */
  lemma ClearThenMarkKeepsDateSet(habits: seq<Habit>, id: HabitId, date: Day)
    requires forall h :: h in habits && h.id == id ==> date in h.completions
    ensures var r := MarkDate(ClearDate(habits, id, date), id, date);
      |r| == |habits|
      && forall k :: 0 <= k < |habits| ==> DateSet(r[k].completions) == DateSet(habits[k].completions)
  {
    var r := MarkDate(ClearDate(habits, id, date), id, date);
    forall k | 0 <= k < |habits|
      ensures DateSet(r[k].completions) == DateSet(habits[k].completions)
    {
      if habits[k].id == id {
        assert habits[k] in habits;
        var c := habits[k].completions;
        forall x ensures x in RemoveAll(c, date) + [date] <==> x in c {
          if x != date {
            assert multiset(RemoveAll(c, date))[x] == multiset(c)[x];
          }
        }
      }
    }
  }

  /** After the re-fetch, `getCurrentStreak` reports the server's value. */
  lemma StreakAfterRefetch(habits: seq<Habit>, id: HabitId, n: nat)
    requires HasId(habits, id)
    ensures GetCurrentStreak(WithStreak(habits, id, n), id) == n
  {
    var k := FindIndex(habits, id);
    MapHabitKeepsIds(habits, id, (h: Habit) => h.(streakCount := n));
    assert IsFirstWithId(WithStreak(habits, id, n), id, k);
  }

  // ---------------------------------------------------------------------
  // Adding a habit

  /**
   * The checks `addHabit` makes, in order, before any remote call: a signed-in
   * user, a name that is not blank, and the free-plan quota.
   */
  function AddHabitCheck(user: Option<User>, name: string, count: nat): (r: Option<Error>)
    ensures r == Some(NotAuthenticated) <==> user.None?
    ensures user.Some? ==> (r == Some(EmptyName) <==> AllWhitespace(name))
    ensures r == Some(FreePlanLimit) <==>
      user.Some? && !AllWhitespace(name) && !user.value.isPremium && count >= FreePlanHabitLimit
    ensures r.None? <==>
      user.Some? && !AllWhitespace(name) && (user.value.isPremium || count < FreePlanHabitLimit)
    ensures r.None? || r == Some(NotAuthenticated) || r == Some(EmptyName) || r == Some(FreePlanLimit)
  {
    TrimEmptyIffAllWhitespace(name);
    if user.None? then Some(NotAuthenticated)
    else if Trim(name) == [] then Some(EmptyName)
    else if !user.value.isPremium && count >= FreePlanHabitLimit then Some(FreePlanLimit)
    else None
  }

  /** A premium user is never stopped by the habit count. */
  lemma PremiumNeverLimited(user: User, name: string, count: nat)
    requires user.isPremium && !AllWhitespace(name)
    ensures AddHabitCheck(Some(user), name, count).None?
  {
  }

  /** The insert `addHabit` sends: the name and description trimmed. */
  function NewHabitPayload(user: User, name: string, description: Option<string>, category: Option<string>): (p: HabitInsert)
    ensures p.userId == user.id && p.category == category
    ensures p.name == Trim(name) && IsTrimmed(p.name)
    ensures !AllWhitespace(name) ==> p.name != []
    ensures description.None? ==> p.description.None?
    ensures description.Some? ==> p.description == Some(Trim(description.value))
  {
    TrimEmptyIffAllWhitespace(name);
    HabitInsert(user.id, Trim(name),
      if description.Some? then Some(Trim(description.value)) else None,
      category)
  }

  /** The habit `addHabit` puts in front of the list: no completions, streak 0. */
  function NewHabit(row: HabitRow): (h: Habit)
    ensures h.id == row.id && h.name == row.name && h.createdAt == row.createdAt
    ensures h.completions == [] && h.streakCount == 0
    ensures h.description == NonEmpty(row.description) && h.category == NonEmpty(row.category)
  {
    Habit(row.id, row.name, NonEmpty(row.description), row.createdAt, [], 0, NonEmpty(row.category))
  }

  // ---------------------------------------------------------------------
  // Loading

  /** The dates of the rows of one habit, in row order. */
  function DatesOf(rows: seq<CompletionRow>, id: HabitId): seq<Day> {
    if rows == [] then []
    else
      var last := rows[|rows| - 1];
      DatesOf(rows[..|rows| - 1], id) + (if last.habitId == id then [last.date] else [])
  }

  /** The habit built from a fetched row and that habit's completion dates. */
  function LoadedHabit(row: HabitRow, completions: seq<Day>): (h: Habit)
    ensures h.id == row.id && h.name == row.name && h.createdAt == row.createdAt
    ensures h.completions == completions && h.streakCount == row.streakCount
    ensures h.description == NonEmpty(row.description) && h.category == NonEmpty(row.category)
  {
    Habit(row.id, row.name, NonEmpty(row.description), row.createdAt,
      completions, row.streakCount, NonEmpty(row.category))
  }

  /**
   * The `forEach` that groups completion rows by habit id: every habit id
   * that has rows maps to that habit's dates in row order; the others are
   * absent.
   */
  method GroupByHabit(rows: seq<CompletionRow>) returns (byHabit: map<HabitId, seq<Day>>)
    ensures forall id :: id in byHabit ==> byHabit[id] == DatesOf(rows, id) && byHabit[id] != []
    ensures forall id :: id !in byHabit ==> DatesOf(rows, id) == []
  {
    byHabit := map[];
    for i := 0 to |rows|
      invariant forall id :: id in byHabit ==> byHabit[id] == DatesOf(rows[..i], id) && byHabit[id] != []
      invariant forall id :: id !in byHabit ==> DatesOf(rows[..i], id) == []
    {
      assert rows[..i + 1][..i] == rows[..i];
      var row := rows[i];
      if row.habitId !in byHabit {
        byHabit := byHabit[row.habitId := []];
      }
      byHabit := byHabit[row.habitId := byHabit[row.habitId] + [row.date]];
    }
    assert rows[..|rows|] == rows;
  }

  // ---------------------------------------------------------------------
  // The store

  class HabitStore {
    var user: Option<User>
    var habits: seq<Habit>
    var loadingHabits: bool

    constructor (user: Option<User>)
      ensures this.user == user && habits == [] && loadingHabits
    {
      this.user := user;
      habits := [];
      loadingHabits := true;
    }

    /**
     * The load effect.  With no user nothing happens.  Otherwise the habit
     * rows are fetched (newest first), then the completion rows; on success
     * every habit, in fetched order, gets its own dates in row order (none
     * when it has no row).  On either failure the list is kept.  Loading
     * ends either way.
     */
    method Load(habitRows: Result<seq<HabitRow>, Error>, completionRows: Result<seq<CompletionRow>, Error>)
      returns (calls: seq<RemoteCall>)
      modifies this`habits, this`loadingHabits
      ensures old(user).None? ==> calls == [] && habits == old(habits) && loadingHabits == old(loadingHabits)
      ensures user.Some? ==> !loadingHabits
      ensures user.Some? && habitRows.Failure? ==>
        calls == [SelectHabits(user.value.id)] && habits == old(habits)
      ensures user.Some? && habitRows.Success? ==>
        calls == [SelectHabits(user.value.id), SelectCompletions(user.value.id)]
      ensures user.Some? && habitRows.Success? && completionRows.Failure? ==> habits == old(habits)
      ensures user.Some? && habitRows.Success? && completionRows.Success? ==>
        |habits| == |habitRows.value|
        && forall k :: 0 <= k < |habits| ==>
          habits[k] == LoadedHabit(habitRows.value[k], DatesOf(completionRows.value, habitRows.value[k].id))
    {
      calls := [];
      if user.None? {
        return;
      }
      var uid := user.value.id;
      calls := [SelectHabits(uid)];
      if habitRows.Failure? {
        loadingHabits := false;
        return;
      }
      calls := calls + [SelectCompletions(uid)];
      if completionRows.Failure? {
        loadingHabits := false;
        return;
      }
      var byHabit := GroupByHabit(completionRows.value);
      var rows := habitRows.value;
      habits := seq(|rows|, k requires 0 <= k < |rows| =>
        LoadedHabit(rows[k], if rows[k].id in byHabit then byHabit[rows[k].id] else []));
      loadingHabits := false;
    }

    /**
     * `addHabit`: the three checks come first and issue no remote call; then
     * the insert, and on its success the new habit is put in front of the
     * list.  A failed insert is rethrown with the list kept.
     */
    method AddHabit(name: string, description: Option<string>, category: Option<string>,
                    inserted: Result<HabitRow, Error>)
      returns (r: Outcome<Error>, calls: seq<RemoteCall>)
      modifies this`habits
      ensures var check := AddHabitCheck(user, name, |old(habits)|);
        && (check.Some? ==> r == Fail(check.value) && calls == [] && habits == old(habits))
        && (check.None? ==> calls == [InsertHabit(NewHabitPayload(user.value, name, description, category))])
        && (check.None? && inserted.Failure? ==> r == Fail(inserted.error) && habits == old(habits))
        && (check.None? && inserted.Success? ==> r == Pass && habits == [NewHabit(inserted.value)] + old(habits))
    {
      var check := AddHabitCheck(user, name, |habits|);
      if check.Some? {
        return Fail(check.value), [];
      }
      calls := [InsertHabit(NewHabitPayload(user.value, name, description, category))];
      if inserted.Failure? {
        return Fail(inserted.error), calls;
      }
      habits := [NewHabit(inserted.value)] + habits;
      r := Pass;
    }

    /**
     * `removeHabit`: the remote delete first; only when it succeeds is every
     * habit with the id filtered out of the list.
     */
    method RemoveHabit(id: HabitId, deleted: Outcome<Error>) returns (r: Outcome<Error>, calls: seq<RemoteCall>)
      modifies this`habits
      ensures user.None? ==> r == Fail(NotAuthenticated) && calls == [] && habits == old(habits)
      ensures user.Some? ==> calls == [DeleteHabit(id, user.value.id)]
      ensures user.Some? && deleted.Fail? ==> r == deleted && habits == old(habits)
      ensures user.Some? && deleted.Pass? ==> r == Pass && habits == RemoveHabitLocally(old(habits), id)
    {
      if user.None? {
        return Fail(NotAuthenticated), [];
      }
      calls := [DeleteHabit(id, user.value.id)];
      if deleted.Fail? {
        return deleted, calls;
      }
      habits := RemoveHabitLocally(habits, id);
      r := Pass;
    }

    /**
     * `toggleHabitCompletion`: a delete of the (habit, date) completion when
     * the habit is completed on that date, an insert otherwise; on success the
     * date is removed from (or appended to) the habit's completions, then the
     * streak count is re-fetched and written over the local one.  A failed
     * write leaves the list as it was; a failed re-fetch keeps the completion
     * change and the old streak count.  Both failures are rethrown.
     */
    method ToggleHabitCompletion(habitId: HabitId, date: Day, written: Outcome<Error>, refetched: Result<nat, Error>)
      returns (r: Outcome<Error>, calls: seq<RemoteCall>)
      modifies this`habits
      ensures user.None? ==> r == Fail(NotAuthenticated) && calls == [] && habits == old(habits)
      ensures user.Some? ==>
        var write := ToggleWrite(old(habits), habitId, user.value.id, date);
        var changed := LocalToggle(old(habits), habitId, date);
        && (written.Fail? ==> r == written && calls == [write] && habits == old(habits))
        && (written.Pass? ==> calls == [write, SelectStreak(habitId)])
        && (written.Pass? && refetched.Failure? ==> r == Fail(refetched.error) && habits == changed)
        && (written.Pass? && refetched.Success? ==>
              r == Pass && habits == WithStreak(changed, habitId, refetched.value))
    {
      if user.None? {
        return Fail(NotAuthenticated), [];
      }
      calls := [ToggleWrite(habits, habitId, user.value.id, date)];
      if written.Fail? {
        return written, calls;
      }
      habits := LocalToggle(habits, habitId, date);
      calls := calls + [SelectStreak(habitId)];
      if refetched.Failure? {
        return Fail(refetched.error), calls;
      }
      habits := WithStreak(habits, habitId, refetched.value);
      r := Pass;
    }
  }
}
