/**
 * The habit service: single calls against the remote `habits` and
 * `habit_completions` tables, each of which turns a failure into a default
 * value (`null`, an empty list, `false`) except the completion toggle, which
 * rethrows.
 *
 * The two tables are the state of a class.  `habits` is kept newest first,
 * the order in which the service reads it back; `completions` is a set of
 * (habit, user, date) rows, so the table's unique key can never be
 * duplicated.  What the authentication call and each remote step answer
 * besides the table contents (a session error, a network error) is given as
 * a parameter.
 */
module HabitService {
  import opened Results
  import opened CalendarDates
  import opened Sequences

  type UserId = string

  datatype HabitRecord = HabitRecord(
    id: HabitId,
    name: string,
    description: Option<string>,
    category: Option<string>,
    streakCount: nat,
    createdAt: string,
    userId: UserId)

  datatype CompletionRow = CompletionRow(habitId: HabitId, userId: UserId, date: Day)

  datatype Error =
    | NotAuthenticated
    | NoRows            // PostgREST code PGRST116: a single-row select matched no row
    | UniqueViolation   // an insert of a (habit, user, date) row that exists
    | Remote(message: string)

  /** The answer of `supabase.auth.getUser()`: an error, or a user that may be missing. */
  type AuthAnswer = Result<Option<UserId>, Error>

  /** The fields `updateHabit` may set; a missing field is left as it is. */
  datatype HabitUpdate = HabitUpdate(
    name: Option<string>,
    description: Option<Option<string>>,
    category: Option<Option<string>>)

  /** The user id the service acts for, or the error it throws without one. */
  function SignedInUser(auth: AuthAnswer): (r: Result<UserId, Error>)
    ensures auth.Failure? ==> r == Failure(auth.error)
    ensures auth == Success(None) ==> r == Failure(NotAuthenticated)
    ensures r.Success? <==> auth.Success? && auth.value.Some?
    ensures r.Success? ==> r.value == auth.value.value
  {
    match auth
    case Failure(e) => Failure(e)
    case Success(None) => Failure(NotAuthenticated)
    case Success(Some(u)) => Success(u)
  }

  /** The row `createHabit` inserts: streak 0, empty texts as null. */
  function NewRecord(id: HabitId, userId: UserId, name: string, description: Option<string>,
                     category: Option<string>, createdAt: string): (h: HabitRecord)
    ensures h.id == id && h.userId == userId && h.name == name && h.createdAt == createdAt
    ensures h.streakCount == 0
    ensures h.description == NonEmpty(description) && h.category == NonEmpty(category)
  {
    HabitRecord(id, name, NonEmpty(description), NonEmpty(category), 0, createdAt, userId)
  }

  /** The row after `update(updates)`: the given fields replaced, all others kept. */
  function ApplyUpdate(h: HabitRecord, u: HabitUpdate): (r: HabitRecord)
    ensures r.id == h.id && r.userId == h.userId && r.streakCount == h.streakCount && r.createdAt == h.createdAt
    ensures r.name == if u.name.Some? then u.name.value else h.name
    ensures r.description == if u.description.Some? then u.description.value else h.description
    ensures r.category == if u.category.Some? then u.category.value else h.category
  {
    h.(name := if u.name.Some? then u.name.value else h.name,
       description := if u.description.Some? then u.description.value else h.description,
       category := if u.category.Some? then u.category.value else h.category)
  }

  /** The table after a toggle of one key: the row removed if present, added if absent. */
  function Toggled(rows: set<CompletionRow>, key: CompletionRow): (r: set<CompletionRow>)
    ensures key in r <==> key !in rows
    ensures forall c :: c != key ==> (c in r <==> c in rows)
  {
    if key in rows then rows - {key} else rows + {key}
  }

  /** Two successive successful toggles of the same key leave the table as it was. */
  lemma ToggleTwiceRestores(rows: set<CompletionRow>, key: CompletionRow)
    ensures Toggled(Toggled(rows, key), key) == rows
  {
    var twice := Toggled(Toggled(rows, key), key);
    assert forall c :: c in twice <==> c in rows;
  }

  /** The habits of one user, in table order. */
  function OwnedBy(habits: seq<HabitRecord>, userId: UserId): (r: seq<HabitRecord>)
    ensures forall h :: h in r <==> h in habits && h.userId == userId
    ensures |r| <= |habits|
  {
    Filter(habits, (h: HabitRecord) => h.userId == userId)
  }

  /** Ownership filtering keeps table order: it distributes over concatenation. */
  lemma OwnedByKeepsOrder(a: seq<HabitRecord>, b: seq<HabitRecord>, userId: UserId)
    ensures OwnedBy(a + b, userId) == OwnedBy(a, userId) + OwnedBy(b, userId)
  {
    FilterAppend(a, b, (h: HabitRecord) => h.userId == userId);
  }

  /** No two rows share an id. */
  predicate UniqueIds(habits: seq<HabitRecord>) {
    forall i, j :: 0 <= i < j < |habits| ==> habits[i].id != habits[j].id
  }

  /** Filtering a table whose ids are unique leaves them unique. */
  lemma {:induction false} FilterKeepsUniqueIds(habits: seq<HabitRecord>, keep: HabitRecord -> bool)
    requires UniqueIds(habits)
    ensures UniqueIds(Filter(habits, keep))
  {
    if habits != [] {
      var rest := habits[1..];
      assert UniqueIds(rest);
      FilterKeepsUniqueIds(rest, keep);
      forall h | h in Filter(rest, keep) ensures h.id != habits[0].id {
        var j :| 0 <= j < |rest| && rest[j] == h;
        assert habits[j + 1] == h;
      }
    }
  }

  /** The table after `delete().eq('id', id)`: every row with that id gone, the rest in order. */
  function WithoutHabit(habits: seq<HabitRecord>, id: HabitId): (r: seq<HabitRecord>)
    ensures forall h :: h in r <==> h in habits && h.id != id
    ensures UniqueIds(habits) ==> UniqueIds(r)
  {
    assert UniqueIds(habits) ==> UniqueIds(Filter(habits, (h: HabitRecord) => h.id != id)) by {
      if UniqueIds(habits) {
        FilterKeepsUniqueIds(habits, (h: HabitRecord) => h.id != id);
      }
    }
    Filter(habits, (h: HabitRecord) => h.id != id)
  }

  /** Deleting keeps the order of the remaining rows: it distributes over concatenation. */
  lemma WithoutHabitKeepsOrder(a: seq<HabitRecord>, b: seq<HabitRecord>, id: HabitId)
    ensures WithoutHabit(a + b, id) == WithoutHabit(a, id) + WithoutHabit(b, id)
  {
    FilterAppend(a, b, (h: HabitRecord) => h.id != id);
  }

  /** The position of the first row with that id, or -1 when there is none. */
  function IndexOf(habits: seq<HabitRecord>, id: HabitId): (k: int)
    ensures -1 <= k < |habits|
    ensures k >= 0 ==> habits[k].id == id
    ensures k >= 0 ==> forall j :: 0 <= j < k ==> habits[j].id != id
    ensures k == -1 <==> forall j :: 0 <= j < |habits| ==> habits[j].id != id
  {
    FirstIndex(habits, (h: HabitRecord) => h.id == id)
  }

  /** The rows `getHabitCompletions` selects: that habit, that user, start <= date <= end. */
  predicate InRange(c: CompletionRow, habitId: HabitId, userId: UserId, start: Day, end: Day) {
    c.habitId == habitId && c.userId == userId && start <= c.date <= end
  }

  predicate Distinct(rows: seq<CompletionRow>) {
    forall i, j :: 0 <= i < j < |rows| ==> rows[i] != rows[j]
  }

  class HabitService {
    var habits: seq<HabitRecord>
    var completions: set<CompletionRow>

    /** Habit ids are the table's primary key. */
    ghost predicate Valid()
      reads this
    {
      UniqueIds(habits)
    }

    constructor ()
      ensures Valid() && habits == [] && completions == {}
    {
      habits := [];
      completions := {};
    }

    predicate HasHabit(id: HabitId)
      reads this
    {
      exists k :: 0 <= k < |habits| && habits[k].id == id
    }

    /**
     * `createHabit`: without a user, on an insert failure, or when the id is
     * taken (the primary key), it yields null and changes nothing; otherwise
     * the new row, with streak 0, becomes the newest habit.
     */
    method CreateHabit(auth: AuthAnswer, newId: HabitId, createdAt: string, name: string,
                       description: Option<string>, category: Option<string>, fault: Option<Error>)
      returns (r: Option<HabitRecord>)
      requires Valid()
      modifies this`habits
      ensures Valid()
      ensures SignedInUser(auth).Failure? || fault.Some? || old(HasHabit(newId)) ==>
        r.None? && habits == old(habits)
      ensures SignedInUser(auth).Success? && fault.None? && !old(HasHabit(newId)) ==>
        var h := NewRecord(newId, SignedInUser(auth).value, name, description, category, createdAt);
        r == Some(h) && habits == [h] + old(habits)
    {
      var user := SignedInUser(auth);
      if user.Failure? || fault.Some? || HasHabit(newId) {
        return None;
      }
      var h := NewRecord(newId, user.value, name, description, category, createdAt);
      habits := [h] + habits;
      r := Some(h);
    }

    /** `getUserHabits`: the user's habits newest first, or `[]` on any failure. */
    method GetUserHabits(auth: AuthAnswer, fault: Option<Error>) returns (r: seq<HabitRecord>)
      ensures SignedInUser(auth).Failure? || fault.Some? ==> r == []
      ensures SignedInUser(auth).Success? && fault.None? ==>
        r == OwnedBy(habits, SignedInUser(auth).value)
      ensures forall h :: h in r ==> h in habits && auth.Success? && auth.value == Some(h.userId)
    {
      var user := SignedInUser(auth);
      if user.Failure? || fault.Some? {
        return [];
      }
      r := OwnedBy(habits, user.value);
    }

    /**
     * `toggleHabitCompletion`: looks up today's row for (habit, user); a
     * "no rows" answer counts as absent and any other lookup error is
     * rethrown.  A present row is deleted and `false` returned; otherwise one
     * row is inserted and `true` returned.  Any delete or insert error is
     * rethrown with the table unchanged; an insert of a row that exists
     * (a "no rows" answer that raced with another insert) fails on the
     * table's unique key.
     */
    method ToggleHabitCompletion(auth: AuthAnswer, habitId: HabitId, today: Day,
                                 lookupFault: Option<Error>, writeFault: Option<Error>)
      returns (r: Result<bool, Error>)
      modifies this`completions
      ensures SignedInUser(auth).Failure? ==>
        r == Failure(SignedInUser(auth).error) && completions == old(completions)
      ensures SignedInUser(auth).Success? ==>
        var key := CompletionRow(habitId, SignedInUser(auth).value, today);
        && (lookupFault.Some? && lookupFault.value != NoRows ==>
              r == Failure(lookupFault.value) && completions == old(completions))
        && (lookupFault.None? || lookupFault == Some(NoRows) ==>
              && (writeFault.Some? ==> r == Failure(writeFault.value) && completions == old(completions))
              && (writeFault.None? && lookupFault.None? ==>
                    r == Success(key !in old(completions)) && completions == Toggled(old(completions), key))
              && (writeFault.None? && lookupFault == Some(NoRows) && key !in old(completions) ==>
                    r == Success(true) && completions == old(completions) + {key})
              && (writeFault.None? && lookupFault == Some(NoRows) && key in old(completions) ==>
                    r == Failure(UniqueViolation) && completions == old(completions)))
        && (r.Failure? ==> completions == old(completions))
        && (r.Success? ==> completions == Toggled(old(completions), key) && r.value == (key in completions))
        && (lookupFault.None? && writeFault.None? ==> r.Success?)
    {
      var user := SignedInUser(auth);
      if user.Failure? {
        return Failure(user.error);
      }
      var key := CompletionRow(habitId, user.value, today);
      if lookupFault.Some? && lookupFault.value != NoRows {
        return Failure(lookupFault.value);
      }
      var existing := lookupFault.None? && key in completions;
      if existing {
        if writeFault.Some? {
          return Failure(writeFault.value);
        }
        completions := completions - {key};
        return Success(false);
      } else {
        if writeFault.Some? {
          return Failure(writeFault.value);
        }
        if key in completions {
          return Failure(UniqueViolation);
        }
        completions := completions + {key};
        return Success(true);
      }
    }

    /**
     * `getHabitCompletions`: every row of that habit and user dated from
     * `start` to `end`, both inclusive, each once; `[]` on any failure.
     */
    method GetHabitCompletions(auth: AuthAnswer, habitId: HabitId, start: Day, end: Day, fault: Option<Error>)
      returns (r: seq<CompletionRow>)
      ensures SignedInUser(auth).Failure? || fault.Some? ==> r == []
      ensures SignedInUser(auth).Success? && fault.None? ==>
        forall c :: c in r <==> c in completions && InRange(c, habitId, SignedInUser(auth).value, start, end)
      ensures Distinct(r)
    {
      var user := SignedInUser(auth);
      if user.Failure? || fault.Some? {
        return [];
      }
      var pending := set c | c in completions && InRange(c, habitId, user.value, start, end);
      r := [];
      while pending != {}
        invariant forall c :: c in r || c in pending <==> c in completions && InRange(c, habitId, user.value, start, end)
        invariant forall c :: c in r ==> c !in pending
        invariant Distinct(r)
        decreases pending
      {
        var c :| c in pending;
        r := r + [c];
        pending := pending - {c};
      }
    }

    /**
     * `deleteHabit`: `true` exactly when the delete succeeded, with the
     * habit gone; `false` and nothing changed otherwise.  An unknown id is a
     * successful delete of nothing.
     */
    method DeleteHabit(habitId: HabitId, fault: Option<Error>) returns (ok: bool)
      requires Valid()
      modifies this`habits
      ensures Valid()
      ensures ok <==> fault.None?
      ensures !ok ==> habits == old(habits)
      ensures ok ==> habits == WithoutHabit(old(habits), habitId) && !HasHabit(habitId)
    {
      if fault.Some? {
        return false;
      }
      habits := WithoutHabit(habits, habitId);
      ok := true;
    }

    /**
     * `updateHabit`: the updated row, or null when the update fails or no
     * habit has the id (the single-row select finds nothing).
     */
    method UpdateHabit(habitId: HabitId, updates: HabitUpdate, fault: Option<Error>) returns (r: Option<HabitRecord>)
      requires Valid()
      modifies this`habits
      ensures Valid()
      ensures fault.Some? || !old(HasHabit(habitId)) ==> r.None? && habits == old(habits)
      ensures fault.None? && old(HasHabit(habitId)) ==>
        exists k :: 0 <= k < |old(habits)| && old(habits)[k].id == habitId
          && r == Some(ApplyUpdate(old(habits)[k], updates))
          && habits == old(habits)[k := r.value]
    {
      if fault.Some? {
        return None;
      }
      var k := IndexOf(habits, habitId);
      if k == -1 {
        return None;
      }
      var h := ApplyUpdate(habits[k], updates);
      habits := habits[k := h];
      r := Some(h);
    }
  }
}
