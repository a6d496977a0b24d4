# Habit tracker core, modelled in Dafny

This project models the logic at the heart of a habit-tracking web
application.

- **The habit store** (`HabitContext`): the signed-in user's ordered list of habits. Each habit has its completion dates and a streak count derived by the server. The store loads, adds, removes and toggles completions against a remote database, and answers three queries.
- **The habit service** (`HabitService`): single calls against the remote `habits` and `habit_completions` tables. The centrepiece is the check-then-toggle of today's completion row.
- **The habit calendar** (`HabitCalendar`): how each day of the displayed month is classified, the guard on clicks, and month navigation.
- **The month calendar** (`MonthCalendar`): a habit → date → completed dictionary that is refilled for a month and flipped per click.
- **The dashboard figures** (`Dashboard`): the tab filters, the completed-today count, the highest streak and the free-plan notice.
- **The navigation bar's avatar initials** (`DashboardNavbar`).

Calendar dates are day ordinals of the proleptic Gregorian calendar
(`CalendarDates`). The code compares `YYYY-MM-DD` strings, which are ISO 8601
complete calendar dates in extended format (ISO 8601, section 5.2.1.1).
`CalendarDates.IsoOrderIsChronological` proves that, for four-digit years, the
string order and string equality of these dates are exactly the order and
equality of their ordinals. That is why the other modules compare ordinals.

The remote database is an abstract collaborator:

- In the store, each method takes the remote's answers as parameters. It returns the list of remote calls it issued, and changes local state only after the call it depends on has succeeded.
- In the service, the two tables are the fields of a class: `habits` is a sequence kept newest first, and `completions` is a set of rows. An authentication answer and a per-step fault are parameters.

Files:

- `sequences.dfy`: the generic `filter` and first-index search that the store, the service, the dashboard and the navigation bar share.
- `results.dfy`: the `Option`, `Result` and `Outcome` wrappers, and the rule that turns an empty text into a missing one.
- `calendar_dates.dfy`
- `habit_context.dfy`
- `habit_service.dfy`
- `habit_calendar.dfy`
- `month_calendar.dfy`
- `dashboard.dfy`
- `dashboard_navbar.dfy`

What the code does, and the model with it:

- The store has no optimistic update and no rollback. Local state changes only after a remote success.
- The store raises no conflict error on a duplicate completion.
- Removing an unknown habit is not a not-found error. The list is simply left unchanged.
- The store has no future-date validation. Only the calendar's click guard refuses future days.
- The streak count is never computed from dates. It is whatever natural number the server reports.

## Model

| member | source | states |
|---|---|---|
| HabitContext.Trim | src/context/HabitContext.tsx:119 | `trim` returns the slice of the name left after cutting whitespace, and only whitespace, from its two ends; the result has no whitespace at either end |
| HabitContext.TrimEmptyIffAllWhitespace | src/context/HabitContext.tsx:119 | `!name.trim()` holds exactly when every character of the name is whitespace |
| Results.NonEmpty | src/context/HabitContext.tsx:93 | `x \|\| undefined` (and `x \|\| null` in the service) is missing exactly for a missing or empty text, otherwise the text itself |
| Sequences.Filter | src/context/HabitContext.tsx:181 | `filter` keeps exactly the elements that pass, never more than the list |
| Sequences.FilterAppend | src/context/HabitContext.tsx:181 | filtering distributes over concatenation, so relative order is kept |
| Sequences.FilterAll | src/pages/Dashboard.tsx:30 | a filter every element passes gives the list back unchanged |
| Sequences.FilterCount | src/context/HabitContext.tsx:218 | an element that passes keeps its number of occurrences; one that fails has none |
| Sequences.FirstIndex | src/context/HabitContext.tsx:288 | the first position whose element passes, or -1 exactly when none does |
| HabitContext.FindIndex | src/context/HabitContext.tsx:288 | `find` yields the position of the first habit with the id, or -1 exactly when no habit has it |
| HabitContext.GetHabitById | src/context/HabitContext.tsx:299-301 | the first habit with the id; nothing exactly when the id is unknown; whichever first position is named, the result is the habit there |
| HabitContext.IsHabitCompletedOnDate | src/context/HabitContext.tsx:287-290 | true exactly when the first habit with the id lists the date; false for an unknown id |
| HabitContext.GetCurrentStreak | src/context/HabitContext.tsx:293-296 | the first such habit's streak count; 0 for an unknown id |
| HabitContext.MapHabit | src/context/HabitContext.tsx:213-224 | every habit with the id is transformed, every other habit is kept, positions and length unchanged |
| HabitContext.RemoveAll | src/context/HabitContext.tsx:218 | the date no longer occurs, and every other date keeps its number of occurrences |
| HabitContext.RemoveAllAbsent | src/context/HabitContext.tsx:218 | filtering out a date that does not occur changes nothing |
| HabitContext.RemoveAllAppend | src/context/HabitContext.tsx:218 | filtering out a date distributes over concatenation, so order is kept |
| HabitContext.RemoveHabitLocally | src/context/HabitContext.tsx:181 | afterwards no habit has the id, and the remaining habits are exactly the others |
| HabitContext.RemoveHabitKeepsOrder | src/context/HabitContext.tsx:181 | removal distributes over concatenation, so the others keep their relative order |
| HabitContext.RemoveUnknownHabit | src/context/HabitContext.tsx:181 | removing an id no habit has leaves the list as it was |
| HabitContext.ClearDate | src/context/HabitContext.tsx:213-224 | every habit with the id loses every occurrence of the date and nothing else; every other habit is kept; the length is unchanged |
| HabitContext.MarkDate | src/context/HabitContext.tsx:240-252 | every habit with the id gets the date appended and nothing else; every other habit is kept; the length is unchanged |
| HabitContext.WithStreak | src/context/HabitContext.tsx:267-277 | every habit with the id takes the re-fetched streak and nothing else; every other habit is kept |
| HabitContext.ToggleWrite | src/context/HabitContext.tsx:199-237 | the remote write is a delete exactly when the habit is completed on the date, an insert otherwise |
| HabitContext.LocalToggle | src/context/HabitContext.tsx:201-252 | only habits with the id change, and with no habit of that id the list is unchanged |
| HabitContext.MapHabitKeepsIds | src/context/HabitContext.tsx:214-223 | updates that keep ids keep every id and the first position of each |
| HabitContext.ToggleFlipsCompletion | src/context/HabitContext.tsx:199-252 | after the local update of a toggle (clearing a completed date, marking an uncompleted one), the habit is completed on the date exactly when it was not before |
| HabitContext.MarkThenClearRestores | src/context/HabitContext.tsx:199-252 | appending an absent date and then toggling it off restores the list exactly |
| HabitContext.ClearThenMarkKeepsDateSet | src/context/HabitContext.tsx:199-252 | toggling a present date off and on again keeps every habit's set of dates |
| HabitContext.StreakAfterRefetch | src/context/HabitContext.tsx:257-277 | after the re-fetch is written, `getCurrentStreak` reports the server's value |
| HabitContext.AddHabitCheck | src/context/HabitContext.tsx:114-128 | checks in order: "not authenticated" exactly without a user, then a blank name, then a non-premium user with at least 5 habits; it passes exactly for a signed-in user with a non-blank name who is premium or has fewer than 5 habits |
| HabitContext.PremiumNeverLimited | src/context/HabitContext.tsx:125 | a premium user with a non-blank name passes whatever the count |
| HabitContext.NewHabitPayload | src/context/HabitContext.tsx:133-138 | the insert carries the user id, the name trimmed (non-empty for a non-blank name), the description trimmed when given and missing otherwise, and the category |
| HabitContext.NewHabit | src/context/HabitContext.tsx:145-153 | the new habit has the row's id, name and date, no completions, streak 0, and empty texts as missing |
| HabitContext.LoadedHabit | src/context/HabitContext.tsx:90-98 | a loaded habit has the row's id, name, date and streak, the given completions, and empty texts as missing |
| HabitContext.GroupByHabit | src/context/HabitContext.tsx:81-87 | every habit id with rows maps to its dates in row order; ids without rows are absent |
| HabitContext.HabitStore.constructor | src/context/HabitContext.tsx:46-47 | the store starts with no habits and loading |
| HabitContext.HabitStore.Load | src/context/HabitContext.tsx:50-110 | with no user, nothing happens. On success, every fetched habit, in fetched order, gets its own dates in row order (none without rows). On either failure the list is kept. Loading ends either way |
| HabitContext.HabitStore.AddHabit | src/context/HabitContext.tsx:113-163 | a failed check issues no remote call and changes nothing; a failed insert is rethrown with the list kept; success prepends the new habit to the unchanged list |
| HabitContext.HabitStore.RemoveHabit | src/context/HabitContext.tsx:166-189 | no user, or a failed delete, leaves the list unchanged and reports the error; success removes the habit locally |
| HabitContext.HabitStore.ToggleHabitCompletion | src/context/HabitContext.tsx:192-284 | a delete when completed, an insert otherwise. A failed write changes nothing. After a successful write the date is removed or appended, then the re-fetched streak is written. A failed re-fetch keeps the date change and the old streak |
| HabitService.SignedInUser | src/services/habitService.ts:26-29 | an auth error is rethrown and a missing user is "not authenticated"; otherwise the user's id |
| HabitService.NewRecord | src/services/habitService.ts:31-39 | the inserted row has streak 0, the user's id, and empty texts as null |
| HabitService.ApplyUpdate | src/services/habitService.ts:176 | the given fields are replaced, every other field is kept |
| HabitService.Toggled | src/services/habitService.ts:99-121 | the key is present afterwards exactly when it was absent before; other rows are untouched |
| HabitService.ToggleTwiceRestores | src/services/habitService.ts:99-121 | two successive toggles of the same key leave the table as it was |
| HabitService.OwnedBy | src/services/habitService.ts:60-64 | exactly the user's habits |
| HabitService.OwnedByKeepsOrder | src/services/habitService.ts:60-64 | filtering by user distributes over concatenation, so table order is kept |
| HabitService.FilterKeepsUniqueIds | src/services/habitService.ts:157-160 | filtering a table with unique ids leaves them unique |
| HabitService.WithoutHabit | src/services/habitService.ts:157-160 | exactly the rows with another id remain, and unique ids stay unique |
| HabitService.WithoutHabitKeepsOrder | src/services/habitService.ts:157-160 | deleting distributes over concatenation, so the remaining rows keep their newest-first order |
| HabitService.IndexOf | src/services/habitService.ts:177-179 | the position of the first row with the id, or -1 exactly when there is none |
| HabitService.HabitService.constructor | src/services/habitService.ts:22 | both tables start empty |
| HabitService.HabitService.CreateHabit | src/services/habitService.ts:24-50 | without a user, on a fault, or for a taken id: null and nothing changes. Otherwise the new row, with streak 0, becomes the newest |
| HabitService.HabitService.GetUserHabits | src/services/habitService.ts:53-73 | `[]` on any failure, otherwise exactly the user's habits in table order |
| HabitService.HabitService.ToggleHabitCompletion | src/services/habitService.ts:76-127 | auth errors and lookup errors other than "no rows" are rethrown with the table unchanged. After the lookup, a delete or insert error is rethrown with the table unchanged. Without faults the key is toggled and the result says whether the row exists afterwards. A "no rows" answer counts as absent: the row is inserted and `true` returned, unless it already exists, when the table's unique key refuses it |
| HabitService.HabitService.GetHabitCompletions | src/services/habitService.ts:130-152 | `[]` on any failure, otherwise exactly that habit's and user's rows with start <= date <= end, each once |
| HabitService.HabitService.DeleteHabit | src/services/habitService.ts:155-169 | true exactly when the delete succeeded, and then the table is the old one without that habit's rows, the rest in their order; false and nothing changed otherwise |
| HabitService.HabitService.UpdateHabit | src/services/habitService.ts:172-188 | null and nothing changed on a fault or an unknown id; otherwise that row with the update applied, in place |
| CalendarDates.DaysInMonth | src/components/habits/HabitCalendar.tsx:17-21 | between 28 and 31, and February has 29 days exactly in leap years |
| CalendarDates.DayOrdinal | src/components/habits/HabitCalendar.tsx:17-34 | `new Date(y, m - 1, d)` for any day number: counting on past the month's end into the next month (the next year after December), and back below day 1 into the previous month |
| CalendarDates.DayZeroIsLastDayOfPreviousMonth | src/components/habits/HabitCalendar.tsx:17-21 | day 0 of the next month is the last day of this month, which is how `daysInMonth` is computed |
| CalendarDates.Weekday | src/components/habits/HabitCalendar.tsx:23-27 | `getDay()` lies in 0..6 |
| CalendarDates.WeekdayAfter | src/components/habits/HabitCalendar.tsx:23-27 | n days later the weekday has advanced by n modulo 7 |
| CalendarDates.WeekdayAnchor | src/components/habits/HabitCalendar.tsx:23-27 | 2024-01-01 is a Monday, which anchors weekday 0 to Sunday |
| CalendarDates.PreviousMonth | src/components/habits/HabitCalendar.tsx:29-31 | day 1 of the month that ends exactly where the displayed month starts |
| CalendarDates.NextMonth | src/components/habits/HabitCalendar.tsx:33-35 | day 1 of the month that starts exactly where the displayed month ends |
| CalendarDates.MonthNavigationRoundTrip | src/components/habits/HabitCalendar.tsx:29-35 | previous-then-next and next-then-previous both return to day 1 of the displayed month |
| CalendarDates.OrdinalOrder | src/components/habits/HabitCalendar.tsx:73 | ordinal order and equality are calendar order and equality of valid dates |
| CalendarDates.Iso | src/components/habits/HabitCalendar.tsx:48-52 | a `YYYY-MM-DD` string of ten characters with dashes at positions 4 and 7 |
| CalendarDates.LexLess | src/components/habits/HabitCalendar.tsx:55 | string `<`: never true of equal strings; a proper prefix comes before the longer string, and never after it |
| CalendarDates.TwoDigitsOrder | src/components/habits/HabitCalendar.tsx:55 | zero-padded two-digit strings compare as their numbers |
| CalendarDates.FourDigitsOrder | src/components/habits/HabitCalendar.tsx:55 | zero-padded four-digit strings compare as their numbers |
| CalendarDates.LexLessAppend | src/components/habits/HabitCalendar.tsx:55 | string order on equal-length prefixes decides first, then the rest |
| CalendarDates.IsoOrderIsFieldOrder | src/components/habits/HabitCalendar.tsx:55 | `YYYY-MM-DD` string order is year, then month, then day order |
| CalendarDates.IsoInjective | src/context/HabitContext.tsx:289 | equal `YYYY-MM-DD` strings, as `includes` compares them, denote equal dates |
| CalendarDates.IsoOrderIsChronological | src/components/habits/HabitCalendar.tsx:55 | `YYYY-MM-DD` string order and equality are chronological order and equality |
| HabitCalendar.ClassName | src/components/habits/HabitCalendar.tsx:61-101 | every class starts with `calendar-day`, and only plain today has nothing more |
| HabitCalendar.FirstDayOfMonth | src/components/habits/HabitCalendar.tsx:23-27 | the weekday of day 1 of the displayed month, in 0..6 |
| HabitCalendar.FirstDayOfNextMonth | src/components/habits/HabitCalendar.tsx:23-35 | the next month's grid starts where this one ends, modulo the week |
| HabitCalendar.GetDayClassName | src/components/habits/HabitCalendar.tsx:60-102 | with no selected habit, every day is future; otherwise a day is future exactly when it is after today |
| HabitCalendar.FutureTakesPrecedence | src/components/habits/HabitCalendar.tsx:73-78 | a day after today is future even when it is completed |
| HabitCalendar.StreakIffPreviousDayCompleted | src/components/habits/HabitCalendar.tsx:78-93 | a completed day up to today is a streak day exactly when the previous calendar day is completed (on the 1st, the last day of the previous month), otherwise completed |
| HabitCalendar.UncompletedPastOrToday | src/components/habits/HabitCalendar.tsx:96-101 | an uncompleted day before today is missed; today uncompleted is plain |
| HabitCalendar.HandleDateClick | src/components/habits/HabitCalendar.tsx:45-58 | no toggle exactly with no selected habit or for a day after today; otherwise a toggle of that habit on that day |
| HabitCalendar.ClickIgnoredIffFutureDay | src/components/habits/HabitCalendar.tsx:45-102 | a click does nothing exactly on the days shown as future |
| MonthCalendar.DayRange | src/components/habits/Calendar.tsx:55 | exactly the days of the interval, both ends included |
| MonthCalendar.Marked | src/components/habits/Calendar.tsx:104 | a day with no entry is unmarked (`undefined` is falsy); a day with an entry is marked exactly when it is true |
| MonthCalendar.Refilled | src/components/habits/Calendar.tsx:55-63 | every day of the month is present and true exactly for fetched dates; every fetched date is true; every other entry is as it was |
| MonthCalendar.ResetDays | src/components/habits/Calendar.tsx:55-58 | every day of the month becomes false, every other entry is kept |
| MonthCalendar.MarkDates | src/components/habits/Calendar.tsx:61-63 | every fetched date becomes true, every other entry is kept |
| MonthCalendar.ResetThenMarkRefills | src/components/habits/Calendar.tsx:55-63 | resetting the month and then marking the fetched dates yields the refill |
| MonthCalendar.Refill | src/components/habits/Calendar.tsx:55-63 | the two loops together compute the refill of the month |
| MonthCalendar.Flipped | src/components/habits/Calendar.tsx:90 | the clicked entry is negated (a missing one becomes true), every other entry is kept |
| MonthCalendar.FlipTwiceKeepsMark | src/components/habits/Calendar.tsx:90 | two successful clicks on the same day leave every day marked as before |
| MonthCalendar.RowDates | src/components/habits/Calendar.tsx:61-63 | the date of each fetched row, in order |
| MonthCalendar.MonthShowsStoredCompletions | src/components/habits/Calendar.tsx:41-63 | refilled from the service's answer for the month, a day of the month is marked exactly when the table holds that habit's and user's completion on that day |
| MonthCalendar.MonthCalendar.constructor | src/components/habits/Calendar.tsx:14-16 | no entries, no selection, loading |
| MonthCalendar.MonthCalendar.Entries | src/components/habits/Calendar.tsx:50-52 | the habit's entries, and the empty object when it has none yet |
| MonthCalendar.MonthCalendar.FetchCompletionsForMonth | src/components/habits/Calendar.tsx:33-71 | with no selection nothing changes; otherwise the selected habit's entries become their refill for the month, other habits untouched, and loading ends |
| MonthCalendar.MonthCalendar.Refresh | src/components/habits/Calendar.tsx:19-31 | with no habits loading ends; with none selected the first habit becomes selected (this run fetches nothing); otherwise the month is fetched |
| MonthCalendar.MonthCalendar.HandleDayClick | src/components/habits/Calendar.tsx:73-95 | the callback is called exactly with a selection and a day not after today; only a successful call flips that one entry |
| MonthCalendar.MonthCalendar.DayClassName | src/components/habits/Calendar.tsx:97-115 | empty with no selection or no record; a marked day is completed even on today; the today style exactly for an unmarked today; empty for any other unmarked day |
| Dashboard.Active | src/pages/Dashboard.tsx:21-25 | exactly the habits completed today, never more than the list |
| Dashboard.DoneOn | src/pages/Dashboard.tsx:24 | `completions.includes(today)` is the store's `isHabitCompletedOnDate` for that habit alone |
| Dashboard.Inactive | src/pages/Dashboard.tsx:26-29 | exactly the habits not completed today, never more than the list |
| Dashboard.FilteredHabits | src/pages/Dashboard.tsx:21-31 | "active" holds exactly the habits completed today, "inactive" exactly the others, and any other tab the whole list |
| Dashboard.TabsPartition | src/pages/Dashboard.tsx:21-29 | the two filtering tabs split the list: their multisets add up to the list's, and so do their sizes |
| Dashboard.NewHabitIsNotCompleted | src/pages/Dashboard.tsx:21-29 | a habit just added by the store is under "Not Completed" and leaves "Completed Today" unchanged |
| Dashboard.CompletedToday | src/pages/Dashboard.tsx:44-45 | the size of the "active" tab, at most the number of habits, and 0 exactly when no habit is completed today |
| Dashboard.NotCompletedCount | src/pages/Dashboard.tsx:145 | `habits.length - completedToday` is the size of the "inactive" tab |
| Dashboard.HighestFrom | src/pages/Dashboard.tsx:41 | the fold from an accumulator is at least the accumulator and every streak, and is the accumulator or some streak |
| Dashboard.HighestStreak | src/pages/Dashboard.tsx:41 | at least every streak, and 0 or some habit's streak (so 0 for no habits) |
| Dashboard.NoStreakMessage | src/pages/Dashboard.tsx:112-114 | the highest streak is 0 exactly when every streak is 0 |
| Dashboard.FreePlanNotice | src/pages/Dashboard.tsx:65-69 | the note shows exactly when the caption counts habits against the limit and the count has reached it |
| Dashboard.NotPremium | src/pages/Dashboard.tsx:65 | `!user?.isPremium`: true for a missing user, otherwise exactly when the user is not premium |
| Dashboard.UsageCaption | src/pages/Dashboard.tsx:74-76 | "unlimited" exactly for a premium user, otherwise the count out of 5 |
| Dashboard.NoticeMatchesAddHabitLimit | src/pages/Dashboard.tsx:65-69 | the free-plan note shows exactly when the store would refuse one more habit for the free plan |
| DashboardNavbar.Upper | src/components/layout/DashboardNavbar.tsx:76 | lower-case ASCII letters move to upper case, every other character is kept |
| DashboardNavbar.ToUpper | src/components/layout/DashboardNavbar.tsx:76 | the same length, each character upper-cased |
| DashboardNavbar.Split | src/components/layout/DashboardNavbar.tsx:74 | at least one part, none containing a space |
| DashboardNavbar.JoinSplit | src/components/layout/DashboardNavbar.tsx:74 | joining the parts with single spaces gives the name back |
| DashboardNavbar.FirstOrUndefined | src/components/layout/DashboardNavbar.tsx:76 | the first character, or the text "undefined" for an empty part |
| DashboardNavbar.GetUserInitials | src/components/layout/DashboardNavbar.tsx:71-79 | a missing or empty name gives "U"; the result is never empty |
| DashboardNavbar.InitialsOf | src/components/layout/DashboardNavbar.tsx:75-78 | the initials built from the parts are never empty |
| DashboardNavbar.WellSpacedInitials | src/components/layout/DashboardNavbar.tsx:74-78 | with no empty part, one or two upper-cased characters: the name's first, and the last part's first exactly when there are two or more parts |
| DashboardNavbar.SplitTrailingSpace | src/components/layout/DashboardNavbar.tsx:74 | a word followed by one space splits into the word and an empty part |
| DashboardNavbar.TrailingSpaceShowsUndefined | src/components/layout/DashboardNavbar.tsx:76 | for any space-free word, a trailing space puts "UNDEFINED" after the first initial |
| DashboardNavbar.AdaWithTrailingSpace | src/components/layout/DashboardNavbar.tsx:76 | "Ada " gives "AUNDEFINED" |
| DashboardNavbar.GetUserInitialsFixed | src/components/layout/DashboardNavbar.tsx:71-79 | one or two characters; "U" without a name or without a word; otherwise the first word's initial upper-cased, followed by the last word's exactly when there are two or more words |
| DashboardNavbar.Words | src/components/layout/DashboardNavbar.tsx:74 | exactly the non-empty parts, each non-empty; all the parts when none is empty |
| DashboardNavbar.WordsAppend | src/components/layout/DashboardNavbar.tsx:74 | the words keep the parts' order: the words of two lists joined are the words of each, in turn |
| DashboardNavbar.InitialsOfWords | src/components/layout/DashboardNavbar.tsx:75-78 | "U" for no word; otherwise the first word's upper-cased initial, then the last word's exactly when there are two or more words |
| DashboardNavbar.FixedInitialsComeFromWords | src/components/layout/DashboardNavbar.tsx:71-79 | every initial is the upper-cased first character of a word of the name |
| DashboardNavbar.InitialsOfWordsComeFromWords | src/components/layout/DashboardNavbar.tsx:75-78 | every initial built from a list of words is the upper-cased first character of one of them |
| DashboardNavbar.FixedAgreesOnWellSpacedNames | src/components/layout/DashboardNavbar.tsx:71-79 | on a name with no empty part the corrected version gives what the code gives |
| DashboardNavbar.InitialsAgree | src/components/layout/DashboardNavbar.tsx:75-78 | with no empty part, the code's initials and the corrected ones coincide |
| DashboardNavbar.FixedTrailingSpace | src/components/layout/DashboardNavbar.tsx:76 | for any space-free word followed by a space, the corrected version gives just the word's initial |
| DashboardNavbar.FixedAda | src/components/layout/DashboardNavbar.tsx:76 | the corrected version gives "A" for "Ada " |

## Left out

- The database client calls, toasts and `console.error` logging are not modelled. Each remote answer is a parameter, and each failure is an error value.
- React hook mechanics and re-render timing are not modelled. This includes races between overlapping toggles that read a captured `habits` list, and the loading flags set around them.
- `Date`, `toISOString` and `format` are modelled as day ordinals, as if the local time zone were UTC. The shift of `toISOString` to the previous day east of UTC is not modelled.
- `toLocaleString` month names are not modelled.
- The ISO bridge covers years 0 to 9999 only.
- CalendarDates.DayOrdinal: `new Date(y, …)` reads a year from 0 to 99 as 1900 + y, and the model does not; the calendar views only pass years from `getFullYear()`, which lie outside that range for any current date.
- The dashboard's progress-bar percentage is not modelled, because it is floating point.
- HabitContext.HabitStore.ToggleHabitCompletion: the streak count is whatever the server returns. The server-side trigger that computes it is not part of this model.
- HabitService.HabitService.DeleteHabit: deleting a habit does not delete its completion rows. The code issues no such delete, and the database's cascade rules are not part of this model.
- HabitService.HabitService.DeleteHabit, UpdateHabit: no authentication check and no ownership filter, as in the code. Row-level security is not part of this model.
- HabitService.HabitService.CreateHabit: the new id and creation time are parameters, because the database generates them.
- HabitService.HabitService.GetUserHabits: "newest first" is modelled as the table sequence's insertion order, not as a sort on `created_at`.
- HabitService.HabitService.GetHabitCompletions: the order of the returned rows is left unspecified, as the remote query does not order them.
- MonthCalendar.MonthCalendar.HandleDayClick: the callback is a boolean parameter (success or failure). What it does to the store is not modelled here.
- MonthCalendar.MonthCalendar: the inner records are modelled as values. The code's shallow copy at `src/components/habits/Calendar.tsx:48` shares them with the previous state; that aliasing is not modelled.
- HabitCalendar, MonthCalendar: an empty-string habit id is treated as a selection, although JavaScript's `!id` counts it as none. Ids are non-empty database keys.
- DashboardNavbar.Upper: `toUpperCase` is modelled for ASCII letters only.
- JavaScript strings are UTF-16, and `name[0]` is one code unit. The model treats a string as a sequence of Unicode scalar values, so the surrogate halves of a character outside the Basic Multilingual Plane are not represented. For the same reason CalendarDates.LexLess compares characters where JavaScript's `<` compares code units; the two orders agree on the ASCII date strings it is applied to.

## Findings

| source | as written | input that shows it | evidently intended | confidence | as-written member | corrected member |
|---|---|---|---|---|---|---|
| src/components/layout/DashboardNavbar.tsx:74-77 | the first character of the first part and of the last part is read even when that part is empty, which `split(" ")` produces for a leading or trailing space; the template literal then prints `undefined` (a doubled space between words only makes an empty middle part, which is never read) | full name "Ada " gives "AUNDEFINED" | the initials of the first and last words, ignoring empty parts: "A" | high; follows from the language semantics, not executed | DashboardNavbar.AdaWithTrailingSpace | DashboardNavbar.GetUserInitialsFixed |
