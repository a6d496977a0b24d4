/**
 * Calendar dates of the proleptic Gregorian calendar, as used by the
 * JavaScript `Date` objects of the calendar views, reduced to day ordinals.
 *
 * Day 0 is 0000-01-01.  `DayOrdinal(y, m, d)` is what `new Date(y, m - 1, d)`
 * denotes for ANY integer `d` (JavaScript normalises `d = 0` to the last day
 * of the previous month and `d > DaysInMonth` into the next month) and any
 * year outside 0..99, which `new Date` reads as 1900 + y; the calendar views
 * only pass years taken from `getFullYear()`.  Months are 1-based here;
 * JavaScript's are 0-based.
 *
 * The code under model compares dates as `YYYY-MM-DD` strings; the lemmas at
 * the end prove that for four-digit years this string order (and string
 * equality) is exactly the order (and equality) of the ordinals, which is what
 * licenses every other module to compare ordinals instead of strings.
 */
module CalendarDates {

  /** A calendar day; 0 is 0000-01-01. */
  type Day = int

  predicate IsLeapYear(y: int) {
    y % 4 == 0 && (y % 100 != 0 || y % 400 == 0)
  }

  function DaysInYear(y: int): int {
    if IsLeapYear(y) then 366 else 365
  }

  /** Length of month `m` (1 = January) of year `y`, leap years included. */
  function DaysInMonth(y: int, m: int): (n: int)
    requires 1 <= m <= 12
    ensures 28 <= n <= 31
    ensures m == 2 ==> (n == 29 <==> IsLeapYear(y))
  {
    if m == 2 then (if IsLeapYear(y) then 29 else 28)
    else if m == 4 || m == 6 || m == 9 || m == 11 then 30
    else 31
  }

  /** Number of leap years in [0, y) (negated count of those in [y, 0) when y < 0). */
  function LeapYearsBefore(y: int): int {
    (y + 3) / 4 - (y + 99) / 100 + (y + 399) / 400
  }

  /** Ordinal of January 1 of year `y`. */
  function YearStart(y: int): Day {
    365 * y + LeapYearsBefore(y)
  }

  function DaysBeforeMonth(y: int, m: int): int
    requires 1 <= m <= 12
  {
    [0, 31, 59, 90, 120, 151, 181, 212, 243, 273, 304, 334][m - 1]
      + (if m > 2 && IsLeapYear(y) then 1 else 0)
  }

  /** Ordinal of the first day of month `m` of year `y`. */
  function MonthStart(y: int, m: int): Day
    requires 1 <= m <= 12
  {
    YearStart(y) + DaysBeforeMonth(y, m)
  }

  /**
   * The day denoted by `new Date(y, m - 1, d)`, for any integer `d`: a day
   * past the end of the month counts on into the next month, and a day
   * below 1 counts back from the end of the previous one.
   */
  function DayOrdinal(y: int, m: int, d: int): (n: Day)
    requires 1 <= m <= 12
    ensures m < 12 ==> n == MonthStart(y, m + 1) + (d - DaysInMonth(y, m)) - 1
    ensures m == 12 ==> n == MonthStart(y + 1, 1) + (d - DaysInMonth(y, m)) - 1
    ensures m > 1 ==> n == MonthStart(y, m - 1) + DaysInMonth(y, m - 1) + d - 1
    ensures m == 1 ==> n == MonthStart(y - 1, 12) + DaysInMonth(y - 1, 12) + d - 1
  {
    MonthStep(y, m);
    if m > 1 then MonthStep(y, m - 1); MonthStart(y, m) + d - 1
    else MonthStep(y - 1, 12); MonthStart(y, m) + d - 1
  }

  datatype Date = Date(year: int, month: int, day: int) {
    predicate Valid() {
      1 <= month <= 12 && 1 <= day <= DaysInMonth(year, month)
    }

    /** Chronological order of two dates, field by field. */
    predicate Before(other: Date) {
      year < other.year
      || (year == other.year && month < other.month)
      || (year == other.year && month == other.month && day < other.day)
    }
  }

  function Ordinal(d: Date): Day
    requires d.Valid()
  {
    DayOrdinal(d.year, d.month, d.day)
  }

  /** Day of the week, 0 = Sunday ... 6 = Saturday (0000-01-01 was a Saturday). */
  function Weekday(day: Day): (w: int)
    ensures 0 <= w < 7
  {
    (day + 6) % 7
  }

  // ---------------------------------------------------------------------
  // Adjacency of years and months

  lemma YearStartStep(y: int)
    ensures YearStart(y + 1) == YearStart(y) + DaysInYear(y)
  {
    LeapStep(y);
  }

  lemma LeapStep(y: int)
    ensures LeapYearsBefore(y + 1) == LeapYearsBefore(y) + (if IsLeapYear(y) then 1 else 0)
  {
    Quarter(y);
    Century(y);
    FourCenturies(y);
    Divisibility(y);
  }

  lemma Divisibility(y: int)
    ensures y % 400 == 0 ==> y % 100 == 0
    ensures y % 100 == 0 ==> y % 4 == 0
  {
  }

  lemma Quarter(y: int)
    ensures (y + 4) / 4 - (y + 3) / 4 == if y % 4 == 0 then 1 else 0
  {
  }

  lemma Century(y: int)
    ensures (y + 100) / 100 - (y + 99) / 100 == if y % 100 == 0 then 1 else 0
  {
  }

  lemma FourCenturies(y: int)
    ensures (y + 400) / 400 - (y + 399) / 400 == if y % 400 == 0 then 1 else 0
  {
  }

  lemma {:induction false} YearStartMonotone(y1: int, y2: int)
    requires y1 < y2
    ensures YearStart(y1) + DaysInYear(y1) <= YearStart(y2)
    decreases y2 - y1
  {
    YearStartStep(y1);
    if y1 + 1 < y2 {
      YearStartMonotone(y1 + 1, y2);
    }
  }

  /** The month after (y, m) starts the day after (y, m) ends. */
  lemma MonthStep(y: int, m: int)
    requires 1 <= m <= 12
    ensures m < 12 ==> MonthStart(y, m + 1) == MonthStart(y, m) + DaysInMonth(y, m)
    ensures m == 12 ==> MonthStart(y + 1, 1) == MonthStart(y, m) + DaysInMonth(y, m)
  {
    if m == 12 {
      YearStartStep(y);
    }
  }

  lemma {:induction false} MonthStartMonotoneInYear(y: int, m1: int, m2: int)
    requires 1 <= m1 < m2 <= 12
    ensures MonthStart(y, m1) + DaysInMonth(y, m1) <= MonthStart(y, m2)
    decreases m2 - m1
  {
    MonthStep(y, m1);
    if m1 + 1 < m2 {
      MonthStartMonotoneInYear(y, m1 + 1, m2);
    }
  }

  lemma MonthEndsBeforeNextYear(y: int, m: int)
    requires 1 <= m <= 12
    ensures MonthStart(y, m) + DaysInMonth(y, m) <= YearStart(y + 1)
  {
    if m < 12 {
      MonthStartMonotoneInYear(y, m, 12);
    }
    MonthStep(y, 12);
  }

  /** Months tile the time line: a month ends no later than any later month starts. */
  lemma MonthStartMonotone(y1: int, m1: int, y2: int, m2: int)
    requires 1 <= m1 <= 12 && 1 <= m2 <= 12
    requires y1 < y2 || (y1 == y2 && m1 < m2)
    ensures MonthStart(y1, m1) + DaysInMonth(y1, m1) <= MonthStart(y2, m2)
  {
    if y1 == y2 {
      MonthStartMonotoneInYear(y1, m1, m2);
    } else {
      MonthEndsBeforeNextYear(y1, m1);
      if y1 + 1 < y2 {
        YearStartMonotone(y1 + 1, y2);
      }
    }
  }

  /** Ordinals order valid dates chronologically, and tell them apart. */
  lemma OrdinalOrder(a: Date, b: Date)
    requires a.Valid() && b.Valid()
    ensures Ordinal(a) < Ordinal(b) <==> a.Before(b)
    ensures Ordinal(a) == Ordinal(b) <==> a == b
  {
    if a.year < b.year || (a.year == b.year && a.month < b.month) {
      MonthStartMonotone(a.year, a.month, b.year, b.month);
    } else if b.year < a.year || (a.year == b.year && b.month < a.month) {
      MonthStartMonotone(b.year, b.month, a.year, a.month);
    }
  }

  // ---------------------------------------------------------------------
  // The displayed month: JavaScript's month arithmetic

  /** `new Date(y, m - 2, 1)`: day 1 of the previous month, rolling over the year. */
  function PreviousMonth(d: Date): (r: Date)
    requires 1 <= d.month <= 12
    ensures r.Valid() && r.day == 1
    ensures MonthStart(r.year, r.month) + DaysInMonth(r.year, r.month) == MonthStart(d.year, d.month)
  {
    if d.month == 1 then
      MonthStep(d.year - 1, 12);
      Date(d.year - 1, 12, 1)
    else
      MonthStep(d.year, d.month - 1);
      Date(d.year, d.month - 1, 1)
  }

  /** `new Date(y, m, 1)`: day 1 of the next month, rolling over the year. */
  function NextMonth(d: Date): (r: Date)
    requires 1 <= d.month <= 12
    ensures r.Valid() && r.day == 1
    ensures MonthStart(r.year, r.month) == MonthStart(d.year, d.month) + DaysInMonth(d.year, d.month)
  {
    MonthStep(d.year, d.month);
    if d.month == 12 then Date(d.year + 1, 1, 1) else Date(d.year, d.month + 1, 1)
  }

  lemma MonthNavigationRoundTrip(d: Date)
    requires 1 <= d.month <= 12
    ensures NextMonth(PreviousMonth(d)) == Date(d.year, d.month, 1)
    ensures PreviousMonth(NextMonth(d)) == Date(d.year, d.month, 1)
  {
  }

  /**
   * `new Date(y, m, 0).getDate()` is the length of month m: day 0 of the
   * next month is the last day of this one.
   */
  lemma DayZeroIsLastDayOfPreviousMonth(d: Date)
    requires 1 <= d.month <= 12
    ensures var n := NextMonth(d);
      DayOrdinal(n.year, n.month, 0) == Ordinal(Date(d.year, d.month, DaysInMonth(d.year, d.month)))
  {
  }

  // ---------------------------------------------------------------------
  // ISO-8601 complete calendar dates, extended format (YYYY-MM-DD)

  function Digit(n: int): (c: char)
    requires 0 <= n < 10
    ensures '0' <= c <= '9'
  {
    ('0' as int + n) as char
  }

  function TwoDigits(n: int): (s: string)
    requires 0 <= n < 100
    ensures |s| == 2
  {
    [Digit(n / 10), Digit(n % 10)]
  }

  function FourDigits(n: int): (s: string)
    requires 0 <= n < 10000
    ensures |s| == 4
  {
    TwoDigits(n / 100) + TwoDigits(n % 100)
  }

  /** The `YYYY-MM-DD` text of a date with a four-digit year. */
  function Iso(d: Date): (s: string)
    requires d.Valid() && 0 <= d.year <= 9999
    ensures |s| == 10 && s[4] == '-' && s[7] == '-'
  {
    FourDigits(d.year) + "-" + TwoDigits(d.month) + "-" + TwoDigits(d.day)
  }

  /**
   * JavaScript's `<` on strings: character order (code-unit order on the
   * ASCII date strings compared here; see the UTF-16 note in the README),
   * with a proper prefix before the longer string.
   */
  predicate LexLess(s: string, t: string): (r: bool)
    ensures r ==> s != t
    ensures |s| < |t| && s == t[..|s|] ==> r
    ensures |t| <= |s| && t == s[..|t|] ==> !r
  {
    if s == [] then t != []
    else if t == [] then false
    else s[0] < t[0] || (s[0] == t[0] && LexLess(s[1..], t[1..]))
  }

  lemma {:induction false} LexLessAppend(a: string, b: string, s: string, t: string)
    requires |a| == |b|
    ensures LexLess(a + s, b + t) <==> LexLess(a, b) || (a == b && LexLess(s, t))
  {
    if a != [] {
      assert (a + s)[0] == a[0] && (b + t)[0] == b[0];
      assert (a + s)[1..] == a[1..] + s && (b + t)[1..] == b[1..] + t;
      LexLessAppend(a[1..], b[1..], s, t);
      if a[0] == b[0] {
        assert a == b <==> a[1..] == b[1..] by {
          if a[1..] == b[1..] { assert a == [a[0]] + a[1..]; assert b == [b[0]] + b[1..]; }
        }
      }
    } else {
      assert a + s == s && b + t == t;
    }
  }

  lemma TwoDigitsOrder(n: int, m: int)
    requires 0 <= n < 100 && 0 <= m < 100
    ensures LexLess(TwoDigits(n), TwoDigits(m)) <==> n < m
    ensures TwoDigits(n) == TwoDigits(m) <==> n == m
  {
    var s, t := TwoDigits(n), TwoDigits(m);
    assert s == [s[0]] + [s[1]] && t == [t[0]] + [t[1]];
    LexLessAppend([s[0]], [t[0]], [s[1]], [t[1]]);
    assert LexLess([s[1]], [t[1]]) <==> s[1] < t[1] by {
      assert [s[1]][1..] == [] && [t[1]][1..] == [];
    }
    assert LexLess([s[0]], [t[0]]) <==> s[0] < t[0] by {
      assert [s[0]][1..] == [] && [t[0]][1..] == [];
    }
    if s == t {
      assert s[0] == t[0] && s[1] == t[1];
    }
  }

  lemma FourDigitsOrder(n: int, m: int)
    requires 0 <= n < 10000 && 0 <= m < 10000
    ensures LexLess(FourDigits(n), FourDigits(m)) <==> n < m
    ensures FourDigits(n) == FourDigits(m) <==> n == m
  {
    TwoDigitsOrder(n / 100, m / 100);
    TwoDigitsOrder(n % 100, m % 100);
    LexLessAppend(TwoDigits(n / 100), TwoDigits(m / 100), TwoDigits(n % 100), TwoDigits(m % 100));
    if FourDigits(n) == FourDigits(m) {
      assert TwoDigits(n / 100) == FourDigits(n)[..2] == FourDigits(m)[..2] == TwoDigits(m / 100);
      assert TwoDigits(n % 100) == FourDigits(n)[2..] == FourDigits(m)[2..] == TwoDigits(m % 100);
    }
  }

  /** `YYYY-MM-DD` string order is field-by-field order of the dates. */
  lemma IsoOrderIsFieldOrder(a: Date, b: Date)
    requires a.Valid() && 0 <= a.year <= 9999
    requires b.Valid() && 0 <= b.year <= 9999
    ensures LexLess(Iso(a), Iso(b)) <==> a.Before(b)
  {
    FourDigitsOrder(a.year, b.year);
    TwoDigitsOrder(a.month, b.month);
    TwoDigitsOrder(a.day, b.day);
    var ya, yb := FourDigits(a.year), FourDigits(b.year);
    var ma, mb := TwoDigits(a.month), TwoDigits(b.month);
    var da, db := TwoDigits(a.day), TwoDigits(b.day);
    assert Iso(a) == ya + ("-" + (ma + ("-" + da)));
    assert Iso(b) == yb + ("-" + (mb + ("-" + db)));
    LexLessAppend(ya, yb, "-" + (ma + ("-" + da)), "-" + (mb + ("-" + db)));
    LexLessAppend("-", "-", ma + ("-" + da), mb + ("-" + db));
    LexLessAppend(ma, mb, "-" + da, "-" + db);
    LexLessAppend("-", "-", da, db);
    assert !LexLess("-", "-");
  }

  /** Equal `YYYY-MM-DD` strings denote equal dates. */
  lemma IsoInjective(a: Date, b: Date)
    requires a.Valid() && 0 <= a.year <= 9999
    requires b.Valid() && 0 <= b.year <= 9999
    ensures Iso(a) == Iso(b) <==> a == b
  {
    if Iso(a) == Iso(b) {
      FourDigitsOrder(a.year, b.year);
      TwoDigitsOrder(a.month, b.month);
      TwoDigitsOrder(a.day, b.day);
      assert FourDigits(a.year) == Iso(a)[..4] == Iso(b)[..4] == FourDigits(b.year);
      assert TwoDigits(a.month) == Iso(a)[5..7] == Iso(b)[5..7] == TwoDigits(b.month);
      assert TwoDigits(a.day) == Iso(a)[8..] == Iso(b)[8..] == TwoDigits(b.day);
    }
  }

  /**
   * Fixed-width `YYYY-MM-DD` strings compare lexicographically in
   * chronological order, and equal strings denote equal days: string `<`,
   * `>` and `===` on them agree with `<`, `>` and `==` on ordinals.
   */
  lemma IsoOrderIsChronological(a: Date, b: Date)
    requires a.Valid() && 0 <= a.year <= 9999
    requires b.Valid() && 0 <= b.year <= 9999
    ensures LexLess(Iso(a), Iso(b)) <==> Ordinal(a) < Ordinal(b)
    ensures Iso(a) == Iso(b) <==> Ordinal(a) == Ordinal(b)
  {
    OrdinalOrder(a, b);
    IsoOrderIsFieldOrder(a, b);
    IsoInjective(a, b);
  }

  /** Consecutive days fall on consecutive weekdays, wrapping from Saturday to Sunday. */
  lemma WeekdayAfter(day: Day, n: nat)
    ensures Weekday(day + n) == (Weekday(day) + n) % 7
  {
  }

  /** A check of the weekday anchor: 2024-01-01 was a Monday. */
  lemma WeekdayAnchor()
    ensures Weekday(Ordinal(Date(2024, 1, 1))) == 1
  {
  }
}
