/** Civil calendar arithmetic as the backend's `Date` objects see it:
    proleptic Gregorian dates with months counted from 0, day numbers counted
    from 1970-01-01, and instants (milliseconds since the epoch, UTC) read in
    one fixed civil time zone, Asia/Dushanbe. The server's own zone is taken
    to be that zone, so a `new Date(y, m, d)` is the local midnight of a day. */
module Calendar {

  const MsPerDay: int := 86_400_000
  /** Asia/Dushanbe keeps UTC+5 all year (no daylight saving). */
  const ZoneOffsetMs: int := 18_000_000

  /** A calendar date; `month` is 0 for January … 11 for December, as in
      `Date.getMonth()`, and `day` is the day of the month from 1. */
  datatype CivilDate = CivilDate(year: int, month: int, day: int)

  predicate IsLeapYear(y: int) {
    y % 4 == 0 && (y % 100 != 0 || y % 400 == 0)
  }

  function DaysInMonth(y: int, m: int): (n: int)
    requires 0 <= m < 12
    ensures 28 <= n <= 31
    ensures m == 1 ==> (n == 29 <==> IsLeapYear(y))
  {
    if m == 1 then (if IsLeapYear(y) then 29 else 28)
    else if m == 3 || m == 5 || m == 8 || m == 10 then 30
    else 31
  }

  predicate ValidDate(d: CivilDate) {
    0 <= d.month < 12 && 1 <= d.day <= DaysInMonth(d.year, d.month)
  }

  /** Strict chronological order of dates, field by field. */
  predicate Precedes(a: CivilDate, b: CivilDate) {
    || a.year < b.year
    || (a.year == b.year && a.month < b.month)
    || (a.year == b.year && a.month == b.month && a.day < b.day)
  }

  /** Days of year `y` that lie before the first of month `m` (0..12). */
  function DaysBeforeMonth(y: int, m: int): int
    requires 0 <= m <= 12
  {
    [0, 31, 59, 90, 120, 151, 181, 212, 243, 273, 304, 334, 365][m]
      + (if m >= 2 && IsLeapYear(y) then 1 else 0)
  }

  /** Leap years among 1..x, extended to all integers by floor division. */
  function LeapYearsThrough(x: int): int {
    x / 4 - x / 100 + x / 400
  }

  /** Day number of January 1 of year `y`. */
  function DaysBeforeYear(y: int): int {
    365 * (y - 1970) + LeapYearsThrough(y - 1) - LeapYearsThrough(1969)
  }

  /** Days from 1970-01-01 to `d`; the join key of every date in the model. */
  function DayNumber(d: CivilDate): int
    requires 0 <= d.month < 12
  {
    DaysBeforeYear(d.year) + DaysBeforeMonth(d.year, d.month) + d.day - 1
  }

  /** `Date.getDay()` of a day number: 0 is Sunday, 6 is Saturday. */
  function Weekday(n: int): (w: int)
    ensures 0 <= w < 7
  {
    (n + 4) % 7
  }

  // ---------------------------------------------------------------------
  // Day numbers respect the order of dates

  /** Floor division by a positive constant steps by one exactly at multiples. */
  lemma DivStep(y: int, d: int)
    requires d in {4, 100, 400}
    ensures y / d - (y - 1) / d == (if y % d == 0 then 1 else 0)
  {
    var q, r := (y - 1) / d, (y - 1) % d;
    assert y - 1 == d * q + r && 0 <= r < d;
    if r == d - 1 {
      assert y == d * (q + 1);
      DivExact(y, d, q + 1, 0);
    } else {
      assert y == d * q + (r + 1);
      DivExact(y, d, q, r + 1);
    }
  }

  lemma DivExact(y: int, d: int, q: int, r: int)
    requires d in {4, 100, 400}
    requires y == d * q + r && 0 <= r < d
    ensures y / d == q && y % d == r
  {
    if d == 4 {
    } else if d == 100 {
    } else {
    }
  }

  lemma LeapStep(y: int)
    ensures LeapYearsThrough(y) - LeapYearsThrough(y - 1) == (if IsLeapYear(y) then 1 else 0)
  {
    DivStep(y, 4);
    DivStep(y, 100);
    DivStep(y, 400);
    if y % 400 == 0 {
      DivExact(y, 100, 4 * (y / 400), 0);
      DivExact(y, 4, 100 * (y / 400), 0);
    } else if y % 100 == 0 {
      DivExact(y, 4, 25 * (y / 100), 0);
    }
  }

  lemma YearLength(y: int)
    ensures DaysBeforeMonth(y, 12) == (if IsLeapYear(y) then 366 else 365)
  {
  }

  lemma {:induction false} NextYear(y: int)
    ensures DaysBeforeYear(y + 1) == DaysBeforeYear(y) + DaysBeforeMonth(y, 12)
  {
    LeapStep(y);
    YearLength(y);
  }

  lemma {:induction false} YearsOrdered(y: int, y': int)
    requires y < y'
    ensures DaysBeforeYear(y + 1) <= DaysBeforeYear(y')
    decreases y' - y
  {
    if y + 1 < y' {
      YearsOrdered(y + 1, y');
      NextYear(y + 1);
      YearLength(y + 1);
    }
  }

  lemma MonthStep(y: int, m: int)
    requires 0 <= m < 12
    ensures DaysBeforeMonth(y, m) + DaysInMonth(y, m) == DaysBeforeMonth(y, m + 1)
  {
  }

  lemma {:induction false} MonthsOrdered(y: int, m: int, m': int)
    requires 0 <= m < m' <= 12
    ensures DaysBeforeMonth(y, m) + DaysInMonth(y, m) <= DaysBeforeMonth(y, m')
    decreases m' - m
  {
    MonthStep(y, m);
    if m + 1 < m' {
      MonthsOrdered(y, m + 1, m');
    }
  }

  /** A valid date's day number lies within its year. */
  lemma DayNumberWithinYear(d: CivilDate)
    requires ValidDate(d)
    ensures DaysBeforeYear(d.year) <= DayNumber(d) < DaysBeforeYear(d.year + 1)
  {
    NextYear(d.year);
    if d.month < 11 {
      MonthsOrdered(d.year, d.month, 12);
    }
  }

  /** Day numbers are strictly monotone in the order of valid dates, so they
      are faithful keys: distinct dates never share a day number, and
      comparing day numbers compares dates. */
  lemma DayNumberOrder(a: CivilDate, b: CivilDate)
    requires ValidDate(a) && ValidDate(b)
    ensures Precedes(a, b) <==> DayNumber(a) < DayNumber(b)
    ensures a == b <==> DayNumber(a) == DayNumber(b)
  {
    DayNumberWithinYear(a);
    DayNumberWithinYear(b);
    if a.year < b.year {
      YearsOrdered(a.year, b.year);
    } else if b.year < a.year {
      YearsOrdered(b.year, a.year);
    } else if a.month < b.month {
      MonthsOrdered(a.year, a.month, b.month);
    } else if b.month < a.month {
      MonthsOrdered(a.year, b.month, a.month);
    }
  }

  /** Anchors: 1970-01-01 is day 0 (a Thursday); 2025-09-01 is day 20332,
      a Monday; 2000-03-01, after a century leap day, is day 11017. */
  lemma KnownDays()
    ensures DayNumber(CivilDate(1970, 0, 1)) == 0 && Weekday(0) == 4
    ensures DayNumber(CivilDate(2025, 8, 1)) == 20332 && Weekday(20332) == 1
    ensures DayNumber(CivilDate(2000, 2, 1)) == 11017 && Weekday(11017) == 3
    ensures DayNumber(CivilDate(1969, 11, 31)) == -1
  {
  }

  // ---------------------------------------------------------------------
  // Instants and the civil day they fall on

  /** The instant a civil day starts in the fixed zone. */
  function Midnight(day: int): int {
    day * 86_400_000 - 18_000_000
  }

  /** The calendar day an instant falls on in the fixed zone: the model of
      formatting the instant as a full-date with a UTC+5 formatter. */
  function CivilDay(t: int): (day: int)
    ensures Midnight(day) <= t < Midnight(day + 1)
  {
    (t + 18_000_000) / 86_400_000
  }

  /** Two instants fall on the same civil day exactly when they lie in the
      same midnight-to-midnight interval. */
  lemma CivilDayOfMidnight(day: int, ms: int)
    requires 0 <= ms < MsPerDay
    ensures CivilDay(Midnight(day) + ms) == day
  {
  }

  /** The clock reading a request is served at: today's date and the
      milliseconds elapsed since local midnight. */
  datatype Now = Now(date: CivilDate, msOfDay: int)

  predicate ValidNow(now: Now) {
    ValidDate(now.date) && 0 <= now.msOfDay < MsPerDay
  }

  function Today(now: Now): int
    requires ValidNow(now)
  {
    DayNumber(now.date)
  }

  function NowInstant(now: Now): (t: int)
    requires ValidNow(now)
    ensures CivilDay(t) == Today(now)
  {
    CivilDayOfMidnight(Today(now), now.msOfDay);
    Midnight(Today(now)) + now.msOfDay
  }

  /** `midnight(day) > new Date()`: a day's midnight lies after the present
      instant exactly when the day is after today. */
  predicate AfterNow(day: int, now: Now)
    requires ValidNow(now)
    ensures AfterNow(day, now) <==> day > Today(now)
  {
    Midnight(day) > NowInstant(now)
  }

  /** `midnight(day) <= new Date()`: the day has begun. */
  predicate BegunBy(day: int, now: Now)
    requires ValidNow(now)
    ensures BegunBy(day, now) <==> day <= Today(now)
  {
    !AfterNow(day, now)
  }
}
