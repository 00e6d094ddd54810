/** The academic calendar as the backend resolves it. Four call sites derive
    "the current semester" independently and disagree; each is kept here as
    written so they can be compared, next to one corrected rule
    (`LatestSemesterStart`) that the rest of the model relies on. */
module Semester {
  import opened Calendar
  import opened Results

  // The `semesterSettings` constants (months counted from 0).
  const Semester1Month: int := 8    // September
  const Semester1Day: int := 1
  const WinterBreakMonth: int := 11 // December
  const WinterBreakDay: int := 22
  const Semester2Month: int := 1    // February
  const Semester2Day: int := 1

  /** September 1 or February 1 of some year: the days a semester begins. */
  predicate IsSemesterStart(d: CivilDate) {
    || (d.month == Semester1Month && d.day == Semester1Day)
    || (d.month == Semester2Month && d.day == Semester2Day)
  }

  // ---------------------------------------------------------------------
  // Corrected rule

  /** The latest semester start that is not after `date`: September 1 from
      September on, February 1 from February to August, and in January the
      September 1 of the previous year. */
  function LatestSemesterStart(date: CivilDate): (r: CivilDate)
    requires ValidDate(date)
    ensures ValidDate(r) && IsSemesterStart(r) && !Precedes(date, r)
    ensures forall s :: IsSemesterStart(s) && !Precedes(date, s) ==> !Precedes(r, s)
  {
    if date.month >= Semester1Month then CivilDate(date.year, Semester1Month, Semester1Day)
    else if date.month >= Semester2Month then CivilDate(date.year, Semester2Month, Semester2Day)
    else CivilDate(date.year - 1, Semester1Month, Semester1Day)
  }

  // ---------------------------------------------------------------------
  // Variant 1: getSemesterStart

  /** Which of the four `return`s of getSemesterStart answers for a date. */
  datatype StartBranch = FebruaryOnward | January | SeptemberOnward | BeforeSeptember

  /** The branch taken is decided by the first two tests alone: the
      September and the before-September returns are never reached. */
  function GetSemesterStartBranch(date: CivilDate): (b: StartBranch)
    requires ValidDate(date)
    ensures b == FebruaryOnward <==> date.month >= 1
    ensures b == January <==> date.month == 0
  {
    if date.month >= Semester2Month then FebruaryOnward
    else if date.month == 0 then January
    else if date.month >= Semester1Month then SeptemberOnward
    else BeforeSeptember
  }

  /** getSemesterStart as written: from February to December the answer is
      February 1 of the same year, in January September 1 of the year before.
      Only the year and month are consulted; the winter-break setting never. */
  function GetSemesterStart(date: CivilDate): (r: CivilDate)
    requires ValidDate(date)
    ensures ValidDate(r) && IsSemesterStart(r) && !Precedes(date, r)
    ensures r.year == date.year || r.year == date.year - 1
    ensures date.month >= 1 ==> r == CivilDate(date.year, 1, 1)
    ensures date.month == 0 ==> r == CivilDate(date.year - 1, 8, 1)
  {
    match GetSemesterStartBranch(date)
    case FebruaryOnward => CivilDate(date.year, Semester2Month, Semester2Day)
    case January => CivilDate(date.year - 1, Semester1Month, Semester1Day)
    case SeptemberOnward => CivilDate(date.year, Semester1Month, Semester1Day)
    case BeforeSeptember => CivilDate(date.year - 1, Semester1Month, Semester1Day)
  }

  /** The defect: for every date from September to December getSemesterStart
      answers February 1 of that year, while the latest semester start is
      September 1 — the autumn semester already under way is skipped. */
  lemma GetSemesterStartSkipsAutumn(date: CivilDate)
    requires ValidDate(date) && date.month >= Semester1Month
    ensures GetSemesterStart(date) == CivilDate(date.year, 1, 1)
    ensures LatestSemesterStart(date) == CivilDate(date.year, 8, 1)
    ensures Precedes(GetSemesterStart(date), LatestSemesterStart(date))
  {
  }

  /** Outside September–December the two agree. */
  lemma GetSemesterStartAgreesOutsideAutumn(date: CivilDate)
    requires ValidDate(date) && date.month < Semester1Month
    ensures GetSemesterStart(date) == LatestSemesterStart(date)
  {
  }

  /** The day of the month is never consulted. */
  lemma GetSemesterStartIgnoresDay(a: CivilDate, b: CivilDate)
    requires ValidDate(a) && ValidDate(b) && a.year == b.year && a.month == b.month
    ensures GetSemesterStart(a) == GetSemesterStart(b)
  {
  }

  // ---------------------------------------------------------------------
  // Variant 2: the inline "September 1 of the academic year" rule

  /** September 1 of the academic year: of this year from September on,
      of the previous year before. The answer is the latest September 1 not
      after `date`, and the next September 1 lies after `date`. */
  function AcademicYearStart(date: CivilDate): (r: CivilDate)
    requires ValidDate(date)
    ensures ValidDate(r) && r.month == 8 && r.day == 1
    ensures !Precedes(date, r) && Precedes(date, CivilDate(r.year + 1, 8, 1))
  {
    var year := if date.month >= 8 then date.year else date.year - 1;
    CivilDate(year, Semester1Month, Semester1Day)
  }

  /** The day number of the inline rule's September 1 for the present
      instant; it has always begun by today. */
  function AcademicYearStartDay(now: Now): (d: int)
    requires ValidNow(now)
    ensures d <= Today(now)
    ensures d == DayNumber(AcademicYearStart(now.date))
  {
    DayNumberOrder(now.date, AcademicYearStart(now.date));
    DayNumber(AcademicYearStart(now.date))
  }

  /** The inline rule agrees with the corrected one from September to
      January and disagrees from February to August, when it still answers
      the autumn semester's September 1. */
  lemma AcademicYearStartVersusLatest(date: CivilDate)
    requires ValidDate(date)
    ensures (date.month >= 8 || date.month == 0) <==> AcademicYearStart(date) == LatestSemesterStart(date)
  {
  }

  // ---------------------------------------------------------------------
  // Variant 3: the break-aware rule of the student grade book

  datatype GradeBookBranch = WinterBreak | JanuaryBreak | FebruaryOn | AutumnTerm

  /** The branch taken for a date: the fourth, commented "September to
      December 21", is unreachable — those dates take the February branch. */
  function GradeBookBranchOf(date: CivilDate): (b: GradeBookBranch)
    requires ValidDate(date)
    ensures b == WinterBreak <==> date.month == 11 && date.day >= 22
    ensures b == JanuaryBreak <==> date.month == 0
    ensures b == FebruaryOn <==> 1 <= date.month && !(date.month == 11 && date.day >= 22)
  {
    if date.month + 1 == 12 && date.day >= WinterBreakDay then WinterBreak
    else if date.month >= 0 && date.month <= 0 then JanuaryBreak
    else if date.month + 1 >= 2 then FebruaryOn
    else AutumnTerm
  }

  datatype SemesterChoice = SemesterChoice(start: CivilDate, isSecond: bool)

  /** The semester the student grade book shows, as written. */
  function GradeBookSemester(date: CivilDate): (r: SemesterChoice)
    requires ValidDate(date)
    ensures ValidDate(r.start) && IsSemesterStart(r.start) && !Precedes(date, r.start)
    ensures r.isSecond <==> GradeBookBranchOf(date) == FebruaryOn
    ensures r.isSecond ==> r.start == CivilDate(date.year, 1, 1)
    ensures !r.isSecond ==> r.start == LatestSemesterStart(date)
  {
    match GradeBookBranchOf(date)
    case WinterBreak => SemesterChoice(CivilDate(date.year, 8, 1), false)
    case JanuaryBreak => SemesterChoice(CivilDate(date.year - 1, 8, 1), false)
    case FebruaryOn => SemesterChoice(CivilDate(date.year, 1, 1), true)
    case AutumnTerm =>
      var startYear := if date.month + 1 >= 9 then date.year else date.year - 1;
      SemesterChoice(CivilDate(startYear, 8, 1), false)
  }

  /** The defect: from September 1 to December 21 the grade book believes the
      second semester is running and starts its grid on February 1 of the
      same year, seven months in the past. */
  lemma GradeBookSemesterAutumnDefect(date: CivilDate)
    requires ValidDate(date) && date.month >= 8 && !(date.month == 11 && date.day >= 22)
    ensures GradeBookSemester(date) == SemesterChoice(CivilDate(date.year, 1, 1), true)
    ensures GradeBookSemesterCorrected(date) == SemesterChoice(CivilDate(date.year, 8, 1), false)
  {
  }

  /** The evidently intended rule: the grid starts at the latest semester
      start, and the second semester runs from February to August. */
  function GradeBookSemesterCorrected(date: CivilDate): (r: SemesterChoice)
    requires ValidDate(date)
    ensures r.start == LatestSemesterStart(date)
    ensures r.isSecond <==> 1 <= date.month < 8
  {
    var start := LatestSemesterStart(date);
    SemesterChoice(start, start.month == Semester2Month)
  }

  /** Outside September 1 – December 21 the written and the corrected rule
      give the same semester. */
  lemma GradeBookSemesterAgreement(date: CivilDate)
    requires ValidDate(date)
    ensures GradeBookSemester(date) == GradeBookSemesterCorrected(date)
        <==> (date.month < 8 || (date.month == 11 && date.day >= 22))
  {
  }

  // ---------------------------------------------------------------------
  // Variant 4: getSemesterDates of the student dashboard

  /** A semester and its first and last day. */
  datatype SemesterRange = SemesterRange(start: CivilDate, end: CivilDate, semester: ParsedInt)

  /** `sem` is the `semester` query parameter: `None` when absent or empty,
      otherwise what `parseInt` makes of it. Without one, semester 1 is
      chosen from September to January. Semester 2 is February 10 – June 30
      of the coming spring; every other value, `NaN` included, selects
      September 1 – January 31 of the academic year under way. */
  function GetSemesterDates(sem: Option<ParsedInt>, date: CivilDate): (r: SemesterRange)
    requires ValidDate(date)
    ensures ValidDate(r.start) && ValidDate(r.end) && Precedes(r.start, r.end)
    ensures sem.None? ==> (r.semester == Num(1) <==> (date.month >= 8 || date.month == 0))
    ensures sem.None? ==> (r.semester == Num(2) <==> 1 <= date.month < 8)
    ensures sem.Some? ==> r.semester == sem.value
    ensures r.semester == Num(2) ==>
      && r.start.month == 1 && r.start.day == 10 && r.end.month == 5 && r.end.day == 30
      && r.start.year == r.end.year
      && r.start.year == (if date.month >= 8 then date.year + 1 else date.year)
    ensures r.semester != Num(2) ==>
      && r.start == AcademicYearStart(date)
      && r.end == CivilDate(r.start.year + 1, 0, 31)
  {
    var semester := if sem.Some? then sem.value
                    else if date.month >= 8 || date.month <= 0 then Num(1) else Num(2);
    if semester == Num(2) then
      var year := if date.month >= 8 then date.year + 1 else date.year;
      SemesterRange(CivilDate(year, 1, 10), CivilDate(year, 5, 30), semester)
    else
      var year := if date.month >= 0 && date.month < 8 then date.year - 1 else date.year;
      SemesterRange(CivilDate(year, 8, 1), CivilDate(year + 1, 0, 31), semester)
  }

  predicate Within(d: CivilDate, r: SemesterRange) {
    !Precedes(d, r.start) && !Precedes(r.end, d)
  }

  /** Without an explicit semester the chosen range contains the reference
      date except from February 1 to 9 (before the spring range opens) and
      in July and August (after it closed). */
  lemma {:induction false} DefaultRangeContainsDate(date: CivilDate)
    requires ValidDate(date)
    ensures Within(date, GetSemesterDates(None, date))
        <==> !((date.month == 1 && date.day < 10) || date.month == 6 || date.month == 7)
  {
    var r := GetSemesterDates(None, date);
    if date.month == 0 {
      assert r.end == CivilDate(date.year, 0, 31);
    }
  }
}
