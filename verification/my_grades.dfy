/** getMyGrades: the signed-in student's grade book — per begun week of the
    current semester (at most 16), per day, one cell per lesson position of
    the group's schedule (at least six), showing the grade of the student's
    entry in that lesson — with totals. */
module MyGrades {
  import opened Results
  import opened Records
  import opened Calendar
  import opened Semester
  import opened Weeks
  import opened Overlay
  import opened Rounding
  import Journal

  const Dash: string := "—"

  /** A shown cell: its grade (`None` is "—") and its subject's name ("—"
      when there is none). */
  datatype BookCell = BookCell(grade: Option<int>, subject: string)

  const BlankCell: BookCell := BookCell(None, Dash)

  // ---------------------------------------------------------------------
  // The day's template, laid out from the schedule

  /** The lesson at position `j` of the day has a subject that exists. */
  predicate Labelled(dir: Directory, lessons: seq<Lesson>, j: int) {
    0 <= j < |lessons| && SubjectOf(dir, lessons[j].subjectId).Some?
  }

  /** `lesson.subjectId.name || "—"`: an empty name shows as "—". */
  function Caption(dir: Directory, l: Lesson): string
    requires SubjectOf(dir, l.subjectId).Some?
  {
    var name := dir.subjectNames[l.subjectId.value];
    if name == "" then Dash else name
  }

  /** `cells[k] = c` on a JavaScript array: past the end it grows, leaving
      holes (`None`) between the old end and `k`. */
  function Place(cells: seq<Option<BookCell>>, k: nat, c: BookCell): (r: seq<Option<BookCell>>)
    ensures |r| == if k < |cells| then |cells| else k + 1
    ensures r[k] == Some(c)
    ensures forall j :: 0 <= j < |r| && j != k ==> r[j] == (if j < |cells| then cells[j] else None)
  {
    if k < |cells| then cells[k := Some(c)]
    else cells + seq(k - |cells|, _ => None) + [Some(c)]
  }

  /** `dayData.lessons.forEach((lesson, index) => …)` from position `k` on:
      every lesson whose subject exists puts a blank cell with the subject's
      name at its own position, even past the sixth. */
  function Lay(cells: seq<Option<BookCell>>, dir: Directory, lessons: seq<Lesson>, k: nat): seq<Option<BookCell>>
    requires k <= |lessons|
    decreases |lessons| - k
  {
    if k == |lessons| then cells
    else
      var next := if Labelled(dir, lessons, k) then Place(cells, k, BookCell(None, Caption(dir, lessons[k]))) else cells;
      Lay(next, dir, lessons, k + 1)
  }

  /** Six blank cells, overlaid with the lessons of the schedule's day when
      the group has a schedule with that weekday. */
  function Template(dir: Directory, lessons: Option<seq<Lesson>>): seq<Option<BookCell>> {
    Lay(seq(6, _ => Some(BlankCell)), dir, lessons.GetOr([]), 0)
  }

  /** What position `j` holds once the lessons before `k` are laid. */
  function TemplateAt(dir: Directory, lessons: seq<Lesson>, k: int, j: int): Option<BookCell> {
    if j < k && Labelled(dir, lessons, j) then Some(BookCell(None, Caption(dir, lessons[j])))
    else if 0 <= j < 6 then Some(BlankCell)
    else None
  }

  /** The layout after the lessons before `k`: at least six cells, each as
      `TemplateAt` says, ending with the last labelled lesson before `k`
      when that lies past the sixth. */
  predicate LaidOut(cells: seq<Option<BookCell>>, dir: Directory, lessons: seq<Lesson>, k: int) {
    && 6 <= |cells|
    && (forall j :: 0 <= j < |cells| ==> cells[j] == TemplateAt(dir, lessons, k, j))
    && (|cells| > 6 ==> |cells| <= k && Labelled(dir, lessons, |cells| - 1))
    && (forall j :: |cells| <= j < k ==> !Labelled(dir, lessons, j))
  }

  lemma {:induction false} LayLaysOut(cells: seq<Option<BookCell>>, dir: Directory, lessons: seq<Lesson>, k: nat)
    requires k <= |lessons| && LaidOut(cells, dir, lessons, k)
    ensures LaidOut(Lay(cells, dir, lessons, k), dir, lessons, |lessons|)
    decreases |lessons| - k
  {
    if k < |lessons| {
      var next := if Labelled(dir, lessons, k) then Place(cells, k, BookCell(None, Caption(dir, lessons[k]))) else cells;
      assert forall j :: 0 <= j < |next| ==> next[j] == TemplateAt(dir, lessons, k + 1, j);
      LayLaysOut(next, dir, lessons, k + 1);
    }
  }

  /** The template has a cell for every position up to the last labelled
      lesson and at least six; a labelled position shows its subject, the
      first six positions are otherwise blank, and the positions in between
      past the sixth are holes. */
  lemma TemplateShape(dir: Directory, lessons: seq<Lesson>)
    ensures var t := Template(dir, Some(lessons));
      && 6 <= |t|
      && (|t| > 6 ==> Labelled(dir, lessons, |t| - 1))
      && (forall j :: |t| <= j < |lessons| ==> !Labelled(dir, lessons, j))
      && (forall j :: 0 <= j < |t| ==> t[j] == TemplateAt(dir, lessons, |lessons|, j))
  {
    var blank := seq(6, _ => Some(BlankCell));
    assert LaidOut(blank, dir, lessons, 0);
    LayLaysOut(blank, dir, lessons, 0);
  }

  // ---------------------------------------------------------------------
  // The day's cells

  /** The query: entries with a mark of the student, dated from the
      semester's first midnight to the present instant, of any group. */
  predicate Selected(e: JournalEntry, student: Id, from: int, until: int) {
    FirstMarkAt(e.students, student).Some? && from <= e.date <= until
  }

  /** Whether entry `e` writes the grade of lesson `slot` on `day`: it is
      selected, falls on that civil day and sits in that slot, which lies
      in 1..6. */
  predicate Hits(e: JournalEntry, student: Id, from: int, until: int, day: int, slot: int) {
    && Selected(e, student, from, until)
    && CivilDay(e.date) == day
    && 1 <= e.lessonSlot <= 6
    && e.lessonSlot == slot
  }

  function HitFn(student: Id, from: int, until: int, day: int, slot: int): JournalEntry -> bool {
    (e: JournalEntry) => Hits(e, student, from, until, day, slot)
  }

  /** `taskGrade ?? preparationGrade ?? null` of the student's first mark. */
  function GradeIn(student: Id): JournalEntry -> Option<int> {
    (e: JournalEntry) =>
      match FirstMarkAt(e.students, student)
      case Some(i) => if e.students[i].taskGrade.Some? then e.students[i].taskGrade else e.students[i].preparationGrade
      case None => None
  }

  /** The grade lesson `slot` shows after the day's entries have been walked
      in the order it is given, before the "0" rule. */
  function EntryGrade(journals: seq<JournalEntry>, student: Id, from: int, until: int, day: int, slot: int): Option<int> {
    LastWins(None, journals, HitFn(student, from, until, day, slot), GradeIn(student))
  }

  /** A cell with a subject and no grade shows "0". */
  function ZeroRule(c: BookCell): (r: BookCell)
    ensures r.subject == c.subject
    ensures r.grade.None? <==> c.grade.None? && c.subject == Dash
    ensures c.grade.Some? ==> r.grade == c.grade
  {
    if c.grade.None? && c.subject != Dash then BookCell(Some(0), c.subject) else c
  }

  /** Position `k` of the day: a hole stays a hole; the first six positions
      take the entries' grade; then the "0" rule. */
  function DayCell(journals: seq<JournalEntry>, student: Id, from: int, until: int, day: int,
                   template: seq<Option<BookCell>>, k: nat): Option<BookCell>
    requires k < |template|
  {
    match template[k]
    case None => None
    case Some(c) =>
      var g := if k < 6 then EntryGrade(journals, student, from, until, day, k + 1) else c.grade;
      Some(ZeroRule(BookCell(g, c.subject)))
  }

  datatype BookDay = BookDay(day: int, lessons: seq<Option<BookCell>>)
  datatype BookWeek = BookWeek(number: nat, days: seq<BookDay>)

  /** The selection the walk reads: the student, the group whose schedule
      lays out the days, and the date range of the query. */
  datatype Reader = Reader(db: Journal.Db, groupId: Id, student: Id, from: int, until: int)

  function DayCells(rd: Reader, day: int): (r: seq<Option<BookCell>>)
    ensures var t := Template(rd.db.dir, Journal.DayLessons(rd.db.schedules, rd.groupId, Midnight(day)));
      && |r| == |t|
      && forall k :: 0 <= k < |r| ==> r[k] == DayCell(ByDate(rd.db.journals), rd.student, rd.from, rd.until, day, t, k)
  {
    var t := Template(rd.db.dir, Journal.DayLessons(rd.db.schedules, rd.groupId, Midnight(day)));
    var sorted := ByDate(rd.db.journals);
    seq(|t|, k requires 0 <= k < |t| => DayCell(sorted, rd.student, rd.from, rd.until, day, t, k))
  }

  function BookWeekOf(rd: Reader, week: Week): (r: BookWeek)
    ensures r.number == week.number && |r.days| == |week.days|
    ensures forall i :: 0 <= i < |week.days| ==> r.days[i] == BookDay(week.days[i], DayCells(rd, week.days[i]))
  {
    BookWeek(week.number, seq(|week.days|, i requires 0 <= i < |week.days| =>
      BookDay(week.days[i], DayCells(rd, week.days[i]))))
  }

  function BookWeeks(rd: Reader, weeks: seq<Week>): (r: seq<BookWeek>)
    ensures |r| == |weeks|
    ensures forall w :: 0 <= w < |weeks| ==> r[w] == BookWeekOf(rd, weeks[w])
  {
    seq(|weeks|, w requires 0 <= w < |weeks| => BookWeekOf(rd, weeks[w]))
  }

  // ---------------------------------------------------------------------
  // The totals

  /** The numeric grades shown, in order; holes and "—" are skipped. */
  function CellGrades(cells: seq<Option<BookCell>>): seq<int> {
    if |cells| == 0 then []
    else
      var last := cells[|cells| - 1];
      CellGrades(cells[..|cells| - 1]) + (if last.Some? && last.value.grade.Some? then [last.value.grade.value] else [])
  }

  function DayGrades(days: seq<BookDay>): seq<int> {
    if |days| == 0 then [] else DayGrades(days[..|days| - 1]) + CellGrades(days[|days| - 1].lessons)
  }

  function WeekGrades(weeks: seq<BookWeek>): seq<int> {
    if |weeks| == 0 then [] else WeekGrades(weeks[..|weeks| - 1]) + DayGrades(weeks[|weeks| - 1].days)
  }

  function MaxOf(xs: seq<int>): (m: int)
    requires |xs| > 0
    ensures m in xs && forall i :: 0 <= i < |xs| ==> xs[i] <= m
  {
    if |xs| == 1 then xs[0]
    else
      var m := MaxOf(xs[..|xs| - 1]);
      assert forall i :: 0 <= i < |xs| - 1 ==> xs[i] == xs[..|xs| - 1][i];
      if xs[|xs| - 1] > m then xs[|xs| - 1] else m
  }

  function MinOf(xs: seq<int>): (m: int)
    requires |xs| > 0
    ensures m in xs && forall i :: 0 <= i < |xs| ==> m <= xs[i]
  {
    if |xs| == 1 then xs[0]
    else
      var m := MinOf(xs[..|xs| - 1]);
      assert forall i :: 0 <= i < |xs| - 1 ==> xs[i] == xs[..|xs| - 1][i];
      if xs[|xs| - 1] < m then xs[|xs| - 1] else m
  }

  /** `average` is kept in tenths: the number shown times ten. */
  datatype BookStats = BookStats(total: nat, sum: int, averageTenths: int, maxGrade: int, minGrade: int)

  const NoStats: BookStats := BookStats(0, 0, 0, 0, 0)

  /** The totals over the shown grades: how many, their sum, their mean in
      tenths, and the greatest and least, all 0 when there is none. The
      mean lies between the least and the greatest. */
  function Tally(xs: seq<int>): (st: BookStats)
    ensures st.total == |xs| && st.sum == Sum(xs)
    ensures |xs| == 0 ==> st == NoStats
    ensures |xs| > 0 ==>
      && st.maxGrade in xs && st.minGrade in xs
      && (forall i :: 0 <= i < |xs| ==> st.minGrade <= xs[i] <= st.maxGrade)
      && 10 * st.minGrade <= st.averageTenths <= 10 * st.maxGrade
      && 2 * |xs| * st.averageTenths <= 20 * st.sum + |xs| < 2 * |xs| * (st.averageTenths + 1)
  {
    if |xs| == 0 then NoStats
    else
      var lo, hi := MinOf(xs), MaxOf(xs);
      SumBounds(xs, lo, hi);
      MeanWithin(Sum(xs), |xs|, lo, hi);
      BookStats(|xs|, Sum(xs), MeanTenths(Sum(xs), |xs|), hi, lo)
  }

  /** A mean of values between `lo` and `hi` rounds, in tenths, to between
      `10 lo` and `10 hi`. */
  lemma MeanWithin(sum: int, count: int, lo: int, hi: int)
    requires count > 0 && count * lo <= sum <= count * hi
    ensures 10 * lo <= MeanTenths(sum, count) <= 10 * hi
  {
    RoundDivMono(10 * lo * count, 10 * sum, count);
    RoundDivMono(10 * sum, 10 * hi * count, count);
    RoundDivExact(10 * lo, count);
    RoundDivExact(10 * hi, count);
  }

  datatype GradeBook = GradeBook(weeks: seq<BookWeek>, stats: BookStats)

  // ---------------------------------------------------------------------
  // The handler

  /** Whether the query finds any entry. */
  predicate AnySelected(journals: seq<JournalEntry>, student: Id, from: int, until: int) {
    exists j :: 0 <= j < |journals| && Selected(journals[j], student, from, until)
  }

  /** The grade book from the semester's first day `start` for the student
      of group `groupId`: nothing when the query finds no entry and the
      group has no schedule, otherwise the walk and its totals. */
  function BookFrom(db: Journal.Db, groupId: Id, student: Id, start: int, now: Now): (r: GradeBook)
    requires ValidNow(now)
    ensures var rd := Reader(db, groupId, student, Midnight(start), NowInstant(now));
      if !AnySelected(db.journals, student, rd.from, rd.until) && Journal.FindSchedule(db.schedules, groupId).None? then
        r == GradeBook([], NoStats)
      else
        && r.weeks == BookWeeks(rd, SemesterWeeks(start, Today(now), Some(16)))
        && r.stats == Tally(WeekGrades(r.weeks))
  {
    var rd := Reader(db, groupId, student, Midnight(start), NowInstant(now));
    if !AnySelected(db.journals, student, rd.from, rd.until) && Journal.FindSchedule(db.schedules, groupId).None? then
      GradeBook([], NoStats)
    else
      var weeks := BookWeeks(rd, SemesterWeeks(start, Today(now), Some(16)));
      GradeBook(weeks, Tally(WeekGrades(weeks)))
  }

  /** getMyGrades with the semester taken from the latest semester start
      and each day reading its own entries. */
  function StudentGrades(db: Journal.Db, studentId: Option<Id>, now: Now): (r: Result<GradeBook>)
    requires ValidNow(now)
    ensures r.Err? <==> studentId.None? || FindGroup(db.groups, studentId.value).None?
    ensures r.Err? ==> r.failure == (if studentId.None? then NotSignedIn else GroupNotFound)
    ensures r.Ok? ==>
      r.value == BookFrom(db, FindGroup(db.groups, studentId.value).value, studentId.value,
                          DayNumber(GradeBookSemesterCorrected(now.date).start), now)
  {
    if studentId.None? then Err(NotSignedIn)
    else match FindGroup(db.groups, studentId.value)
      case None => Err(GroupNotFound)
      case Some(gi) => Ok(BookFrom(db, gi, studentId.value, DayNumber(GradeBookSemesterCorrected(now.date).start), now))
  }

  /** getMyGrades as written: the semester comes from the break-aware rule,
      and the walk refers to a per-day entry list that is never declared, so
      the first day it reaches throws and the handler answers 500. */
  function StudentGradesAsWritten(db: Journal.Db, studentId: Option<Id>, now: Now): (r: Result<GradeBook>)
    requires ValidNow(now)
    ensures r.Err? && r.failure == NotSignedIn <==> studentId.None?
    ensures r.Err? && r.failure == GroupNotFound <==> studentId.Some? && FindGroup(db.groups, studentId.value).None?
    ensures r.Ok? ==> r.value == GradeBook([], NoStats)
  {
    if studentId.None? then Err(NotSignedIn)
    else match FindGroup(db.groups, studentId.value)
      case None => Err(GroupNotFound)
      case Some(gi) =>
        var start := DayNumber(GradeBookSemester(now.date).start);
        var from, until := Midnight(start), NowInstant(now);
        if !AnySelected(db.journals, studentId.value, from, until) && Journal.FindSchedule(db.schedules, gi).None? then
          Ok(GradeBook([], NoStats))
        else if |SemesterWeeks(start, Today(now), Some(16))| > 0 then Err(Crash)
        else Ok(GradeBook([], NoStats))
  }

  /** The written handler answers 500 to every signed-in student of a group
      as soon as the query finds an entry or the group has a schedule: the
      semester has always begun, so the walk always reaches its first day. */
  lemma AsWrittenAlwaysCrashes(db: Journal.Db, student: Id, now: Now)
    requires ValidNow(now)
    requires FindGroup(db.groups, student).Some?
    ensures var gi := FindGroup(db.groups, student).value;
      var from := Midnight(DayNumber(GradeBookSemester(now.date).start));
      StudentGradesAsWritten(db, Some(student), now) ==
        if !AnySelected(db.journals, student, from, NowInstant(now)) && Journal.FindSchedule(db.schedules, gi).None?
        then Ok(GradeBook([], NoStats))
        else Err(Crash)
  {
    var s := GradeBookSemester(now.date).start;
    DayNumberOrder(now.date, s);
    var start := DayNumber(s);
    WeeksFromLength(start, 1, Today(now), Some(16));
  }

  /** A cell among the first six shows the grade of the student's first
      mark in the latest entry of that day and lesson that names the
      student, dated after every other such entry, or "0" when that mark has
      no grade and the lesson has a subject, … */
  lemma CellShowsLastEntry(journals: seq<JournalEntry>, student: Id, from: int, until: int, day: int,
                           template: seq<Option<BookCell>>, k: nat, e: JournalEntry)
    requires k < 6 && k < |template| && template[k].Some?
    requires e in journals && Hits(e, student, from, until, day, k + 1)
    requires forall e' :: e' in journals && Hits(e', student, from, until, day, k + 1) && e' != e ==> e'.date < e.date
    ensures var m := e.students[FirstMarkAt(e.students, student).value];
      var g := if m.taskGrade.Some? then m.taskGrade else m.preparationGrade;
      DayCell(ByDate(journals), student, from, until, day, template, k) ==
        Some(ZeroRule(BookCell(g, template[k].value.subject)))
  {
    var hit := HitFn(student, from, until, day, k + 1);
    assert forall e' :: e' in journals && hit(e') && e' != e ==> EntryDate(e') < EntryDate(e);
    LatestWins(None, journals, EntryDate, hit, GradeIn(student), e);
  }

  /** … and when several such entries share the latest instant, the grade
      of one of them. */
  lemma CellIsOneOfLatest(journals: seq<JournalEntry>, student: Id, from: int, until: int, day: int,
                          template: seq<Option<BookCell>>, k: nat, e: JournalEntry) returns (latest: JournalEntry)
    requires k < 6 && k < |template| && template[k].Some?
    requires e in journals && Hits(e, student, from, until, day, k + 1)
    ensures latest in journals && Hits(latest, student, from, until, day, k + 1)
    ensures forall e' :: e' in journals && Hits(e', student, from, until, day, k + 1) ==> e'.date <= latest.date
    ensures var m := latest.students[FirstMarkAt(latest.students, student).value];
      var g := if m.taskGrade.Some? then m.taskGrade else m.preparationGrade;
      DayCell(ByDate(journals), student, from, until, day, template, k) ==
        Some(ZeroRule(BookCell(g, template[k].value.subject)))
  {
    latest := LatestDecides(None, journals, EntryDate, HitFn(student, from, until, day, k + 1), GradeIn(student), e);
  }

  /** Without such an entry a cell of a lesson with a subject shows "0",
      and a blank one shows "—". */
  lemma CellWithoutEntry(journals: seq<JournalEntry>, student: Id, from: int, until: int, day: int,
                         template: seq<Option<BookCell>>, k: nat)
    requires k < |template| && template[k].Some? && template[k].value.grade.None?
    requires forall e :: e in journals ==> !Hits(e, student, from, until, day, k + 1)
    ensures DayCell(ByDate(journals), student, from, until, day, template, k) ==
      Some(if template[k].value.subject == Dash then template[k].value else BookCell(Some(0), template[k].value.subject))
  {
    SortedMiss(None, journals, EntryDate, HitFn(student, from, until, day, k + 1), GradeIn(student));
  }
}
