/** getMyAttendance: the signed-in student's attendance since September 1
    of the academic year, week by week, six days a week and six lessons a
    day, each cell a letter, with totals. */
module MyAttendance {
  import opened Results
  import opened Records
  import opened Calendar
  import opened Semester
  import opened Weeks
  import opened Overlay
  import opened Rounding

  /** The letter a cell shows: "H" present, "N" absent, "L" late, "—" no
      mark. */
  datatype Letter = H | N | L | Dash

  function LetterOf(a: Attendance): (l: Letter)
    ensures l != Dash
    ensures (l == H) == (a == Present)
  {
    match a
    case Present => H
    case Absent => N
    case Late => L
  }

  /** The query: every entry with at least one mark, dated from the first
      midnight of the academic year to the present instant, whatever the
      group. */
  predicate Selected(e: JournalEntry, from: int, until: int) {
    |e.students| > 0 && from <= e.date <= until
  }

  /** Whether entry `e` writes the student's cell on `day` in lesson
      `slot`: it is selected, falls on that civil day, names the student
      and sits in that slot, which lies in 1..6. */
  predicate Hits(e: JournalEntry, from: int, until: int, day: int, slot: int, student: Id) {
    && Selected(e, from, until)
    && CivilDay(e.date) == day
    && FirstMarkAt(e.students, student).Some?
    && 1 <= e.lessonSlot <= 6
    && e.lessonSlot == slot
  }

  function HitFn(from: int, until: int, day: int, slot: int, student: Id): JournalEntry -> bool {
    (e: JournalEntry) => Hits(e, from, until, day, slot, student)
  }

  /** The letter of the student's first mark in the entry. */
  function LetterIn(student: Id): JournalEntry -> Letter {
    (e: JournalEntry) =>
      match FirstMarkAt(e.students, student)
      case Some(i) => LetterOf(e.students[i].attendance)
      case None => Dash
  }

  /** The cell after the day's entries have been walked in the order they
      are given. */
  function Cell(journals: seq<JournalEntry>, from: int, until: int, day: int, slot: int, student: Id): Letter {
    LastWins(Dash, journals, HitFn(from, until, day, slot, student), LetterIn(student))
  }

  datatype DayRow = DayRow(day: int, lessons: seq<Letter>)
  datatype StudentWeek = StudentWeek(number: nat, days: seq<DayRow>)

  /** The six cells of a day. */
  function DayLetters(journals: seq<JournalEntry>, from: int, until: int, day: int, student: Id): (r: seq<Letter>)
    ensures |r| == 6
    ensures forall s :: 0 <= s < 6 ==> r[s] == Cell(journals, from, until, day, s + 1, student)
  {
    seq(6, s requires 0 <= s < 6 => Cell(journals, from, until, day, s + 1, student))
  }

  /** One week of the walk, its days filled in. */
  function WeekRows(journals: seq<JournalEntry>, from: int, until: int, week: Week, student: Id): (r: StudentWeek)
    ensures r.number == week.number && |r.days| == |week.days|
    ensures forall i :: 0 <= i < |week.days| ==>
      r.days[i] == DayRow(week.days[i], DayLetters(journals, from, until, week.days[i], student))
  {
    StudentWeek(week.number, seq(|week.days|, i requires 0 <= i < |week.days| =>
      DayRow(week.days[i], DayLetters(journals, from, until, week.days[i], student))))
  }

  function Grid(journals: seq<JournalEntry>, from: int, until: int, weeks: seq<Week>, student: Id): (r: seq<StudentWeek>)
    ensures |r| == |weeks|
    ensures forall w :: 0 <= w < |weeks| ==> r[w] == WeekRows(journals, from, until, weeks[w], student)
  {
    seq(|weeks|, w requires 0 <= w < |weeks| => WeekRows(journals, from, until, weeks[w], student))
  }

  // ---------------------------------------------------------------------
  // The totals

  /** Every cell of the grid, week by week, day by day, lesson by lesson. */
  function AllLetters(weeks: seq<StudentWeek>): seq<Letter> {
    if |weeks| == 0 then [] else AllLetters(weeks[..|weeks| - 1]) + DaysLetters(weeks[|weeks| - 1].days)
  }

  function DaysLetters(days: seq<DayRow>): seq<Letter> {
    if |days| == 0 then [] else DaysLetters(days[..|days| - 1]) + days[|days| - 1].lessons
  }

  function CountOf(xs: seq<Letter>, l: Letter): nat {
    if |xs| == 0 then 0 else CountOf(xs[..|xs| - 1], l) + (if xs[|xs| - 1] == l then 1 else 0)
  }

  /** How many cells show a letter other than "—". */
  function Written(xs: seq<Letter>): nat {
    if |xs| == 0 then 0 else Written(xs[..|xs| - 1]) + (if xs[|xs| - 1] != Dash then 1 else 0)
  }

  /** The written cells are exactly the "H", "N" and "L" cells. */
  lemma {:induction false} WrittenSplit(xs: seq<Letter>)
    ensures Written(xs) == CountOf(xs, H) + CountOf(xs, N) + CountOf(xs, L)
  {
    if |xs| > 0 {
      WrittenSplit(xs[..|xs| - 1]);
    }
  }

  datatype Stats = Stats(total: nat, present: nat, absent: nat, rate: int)

  /** The totals: written cells, present ones, the difference, and the
      rounded percentage present. The absences counted are the "N" and "L"
      cells together, and the rate lies in 0..100. */
  function Tally(weeks: seq<StudentWeek>): (st: Stats)
    ensures var xs := AllLetters(weeks);
      && st.total == Written(xs)
      && st.present == CountOf(xs, H)
      && st.absent == CountOf(xs, N) + CountOf(xs, L)
      && st.rate == Percent(st.present, st.total)
      && 0 <= st.rate <= 100
  {
    var xs := AllLetters(weeks);
    WrittenSplit(xs);
    var total, present := Written(xs), CountOf(xs, H);
    Stats(total, present, total - present, Percent(present, total))
  }

  /** A grid without any written cell rates 0; one whose written cells are
      all "H" rates 100. */
  lemma TallyExtremes(weeks: seq<StudentWeek>)
    ensures var st := Tally(weeks);
      && (st.total == 0 ==> st.rate == 0)
      && (st.total > 0 && st.absent == 0 ==> st.rate == 100)
  {
    var st := Tally(weeks);
    if st.total > 0 && st.absent == 0 {
      PercentExtremes(st.total);
    }
  }

  datatype Report = Report(weeks: seq<StudentWeek>, stats: Stats)

  /** getMyAttendance for the signed-in student, if any. The grid walks the
      entries in the order the query sorts them, by date. */
  function StudentAttendance(journals: seq<JournalEntry>, studentId: Option<Id>, now: Now): (r: Result<Report>)
    requires ValidNow(now)
    ensures r.Err? <==> studentId.None?
    ensures r.Err? ==> r.failure == NotSignedIn
    ensures r.Ok? ==>
      var start := AcademicYearStartDay(now);
      && r.value.weeks == Grid(ByDate(journals), Midnight(start), NowInstant(now), SemesterWeeks(start, Today(now), None), studentId.value)
      && r.value.stats == Tally(r.value.weeks)
  {
    if studentId.None? then Err(NotSignedIn)
    else
      var start := AcademicYearStartDay(now);
      var weeks := Grid(ByDate(journals), Midnight(start), NowInstant(now), SemesterWeeks(start, Today(now), None), studentId.value);
      Ok(Report(weeks, Tally(weeks)))
  }

  /** A cell shows the letter of the student's first mark in the latest
      entry of that day and lesson that names the student, dated after
      every other such entry, … */
  lemma CellIsLastEntry(journals: seq<JournalEntry>, from: int, until: int, day: int, slot: int, student: Id,
                        e: JournalEntry)
    requires e in journals && Hits(e, from, until, day, slot, student)
    requires forall e' :: e' in journals && Hits(e', from, until, day, slot, student) && e' != e ==> e'.date < e.date
    ensures Cell(ByDate(journals), from, until, day, slot, student) ==
      LetterOf(e.students[FirstMarkAt(e.students, student).value].attendance)
  {
    var hit := HitFn(from, until, day, slot, student);
    assert forall e' :: e' in journals && hit(e') && e' != e ==> EntryDate(e') < EntryDate(e);
    LatestWins(Dash, journals, EntryDate, hit, LetterIn(student), e);
  }

  /** … and when several such entries share the latest instant, the letter
      of one of them. */
  lemma CellIsOneOfLatest(journals: seq<JournalEntry>, from: int, until: int, day: int, slot: int, student: Id,
                          e: JournalEntry) returns (latest: JournalEntry)
    requires e in journals && Hits(e, from, until, day, slot, student)
    ensures latest in journals && Hits(latest, from, until, day, slot, student)
    ensures forall e' :: e' in journals && Hits(e', from, until, day, slot, student) ==> e'.date <= latest.date
    ensures Cell(ByDate(journals), from, until, day, slot, student) ==
      LetterOf(latest.students[FirstMarkAt(latest.students, student).value].attendance)
  {
    latest := LatestDecides(Dash, journals, EntryDate, HitFn(from, until, day, slot, student), LetterIn(student), e);
  }

  /** A cell shows "—" exactly when no entry of that day and lesson names
      the student: entries of other days, other slots, or without the
      student never write. */
  lemma CellUnwritten(journals: seq<JournalEntry>, from: int, until: int, day: int, slot: int, student: Id)
    ensures Cell(ByDate(journals), from, until, day, slot, student) == Dash <==>
      forall e :: e in journals ==> !Hits(e, from, until, day, slot, student)
  {
    var hit := HitFn(from, until, day, slot, student);
    if forall e :: e in journals ==> !Hits(e, from, until, day, slot, student) {
      SortedMiss(Dash, journals, EntryDate, hit, LetterIn(student));
    } else {
      var e :| e in journals && Hits(e, from, until, day, slot, student);
      var latest := LatestDecides(Dash, journals, EntryDate, hit, LetterIn(student), e);
      assert hit(latest);
    }
  }
}
