/** getWeeklyGrades: the semester's grades and attendance of a group as a
    dense grid — per enrolled student, per begun week (at most 16), per
    day, six lesson cells — laid over the schedule's template, together with
    the subjects seen and the schedule's lesson counts per subject and
    block of six days. */
module GroupGrades {
  import opened Results
  import opened Records
  import opened Calendar
  import opened Semester
  import opened Weeks
  import opened Overlay
  import Journal

  /** What a matching entry writes into a cell: the student's attendance and
      grades and the entry's lesson type. */
  datatype Marked = Marked(
    attendance: Option<Attendance>,
    preparationGrade: Option<int>,
    taskGrade: Option<int>,
    lessonType: Option<LessonType>)

  /** The subject a cell is labelled with; "—" when there is none. */
  datatype Label = Label(subjectId: Option<Id>, subjectName: string)

  datatype GradeCell = GradeCell(marked: Marked, caption: Label)

  const NoSubjectName: string := "—"
  const EmptyCell: GradeCell := GradeCell(Marked(None, None, None, None), Label(None, NoSubjectName))

  /** The template cell of lesson `k` of a day: the schedule lesson's subject
      and type when the lesson at that position has a subject that exists,
      otherwise an empty cell. Lessons from the seventh on are never looked
      at. */
  function TemplateCell(dir: Directory, lessons: Option<seq<Lesson>>, k: nat): (c: GradeCell)
    requires k < 6
    ensures c.marked.attendance.None? && c.marked.preparationGrade.None? && c.marked.taskGrade.None?
    ensures c.caption.subjectId.Some? <==>
      lessons.Some? && k < |lessons.value| && SubjectOf(dir, lessons.value[k].subjectId).Some?
    ensures c.caption.subjectId.Some? ==>
      && c.caption.subjectId == lessons.value[k].subjectId
      && c.caption.subjectName == dir.subjectNames[c.caption.subjectId.value]
      && c.marked.lessonType == Some(LeanLessonType(lessons.value[k]))
    ensures c.caption.subjectId.None? ==> c == EmptyCell
  {
    if lessons.Some? && k < |lessons.value| && SubjectOf(dir, lessons.value[k].subjectId).Some? then
      var l := lessons.value[k];
      GradeCell(Marked(None, None, None, Some(LeanLessonType(l))),
                Label(l.subjectId, dir.subjectNames[l.subjectId.value]))
    else EmptyCell
  }

  /** The query's selection: the group's entries dated from the semester's
      first midnight to the present instant, of one subject when the request
      names one. */
  datatype Selection = Selection(groupId: Id, subject: Option<Id>, from: int, until: int)

  predicate Selected(e: JournalEntry, q: Selection) {
    && e.groupId == q.groupId
    && q.from <= e.date <= q.until
    && (q.subject.None? || e.subjectId == q.subject.value)
  }

  /** Whether entry `e` writes the cell of `student` on `day` in lesson
      `slot`: it is selected, falls on that civil day, sits in that slot
      (which lies in 1..6) and has a mark of the student. */
  predicate Hits(e: JournalEntry, q: Selection, day: int, slot: int, student: Id) {
    && Selected(e, q)
    && CivilDay(e.date) == day
    && 1 <= e.lessonSlot <= 6
    && e.lessonSlot == slot
    && FirstMarkAt(e.students, student).Some?
  }

  /** Whether it also relabels the cell: its subject exists. */
  predicate Relabels(dir: Directory, e: JournalEntry, q: Selection, day: int, slot: int, student: Id) {
    Hits(e, q, day, slot, student) && e.subjectId in dir.subjectNames
  }

  function HitFn(q: Selection, day: int, slot: int, student: Id): JournalEntry -> bool {
    (e: JournalEntry) => Hits(e, q, day, slot, student)
  }

  function RelabelFn(dir: Directory, q: Selection, day: int, slot: int, student: Id): JournalEntry -> bool {
    (e: JournalEntry) => Relabels(dir, e, q, day, slot, student)
  }

  /** The student's first mark in the entry, with the entry's lesson type. */
  function MarkedBy(student: Id): JournalEntry -> Marked {
    (e: JournalEntry) =>
      match FirstMarkAt(e.students, student)
      case Some(i) =>
        var m := e.students[i];
        Marked(Some(m.attendance), m.preparationGrade, m.taskGrade, Some(e.lessonType))
      case None => Marked(None, None, None, None)
  }

  function LabelOf(dir: Directory): JournalEntry -> Label {
    (e: JournalEntry) =>
      if e.subjectId in dir.subjectNames then Label(Some(e.subjectId), dir.subjectNames[e.subjectId])
      else Label(None, NoSubjectName)
  }

  /** The cell after the day's entries have been walked in store order. The
      walk writes the marked part on every hit and the label only on hits
      whose subject exists, so each part is its own last writer's. */
  function Cell(journals: seq<JournalEntry>, dir: Directory, q: Selection, template: GradeCell,
                day: int, slot: int, student: Id): GradeCell
  {
    GradeCell(
      LastWins(template.marked, journals, HitFn(q, day, slot, student), MarkedBy(student)),
      LastWins(template.caption, journals, RelabelFn(dir, q, day, slot, student), LabelOf(dir)))
  }

  /** The marks, grades and lesson type of a cell are those of the student's
      first mark in the last entry that hits the cell… */
  lemma CellMarkedByLastHit(journals: seq<JournalEntry>, dir: Directory, q: Selection, template: GradeCell,
                            day: int, slot: int, student: Id, j: nat)
    requires j < |journals| && Hits(journals[j], q, day, slot, student)
    requires forall j' :: j < j' < |journals| ==> !Hits(journals[j'], q, day, slot, student)
    ensures var m := journals[j].students[FirstMarkAt(journals[j].students, student).value];
      Cell(journals, dir, q, template, day, slot, student).marked ==
        Marked(Some(m.attendance), m.preparationGrade, m.taskGrade, Some(journals[j].lessonType))
  {
    var hit := HitFn(q, day, slot, student);
    assert hit(journals[j]);
    assert forall j' :: j < j' < |journals| ==> !hit(journals[j']);
    LastWinsHit(template.marked, journals, hit, MarkedBy(student), j);
  }

  /** … and the template's when no entry hits it. */
  lemma CellMarkedByTemplate(journals: seq<JournalEntry>, dir: Directory, q: Selection, template: GradeCell,
                             day: int, slot: int, student: Id)
    requires forall j :: 0 <= j < |journals| ==> !Hits(journals[j], q, day, slot, student)
    ensures Cell(journals, dir, q, template, day, slot, student) == template
  {
    LastWinsMiss(template.marked, journals, HitFn(q, day, slot, student), MarkedBy(student));
    LastWinsMiss(template.caption, journals, RelabelFn(dir, q, day, slot, student), LabelOf(dir));
  }

  /** The label is the subject of the last hitting entry whose subject
      exists; a later hit whose subject was deleted leaves it alone. */
  lemma CellLabelledByLastRelabel(journals: seq<JournalEntry>, dir: Directory, q: Selection, template: GradeCell,
                                  day: int, slot: int, student: Id, j: nat)
    requires j < |journals| && Relabels(dir, journals[j], q, day, slot, student)
    requires forall j' :: j < j' < |journals| ==> !Relabels(dir, journals[j'], q, day, slot, student)
    ensures Cell(journals, dir, q, template, day, slot, student).caption ==
      Label(Some(journals[j].subjectId), dir.subjectNames[journals[j].subjectId])
  {
    var hit := RelabelFn(dir, q, day, slot, student);
    assert hit(journals[j]);
    assert forall j' :: j < j' < |journals| ==> !hit(journals[j']);
    LastWinsHit(template.caption, journals, hit, LabelOf(dir), j);
  }

  /** Without such an entry the template's label stays. */
  lemma CellLabelledByTemplate(journals: seq<JournalEntry>, dir: Directory, q: Selection, template: GradeCell,
                               day: int, slot: int, student: Id)
    requires forall j :: 0 <= j < |journals| ==> !Relabels(dir, journals[j], q, day, slot, student)
    ensures Cell(journals, dir, q, template, day, slot, student).caption == template.caption
  {
    LastWinsMiss(template.caption, journals, RelabelFn(dir, q, day, slot, student), LabelOf(dir));
  }

  datatype GradeDay = GradeDay(weekNumber: nat, day: int, lessons: seq<GradeCell>)
  datatype GradeRow = GradeRow(studentId: Id, days: seq<GradeDay>)
  datatype SubjectEntry = SubjectEntry(id: Id, name: string)

  datatype GradesSheet = GradesSheet(
    groupName: string,
    rows: seq<GradeRow>,
    subjects: seq<SubjectEntry>,
    lessonCounts: map<(Id, int), nat>)

  /** The number of days in the weeks before week `w`. */
  function DaysBefore(weeks: seq<Week>, w: nat): nat
    requires w <= |weeks|
  {
    if w == 0 then 0 else DaysBefore(weeks, w - 1) + |weeks[w - 1].days|
  }

  lemma {:induction false} DaysBeforePrefix(weeks: seq<Week>, n: nat, w: nat)
    requires w <= n <= |weeks|
    ensures DaysBefore(weeks[..n], w) == DaysBefore(weeks, w)
  {
    if w > 0 {
      DaysBeforePrefix(weeks, n, w - 1);
      assert weeks[..n][w - 1] == weeks[w - 1];
    }
  }

  /** The days of one week, each with the week's number. */
  function WeekDays(week: Week): (r: seq<(nat, int)>)
    ensures |r| == |week.days|
    ensures forall i :: 0 <= i < |r| ==> r[i] == (week.number, week.days[i])
  {
    seq(|week.days|, i requires 0 <= i < |week.days| => (week.number, week.days[i]))
  }

  /** The calendar days of the walk, each with its week number, in order:
      `weeks.flatMap(w => w.days.map(...))`. As many days as the weeks hold,
      each taken from one of them; `WalkDaysAt` says where each one sits. */
  function WalkDays(weeks: seq<Week>): (r: seq<(nat, int)>)
    ensures |r| == DaysBefore(weeks, |weeks|)
    ensures forall i :: 0 <= i < |r| ==> exists w :: 0 <= w < |weeks| && r[i].0 == weeks[w].number && r[i].1 in weeks[w].days
  {
    if |weeks| == 0 then []
    else
      var n := |weeks| - 1;
      var init := WalkDays(weeks[..n]);
      var last := weeks[n];
      var r := init + WeekDays(last);
      DaysBeforePrefix(weeks, n, n);
      assert forall i :: 0 <= i < |init| ==> r[i] == init[i];
      assert forall w :: 0 <= w < n ==> weeks[..n][w] == weeks[w];
      assert forall i :: |init| <= i < |r| ==> r[i] == (last.number, last.days[i - |init|]);
      r
  }

  /** Day `k` of week `w` is walked right after the days of the earlier
      weeks, with the week's number. */
  lemma {:induction false} WalkDaysAt(weeks: seq<Week>, w: nat, k: nat)
    requires w < |weeks| && k < |weeks[w].days|
    ensures DaysBefore(weeks, w) + k < |WalkDays(weeks)|
    ensures WalkDays(weeks)[DaysBefore(weeks, w) + k] == (weeks[w].number, weeks[w].days[k])
  {
    var n := |weeks| - 1;
    var init := WalkDays(weeks[..n]);
    assert WalkDays(weeks) == init + WeekDays(weeks[n]);
    DaysBeforePrefix(weeks, n, n);
    if w < n {
      WalkDaysAt(weeks[..n], w, k);
      DaysBeforePrefix(weeks, n, w);
      assert weeks[..n][w] == weeks[w];
    }
  }

  /** The cells of one student on one day. */
  function DayCells(db: Journal.Db, q: Selection, day: int, student: Id): (cells: seq<GradeCell>)
    ensures |cells| == 6
    ensures forall s :: 0 <= s < 6 ==>
      cells[s] == Cell(db.journals, db.dir, q, TemplateCell(db.dir, Journal.DayLessons(db.schedules, q.groupId, Midnight(day)), s),
                       day, s + 1, student)
  {
    var lessons := Journal.DayLessons(db.schedules, q.groupId, Midnight(day));
    seq(6, s requires 0 <= s < 6 => Cell(db.journals, db.dir, q, TemplateCell(db.dir, lessons, s), day, s + 1, student))
  }

  function Row(db: Journal.Db, q: Selection, days: seq<(nat, int)>, student: Id): (row: GradeRow)
    ensures row.studentId == student && |row.days| == |days|
    ensures forall i :: 0 <= i < |days| ==>
      row.days[i] == GradeDay(days[i].0, days[i].1, DayCells(db, q, days[i].1, student))
  {
    GradeRow(student, seq(|days|, i requires 0 <= i < |days| =>
      GradeDay(days[i].0, days[i].1, DayCells(db, q, days[i].1, student))))
  }

  /** The existing subject of each of the given lessons. */
  function LessonSubjects(dir: Directory, lessons: seq<(nat, Lesson)>): (r: seq<Option<Id>>)
    ensures |r| == |lessons|
    ensures forall i :: 0 <= i < |r| ==> r[i] == SubjectOf(dir, lessons[i].1.subjectId)
    ensures forall i :: 0 <= i < |r| && r[i].Some? ==> r[i].value in dir.subjectNames
  {
    seq(|lessons|, i requires 0 <= i < |lessons| => SubjectOf(dir, lessons[i].1.subjectId))
  }

  /** The existing subject of each schedule lesson, in visiting order. */
  function ScheduleSubjects(dir: Directory, schedule: Option<WeeklySchedule>): seq<Option<Id>> {
    LessonSubjects(dir, if schedule.Some? then FlatLessons(schedule.value.week) else [])
  }

  /** The existing subject of each selected entry, in store order. */
  function EntrySubjects(journals: seq<JournalEntry>, dir: Directory, q: Selection): (r: seq<Option<Id>>)
    ensures |r| == |journals|
    ensures forall i :: 0 <= i < |r| ==>
      r[i] == if Selected(journals[i], q) then SubjectOf(dir, Some(journals[i].subjectId)) else None
    ensures forall i :: 0 <= i < |r| && r[i].Some? ==> r[i].value in dir.subjectNames
  {
    seq(|journals|, i requires 0 <= i < |journals| =>
      if Selected(journals[i], q) then SubjectOf(dir, Some(journals[i].subjectId)) else None)
  }

  /** The subjects of the response: those of the schedule's lessons, then
      those of the selected entries, each once and only when it exists. */
  function SubjectIds(journals: seq<JournalEntry>, dir: Directory, q: Selection, schedule: Option<WeeklySchedule>)
    : (r: seq<Id>)
    ensures Distinct(r)
    ensures forall i :: 0 <= i < |r| ==> r[i] in dir.subjectNames
  {
    var ys, zs := ScheduleSubjects(dir, schedule), EntrySubjects(journals, dir, q);
    SomesKnown(ys, dir);
    SomesKnown(zs, dir);
    var xs := Somes(ys) + Somes(zs);
    assert forall i :: 0 <= i < |xs| ==> xs[i] in dir.subjectNames;
    Dedup(xs)
  }

  lemma SomesKnown(xs: seq<Option<Id>>, dir: Directory)
    requires forall i :: 0 <= i < |xs| && xs[i].Some? ==> xs[i].value in dir.subjectNames
    ensures forall k :: 0 <= k < |Somes(xs)| ==> Somes(xs)[k] in dir.subjectNames
  {
  }

  /** The listed subjects are exactly those the two sources name. */
  lemma SubjectIdsMembership(journals: seq<JournalEntry>, dir: Directory, q: Selection, schedule: Option<WeeklySchedule>,
                             x: Id)
    ensures x in SubjectIds(journals, dir, q, schedule) <==>
      x in Somes(ScheduleSubjects(dir, schedule)) || x in Somes(EntrySubjects(journals, dir, q))
  {
    DedupMembership(Somes(ScheduleSubjects(dir, schedule)) + Somes(EntrySubjects(journals, dir, q)), x);
  }

  /** A subject is listed when some schedule lesson or some selected entry
      refers to it and it exists… */
  lemma ScheduledSubjectListed(journals: seq<JournalEntry>, dir: Directory, q: Selection, schedule: WeeklySchedule,
                               d: nat, k: nat)
    requires d < |schedule.week| && k < |schedule.week[d].lessons|
    requires SubjectOf(dir, schedule.week[d].lessons[k].subjectId).Some?
    ensures schedule.week[d].lessons[k].subjectId.value in SubjectIds(journals, dir, q, Some(schedule))
  {
    var xs := ScheduleSubjects(dir, Some(schedule));
    var flat := FlatLessons(schedule.week);
    assert (d, schedule.week[d].lessons[k]) in flat;
    var i :| 0 <= i < |flat| && flat[i] == (d, schedule.week[d].lessons[k]);
    SomesKeeps(xs, i);
    SubjectIdsMembership(journals, dir, q, Some(schedule), schedule.week[d].lessons[k].subjectId.value);
  }

  lemma EnteredSubjectListed(journals: seq<JournalEntry>, dir: Directory, q: Selection, schedule: Option<WeeklySchedule>,
                             i: nat)
    requires i < |journals| && Selected(journals[i], q) && journals[i].subjectId in dir.subjectNames
    ensures journals[i].subjectId in SubjectIds(journals, dir, q, schedule)
  {
    SomesKeeps(EntrySubjects(journals, dir, q), i);
    SubjectIdsMembership(journals, dir, q, schedule, journals[i].subjectId);
  }

  /** … and only then. */
  lemma ListedSubjectKnown(journals: seq<JournalEntry>, dir: Directory, q: Selection, schedule: Option<WeeklySchedule>,
                           x: Id)
    requires x in SubjectIds(journals, dir, q, schedule)
    ensures x in dir.subjectNames
    ensures || (schedule.Some? && exists p :: p in FlatLessons(schedule.value.week) && p.1.subjectId == Some(x))
            || (exists i :: 0 <= i < |journals| && Selected(journals[i], q) && journals[i].subjectId == x)
  {
    SubjectIdsMembership(journals, dir, q, schedule, x);
    if x in Somes(ScheduleSubjects(dir, schedule)) {
      ScheduleSomesSource(dir, schedule, x);
    } else {
      EntrySomesSource(journals, dir, q, x);
    }
  }

  lemma ScheduleSomesSource(dir: Directory, schedule: Option<WeeklySchedule>, x: Id)
    requires x in Somes(ScheduleSubjects(dir, schedule))
    ensures x in dir.subjectNames
    ensures schedule.Some? && exists p :: p in FlatLessons(schedule.value.week) && p.1.subjectId == Some(x)
  {
    var ys := ScheduleSubjects(dir, schedule);
    var k :| 0 <= k < |Somes(ys)| && Somes(ys)[k] == x;
    var i := SomeIndices(ys)[k];
    var flat := if schedule.Some? then FlatLessons(schedule.value.week) else [];
    assert ys[i] == SubjectOf(dir, flat[i].1.subjectId);
    assert flat[i] in flat;
  }

  lemma EntrySomesSource(journals: seq<JournalEntry>, dir: Directory, q: Selection, x: Id)
    requires x in Somes(EntrySubjects(journals, dir, q))
    ensures x in dir.subjectNames
    ensures exists i :: 0 <= i < |journals| && Selected(journals[i], q) && journals[i].subjectId == x
  {
    var zs := EntrySubjects(journals, dir, q);
    var k :| 0 <= k < |Somes(zs)| && Somes(zs)[k] == x;
    var i := SomeIndices(zs)[k];
    assert Selected(journals[i], q) && journals[i].subjectId == x;
  }

  /** `weeklyLessonCounts[subject][w]`: the schedule's lessons of the
      subject on the days at positions `6(w-1)` to `6w - 1` of the week
      list (positions, not weekdays). */
  function LessonCount(dir: Directory, week: seq<DaySchedule>, subject: Id, w: int): (n: nat)
  {
    CountWhere(FlatLessons(week), (p: (nat, Lesson)) => p.0 / 6 + 1 == w && SubjectOf(dir, p.1.subjectId) == Some(subject))
  }

  /** A count is positive exactly when the subject has a lesson on some day
      of that block. */
  lemma LessonCounted(dir: Directory, week: seq<DaySchedule>, subject: Id, w: int, d: nat, k: nat)
    requires d < |week| && k < |week[d].lessons| && d / 6 + 1 == w
    requires SubjectOf(dir, week[d].lessons[k].subjectId) == Some(subject)
    ensures LessonCount(dir, week, subject, w) > 0
  {
    var flat := FlatLessons(week);
    assert (d, week[d].lessons[k]) in flat;
  }

  lemma CountedLesson(dir: Directory, week: seq<DaySchedule>, subject: Id, w: int)
    requires LessonCount(dir, week, subject, w) > 0
    ensures exists i :: (0 <= i < |FlatLessons(week)| && FlatLessons(week)[i].0 / 6 + 1 == w
      && SubjectOf(dir, FlatLessons(week)[i].1.subjectId) == Some(subject))
  {
  }

  /** The subjects, existing in the directory, of the schedule's lessons. */
  function CountedSubjects(dir: Directory, week: seq<DaySchedule>): set<Id> {
    set p | p in FlatLessons(week) && SubjectOf(dir, p.1.subjectId).Some? :: p.1.subjectId.value
  }

  /** A positive count belongs to a subject of the schedule and to one of
      its blocks of six days. */
  lemma CountedKey(dir: Directory, week: seq<DaySchedule>, subject: Id, w: int)
    requires LessonCount(dir, week, subject, w) > 0
    ensures subject in CountedSubjects(dir, week) && 1 <= w <= (|week| + 5) / 6
  {
    CountedLesson(dir, week, subject, w);
    var flat := FlatLessons(week);
    var i :| 0 <= i < |flat| && flat[i].0 / 6 + 1 == w && SubjectOf(dir, flat[i].1.subjectId) == Some(subject);
    assert flat[i] in flat && flat[i].1.subjectId.value == subject;
    assert flat[i].0 < |week|;
  }

  /** The object of counts: one key per subject and block with a positive
      count, for the group's schedule if it has one. */
  function LessonCounts(dir: Directory, schedule: Option<WeeklySchedule>): (m: map<(Id, int), nat>)
    ensures schedule.None? ==> m == map[]
    ensures forall key :: key in m ==> schedule.Some? && m[key] == LessonCount(dir, schedule.value.week, key.0, key.1) > 0
  {
    if schedule.None? then map[]
    else
      var week := schedule.value.week;
      var subjects := CountedSubjects(dir, week);
      var blocks := (|week| + 5) / 6;
      map key | key in (set s, w | s in subjects && 1 <= w <= blocks :: (s, w)) && LessonCount(dir, week, key.0, key.1) > 0
        :: LessonCount(dir, week, key.0, key.1)
  }

  /** Every subject and block with a positive count has its key. */
  lemma LessonCountsComplete(dir: Directory, schedule: WeeklySchedule, subject: Id, w: int)
    requires LessonCount(dir, schedule.week, subject, w) > 0
    ensures (subject, w) in LessonCounts(dir, Some(schedule))
    ensures LessonCounts(dir, Some(schedule))[(subject, w)] == LessonCount(dir, schedule.week, subject, w)
  {
    var week := schedule.week;
    CountedKey(dir, week, subject, w);
    var subjects := CountedSubjects(dir, week);
    var blocks := (|week| + 5) / 6;
    assert subject in subjects && 1 <= w <= blocks;
    var keys := set s, b | s in subjects && 1 <= b <= blocks :: (s, b);
    assert (subject, w) in keys;
  }

  /** One row per populated roster entry, in roster order. */
  function Rows(db: Journal.Db, q: Selection, days: seq<(nat, int)>, ids: seq<Id>): (rows: seq<GradeRow>)
    ensures |rows| == |ids|
    ensures forall k :: 0 <= k < |ids| ==> rows[k] == Row(db, q, days, ids[k])
  {
    seq(|ids|, k requires 0 <= k < |ids| => Row(db, q, days, ids[k]))
  }

  /** `{ id, name }` of each listed subject, in order. */
  function SubjectEntries(dir: Directory, subjects: seq<Id>): (r: seq<SubjectEntry>)
    requires forall i :: 0 <= i < |subjects| ==> subjects[i] in dir.subjectNames
    ensures |r| == |subjects|
    ensures forall i :: 0 <= i < |r| ==> r[i].id == subjects[i] && r[i].name == dir.subjectNames[subjects[i]]
  {
    seq(|subjects|, i requires 0 <= i < |subjects| => SubjectEntry(subjects[i], dir.subjectNames[subjects[i]]))
  }

  /** The group's weekly schedule, the first one stored for it. */
  function GroupSchedule(db: Journal.Db, groupId: Id): (r: Option<WeeklySchedule>)
    ensures r.Some? ==> r.value in db.schedules && r.value.groupId == groupId
    ensures r.None? <==> forall i :: 0 <= i < |db.schedules| ==> db.schedules[i].groupId != groupId
  {
    match Journal.FindSchedule(db.schedules, groupId)
    case Some(i) => Some(db.schedules[i])
    case None => None
  }

  /** getWeeklyGrades for a group that may not exist. */
  function WeeklyGrades(db: Journal.Db, groupId: Id, subject: Option<Id>, now: Now): (r: Result<GradesSheet>)
    requires ValidNow(now)
    ensures r.Err? <==> groupId >= |db.groups|
    ensures r.Err? ==> r.failure == GroupNotFound
    ensures r.Ok? ==>
      var start := AcademicYearStartDay(now);
      var q := Selection(groupId, subject, Midnight(start), NowInstant(now));
      var ids := Journal.Enrolled(db.groups[groupId].students, db.dir.students);
      var days := WalkDays(SemesterWeeks(start, Today(now), Some(16)));
      var schedule := GroupSchedule(db, groupId);
      var subjects := SubjectIds(db.journals, db.dir, q, schedule);
      && r.value.groupName == db.groups[groupId].name
      && r.value.rows == Rows(db, q, days, ids)
      && r.value.subjects == SubjectEntries(db.dir, subjects)
      && r.value.lessonCounts == LessonCounts(db.dir, schedule)
  {
    if groupId >= |db.groups| then Err(GroupNotFound)
    else
      var group := db.groups[groupId];
      var start := AcademicYearStartDay(now);
      var q := Selection(groupId, subject, Midnight(start), NowInstant(now));
      var schedule := GroupSchedule(db, groupId);
      var ids := Journal.Enrolled(group.students, db.dir.students);
      var days := WalkDays(SemesterWeeks(start, Today(now), Some(16)));
      var subjects := SubjectIds(db.journals, db.dir, q, schedule);
      Ok(GradesSheet(group.name, Rows(db, q, days, ids), SubjectEntries(db.dir, subjects), LessonCounts(db.dir, schedule)))
  }
}
