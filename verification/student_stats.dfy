/** The student dashboard: the semester's attendance rate, the number of
    subjects the group's schedule lists, the per-subject grade averages,
    and the page arithmetic of the student listing. */
module StudentStats {
  import opened Results
  import opened Records
  import opened Calendar
  import opened Semester
  import opened Rounding
  import opened Overlay
  import opened ObjectKeys
  import Journal

  // ---------------------------------------------------------------------
  // The semester window

  /** The instants `date: { $gte: start, $lte: end }` admits. */
  datatype Window = Window(from: int, until: int)

  /** `start` and `end` are the local midnights of the range's first and
      last day, so the last day itself is admitted only at its midnight. */
  function WindowOf(range: SemesterRange): (w: Window)
    requires ValidDate(range.start) && ValidDate(range.end)
    ensures w.from == Midnight(DayNumber(range.start)) && w.until == Midnight(DayNumber(range.end))
  {
    Window(Midnight(DayNumber(range.start)), Midnight(DayNumber(range.end)))
  }

  predicate InRange(e: JournalEntry, w: Window) {
    w.from <= e.date <= w.until
  }

  /** `"students.studentId": id` together with the window: the entry holds
      a mark of the student. */
  predicate Listed(e: JournalEntry, student: Id, w: Window) {
    InRange(e, w) && FirstMarkAt(e.students, student).Some?
  }

  /** The student's own mark in the entry says present. */
  predicate OwnPresent(e: JournalEntry, student: Id) {
    exists i :: 0 <= i < |e.students| && e.students[i].studentId == student && e.students[i].attendance == Present
  }

  /** Some mark of the entry, whoever it belongs to, says present. */
  predicate AnyPresent(e: JournalEntry) {
    exists i :: 0 <= i < |e.students| && e.students[i].attendance == Present
  }

  function ListedFn(student: Id, w: Window): JournalEntry -> bool {
    (e: JournalEntry) => Listed(e, student, w)
  }

  function PresentFn(student: Id, w: Window): JournalEntry -> bool {
    (e: JournalEntry) => Listed(e, student, w) && OwnPresent(e, student)
  }

  /** The two conditions `"students.studentId"` and `"students.attendance"`
      written side by side, each free to match a different mark. */
  function PresentAsWrittenFn(student: Id, w: Window): JournalEntry -> bool {
    (e: JournalEntry) => Listed(e, student, w) && AnyPresent(e)
  }

  // ---------------------------------------------------------------------
  // The attendance rate

  /** `totalClasses`: the entries of the semester that hold a mark of the
      student. */
  function ClassCount(journals: seq<JournalEntry>, student: Id, w: Window): (n: nat)
    ensures n <= |journals|
    ensures n == 0 <==> forall j :: 0 <= j < |journals| ==> !Listed(journals[j], student, w)
  {
    CountWhere(journals, ListedFn(student, w))
  }

  /** The entries of the semester in which the student's own mark says
      present; never more than the classes, since the condition only adds to
      the class condition. */
  function PresentCount(journals: seq<JournalEntry>, student: Id, w: Window): (n: nat)
    ensures n <= ClassCount(journals, student, w)
    ensures n == 0 <==>
      forall j :: 0 <= j < |journals| ==> !(Listed(journals[j], student, w) && OwnPresent(journals[j], student))
  {
    CountWhereMono(journals, PresentFn(student, w), ListedFn(student, w));
    CountWhere(journals, PresentFn(student, w))
  }

  /** `presentCount` as the query is written: the entries of the semester
      that list the student and in which anybody is present. */
  function PresentCountAsWritten(journals: seq<JournalEntry>, student: Id, w: Window): (n: nat)
    ensures n <= ClassCount(journals, student, w)
    ensures n == 0 <==> forall j :: 0 <= j < |journals| ==> !(Listed(journals[j], student, w) && AnyPresent(journals[j]))
  {
    CountWhereMono(journals, PresentAsWrittenFn(student, w), ListedFn(student, w));
    CountWhere(journals, PresentAsWrittenFn(student, w))
  }

  /** The student's attendance rate for the semester, in percent. */
  function SemesterRate(journals: seq<JournalEntry>, student: Id, w: Window): (rate: int)
    ensures 0 <= rate <= 100
    ensures rate == Percent(PresentCount(journals, student, w), ClassCount(journals, student, w))
  {
    Percent(PresentCount(journals, student, w), ClassCount(journals, student, w))
  }

  function SemesterRateAsWritten(journals: seq<JournalEntry>, student: Id, w: Window): (rate: int)
    ensures 0 <= rate <= 100
    ensures rate == Percent(PresentCountAsWritten(journals, student, w), ClassCount(journals, student, w))
  {
    Percent(PresentCountAsWritten(journals, student, w), ClassCount(journals, student, w))
  }

  /** The rate reads the student's own marks: 0 when none of them says
      present (or there are no classes), 100 when every class has the
      student present. */
  lemma SemesterRateExtremes(journals: seq<JournalEntry>, student: Id, w: Window)
    ensures (forall j :: 0 <= j < |journals| && Listed(journals[j], student, w) ==> !OwnPresent(journals[j], student))
      ==> SemesterRate(journals, student, w) == 0
    ensures (ClassCount(journals, student, w) > 0 &&
             forall j :: 0 <= j < |journals| && Listed(journals[j], student, w) ==> OwnPresent(journals[j], student))
      ==> SemesterRate(journals, student, w) == 100
  {
    var present, total := PresentCount(journals, student, w), ClassCount(journals, student, w);
    if total > 0 {
      PercentExtremes(total);
      if forall j :: 0 <= j < |journals| && Listed(journals[j], student, w) ==> OwnPresent(journals[j], student) {
        AllPresentCounted(journals, student, w);
      }
    }
  }

  lemma AllPresentCounted(journals: seq<JournalEntry>, student: Id, w: Window)
    requires forall j :: 0 <= j < |journals| && Listed(journals[j], student, w) ==> OwnPresent(journals[j], student)
    ensures PresentCount(journals, student, w) == ClassCount(journals, student, w)
  {
    CountWhereMono(journals, ListedFn(student, w), PresentFn(student, w));
  }

  /** The query as written overcounts: an entry in which the student is
      absent and a classmate present counts as attended, so the rate reads
      100 where the student's own marks give 0. */
  lemma AsWrittenCountsClassmates(w: Window, e: JournalEntry, student: Id, other: Id)
    requires InRange(e, w) && student != other
    requires e.students == [Mark(student, Absent, None, None), Mark(other, Present, None, None)]
    ensures SemesterRateAsWritten([e], student, w) == 100
    ensures SemesterRate([e], student, w) == 0
  {
    var js := [e];
    assert js[..0] == [];
    assert e.students[1].attendance == Present;
    assert FirstMarkAt(e.students, student).Some? by {
      assert e.students[0].studentId == student;
    }
    assert !OwnPresent(e, student);
    assert ClassCount(js, student, w) == 1;
    assert PresentCountAsWritten(js, student, w) == 1;
    PercentExtremes(1);
  }

  // ---------------------------------------------------------------------
  // The number of subjects

  /** `WeeklySchedule.findOne({ groupId, semester })`: the first schedule of
      the group for the semester. The query casts the semester to a number,
      so a `NaN` semester never gets here: the query throws (see
      `MyDashboardStats`). */
  function SemesterSchedule(schedules: seq<WeeklySchedule>, groupId: Id, semester: int): (r: Option<nat>)
    ensures r.Some? ==>
      r.value < |schedules| && schedules[r.value].groupId == groupId && schedules[r.value].semester == semester
    ensures r.None? <==> forall j :: 0 <= j < |schedules| ==>
      !(schedules[j].groupId == groupId && schedules[j].semester == semester)
  {
    FirstWhere(schedules, (s: WeeklySchedule) => s.groupId == groupId && s.semester == semester)
  }

  /** The subject references of the lessons, unpopulated. */
  function LessonRefs(lessons: seq<(nat, Lesson)>): (r: seq<Option<Id>>)
    ensures |r| == |lessons|
    ensures forall i :: 0 <= i < |lessons| ==> r[i] == lessons[i].1.subjectId
  {
    seq(|lessons|, i requires 0 <= i < |lessons| => lessons[i].1.subjectId)
  }

  /** Every non-null subject reference of the week, in visiting order. */
  function SubjectRefs(week: seq<DaySchedule>): seq<Id> {
    Somes(LessonRefs(FlatLessons(week)))
  }

  /** The size of the set of the schedule's subject references; 0 without
      a schedule, because the group record keeps no subject list. */
  function SubjectsCount(schedules: seq<WeeklySchedule>, groupId: Id, semester: int): (n: nat)
    ensures SemesterSchedule(schedules, groupId, semester).None? ==> n == 0
    ensures SemesterSchedule(schedules, groupId, semester).Some? ==>
      n == |SetOf(SubjectRefs(schedules[SemesterSchedule(schedules, groupId, semester).value].week))|
  {
    match SemesterSchedule(schedules, groupId, semester)
    case None => 0
    case Some(si) =>
      var refs := SubjectRefs(schedules[si].week);
      DedupSet(refs);
      DistinctCardinality(Dedup(refs));
      |Dedup(refs)|
  }

  lemma DedupSet(xs: seq<Id>)
    ensures SetOf(Dedup(xs)) == SetOf(xs)
  {
    forall x | x in SetOf(xs) ensures x in SetOf(Dedup(xs)) {
      DedupMembership(xs, x);
    }
    forall x | x in SetOf(Dedup(xs)) ensures x in SetOf(xs) {
      DedupMembership(xs, x);
    }
  }

  /** A subject is counted exactly when some lesson of the week refers to
      it, so the count is positive exactly when some lesson has one. */
  lemma SubjectRefsListed(week: seq<DaySchedule>, x: Id)
    ensures x in SetOf(SubjectRefs(week)) <==>
      exists d, k :: 0 <= d < |week| && 0 <= k < |week[d].lessons| && week[d].lessons[k].subjectId == Some(x)
  {
    if x in SetOf(SubjectRefs(week)) {
      SubjectRefSource(week, x);
    }
    if exists d, k :: 0 <= d < |week| && 0 <= k < |week[d].lessons| && week[d].lessons[k].subjectId == Some(x) {
      var d, k :| 0 <= d < |week| && 0 <= k < |week[d].lessons| && week[d].lessons[k].subjectId == Some(x);
      SubjectRefKept(week, d, k);
    }
  }

  lemma SubjectRefSource(week: seq<DaySchedule>, x: Id)
    requires x in SubjectRefs(week)
    ensures exists d, k :: 0 <= d < |week| && 0 <= k < |week[d].lessons| && week[d].lessons[k].subjectId == Some(x)
  {
    var flat := FlatLessons(week);
    var refs := LessonRefs(flat);
    var k :| 0 <= k < |Somes(refs)| && Somes(refs)[k] == x;
    var i := SomeIndices(refs)[k];
    assert refs[i] == Some(x);
    var d, l := flat[i].0, flat[i].1;
    assert l.subjectId == Some(x);
    var p :| 0 <= p < |week[d].lessons| && week[d].lessons[p] == l;
  }

  lemma SubjectRefKept(week: seq<DaySchedule>, d: nat, k: nat)
    requires d < |week| && k < |week[d].lessons| && week[d].lessons[k].subjectId.Some?
    ensures week[d].lessons[k].subjectId.value in SubjectRefs(week)
  {
    var flat := FlatLessons(week);
    assert (d, week[d].lessons[k]) in flat;
    var i :| 0 <= i < |flat| && flat[i] == (d, week[d].lessons[k]);
    SomesKeeps(LessonRefs(flat), i);
  }

  // ---------------------------------------------------------------------
  // getMyDashboardStats

  datatype StudentDashboard = StudentDashboard(groupName: string, subjectsCount: nat, attendanceRate: int)

  /** The parts of the dashboard that do not depend on how presence is
      counted. */
  function Dashboard(db: Journal.Db, g: nat, semester: int, rate: int): (r: StudentDashboard)
    requires g < |db.groups|
    ensures r.groupName == db.groups[g].name && r.attendanceRate == rate
    ensures r.subjectsCount == SubjectsCount(db.schedules, g, semester)
  {
    StudentDashboard(db.groups[g].name, SubjectsCount(db.schedules, g, semester), rate)
  }

  /** getMyDashboardStats with the presence condition on the student's own
      mark. `sem` is the `semester` query parameter; the group is the first
      whose roster lists the student. A semester that parses to `NaN` makes
      the schedule query throw a cast error, answered with 500. */
  function MyDashboardStats(db: Journal.Db, studentId: Option<Id>, sem: Option<ParsedInt>, now: Now): (r: Result<StudentDashboard>)
    requires ValidNow(now)
    ensures studentId.None? ==> r == Err(NotSignedIn)
    ensures studentId.Some? && FindGroup(db.groups, studentId.value).None? ==> r == Err(GroupNotFound)
    ensures studentId.Some? && FindGroup(db.groups, studentId.value).Some? ==>
      (GetSemesterDates(sem, now.date).semester.NaN? <==> r == Err(Crash))
    ensures r.Ok? ==>
      && studentId.Some? && FindGroup(db.groups, studentId.value).Some?
      && var range := GetSemesterDates(sem, now.date);
      && var g := FindGroup(db.groups, studentId.value).value;
      && range.semester.Num?
      && r.value.groupName == db.groups[g].name
      && r.value.subjectsCount == SubjectsCount(db.schedules, g, range.semester.n)
      && r.value.attendanceRate == SemesterRate(db.journals, studentId.value, WindowOf(range))
  {
    if studentId.None? then Err(NotSignedIn)
    else match FindGroup(db.groups, studentId.value)
      case None => Err(GroupNotFound)
      case Some(g) =>
        var range := GetSemesterDates(sem, now.date);
        if range.semester.NaN? then Err(Crash)
        else Ok(Dashboard(db, g, range.semester.n, SemesterRate(db.journals, studentId.value, WindowOf(range))))
  }

  /** getMyDashboardStats as written: the rate counts entries in which
      anybody is present. */
  function MyDashboardStatsAsWritten(db: Journal.Db, studentId: Option<Id>, sem: Option<ParsedInt>, now: Now): (r: Result<StudentDashboard>)
    requires ValidNow(now)
    ensures studentId.None? ==> r == Err(NotSignedIn)
    ensures studentId.Some? && FindGroup(db.groups, studentId.value).None? ==> r == Err(GroupNotFound)
    ensures studentId.Some? && FindGroup(db.groups, studentId.value).Some? ==>
      (GetSemesterDates(sem, now.date).semester.NaN? <==> r == Err(Crash))
    ensures r.Ok? ==>
      && studentId.Some? && FindGroup(db.groups, studentId.value).Some?
      && var range := GetSemesterDates(sem, now.date);
      && r.value.attendanceRate == SemesterRateAsWritten(db.journals, studentId.value, WindowOf(range))
      && r.value == MyDashboardStats(db, studentId, sem, now).value.(attendanceRate := r.value.attendanceRate)
  {
    if studentId.None? then Err(NotSignedIn)
    else match FindGroup(db.groups, studentId.value)
      case None => Err(GroupNotFound)
      case Some(g) =>
        var range := GetSemesterDates(sem, now.date);
        if range.semester.NaN? then Err(Crash)
        else Ok(Dashboard(db, g, range.semester.n, SemesterRateAsWritten(db.journals, studentId.value, WindowOf(range))))
  }

  // ---------------------------------------------------------------------
  // getMyGradesOverview

  /** The subject caption of an entry: the populated name, or "—" when the
      subject is gone or its name is empty. */
  function Caption(dir: Directory, e: JournalEntry): (c: string)
    ensures c != ""
    ensures e.subjectId !in dir.subjectNames ==> c == "—"
  {
    if e.subjectId in dir.subjectNames && dir.subjectNames[e.subjectId] != "" then dir.subjectNames[e.subjectId]
    else "—"
  }

  /** The grade an entry contributes: the task grade, else the preparation
      grade, else 0, from the student's first mark. */
  function OverviewGrade(e: JournalEntry, student: Id): (g: int)
    ensures ValidEntry(e) ==> 0 <= g <= 5
  {
    match FirstMarkAt(e.students, student)
    case None => 0
    case Some(i) =>
      var m := e.students[i];
      assert ValidEntry(e) ==> ValidMark(m);
      m.taskGrade.GetOr(m.preparationGrade.GetOr(0))
  }

  /** The entries an average is taken over: those the query returns, less
      the lectures. */
  predicate Graded(e: JournalEntry, student: Id, w: Window) {
    Listed(e, student, w) && e.lessonType != Lecture
  }

  function GradedFn(student: Id, w: Window): JournalEntry -> bool {
    (e: JournalEntry) => Graded(e, student, w)
  }

  function CaptionFn(dir: Directory): JournalEntry -> string {
    (e: JournalEntry) => Caption(dir, e)
  }

  function CaptionIs(dir: Directory, name: string): JournalEntry -> bool {
    (e: JournalEntry) => Caption(dir, e) == name
  }

  /** `gradesBySubject[name].count`. */
  function CountFor(dir: Directory, es: seq<JournalEntry>, name: string): nat {
    CountWhere(es, CaptionIs(dir, name))
  }

  /** `gradesBySubject[name].total`. */
  function TotalFor(dir: Directory, es: seq<JournalEntry>, student: Id, name: string): int {
    if |es| == 0 then 0
    else
      var e := es[|es| - 1];
      TotalFor(dir, es[..|es| - 1], student, name) + (if Caption(dir, e) == name then OverviewGrade(e, student) else 0)
  }

  /** With valid marks the total lies between 0 and five times the count. */
  lemma {:induction false} TotalWithin(dir: Directory, es: seq<JournalEntry>, student: Id, name: string)
    requires forall i :: 0 <= i < |es| ==> ValidEntry(es[i])
    ensures 0 <= TotalFor(dir, es, student, name) <= 5 * CountFor(dir, es, name)
  {
    if |es| > 0 {
      var init := es[..|es| - 1];
      assert forall i :: 0 <= i < |init| ==> init[i] == es[i];
      TotalWithin(dir, init, student, name);
      assert ValidEntry(es[|es| - 1]);
    }
  }

  /** A caption that occurs is counted at least once. */
  lemma NameCounted(dir: Directory, es: seq<JournalEntry>, name: string)
    requires name in MapSeq(es, CaptionFn(dir))
    ensures CountFor(dir, es, name) >= 1
  {
    var i :| 0 <= i < |es| && MapSeq(es, CaptionFn(dir))[i] == name;
    assert CaptionIs(dir, name)(es[i]);
  }

  datatype SubjectAverage = SubjectAverage(subject: string, averageTenths: int)

  /** One row per caption, in the order `Object.keys` lists the captions,
      with the mean in tenths of that caption's grades. */
  function Averages(dir: Directory, es: seq<JournalEntry>, student: Id): (r: seq<SubjectAverage>)
    ensures |r| == |Subjects(dir, es)|
    ensures forall k :: 0 <= k < |r| ==> r[k].subject == Subjects(dir, es)[k]
  {
    var names := Subjects(dir, es);
    seq(|names|, k requires 0 <= k < |names| => SubjectRow(dir, es, student, names[k]))
  }

  /** The captions of the entries, each once, as `Object.keys` lists the
      keys of `gradesBySubject`; `SubjectsOrder` gives the order. A caption
      that names an `Object.prototype` member never becomes an own key, so
      it is not listed. */
  function Subjects(dir: Directory, es: seq<JournalEntry>): (names: seq<string>)
    ensures forall k :: 0 <= k < |names| ==> names[k] in MapSeq(es, CaptionFn(dir)) && !Inherited(names[k])
    ensures forall i :: 0 <= i < |es| && !Inherited(Caption(dir, es[i])) ==> Caption(dir, es[i]) in names
  {
    var captions := MapSeq(es, CaptionFn(dir));
    var names := Keys(Created(captions));
    forall k | 0 <= k < |names| ensures names[k] in captions && !Inherited(names[k]) {
      KeysMembership(Created(captions), names[k]);
    }
    forall i | 0 <= i < |es| && !Inherited(Caption(dir, es[i])) ensures Caption(dir, es[i]) in names {
      assert captions[i] in captions;
      KeysMembership(Created(captions), captions[i]);
    }
    names
  }

  /** Each caption is listed once: captions that are array indices ("1",
      "42") first, by value; the others in order of first occurrence. */
  lemma SubjectsOrder(dir: Directory, es: seq<JournalEntry>)
    ensures var names := Subjects(dir, es);
      && Distinct(names)
      && (forall i, j :: 0 <= i < j < |names| && ArrayIndex(names[j]) ==>
            ArrayIndex(names[i]) && DigitsValue(names[i]) <= DigitsValue(names[j]))
      && var rest := Filter(Created(MapSeq(es, CaptionFn(dir))), NotIndexFn());
         |rest| <= |names| && names[|names| - |rest|..] == rest
  {
    KeysDistinct(Created(MapSeq(es, CaptionFn(dir))));
  }

  /** When no caption is an array index or an inherited name, the captions
      keep the order in which they first occur. */
  lemma {:induction false} SubjectsInFirstOccurrence(dir: Directory, es: seq<JournalEntry>)
    requires forall i :: 0 <= i < |es| ==> !ArrayIndex(Caption(dir, es[i])) && !Inherited(Caption(dir, es[i]))
    ensures Subjects(dir, es) == Dedup(MapSeq(es, CaptionFn(dir)))
  {
    var captions := MapSeq(es, CaptionFn(dir));
    forall i | 0 <= i < |captions| ensures !ArrayIndex(captions[i]) && !Inherited(captions[i]) {
      assert captions[i] == Caption(dir, es[i]);
    }
    PlainKeysInFirstOccurrence(captions);
  }

  /** The row of one caption that occurs among the entries. */
  function SubjectRow(dir: Directory, es: seq<JournalEntry>, student: Id, name: string): (row: SubjectAverage)
    requires name in MapSeq(es, CaptionFn(dir))
    ensures row.subject == name && CountFor(dir, es, name) >= 1
  {
    NameCounted(dir, es, name);
    SubjectAverage(name, MeanTenths(TotalFor(dir, es, student, name), CountFor(dir, es, name)))
  }

  /** The per-subject averages over the semester's non-lecture entries. */
  function GradesOverview(journals: seq<JournalEntry>, dir: Directory, student: Id, w: Window): (r: seq<SubjectAverage>)
    ensures r == Averages(dir, Filter(journals, GradedFn(student, w)), student)
  {
    Averages(dir, Filter(journals, GradedFn(student, w)), student)
  }

  /** As written: the query selects only the subject and the marks, so the
      lesson type is never loaded and no entry is skipped as a lecture. */
  function GradesOverviewAsWritten(journals: seq<JournalEntry>, dir: Directory, student: Id, w: Window): (r: seq<SubjectAverage>)
    ensures r == Averages(dir, Filter(journals, ListedFn(student, w)), student)
  {
    Averages(dir, Filter(journals, ListedFn(student, w)), student)
  }

  /** getMyGradesOverview for the semester the parameter selects. */
  function MyGradesOverview(journals: seq<JournalEntry>, dir: Directory, student: Id, sem: Option<ParsedInt>, now: Now): (r: seq<SubjectAverage>)
    requires ValidNow(now)
    ensures r == GradesOverview(journals, dir, student, WindowOf(GetSemesterDates(sem, now.date)))
  {
    GradesOverview(journals, dir, student, WindowOf(GetSemesterDates(sem, now.date)))
  }

  /** A subject is listed exactly when some non-lecture entry of the
      semester with a mark of the student carries its caption, and the
      caption is not the name of an `Object.prototype` member. */
  lemma {:induction false} GradesOverviewLists(journals: seq<JournalEntry>, dir: Directory, student: Id, w: Window, name: string)
    ensures (exists k :: 0 <= k < |GradesOverview(journals, dir, student, w)| &&
               GradesOverview(journals, dir, student, w)[k].subject == name)
        <==> !Inherited(name) &&
             (exists j :: 0 <= j < |journals| && Graded(journals[j], student, w) && Caption(dir, journals[j]) == name)
  {
    var r := GradesOverview(journals, dir, student, w);
    if exists k :: 0 <= k < |r| && r[k].subject == name {
      var k :| 0 <= k < |r| && r[k].subject == name;
      var j := OverviewRowSource(journals, dir, student, w, k);
    }
    if !Inherited(name) && exists j :: 0 <= j < |journals| && Graded(journals[j], student, w) && Caption(dir, journals[j]) == name {
      var j :| 0 <= j < |journals| && Graded(journals[j], student, w) && Caption(dir, journals[j]) == name;
      var k := OverviewRowKept(journals, dir, student, w, j);
    }
  }

  /** Every row of the overview is the caption of a graded entry, and not
      an inherited name. */
  lemma OverviewRowSource(journals: seq<JournalEntry>, dir: Directory, student: Id, w: Window, k: nat)
      returns (j: nat)
    requires k < |GradesOverview(journals, dir, student, w)|
    ensures j < |journals| && Graded(journals[j], student, w)
    ensures Caption(dir, journals[j]) == GradesOverview(journals, dir, student, w)[k].subject
    ensures !Inherited(GradesOverview(journals, dir, student, w)[k].subject)
  {
    j := RowSource(journals, dir, student, GradedFn(student, w), k);
  }

  /** A graded entry whose caption is not inherited has its row. */
  lemma OverviewRowKept(journals: seq<JournalEntry>, dir: Directory, student: Id, w: Window, j: nat)
      returns (k: nat)
    requires j < |journals| && Graded(journals[j], student, w) && !Inherited(Caption(dir, journals[j]))
    ensures k < |GradesOverview(journals, dir, student, w)|
    ensures GradesOverview(journals, dir, student, w)[k].subject == Caption(dir, journals[j])
  {
    assert GradedFn(student, w)(journals[j]);
    k := RowKept(journals, dir, student, GradedFn(student, w), j);
  }

  /** The averages over the entries a condition keeps list a caption
      exactly when it is not inherited and some kept entry carries it. */
  lemma {:induction false} AveragesList(journals: seq<JournalEntry>, dir: Directory, student: Id, p: JournalEntry -> bool, name: string)
    ensures var r := Averages(dir, Filter(journals, p), student);
      (exists k :: 0 <= k < |r| && r[k].subject == name)
        <==> !Inherited(name) && (exists j :: 0 <= j < |journals| && p(journals[j]) && Caption(dir, journals[j]) == name)
  {
    var r := Averages(dir, Filter(journals, p), student);
    if exists k :: 0 <= k < |r| && r[k].subject == name {
      var k :| 0 <= k < |r| && r[k].subject == name;
      var j := RowSource(journals, dir, student, p, k);
    }
    if !Inherited(name) && exists j :: 0 <= j < |journals| && p(journals[j]) && Caption(dir, journals[j]) == name {
      var j :| 0 <= j < |journals| && p(journals[j]) && Caption(dir, journals[j]) == name;
      var k := RowKept(journals, dir, student, p, j);
    }
  }

  /** Every row's caption is the caption of a kept journal. */
  lemma RowSource(journals: seq<JournalEntry>, dir: Directory, student: Id, p: JournalEntry -> bool, k: nat)
      returns (j: nat)
    requires k < |Averages(dir, Filter(journals, p), student)|
    ensures j < |journals| && p(journals[j])
    ensures Caption(dir, journals[j]) == Averages(dir, Filter(journals, p), student)[k].subject
    ensures !Inherited(Averages(dir, Filter(journals, p), student)[k].subject)
  {
    var es := Filter(journals, p);
    var cs := MapSeq(es, CaptionFn(dir));
    var name := Subjects(dir, es)[k];
    assert Averages(dir, es, student)[k].subject == name;
    var i :| 0 <= i < |cs| && cs[i] == name;
    j := FilterSource(journals, p, i);
    assert cs[i] == Caption(dir, journals[j]);
  }

  /** Every kept journal's caption has a row. */
  lemma RowKept(journals: seq<JournalEntry>, dir: Directory, student: Id, p: JournalEntry -> bool, j: nat)
      returns (k: nat)
    requires j < |journals| && p(journals[j]) && !Inherited(Caption(dir, journals[j]))
    ensures k < |Averages(dir, Filter(journals, p), student)|
    ensures Averages(dir, Filter(journals, p), student)[k].subject == Caption(dir, journals[j])
  {
    var es := Filter(journals, p);
    var i := FilterTarget(journals, p, j);
    var names := Subjects(dir, es);
    assert Caption(dir, es[i]) in names;
    k :| 0 <= k < |names| && names[k] == Caption(dir, es[i]);
    assert Averages(dir, es, student)[k].subject == names[k];
  }

  /** With valid marks every average lies between 0.0 and 5.0. */
  lemma GradesOverviewWithin(journals: seq<JournalEntry>, dir: Directory, student: Id, w: Window, k: nat)
    requires forall j :: 0 <= j < |journals| ==> ValidEntry(journals[j])
    requires k < |GradesOverview(journals, dir, student, w)|
    ensures 0 <= GradesOverview(journals, dir, student, w)[k].averageTenths <= 50
  {
    var es := Filter(journals, GradedFn(student, w));
    forall i | 0 <= i < |es| ensures ValidEntry(es[i]) {
      FilterMembership(journals, GradedFn(student, w), es[i]);
    }
    TotalWithin(dir, es, student, GradesOverview(journals, dir, student, w)[k].subject);
  }

  /** As written, a lecture contributes to the averages; the intended
      overview leaves it out. */
  lemma AsWrittenAveragesLectures(dir: Directory, student: Id, w: Window, e: JournalEntry)
    requires Listed(e, student, w) && e.lessonType == Lecture
    ensures |GradesOverviewAsWritten([e], dir, student, w)| == if Inherited(Caption(dir, e)) then 0 else 1
    ensures GradesOverview([e], dir, student, w) == []
  {
    FilterOne(e, ListedFn(student, w));
    FilterOne(e, GradedFn(student, w));
    var c := Caption(dir, e);
    assert MapSeq([e], CaptionFn(dir)) == [c];
    assert MapSeq([], CaptionFn(dir)) == [];
    FilterOne(c, OwnFn());
    assert [c][..0] == [];
    var created := Created([c]);
    assert |Keys(created)| == |created| by {
      assert |multiset(Keys(created))| == |multiset(created)|;
    }
    if Inherited(c) {
      assert created == Dedup([]);
    } else {
      assert created == Dedup([c]);
    }
  }

  // ---------------------------------------------------------------------
  // getStudents: pagination

  /** The page arithmetic: `parseInt(page) || 1`, `parseInt(limit) || 10`,
      `(page - 1) * limit` rows skipped, `Math.ceil(total / limit)` pages. */
  datatype Paging = Paging(page: int, limit: int, skip: int, pages: int)

  const DefaultPage: int := 1
  const DefaultLimit: int := 10

  function PagingOf(total: nat, pageParam: ParsedInt, limitParam: ParsedInt): (p: Paging)
    ensures p.page == (if pageParam.Truthy() then pageParam.n else DefaultPage)
    ensures p.limit == (if limitParam.Truthy() then limitParam.n else DefaultLimit) && p.limit != 0
    ensures p.skip == (p.page - 1) * p.limit
    ensures p.limit > 0 ==> p.limit * (p.pages - 1) < total <= p.limit * p.pages
    ensures p.limit > 0 ==> p.pages >= 0 && (p.pages == 0 <==> total == 0)
  {
    var page := if pageParam.Truthy() then pageParam.n else DefaultPage;
    var limit := if limitParam.Truthy() then limitParam.n else DefaultLimit;
    var pages := JsCeilDiv(total, limit);
    PagesSign(total, limit, pages);
    Paging(page, limit, (page - 1) * limit, pages)
  }

  lemma PagesSign(total: nat, limit: int, pages: int)
    requires limit > 0 ==> limit * (pages - 1) < total <= limit * pages
    ensures limit > 0 ==> pages >= 0 && (pages == 0 <==> total == 0)
  {
    if limit > 0 && total == 0 {
      assert limit * (pages - 1) < 0;
    }
  }

  /** The rows a page shows: `.skip(skip).limit(limit)` on the ordered
      listing. The store refuses a negative skip; a negative limit is taken
      by its magnitude. */
  function PageRows<T>(rows: seq<T>, p: Paging): (r: Result<seq<T>>)
    ensures r.Err? <==> p.skip < 0
    ensures r.Err? ==> r.failure == Crash
    ensures r.Ok? ==> |r.value| <= |rows| && |r.value| <= Abs(p.limit)
    ensures r.Ok? ==> forall i :: 0 <= i < |r.value| ==> p.skip + i < |rows| && r.value[i] == rows[p.skip + i]
  {
    if p.skip < 0 then Err(Crash)
    else
      var from := if p.skip < |rows| then p.skip else |rows|;
      var to := if from + Abs(p.limit) < |rows| then from + Abs(p.limit) else |rows|;
      Ok(rows[from..to])
  }

  function Abs(x: int): nat {
    if x < 0 then -x else x
  }

  datatype StudentList<T> = StudentList(rows: seq<T>, total: nat, page: int, pages: int)

  /** getStudents over the listing already filtered by the search and
      ordered newest first. */
  function Students<T>(rows: seq<T>, pageParam: ParsedInt, limitParam: ParsedInt): (r: Result<StudentList<T>>)
    ensures r.Ok? ==> r.value.total == |rows|
    ensures var p := PagingOf(|rows|, pageParam, limitParam);
      && (r.Err? <==> p.skip < 0)
      && (r.Ok? ==> r.value.rows == PageRows(rows, p).value && r.value.page == p.page && r.value.pages == p.pages)
  {
    var p := PagingOf(|rows|, pageParam, limitParam);
    match PageRows(rows, p)
    case Err(f) => Err(f)
    case Ok(page) => Ok(StudentList(page, |rows|, p.page, p.pages))
  }

  /** With a positive limit, row `i` of the listing appears on page
      `i / limit + 1`, at position `i % limit`, and that page is one of the
      pages announced. */
  lemma RowOnItsPage<T>(rows: seq<T>, limit: int, i: nat)
    requires limit > 0 && i < |rows|
    ensures var page := i / limit + 1;
      var r := Students(rows, Num(page), Num(limit));
      && r.Ok? && page <= r.value.pages
      && i % limit < |r.value.rows| && r.value.rows[i % limit] == rows[i]
  {
    var page := i / limit + 1;
    var p := PagingOf(|rows|, Num(page), Num(limit));
    PageArithmetic(i, limit, |rows|, p.pages);
  }

  /** Row `i` starts page `i / limit + 1` plus `i % limit`, and with `pages`
      the ceiling of `total / limit` that page exists. */
  lemma PageArithmetic(i: nat, limit: int, total: int, pages: int)
    requires limit > 0 && i < total && total <= limit * pages
    ensures (i / limit) * limit + i % limit == i && 0 <= i % limit < limit
    ensures i / limit + 1 <= pages
  {
    var q := i / limit;
    assert q * limit <= i;
    assert (pages - q) * limit > 0;
    PositiveFactor(pages - q, limit);
  }

  lemma PositiveFactor(a: int, b: int)
    requires b > 0 && a * b > 0
    ensures a > 0
  {
  }
}
