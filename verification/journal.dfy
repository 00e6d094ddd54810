/** The journal of one lesson: finding or lazily creating the entry a
    schedule slot designates, replacing its marks, and listing a day's
    lessons. The store is threaded through as a value. */
module Journal {
  import opened Results
  import opened Records
  import opened Calendar
  import opened Shifts

  /** The collections the journal operations read and write. Journal
      entries and groups are addressed by their index. */
  datatype Db = Db(
    journals: seq<JournalEntry>,
    schedules: seq<WeeklySchedule>,
    groups: seq<Group>,
    dir: Directory)

  /** `findOne({ groupId })` on the schedules: the first schedule of the
      group, whatever its semester. */
  function FindSchedule(schedules: seq<WeeklySchedule>, groupId: Id): (r: Option<nat>)
    ensures r.Some? ==> r.value < |schedules| && schedules[r.value].groupId == groupId
    ensures r.Some? ==> forall j :: 0 <= j < r.value ==> schedules[j].groupId != groupId
    ensures r.None? ==> forall j :: 0 <= j < |schedules| ==> schedules[j].groupId != groupId
  {
    FirstWhere(schedules, (s: WeeklySchedule) => s.groupId == groupId)
  }

  /** The first schedule day carrying the given weekday name. */
  function FindDay(week: seq<DaySchedule>, name: string): (r: Option<nat>)
    ensures r.Some? ==> r.value < |week| && week[r.value].day == name
    ensures r.None? ==> forall j :: 0 <= j < |week| ==> week[j].day != name
  {
    FirstWhere(week, (d: DaySchedule) => d.day == name)
  }

  /** The weekday name of the civil day an instant falls on. */
  function DayNameAt(t: int): (name: string)
    ensures name == DayNames[Weekday(CivilDay(t))]
  {
    DayNames[Weekday(CivilDay(t))]
  }

  /** The lessons the group's schedule lists for the weekday of instant `t`,
      if the group has a schedule with such a day. */
  function DayLessons(schedules: seq<WeeklySchedule>, groupId: Id, t: int): (r: Option<seq<Lesson>>)
    ensures r.Some? ==>
      && FindSchedule(schedules, groupId).Some?
      && var week := schedules[FindSchedule(schedules, groupId).value].week;
      && FindDay(week, DayNameAt(t)).Some?
      && r.value == week[FindDay(week, DayNameAt(t)).value].lessons
    ensures r.None? ==>
      || FindSchedule(schedules, groupId).None?
      || FindDay(schedules[FindSchedule(schedules, groupId).value].week, DayNameAt(t)).None?
  {
    match FindSchedule(schedules, groupId)
    case None => None
    case Some(si) =>
      match FindDay(schedules[si].week, DayNameAt(t))
      case None => None
      case Some(di) => Some(schedules[si].week[di].lessons)
  }

  // ---------------------------------------------------------------------
  // getJournalEntry

  /** The path parameters of a journal request. `date` is `None` when
      `new Date(date)` is not a date; `slot` is what `Number(slot)` gives. */
  datatype EntryRequest = EntryRequest(
    date: Option<int>,
    shift: string,
    slot: ParsedInt,
    groupId: Id,
    subjectId: Id)

  /** The schedule lesson a request points at. A missing schedule, a weekday
      the schedule does not list, an empty slot and a slot holding another
      (or no existing) subject are each a not-found. */
  function DesignatedLesson(db: Db, req: EntryRequest): (r: Result<Lesson>)
    ensures r.Err? ==> r.failure in {ScheduleNotFound, NoLessonsThatDay, SubjectNotInSlot}
    ensures r == Err(ScheduleNotFound) <==> FindSchedule(db.schedules, req.groupId).None?
    ensures r == Err(NoLessonsThatDay) <==>
      FindSchedule(db.schedules, req.groupId).Some? &&
      (req.date.None? || DayLessons(db.schedules, req.groupId, req.date.value).None?)
    ensures r.Ok? ==>
      && req.date.Some? && req.slot.Num?
      && DayLessons(db.schedules, req.groupId, req.date.value).Some?
      && var lessons := DayLessons(db.schedules, req.groupId, req.date.value).value;
      && 1 <= req.slot.n <= |lessons|
      && r.value == lessons[req.slot.n - 1]
      && SubjectOf(db.dir, r.value.subjectId) == Some(req.subjectId)
  {
    if FindSchedule(db.schedules, req.groupId).None? then Err(ScheduleNotFound)
    else if req.date.None? then Err(NoLessonsThatDay)
    else match DayLessons(db.schedules, req.groupId, req.date.value)
      case None => Err(NoLessonsThatDay)
      case Some(lessons) =>
        if !(req.slot.Num? && 1 <= req.slot.n <= |lessons|) then Err(SubjectNotInSlot)
        else
          var lesson := lessons[req.slot.n - 1];
          if SubjectOf(db.dir, lesson.subjectId) != Some(req.subjectId) then Err(SubjectNotInSlot)
          else Ok(lesson)
  }

  /** The first entry stored under a key. */
  function FindEntry(journals: seq<JournalEntry>, key: EntryKey): (r: Option<nat>)
    ensures r.Some? ==> r.value < |journals| && KeyOf(journals[r.value]) == key
    ensures r.Some? ==> forall j :: 0 <= j < r.value ==> KeyOf(journals[j]) != key
    ensures r.None? ==> forall j :: 0 <= j < |journals| ==> KeyOf(journals[j]) != key
  {
    FirstWhere(journals, (e: JournalEntry) => KeyOf(e) == key)
  }

  /** The roster students whose documents exist, in roster order: what
      populating the group's student references leaves. */
  function Enrolled(roster: seq<Id>, students: set<Id>): (r: seq<Id>)
    ensures forall x :: x in r <==> x in roster && x in students
    ensures |r| <= |roster|
    ensures Distinct(roster) ==> Distinct(r)
  {
    if |roster| == 0 then []
    else
      var rest := Enrolled(roster[1..], students);
      assert forall x :: x in roster[1..] ==> x in roster;
      if roster[0] in students then [roster[0]] + rest else rest
  }

  /** The marks a new entry starts with: one absent, ungraded mark per
      enrolled student, in roster order. */
  function FreshMarks(roster: seq<Id>, students: set<Id>): (r: seq<Mark>)
    ensures |r| == |Enrolled(roster, students)|
    ensures forall i :: 0 <= i < |r| ==>
      r[i].studentId == Enrolled(roster, students)[i] && r[i].attendance == Absent
      && r[i].preparationGrade.None? && r[i].taskGrade.None?
  {
    var ids := Enrolled(roster, students);
    seq(|ids|, i requires 0 <= i < |ids| => NewMark(ids[i]))
  }

  /** The key a request looks its entry up by. */
  function RequestKey(req: EntryRequest, shift: int): (k: EntryKey)
    requires req.date.Some? && req.slot.Num?
    ensures k.date == req.date.value && k.shift == shift && k.lessonSlot == req.slot.n
    ensures k.groupId == req.groupId && k.subjectId == req.subjectId
  {
    EntryKey(req.date.value, shift, req.slot.n, req.groupId, req.subjectId)
  }

  /** getJournalEntry: the entry of the designated lesson, created on first
      access. Returns the entry's index and the store afterwards. */
  function GetJournalEntry(db: Db, req: EntryRequest): (r: (Result<nat>, Db))
    // errors are raised before anything is written
    ensures r.0.Err? ==> r.1 == db
    ensures r.0 == Err(InvalidShift) <==> ParseShift(req.shift).None?
    ensures ParseShift(req.shift).Some? && DesignatedLesson(db, req).Err? ==>
      r.0 == Err(DesignatedLesson(db, req).failure)
    ensures ParseShift(req.shift).Some? && DesignatedLesson(db, req).Ok? ==>
      (r.0 == Err(ShiftMismatch) <==>
       LessonShift(DesignatedLesson(db, req).value.time) != ParseShift(req.shift).value)
    // success: the entry is stored under the request's key, for a lesson of
    // the requested shift
    ensures r.0.Ok? ==>
      && ParseShift(req.shift).Some? && DesignatedLesson(db, req).Ok?
      && LessonShift(DesignatedLesson(db, req).value.time) == ParseShift(req.shift).value
      && r.0.value < |r.1.journals|
      && KeyOf(r.1.journals[r.0.value]) == RequestKey(req, ParseShift(req.shift).value)
    // an existing entry is returned as it is
    ensures r.0.Ok? && FindEntry(db.journals, RequestKey(req, ParseShift(req.shift).value)).Some? ==>
      r.1 == db && r.0.value == FindEntry(db.journals, RequestKey(req, ParseShift(req.shift).value)).value
    // otherwise exactly one new entry is appended
    ensures r.0.Ok? && FindEntry(db.journals, RequestKey(req, ParseShift(req.shift).value)).None? ==>
      var lesson := DesignatedLesson(db, req).value;
      var e := r.1.journals[r.0.value];
      && r.0.value == |db.journals|
      && r.1 == db.(journals := db.journals + [e])
      && req.groupId < |db.groups|
      && e.students == FreshMarks(db.groups[req.groupId].students, db.dir.students)
      && lesson.teacherId.Some? && e.teacherId == lesson.teacherId.value
      && e.lessonType == HydratedLessonType(lesson)
      && e.topic == "" && !e.isSubmitted
      && ValidEntry(e)
    // a new entry fails only for a missing group or a document the schema refuses
    ensures (ParseShift(req.shift).Some? && DesignatedLesson(db, req).Ok? &&
             LessonShift(DesignatedLesson(db, req).value.time) == ParseShift(req.shift).value) ==>
      (r.0.Ok? || r.0.failure in {GroupNotFound, ValidationFailed})
  {
    var shift := ParseShift(req.shift);
    if shift.None? then (Err(InvalidShift), db)
    else match DesignatedLesson(db, req)
      case Err(f) => (Err(f), db)
      case Ok(lesson) =>
        if LessonShift(lesson.time) != shift.value then (Err(ShiftMismatch), db)
        else
          var key := RequestKey(req, shift.value);
          match FindEntry(db.journals, key)
          case Some(i) => (Ok(i), db)
          case None =>
            if req.groupId >= |db.groups| then (Err(GroupNotFound), db)
            else
              var marks := FreshMarks(db.groups[req.groupId].students, db.dir.students);
              var teacher := TeacherOf(db.dir, lesson.teacherId);
              // the schema requires a teacher and a slot in 1..6
              if teacher.None? || !(1 <= key.lessonSlot <= 6) then (Err(ValidationFailed), db)
              else
                var e := NewEntry(key.date, key.shift, key.lessonSlot, key.groupId, key.subjectId,
                                  teacher.value, Some(HydratedLessonType(lesson)), marks);
                (Ok(|db.journals|), db.(journals := db.journals + [e]))
  }

  /** No two stored entries share a natural key. The store does not enforce
      this; only the sequential use of getJournalEntry keeps it. */
  predicate UniqueKeys(journals: seq<JournalEntry>) {
    forall i, j :: 0 <= i < j < |journals| ==> KeyOf(journals[i]) != KeyOf(journals[j])
  }

  lemma FindEntryAppend(journals: seq<JournalEntry>, e: JournalEntry, key: EntryKey)
    ensures FindEntry(journals + [e], key) ==
      if FindEntry(journals, key).Some? then FindEntry(journals, key)
      else if KeyOf(e) == key then Some(|journals|)
      else None
  {
    var all := journals + [e];
    match FindEntry(journals, key)
    case Some(i) =>
      assert all[i] == journals[i];
    case None =>
      if KeyOf(e) == key {
        assert all[|journals|] == e;
      }
  }

  /** Two stores whose entries have the same keys, position by position,
      find the same entry for every key. */
  lemma FindEntrySameKeys(a: seq<JournalEntry>, b: seq<JournalEntry>, key: EntryKey)
    requires |a| == |b| && forall j :: 0 <= j < |a| ==> KeyOf(a[j]) == KeyOf(b[j])
    ensures FindEntry(a, key) == FindEntry(b, key)
  {
    var fa, fb := FindEntry(a, key), FindEntry(b, key);
    if fa.Some? && fb.Some? {
      assert !(fa.value < fb.value) && !(fb.value < fa.value);
    }
  }

  /** Asking again for an entry that was just returned, or just created,
      returns the same entry and writes nothing. */
  lemma GetJournalEntryIdempotent(db: Db, req: EntryRequest)
    requires GetJournalEntry(db, req).0.Ok?
    ensures GetJournalEntry(GetJournalEntry(db, req).1, req) == GetJournalEntry(db, req)
  {
    var (r, db') := GetJournalEntry(db, req);
    assert DesignatedLesson(db', req) == DesignatedLesson(db, req);
    var key := RequestKey(req, ParseShift(req.shift).value);
    if FindEntry(db.journals, key).None? {
      FindEntryAppend(db.journals, db'.journals[r.value], key);
    }
  }

  /** A request never stores a second entry under a key that already has
      one. */
  lemma GetJournalEntryKeepsKeysUnique(db: Db, req: EntryRequest)
    requires UniqueKeys(db.journals)
    ensures UniqueKeys(GetJournalEntry(db, req).1.journals)
  {
  }

  /** The store after serving a sequence of journal requests one after the
      other. */
  function Serve(db: Db, reqs: seq<EntryRequest>): (r: Db)
    ensures r.schedules == db.schedules && r.groups == db.groups && r.dir == db.dir
    ensures db.journals <= r.journals
    decreases |reqs|
  {
    if |reqs| == 0 then db
    else Serve(GetJournalEntry(db, reqs[0]).1, reqs[1..])
  }

  /** Sequentially served requests create at most one entry per natural
      key: starting from a store without duplicates, none ever appears. */
  lemma {:induction false} ServeKeepsKeysUnique(db: Db, reqs: seq<EntryRequest>)
    requires UniqueKeys(db.journals)
    ensures UniqueKeys(Serve(db, reqs).journals)
    decreases |reqs|
  {
    if |reqs| > 0 {
      GetJournalEntryKeepsKeysUnique(db, reqs[0]);
      ServeKeepsKeysUnique(GetJournalEntry(db, reqs[0]).1, reqs[1..]);
    }
  }

  // ---------------------------------------------------------------------
  // updateJournalEntry

  /** The roles allowed on the journal routes. */
  datatype Role = Admin | Teacher
  datatype User = User(id: Id, role: Role)

  /** Only an admin or the entry's own teacher may change it. */
  predicate MayEdit(user: User, e: JournalEntry) {
    user.role == Admin || e.teacherId == user.id
  }

  /** updateJournalEntry: replaces the marks of entry `id` wholesale. The
      schema validates the new marks when the entry is saved. */
  function UpdateJournalEntry(journals: seq<JournalEntry>, id: nat, students: seq<Mark>, user: User)
    : (r: (Result<JournalEntry>, seq<JournalEntry>))
    ensures r.0 == Err(JournalNotFound) <==> id >= |journals|
    ensures id < |journals| ==> (r.0 == Err(Forbidden) <==> !MayEdit(user, journals[id]))
    ensures r.0.Err? ==> r.1 == journals
    ensures r.0.Ok? <==>
      id < |journals| && MayEdit(user, journals[id]) &&
      forall i :: 0 <= i < |students| ==> ValidMark(students[i])
    // on success only the marks of entry `id` change
    ensures r.0.Ok? ==>
      var old_ := journals[id];
      var e := r.0.value;
      && |r.1| == |journals| && r.1[id] == e
      && (forall j :: 0 <= j < |journals| && j != id ==> r.1[j] == journals[j])
      && e.students == students
      && KeyOf(e) == KeyOf(old_) && e.teacherId == old_.teacherId
      && e.lessonType == old_.lessonType && e.topic == old_.topic
      && e.isSubmitted == old_.isSubmitted
  {
    if id >= |journals| then (Err(JournalNotFound), journals)
    else if !MayEdit(user, journals[id]) then (Err(Forbidden), journals)
    else if exists i :: 0 <= i < |students| && !ValidMark(students[i]) then (Err(ValidationFailed), journals)
    else
      var e := journals[id].(students := students);
      (Ok(e), journals[id := e])
  }

  /** An update leaves every lookup by natural key where it was, so the
      updated entry is the one the next getJournalEntry returns. */
  lemma UpdateKeepsLookup(journals: seq<JournalEntry>, id: nat, students: seq<Mark>, user: User, key: EntryKey)
    ensures FindEntry(UpdateJournalEntry(journals, id, students, user).1, key) == FindEntry(journals, key)
    ensures UniqueKeys(journals) ==> UniqueKeys(UpdateJournalEntry(journals, id, students, user).1)
  {
    var r := UpdateJournalEntry(journals, id, students, user);
    FindEntrySameKeys(r.1, journals, key);
  }

  // ---------------------------------------------------------------------
  // getLessonsByGroupAndDate

  /** The two ways the backend assigns a lesson time to a shift. */
  datatype ShiftRule = ContainedHour | StartTimeRule

  function ShiftBy(rule: ShiftRule, time: string): (s: int)
    ensures s == 1 || s == 2
    ensures rule == ContainedHour ==> s == ListedShift(time)
    ensures rule == StartTimeRule ==> s == LessonShift(time)
  {
    match rule
    case ContainedHour => ListedShift(time)
    case StartTimeRule => LessonShift(time)
  }

  /** One line of the lesson list. `slot` counts from 1. */
  datatype ListedLesson = ListedLesson(
    subjectId: Id,
    teacherId: Option<Id>,
    lessonType: LessonType,
    shift: int,
    slot: int)

  /** The line a lesson in slot `slot` is listed as: none when its subject
      is missing, otherwise the subject, the existing teacher if any, the
      lesson type (the schema's lecture when unset) and the shift `rule`
      assigns. */
  function Line(dir: Directory, rule: ShiftRule, lesson: Lesson, slot: int): (r: Option<ListedLesson>)
    ensures r.Some? <==> SubjectOf(dir, lesson.subjectId).Some?
    ensures r.Some? ==>
      && r.value.subjectId == lesson.subjectId.value && r.value.slot == slot
      && r.value.teacherId == TeacherOf(dir, lesson.teacherId)
      && r.value.lessonType == HydratedLessonType(lesson)
      && r.value.shift == ShiftBy(rule, lesson.time)
  {
    match SubjectOf(dir, lesson.subjectId)
    case None => None
    case Some(s) =>
      Some(ListedLesson(s, TeacherOf(dir, lesson.teacherId), HydratedLessonType(lesson),
                        ShiftBy(rule, lesson.time), slot))
  }

  /** The line, if any, of each slot of a day. */
  function Lines(dir: Directory, rule: ShiftRule, lessons: seq<Lesson>): (r: seq<Option<ListedLesson>>)
    ensures |r| == |lessons|
    ensures forall i :: 0 <= i < |r| ==> r[i] == Line(dir, rule, lessons[i], i + 1)
  {
    seq(|lessons|, i requires 0 <= i < |lessons| => Line(dir, rule, lessons[i], i + 1))
  }

  /** The lines of a day's lessons: lessons without a subject are dropped
      without closing the gap in the slot numbering. */
  function ListLines(dir: Directory, rule: ShiftRule, lessons: seq<Lesson>): (r: seq<ListedLesson>)
    ensures |r| <= |lessons|
  {
    Somes(Lines(dir, rule, lessons))
  }

  /** Every listed line is the line of the lesson in its slot. */
  lemma ListLinesSound(dir: Directory, rule: ShiftRule, lessons: seq<Lesson>, k: nat)
    requires k < |ListLines(dir, rule, lessons)|
    ensures var l := ListLines(dir, rule, lessons)[k];
      && 1 <= l.slot <= |lessons| && (l.shift == 1 || l.shift == 2)
      && Line(dir, rule, lessons[l.slot - 1], l.slot) == Some(l)
  {
    var lines := Lines(dir, rule, lessons);
    var i := SomeIndices(lines)[k];
    assert ListLines(dir, rule, lessons)[k] == lines[i].value;
  }

  /** Every lesson with a subject has its line. */
  lemma ListLinesComplete(dir: Directory, rule: ShiftRule, lessons: seq<Lesson>, i: nat)
    requires i < |lessons| && SubjectOf(dir, lessons[i].subjectId).Some?
    ensures Line(dir, rule, lessons[i], i + 1).value in ListLines(dir, rule, lessons)
  {
    var lines := Lines(dir, rule, lessons);
    var idx := SomeIndices(lines);
    assert lines[i].Some?;
    assert i in idx;
    var k :| 0 <= k < |idx| && idx[k] == i;
    assert ListLines(dir, rule, lessons)[k] == lines[i].value;
  }

  /** The lines are in slot order. */
  lemma ListLinesOrdered(dir: Directory, rule: ShiftRule, lessons: seq<Lesson>, k: nat, k': nat)
    requires k < k' < |ListLines(dir, rule, lessons)|
    ensures ListLines(dir, rule, lessons)[k].slot < ListLines(dir, rule, lessons)[k'].slot
  {
    ListLinesSound(dir, rule, lessons, k);
    ListLinesSound(dir, rule, lessons, k');
    var lines := Lines(dir, rule, lessons);
    var idx := SomeIndices(lines);
    assert ListLines(dir, rule, lessons)[k] == lines[idx[k]].value;
    assert ListLines(dir, rule, lessons)[k'] == lines[idx[k']].value;
  }

  /** getLessonsByGroupAndDate: the lessons of the group's schedule on the
      weekday of `date`, each with the shift `rule` assigns it. A group
      without a schedule, or without lessons that day, gets an empty list. */
  function LessonsByRule(db: Db, groupId: Id, date: Option<int>, rule: ShiftRule)
    : (r: Result<seq<ListedLesson>>)
    ensures r.Err? <==> date.None?
    ensures r.Err? ==> r.failure == InvalidDate
    ensures r.Ok? ==>
      r.value == match DayLessons(db.schedules, groupId, date.value)
        case None => []
        case Some(lessons) => ListLines(db.dir, rule, lessons)
  {
    if date.None? then Err(InvalidDate)
    else match DayLessons(db.schedules, groupId, date.value)
      case None => Ok([])
      case Some(lessons) => Ok(ListLines(db.dir, rule, lessons))
  }

  /** The lesson list as written: shifts by the hours the time text
      contains. */
  function LessonsByGroupAndDate(db: Db, groupId: Id, date: Option<int>): (r: Result<seq<ListedLesson>>)
    ensures r == LessonsByRule(db, groupId, date, ContainedHour)
    ensures r.Ok? ==> forall k :: 0 <= k < |r.value| ==> r.value[k].shift == 1 || r.value[k].shift == 2
  {
    LessonsByRule(db, groupId, date, ContainedHour)
  }

  /** The lesson list with the journal's own shift rule. */
  function LessonsByGroupAndDateCorrected(db: Db, groupId: Id, date: Option<int>)
    : (r: Result<seq<ListedLesson>>)
    ensures r == LessonsByRule(db, groupId, date, StartTimeRule)
  {
    LessonsByRule(db, groupId, date, StartTimeRule)
  }

  const NoGroupName: string := "Гурӯҳ"

  /** A populated group's name, `group?.name || "Гурӯҳ"`. */
  function GroupLabel(groups: seq<Group>, g: Id): string {
    if g < |groups| && groups[g].name != "" then groups[g].name else NoGroupName
  }

  /** The `groupName` that comes with the lesson list. Only a day with
      lessons looks the group up; the early answers read `groupName` off
      the schedule, which has no such field, and so give the placeholder. */
  function ListingGroupName(db: Db, groupId: Id, t: int): (name: string)
    ensures name != NoGroupName ==>
      && groupId < |db.groups| && name == db.groups[groupId].name
      && DayLessons(db.schedules, groupId, t).Some? && |DayLessons(db.schedules, groupId, t).value| > 0
  {
    match DayLessons(db.schedules, groupId, t)
    case Some(lessons) => if |lessons| == 0 then NoGroupName else GroupLabel(db.groups, groupId)
    case None => NoGroupName
  }

  /** Whenever some lesson is listed, the group's own name comes with it. */
  lemma ListedWithGroupName(db: Db, groupId: Id, t: int, rule: ShiftRule)
    requires LessonsByRule(db, groupId, Some(t), rule).Ok?
    requires |LessonsByRule(db, groupId, Some(t), rule).value| > 0
    ensures ListingGroupName(db, groupId, t) == GroupLabel(db.groups, groupId)
  {
  }

  /** A named group whose schedule has no lesson on that day is still
      answered with the placeholder. */
  lemma EmptyDayHidesGroupName(db: Db, groupId: Id, t: int)
    requires DayLessons(db.schedules, groupId, t).None? || DayLessons(db.schedules, groupId, t) == Some([])
    ensures ListingGroupName(db, groupId, t) == NoGroupName
  {
  }

  /** The shift parameter a client sends for a listed shift. */
  function ShiftText(shift: int): (s: string)
    requires shift == 1 || shift == 2
    ensures ParseShift(s) == Some(shift)
  {
    if shift == 1 then "1" else "2"
  }

  /** The journal request for line `k` of a listing. */
  function OpenRequest(l: ListedLesson, groupId: Id, t: int): EntryRequest
    requires l.shift == 1 || l.shift == 2
  {
    EntryRequest(Some(t), ShiftText(l.shift), Num(l.slot), groupId, l.subjectId)
  }

  /** Opening a listed line designates the very lesson it was listed from:
      the one in the line's slot of the day's `lessons`. */
  lemma ListedLineDesignates(db: Db, groupId: Id, t: int, rule: ShiftRule, k: nat)
      returns (lessons: seq<Lesson>, l: ListedLesson)
    requires LessonsByRule(db, groupId, Some(t), rule).Ok?
    requires k < |LessonsByRule(db, groupId, Some(t), rule).value|
    ensures DayLessons(db.schedules, groupId, t) == Some(lessons)
    ensures l == LessonsByRule(db, groupId, Some(t), rule).value[k]
    ensures 1 <= l.slot <= |lessons| && (l.shift == 1 || l.shift == 2)
    ensures DesignatedLesson(db, OpenRequest(l, groupId, t)) == Ok(lessons[l.slot - 1])
    ensures l.shift == ShiftBy(rule, lessons[l.slot - 1].time)
  {
    lessons := DayLessons(db.schedules, groupId, t).value;
    l := ListedLine(db.dir, rule, lessons, k);
    OpenedLineDesignates(db, l, groupId, t, lessons);
  }

  /** The request that opens a line whose slot holds a lesson of its
      subject designates that lesson. */
  lemma OpenedLineDesignates(db: Db, l: ListedLesson, groupId: Id, t: int, lessons: seq<Lesson>)
    requires DayLessons(db.schedules, groupId, t) == Some(lessons)
    requires 1 <= l.slot <= |lessons| && (l.shift == 1 || l.shift == 2)
    requires SubjectOf(db.dir, lessons[l.slot - 1].subjectId) == Some(l.subjectId)
    ensures DesignatedLesson(db, OpenRequest(l, groupId, t)) == Ok(lessons[l.slot - 1])
  {
    var req := OpenRequest(l, groupId, t);
    assert req.groupId == groupId && req.date == Some(t) && req.slot == Num(l.slot) && req.subjectId == l.subjectId;
    DesignatesSlot(db, req, lessons);
  }

  /** A listed line's slot, subject and shift, read off the lesson in that
      slot. */
  lemma ListedLine(dir: Directory, rule: ShiftRule, lessons: seq<Lesson>, k: nat) returns (l: ListedLesson)
    requires k < |ListLines(dir, rule, lessons)|
    ensures l == ListLines(dir, rule, lessons)[k]
    ensures 1 <= l.slot <= |lessons| && (l.shift == 1 || l.shift == 2)
    ensures SubjectOf(dir, lessons[l.slot - 1].subjectId) == Some(l.subjectId)
    ensures l.shift == ShiftBy(rule, lessons[l.slot - 1].time)
  {
    ListLinesSound(dir, rule, lessons, k);
    l := ListLines(dir, rule, lessons)[k];
  }

  /** A request whose slot holds a lesson of its subject on that day
      designates that lesson. */
  lemma DesignatesSlot(db: Db, req: EntryRequest, lessons: seq<Lesson>)
    requires req.date.Some? && DayLessons(db.schedules, req.groupId, req.date.value) == Some(lessons)
    requires req.slot.Num? && 1 <= req.slot.n <= |lessons|
    requires SubjectOf(db.dir, lessons[req.slot.n - 1].subjectId) == Some(req.subjectId)
    ensures DesignatedLesson(db, req) == Ok(lessons[req.slot.n - 1])
  {
  }

  /** With the journal's own rule every listed line opens: the request can
      only still fail for a missing group or a document the schema refuses. */
  lemma CorrectedListingOpens(db: Db, groupId: Id, t: int, k: nat)
    requires LessonsByGroupAndDateCorrected(db, groupId, Some(t)).Ok?
    requires k < |LessonsByGroupAndDateCorrected(db, groupId, Some(t)).value|
    ensures var req := OpenRequest(LessonsByGroupAndDateCorrected(db, groupId, Some(t)).value[k], groupId, t);
      GetJournalEntry(db, req).0.Ok? || GetJournalEntry(db, req).0.failure in {GroupNotFound, ValidationFailed}
  {
    var lessons, l := ListedLineDesignates(db, groupId, t, StartTimeRule, k);
  }

  /** As written, a listed line is refused with a shift mismatch exactly
      when the two shift rules disagree on its lesson's time. */
  lemma ListedLineMismatch(db: Db, groupId: Id, t: int, k: nat) returns (l: ListedLesson, lesson: Lesson)
    requires LessonsByGroupAndDate(db, groupId, Some(t)).Ok?
    requires k < |LessonsByGroupAndDate(db, groupId, Some(t)).value|
    ensures l == LessonsByGroupAndDate(db, groupId, Some(t)).value[k]
    ensures DayLessons(db.schedules, groupId, t).Some?
    ensures 1 <= l.slot <= |DayLessons(db.schedules, groupId, t).value|
    ensures lesson == DayLessons(db.schedules, groupId, t).value[l.slot - 1]
    ensures GetJournalEntry(db, OpenRequest(l, groupId, t)).0 == Err(ShiftMismatch)
      <==> ListedShift(lesson.time) != LessonShift(lesson.time)
  {
    var lessons;
    lessons, l := ListedLineDesignates(db, groupId, t, ContainedHour, k);
    lesson := lessons[l.slot - 1];
    MismatchOfLine(db, groupId, t, l, lesson);
  }

  /** A line carrying the contained-hour shift of the lesson it designates
      is refused exactly when that shift is not the start-time one. */
  lemma MismatchOfLine(db: Db, groupId: Id, t: int, l: ListedLesson, lesson: Lesson)
    requires (l.shift == 1 || l.shift == 2) && l.shift == ListedShift(lesson.time)
    requires DesignatedLesson(db, OpenRequest(l, groupId, t)) == Ok(lesson)
    ensures GetJournalEntry(db, OpenRequest(l, groupId, t)).0 == Err(ShiftMismatch)
      <==> ListedShift(lesson.time) != LessonShift(lesson.time)
  {
    MismatchOnShift(db, OpenRequest(l, groupId, t), lesson, l.shift);
  }

  /** A request for a designated lesson is refused with a shift mismatch
      exactly when its shift differs from the lesson's. */
  lemma MismatchOnShift(db: Db, req: EntryRequest, lesson: Lesson, shift: int)
    requires DesignatedLesson(db, req) == Ok(lesson) && ParseShift(req.shift) == Some(shift)
    ensures GetJournalEntry(db, req).0 == Err(ShiftMismatch) <==> shift != LessonShift(lesson.time)
  {
  }

  /** A day whose one lesson runs from 12:20 to 13:40: the list offers it
      in shift 2, and opening it as offered is refused with a shift
      mismatch, because its start time puts it in shift 1. */
  lemma ListedLessonRefused(db: Db, groupId: Id, t: int, lesson: Lesson)
    requires DayLessons(db.schedules, groupId, t) == Some([lesson])
    requires SubjectOf(db.dir, lesson.subjectId).Some? && lesson.time == "12:20 - 13:40"
    ensures LessonsByGroupAndDate(db, groupId, Some(t)).Ok?
    ensures var r := LessonsByGroupAndDate(db, groupId, Some(t)).value;
      && |r| == 1 && r[0].shift == 2 && r[0].slot == 1
      && GetJournalEntry(db, OpenRequest(r[0], groupId, t)).0 == Err(ShiftMismatch)
  {
    var r := LessonsByGroupAndDate(db, groupId, Some(t)).value;
    ListLinesComplete(db.dir, ContainedHour, [lesson], 0);
    assert |r| == 1;
    ShiftRulesDisagree();
    var l, lesson' := ListedLineMismatch(db, groupId, t, 0);
  }

  /** Such a schedule exists: a group whose Monday has that one lesson,
      requested at midnight of Monday 1 September 2025. */
  lemma MondayLesson()
    ensures var lesson := Lesson("12:20 - 13:40", Some(7), Some(3), "", Some(Lecture));
      DayLessons([WeeklySchedule(0, 1, [DaySchedule("Monday", [lesson])])], 0, Midnight(20332)) == Some([lesson])
  {
    var lesson := Lesson("12:20 - 13:40", Some(7), Some(3), "", Some(Lecture));
    var schedules := [WeeklySchedule(0, 1, [DaySchedule("Monday", [lesson])])];
    KnownDays();
    CivilDayOfMidnight(20332, 0);
    assert CivilDay(Midnight(20332)) == 20332;
    assert DayNameAt(Midnight(20332)) == "Monday";
    assert FindSchedule(schedules, 0) == Some(0);
    assert FindDay(schedules[0].week, "Monday") == Some(0);
  }
}
