/** getWeeklyAttendance: one week of a group's attendance as a dense grid of
    six days by six lessons per enrolled student, filled from the journal
    entries of that week. */
module GroupAttendance {
  import opened Results
  import opened Records
  import opened Calendar
  import opened Semester
  import opened Rounding
  import opened Overlay
  import Journal

  const MsPerWeek: int := 7 * MsPerDay

  function Max(a: int, b: int): int {
    if a >= b then a else b
  }

  /** The week shown: the `week` query when it parses to a nonzero number
      (negative ones included), otherwise the week since the academic year's
      September 1 that the present instant falls in, and at least the first. */
  function WeekNumber(weekParam: ParsedInt, now: Now): (w: int)
    requires ValidNow(now)
    ensures weekParam.Truthy() ==> w == weekParam.n
    ensures !weekParam.Truthy() ==>
      var start := AcademicYearStartDay(now);
      && w >= 1
      && start + 7 * (w - 1) <= Today(now) <= start + 7 * w
  {
    if weekParam.Truthy() then weekParam.n
    else
      var start := AcademicYearStartDay(now);
      var elapsed := NowInstant(now) - Midnight(start);
      assert elapsed == (Today(now) - start) * MsPerDay + now.msOfDay;
      Max(1, CeilDiv(elapsed, MsPerWeek))
  }

  /** The first day of week `w` counted from the academic year's start. */
  function WeekStart(w: int, now: Now): int
    requires ValidNow(now)
  {
    AcademicYearStartDay(now) + 7 * (w - 1)
  }

  /** A student's row: `days[i][k]` is the attendance in lesson `k + 1` of
      the `i`-th day, or `None` for an empty cell. */
  datatype AttendanceRow = AttendanceRow(studentId: Id, days: seq<seq<Option<Attendance>>>)

  datatype AttendanceSheet = AttendanceSheet(
    groupName: string,
    weekNumber: int,
    weekStart: int,
    days: seq<int>,
    rows: seq<AttendanceRow>)

  /** Whether entry `e` writes the cell of `student` on `day` in lesson
      `slot`: it was selected by the query (the group's, dated from the
      week's first midnight to its seventh), it falls on that civil day, its
      slot is that lesson and lies in 1..6, and it has a mark of the
      student. */
  predicate Hits(e: JournalEntry, groupId: Id, weekStart: int, day: int, slot: int, student: Id) {
    && e.groupId == groupId
    && Midnight(weekStart) <= e.date <= Midnight(weekStart + 6)
    && CivilDay(e.date) == day
    && 1 <= e.lessonSlot <= 6
    && e.lessonSlot == slot
    && LastMarkAt(e.students, student).Some?
  }

  function HitFn(groupId: Id, weekStart: int, day: int, slot: int, student: Id): JournalEntry -> bool {
    (e: JournalEntry) => Hits(e, groupId, weekStart, day, slot, student)
  }

  /** What an entry writes into the student's cell: the attendance of the
      student's last mark in it. */
  function AttendanceOf(student: Id): JournalEntry -> Option<Attendance> {
    (e: JournalEntry) =>
      match LastMarkAt(e.students, student)
      case Some(i) => Some(e.students[i].attendance)
      case None => None
  }

  /** The cell after the entries have been walked in the order they are
      given. */
  function Cell(journals: seq<JournalEntry>, groupId: Id, weekStart: int, day: int, slot: int, student: Id)
    : Option<Attendance>
  {
    LastWins(None, journals, HitFn(groupId, weekStart, day, slot, student), AttendanceOf(student))
  }

  /** The cell of the student at position `k` of the populated roster. Only
      the first row of a student is ever written: the lookup by id stops at
      the first match. */
  function RowCell(journals: seq<JournalEntry>, groupId: Id, weekStart: int, ids: seq<Id>, k: nat, i: int, s: int)
    : Option<Attendance>
    requires k < |ids|
  {
    if IndexOf(ids, ids[k]) == Some(k) then Cell(journals, groupId, weekStart, weekStart + i, s + 1, ids[k])
    else None
  }

  function Row(journals: seq<JournalEntry>, groupId: Id, weekStart: int, ids: seq<Id>, k: nat): (row: AttendanceRow)
    requires k < |ids|
    ensures row.studentId == ids[k] && |row.days| == 6
    ensures forall i :: 0 <= i < 6 ==> |row.days[i]| == 6
    ensures forall i, s :: 0 <= i < 6 && 0 <= s < 6 ==>
      row.days[i][s] == RowCell(journals, groupId, weekStart, ids, k, i, s)
  {
    AttendanceRow(ids[k], seq(6, i => seq(6, s => RowCell(journals, groupId, weekStart, ids, k, i, s))))
  }

  /** getWeeklyAttendance over the store, for a group that may not exist.
      The grid walks the entries in the order the query sorts them, by
      date. */
  function WeeklyAttendance(db: Journal.Db, groupId: Id, weekParam: ParsedInt, now: Now)
    : (r: Result<AttendanceSheet>)
    requires ValidNow(now)
    ensures r.Err? <==> groupId >= |db.groups|
    ensures r.Err? ==> r.failure == GroupNotFound
    ensures r.Ok? ==>
      var sheet := r.value;
      var ids := Journal.Enrolled(db.groups[groupId].students, db.dir.students);
      && sheet.weekNumber == WeekNumber(weekParam, now)
      && sheet.weekStart == WeekStart(sheet.weekNumber, now)
      && |sheet.days| == 6
      && (forall i :: 0 <= i < 6 ==> sheet.days[i] == sheet.weekStart + i)
      && |sheet.rows| == |ids|
      && (forall k :: 0 <= k < |ids| ==> sheet.rows[k] == Row(ByDate(db.journals), groupId, sheet.weekStart, ids, k))
  {
    if groupId >= |db.groups| then Err(GroupNotFound)
    else
      var group := db.groups[groupId];
      var w := WeekNumber(weekParam, now);
      var weekStart := WeekStart(w, now);
      var ids := Journal.Enrolled(group.students, db.dir.students);
      Ok(AttendanceSheet(
        group.name, w, weekStart,
        seq(6, i => weekStart + i),
        seq(|ids|, k requires 0 <= k < |ids| => Row(ByDate(db.journals), groupId, weekStart, ids, k))))
  }

  /** A written cell holds the attendance of the student's last mark in the
      latest entry that concerns it: the group's entry on that day, in that
      lesson, listing the student, dated after every other such entry. */
  lemma CellIsLastEntry(journals: seq<JournalEntry>, groupId: Id, weekStart: int, ids: seq<Id>,
                        k: nat, i: nat, s: nat, e: JournalEntry)
    requires k < |ids| && i < 6 && s < 6
    requires IndexOf(ids, ids[k]) == Some(k)
    requires e in journals && Hits(e, groupId, weekStart, weekStart + i, s + 1, ids[k])
    requires forall e' :: e' in journals && Hits(e', groupId, weekStart, weekStart + i, s + 1, ids[k]) && e' != e ==>
      e'.date < e.date
    ensures RowCell(ByDate(journals), groupId, weekStart, ids, k, i, s) ==
      Some(e.students[LastMarkAt(e.students, ids[k]).value].attendance)
  {
    var hit := HitFn(groupId, weekStart, weekStart + i, s + 1, ids[k]);
    assert forall e' :: e' in journals && hit(e') && e' != e ==> EntryDate(e') < EntryDate(e);
    LatestWins(None, journals, EntryDate, hit, AttendanceOf(ids[k]), e);
  }

  /** When several entries concern the cell, it holds the attendance from
      one of the latest of them. */
  lemma CellIsOneOfLatest(journals: seq<JournalEntry>, groupId: Id, weekStart: int, ids: seq<Id>,
                          k: nat, i: nat, s: nat, e: JournalEntry) returns (latest: JournalEntry)
    requires k < |ids| && i < 6 && s < 6
    requires IndexOf(ids, ids[k]) == Some(k)
    requires e in journals && Hits(e, groupId, weekStart, weekStart + i, s + 1, ids[k])
    ensures latest in journals && Hits(latest, groupId, weekStart, weekStart + i, s + 1, ids[k])
    ensures forall e' :: e' in journals && Hits(e', groupId, weekStart, weekStart + i, s + 1, ids[k]) ==>
      e'.date <= latest.date
    ensures RowCell(ByDate(journals), groupId, weekStart, ids, k, i, s) ==
      Some(latest.students[LastMarkAt(latest.students, ids[k]).value].attendance)
  {
    var hit := HitFn(groupId, weekStart, weekStart + i, s + 1, ids[k]);
    latest := LatestDecides(None, journals, EntryDate, hit, AttendanceOf(ids[k]), e);
    assert hit(latest);
  }

  /** A cell stays empty unless the first row of its student is concerned by
      some entry: the student's later duplicate rows, lessons outside 1..6,
      other groups, other days and entries without the student never write. */
  lemma CellUnwritten(journals: seq<JournalEntry>, groupId: Id, weekStart: int, ids: seq<Id>, k: nat, i: nat, s: nat)
    requires k < |ids| && i < 6 && s < 6
    requires || IndexOf(ids, ids[k]) != Some(k)
             || forall e :: e in journals ==> !Hits(e, groupId, weekStart, weekStart + i, s + 1, ids[k])
    ensures RowCell(ByDate(journals), groupId, weekStart, ids, k, i, s).None?
  {
    if IndexOf(ids, ids[k]) == Some(k) {
      SortedMiss(None, journals, EntryDate, HitFn(groupId, weekStart, weekStart + i, s + 1, ids[k]), AttendanceOf(ids[k]));
    }
  }
}
