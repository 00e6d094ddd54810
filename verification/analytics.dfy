/** getDashboardStats: the university-wide figures of the admin dashboard,
    each a reduction over every mark of every journal entry — the
    attendance rate, the mean task grade, the five groups with the most
    entries, and the students absent more than 48 times. */
module Analytics {
  import opened Results
  import opened Records
  import opened Rounding
  import opened Sorting

  /** `$unwind: "$students"`: every mark of every entry, entry by entry. */
  function AllMarks(journals: seq<JournalEntry>): (r: seq<Mark>)
    ensures (forall i :: 0 <= i < |journals| ==> ValidEntry(journals[i])) ==>
      forall k :: 0 <= k < |r| ==> ValidMark(r[k])
  {
    if |journals| == 0 then []
    else
      var init := journals[..|journals| - 1];
      assert forall i :: 0 <= i < |init| ==> init[i] == journals[i];
      AllMarks(init) + journals[|journals| - 1].students
  }

  function CountAttendance(marks: seq<Mark>, a: Attendance): (n: nat)
    ensures n <= |marks|
  {
    if |marks| == 0 then 0
    else CountAttendance(marks[..|marks| - 1], a) + (if marks[|marks| - 1].attendance == a then 1 else 0)
  }

  /** Present marks in percent of all marks, rounded; 0 without marks. */
  function AttendanceRate(journals: seq<JournalEntry>): (rate: int)
    ensures 0 <= rate <= 100
    ensures |AllMarks(journals)| == 0 ==> rate == 0
    ensures var marks := AllMarks(journals);
      |marks| > 0 ==> rate == RoundDiv(100 * CountAttendance(marks, Present), |marks|)
  {
    var marks := AllMarks(journals);
    Percent(CountAttendance(marks, Present), |marks|)
  }

  /** Everyone present everywhere rates 100. */
  lemma AllPresentRates100(journals: seq<JournalEntry>)
    requires |AllMarks(journals)| > 0
    requires CountAttendance(AllMarks(journals), Present) == |AllMarks(journals)|
    ensures AttendanceRate(journals) == 100
  {
    PercentExtremes(|AllMarks(journals)|);
  }

  /** The task grades that are set, in unwind order. */
  function TaskGrades(marks: seq<Mark>): (r: seq<int>)
    ensures |r| <= |marks|
    ensures (forall k :: 0 <= k < |marks| ==> ValidMark(marks[k])) ==> forall i :: 0 <= i < |r| ==> 0 <= r[i] <= 5
    ensures |r| == 0 <==> forall k :: 0 <= k < |marks| ==> marks[k].taskGrade.None?
  {
    if |marks| == 0 then []
    else
      var init, last := marks[..|marks| - 1], marks[|marks| - 1];
      assert forall k :: 0 <= k < |init| ==> init[k] == marks[k];
      TaskGrades(init) + (if last.taskGrade.Some? then [last.taskGrade.value] else [])
  }

  /** The mean of the set task grades in tenths, 0 when none is set; with
      valid marks it lies in 0..50. */
  function AverageTaskTenths(journals: seq<JournalEntry>): (avg: int)
    ensures var g := TaskGrades(AllMarks(journals));
      && (|g| == 0 ==> avg == 0)
      && (|g| > 0 ==> 2 * |g| * avg <= 20 * Sum(g) + |g| < 2 * |g| * (avg + 1))
    ensures (forall i :: 0 <= i < |journals| ==> ValidEntry(journals[i])) ==> 0 <= avg <= 50
  {
    var g := TaskGrades(AllMarks(journals));
    if |g| == 0 then 0
    else
      MeanOfGrades(g);
      MeanTenths(Sum(g), |g|)
  }

  /** Grades in 0..5 have a mean in 0..5. */
  lemma MeanOfGrades(g: seq<int>)
    requires |g| > 0
    ensures (forall i :: 0 <= i < |g| ==> 0 <= g[i] <= 5) ==> 0 <= MeanTenths(Sum(g), |g|) <= 50
  {
    if forall i :: 0 <= i < |g| ==> 0 <= g[i] <= 5 {
      SumBounds(g, 0, 5);
    }
  }

  // ---------------------------------------------------------------------
  // The most active groups

  function EntryCount(journals: seq<JournalEntry>, g: Id): (n: nat)
    ensures n == 0 <==> forall i :: 0 <= i < |journals| ==> journals[i].groupId != g
  {
    if |journals| == 0 then 0
    else EntryCount(journals[..|journals| - 1], g) + (if journals[|journals| - 1].groupId == g then 1 else 0)
  }

  /** `$group` by `groupId`: the groups that have entries, each once. The
      database does not fix the order of a `$group`'s output; first
      occurrence is the order taken here. */
  function EntryGroups(journals: seq<JournalEntry>): (r: seq<Id>)
    ensures Distinct(r)
    ensures forall g: Id :: g in r <==> EntryCount(journals, g) > 0
  {
    var all := seq(|journals|, i requires 0 <= i < |journals| => journals[i].groupId);
    forall g: Id
      ensures g in Dedup(all) <==> EntryCount(journals, g) > 0
    {
      DedupMembership(all, g);
      if EntryCount(journals, g) > 0 {
        var j :| 0 <= j < |journals| && journals[j].groupId == g;
        assert all[j] == g;
      }
    }
    Dedup(all)
  }

  function CountIn(journals: seq<JournalEntry>): Id -> int {
    (g: Id) => EntryCount(journals, g)
  }

  /** The groups with entries, most entries first. */
  function Ranked(journals: seq<JournalEntry>): (r: seq<Id>)
    ensures Distinct(r) && SortedDesc(r, CountIn(journals))
    ensures forall g: Id :: g in r <==> EntryCount(journals, g) > 0
  {
    var ids := EntryGroups(journals);
    var r := SortDesc(ids, CountIn(journals));
    PermutationKeepsDistinct(ids, r);
    forall g: Id
      ensures g in r <==> g in ids
    {
      SortDescMembership(ids, CountIn(journals), g);
    }
    r
  }

  datatype TopGroup = TopGroup(id: Id, name: string, entryCount: nat)

  /** The lookup of a ranked group: one that no longer exists drops out. */
  function LookUpGroup(journals: seq<JournalEntry>, groups: seq<Group>, g: Id): Option<TopGroup> {
    if g < |groups| then Some(TopGroup(g, groups[g].name, EntryCount(journals, g))) else None
  }

  /** The first five ranked groups. */
  function TopRanked(journals: seq<JournalEntry>): (r: seq<Id>)
    ensures |r| <= 5
  {
    var ranked := Ranked(journals);
    ranked[..if |ranked| < 5 then |ranked| else 5]
  }

  function TopLookups(journals: seq<JournalEntry>, groups: seq<Group>): (r: seq<Option<TopGroup>>)
    ensures |r| == |TopRanked(journals)|
    ensures forall i :: 0 <= i < |r| ==> r[i] == LookUpGroup(journals, groups, TopRanked(journals)[i])
  {
    var top := TopRanked(journals);
    seq(|top|, i requires 0 <= i < |top| => LookUpGroup(journals, groups, top[i]))
  }

  /** The five groups with most entries whose group exists, in rank order:
      `$sort`, `$limit: 5`, `$lookup`, `$unwind`. */
  function TopGroups(journals: seq<JournalEntry>, groups: seq<Group>): (r: seq<TopGroup>)
    ensures |r| <= 5
  {
    Somes(TopLookups(journals, groups))
  }

  /** Each listed group exists, is shown with its name and its number of
      entries, which is positive. */
  lemma TopGroupsRows(journals: seq<JournalEntry>, groups: seq<Group>, i: nat)
    requires i < |TopGroups(journals, groups)|
    ensures var row := TopGroups(journals, groups)[i];
      && row.id < |groups| && row.name == groups[row.id].name
      && row.entryCount == EntryCount(journals, row.id) > 0
  {
    var xs := TopLookups(journals, groups);
    var k := SomeIndices(xs)[i];
    var top := TopRanked(journals);
    assert top[k] in Ranked(journals);
  }

  /** The list is ordered by the number of entries, greatest first, and
      names no group twice. */
  lemma TopGroupsOrdered(journals: seq<JournalEntry>, groups: seq<Group>, i: nat, j: nat)
    requires i < j < |TopGroups(journals, groups)|
    ensures var r := TopGroups(journals, groups);
      r[i].entryCount >= r[j].entryCount && r[i].id != r[j].id
  {
    var ranked := Ranked(journals);
    var p := TopGroupRank(journals, groups, i);
    var q := TopGroupRank(journals, groups, j);
    assert CountIn(journals)(ranked[p]) >= CountIn(journals)(ranked[q]);
  }

  /** The rank of a listed group, which grows along the list. */
  lemma TopGroupRank(journals: seq<JournalEntry>, groups: seq<Group>, i: nat) returns (p: nat)
    requires i < |TopGroups(journals, groups)|
    ensures p == SomeIndices(TopLookups(journals, groups))[i] && p < |Ranked(journals)|
    ensures TopGroups(journals, groups)[i].id == Ranked(journals)[p]
    ensures TopGroups(journals, groups)[i].entryCount == EntryCount(journals, Ranked(journals)[p])
  {
    var xs := TopLookups(journals, groups);
    p := SomeSource(xs, i);
    assert TopRanked(journals)[p] == Ranked(journals)[p];
  }

  /** A group with entries that is not listed ranks below the first five. */
  lemma RankedBelowTop(journals: seq<JournalEntry>, groups: seq<Group>, g: Id) returns (p: nat)
    requires g < |groups| && EntryCount(journals, g) > 0
    requires forall k :: 0 <= k < |TopGroups(journals, groups)| ==> TopGroups(journals, groups)[k].id != g
    ensures |TopRanked(journals)| <= p < |Ranked(journals)| && Ranked(journals)[p] == g
  {
    var ranked := Ranked(journals);
    var top := TopRanked(journals);
    assert g in ranked;
    p := IndexOf(ranked, g).value;
    if p < |top| {
      var k := TopRankedListed(journals, groups, p);
      assert false;
    }
  }

  /** A group among the first five ranked that still exists is listed. */
  lemma TopRankedListed(journals: seq<JournalEntry>, groups: seq<Group>, p: nat) returns (k: nat)
    requires p < |TopRanked(journals)| && TopRanked(journals)[p] < |groups|
    ensures k < |TopGroups(journals, groups)| && TopGroups(journals, groups)[k].id == TopRanked(journals)[p]
  {
    var xs := TopLookups(journals, groups);
    k := SomeTarget(xs, p);
  }

  /** No group left out beats a listed one: a group that exists and has
      entries but is not listed has no more entries than any listed
      group. */
  lemma TopGroupsAreTop(journals: seq<JournalEntry>, groups: seq<Group>, g: Id, i: nat)
    requires g < |groups| && EntryCount(journals, g) > 0
    requires forall k :: 0 <= k < |TopGroups(journals, groups)| ==> TopGroups(journals, groups)[k].id != g
    requires i < |TopGroups(journals, groups)|
    ensures EntryCount(journals, g) <= TopGroups(journals, groups)[i].entryCount
  {
    var p := RankedBelowTop(journals, groups, g);
    var ranked := Ranked(journals);
    var xs := TopLookups(journals, groups);
    var k := SomeSource(xs, i);
    assert TopRanked(journals)[k] == ranked[k];
    assert CountIn(journals)(ranked[k]) >= CountIn(journals)(ranked[p]);
  }

  // ---------------------------------------------------------------------
  // Students with many absences

  /** The report's threshold: more than 48 absent lessons (hours). */
  const AbsenceLimit: nat := 48
  const UnknownGroup: string := "Unknown"

  function AbsentCount(marks: seq<Mark>, s: Id): (n: nat)
    ensures n == 0 <==> forall k :: 0 <= k < |marks| ==> !(marks[k].studentId == s && marks[k].attendance == Absent)
  {
    if |marks| == 0 then 0
    else
      var last := marks[|marks| - 1];
      AbsentCount(marks[..|marks| - 1], s) + (if last.studentId == s && last.attendance == Absent then 1 else 0)
  }

  datatype AbsenceRow = AbsenceRow(studentId: Id, studentName: string, groupName: string, absentCount: nat)

  function AbsenceKey(row: AbsenceRow): int {
    row.absentCount
  }

  /** Each mark's student when the mark is an absence. */
  function AbsentMarks(marks: seq<Mark>): (r: seq<Option<Id>>)
    ensures |r| == |marks|
    ensures forall k :: 0 <= k < |r| ==> r[k] == if marks[k].attendance == Absent then Some(marks[k].studentId) else None
  {
    seq(|marks|, k requires 0 <= k < |marks| =>
      if marks[k].attendance == Absent then Some(marks[k].studentId) else None)
  }

  /** An absence behind a positive count. */
  lemma {:induction false} AbsentWitness(marks: seq<Mark>, s: Id) returns (k: nat)
    requires AbsentCount(marks, s) > 0
    ensures k < |marks| && marks[k].studentId == s && marks[k].attendance == Absent
  {
    var last := marks[|marks| - 1];
    if last.studentId == s && last.attendance == Absent {
      k := |marks| - 1;
    } else {
      k := AbsentWitness(marks[..|marks| - 1], s);
    }
  }

  /** The students with an absent mark, each once. */
  function AbsentStudents(marks: seq<Mark>): (r: seq<Id>)
    ensures forall s :: s in r <==> AbsentCount(marks, s) > 0
  {
    var absent := AbsentMarks(marks);
    var r := Dedup(Somes(absent));
    forall s
      ensures s in r <==> AbsentCount(marks, s) > 0
    {
      AbsentStudentsMember(marks, s);
    }
    r
  }

  /** A student is among the absent ones exactly when they have an absence. */
  lemma AbsentStudentsMember(marks: seq<Mark>, s: Id)
    ensures s in Dedup(Somes(AbsentMarks(marks))) <==> AbsentCount(marks, s) > 0
  {
    var absent := AbsentMarks(marks);
    DedupMembership(Somes(absent), s);
    if AbsentCount(marks, s) > 0 {
      var k := AbsentWitness(marks, s);
      SomesKeeps(absent, k);
    }
    if s in Somes(absent) {
      var k := SomeOf(absent, s);
      assert marks[k].studentId == s && marks[k].attendance == Absent;
    }
  }

  /** The group shown for a student: the first one listing them, else
      "Unknown". */
  function GroupNameOf(groups: seq<Group>, s: Id): (name: string)
    ensures FindGroup(groups, s).None? ==> name == UnknownGroup
    ensures FindGroup(groups, s).Some? ==> name == groups[FindGroup(groups, s).value].name
  {
    match FindGroup(groups, s)
    case Some(i) => groups[i].name
    case None => UnknownGroup
  }

  /** A student's row, when the count passes the threshold and the
      student's document exists (`fullNames` holds the existing students'
      names). */
  function AbsenceRowOf(marks: seq<Mark>, groups: seq<Group>, fullNames: map<Id, string>, s: Id): Option<AbsenceRow> {
    if AbsentCount(marks, s) > AbsenceLimit && s in fullNames then
      Some(AbsenceRow(s, fullNames[s], GroupNameOf(groups, s), AbsentCount(marks, s)))
    else None
  }

  function AbsenceLookups(marks: seq<Mark>, groups: seq<Group>, fullNames: map<Id, string>): (r: seq<Option<AbsenceRow>>)
    ensures |r| == |AbsentStudents(marks)|
    ensures forall i :: 0 <= i < |r| ==> r[i] == AbsenceRowOf(marks, groups, fullNames, AbsentStudents(marks)[i])
  {
    var ids := AbsentStudents(marks);
    seq(|ids|, i requires 0 <= i < |ids| => AbsenceRowOf(marks, groups, fullNames, ids[i]))
  }

  /** The high-absence report, most absences first. */
  function HighAbsence(journals: seq<JournalEntry>, groups: seq<Group>, fullNames: map<Id, string>): (r: seq<AbsenceRow>)
    ensures SortedDesc(r, AbsenceKey)
  {
    SortDesc(Somes(AbsenceLookups(AllMarks(journals), groups, fullNames)), AbsenceKey)
  }

  /** Every row is an existing student's, with their name, their group's
      name or "Unknown", and their number of absent marks, which exceeds
      48. */
  lemma HighAbsenceRows(journals: seq<JournalEntry>, groups: seq<Group>, fullNames: map<Id, string>, row: AbsenceRow)
    requires row in HighAbsence(journals, groups, fullNames)
    ensures var marks := AllMarks(journals);
      && row.absentCount == AbsentCount(marks, row.studentId) > AbsenceLimit
      && row.studentId in fullNames && row.studentName == fullNames[row.studentId]
      && row.groupName == GroupNameOf(groups, row.studentId)
  {
    var xs := AbsenceLookups(AllMarks(journals), groups, fullNames);
    SortDescMembership(Somes(xs), AbsenceKey, row);
    var i := SomeOf(xs, row);
    assert AbsenceRowOf(AllMarks(journals), groups, fullNames, AbsentStudents(AllMarks(journals))[i]) == Some(row);
  }

  /** A student is listed exactly when their document exists and they have
      more than 48 absent marks. */
  lemma HighAbsenceListsExactly(journals: seq<JournalEntry>, groups: seq<Group>, fullNames: map<Id, string>, s: Id)
    ensures (exists k :: 0 <= k < |HighAbsence(journals, groups, fullNames)|
                && HighAbsence(journals, groups, fullNames)[k].studentId == s)
        <==> AbsentCount(AllMarks(journals), s) > AbsenceLimit && s in fullNames
  {
    var r := HighAbsence(journals, groups, fullNames);
    var marks := AllMarks(journals);
    var ids := AbsentStudents(marks);
    var xs := AbsenceLookups(marks, groups, fullNames);
    if exists k :: 0 <= k < |r| && r[k].studentId == s {
      var k :| 0 <= k < |r| && r[k].studentId == s;
      HighAbsenceRows(journals, groups, fullNames, r[k]);
    }
    if AbsentCount(marks, s) > AbsenceLimit && s in fullNames {
      var i :| 0 <= i < |ids| && ids[i] == s;
      SomesKeeps(xs, i);
      SortDescMembership(Somes(xs), AbsenceKey, xs[i].value);
      var k :| 0 <= k < |r| && r[k] == xs[i].value;
      assert r[k].studentId == s;
    }
  }

  // ---------------------------------------------------------------------
  // The dashboard

  /** `avgGrade` is kept in tenths. */
  datatype Dashboard = Dashboard(
    totalStudents: nat,
    totalGroups: nat,
    attendanceRate: int,
    averageGradeTenths: int,
    topGroups: seq<TopGroup>,
    highAbsence: seq<AbsenceRow>)

  function DashboardStats(journals: seq<JournalEntry>, groups: seq<Group>, fullNames: map<Id, string>): (d: Dashboard)
    ensures d.totalStudents == |fullNames| && d.totalGroups == |groups|
    ensures 0 <= d.attendanceRate <= 100
    ensures (forall i :: 0 <= i < |journals| ==> ValidEntry(journals[i])) ==> 0 <= d.averageGradeTenths <= 50
    ensures |d.topGroups| <= 5
    ensures SortedDesc(d.highAbsence, AbsenceKey)
  {
    Dashboard(|fullNames|, |groups|, AttendanceRate(journals), AverageTaskTenths(journals),
              TopGroups(journals, groups), HighAbsence(journals, groups, fullNames))
  }
}
