/** The weekly schedules: saving one for a group (replacing the week of the
    group's schedule or creating one), deleting it, and the tally of what a
    teacher teaches across the schedules. */
module Schedules {
  import opened Results
  import opened Records
  import Journal

  // ---------------------------------------------------------------------
  // saveWeeklySchedule

  /** The body of a save: `groupId` and `week`, each `None` when absent. */
  datatype SaveRequest = SaveRequest(groupId: Option<Id>, week: Option<seq<DaySchedule>>)

  /** A lesson as the schema stores it: a missing lesson type becomes the
      schema's default, lecture. */
  function WithDefault(l: Lesson): (r: Lesson)
    ensures r.lessonType.Some?
    ensures l.lessonType.Some? ==> r == l
    ensures r.(lessonType := l.lessonType) == l
  {
    l.(lessonType := Some(l.lessonType.GetOr(DefaultScheduleLessonType)))
  }

  /** A hydrated read sees a lesson as the schema casts it; a lean read
      sees it as stored. */
  lemma HydratedReadsCast(l: Lesson)
    ensures HydratedLessonType(l) == LeanLessonType(WithDefault(l))
    ensures HydratedLessonType(l) == LeanLessonType(l) <==> l.lessonType.Some?
  {
  }

  function DayWithDefaults(d: DaySchedule): (r: DaySchedule)
    ensures r.day == d.day && |r.lessons| == |d.lessons|
    ensures forall k :: 0 <= k < |d.lessons| ==> r.lessons[k] == WithDefault(d.lessons[k])
  {
    DaySchedule(d.day, MapSeq(d.lessons, (l: Lesson) => WithDefault(l)))
  }

  /** The week as the schema casts it. */
  function WeekWithDefaults(week: seq<DaySchedule>): (r: seq<DaySchedule>)
    ensures |r| == |week|
    ensures forall d :: 0 <= d < |week| ==> r[d] == DayWithDefaults(week[d])
  {
    MapSeq(week, (d: DaySchedule) => DayWithDefaults(d))
  }

  /** Casting twice changes nothing further. */
  lemma WeekWithDefaultsIdempotent(week: seq<DaySchedule>)
    ensures WeekWithDefaults(WeekWithDefaults(week)) == WeekWithDefaults(week)
  {
    var w := WeekWithDefaults(week);
    forall d | 0 <= d < |w| ensures DayWithDefaults(w[d]) == w[d] {
      assert DayWithDefaults(w[d]).lessons == w[d].lessons;
    }
  }

  /** What the schema's `required` validators accept: every day has a
      non-empty name and every lesson a non-empty time. */
  predicate ValidWeek(week: seq<DaySchedule>) {
    forall d :: 0 <= d < |week| ==> week[d].day != "" && forall k :: 0 <= k < |week[d].lessons| ==> week[d].lessons[k].time != ""
  }

  /** saveWeeklySchedule: the position of the schedule saved, and the
      store afterwards. The first schedule of the group, whatever its
      semester, gets the new week; without one, a schedule for semester 1
      is appended. Nothing is stored on an error. */
  function SaveWeeklySchedule(schedules: seq<WeeklySchedule>, req: SaveRequest): (out: (Result<nat>, seq<WeeklySchedule>))
    ensures req.groupId.None? || req.week.None? ==> out == (Err(MissingFields), schedules)
    ensures req.groupId.Some? && req.week.Some? && !ValidWeek(req.week.value) ==> out == (Err(InvalidSchedule), schedules)
    ensures out.0.Ok? ==>
      && req.groupId.Some? && req.week.Some? && ValidWeek(req.week.value)
      && var g, i := req.groupId.value, out.0.value;
      && i < |out.1| && out.1[i].groupId == g && out.1[i].week == WeekWithDefaults(req.week.value)
      && (Journal.FindSchedule(schedules, g).Some? ==>
            && i == Journal.FindSchedule(schedules, g).value
            && out.1 == schedules[i := schedules[i].(week := out.1[i].week)])
      && (Journal.FindSchedule(schedules, g).None? ==>
            && i == |schedules|
            && out.1 == schedules + [WeeklySchedule(g, DefaultSemester, out.1[i].week)])
  {
    if req.groupId.None? || req.week.None? then (Err(MissingFields), schedules)
    else if !ValidWeek(req.week.value) then (Err(InvalidSchedule), schedules)
    else
      var g, week := req.groupId.value, WeekWithDefaults(req.week.value);
      match Journal.FindSchedule(schedules, g)
      case Some(i) => (Ok(i), schedules[i := schedules[i].(week := week)])
      case None => (Ok(|schedules|), schedules + [WeeklySchedule(g, DefaultSemester, week)])
  }

  /** Reading the group's schedule back after a save gives the week saved,
      as the schema stored it. */
  lemma SaveThenGet(schedules: seq<WeeklySchedule>, req: SaveRequest)
    requires SaveWeeklySchedule(schedules, req).0.Ok?
    ensures var out := SaveWeeklySchedule(schedules, req);
      && Journal.FindSchedule(out.1, req.groupId.value) == Some(out.0.value)
      && out.1[out.0.value].week == WeekWithDefaults(req.week.value)
  {
    var out := SaveWeeklySchedule(schedules, req);
    var g, i := req.groupId.value, out.0.value;
    assert forall j :: 0 <= j < i ==> out.1[j] == schedules[j];
  }

  /** Saving the same week twice leaves the store as saving it once. */
  lemma SaveIdempotent(schedules: seq<WeeklySchedule>, req: SaveRequest)
    ensures var once := SaveWeeklySchedule(schedules, req);
      SaveWeeklySchedule(once.1, req) == once
  {
    var once := SaveWeeklySchedule(schedules, req);
    if once.0.Ok? {
      SaveThenGet(schedules, req);
      var i := once.0.value;
      assert once.1[i := once.1[i].(week := WeekWithDefaults(req.week.value))] == once.1;
    }
  }

  /** The store's unique index on (group, semester) is never violated by a
      save: a replaced week keeps its semester, and a new schedule is only
      created for a group that had none. */
  lemma SaveKeepsIndex(schedules: seq<WeeklySchedule>, req: SaveRequest)
    requires OnePerGroupAndSemester(schedules)
    ensures OnePerGroupAndSemester(SaveWeeklySchedule(schedules, req).1)
  {
    var out := SaveWeeklySchedule(schedules, req);
    if out.0.Ok? && out.0.value == |schedules| {
      assert forall j :: 0 <= j < |schedules| ==> schedules[j].groupId != req.groupId.value;
    }
  }

  /** Afterwards the group has a schedule; exactly one when it had at most
      one. */
  lemma SaveLeavesOneSchedule(schedules: seq<WeeklySchedule>, req: SaveRequest)
    requires SaveWeeklySchedule(schedules, req).0.Ok?
    ensures var g := req.groupId.value;
      var before := CountWhere(schedules, HasGroup(g));
      CountWhere(SaveWeeklySchedule(schedules, req).1, HasGroup(g)) == if before == 0 then 1 else before
  {
    var out := SaveWeeklySchedule(schedules, req);
    var g, i := req.groupId.value, out.0.value;
    if i < |schedules| {
      CountWhereUpdate(schedules, HasGroup(g), i, out.1[i]);
      assert CountWhere(schedules, HasGroup(g)) > 0 by {
        assert HasGroup(g)(schedules[i]);
      }
    } else {
      CountWhereAppend(schedules, HasGroup(g), out.1[i]);
      assert out.1 == schedules + [out.1[i]];
    }
  }

  function HasGroup(g: Id): WeeklySchedule -> bool {
    (s: WeeklySchedule) => s.groupId == g
  }

  // ---------------------------------------------------------------------
  // deleteWeeklySchedule

  /** deleteWeeklySchedule: the first schedule of the group is removed; a
      group without one is not found and nothing changes. */
  function DeleteWeeklySchedule(schedules: seq<WeeklySchedule>, g: Id): (out: (Result<nat>, seq<WeeklySchedule>))
    ensures out.0.Err? <==> forall j :: 0 <= j < |schedules| ==> schedules[j].groupId != g
    ensures out.0.Err? ==> out == (Err(ScheduleNotFound), schedules)
    ensures out.0.Ok? ==>
      && var i := out.0.value;
      && i < |schedules| && schedules[i].groupId == g
      && (forall j :: 0 <= j < i ==> schedules[j].groupId != g)
      && out.1 == schedules[..i] + schedules[i + 1..]
  {
    match Journal.FindSchedule(schedules, g)
    case None => (Err(ScheduleNotFound), schedules)
    case Some(i) => (Ok(i), schedules[..i] + schedules[i + 1..])
  }

  /** Deleting keeps the unique index and every other schedule. */
  lemma DeleteKeepsOthers(schedules: seq<WeeklySchedule>, g: Id, s: WeeklySchedule)
    requires s in schedules && s.groupId != g
    ensures s in DeleteWeeklySchedule(schedules, g).1
  {
    var out := DeleteWeeklySchedule(schedules, g);
    if out.0.Ok? {
      var i := out.0.value;
      var j :| 0 <= j < |schedules| && schedules[j] == s;
      if j < i {
        assert out.1[j] == s;
      } else {
        assert j > i;
        assert out.1[j - 1] == s;
      }
    }
  }

  /** Creating a group's first schedule and then deleting it restores the
      store. */
  lemma SaveThenDelete(schedules: seq<WeeklySchedule>, req: SaveRequest)
    requires SaveWeeklySchedule(schedules, req).0.Ok?
    requires Journal.FindSchedule(schedules, req.groupId.value).None?
    ensures DeleteWeeklySchedule(SaveWeeklySchedule(schedules, req).1, req.groupId.value) == (Ok(|schedules|), schedules)
  {
    var out := SaveWeeklySchedule(schedules, req);
    var g := req.groupId.value;
    assert out.1[|schedules|].groupId == g;
    var del := DeleteWeeklySchedule(out.1, g);
    assert del.0.Ok?;
    assert del.0.value == |schedules|;
    assert out.1[..|schedules|] == schedules;
    assert out.1[|schedules| + 1..] == [];
    assert del.1 == schedules;
    assert del.0 == Ok(|schedules|);
  }

  // ---------------------------------------------------------------------
  // getMyTeachingSchedule

  /** The lessons of a week, day by day. */
  function WeekLessons(week: seq<DaySchedule>): (r: seq<Lesson>)
    ensures |r| == |FlatLessons(week)|
    ensures forall i :: 0 <= i < |r| ==> r[i] == FlatLessons(week)[i].1
  {
    MapSeq(FlatLessons(week), (p: (nat, Lesson)) => p.1)
  }

  predicate TaughtBy(l: Lesson, teacher: Id) {
    l.teacherId == Some(teacher)
  }

  function TaughtByFn(teacher: Id): Lesson -> bool {
    (l: Lesson) => TaughtBy(l, teacher)
  }

  /** `find({ "week.lessons.teacherId": teacher })`: some lesson of the
      schedule is the teacher's. */
  predicate Teaches(s: WeeklySchedule, teacher: Id) {
    exists i :: 0 <= i < |WeekLessons(s.week)| && TaughtBy(WeekLessons(s.week)[i], teacher)
  }

  function TeachesFn(teacher: Id): WeeklySchedule -> bool {
    (s: WeeklySchedule) => Teaches(s, teacher)
  }

  /** The lessons of the schedules, schedule by schedule, in the order the
      nested `forEach` visits them. */
  function LessonsOf(ms: seq<WeeklySchedule>): seq<Lesson> {
    if |ms| == 0 then []
    else LessonsOf(ms[..|ms| - 1]) + WeekLessons(ms[|ms| - 1].week)
  }

  datatype TaughtGroup = TaughtGroup(id: Id, name: string, shift: int)
  datatype Teaching = Teaching(groups: seq<TaughtGroup>, subjects: seq<string>, totalHours: nat)

  /** The populated group of a schedule; `None` when the group is gone. */
  function GroupOf(groups: seq<Group>): WeeklySchedule -> Option<TaughtGroup> {
    (s: WeeklySchedule) =>
      if s.groupId < |groups| then Some(TaughtGroup(s.groupId, groups[s.groupId].name, groups[s.groupId].shift))
      else None
  }

  /** `lesson.subjectId?.name` when it is a non-empty name. */
  function SubjectNameOf(dir: Directory): Lesson -> Option<string> {
    (l: Lesson) =>
      if l.subjectId.Some? && l.subjectId.value in dir.subjectNames && dir.subjectNames[l.subjectId.value] != ""
      then Some(dir.subjectNames[l.subjectId.value])
      else None
  }

  /** The `groupsMap` values: each existing group of the schedules once,
      in order of first occurrence. */
  function TaughtGroups(groups: seq<Group>, ms: seq<WeeklySchedule>): (r: seq<TaughtGroup>)
    ensures Distinct(r)
    ensures |r| <= |ms|
  {
    Dedup(Somes(MapSeq(ms, GroupOf(groups))))
  }

  /** The lessons of the teacher's schedules. */
  function TeacherLessons(schedules: seq<WeeklySchedule>, teacher: Id): seq<Lesson> {
    LessonsOf(Filter(schedules, TeachesFn(teacher)))
  }

  /** getMyTeachingSchedule for the signed-in teacher. Reading the teacher
      of a lesson without one throws, in any schedule the query returns. */
  function MyTeachingSchedule(schedules: seq<WeeklySchedule>, groups: seq<Group>, dir: Directory, teacher: Id): (r: Result<Teaching>)
    ensures var ls := TeacherLessons(schedules, teacher);
      && (r.Err? <==> exists i :: 0 <= i < |ls| && ls[i].teacherId.None?)
      && (r.Err? ==> r.failure == Crash)
      && (r.Ok? ==>
            && r.value.totalHours == CountWhere(ls, TaughtByFn(teacher))
            && Distinct(r.value.subjects)
            && r.value.groups == TaughtGroups(groups, Filter(schedules, TeachesFn(teacher))))
  {
    var ms := Filter(schedules, TeachesFn(teacher));
    var ls := TeacherLessons(schedules, teacher);
    if exists i :: 0 <= i < |ls| && ls[i].teacherId.None? then Err(Crash)
    else
      var taught := Filter(ls, TaughtByFn(teacher));
      FilterLength(ls, TaughtByFn(teacher));
      Ok(Teaching(TaughtGroups(groups, ms), SubjectsTaught(ls, dir, teacher), |taught|))
  }

  /** The subjects of a list of lessons: the non-empty names of the
      teacher's lessons, each once. */
  function SubjectsTaught(ls: seq<Lesson>, dir: Directory, teacher: Id): (r: seq<string>)
    ensures Distinct(r)
  {
    Dedup(Somes(MapSeq(Filter(ls, TaughtByFn(teacher)), SubjectNameOf(dir))))
  }

  /** A subject name is listed exactly when one of the teacher's lessons in
      the schedules has that subject. */
  lemma TeachingSubjectsListed(schedules: seq<WeeklySchedule>, groups: seq<Group>, dir: Directory, teacher: Id, x: string)
    requires MyTeachingSchedule(schedules, groups, dir, teacher).Ok?
    ensures var ls := TeacherLessons(schedules, teacher);
      x in MyTeachingSchedule(schedules, groups, dir, teacher).value.subjects <==>
        exists i :: 0 <= i < |ls| && TaughtBy(ls[i], teacher) && SubjectNameOf(dir)(ls[i]) == Some(x)
  {
    var ls := TeacherLessons(schedules, teacher);
    assert MyTeachingSchedule(schedules, groups, dir, teacher).value.subjects == SubjectsTaught(ls, dir, teacher);
    SubjectsTaughtListed(ls, dir, teacher, x);
  }

  lemma SubjectsTaughtListed(ls: seq<Lesson>, dir: Directory, teacher: Id, x: string)
    ensures x in SubjectsTaught(ls, dir, teacher) <==>
      exists i :: 0 <= i < |ls| && TaughtBy(ls[i], teacher) && SubjectNameOf(dir)(ls[i]) == Some(x)
  {
    if x in SubjectsTaught(ls, dir, teacher) {
      var i := SubjectSource(ls, dir, teacher, x);
    }
    if exists i :: 0 <= i < |ls| && TaughtBy(ls[i], teacher) && SubjectNameOf(dir)(ls[i]) == Some(x) {
      var i :| 0 <= i < |ls| && TaughtBy(ls[i], teacher) && SubjectNameOf(dir)(ls[i]) == Some(x);
      SubjectKept(ls, dir, teacher, i);
    }
  }

  lemma SubjectSource(ls: seq<Lesson>, dir: Directory, teacher: Id, x: string) returns (i: nat)
    requires x in SubjectsTaught(ls, dir, teacher)
    ensures i < |ls| && TaughtBy(ls[i], teacher) && SubjectNameOf(dir)(ls[i]) == Some(x)
  {
    var ys := MapSeq(Filter(ls, TaughtByFn(teacher)), SubjectNameOf(dir));
    var k :| 0 <= k < |Dedup(Somes(ys))| && Dedup(Somes(ys))[k] == x;
    var t := DedupSomesSource(ys, k);
    i := MapFilterSource(ls, TaughtByFn(teacher), SubjectNameOf(dir), t);
  }

  lemma SubjectKept(ls: seq<Lesson>, dir: Directory, teacher: Id, i: nat)
    requires i < |ls| && TaughtBy(ls[i], teacher) && SubjectNameOf(dir)(ls[i]).Some?
    ensures SubjectNameOf(dir)(ls[i]).value in SubjectsTaught(ls, dir, teacher)
  {
    var ys := MapSeq(Filter(ls, TaughtByFn(teacher)), SubjectNameOf(dir));
    var t := MapFilterTarget(ls, TaughtByFn(teacher), SubjectNameOf(dir), i);
    var k := DedupSomesTarget(ys, t);
  }

  /** A group is listed exactly when it exists and one of the teacher's
      schedules belongs to it. */
  lemma TeachingGroupsListed(schedules: seq<WeeklySchedule>, groups: seq<Group>, g: Id, teacher: Id)
    ensures var r := TaughtGroups(groups, Filter(schedules, TeachesFn(teacher)));
      (exists k :: 0 <= k < |r| && r[k].id == g)
        <==> g < |groups| && exists j :: 0 <= j < |schedules| && Teaches(schedules[j], teacher) && schedules[j].groupId == g
  {
    var p := TeachesFn(teacher);
    var r := TaughtGroups(groups, Filter(schedules, p));
    if exists k :: 0 <= k < |r| && r[k].id == g {
      var k :| 0 <= k < |r| && r[k].id == g;
      var j := GroupSource(schedules, groups, p, k);
      assert Teaches(schedules[j], teacher);
    }
    if g < |groups| && exists j :: 0 <= j < |schedules| && Teaches(schedules[j], teacher) && schedules[j].groupId == g {
      var j :| 0 <= j < |schedules| && Teaches(schedules[j], teacher) && schedules[j].groupId == g;
      assert p(schedules[j]);
      var k := GroupKept(schedules, groups, p, j);
    }
  }

  /** Every listed group is the existing group of a kept schedule, with
      that group's name and shift. */
  lemma GroupSource(schedules: seq<WeeklySchedule>, groups: seq<Group>, p: WeeklySchedule -> bool, k: nat) returns (j: nat)
    requires k < |TaughtGroups(groups, Filter(schedules, p))|
    ensures var t := TaughtGroups(groups, Filter(schedules, p))[k];
      && j < |schedules| && p(schedules[j]) && schedules[j].groupId == t.id
      && t.id < |groups| && t == TaughtGroup(t.id, groups[t.id].name, groups[t.id].shift)
  {
    var ys := MapSeq(Filter(schedules, p), GroupOf(groups));
    var i := DedupSomesSource(ys, k);
    j := MapFilterSource(schedules, p, GroupOf(groups), i);
  }

  /** The existing group of each kept schedule is listed. */
  lemma GroupKept(schedules: seq<WeeklySchedule>, groups: seq<Group>, p: WeeklySchedule -> bool, j: nat) returns (k: nat)
    requires j < |schedules| && p(schedules[j]) && schedules[j].groupId < |groups|
    ensures var r := TaughtGroups(groups, Filter(schedules, p));
      k < |r| && r[k].id == schedules[j].groupId
  {
    var ys := MapSeq(Filter(schedules, p), GroupOf(groups));
    var i := MapFilterTarget(schedules, p, GroupOf(groups), j);
    k := DedupSomesTarget(ys, i);
  }

  /** A teacher with no lesson in any schedule gets empty lists and no
      hours. */
  lemma NothingTaught(schedules: seq<WeeklySchedule>, groups: seq<Group>, dir: Directory, teacher: Id)
    requires forall j :: 0 <= j < |schedules| ==> !Teaches(schedules[j], teacher)
    ensures MyTeachingSchedule(schedules, groups, dir, teacher) == Ok(Teaching([], [], 0))
  {
    FilterNone(schedules, TeachesFn(teacher));
    assert LessonsOf([]) == [];
    assert MapSeq([], GroupOf(groups)) == [];
    assert SomeIndices(MapSeq([], GroupOf(groups))) == [];
    var ys := MapSeq(Filter([], TaughtByFn(teacher)), SubjectNameOf(dir));
    assert ys == [];
    assert SomeIndices(ys) == [];
  }
}
