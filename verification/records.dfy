/** The stored documents the core reads and writes: journal entries with
    their per-student marks, weekly schedules, and groups — with the field
    domains and defaults their schemas declare. */
module Records {
  import opened Results

  /** A document id. Journal entries and groups are addressed by their
      position in their store. */
  type Id = nat

  datatype Attendance = Present | Absent | Late
  datatype LessonType = Lecture | Practice | Lab

  // ---------------------------------------------------------------------
  // Journal entries (models/JournalEntry.js)

  /** One student's line in a journal entry. The schema declares exactly
      these four fields; anything else a client sends (such as `notes`) is
      dropped when the document is stored. */
  datatype Mark = Mark(
    studentId: Id,
    attendance: Attendance,
    preparationGrade: Option<int>,
    taskGrade: Option<int>)

  /** A grade is absent (`null`) or between 0 and 5. */
  predicate ValidGrade(g: Option<int>) {
    g.Some? ==> 0 <= g.value <= 5
  }

  predicate ValidMark(m: Mark) {
    ValidGrade(m.preparationGrade) && ValidGrade(m.taskGrade)
  }

  /** The mark a student gets when an entry is first created, which is also
      what the schema's defaults give. */
  function NewMark(studentId: Id): (m: Mark)
    ensures ValidMark(m) && m.studentId == studentId
    ensures m.attendance == Absent && m.preparationGrade.None? && m.taskGrade.None?
  {
    Mark(studentId, Absent, None, None)
  }

  /** The attendance and grades of one lesson of one group. `date` is the
      instant (milliseconds since the epoch) the entry was requested for. */
  datatype JournalEntry = JournalEntry(
    date: int,
    shift: int,
    lessonSlot: int,
    groupId: Id,
    subjectId: Id,
    teacherId: Id,
    lessonType: LessonType,
    topic: string,
    isSubmitted: bool,
    students: seq<Mark>)

  /** What the schema's validators accept. */
  predicate ValidEntry(e: JournalEntry) {
    && (e.shift == 1 || e.shift == 2)
    && 1 <= e.lessonSlot <= 6
    && forall i :: 0 <= i < |e.students| ==> ValidMark(e.students[i])
  }

  const DefaultEntryLessonType: LessonType := Practice

  /** A new entry with the schema's defaults for the fields not given. */
  function NewEntry(date: int, shift: int, lessonSlot: int, groupId: Id, subjectId: Id,
                    teacherId: Id, lessonType: Option<LessonType>, students: seq<Mark>): (e: JournalEntry)
    ensures e.lessonType == lessonType.GetOr(Practice)
    ensures e.topic == "" && !e.isSubmitted && e.students == students
    ensures e.date == date && e.shift == shift && e.lessonSlot == lessonSlot
    ensures e.groupId == groupId && e.subjectId == subjectId && e.teacherId == teacherId
  {
    JournalEntry(date, shift, lessonSlot, groupId, subjectId, teacherId,
                 lessonType.GetOr(DefaultEntryLessonType), "", false, students)
  }

  /** The natural key the journal is looked up by. No index of the store is
      unique, so nothing but the creating code keeps it unique. */
  datatype EntryKey = EntryKey(date: int, shift: int, lessonSlot: int, groupId: Id, subjectId: Id)

  function KeyOf(e: JournalEntry): EntryKey {
    EntryKey(e.date, e.shift, e.lessonSlot, e.groupId, e.subjectId)
  }

  // ---------------------------------------------------------------------
  // Weekly schedules (models/WeeklySchedule.js)

  /** One lesson of a schedule day. `lessonType` is `None` for a document
      stored without the field; the schema itself fills in `Lecture`. */
  datatype Lesson = Lesson(
    time: string,
    subjectId: Option<Id>,
    teacherId: Option<Id>,
    classroom: string,
    lessonType: Option<LessonType>)

  const DefaultScheduleLessonType: LessonType := Lecture

  /** A lesson as the schema creates it from its required time alone. */
  function NewLesson(time: string): (l: Lesson)
    ensures l.time == time && l.subjectId.None? && l.teacherId.None?
    ensures l.classroom == "" && l.lessonType == Some(Lecture)
  {
    Lesson(time, None, None, "", Some(DefaultScheduleLessonType))
  }

  /** `lesson.lessonType || "practice"` on a lean read, which skips the
      schema's defaults: a missing type reads as a practice, where the schema
      would have said lecture. */
  function LeanLessonType(l: Lesson): (t: LessonType)
    ensures l.lessonType.Some? ==> t == l.lessonType.value
    ensures l.lessonType.None? ==> t == Practice && t != DefaultScheduleLessonType
  {
    l.lessonType.GetOr(Practice)
  }

  /** `lesson.lessonType || "practice"` on a hydrated read: the schema's
      default fills a missing type first, so a missing type reads as a
      lecture and the fallback never applies. */
  function HydratedLessonType(l: Lesson): (t: LessonType)
    ensures l.lessonType.Some? ==> t == l.lessonType.value
    ensures l.lessonType.None? ==> t == DefaultScheduleLessonType && t != Practice
  {
    l.lessonType.GetOr(DefaultScheduleLessonType)
  }

  /** A weekday name ("Monday", …) and its lessons, in slot order. */
  datatype DaySchedule = DaySchedule(day: string, lessons: seq<Lesson>)

  datatype WeeklySchedule = WeeklySchedule(groupId: Id, semester: int, week: seq<DaySchedule>)

  /** The lessons of a week in the order `week.forEach(day =>
      day.lessons.forEach(...))` visits them, each paired with the position of
      its day in the week. */
  function FlatLessons(week: seq<DaySchedule>): (r: seq<(nat, Lesson)>)
    ensures forall i :: 0 <= i < |r| ==> r[i].0 < |week| && r[i].1 in week[r[i].0].lessons
    ensures forall d, k :: 0 <= d < |week| && 0 <= k < |week[d].lessons| ==> (d, week[d].lessons[k]) in r
    ensures forall i, j :: 0 <= i < j < |r| ==> r[i].0 <= r[j].0
  {
    if |week| == 0 then []
    else
      var n := |week| - 1;
      var init := FlatLessons(week[..n]);
      var lessons := week[n].lessons;
      var r := init + seq(|lessons|, k requires 0 <= k < |lessons| => (n, lessons[k]));
      assert forall d :: 0 <= d < n ==> week[..n][d] == week[d];
      assert forall k :: 0 <= k < |lessons| ==> r[|init| + k] == (n, lessons[k]);
      r
  }

  const DefaultSemester: int := 1

  /** The store's unique index: one schedule per (group, semester). */
  predicate OnePerGroupAndSemester(schedules: seq<WeeklySchedule>) {
    forall i, j :: 0 <= i < j < |schedules| ==>
      (schedules[i].groupId, schedules[i].semester) != (schedules[j].groupId, schedules[j].semester)
  }

  /** `Date.getDay()` names, Sunday first. */
  const DayNames: seq<string> :=
    ["Sunday", "Monday", "Tuesday", "Wednesday", "Thursday", "Friday", "Saturday"]

  // ---------------------------------------------------------------------
  // Groups (models/Groups.js)

  datatype Group = Group(
    code: string,
    name: string,
    course: int,
    faculty: string,
    shift: int,
    studentCount: int,
    subjectCount: int,
    students: seq<Id>)

  /** What the group schema's validators accept: the required strings are
      non-empty (a required string validator refuses ""), the course is
      one of 1 to 4 and the shift 1 or 2. */
  predicate ValidGroup(g: Group) {
    && g.code != "" && g.name != "" && g.faculty != ""
    && 1 <= g.course <= 4 && (g.shift == 1 || g.shift == 2)
  }

  /** `Group.findOne({ students: id })`, or the first match of a lookup
      on the groups' rosters: the first group listing the student. */
  function FindGroup(groups: seq<Group>, student: Id): (r: Option<nat>)
    ensures r.Some? ==> r.value < |groups| && student in groups[r.value].students
    ensures r.None? <==> forall i :: 0 <= i < |groups| ==> student !in groups[i].students
  {
    FirstWhere(groups, (g: Group) => student in g.students)
  }

  // ---------------------------------------------------------------------
  // Referenced documents

  /** The documents references resolve against: a reference to a missing
      document populates to `null`. */
  datatype Directory = Directory(subjectNames: map<Id, string>, teachers: set<Id>, students: set<Id>)

  /** The populated subject of a lesson slot, if it has one that exists. */
  function SubjectOf(dir: Directory, ref: Option<Id>): (r: Option<Id>)
    ensures r.Some? <==> ref.Some? && ref.value in dir.subjectNames
    ensures r.Some? ==> r == ref
  {
    if ref.Some? && ref.value in dir.subjectNames then ref else None
  }

  /** The populated teacher of a lesson slot, if it has one that exists. */
  function TeacherOf(dir: Directory, ref: Option<Id>): (r: Option<Id>)
    ensures r.Some? <==> ref.Some? && ref.value in dir.teachers
    ensures r.Some? ==> r == ref
  {
    if ref.Some? && ref.value in dir.teachers then ref else None
  }

  /** The first index of `x` in `xs`. */
  function IndexOf<T(==)>(xs: seq<T>, x: T): (r: Option<nat>)
    ensures r.Some? ==> r.value < |xs| && xs[r.value] == x
    ensures r.Some? ==> forall j :: 0 <= j < r.value ==> xs[j] != x
    ensures r.None? <==> x !in xs
  {
    if |xs| == 0 then None
    else if xs[0] == x then Some(0)
    else match IndexOf(xs[1..], x)
      case Some(i) => Some(i + 1)
      case None => None
  }

  /** The first index whose element satisfies `p` (`Array.prototype.find`,
      `findOne` in insertion order). */
  function FirstWhere<T>(xs: seq<T>, p: T -> bool): (r: Option<nat>)
    ensures r.Some? ==> r.value < |xs| && p(xs[r.value])
    ensures r.Some? ==> forall j :: 0 <= j < r.value ==> !p(xs[j])
    ensures r.None? ==> forall j :: 0 <= j < |xs| ==> !p(xs[j])
  {
    if |xs| == 0 then None
    else if p(xs[0]) then Some(0)
    else match FirstWhere(xs[1..], p)
      case Some(i) => Some(i + 1)
      case None => None
  }

  /** The last index whose element satisfies `p`. */
  function LastWhere<T>(xs: seq<T>, p: T -> bool): (r: Option<nat>)
    ensures r.Some? ==> r.value < |xs| && p(xs[r.value])
    ensures r.Some? ==> forall j :: r.value < j < |xs| ==> !p(xs[j])
    ensures r.None? ==> forall j :: 0 <= j < |xs| ==> !p(xs[j])
  {
    if |xs| == 0 then None
    else if p(xs[|xs| - 1]) then Some(|xs| - 1)
    else LastWhere(xs[..|xs| - 1], p)
  }

  predicate Distinct<T(==)>(xs: seq<T>) {
    forall i, j :: 0 <= i < j < |xs| ==> xs[i] != xs[j]
  }

  /** The elements of `xs` without repetitions, each where it first occurs:
      the key order of a `Map` or `Set` filled from `xs`. */
  function Dedup<T(==)>(xs: seq<T>): (r: seq<T>)
    ensures Distinct(r)
    ensures forall i :: 0 <= i < |r| ==> r[i] in xs
    ensures forall i :: 0 <= i < |xs| ==> xs[i] in r
    ensures |r| <= |xs|
  {
    if |xs| == 0 then []
    else
      var init := xs[..|xs| - 1];
      var last := xs[|xs| - 1];
      assert forall i :: 0 <= i < |init| ==> init[i] == xs[i];
      Dedup(init) + (if last in init then [] else [last])
  }

  /** Dedup keeps exactly the elements of `xs`. */
  lemma DedupMembership<T>(xs: seq<T>, x: T)
    ensures x in Dedup(xs) <==> x in xs
  {
    if x in Dedup(xs) {
      var i :| 0 <= i < |Dedup(xs)| && Dedup(xs)[i] == x;
    }
    if x in xs {
      var i :| 0 <= i < |xs| && xs[i] == x;
    }
  }

  /** Where an element of `xs` sits in `Dedup(xs)`. */
  lemma DedupTarget<T>(xs: seq<T>, x: T) returns (k: nat)
    requires x in xs
    ensures k < |Dedup(xs)| && Dedup(xs)[k] == x
  {
    var i :| 0 <= i < |xs| && xs[i] == x;
    k :| 0 <= k < |Dedup(xs)| && Dedup(xs)[k] == x;
  }

  /** Filtering a one-element list. */
  lemma FilterOne<T>(x: T, p: T -> bool)
    ensures Filter([x], p) == if p(x) then [x] else []
  {
    assert [x][..0] == [];
  }

  /** Filtering a list with one more element at the end. */
  lemma FilterSnoc<T>(xs: seq<T>, x: T, p: T -> bool)
    ensures Filter(xs + [x], p) == Filter(xs, p) + (if p(x) then [x] else [])
  {
    assert (xs + [x])[..|xs|] == xs;
  }

  /** Mapping and deduplicating a one-element list. */
  lemma MapDedupOne<T, U>(x: T, f: T -> U)
    ensures Dedup(MapSeq([x], f)) == [f(x)]
  {
    assert MapSeq([x], f) == [f(x)];
    assert [f(x)][..0] == [];
  }

  /** Where a value of `Dedup(Somes(ys))` sits in `ys`. */
  lemma DedupSomesSource<T>(ys: seq<Option<T>>, k: nat) returns (i: nat)
    requires k < |Dedup(Somes(ys))|
    ensures i < |ys| && ys[i] == Some(Dedup(Somes(ys))[k])
  {
    var x := Dedup(Somes(ys))[k];
    var m :| 0 <= m < |Somes(ys)| && Somes(ys)[m] == x;
    i := SomeSource(ys, m);
  }

  /** Where a value present in `ys` lands in `Dedup(Somes(ys))`. */
  lemma DedupSomesTarget<T>(ys: seq<Option<T>>, i: nat) returns (k: nat)
    requires i < |ys| && ys[i].Some?
    ensures k < |Dedup(Somes(ys))| && Dedup(Somes(ys))[k] == ys[i].value
  {
    var m := SomeTarget(ys, i);
    k := DedupTarget(Somes(ys), Somes(ys)[m]);
  }

  /** Where a value of the mapped filtered list comes from. */
  function MapFilterSource<T, U>(xs: seq<T>, p: T -> bool, f: T -> U, i: nat): (j: nat)
    requires i < |MapSeq(Filter(xs, p), f)|
    ensures j < |xs| && p(xs[j]) && MapSeq(Filter(xs, p), f)[i] == f(xs[j])
  {
    FilterSource(xs, p, i)
  }

  /** Where the image of a kept element lands in the mapped filtered list. */
  function MapFilterTarget<T, U>(xs: seq<T>, p: T -> bool, f: T -> U, j: nat): (i: nat)
    requires j < |xs| && p(xs[j])
    ensures i < |MapSeq(Filter(xs, p), f)| && MapSeq(Filter(xs, p), f)[i] == f(xs[j])
  {
    FilterTarget(xs, p, j)
  }

  /** Dedup keeps the order of first occurrences. */
  lemma {:induction false} DedupOrder<T>(xs: seq<T>, i: nat, j: nat)
    requires i < j < |Dedup(xs)|
    ensures IndexOf(xs, Dedup(xs)[i]).value < IndexOf(xs, Dedup(xs)[j]).value
  {
    var init := xs[..|xs| - 1];
    var last := xs[|xs| - 1];
    IndexOfPrefix(xs, Dedup(xs)[i]);
    if j < |Dedup(init)| {
      DedupOrder(init, i, j);
      IndexOfPrefix(xs, Dedup(xs)[j]);
    } else {
      assert Dedup(xs)[j] == last && last !in init;
    }
  }

  /** An element of a prefix is first found where the prefix finds it. */
  lemma IndexOfPrefix<T>(xs: seq<T>, x: T)
    requires |xs| > 0 && x in xs[..|xs| - 1]
    ensures IndexOf(xs, x) == IndexOf(xs[..|xs| - 1], x)
  {
    var k := IndexOf(xs[..|xs| - 1], x).value;
    assert xs[k] == x;
    assert forall j :: 0 <= j < k ==> xs[j] == xs[..|xs| - 1][j];
  }

  /** How many elements of `xs` satisfy `p`. */
  function CountWhere<T>(xs: seq<T>, p: T -> bool): (n: nat)
    ensures n <= |xs|
    ensures n == 0 <==> forall i :: 0 <= i < |xs| ==> !p(xs[i])
  {
    if |xs| == 0 then 0
    else CountWhere(xs[..|xs| - 1], p) + (if p(xs[|xs| - 1]) then 1 else 0)
  }

  /** Counting a weaker condition counts at least as many. */
  lemma {:induction false} CountWhereMono<T>(xs: seq<T>, p: T -> bool, q: T -> bool)
    requires forall i :: 0 <= i < |xs| ==> p(xs[i]) ==> q(xs[i])
    ensures CountWhere(xs, p) <= CountWhere(xs, q)
  {
    if |xs| > 0 {
      var init := xs[..|xs| - 1];
      assert forall i :: 0 <= i < |init| ==> init[i] == xs[i];
      CountWhereMono(init, p, q);
    }
  }

  /** A list without repetitions has as many elements as its set. */
  lemma {:induction false} DistinctCardinality(xs: seq<Id>)
    requires Distinct(xs)
    ensures |SetOf(xs)| == |xs|
  {
    if |xs| > 0 {
      var init, last := xs[..|xs| - 1], xs[|xs| - 1];
      assert Distinct(init);
      DistinctCardinality(init);
      assert last !in init;
      assert SetOf(xs) == SetOf(init) + {last};
    }
  }

  function SetOf(xs: seq<Id>): (s: set<Id>)
    ensures forall x :: x in s <==> x in xs
  {
    set x | x in xs
  }

  /** The elements of `xs` that satisfy `p`, in order: `xs.filter(p)`. */
  function Filter<T>(xs: seq<T>, p: T -> bool): (r: seq<T>)
    ensures |r| <= |xs|
    ensures forall i :: 0 <= i < |r| ==> p(r[i])
  {
    if |xs| == 0 then []
    else Filter(xs[..|xs| - 1], p) + (if p(xs[|xs| - 1]) then [xs[|xs| - 1]] else [])
  }

  /** Nothing satisfies the condition, so nothing is kept. */
  lemma {:induction false} FilterNone<T>(xs: seq<T>, p: T -> bool)
    requires forall i :: 0 <= i < |xs| ==> !p(xs[i])
    ensures Filter(xs, p) == []
  {
    if |xs| > 0 {
      FilterNone(xs[..|xs| - 1], p);
    }
  }

  /** Where an element of the filtered list comes from. */
  function FilterSource<T>(xs: seq<T>, p: T -> bool, i: nat): (j: nat)
    requires i < |Filter(xs, p)|
    ensures j < |xs| && xs[j] == Filter(xs, p)[i] && p(xs[j])
  {
    assert |xs| > 0;
    var init := xs[..|xs| - 1];
    if i < |Filter(init, p)| then
      var j := FilterSource(init, p, i);
      assert xs[j] == init[j];
      j
    else |xs| - 1
  }

  /** Where an element that satisfies the condition lands in the filtered
      list. */
  function FilterTarget<T>(xs: seq<T>, p: T -> bool, j: nat): (i: nat)
    requires j < |xs| && p(xs[j])
    ensures i < |Filter(xs, p)| && Filter(xs, p)[i] == xs[j]
  {
    var init := xs[..|xs| - 1];
    if j == |xs| - 1 then |Filter(init, p)|
    else
      assert xs[j] == init[j];
      FilterTarget(init, p, j)
  }

  /** Filtering keeps exactly the elements that satisfy the condition. */
  lemma FilterMembership<T>(xs: seq<T>, p: T -> bool, x: T)
    ensures x in Filter(xs, p) <==> x in xs && p(x)
  {
    var r := Filter(xs, p);
    if x in r {
      var i :| 0 <= i < |r| && r[i] == x;
      var j := FilterSource(xs, p, i);
    }
    if x in xs && p(x) {
      var j :| 0 <= j < |xs| && xs[j] == x;
      var i := FilterTarget(xs, p, j);
    }
  }

  /** The filtered list is as long as the count of its condition. */
  lemma {:induction false} FilterLength<T>(xs: seq<T>, p: T -> bool)
    ensures |Filter(xs, p)| == CountWhere(xs, p)
  {
    if |xs| > 0 {
      FilterLength(xs[..|xs| - 1], p);
    }
  }

  /** `xs.map(f)`. */
  function MapSeq<T, U>(xs: seq<T>, f: T -> U): (r: seq<U>)
    ensures |r| == |xs|
    ensures forall i :: 0 <= i < |xs| ==> r[i] == f(xs[i])
  {
    if |xs| == 0 then []
    else
      var init := xs[..|xs| - 1];
      assert forall i :: 0 <= i < |init| ==> init[i] == xs[i];
      MapSeq(init, f) + [f(xs[|xs| - 1])]
  }

  /** Appending one element counts it when it satisfies the condition. */
  lemma CountWhereAppend<T>(xs: seq<T>, p: T -> bool, x: T)
    ensures CountWhere(xs + [x], p) == CountWhere(xs, p) + (if p(x) then 1 else 0)
  {
    assert (xs + [x])[..|xs|] == xs;
  }

  /** Replacing an element by one that agrees on the condition keeps the
      count. */
  lemma {:induction false} CountWhereUpdate<T>(xs: seq<T>, p: T -> bool, i: nat, y: T)
    requires i < |xs| && p(y) == p(xs[i])
    ensures CountWhere(xs[i := y], p) == CountWhere(xs, p)
  {
    var n := |xs| - 1;
    if i < n {
      assert xs[i := y][..n] == xs[..n][i := y];
      CountWhereUpdate(xs[..n], p, i, y);
    } else {
      assert xs[i := y][..n] == xs[..n];
    }
  }

  /** The lists `f` gives for the elements of `xs`, one after another. */
  function Flatten<T, U>(xs: seq<T>, f: T -> seq<U>): seq<U> {
    if |xs| == 0 then [] else Flatten(xs[..|xs| - 1], f) + f(xs[|xs| - 1])
  }

  /** Flattening two lists is flattening each and joining the results. */
  lemma {:induction false} FlattenAppend<T, U>(a: seq<T>, b: seq<T>, f: T -> seq<U>)
    ensures Flatten(a + b, f) == Flatten(a, f) + Flatten(b, f)
    decreases |b|
  {
    if |b| == 0 {
      assert a + b == a;
    } else {
      var init := b[..|b| - 1];
      FlattenAppend(a, init, f);
      assert (a + b)[..|a + b| - 1] == a + init;
    }
  }

  /** Where an element of the flattened list comes from. */
  lemma {:induction false} FlattenSource<T, U>(xs: seq<T>, f: T -> seq<U>, i: nat) returns (j: nat, t: nat)
    requires i < |Flatten(xs, f)|
    ensures j < |xs| && t < |f(xs[j])| && Flatten(xs, f)[i] == f(xs[j])[t]
  {
    var init := xs[..|xs| - 1];
    var front := Flatten(init, f);
    if i < |front| {
      j, t := FlattenSource(init, f, i);
      assert xs[j] == init[j];
    } else {
      j, t := |xs| - 1, i - |front|;
    }
  }

  /** Where an element of one element's list lands in the flattened list. */
  lemma FlattenTarget<T, U>(xs: seq<T>, f: T -> seq<U>, j: nat, t: nat) returns (i: nat)
    requires j < |xs| && t < |f(xs[j])|
    ensures i < |Flatten(xs, f)| && Flatten(xs, f)[i] == f(xs[j])[t]
  {
    var front, x, rest := xs[..j], xs[j], xs[j + 1..];
    assert xs == front + [x] + rest;
    FlattenAppend(front + [x], rest, f);
    FlattenAppend(front, [x], f);
    assert Flatten([x], f) == f(x) by {
      assert [x][..0] == [];
    }
    i := |Flatten(front, f)| + t;
  }
}
