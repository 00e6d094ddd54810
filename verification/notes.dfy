/** The remarks on students, grouped by group name: the admin's view of one
    group and a student's view of their own remarks
    (controllers/journalController.js, getAdminNotes and getMyNotes).

    A mark as the schema stores it has no remark field, so what a mark's
    remark is comes in as a parameter, `noteOf`; `StoredNote` is what the
    store actually gives back (nothing), and with it both views are
    empty. */
module Notes {
  import opened Results
  import opened Records
  import opened Text
  import opened Sorting
  import opened Calendar
  import opened Overlay
  import StudentStats
  import opened Journal
  import ObjectKeys

  const NoTeacherName: string := "Муаллим нест"
  const NoStudentName: string := "Донишҷӯ номаълум"

  /** One remark as listed. `day` is the civil day of the entry, which the
      handlers show as "DD.MM.YYYY" and sort by; `studentName` is only
      shown to the admin. */
  datatype Note = Note(
    day: int,
    subject: string,
    teacher: string,
    group: string,
    studentName: Option<string>,
    text: string)

  /** The names the populated references show. */
  datatype People = People(teacherNames: map<Id, string>, studentNames: map<Id, string>)

  /** A mark's remark, if it has one. */
  type NoteSource = (JournalEntry, Mark) -> Option<string>

  /** What a stored mark holds: the schema keeps no remark. */
  function StoredNote(e: JournalEntry, m: Mark): Option<string> {
    None
  }

  /** `ref?.fullName || fallback`. */
  function NameOr(names: map<Id, string>, id: Id, fallback: string): string {
    if id in names && names[id] != "" then names[id] else fallback
  }

  /** The listed remark of mark `m` of entry `e`, whose remark is `text`. */
  function MakeNote(db: Db, people: People, e: JournalEntry, m: Mark, text: string, withStudent: bool): Note {
    Note(CivilDay(e.date), StudentStats.Caption(db.dir, e),
         NameOr(people.teacherNames, e.teacherId, NoTeacherName),
         GroupLabel(db.groups, e.groupId),
         if withStudent then Some(NameOr(people.studentNames, m.studentId, NoStudentName)) else None,
         Trim(text))
  }

  /** A remark that is present and not blank after trimming. */
  predicate HasNote(noteOf: NoteSource, e: JournalEntry, m: Mark) {
    noteOf(e, m).Some? && !Blank(noteOf(e, m).value)
  }

  function NoteFor(db: Db, people: People, noteOf: NoteSource, e: JournalEntry, m: Mark, withStudent: bool): Option<Note> {
    if HasNote(noteOf, e, m) then Some(MakeNote(db, people, e, m, noteOf(e, m).value, withStudent)) else None
  }

  /** Every listed remark has some text: blank ones are skipped, and a
      remark that is not blank keeps something once trimmed. */
  lemma NoteTextNotBlank(db: Db, people: People, noteOf: NoteSource, e: JournalEntry, m: Mark, withStudent: bool)
    requires NoteFor(db, people, noteOf, e, m, withStudent).Some?
    ensures var n := NoteFor(db, people, noteOf, e, m, withStudent).value;
      n.text != "" && n.text == Trim(noteOf(e, m).value)
  {
    TrimEmpty(noteOf(e, m).value);
  }

  // ---------------------------------------------------------------------
  // Grouping

  function NoteDay(n: Note): int {
    n.day
  }

  function GroupIs(k: string): Note -> bool {
    (n: Note) => n.group == k
  }

  /** The remarks filed under name `k`, in list order. */
  function WithGroup(notes: seq<Note>, k: string): (r: seq<Note>)
  {
    if |notes| == 0 then []
    else WithGroup(notes[..|notes| - 1], k) + (if notes[|notes| - 1].group == k then [notes[|notes| - 1]] else [])
  }

  /** The `reduce` that files each remark under its group's name, in list
      order. */
  function Grouped(notes: seq<Note>): (r: map<string, seq<Note>>)
    ensures forall i :: 0 <= i < |notes| ==> notes[i].group in r
    ensures forall k :: k in r ==> r[k] == WithGroup(notes, k) && r[k] != []
  {
    if |notes| == 0 then map[]
    else
      var acc := Grouped(notes[..|notes| - 1]);
      GroupedStep(notes, acc);
      acc[notes[|notes| - 1].group := (if notes[|notes| - 1].group in acc then acc[notes[|notes| - 1].group] else []) + [notes[|notes| - 1]]]
  }

  /** Filing the last remark keeps every name's list equal to the remarks
      with that name. */
  lemma GroupedStep(notes: seq<Note>, acc: map<string, seq<Note>>)
    requires |notes| > 0
    requires forall i :: 0 <= i < |notes| - 1 ==> notes[i].group in acc
    requires forall k :: k in acc ==> acc[k] == WithGroup(notes[..|notes| - 1], k) && acc[k] != []
    ensures var last := notes[|notes| - 1];
      var r := acc[last.group := (if last.group in acc then acc[last.group] else []) + [last]];
      && (forall i :: 0 <= i < |notes| ==> notes[i].group in r)
      && (forall k :: k in r ==> r[k] == WithGroup(notes, k) && r[k] != [])
  {
    var init, last := notes[..|notes| - 1], notes[|notes| - 1];
    if last.group !in acc {
      assert forall i :: 0 <= i < |init| ==> init[i].group != last.group;
      NoneWithGroup(init, last.group);
    }
    var r := acc[last.group := (if last.group in acc then acc[last.group] else []) + [last]];
    forall k | k in r
      ensures r[k] == WithGroup(notes, k) && r[k] != []
    {
      assert WithGroup(notes, k) == WithGroup(init, k) + (if last.group == k then [last] else []);
    }
  }

  /** With the same condition written as a filter. */
  lemma {:induction false} WithGroupIsFilter(notes: seq<Note>, k: string)
    ensures WithGroup(notes, k) == Filter(notes, GroupIs(k))
  {
    if |notes| > 0 {
      WithGroupIsFilter(notes[..|notes| - 1], k);
    }
  }

  /** A name no remark has files nothing. */
  lemma {:induction false} NoneWithGroup(notes: seq<Note>, k: string)
    requires forall i :: 0 <= i < |notes| ==> notes[i].group != k
    ensures WithGroup(notes, k) == []
  {
    if |notes| > 0 {
      NoneWithGroup(notes[..|notes| - 1], k);
    }
  }

  /** The grouped remarks, each group's list sorted newest first. */
  function GroupNotes(notes: seq<Note>): (r: map<string, seq<Note>>)
    ensures forall i :: 0 <= i < |notes| ==> notes[i].group in r
    ensures forall k :: k in r ==>
      && r[k] != []
      && SortedDesc(r[k], NoteDay)
      && multiset(r[k]) == multiset(WithGroup(notes, k))
  {
    var g := Grouped(notes);
    map k | k in g :: SortDesc(g[k], NoteDay)
  }

  /** Every remark is filed under its own group's name. */
  lemma NoteFiled(notes: seq<Note>, i: nat)
    requires i < |notes|
    ensures notes[i] in GroupNotes(notes)[notes[i].group]
  {
    var k := notes[i].group;
    WithGroupIsFilter(notes, k);
    var j := FilterTarget(notes, GroupIs(k), i);
    assert notes[i] in multiset(WithGroup(notes, k));
  }

  /** Everything filed under a name is a remark of the list with that group
      name. */
  lemma FiledNoteBelongs(notes: seq<Note>, k: string, j: nat)
    requires k in GroupNotes(notes) && j < |GroupNotes(notes)[k]|
    ensures GroupNotes(notes)[k][j].group == k && GroupNotes(notes)[k][j] in notes
  {
    var n := GroupNotes(notes)[k][j];
    WithGroupIsFilter(notes, k);
    assert n in multiset(WithGroup(notes, k));
    FilterMembership(notes, GroupIs(k), n);
  }

  /** The `reduce` as it runs: for a group name that `Object.prototype`
      holds, `if (!acc[key])` finds the inherited member, which has no
      `push`, so the call throws and the handler answers 500. */
  function Reduced(notes: seq<Note>): (r: Result<map<string, seq<Note>>>)
    ensures r.Err? <==> exists i :: 0 <= i < |notes| && ObjectKeys.Inherited(notes[i].group)
    ensures r.Err? ==> r.failure == Crash
    ensures r.Ok? ==> r.value == Grouped(notes)
  {
    if |notes| == 0 then Ok(map[])
    else
      var init, last := notes[..|notes| - 1], notes[|notes| - 1];
      InheritedSnoc(notes);
      match Reduced(init)
      case Err(f) => Err(f)
      case Ok(acc) =>
        if ObjectKeys.Inherited(last.group) then Err(Crash)
        else Ok(acc[last.group := (if last.group in acc then acc[last.group] else []) + [last]])
  }

  /** A list has a remark under an inherited name exactly when the list
      without its last remark has one or the last remark is one. */
  lemma InheritedSnoc(notes: seq<Note>)
    requires |notes| > 0
    ensures var init, last := notes[..|notes| - 1], notes[|notes| - 1];
      (exists i :: 0 <= i < |notes| && ObjectKeys.Inherited(notes[i].group))
        <==> (exists i :: 0 <= i < |init| && ObjectKeys.Inherited(init[i].group)) || ObjectKeys.Inherited(last.group)
  {
    var init := notes[..|notes| - 1];
    if exists i :: 0 <= i < |notes| && ObjectKeys.Inherited(notes[i].group) {
      var i :| 0 <= i < |notes| && ObjectKeys.Inherited(notes[i].group);
      if i < |init| {
        assert init[i] == notes[i];
      }
    }
    if exists i :: 0 <= i < |init| && ObjectKeys.Inherited(init[i].group) {
      var i :| 0 <= i < |init| && ObjectKeys.Inherited(init[i].group);
      assert notes[i] == init[i];
    }
  }

  /** Some remark is filed under an inherited name exactly when the grouped
      remarks have such a key. */
  lemma InheritedKey(notes: seq<Note>)
    ensures (exists i :: 0 <= i < |notes| && ObjectKeys.Inherited(notes[i].group))
        <==> (exists k :: k in GroupNotes(notes) && ObjectKeys.Inherited(k))
  {
    if exists k :: k in GroupNotes(notes) && ObjectKeys.Inherited(k) {
      var k :| k in GroupNotes(notes) && ObjectKeys.Inherited(k);
      FiledNoteBelongs(notes, k, 0);
      var n := GroupNotes(notes)[k][0];
      var i :| 0 <= i < |notes| && notes[i] == n;
    }
  }

  /** The remarks as answered: grouped and sorted newest first, or a 500
      when the grouping throws. */
  function Answer(notes: seq<Note>): (r: Result<map<string, seq<Note>>>)
    ensures r.Err? <==> exists k :: k in GroupNotes(notes) && ObjectKeys.Inherited(k)
    ensures r.Err? ==> r.failure == Crash
    ensures r.Ok? ==> r.value == GroupNotes(notes)
  {
    InheritedKey(notes);
    if Reduced(notes).Err? then Err(Crash) else Ok(GroupNotes(notes))
  }

  // ---------------------------------------------------------------------
  // getAdminNotes

  function DateKey(e: JournalEntry): int {
    e.date
  }

  function InGroup(groupId: Id): JournalEntry -> bool {
    (e: JournalEntry) => e.groupId == groupId
  }

  /** The group's entries, newest first: `find({ groupId })`,
      `sort({ date: -1 })`. */
  function GroupEntries(journals: seq<JournalEntry>, groupId: Id): (r: seq<JournalEntry>)
    ensures SortedDesc(r, DateKey)
  {
    SortDesc(Filter(journals, InGroup(groupId)), DateKey)
  }

  /** The remarks of one entry, in roster order. */
  function EntryNotes(db: Db, people: People, noteOf: NoteSource, e: JournalEntry): seq<Note> {
    Somes(seq(|e.students|, i requires 0 <= i < |e.students| => NoteFor(db, people, noteOf, e, e.students[i], true)))
  }

  function EntryNotesFn(db: Db, people: People, noteOf: NoteSource): JournalEntry -> seq<Note> {
    (e: JournalEntry) => EntryNotes(db, people, noteOf, e)
  }

  /** The remarks of a list of entries, entry by entry. */
  function EntriesNotes(db: Db, people: People, noteOf: NoteSource, es: seq<JournalEntry>): seq<Note> {
    Flatten(es, EntryNotesFn(db, people, noteOf))
  }

  /** Each listed remark is that of a mark of one of the entries. */
  lemma EntriesNoteSource(db: Db, people: People, noteOf: NoteSource, es: seq<JournalEntry>, i: nat)
      returns (j: nat, k: nat)
    requires i < |EntriesNotes(db, people, noteOf, es)|
    ensures j < |es| && k < |es[j].students| && HasNote(noteOf, es[j], es[j].students[k])
    ensures EntriesNotes(db, people, noteOf, es)[i]
      == MakeNote(db, people, es[j], es[j].students[k], noteOf(es[j], es[j].students[k]).value, true)
  {
    var t;
    j, t := FlattenSource(es, EntryNotesFn(db, people, noteOf), i);
    var e := es[j];
    var xs := seq(|e.students|, m requires 0 <= m < |e.students| => NoteFor(db, people, noteOf, e, e.students[m], true));
    assert EntryNotesFn(db, people, noteOf)(e) == Somes(xs);
    k := SomeSource(xs, t);
  }

  /** Each remark of a mark of one of the entries is listed. */
  lemma EntriesNoteTarget(db: Db, people: People, noteOf: NoteSource, es: seq<JournalEntry>, j: nat, k: nat)
      returns (i: nat)
    requires j < |es| && k < |es[j].students| && HasNote(noteOf, es[j], es[j].students[k])
    ensures i < |EntriesNotes(db, people, noteOf, es)|
    ensures EntriesNotes(db, people, noteOf, es)[i]
      == MakeNote(db, people, es[j], es[j].students[k], noteOf(es[j], es[j].students[k]).value, true)
  {
    var t := EntryNoteTarget(db, people, noteOf, es[j], k);
    i := FlattenTarget(es, EntryNotesFn(db, people, noteOf), j, t);
  }

  /** A remark on a mark of one entry is among that entry's remarks. */
  lemma EntryNoteTarget(db: Db, people: People, noteOf: NoteSource, e: JournalEntry, k: nat) returns (t: nat)
    requires k < |e.students| && HasNote(noteOf, e, e.students[k])
    ensures t < |EntryNotes(db, people, noteOf, e)|
    ensures EntryNotes(db, people, noteOf, e)[t]
      == MakeNote(db, people, e, e.students[k], noteOf(e, e.students[k]).value, true)
  {
    var xs := seq(|e.students|, m requires 0 <= m < |e.students| => NoteFor(db, people, noteOf, e, e.students[m], true));
    t := SomeTarget(xs, k);
  }

  /** getAdminNotes: the group's remarks by group name, newest first. */
  function AdminNotes(db: Db, people: People, noteOf: NoteSource, groupId: Id): (r: map<string, seq<Note>>)
    ensures forall k :: k in r ==> r[k] != [] && SortedDesc(r[k], NoteDay)
  {
    GroupNotes(EntriesNotes(db, people, noteOf, GroupEntries(db.journals, groupId)))
  }

  /** getAdminNotes as answered: the remarks by group name, or a 500 when
      the group's name is one a plain object inherits and there is a
      remark to file under it. */
  function AdminNotesAnswer(db: Db, people: People, noteOf: NoteSource, groupId: Id)
    : (r: Result<map<string, seq<Note>>>)
    ensures r.Ok? ==> r.value == AdminNotes(db, people, noteOf, groupId)
    ensures r.Err? ==> r.failure == Crash
  {
    Answer(EntriesNotes(db, people, noteOf, GroupEntries(db.journals, groupId)))
  }

  /** The admin's view fails exactly when it has remarks and the group's
      name is an inherited one. */
  lemma AdminNotesCrash(db: Db, people: People, noteOf: NoteSource, groupId: Id)
    ensures AdminNotesAnswer(db, people, noteOf, groupId).Err?
        <==> ObjectKeys.Inherited(GroupLabel(db.groups, groupId)) && AdminNotes(db, people, noteOf, groupId) != map[]
  {
    var m := AdminNotes(db, people, noteOf, groupId);
    var name := GroupLabel(db.groups, groupId);
    assert AdminNotesAnswer(db, people, noteOf, groupId).Err? <==> exists key :: key in m && ObjectKeys.Inherited(key);
    if m != map[] {
      var key :| key in m;
      AdminKeyIsLabel(db, people, noteOf, groupId, key);
      assert forall key' :: key' in m ==> key' == name by {
        forall key' | key' in m ensures key' == name {
          AdminKeyIsLabel(db, people, noteOf, groupId, key');
        }
      }
    }
  }

  /** The admin's remarks are all filed under the group's name. */
  lemma AdminKeyIsLabel(db: Db, people: People, noteOf: NoteSource, groupId: Id, key: string)
    requires key in AdminNotes(db, people, noteOf, groupId)
    ensures key == GroupLabel(db.groups, groupId)
  {
    var j, k := AdminNoteSound(db, people, noteOf, groupId, key, 0);
  }

  /** Every remark the admin sees is a non-blank remark on a mark of one of
      the group's entries, filed under the group's name. */
  lemma AdminNoteSound(db: Db, people: People, noteOf: NoteSource, groupId: Id, key: string, i: nat)
      returns (j: nat, k: nat)
    requires key in AdminNotes(db, people, noteOf, groupId)
    requires i < |AdminNotes(db, people, noteOf, groupId)[key]|
    ensures key == GroupLabel(db.groups, groupId)
    ensures j < |db.journals| && db.journals[j].groupId == groupId
    ensures k < |db.journals[j].students| && HasNote(noteOf, db.journals[j], db.journals[j].students[k])
    ensures AdminNotes(db, people, noteOf, groupId)[key][i]
      == MakeNote(db, people, db.journals[j], db.journals[j].students[k],
                  noteOf(db.journals[j], db.journals[j].students[k]).value, true)
  {
    var es := GroupEntries(db.journals, groupId);
    var notes := EntriesNotes(db, people, noteOf, es);
    FiledNoteBelongs(notes, key, i);
    var n := AdminNotes(db, people, noteOf, groupId)[key][i];
    var p := IndexOf(notes, n).value;
    var q, m := EntriesNoteSource(db, people, noteOf, es, p);
    j := SelectedEntry(db.journals, InGroup(groupId), es[q]);
    k := m;
  }

  /** Every non-blank remark on a mark of one of the group's entries is
      shown to the admin, under the group's name. */
  lemma AdminNoteComplete(db: Db, people: People, noteOf: NoteSource, groupId: Id, j: nat, k: nat)
    requires j < |db.journals| && db.journals[j].groupId == groupId
    requires k < |db.journals[j].students| && HasNote(noteOf, db.journals[j], db.journals[j].students[k])
    ensures var e := db.journals[j];
      && GroupLabel(db.groups, groupId) in AdminNotes(db, people, noteOf, groupId)
      && MakeNote(db, people, e, e.students[k], noteOf(e, e.students[k]).value, true)
         in AdminNotes(db, people, noteOf, groupId)[GroupLabel(db.groups, groupId)]
  {
    var e := db.journals[j];
    var es := GroupEntries(db.journals, groupId);
    var notes := EntriesNotes(db, people, noteOf, es);
    FilterMembership(db.journals, InGroup(groupId), e);
    SortDescMembership(Filter(db.journals, InGroup(groupId)), DateKey, e);
    var q := IndexOf(es, e).value;
    var p := EntriesNoteTarget(db, people, noteOf, es, q, k);
    NoteFiled(notes, p);
  }

  // ---------------------------------------------------------------------
  // getMyNotes

  function Lists(student: Id): JournalEntry -> bool {
    (e: JournalEntry) => FirstMarkAt(e.students, student).Some?
  }

  /** The entries listing the student, newest first:
      `find({ "students.studentId": id })`, `sort({ date: -1 })`. */
  function StudentEntries(journals: seq<JournalEntry>, student: Id): (r: seq<JournalEntry>)
    ensures SortedDesc(r, DateKey)
  {
    SortDesc(Filter(journals, Lists(student)), DateKey)
  }

  /** The remark on the student's first mark of an entry, if any. */
  function MyNoteFor(db: Db, people: People, noteOf: NoteSource, student: Id, e: JournalEntry): Option<Note> {
    match FirstMarkAt(e.students, student)
    case None => None
    case Some(k) => NoteFor(db, people, noteOf, e, e.students[k], false)
  }

  function MyNoteList(db: Db, people: People, noteOf: NoteSource, student: Id, es: seq<JournalEntry>): seq<Note> {
    Somes(seq(|es|, j requires 0 <= j < |es| => MyNoteFor(db, people, noteOf, student, es[j])))
  }

  /** getMyNotes: the student's remarks by group name, newest first. */
  function MyNotes(db: Db, people: People, noteOf: NoteSource, student: Id): (r: map<string, seq<Note>>)
    ensures forall k :: k in r ==> r[k] != [] && SortedDesc(r[k], NoteDay)
  {
    GroupNotes(MyNoteList(db, people, noteOf, student, StudentEntries(db.journals, student)))
  }

  /** getMyNotes as answered: the student's remarks by group name, or a 500
      when one of those names is inherited. */
  function MyNotesAnswer(db: Db, people: People, noteOf: NoteSource, student: Id)
    : (r: Result<map<string, seq<Note>>>)
    ensures r.Err? <==> exists k :: k in MyNotes(db, people, noteOf, student) && ObjectKeys.Inherited(k)
    ensures r.Err? ==> r.failure == Crash
    ensures r.Ok? ==> r.value == MyNotes(db, people, noteOf, student)
  {
    Answer(MyNoteList(db, people, noteOf, student, StudentEntries(db.journals, student)))
  }

  /** Each remark of the student's list is that on their first mark of
      one of the entries. */
  lemma MyNoteListSource(db: Db, people: People, noteOf: NoteSource, student: Id, es: seq<JournalEntry>, p: nat)
      returns (q: nat, k: nat)
    requires p < |MyNoteList(db, people, noteOf, student, es)|
    ensures q < |es| && FirstMarkAt(es[q].students, student) == Some(k)
    ensures k < |es[q].students| && HasNote(noteOf, es[q], es[q].students[k])
    ensures MyNoteList(db, people, noteOf, student, es)[p]
      == MakeNote(db, people, es[q], es[q].students[k], noteOf(es[q], es[q].students[k]).value, false)
  {
    var xs := seq(|es|, j requires 0 <= j < |es| => MyNoteFor(db, people, noteOf, student, es[j]));
    q := SomeSource(xs, p);
    k := FirstMarkAt(es[q].students, student).value;
  }

  /** Where an entry of a sorted selection sits in the store. */
  lemma SelectedEntry(journals: seq<JournalEntry>, p: JournalEntry -> bool, e: JournalEntry) returns (j: nat)
    requires e in SortDesc(Filter(journals, p), DateKey)
    ensures j < |journals| && journals[j] == e && p(e)
  {
    SortDescMembership(Filter(journals, p), DateKey, e);
    FilterMembership(journals, p, e);
    j := IndexOf(journals, e).value;
  }

  /** Every remark a student sees is the non-blank remark on their first
      mark of an entry listing them, filed under that entry's group name,
      and carries no student name. */
  lemma MyNoteSound(db: Db, people: People, noteOf: NoteSource, student: Id, key: string, i: nat)
      returns (j: nat, k: nat)
    requires key in MyNotes(db, people, noteOf, student)
    requires i < |MyNotes(db, people, noteOf, student)[key]|
    ensures j < |db.journals| && FirstMarkAt(db.journals[j].students, student) == Some(k)
    ensures k < |db.journals[j].students| && HasNote(noteOf, db.journals[j], db.journals[j].students[k])
    ensures key == GroupLabel(db.groups, db.journals[j].groupId)
    ensures MyNotes(db, people, noteOf, student)[key][i]
      == MakeNote(db, people, db.journals[j], db.journals[j].students[k],
                  noteOf(db.journals[j], db.journals[j].students[k]).value, false)
  {
    var es := StudentEntries(db.journals, student);
    var notes := MyNoteList(db, people, noteOf, student, es);
    FiledNoteBelongs(notes, key, i);
    var p := IndexOf(notes, MyNotes(db, people, noteOf, student)[key][i]).value;
    var q;
    q, k := MyNoteListSource(db, people, noteOf, student, es, p);
    j := SelectedEntry(db.journals, Lists(student), es[q]);
  }

  /** A non-blank remark on the student's first mark of any entry is shown
      to them, under that entry's group name. */
  lemma MyNoteComplete(db: Db, people: People, noteOf: NoteSource, student: Id, j: nat)
    requires j < |db.journals|
    requires FirstMarkAt(db.journals[j].students, student).Some?
    requires HasNote(noteOf, db.journals[j], db.journals[j].students[FirstMarkAt(db.journals[j].students, student).value])
    ensures var e := db.journals[j];
      var m := e.students[FirstMarkAt(e.students, student).value];
      && GroupLabel(db.groups, e.groupId) in MyNotes(db, people, noteOf, student)
      && MakeNote(db, people, e, m, noteOf(e, m).value, false)
         in MyNotes(db, people, noteOf, student)[GroupLabel(db.groups, e.groupId)]
  {
    var e := db.journals[j];
    var es := StudentEntries(db.journals, student);
    var xs := seq(|es|, q requires 0 <= q < |es| => MyNoteFor(db, people, noteOf, student, es[q]));
    var notes := MyNoteList(db, people, noteOf, student, es);
    FilterMembership(db.journals, Lists(student), e);
    SortDescMembership(Filter(db.journals, Lists(student)), DateKey, e);
    var q := IndexOf(es, e).value;
    var p := SomeTarget(xs, q);
    NoteFiled(notes, p);
  }

  // ---------------------------------------------------------------------
  // What the store gives back

  /** With the marks as stored, which carry no remark, both views are
      empty. */
  lemma StoredNotesEmpty(db: Db, people: People, groupId: Id, student: Id)
    ensures AdminNotes(db, people, StoredNote, groupId) == map[]
    ensures MyNotes(db, people, StoredNote, student) == map[]
  {
    StoredAdminListEmpty(db, people, GroupEntries(db.journals, groupId));
    StoredMyListEmpty(db, people, student, StudentEntries(db.journals, student));
    GroupNotesEmpty();
  }

  /** No stored mark gives the admin a remark. */
  lemma StoredAdminListEmpty(db: Db, people: People, es: seq<JournalEntry>)
    ensures EntriesNotes(db, people, StoredNote, es) == []
  {
    if |EntriesNotes(db, people, StoredNote, es)| > 0 {
      var j, k := EntriesNoteSource(db, people, StoredNote, es, 0);
      assert false;
    }
  }

  /** No stored mark gives the student a remark. */
  lemma StoredMyListEmpty(db: Db, people: People, student: Id, es: seq<JournalEntry>)
    ensures MyNoteList(db, people, StoredNote, student, es) == []
  {
    if |MyNoteList(db, people, StoredNote, student, es)| > 0 {
      var q, k := MyNoteListSource(db, people, StoredNote, student, es, 0);
      assert false;
    }
  }

  /** Grouping no remarks gives the empty object. */
  lemma GroupNotesEmpty()
    ensures GroupNotes([]) == map[]
  {
    assert Grouped([]) == map[];
  }
}
