/** Creating groups and filling their rosters (controllers/groupController.js).
    The group store is a sequence whose positions are the groups' document
    ids; `code` is the group's own `id` field ("CS-301"). */
module Groups {
  import opened Results
  import opened Records

  // ---------------------------------------------------------------------
  // addGroup

  /** The body of an add-group request; an absent field is `None`. */
  datatype GroupRequest = GroupRequest(
    code: Option<string>,
    name: Option<string>,
    course: Option<int>,
    faculty: Option<string>,
    subjectCount: Option<int>,
    shift: Option<int>)

  /** JavaScript's falsiness for the fields the handler tests: an absent
      value, the empty string, the number 0. */
  predicate BlankText(x: Option<string>) {
    x.None? || x.value == ""
  }

  predicate BlankNumber(x: Option<int>) {
    x.None? || x.value == 0
  }

  /** One of id, name, course and faculty is missing. */
  predicate LacksRequired(req: GroupRequest) {
    BlankText(req.code) || BlankText(req.name) || BlankNumber(req.course) || BlankText(req.faculty)
  }

  /** Whether some stored group already has this code. */
  predicate CodeTaken(groups: seq<Group>, code: string) {
    exists i :: 0 <= i < |groups| && groups[i].code == code
  }

  /** No two stored groups share a code. */
  predicate UniqueCodes(groups: seq<Group>) {
    forall i, j :: 0 <= i < j < |groups| ==> groups[i].code != groups[j].code
  }

  /** The first group with a given code: `Group.findOne({ id })`. */
  function FindByCode(groups: seq<Group>, code: string): (r: Option<nat>)
    ensures r.Some? ==> r.value < |groups| && groups[r.value].code == code
    ensures r.None? <==> !CodeTaken(groups, code)
  {
    FirstWhere(groups, (g: Group) => g.code == code)
  }

  /** The document `Group.create` is given: an empty roster, no students
      counted, and `subjectCount || 0`. An absent shift is kept as 0, which
      the schema's required validator then refuses. */
  function NewGroup(req: GroupRequest): Group
    requires !LacksRequired(req)
  {
    Group(req.code.value, req.name.value, req.course.value, req.faculty.value,
          req.shift.GetOr(0), 0, req.subjectCount.GetOr(0), [])
  }

  /** addGroup: the result and the new store. The new group's document id
      is the position it is stored at. */
  function AddGroup(groups: seq<Group>, req: GroupRequest): (r: (Result<Id>, seq<Group>))
    ensures r.0 == Err(MissingFields) <==> LacksRequired(req)
    ensures r.0 == Err(DuplicateGroupId) <==> !LacksRequired(req) && CodeTaken(groups, req.code.value)
    ensures r.0 == Err(ValidationFailed) <==>
      !LacksRequired(req) && !CodeTaken(groups, req.code.value) && !ValidGroup(NewGroup(req))
    ensures r.0.Err? ==> r.0.failure in {MissingFields, DuplicateGroupId, ValidationFailed} && r.1 == groups
    ensures r.0.Ok? ==>
      && r.0.value == |groups| && |r.1| == |groups| + 1 && r.1[..|groups|] == groups
      && var g := r.1[|groups|];
      && g.code == req.code.value && g.name == req.name.value && g.course == req.course.value
      && g.faculty == req.faculty.value && g.shift == req.shift.value
      && g.students == [] && g.studentCount == 0
      && g.subjectCount == (if BlankNumber(req.subjectCount) then 0 else req.subjectCount.value)
      && ValidGroup(g)
  {
    if LacksRequired(req) then (Err(MissingFields), groups)
    else if FindByCode(groups, req.code.value).Some? then (Err(DuplicateGroupId), groups)
    else
      var g := NewGroup(req);
      if !ValidGroup(g) then (Err(ValidationFailed), groups)
      else
        assert (groups + [g])[..|groups|] == groups;
        (Ok(|groups|), groups + [g])
  }

  /** Adding a group keeps the codes unique. */
  lemma AddGroupKeepsCodesUnique(groups: seq<Group>, req: GroupRequest)
    requires UniqueCodes(groups)
    ensures UniqueCodes(AddGroup(groups, req).1)
  {
    var r := AddGroup(groups, req);
    if r.0.Ok? {
      forall i, j | 0 <= i < j < |r.1|
        ensures r.1[i].code != r.1[j].code
      {
        assert r.1[i] == groups[i];
        if j < |groups| {
          assert r.1[j] == groups[j];
        } else {
          assert !CodeTaken(groups, req.code.value);
        }
      }
    }
  }

  /** An added group is what a lookup of its code finds, and a second
      request for the same code is refused as a duplicate. */
  lemma AddedGroupFound(groups: seq<Group>, req: GroupRequest)
    requires UniqueCodes(groups)
    requires AddGroup(groups, req).0.Ok?
    ensures var r := AddGroup(groups, req);
      FindByCode(r.1, req.code.value) == Some(r.0.value)
    ensures AddGroup(AddGroup(groups, req).1, req).0 == Err(DuplicateGroupId)
  {
    var r := AddGroup(groups, req);
    var found := FindByCode(r.1, req.code.value);
    assert r.1[|groups|].code == req.code.value;
    assert CodeTaken(r.1, req.code.value);
  }

  // ---------------------------------------------------------------------
  // addStudentToGroup

  /** The group after the roster insert: a student already on the roster
      changes nothing; otherwise the id is appended and the count is set to
      the roster's new length. */
  function Enrol(g: Group, student: Id): Group {
    if student in g.students then g
    else g.(students := g.students + [student], studentCount := |g.students| + 1)
  }

  /** addStudentToGroup: the group as answered and the new store. `students`
      holds the ids of the existing students. */
  function AddStudentToGroup(groups: seq<Group>, students: set<Id>, groupId: Id, student: Id)
    : (r: (Result<Group>, seq<Group>))
    ensures r.0 == Err(GroupOrStudentNotFound) <==> groupId >= |groups| || student !in students
    ensures r.0.Err? ==> r.0.failure in {GroupOrStudentNotFound, ValidationFailed} && r.1 == groups
    ensures r.0.Ok? ==>
      && groupId < |groups| && |r.1| == |groups|
      && r.0.value == r.1[groupId]
      && student in r.1[groupId].students
      && (forall i :: 0 <= i < |groups| && i != groupId ==> r.1[i] == groups[i])
    ensures r.0.Ok? && student in groups[groupId].students ==> r.1 == groups
    ensures r.0.Ok? && student !in groups[groupId].students ==>
      && r.1[groupId].students == groups[groupId].students + [student]
      && r.1[groupId].studentCount == |r.1[groupId].students|
  {
    if groupId >= |groups| || student !in students then (Err(GroupOrStudentNotFound), groups)
    else
      var g := groups[groupId];
      if student in g.students then (Ok(g), groups)
      else
        var g' := Enrol(g, student);
        // `group.save()` validates the whole document again.
        if !ValidGroup(g') then (Err(ValidationFailed), groups)
        else (Ok(g'), groups[groupId := g'])
  }

  /** Adding the same student twice leaves the store as adding once. */
  lemma AddStudentIdempotent(groups: seq<Group>, students: set<Id>, groupId: Id, student: Id)
    ensures var once := AddStudentToGroup(groups, students, groupId, student);
      AddStudentToGroup(once.1, students, groupId, student).1 == once.1
  {
    var once := AddStudentToGroup(groups, students, groupId, student);
    if once.0.Ok? {
      assert student in once.1[groupId].students;
    }
  }

  /** A roster without repetitions stays without repetitions, and a count
      that matches its roster keeps matching it. */
  lemma AddStudentKeepsRoster(groups: seq<Group>, students: set<Id>, groupId: Id, student: Id)
    requires groupId < |groups|
    requires Distinct(groups[groupId].students)
    requires groups[groupId].studentCount == |groups[groupId].students|
    ensures var after := AddStudentToGroup(groups, students, groupId, student).1[groupId];
      Distinct(after.students) && after.studentCount == |after.students|
  {
    var roster := groups[groupId].students;
    var after := AddStudentToGroup(groups, students, groupId, student).1[groupId];
    if after.students != roster {
      assert after.students == roster + [student] && student !in roster;
      forall i, j | 0 <= i < j < |after.students|
        ensures after.students[i] != after.students[j]
      {
        if j == |roster| {
          assert after.students[i] == roster[i];
        } else {
          assert after.students[i] == roster[i] && after.students[j] == roster[j];
        }
      }
    }
  }

  /** A roster insert never changes a code, so codes stay unique. */
  lemma AddStudentKeepsCodesUnique(groups: seq<Group>, students: set<Id>, groupId: Id, student: Id)
    requires UniqueCodes(groups)
    ensures UniqueCodes(AddStudentToGroup(groups, students, groupId, student).1)
  {
    var r := AddStudentToGroup(groups, students, groupId, student);
    if r.0.Ok? && groupId < |groups| {
      assert forall i :: 0 <= i < |groups| ==> r.1[i].code == groups[i].code;
    }
  }
}
