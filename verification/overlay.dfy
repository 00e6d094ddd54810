/** How the grids fill a cell: they walk a list of journal entries in order
    and every entry that concerns the cell overwrites it, so the last such
    entry decides. Also the two ways a grid picks a student's mark out of an
    entry: `students.find` takes the first, a `forEach` over all marks ends
    with the last. */
module Overlay {
  import opened Results
  import opened Records
  import opened Sorting

  /** `xs.forEach(x => { if (hit(x)) cell = val(x); })` starting from `acc`. */
  function LastWins<T, C>(acc: C, xs: seq<T>, hit: T -> bool, val: T -> C): (r: C)
    decreases |xs|
  {
    if |xs| == 0 then acc
    else LastWins(if hit(xs[0]) then val(xs[0]) else acc, xs[1..], hit, val)
  }

  /** When no element hits, the cell keeps its starting value. */
  lemma {:induction false} LastWinsMiss<T, C>(acc: C, xs: seq<T>, hit: T -> bool, val: T -> C)
    requires forall j :: 0 <= j < |xs| ==> !hit(xs[j])
    ensures LastWins(acc, xs, hit, val) == acc
    decreases |xs|
  {
    if |xs| > 0 {
      assert !hit(xs[0]);
      assert forall j :: 0 <= j < |xs[1..]| ==> xs[1..][j] == xs[j + 1];
      LastWinsMiss(acc, xs[1..], hit, val);
    }
  }

  /** Otherwise the cell holds the value of the last element that hits,
      whatever it started from. */
  lemma {:induction false} LastWinsHit<T, C>(acc: C, xs: seq<T>, hit: T -> bool, val: T -> C, i: nat)
    requires i < |xs| && hit(xs[i])
    requires forall j :: i < j < |xs| ==> !hit(xs[j])
    ensures LastWins(acc, xs, hit, val) == val(xs[i])
    decreases |xs|
  {
    var next := if hit(xs[0]) then val(xs[0]) else acc;
    assert forall j :: 0 <= j < |xs[1..]| ==> xs[1..][j] == xs[j + 1];
    if i == 0 {
      LastWinsMiss(next, xs[1..], hit, val);
    } else {
      LastWinsHit(next, xs[1..], hit, val, i - 1);
    }
  }

  /** The two lemmas together: the cell is the value of the last hitting
      element, or the starting value when there is none. */
  lemma LastWinsIsLast<T, C>(acc: C, xs: seq<T>, hit: T -> bool, val: T -> C)
    ensures LastWins(acc, xs, hit, val) ==
      match LastWhere(xs, hit)
      case Some(i) => val(xs[i])
      case None => acc
  {
    match LastWhere(xs, hit)
    case Some(i) => LastWinsHit(acc, xs, hit, val, i);
    case None => LastWinsMiss(acc, xs, hit, val);
  }

  /** In a list sorted by an ascending key, the last hitting element is
      one that no other hitting element outranks. */
  lemma SortedLastHit<T, C>(acc: C, s: seq<T>, key: T -> int, hit: T -> bool, val: T -> C, y: T)
      returns (x: T)
    requires y in s && hit(y)
    requires forall i, j :: 0 <= i < j < |s| ==> key(s[i]) <= key(s[j])
    ensures x in s && hit(x)
    ensures forall z :: z in s && hit(z) ==> key(z) <= key(x)
    ensures LastWins(acc, s, hit, val) == val(x)
  {
    var q := IndexOf(s, y).value;
    assert hit(s[q]);
    var p := LastWhere(s, hit).value;
    x := s[p];
    forall z | z in s && hit(z)
      ensures key(z) <= key(x)
    {
      var i := IndexOf(s, z).value;
      assert hit(s[i]);
      assert i <= p;
    }
    LastWinsHit(acc, s, hit, val, p);
  }

  /** Walking a list sorted by an ascending key, the cell ends with the
      value of a hitting element that no other hitting element outranks.
      Which of several hitting elements of the greatest key that is, the
      sort does not say. */
  lemma LatestDecides<T, C>(acc: C, xs: seq<T>, key: T -> int, hit: T -> bool, val: T -> C, y: T)
      returns (x: T)
    requires y in xs && hit(y)
    ensures x in xs && hit(x)
    ensures forall z :: z in xs && hit(z) ==> key(z) <= key(x)
    ensures LastWins(acc, SortAsc(xs, key), hit, val) == val(x)
  {
    var s := SortAsc(xs, key);
    assert y in multiset(s);
    x := SortedLastHit(acc, s, key, hit, val, y);
    assert x in multiset(xs);
    forall z | z in xs && hit(z)
      ensures key(z) <= key(x)
    {
      assert z in multiset(s);
    }
  }

  /** So an element that hits and is outranked by every other hitting
      element decides the cell. */
  lemma LatestWins<T, C>(acc: C, xs: seq<T>, key: T -> int, hit: T -> bool, val: T -> C, y: T)
    requires y in xs && hit(y)
    requires forall z :: z in xs && hit(z) && z != y ==> key(z) < key(y)
    ensures LastWins(acc, SortAsc(xs, key), hit, val) == val(y)
  {
    var x := LatestDecides(acc, xs, key, hit, val, y);
  }

  /** And when nothing hits, sorting changes nothing: the cell keeps its
      starting value. */
  lemma SortedMiss<T, C>(acc: C, xs: seq<T>, key: T -> int, hit: T -> bool, val: T -> C)
    requires forall z :: z in xs ==> !hit(z)
    ensures LastWins(acc, SortAsc(xs, key), hit, val) == acc
  {
    var s := SortAsc(xs, key);
    forall j | 0 <= j < |s|
      ensures !hit(s[j])
    {
      assert s[j] in multiset(xs);
    }
    LastWinsMiss(acc, s, hit, val);
  }

  function EntryDate(e: JournalEntry): int {
    e.date
  }

  /** The grids' queries `sort({ date: 1, lessonSlot: 1 })`: entries by
      instant, earliest first. The slot, the second key, never matters to a
      cell, since the entries that write one cell share their slot; the
      order of entries of one instant is left unspecified. */
  function ByDate(journals: seq<JournalEntry>): (r: seq<JournalEntry>)
    ensures multiset(r) == multiset(journals)
    ensures forall i, j :: 0 <= i < j < |r| ==> r[i].date <= r[j].date
  {
    var r := SortAsc(journals, EntryDate);
    assert forall i, j :: 0 <= i < j < |r| ==> EntryDate(r[i]) <= EntryDate(r[j]);
    r
  }

  /** `students.find(s => s.studentId == student)`. */
  function FirstMarkAt(marks: seq<Mark>, student: Id): (r: Option<nat>)
    ensures r.Some? ==> r.value < |marks| && marks[r.value].studentId == student
    ensures r.Some? ==> forall j :: 0 <= j < r.value ==> marks[j].studentId != student
    ensures r.None? <==> forall j :: 0 <= j < |marks| ==> marks[j].studentId != student
  {
    FirstWhere(marks, (m: Mark) => m.studentId == student)
  }

  /** The student's mark a `forEach` over all marks leaves in place. */
  function LastMarkAt(marks: seq<Mark>, student: Id): (r: Option<nat>)
    ensures r.Some? ==> r.value < |marks| && marks[r.value].studentId == student
    ensures r.Some? ==> forall j :: r.value < j < |marks| ==> marks[j].studentId != student
    ensures r.None? <==> forall j :: 0 <= j < |marks| ==> marks[j].studentId != student
  {
    LastWhere(marks, (m: Mark) => m.studentId == student)
  }
}
