/** Outcomes shared by every operation of the model: an optional value, the
    integer a JavaScript `parseInt`/`Number` call yields, and the error
    responses the controllers send instead of a result. */
module Results {

  datatype Option<+T> = None | Some(value: T) {
    function GetOr(default: T): T {
      match this
      case Some(v) => v
      case None => default
    }
  }

  /** The value of `parseInt(x)` or `Number(x)` on a request parameter:
      a number, or `NaN` (which is also what an absent parameter parses to). */
  datatype ParsedInt = Num(n: int) | NaN {
    /** JavaScript truthiness of the parsed value: `NaN` and `0` are falsy. */
    predicate Truthy() {
      Num? && n != 0
    }
  }

  /** Why a request was answered with an error instead of data. The HTTP
      status each one is sent with is given by `Status`. */
  datatype Failure =
    | InvalidShift            // 400: shift is neither first/1 nor second/2
    | ShiftMismatch           // 400: the lesson's start time puts it in the other shift
    | InvalidDate             // 400: the date parameter is not a date
    | MissingFields           // 400: a required body field is absent
    | DuplicateGroupId        // 400: a group with this id already exists
    | ScheduleNotFound        // 404
    | NoLessonsThatDay        // 404: the schedule has no entry for the weekday
    | SubjectNotInSlot        // 404: empty slot, or another subject in it
    | GroupNotFound           // 404
    | JournalNotFound         // 404
    | GroupOrStudentNotFound  // 404
    | Forbidden               // 403: neither the entry's teacher nor an admin
    | ValidationFailed        // 500: the store's schema refused the document
    | InvalidSchedule         // 400: the schedule schema refused the document
    | Crash                   // 500: the handler threw (a TypeError, a ReferenceError or a cast error)
    | NotSignedIn             // 401: the request carries no user id

  function Status(f: Failure): (code: int)
    ensures code in {400, 401, 403, 404, 500}
  {
    match f
    case InvalidShift | ShiftMismatch | InvalidDate | MissingFields | DuplicateGroupId | InvalidSchedule => 400
    case ScheduleNotFound | NoLessonsThatDay | SubjectNotInSlot | GroupNotFound
       | JournalNotFound | GroupOrStudentNotFound => 404
    case Forbidden => 403
    case NotSignedIn => 401
    case ValidationFailed | Crash => 500
  }

  datatype Result<+T> = Ok(value: T) | Err(failure: Failure)

  /** The positions of `xs` that hold a value, in increasing order. */
  function SomeIndices<T>(xs: seq<Option<T>>): (r: seq<nat>)
    ensures forall k :: 0 <= k < |r| ==> r[k] < |xs| && xs[r[k]].Some?
    ensures forall k, k' :: 0 <= k < k' < |r| ==> r[k] < r[k']
    ensures forall i :: 0 <= i < |xs| && xs[i].Some? ==> i in r
  {
    if |xs| == 0 then []
    else
      var init := xs[..|xs| - 1];
      var r := SomeIndices(init) + (if xs[|xs| - 1].Some? then [|xs| - 1] else []);
      assert forall i :: 0 <= i < |xs| - 1 ==> xs[i] == init[i];
      r
  }

  /** The values `xs` holds, in order: `map(...).filter(x => x !== null)`. */
  function Somes<T>(xs: seq<Option<T>>): (r: seq<T>)
    ensures |r| == |SomeIndices(xs)| <= |xs|
    ensures forall k :: 0 <= k < |r| ==> r[k] == xs[SomeIndices(xs)[k]].value
  {
    var idx := SomeIndices(xs);
    SomeIndicesBound(xs);
    seq(|idx|, k requires 0 <= k < |idx| => xs[idx[k]].value)
  }

  lemma {:induction false} SomeIndicesBound<T>(xs: seq<Option<T>>)
    ensures |SomeIndices(xs)| <= |xs|
  {
    if |xs| > 0 {
      SomeIndicesBound(xs[..|xs| - 1]);
    }
  }

  /** `Somes` keeps every value present. */
  lemma SomesKeeps<T>(xs: seq<Option<T>>, i: nat)
    requires i < |xs| && xs[i].Some?
    ensures xs[i].value in Somes(xs)
  {
    var k :| 0 <= k < |SomeIndices(xs)| && SomeIndices(xs)[k] == i;
    assert Somes(xs)[k] == xs[i].value;
  }

  /** Where a value of `Somes(xs)` sits in `xs`. */
  function SomeSource<T>(xs: seq<Option<T>>, k: nat): (i: nat)
    requires k < |Somes(xs)|
    ensures i < |xs| && xs[i] == Some(Somes(xs)[k])
  {
    SomeIndices(xs)[k]
  }

  /** Where a kept value came from. */
  lemma SomeOf<T>(xs: seq<Option<T>>, x: T) returns (i: nat)
    requires x in Somes(xs)
    ensures i < |xs| && xs[i] == Some(x)
  {
    var k :| 0 <= k < |Somes(xs)| && Somes(xs)[k] == x;
    i := SomeSource(xs, k);
  }

  /** Where a value present in `xs` lands in `Somes(xs)`. */
  lemma SomeTarget<T>(xs: seq<Option<T>>, i: nat) returns (k: nat)
    requires i < |xs| && xs[i].Some?
    ensures k < |Somes(xs)| && Somes(xs)[k] == xs[i].value
  {
    k :| 0 <= k < |SomeIndices(xs)| && SomeIndices(xs)[k] == i;
  }

  /** A single value is kept. */
  lemma SomesSingleton<T>(x: T)
    ensures Somes([Some(x)]) == [x]
  {
    var xs := [Some(x)];
    assert xs[..0] == [];
    assert SomeIndices(xs) == [0];
  }
}
