/** The teaching weeks the grade and attendance grids walk through: from a
    semester's first day, one week every seven days while the week has begun,
    each listing its first six days up to today. No weekday is skipped: the
    seventh day of every week is left out, whatever weekday it is. */
module Weeks {
  import opened Results

  // The loops compare midnights with the present instant; by
  // Calendar.AfterNow and Calendar.BegunBy that is comparing day numbers
  // with today's, so the walk is stated over `today`.

  datatype Week = Week(number: nat, days: seq<int>)

  /** The inner loop: days `start + i`, `start + i + 1`, … up to the sixth
      day of the week, stopping at the first day whose midnight lies after
      the present instant. */
  function WeekDays(start: int, i: nat, today: int): (r: seq<int>)
    requires i <= 6
    ensures |r| == if start + i > today then 0 else Min(6 - i, today - (start + i) + 1)
    ensures forall k :: 0 <= k < |r| ==> r[k] == start + i + k
    decreases 6 - i
  {
    if i == 6 || start + i > today then []
    else [start + i] + WeekDays(start, i + 1, today)
  }

  function Min(a: int, b: int): int {
    if a <= b then a else b
  }

  /** The outer loop from the week starting on day `weekStart`, numbered
      `number`: it runs while the week's first midnight is not after the
      present instant and, when there is a cap, while the number is within
      it. A week whose day list came out empty would be dropped. */
  function WeeksFrom(weekStart: int, number: nat, today: int, cap: Option<nat>): (r: seq<Week>)
    decreases if weekStart <= today then today - weekStart + 1 else 0
  {
    if weekStart > today || (cap.Some? && number > cap.value) then []
    else
      var days := WeekDays(weekStart, 0, today);
      (if |days| > 0 then [Week(number, days)] else []) + WeeksFrom(weekStart + 7, number + 1, today, cap)
  }

  /** The weeks from the semester's first day `start`, numbered from 1. */
  function SemesterWeeks(start: int, today: int, cap: Option<nat>): seq<Week>
  {
    WeeksFrom(start, 1, today, cap)
  }

  /** How many weeks the outer loop produces from week `number` on. */
  function WeekCount(weekStart: int, number: nat, today: int, cap: Option<nat>): (n: nat)
  {
    if weekStart > today then 0
    else match cap
      case None => (today - weekStart) / 7 + 1
      case Some(c) => if number > c then 0 else Min((today - weekStart) / 7 + 1, c - number + 1)
  }

  /** One more begun week within the cap adds one to the count. */
  lemma WeekCountStep(weekStart: int, number: nat, today: int, cap: Option<nat>)
    requires weekStart <= today && (cap.None? || number <= cap.value)
    ensures WeekCount(weekStart, number, today, cap) == 1 + WeekCount(weekStart + 7, number + 1, today, cap)
  {
  }

  /** The loop runs once per begun week within the cap. */
  lemma {:induction false} WeeksFromLength(weekStart: int, number: nat, today: int, cap: Option<nat>)
    ensures |WeeksFrom(weekStart, number, today, cap)| == WeekCount(weekStart, number, today, cap)
    decreases if weekStart <= today then today - weekStart + 1 else 0
  {
    if weekStart > today || (cap.Some? && number > cap.value) {
    } else {
      assert |WeekDays(weekStart, 0, today)| >= 1;
      WeeksFromLength(weekStart + 7, number + 1, today, cap);
      WeekCountStep(weekStart, number, today, cap);
    }
  }

  /** Week `w` of the loop starts `7 * w` days after the first, carries the
      number `number + w` and lists at least one day: the first day of a
      begun week has always begun, so no week is ever dropped. */
  lemma {:induction false} WeeksFromElements(weekStart: int, number: nat, today: int, cap: Option<nat>, w: nat)
    requires w < |WeeksFrom(weekStart, number, today, cap)|
    ensures var week := WeeksFrom(weekStart, number, today, cap)[w];
      && week.number == number + w
      && week.days == WeekDays(weekStart + 7 * w, 0, today)
      && 1 <= |week.days|
    decreases w
  {
    var r := WeeksFrom(weekStart, number, today, cap);
    var days := WeekDays(weekStart, 0, today);
    assert |days| >= 1;
    var rest := WeeksFrom(weekStart + 7, number + 1, today, cap);
    assert r == [Week(number, days)] + rest;
    if w > 0 {
      WeeksFromElements(weekStart + 7, number + 1, today, cap, w - 1);
      assert r[w] == rest[w - 1];
      var here, there := weekStart + 7 * w, weekStart + 7 + 7 * (w - 1);
      assert here == there;
    }
  }

  /** The semester walk: week `w` (0-based) is numbered `w + 1` and lists the
      days `start + 7w`, `start + 7w + 1`, … — six of them, or fewer in the
      current week, where the list ends today. There are as many weeks as
      have begun since `start`, up to the cap. */
  lemma WeeksShape(start: int, today: int, cap: Option<nat>)
    ensures var r := SemesterWeeks(start, today, cap);
      && |r| == WeekCount(start, 1, today, cap)
      && forall w :: 0 <= w < |r| ==>
           && r[w].number == w + 1
           && 1 <= |r[w].days| <= 6
           && (forall i :: 0 <= i < |r[w].days| ==> r[w].days[i] == start + 7 * w + i)
           && (forall i :: 0 <= i < |r[w].days| ==> r[w].days[i] <= today)
           && (|r[w].days| < 6 ==> r[w].days[|r[w].days| - 1] == today)
  {
    WeeksFromLength(start, 1, today, cap);
    var r := SemesterWeeks(start, today, cap);
    forall w | 0 <= w < |r|
      ensures r[w].number == w + 1 && 1 <= |r[w].days| <= 6
      ensures forall i :: 0 <= i < |r[w].days| ==> r[w].days[i] == start + 7 * w + i
      ensures forall i :: 0 <= i < |r[w].days| ==> r[w].days[i] <= today
      ensures |r[w].days| < 6 ==> r[w].days[|r[w].days| - 1] == today
    {
      WeeksFromElements(start, 1, today, cap, w);
    }
  }

  /** Every Monday-to-Saturday position of a begun week within the cap is
      listed: day `d` appears, at position `(d - start) % 7` of week
      `(d - start) / 7`, exactly when it has begun, lies on or after `start`,
      is not the seventh day of its week, and its week is within the cap. */
  lemma WeeksComplete(start: int, today: int, cap: Option<nat>, d: int)
    ensures var r := SemesterWeeks(start, today, cap);
      var w, i := (d - start) / 7, (d - start) % 7;
      (start <= d <= today && i < 6 && (cap.None? || w < cap.value)) <==>
        (0 <= w < |r| && i < |r[w].days| && r[w].days[i] == d)
  {
    WeeksShape(start, today, cap);
    var r := SemesterWeeks(start, today, cap);
    var w, i := (d - start) / 7, (d - start) % 7;
    if start <= d <= today && i < 6 && (cap.None? || w < cap.value) {
      assert start + 7 * w <= today;
      WeeksFromElements(start, 1, today, cap, w);
    }
  }
}
