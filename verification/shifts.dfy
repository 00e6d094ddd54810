/** Shifts: the morning (1) and afternoon (2) halves of the teaching day.
    The backend classifies a lesson's time text in two different ways. */
module Shifts {
  import opened Results
  import opened Text

  /** The `shift` path parameter of the journal request. */
  function ParseShift(s: string): (r: Option<int>)
    ensures r == Some(1) <==> (s == "first" || s == "1")
    ensures r == Some(2) <==> (s == "second" || s == "2")
    ensures r.None? <==> s !in {"first", "1", "second", "2"}
  {
    if s == "first" || s == "1" then Some(1)
    else if s == "second" || s == "2" then Some(2)
    else None
  }

  /** The start of a lesson's time text such as "08:00 - 09:20". */
  function StartTime(time: string): string {
    BeforeFirst(time, " - ")
  }

  /** The journal's rule: shift 2 when the start time is "13:00" or later as
      a string. */
  function LessonShift(time: string): (s: int)
    ensures s == 1 || s == 2
  {
    if !LexLess(StartTime(time), "13:00") then 2 else 1
  }

  /** The lesson-list rule: shift 2 when the time text mentions "13:",
      "14:" or "15:" anywhere, the end time included. */
  function ListedShift(time: string): (s: int)
    ensures s == 1 || s == 2
  {
    if Contains(time, "13:") || Contains(time, "14:") || Contains(time, "15:") then 2 else 1
  }

  predicate IsDigit(c: char) {
    '0' <= c <= '9'
  }

  /** A zero-padded clock reading "HH:MM". */
  predicate IsClock(t: string) {
    |t| == 5 && IsDigit(t[0]) && IsDigit(t[1]) && t[2] == ':' && IsDigit(t[3]) && IsDigit(t[4])
  }

  function Hour(t: string): int
    requires IsClock(t)
  {
    10 * (t[0] as int - '0' as int) + (t[1] as int - '0' as int)
  }

  lemma LexLessStep(a: string, b: string)
    requires |a| > 0 && |b| > 0 && a[0] == b[0]
    ensures LexLess(a, b) == LexLess(a[1..], b[1..])
  {
  }

  /** On zero-padded clock readings the string comparison with "13:00" is
      the numeric comparison of hours. */
  lemma ClockComparison(t: string)
    requires IsClock(t)
    ensures !LexLess(t, "13:00") <==> Hour(t) >= 13
  {
    var b := "13:00";
    if t[0] == b[0] && t[1] == b[1] {
      LexLessStep(t, b);
      LexLessStep(t[1..], b[1..]);
      assert t[1..][1..] == t[2..] && b[1..][1..] == b[2..];
      LexLessStep(t[2..], b[2..]);
      assert t[2..][1..] == t[3..] && b[2..][1..] == "00";
      var m := t[3..];
      if m[0] == '0' {
        LexLessStep(m, "00");
        assert m[1..] == [t[4]];
      }
    } else if t[0] == b[0] {
      LexLessStep(t, b);
    }
  }

  /** For a time text "HH:MM - …", the journal's rule is "afternoon from
      13:00 on". */
  lemma LessonShiftOfClock(s: string)
    requires |s| >= 8 && IsClock(s[..5]) && s[5..8] == " - "
    ensures LessonShift(s) == (if Hour(s[..5]) >= 13 then 2 else 1)
  {
    var i := FirstOccurrence(s, " - ", 0);
    assert OccursAt(s, " - ", 5);
    assert i == 5;
    assert StartTime(s) == s[..5];
    ClockComparison(s[..5]);
  }

  /** The two rules disagree in both directions: a lesson from 12:20 to
      13:40 is listed in shift 2 but the journal puts it in shift 1, and a
      lesson from 16:00 is listed in shift 1 but belongs to shift 2. */
  lemma ShiftRulesDisagree()
    ensures LessonShift("12:20 - 13:40") == 1 && ListedShift("12:20 - 13:40") == 2
    ensures LessonShift("16:00 - 17:20") == 2 && ListedShift("16:00 - 17:20") == 1
  {
    EarlyAfternoonShifts();
    LateAfternoonShifts();
  }

  /** The lesson from 12:20 to 13:40: shift 1 by its start, shift 2 by its
      "13:". */
  lemma EarlyAfternoonShifts()
    ensures LessonShift("12:20 - 13:40") == 1 && ListedShift("12:20 - 13:40") == 2
  {
    var early := "12:20 - 13:40";
    assert early[..5] == "12:20" && early[5..8] == " - ";
    LessonShiftOfClock(early);
    assert OccursAt(early, "13:", 8);
  }

  /** The lesson from 16:00: shift 2 by its start, shift 1 for want of an
      afternoon hour mark. */
  lemma LateAfternoonShifts()
    ensures LessonShift("16:00 - 17:20") == 2 && ListedShift("16:00 - 17:20") == 1
  {
    var late := "16:00 - 17:20";
    assert late[..5] == "16:00" && late[5..8] == " - ";
    LessonShiftOfClock(late);
    NoHourMarks(late);
  }

  lemma NoHourMarks(s: string)
    requires s == "16:00 - 17:20"
    ensures !Contains(s, "13:") && !Contains(s, "14:") && !Contains(s, "15:")
  {
    forall j | 0 <= j && j + 3 <= |s|
      ensures !OccursAt(s, "13:", j) && !OccursAt(s, "14:", j) && !OccursAt(s, "15:", j)
    {
      assert s[j..j + 3][0] == s[j] && s[j..j + 3][1] == s[j + 1] && s[j..j + 3][2] == s[j + 2];
    }
  }
}
