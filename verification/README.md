# Attendance and grade-book backend: a Dafny model of its core

The system is the backend of a university attendance register. Teachers open
a journal entry for each lesson of a group's weekly schedule. The entry is
created on first access, with one mark per student of the group. They then
record attendance (present, absent, late) and two grades (preparation and
task, 0 to 5) per student. Around that sit:

- grids built from the entries: one week of a group's attendance, the
  semester's grades of a group, and a student's own attendance and grade book;
- the admin dashboard and the student dashboard figures;
- the weekly schedule store and the teacher's teaching tally;
- group creation and roster edits;
- the listing of remarks on students.

The model covers these operations as pure Dafny functions over immutable
stores. The stores are sequences of documents, and journal entries and groups
are addressed by their position. A request handler becomes a function from
its parameters and the stores to a `Result` (the response, or the error it
answers with) and, when it writes, the stores afterwards. The present instant
is a parameter (`Now`: a civil date and milliseconds into it), and every
date is handled in the fixed zone UTC+5 (Asia/Dushanbe). Rounding of
rates and means is exact integer round-half-up arithmetic (`Rounding`).

Modules, following the source's structure:

- `Results`: `Option`, `Result` and the failure kinds.
- `Records`: the stored documents and their schema rules (`models/`).
- `Text`: string helpers.
- `Calendar`: civil dates, day numbers, weekdays and instants.
- `Rounding`: `Math.round` and `Math.ceil` of quotients, and means in tenths.
- `Sorting`: a stable descending sort, and the ascending sort built from it.
- `Overlay`: "the last matching entry wins" walks, over store order or over entries sorted by date.
- `ObjectKeys`: the key order of `Object.keys`.
- `Semester`: the four semester rules of `config/semesterSettings.js` and the controllers.
- `Shifts`: the two ways a lesson time is put in shift 1 or 2.
- `Weeks`: the week-by-week walk of the grids.
- `Journal`: getJournalEntry, updateJournalEntry and getLessonsByGroupAndDate.
- `GroupAttendance`, `GroupGrades`, `MyAttendance`, `MyGrades`: the four grid builders.
- `Analytics`: getDashboardStats.
- `StudentStats`: getMyDashboardStats, getMyGradesOverview and the paging of getStudents.
- `Schedules`: saveWeeklySchedule, deleteWeeklySchedule and getMyTeachingSchedule.
- `Groups`: addGroup and addStudentToGroup.
- `Notes`: getAdminNotes and getMyNotes.

Where the system's design description and the code differ, the model
follows the code:

- A missing slot and a slot holding another subject are one not-found answer
  (`SubjectNotInSlot`), not two errors.
- No store index makes journal keys unique. Uniqueness holds only under
  sequential use (`Journal.ServeKeepsKeysUnique`).
- The grade book's "0" rule applies to lectures too.
- A grade-book day can have more than six cells (`MyGrades.TemplateShape`).
- The week walks run while a week has begun, not for a computed number of
  weeks.
- The semester is resolved four different ways (`Semester`).

## Model

| member | source | states |
|---|---|---|
| Records.NewMark | controllers/journalController.js:90-96 | a fresh mark is the student's, absent, ungraded, and satisfies the mark schema |
| Records.NewEntry | models/JournalEntry.js:17-35 | a created entry carries the given key fields and teacher, the schema's defaults (practice, empty topic, not submitted) and the given marks |
| Records.LeanLessonType | controllers/journalController.js:340-419 | on the lean schedule read of getWeeklyGrades a lesson's stored type is read as is; a missing type reads as practice, although the schedule schema's default is lecture |
| Records.HydratedLessonType | controllers/journalController.js:44-47 | on the hydrated schedule reads of getJournalEntry and getLessonsByGroupAndDate a missing type takes the schema's default, lecture, so the practice fallback never applies |
| Schedules.HydratedReadsCast | models/WeeklySchedule.js:33-38 | the hydrated type is the lean type of the lesson as the schema casts it, and differs from the lean type exactly when the type is missing |
| Records.FlatLessons | controllers/weeklyScheduleController.js:122-123 | the day-by-day lesson walk visits every lesson of every day, each paired with its day's position, in day order |
| Records.FindGroup | controllers/studentController.js:168-172 | the first group whose roster lists the student; none exactly when no roster lists them |
| Records.SubjectOf | controllers/journalController.js:45-48 | a populated subject reference exists exactly when the reference is set and the subject document exists |
| Calendar.CivilDay | controllers/journalController.js:11-20 | the civil day in UTC+5 an instant falls on: the day whose midnight is at or before it and whose successor's midnight is after it |
| Calendar.DayNumberOrder | controllers/journalController.js:529-531 | day numbers order valid dates strictly, so comparing or joining on day numbers compares dates |
| Calendar.NowInstant | controllers/journalController.js:503 | the present instant falls on today's civil day |
| Rounding.RoundDiv | controllers/analyticsController.js:34 | `Math.round(a / b)`: the integer within a half of a/b, halves rounded up |
| Rounding.RoundDivUnique | controllers/analyticsController.js:34 | that integer is unique, so the rounding is fully determined |
| Rounding.Percent | controllers/studentController.js:190 | a total of 0 or less gives 0; otherwise the rounded percentage, which lies in 0..100 when the part is within the total |
| Rounding.MeanTenths | controllers/studentController.js:315 | a mean rounded to one decimal, in tenths, within a half-tenth of the exact mean; means of grades 0..5 lie in 0..50 |
| Rounding.JsCeilDiv | controllers/studentController.js:86 | `Math.ceil(a / b)` for a divisor of either sign: for a positive divisor the r with b(r − 1) < a ≤ br, mirrored for a negative one |
| Text.Trim | controllers/journalController.js:775 | the result is empty or begins and ends with a non-space character |
| Text.TrimEmpty | controllers/journalController.js:775 | a text trims to empty exactly when it is all spaces |
| Text.TrimInfix | controllers/journalController.js:782 | the trimmed text is a contiguous piece of the input, and only spaces were cut on either side |
| Semester.LatestSemesterStart | config/semesterSettings.js:1-17 | the latest September 1 or February 1 not after the date: no semester start between it and the date |
| Semester.GetSemesterStart | config/semesterSettings.js:19-50 | from February to December the answer is February 1 of that year, in January September 1 of the year before; always a semester start not after the date |
| Semester.GetSemesterStartBranch | config/semesterSettings.js:25-49 | the first test answers for every month from February on and the second for January, so the September and before-September returns are never reached |
| Semester.GetSemesterStartSkipsAutumn | config/semesterSettings.js:25-27 | from September to December the answer is February 1 while the latest semester start is September 1, which comes after it |
| Semester.GetSemesterStartAgreesOutsideAutumn | config/semesterSettings.js:25-36 | from January to August the answer is the latest semester start |
| Semester.GetSemesterStartIgnoresDay | config/semesterSettings.js:19-50 | dates of the same month and year get the same answer |
| Semester.AcademicYearStart | controllers/journalController.js:226-227 | September 1 of this year from September on, of the previous year before: the last September 1 not after the date, the next one after it |
| Semester.AcademicYearStartVersusLatest | controllers/journalController.js:501-502 | that rule agrees with the latest semester start exactly from September to January |
| Semester.GradeBookBranchOf | controllers/journalController.js:615-633 | December 22 on is the break, January the break, every other date from February on takes the second-semester branch; the September branch is unreachable |
| Semester.GradeBookSemester | controllers/journalController.js:612-633 | the grade book's semester: second semester from February 1 of the year exactly on the February branch, otherwise the latest semester start |
| Semester.GradeBookSemesterAutumnDefect | controllers/journalController.js:625-633 | from September 1 to December 21 the grade book starts on February 1 of the same year, where the intended rule starts on September 1 |
| Semester.GradeBookSemesterCorrected | controllers/journalController.js:607-633 | the grid starts at the latest semester start, and it is the second semester exactly from February to August |
| Semester.GradeBookSemesterAgreement | controllers/journalController.js:615-633 | the written and intended rules agree exactly before September and from December 22 on |
| Semester.GetSemesterDates | controllers/studentController.js:138-158 | a given semester is kept; without one, semester 1 from September to January; semester 2 is February 10 to June 30 of the coming spring, anything else September 1 to January 31 of the academic year |
| Semester.DefaultRangeContainsDate | controllers/studentController.js:141-156 | the default range contains the date except February 1 to 9 and July and August |
| Shifts.ParseShift | controllers/journalController.js:27-30 | "first" and "1" are shift 1, "second" and "2" shift 2, anything else is refused |
| Shifts.LessonShiftOfClock | controllers/journalController.js:66-67 | for a time "HH:MM - …" the journal's string comparison is shift 2 exactly from 13:00 on |
| Shifts.ClockComparison | controllers/journalController.js:67 | on zero-padded clock readings the string comparison with "13:00" is the comparison of hours |
| Shifts.ShiftRulesDisagree | controllers/journalController.js:192-196 | the listing's substring rule and the journal's start-time rule disagree both ways: 12:20–13:40 and 16:00–17:20 |
| Journal.FindSchedule | controllers/journalController.js:45-52 | the first schedule of the group, whatever its semester; none exactly when the group has no schedule |
| Journal.DayLessons | controllers/journalController.js:33-58 | the lessons of the schedule day named like the weekday of the requested instant, when the group's first schedule has such a day |
| Journal.DesignatedLesson | controllers/journalController.js:44-63 | missing schedule and missing weekday are not-founds; otherwise the lesson in the requested slot if it exists and its existing subject is the requested one |
| Journal.Enrolled | controllers/journalController.js:87-90 | the roster less the students whose documents are gone, in roster order and without new repetitions |
| Journal.FreshMarks | controllers/journalController.js:90-96 | one absent, ungraded mark per enrolled student, in roster order |
| Journal.GetJournalEntry | controllers/journalController.js:22-116 | errors (bad shift, not-founds, shift mismatch, missing group, schema refusal) write nothing; an existing entry under the request's key is returned unchanged; otherwise exactly one fresh, valid entry is appended under that key |
| Journal.GetJournalEntryIdempotent | controllers/journalController.js:75-110 | repeating a successful request returns the same entry and writes nothing |
| Journal.GetJournalEntryKeepsKeysUnique | controllers/journalController.js:75-110 | a request never stores a second entry under a key that has one |
| Journal.ServeKeepsKeysUnique | models/JournalEntry.js:37-40 | requests served one after the other never create two entries with the same key, though no index enforces it |
| Journal.UpdateJournalEntry | controllers/journalController.js:117-144 | unknown id is not found, a teacher who does not own the entry is forbidden, invalid grades are refused, all without writing; otherwise only that entry's marks are replaced |
| Journal.UpdateKeepsLookup | controllers/journalController.js:133-135 | an update moves no entry: every lookup by key finds what it found before, and unique keys stay unique |
| Journal.Line | controllers/journalController.js:169-208 | a lesson is listed exactly when its subject exists, with its slot, teacher, type (lecture when unset, from the hydrated read) and the rule's shift |
| Journal.ListLinesSound | controllers/journalController.js:188-209 | every listed line is the line of the lesson in its slot |
| Journal.ListLinesComplete | controllers/journalController.js:188-209 | every lesson with an existing subject is listed |
| Journal.ListLinesOrdered | controllers/journalController.js:188-209 | the lines come in strictly increasing slot order |
| Journal.LessonsByRule | controllers/journalController.js:145-219 | an invalid date is refused; no schedule or no such weekday gives an empty list; otherwise the day's listed lines |
| Journal.ListingGroupName | controllers/journalController.js:174-214 | the answer names the group only when the day has lessons and the group exists with a name; otherwise the placeholder "Гурӯҳ" |
| Journal.ListedWithGroupName | controllers/journalController.js:187-214 | whenever a lesson is listed, the group's own name (or the placeholder for a missing or unnamed group) comes with it |
| Journal.EmptyDayHidesGroupName | controllers/journalController.js:174-186 | without a schedule or lessons on that weekday, even a named group is answered with the placeholder, since a schedule has no `groupName` field |
| Journal.ListedLineDesignates | controllers/journalController.js:197-206 | opening a listed line designates the very lesson it was listed from |
| Journal.ListedLineMismatch | controllers/journalController.js:66-70 | a listed line is refused with a shift mismatch exactly when the two shift rules disagree on its lesson |
| Journal.ListedLessonRefused | controllers/journalController.js:192-196 | a day whose one lesson runs 12:20–13:40 is listed in shift 2, and opening it as listed is refused |
| Journal.MondayLesson | controllers/journalController.js:33-41 | the weekday lookup works in the Dushanbe zone: Dushanbe midnight of Monday 1 September 2025 finds the schedule's Monday lessons |
| Journal.CorrectedListingOpens | controllers/journalController.js:60-70 | with the start-time rule every listed line opens, failing only for a missing group or a refused document |
| Weeks.WeekDays | controllers/journalController.js:672-675 | the days of a week from a position on, consecutive, stopping at the sixth day or after today |
| Weeks.WeeksFromElements | controllers/journalController.js:667-722 | week w of the walk starts 7w days after the first, is numbered in order and lists at least one day, so no week is dropped |
| Weeks.WeeksShape | controllers/journalController.js:515-563 | weeks numbered from 1, each listing up to six consecutive begun days, the last short week ending today, as many weeks as have begun within the cap |
| Weeks.WeeksComplete | controllers/journalController.js:388-438 | a day is listed, at its position in its week, exactly when it has begun, is on or after the start, is not a week's seventh day and its week is within the cap |
| GroupAttendance.WeekNumber | controllers/journalController.js:223-229 | a non-zero week parameter is taken as is; otherwise the week since the academic year's September 1 that today falls in, at least 1 |
| GroupAttendance.Row | controllers/journalController.js:261-269 | each roster row has six days of six lesson cells |
| GroupAttendance.WeeklyAttendance | controllers/journalController.js:220-309 | a missing group is not found; otherwise the week's six days and one row per enrolled student, each cell read from the entries sorted by date |
| GroupAttendance.CellIsLastEntry | controllers/journalController.js:238-295 | when one entry of that group, day and lesson listing the student is dated after all others, the cell holds the student's attendance from it |
| GroupAttendance.CellIsOneOfLatest | controllers/journalController.js:238-295 | when such entries exist, the cell holds the student's attendance from one of those with the latest date |
| GroupAttendance.CellUnwritten | controllers/journalController.js:286-291 | a cell stays empty for a duplicate roster row, or when no entry in the store hits it |
| GroupGrades.WalkDays | controllers/journalController.js:443-445 | a row holds as many days as the weeks do, each paired with the number of the week it comes from |
| GroupGrades.WalkDaysAt | controllers/journalController.js:443-445 | day k of week w sits right after the days of the earlier weeks, with week w's number |
| GroupGrades.TemplateCell | controllers/journalController.js:402-419 | a template cell shows the schedule lesson's existing subject and type among the first six positions, and is empty otherwise |
| GroupGrades.CellMarkedByLastHit | controllers/journalController.js:451-462 | a cell's attendance, grades and type are those of the student's first mark in the last entry hitting it |
| GroupGrades.CellMarkedByTemplate | controllers/journalController.js:446-451 | with no such entry the template cell stays |
| GroupGrades.CellLabelledByLastRelabel | controllers/journalController.js:463-467 | the subject shown is that of the last hitting entry whose subject exists |
| GroupGrades.CellLabelledByTemplate | controllers/journalController.js:463-467 | without such an entry the template's subject stays |
| GroupGrades.SubjectIds | controllers/journalController.js:342-361 | the listed subjects exist and appear once each |
| GroupGrades.SubjectIdsMembership | controllers/journalController.js:342-361 | a subject is listed exactly when a schedule lesson or a selected entry names it and it exists |
| GroupGrades.ListedSubjectKnown | controllers/journalController.js:342-356 | every listed subject comes from a schedule lesson or a selected entry |
| GroupGrades.LessonCounted | controllers/journalController.js:363-376 | a subject with a lesson on a day of a six-day block has a positive count for that block |
| GroupGrades.CountedLesson | controllers/journalController.js:363-376 | a positive count has a lesson of that subject in that block behind it |
| GroupGrades.LessonCounts | controllers/journalController.js:363-376 | no schedule gives no counts; each key holds the positive count of its subject and block |
| GroupGrades.LessonCountsComplete | controllers/journalController.js:363-376 | every subject and six-day block with a lesson of that subject has its key, holding that count |
| GroupGrades.WeeklyGrades | controllers/journalController.js:310-492 | a missing group is not found; otherwise a row per enrolled student over the walk of at most 16 weeks, the subjects and the lesson counts |
| MyAttendance.LetterOf | controllers/journalController.js:541-543 | a written attendance never shows "—", and shows "H" exactly when present |
| MyAttendance.Tally | controllers/journalController.js:565-580 | total counts the written cells, present the "H" cells, absent the "N" and "L" cells, and the rate lies in 0..100 |
| MyAttendance.WrittenSplit | controllers/journalController.js:569-571 | the written cells are exactly the "H", "N" and "L" cells |
| MyAttendance.TallyExtremes | controllers/journalController.js:576 | no written cell rates 0; written cells without an "N" or "L" rate 100 |
| MyAttendance.StudentAttendance | controllers/journalController.js:493-586 | without a signed-in student the answer is 401; otherwise the grid over the weeks since September 1, read from the entries sorted by date, and its totals |
| MyAttendance.CellIsLastEntry | controllers/journalController.js:506-545 | when one entry of that day and lesson naming the student is dated after all others, the cell shows the letter of the student's first mark in it |
| MyAttendance.CellIsOneOfLatest | controllers/journalController.js:506-545 | when such entries exist, the cell shows the letter from one of those with the latest date |
| MyAttendance.CellUnwritten | controllers/journalController.js:533-545 | a cell shows "—" exactly when no entry in the store names the student on that day and lesson |
| MyGrades.Place | controllers/journalController.js:683-687 | writing past the end of a day's cells grows it with holes up to the new position |
| MyGrades.TemplateShape | controllers/journalController.js:680-688 | a day has at least six cells and one for each lesson up to the last with a subject; labelled positions show the subject, positions past the sixth in between are holes |
| MyGrades.ZeroRule | controllers/journalController.js:698-702 | a cell with a subject and no grade shows 0; nothing else changes |
| MyGrades.Tally | controllers/journalController.js:724-740 | count and sum of the shown grades, their greatest and least, and their mean in tenths lying between them; all 0 without grades |
| MyGrades.BookFrom | controllers/journalController.js:646-745 | nothing when no entry is found and the group has no schedule; otherwise the walk of at most 16 weeks over the entries sorted by date, and its totals |
| MyGrades.StudentGrades | controllers/journalController.js:589-750 | 401 without a student, 404 without a group; otherwise the grade book from the latest semester start |
| MyGrades.StudentGradesAsWritten | controllers/journalController.js:589-750 | as written, a signed-in student of a group only ever gets the empty book or an error |
| MyGrades.AsWrittenAlwaysCrashes | controllers/journalController.js:690 | the written handler answers 500 whenever an entry is found or the group has a schedule |
| MyGrades.CellShowsLastEntry | controllers/journalController.js:637-702 | when one entry of that day and lesson naming the student is dated after all others, a cell shows the task grade, else the preparation grade, of the student's mark in it, or 0 for a subject without grade |
| MyGrades.CellIsOneOfLatest | controllers/journalController.js:637-702 | when such entries exist, the cell shows that grade from one of those with the latest date |
| MyGrades.CellWithoutEntry | controllers/journalController.js:680-702 | without such an entry a lesson with a subject shows 0 and a blank cell "—" |
| Analytics.AttendanceRate | controllers/analyticsController.js:16-34 | present marks over all marks, rounded percent in 0..100; 0 without marks |
| Analytics.AllPresentRates100 | controllers/analyticsController.js:34 | everyone present everywhere rates 100 |
| Analytics.TaskGrades | controllers/analyticsController.js:38-40 | the set task grades, none exactly when no mark has one, each in 0..5 for valid marks |
| Analytics.AverageTaskTenths | controllers/analyticsController.js:38-49 | the mean of the set task grades to one decimal, 0 without any, within 0.0..5.0 for valid entries |
| Analytics.EntryGroups | controllers/analyticsController.js:52-58 | the groups with entries, each once |
| Analytics.Ranked | controllers/analyticsController.js:52-59 | those groups, each once, most entries first |
| Analytics.TopGroupsRows | controllers/analyticsController.js:60-75 | each listed group exists and shows its name and positive number of entries |
| Analytics.TopGroupsOrdered | controllers/analyticsController.js:59 | the list is ordered by number of entries, greatest first, without repetition |
| Analytics.TopGroupsAreTop | controllers/analyticsController.js:59-69 | no existing group left out has more entries than a listed one |
| Analytics.AbsentStudentsMember | controllers/analyticsController.js:82-88 | a student is among the absentees exactly when they have an absent mark |
| Analytics.HighAbsence | controllers/analyticsController.js:118 | the report is sorted by absences, most first |
| Analytics.HighAbsenceRows | controllers/analyticsController.js:80-117 | every row is an existing student's, with their name, first group's name or "Unknown", and an absence count above 48 |
| Analytics.HighAbsenceListsExactly | controllers/analyticsController.js:80-98 | a student is listed exactly when their document exists and they have more than 48 absent marks |
| Analytics.DashboardStats | controllers/analyticsController.js:5-133 | the counts of students and groups, a rate in 0..100, an average in 0.0..5.0 for valid entries, at most five top groups |
| StudentStats.ClassCount | controllers/studentController.js:185-188 | the semester's entries holding a mark of the student; 0 exactly when there is none |
| StudentStats.PresentCount | controllers/studentController.js:180-184 | the semester's entries where the student's own mark is present, never more than the classes |
| StudentStats.PresentCountAsWritten | controllers/studentController.js:180-184 | as written, the entries listing the student in which anybody is present |
| StudentStats.SemesterRateExtremes | controllers/studentController.js:190 | the rate is 0 when none of the student's marks in the window says present, 100 when there is one and all of them do |
| StudentStats.AsWrittenCountsClassmates | controllers/studentController.js:180-184 | as written, an entry with the student absent and a classmate present rates 100 where the student's own marks rate 0 |
| StudentStats.SubjectsCount | controllers/studentController.js:195-210 | the number of distinct subject references of the semester's schedule; 0 without one |
| StudentStats.SubjectRefsListed | controllers/studentController.js:204-206 | a subject is counted exactly when some lesson of the week refers to it |
| StudentStats.MyDashboardStats | controllers/studentController.js:160-224 | 401 without a student, 404 without a group; then 500 exactly when the semester parameter parses to NaN, which the schedule query cannot cast; otherwise the group's name, the subjects count and the rate over the student's own marks |
| StudentStats.MyDashboardStatsAsWritten | controllers/studentController.js:160-224 | as written, the same errors (500 for a NaN semester included) and the same answer but for a rate counting entries where anybody is present |
| StudentStats.Caption | controllers/studentController.js:302 | a subject column is never blank: "—" when the subject document is gone |
| StudentStats.OverviewGrade | controllers/studentController.js:301 | the grade an entry counts for the student lies in 0..5 for valid entries |
| StudentStats.TotalWithin | controllers/studentController.js:304-311 | a subject's total lies between 0 and five times its count |
| StudentStats.Averages | controllers/studentController.js:313-316 | one row per caption of `Subjects`, in that order |
| StudentStats.Subjects | controllers/studentController.js:279-316 | the captions listed are exactly the captions of the entries that are not names a plain object inherits from `Object.prototype` ("constructor", "__proto__", …); those find the inherited member, never become own keys and are not listed |
| StudentStats.SubjectsOrder | controllers/studentController.js:313 | each caption once; captions that are array indices first, by value; the others in order of first occurrence |
| StudentStats.SubjectsInFirstOccurrence | controllers/studentController.js:304-313 | when no caption is an array index or an inherited name, the captions are listed in order of first occurrence |
| ObjectKeys.Keys | controllers/studentController.js:313 | `Object.keys` is a permutation of the keys added: array indices first in ascending value, then the other keys in the order they were added |
| ObjectKeys.KeysMembership | controllers/studentController.js:313 | a key is listed exactly when it was added |
| ObjectKeys.KeysDistinct | controllers/studentController.js:313 | keys added once are listed once |
| ObjectKeys.KeysWithoutIndices | controllers/studentController.js:313 | without array indices the keys come out in the order they were added |
| ObjectKeys.Created | controllers/studentController.js:304-306 | `if (!o[k]) o[k] = …` creates each given name once, in first-occurrence order, and never a name `Object.prototype` holds |
| ObjectKeys.CreatedMembership | controllers/studentController.js:304-306 | a name becomes an own key exactly when it is given and not inherited |
| ObjectKeys.InheritedListed | controllers/studentController.js:304 | the inherited names are exactly the twelve members of `Object.prototype` |
| ObjectKeys.InheritedExamples | controllers/studentController.js:304 | "constructor" and "__proto__" are inherited, an ordinary subject name is not |
| ObjectKeys.PlainKeysInFirstOccurrence | controllers/studentController.js:304-313 | names that are neither array indices nor inherited are listed in the order of first occurrence |
| StudentStats.GradesOverviewLists | controllers/studentController.js:295-316 | a subject is listed exactly when a non-lecture entry of the semester with a mark of the student carries it and its name is not one `Object.prototype` holds |
| StudentStats.GradesOverviewWithin | controllers/studentController.js:315 | every average lies in 0.0..5.0 for valid entries |
| StudentStats.AsWrittenAveragesLectures | controllers/studentController.js:277-296 | as written, a lecture's grade counts towards the average (its row is listed unless its caption is an inherited name); intended, it does not |
| StudentStats.PagingOf | controllers/studentController.js:65-86 | page and limit default when falsy; the skip is (page − 1)·limit; for a positive limit the page count is the ceiling of total over limit |
| StudentStats.PageRows | controllers/studentController.js:79-80 | a negative skip is an error; otherwise the rows from the skip on, at most the limit's magnitude |
| StudentStats.Students | controllers/studentController.js:63-91 | the total, page and page count of the listing with its page of rows |
| StudentStats.RowOnItsPage | controllers/studentController.js:65-86 | with a positive limit, row i is shown on page i/limit + 1 at position i mod limit, and that page is announced |
| Schedules.WeekWithDefaults | models/WeeklySchedule.js:33-38 | the stored week is the given one with missing lesson types set to lecture |
| Schedules.WeekWithDefaultsIdempotent | models/WeeklySchedule.js:33-38 | applying the defaults twice changes nothing further |
| Schedules.SaveWeeklySchedule | controllers/weeklyScheduleController.js:33-71 | missing group or week is refused and an invalid week too, writing nothing; otherwise the group's first schedule gets the week, or a semester-1 schedule is appended |
| Schedules.SaveThenGet | controllers/weeklyScheduleController.js:41-56 | the group's schedule read back after a save holds the week saved |
| Schedules.SaveIdempotent | controllers/weeklyScheduleController.js:41-50 | saving the same week twice is saving it once |
| Schedules.SaveKeepsIndex | models/WeeklySchedule.js:68 | a save never breaks the unique (group, semester) index |
| Schedules.SaveLeavesOneSchedule | controllers/weeklyScheduleController.js:41-50 | afterwards the group has a schedule, and exactly one when it had at most one |
| Schedules.DeleteWeeklySchedule | controllers/weeklyScheduleController.js:74-88 | the group's first schedule is removed; a group without one is not found and nothing changes |
| Schedules.DeleteKeepsOthers | controllers/weeklyScheduleController.js:77 | every other group's schedule survives |
| Schedules.SaveThenDelete | controllers/weeklyScheduleController.js:49-80 | creating a group's first schedule and deleting it restores the store |
| Schedules.MyTeachingSchedule | controllers/weeklyScheduleController.js:90-142 | a lesson without teacher in a returned schedule crashes; otherwise the hours are the teacher's lessons, the subjects distinct, the groups those of the teacher's schedules |
| Schedules.TeachingSubjectsListed | controllers/weeklyScheduleController.js:122-129 | a subject is listed exactly when one of the teacher's lessons has it as a non-empty name |
| Schedules.TeachingGroupsListed | controllers/weeklyScheduleController.js:113-120 | a group is listed exactly when it exists and one of the teacher's schedules belongs to it |
| Schedules.GroupSource | controllers/weeklyScheduleController.js:114-119 | every listed group exists, is named by one of the selected schedules, and shows its own name and shift |
| Schedules.NothingTaught | controllers/weeklyScheduleController.js:100-107 | a teacher with no lesson gets empty lists and no hours |
| Groups.FindByCode | controllers/groupController.js:14 | the first group with the code; none exactly when no group has it |
| Groups.AddGroup | controllers/groupController.js:6-32 | missing fields, a taken code and a schema refusal are each refused exactly when they occur and write nothing; otherwise one valid group with an empty roster is appended |
| Groups.AddGroupKeepsCodesUnique | models/Groups.js:6 | adding a group keeps codes unique |
| Groups.AddedGroupFound | controllers/groupController.js:14-26 | a lookup by the new code finds the new group, and adding it again is refused as a duplicate |
| Groups.AddStudentToGroup | controllers/groupController.js:88-107 | a missing group or student is not found, writing nothing; otherwise the student is on the roster, appended once with the count matching the roster, and no other group changes |
| Groups.AddStudentIdempotent | controllers/groupController.js:97-101 | adding the same student twice is adding once |
| Groups.AddStudentKeepsRoster | controllers/groupController.js:97-99 | a roster without repetitions stays so, and a count matching the roster keeps matching |
| Groups.AddStudentKeepsCodesUnique | models/Groups.js:6 | a roster edit keeps codes unique |
| Notes.NoteTextNotBlank | controllers/journalController.js:775-782 | a listed remark is the trimmed remark and is not empty |
| Notes.Grouped | controllers/journalController.js:789-794 | every remark's group is a key, and each key holds exactly the remarks with that group, in list order |
| Notes.WithGroupIsFilter | controllers/journalController.js:789-794 | a group's list is the filter of the remarks on that group |
| Notes.GroupNotes | controllers/journalController.js:789-803 | every remark is filed; each group's list is non-empty, newest first, and a rearrangement of that group's remarks |
| Notes.NoteFiled | controllers/journalController.js:789-794 | every remark is in its own group's list |
| Notes.FiledNoteBelongs | controllers/journalController.js:789-794 | everything in a group's list is a remark of that group |
| Notes.Reduced | controllers/journalController.js:789-794 | the `reduce` throws exactly when some remark's group name is one `Object.prototype` holds, whose member has no `push`; otherwise it gives the grouping |
| Notes.InheritedKey | controllers/journalController.js:789-794 | a remark has an inherited group name exactly when the grouping has an inherited key |
| Notes.Answer | controllers/journalController.js:789-808 | a 500 exactly when an inherited name would be a key; otherwise the grouped remarks, newest first |
| Notes.GroupEntries | controllers/journalController.js:762-768 | the entries are listed newest first |
| Notes.AdminNotes | controllers/journalController.js:753-810 | every list is non-empty and newest first |
| Notes.AdminNotesAnswer | controllers/journalController.js:753-810 | the admin's answer is the grouped remarks, or a 500 when the grouping throws |
| Notes.AdminNotesCrash | controllers/journalController.js:786-808 | the admin's answer is a 500 exactly when the group's name is inherited and there is a remark to file under it |
| Notes.AdminNoteSound | controllers/journalController.js:772-786 | every remark shown is a non-blank remark on a mark of one of the group's entries, filed under the group's name |
| Notes.AdminNoteComplete | controllers/journalController.js:772-786 | every non-blank remark on a mark of the group's entries is shown under the group's name |
| Notes.MyNotes | controllers/journalController.js:813-865 | every list is non-empty and newest first |
| Notes.MyNotesAnswer | controllers/journalController.js:813-866 | the student's answer is a 500 exactly when one of the group names it would have as keys is inherited; otherwise the grouped remarks |
| Notes.MyNoteSound | controllers/journalController.js:828-842 | every remark shown is the non-blank remark on the student's first mark of an entry listing them, without a student name |
| Notes.MyNoteComplete | controllers/journalController.js:828-842 | a non-blank remark on the student's first mark of any entry is shown under that entry's group name |
| Notes.StoredNotesEmpty | models/JournalEntry.js:6-15 | with marks as stored, which have no remark field, both views are empty |

## Left out

- HTTP transport, routing, authentication middleware and status codes other
  than the answer kind: each handler returns a `Result`.
  The 201/200 distinction of a schedule save is not modelled.
- Malformed ids: `ObjectId.isValid` and CastError answers of 400 are left out.
  This includes getAdminNotes's invalid groupId. Ids are natural numbers and
  always well formed.
- Concurrency: two simultaneous getJournalEntry calls for the same new key
  can both create an entry. Two simultaneous addGroup calls can both pass the
  code check. The model is sequential.
- Database faults and the catch-all 500 answers are left out, apart from the
  crashes the model exhibits (`Crash`). getMyGradesOverview's `grades: []`
  on any error is not modelled.
- Floating point: rates and means are exact rationals rounded half up, and
  `toFixed` is taken as exact. `Math.round` of a float quotient and `toFixed`
  can differ from exact rounding on rare binary ties.
- The server's own time zone is assumed to be UTC+5. `new Date(y, m, d)` and
  `getDay()` then agree with the Dushanbe formatter. On a server in another
  zone the day joins shift.
- Text fields shown to the client are left out: "dd.MM" dates, Russian
  weekday names, "DD.MM.YYYY" remark dates, and full names of students in grid
  rows. Remarks carry a day number. Group names are kept, including the
  `groupName` of the lesson list (`Journal.ListingGroupName`).
- `Number(slot)` on non-integer text is represented only by `ParsedInt`:
  a number or NaN. Fractional slots are not modelled.
- Query result order: a store query returns its documents in store order.
  Where the handler asks for a sort, the model sorts: the three grids sort by
  date (`Overlay.ByDate`), and the notes lists sort newest first. The
  secondary `lessonSlot` key of the grids is not modelled, because every
  entry that lands in one grid cell has the same slot.
- GroupAttendance.CellIsLastEntry: names the entry a cell shows only when one
  entry is strictly latest, because the database does not fix the order of
  entries with equal sort keys; `GroupAttendance.CellIsOneOfLatest` covers
  ties and promises only that one of the latest entries decides.
- MyAttendance.CellIsLastEntry: the same limit for ties, covered by
  `MyAttendance.CellIsOneOfLatest`.
- MyGrades.CellShowsLastEntry: the same limit for ties, covered by
  `MyGrades.CellIsOneOfLatest`.
- Analytics.Ranked: the order in which `$group` emits groups and the order
  `$sort` gives groups with equal entry counts are not fixed by the database.
  The model takes first occurrence and keeps ties in that order. Its
  contracts promise only the order of the counts.
- Analytics.TopRanked: when several groups tie for fifth place, which of
  them enter the top five is not fixed by the database. The model picks them
  by first occurrence. `Analytics.TopGroupsAreTop` holds for any choice.
- Analytics.HighAbsence: rows with equal absence counts come in the order of
  first absent mark here. The database leaves their order open.
- MyGrades.Tally: grades are whole numbers 0..5 in the model. The schema
  accepts any number in 0..5, so a grade like 4.5 is not represented, and
  neither are the sums and means it would give.
- Analytics.AverageTaskTenths: the same whole-number limit on task grades.
  The `$avg` of fractional grades is not modelled.
- StudentStats.Averages: the same whole-number limit on the averaged grades.
- A caption named like an `Object.prototype` member is modelled as dropped
  from the grades overview. The `+=` that then writes NaN onto the shared
  `Object` function or onto `Object.prototype` is not modelled; no answer of
  the modelled handlers reads those fields.
- JSON key order of the grouped objects (maps here) is not modelled.
- The `semester: { $exists: false }` fallback of the dashboard's schedule
  lookup is left out. Every stored schedule has a semester, since the schema
  defaults it.
- The regular-expression search of getStudents is left out. The listing is
  taken as already filtered and ordered newest first.
- StudentStats.PageRows: a negative limit is taken by its magnitude. The
  cursor-closing semantics of a negative limit in the database are not
  modelled.
- Text.Trim: only space, tab, line feed and carriage return count as white
  space. JavaScript's `trim` also removes other Unicode spaces.
- The populate of a deleted student inside a mark (`s.studentId._id` on null)
  is not modelled as a crash in getWeeklyAttendance and getWeeklyGrades.
  Every mark's student is taken to exist there.
- editGroup, deleteGroup, getGroups and the student CRUD handlers are plain
  storage operations outside this core.
- getMyTodayClasses is left out.
- GPA and the constant fields of the student dashboard (`course`, `gpa`,
  `todayClassesCount`) are left out.

## Findings

| source | as written | input that shows it | evidently intended | confidence | as-written member | corrected member |
|---|---|---|---|---|---|---|
| config/semesterSettings.js:25-27 | from February to December the semester start is February 1 of the year | any date from September 1 to December 31 answers February 1, skipping the autumn semester under way | September 1 from September on | not executed; high | Semester.GetSemesterStartSkipsAutumn | Semester.LatestSemesterStart |
| controllers/journalController.js:625-633 | the "February and later" test precedes the September branch | 15 October: the grade book runs the second semester from February 1 | September 1 to December 21 is the first semester | not executed; high | Semester.GradeBookSemesterAutumnDefect | Semester.GradeBookSemesterCorrected |
| controllers/journalController.js:690 | the day loop reads `dayJournals`, which getMyGrades never declares | any signed-in student of a group with a schedule gets 500 | each day reads its own entries from `journalsByDate` | not executed; high | MyGrades.AsWrittenAlwaysCrashes | MyGrades.CellShowsLastEntry |
| controllers/journalController.js:192-196 | the lesson list puts a lesson in shift 2 when its text contains "13:", "14:" or "15:" | a 12:20–13:40 lesson is listed in shift 2 and then refused by getJournalEntry, whose rule says shift 1 | the listing uses the journal's start-time rule | not executed; high | Journal.ListedLessonRefused | Journal.CorrectedListingOpens |
| controllers/studentController.js:180-184 | the present count matches the student and "present" on possibly different marks | one entry with the student absent and a classmate present rates 100 | count entries where the student's own mark is present | not executed; high | StudentStats.AsWrittenCountsClassmates | StudentStats.SemesterRateExtremes |
| controllers/studentController.js:277-296 | the query selects only subject and marks, so the lecture test never skips anything | a lecture graded 5 counts in the average | lectures are left out of the averages | not executed; medium | StudentStats.AsWrittenAveragesLectures | StudentStats.GradesOverviewLists |
| models/JournalEntry.js:6-15 | the mark schema has no remark field, so remarks sent with marks are dropped on save | a mark saved with a remark; both remark views answer `{}` | marks keep their remark and the views list it | not executed; medium | Notes.StoredNotesEmpty | Notes.AdminNoteComplete |
