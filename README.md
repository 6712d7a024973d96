# Exam scheduler — a Dafny model

This project models the scheduling engine of a university exam planner.
The engine places one exam per course module at a date, a time slot and a
room, and gives it a supervising professor. Every placement has to satisfy
the hard constraints of the conflict detector:

- no exam on a Friday;
- a module is examined only once;
- a room never hosts two overlapping exams;
- no student sits two exams on the same calendar day.

The model has three parts:

- `ConflictDetector` (conflict_detector.dfy) covers `backend/conflict_detector.py`. Each check is a pure function that returns `Pass` or `Fail(reason)`, and its contract gives the exact condition for failure. `IsExamValid` combines the four checks and reports the first one that fails, in the order Friday, module, room, students.
- `Optimizer` (optimizer.dfy) covers `backend/optimizer.py`:
  - It contains the date generator (Monday to Thursday) and the greedy first-fit scheduler.
  - The scheduler is imperative, as in the source. Nested loops over formations, modules, dates, slots and rooms append to the in-memory exam list `existing_exams`.
  - `existing_exams` is `existing` in the model, and `insert_exam` appends a row to the output `inserted`. `prof_schedule` maps each professor to a set of busy (date, time) pairs. `failed` collects the modules reported as failed.
  - The proofs show five things. Every exam passed the checker against the list as it stood when the exam was appended. The final list satisfies every constraint pairwise. No professor is booked twice at one (date, start time). Each placement is the first fitting candidate in date × slot × room order. Every module ends up placed or reported failed.
- `StudentTimetable` (student_timetable.dfy) covers `check_exam_conflicts` in `frontend/pages/student.py`. It is a pairwise scan that reports every pair of a student's exams with the same date and the same start time. The proofs show that the reported pairs are exactly those pairs, in scan order, at most one record per pair.

The supporting modules:

- `Calendar` models the part of Python's `datetime` that the code uses:
  - a date is its proleptic ordinal (`date.toordinal()`), so `weekday()` is `(d + 6) % 7`;
  - a time of day is in minutes since midnight;
  - datetimes are compared as minute instants.
- `Wrappers` provides `Option`.

The code is a greedy first-fit scheduler, not a backtracking search over room capacities and cohort groups, and the model follows the code:

- The code does not backtrack. A module that finds no fitting candidate is reported and skipped, and earlier placements are never undone.
- The code has no room capacity check, no cohort splitting into groups, no per-day cap for professors, no fairness ordering and no randomised slot order.
- The checker bans only Friday; the date generator offers only Monday to Thursday; both are hard-coded.
- Each exam gets exactly one professor and one room.
- The time slots are the three fixed values of `TIME_SLOTS`. They are not derived from a day window and a break length.
- `check_exam_conflicts` compares only start times, even though a comment there speaks of overlapping times.

## Model

| member | source | states |
|---|---|---|
| Calendar.Weekday | backend/optimizer.py:38 | `weekday()` of a date, Monday 0 through Sunday 6, always in 0..6 |
| Calendar.NextDay | backend/optimizer.py:40 | `current + timedelta(days=1)`: the next date at the same clock time, exactly one day of minutes later |
| Calendar.NotAfterIsLexicographic | backend/optimizer.py:37 | the datetime comparison `current <= end` is lexicographic on (date, time) |
| Calendar.WeekdayOfNextDay | backend/optimizer.py:38-40 | adding one day advances the weekday by one, modulo 7 |
| ConflictDetector.Message | backend/conflict_detector.py:25-55 | the four reason strings, "Friday is forbidden", "Room already used", "Module already has an exam" and "Student conflict same day" |
| ConflictDetector.MessageInjective | backend/conflict_detector.py:25-55 | different reasons are reported with different strings |
| ConflictDetector.IsFriday | backend/conflict_detector.py:8-10 | `is_friday`: the weekday of the date is 4 |
| ConflictDetector.Overlap | backend/conflict_detector.py:13-16 | `overlap`: the later start lies before the earlier end, on minute instants; its meaning is given by the lemmas below |
| ConflictDetector.OverlapIffSharedMinute | backend/conflict_detector.py:13-16 | `max(starts) < min(ends)` holds exactly when the two half-open intervals share a minute |
| ConflictDetector.OverlapSymmetric | backend/conflict_detector.py:13-16 | the overlap test does not depend on the order of its two intervals |
| ConflictDetector.BackToBackDoNotOverlap | backend/conflict_detector.py:13-16 | an interval that ends exactly when the other starts does not overlap it, in either order |
| ConflictDetector.EmptyIntervalOverlapsNothing | backend/conflict_detector.py:13-16 | an interval of zero or negative length overlaps no interval |
| ConflictDetector.SameStartOverlaps | backend/conflict_detector.py:13-16 | two intervals of positive length that start together overlap |
| ConflictDetector.NoFridayConstraint | backend/conflict_detector.py:23-26 | fails exactly when the weekday is 4, and then with "Friday is forbidden" |
| ConflictDetector.RoomNotOccupied | backend/conflict_detector.py:29-39 | fails exactly when some existing exam is in the same room with an overlapping interval, and then with "Room already used" |
| ConflictDetector.OtherRoomsNeverBlock | backend/conflict_detector.py:29-39 | adding exams in other rooms never changes the room check's answer |
| ConflictDetector.ModuleOnlyOnce | backend/conflict_detector.py:42-46 | fails exactly when some existing exam has the same module, and then with "Module already has an exam" |
| ConflictDetector.SharedStudent | backend/conflict_detector.py:54 | a non-empty intersection of student sets has a common student |
| ConflictDetector.StudentsOneExamPerDay | backend/conflict_detector.py:49-57 | fails exactly when some existing exam is on the same calendar day and shares a student, and then with "Student conflict same day" |
| ConflictDetector.UnrelatedExamsNeverConflict | backend/conflict_detector.py:49-57 | exams on other days or with disjoint student sets never cause a student conflict |
| ConflictDetector.FirstFailure | backend/conflict_detector.py:79-83 | passes exactly when every check passes; otherwise returns a failing check all of whose predecessors passed |
| ConflictDetector.FirstFailureOfFour | backend/conflict_detector.py:72-81 | with four checks, the answer is the leftmost failure |
| ConflictDetector.IsExamValid | backend/conflict_detector.py:64-83 | passes exactly when all four constraints hold; each failure reason is returned exactly when its constraint is the first violated one in the order Friday, module, room, students |
| Optimizer.RowOf | backend/optimizer.py:107-114 | the arguments of `insert_exam` for a placed exam: module, professor, room, date, start time and duration |
| Optimizer.StudentSet | backend/optimizer.py:70 | `student_ids`: the set of the formation's student ids |
| Optimizer.GeneratePossibleDates | backend/optimizer.py:34-41 | returns exactly the Monday-to-Thursday dates from `start` up to `end`, strictly increasing; empty when `start > end` |
| Optimizer.GeneratedDatesAreNeverFriday | backend/optimizer.py:38 | the Friday ban never rejects a generated date, at any time of day |
| Optimizer.SessionDaysOfTheWindow | backend/optimizer.py:27-28 | over 2026-01-06 .. 2026-01-21 the generated dates are exactly the ten Monday-to-Thursday days listed in `SessionDays` |
| Optimizer.DistinctInOrder | backend/optimizer.py:59 | the keys of `prof_schedule` are the professors' ids, each once |
| Optimizer.FindAvailableProf | backend/optimizer.py:96-104 | none exactly when every professor is busy at the (date, time); otherwise the first free professor in iteration order |
| Optimizer.ScheduleAtSlot | backend/optimizer.py:81-104 | at one date and slot, the first room that passes `is_exam_valid` with a free professor, with the exam placed there; none only when no room fits |
| Optimizer.NoneFitsNextSlot | backend/optimizer.py:78-134 | when no room fits at a slot, no candidate fits before the next slot |
| Optimizer.NoneFitsNextDate | backend/optimizer.py:77-136 | when no slot of a date fits, no candidate fits before the next date |
| Optimizer.FirstFitAtFrontier | backend/optimizer.py:81-131 | the first room that fits at the search frontier is the first fitting candidate overall |
| Optimizer.ScheduleModule | backend/optimizer.py:74-136 | the exam placed is the first (date, slot, room) in date × slot × room order that fits; none only when no candidate fits |
| Optimizer.AcceptedInOrderAppend | backend/optimizer.py:117-124 | appending an exam that passed the checker against the current list keeps every exam accepted against its prefix |
| Optimizer.ValidAppend | backend/optimizer.py:83-93 | appending an accepted exam keeps all four constraints pairwise |
| Optimizer.AcceptedInOrderIsValid | backend/optimizer.py:83-124 | a list built by accepted appends has no Friday exam, no module twice, no overlapping exams in one room and no shared student on one day |
| Optimizer.SameCohortNeverSameDay | backend/optimizer.py:70-90 | two exams with the same non-empty student set, as two modules of one formation have, are on different days |
| Optimizer.AllModulesPrefix | backend/optimizer.py:65-72 | the modules of the first k formations are visited before all others |
| Optimizer.CommitKeepsProfsSingleBooked | backend/optimizer.py:96-127 | giving the new exam a professor who is free at its (date, time) keeps every professor single-booked |
| Optimizer.CommitKeepsTracking | backend/optimizer.py:127 | after the busy mark is added, `prof_schedule[p]` still holds exactly the (date, time) of p's exams |
| Optimizer.CommitKeepsInvariant | backend/optimizer.py:106-127 | inserting, appending and marking the professor busy keep the run invariant: exams accepted in order, professors single-booked, `prof_schedule` exact, inserted rows matching the exams, every exam well placed and from a formation |
| Optimizer.AccountPlaced | backend/optimizer.py:130-131 | a placed module is accounted for by its exam |
| Optimizer.AccountFailed | backend/optimizer.py:138-139 | a failed module is accounted for by its failure report |
| Optimizer.CommitOnlyGrows | backend/optimizer.py:117-127 | a commit removes no exam and no busy mark |
| Optimizer.VisitModule | backend/optimizer.py:72-139 | one module: either its first fit is inserted, appended and its professor marked busy, or it is reported failed with nothing else changed; the run invariant is kept and the state only grows |
| Optimizer.ScheduleWithin | backend/optimizer.py:47-139 | the final list satisfies every constraint pairwise and professors are single-booked; rows inserted match the exams one by one; each exam uses the exam duration, a slot, a room, a professor, a generated date and its formation's students; exams plus failures number the modules; every module is placed or failed; with no repeated module, never both |
| Optimizer.GenerateExamSchedule | backend/optimizer.py:47-141 | the run over `START_DATE` .. `END_DATE`: the same guarantees, with every exam on one of the ten session days at one of the three slots |
| StudentTimetable.RowPairs | frontend/pages/student.py:140-146 | the pairs of one row have the row's exam first and a later exam second |
| StudentTimetable.PairsBefore | frontend/pages/student.py:139-146 | the pairs of the first n rows have a valid earlier exam first and a later exam second |
| StudentTimetable.ScanRow | frontend/pages/student.py:140-152 | the inner loop appends the records of row i's clashing pairs to what was found before |
| StudentTimetable.CheckExamConflicts | frontend/pages/student.py:135-154 | the k-th conflict is the record of the k-th clashing pair, one record per pair, with date, time and `module1` from the earlier exam and `module2` from the later |
| StudentTimetable.RowRecordsArePairRecords | frontend/pages/student.py:140-152 | a row's records are the records of its clashing pairs, in order |
| StudentTimetable.RecordsBeforeArePairRecords | frontend/pages/student.py:139-152 | the records of the first n rows are the records of their clashing pairs, in order |
| StudentTimetable.ConflictsArePairRecords | frontend/pages/student.py:139-154 | the conflict list is the records of all clashing pairs, in order |
| StudentTimetable.RowPairsExactly | frontend/pages/student.py:140-146 | a pair is in row i exactly when it is (i, j) with i < j and the same date and start time |
| StudentTimetable.PairsBeforeExactly | frontend/pages/student.py:139-146 | a pair is among the first n rows exactly when its first index is below n and the exams clash |
| StudentTimetable.ReportedExactlyTheClashes | frontend/pages/student.py:139-152 | (i, j) is reported exactly when i < j and the two exams have the same date and the same start time |
| StudentTimetable.DifferentStartsNeverReported | frontend/pages/student.py:141-146 | exams with different start times are never reported, even when their intervals overlap |
| StudentTimetable.RowPairsSorted | frontend/pages/student.py:140 | a row's pairs come out in increasing j |
| StudentTimetable.PairsBeforeSorted | frontend/pages/student.py:139-140 | the pairs of the first n rows come out ordered by i, then j |
| StudentTimetable.ReportedInScanOrder | frontend/pages/student.py:139-151 | records come out ordered by i, then j, and no pair is reported twice |
| StudentTimetable.RowPairsLength | frontend/pages/student.py:140 | row i yields at most n - 1 - i pairs |
| StudentTimetable.PairsBeforeLength | frontend/pages/student.py:139-140 | the first n rows yield at most the sum of their row lengths |
| StudentTimetable.AtMostOnePerPair | frontend/pages/student.py:139-140 | the number of records is at most n(n - 1)/2 |
| StudentTimetable.ShortTimetablesHaveNoConflicts | frontend/pages/student.py:137-154 | an empty or one-exam list yields no conflict |

## Left out

- The database layer is not part of this model. The `fetch_*` reads become the parameters `rooms`, `formations` and `professors`. `insert_exam` becomes appending a row to `inserted`. Every insert is taken to succeed: the store's own errors are not modelled.
- `clear_existing_exams` and every `print` are left out. The only output worth keeping is the "FAILED" message, and it becomes the `failed` list of module ids.
- GenerateExamSchedule: the source function has no parameters and reads the database itself. The model receives the fetched rows as parameters instead.
- The source's single `generate_exam_schedule` function is modelled as nested methods, one per loop level: `FindAvailableProf`, `ScheduleAtSlot`, `ScheduleModule` and `VisitModule` inside `ScheduleWithin`. The loop order, the `continue`s, the `break`s and the `scheduled` flag are kept.
- Rooms, professors and students are their ids only. Names (`nom`) appear only in `print` output.
- DistinctInOrder: the contract states that the keys are the professors' ids, each once. It does not state that they keep first-occurrence order, although the function computes that order. The first-free-professor guarantee is stated against this order.
- "State only grows" is proved for the module loop within one formation (`OnlyGrown`) and for each commit. It is not stated over the whole run.
- `check_exam_conflicts` leaves its input list unchanged. In the model that holds by value semantics, so no contract states it.
- The two-argument call of `generate_exam_schedule` in `frontend/pages/admin_dashboard.py` does not match the function's header and is not modelled.
- The per-day exam count in `frontend/pages/dashboard.py` and the rest of the UI pages are not modelled. They are presentation code.
- Time zones and microseconds are not modelled. A datetime here is a date ordinal and a minute of the day.
- GeneratePossibleDates: Python dates are limited to the years 1 to 9999, and `current += timedelta(days=1)` raises `OverflowError` when it steps past 9999-12-31. Integer dates never overflow, so the model does not capture that error.
- Room capacity, group splitting, per-day professor caps, fairness and backtracking are not modelled, because the code does not implement them.
