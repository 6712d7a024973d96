/**
 * The hard constraints an exam must satisfy against the exams already
 * placed (backend/conflict_detector.py). Every check is side-effect free and
 * answers a pass, or a failure carrying the reason the source reports.
 */
module ConflictDetector {
  import opened Calendar

  type ModuleId = int
  type RoomId = int
  type StudentId = int
  type ProfId = int

  /** One entry of the in-memory list `existing_exams`. */
  datatype Exam = Exam(
    moduleId: ModuleId,        // "module_id"
    roomId: RoomId,            // "salle_id"
    start: DateTime,           // "date_heure"
    duration: int,             // "duree_minutes"
    students: set<StudentId>,  // "students"
    profId: ProfId)            // "prof_id"

  datatype Reason = FridayForbidden | RoomAlreadyUsed | ModuleAlreadyHasExam | StudentConflictSameDay

  /** The `(ok, reason)` pair every check returns: `(True, None)` or `(False, reason)`. */
  datatype Check = Pass | Fail(reason: Reason)

  /** The reason strings exactly as the source spells them. */
  function Message(r: Reason): string
  {
    match r
    case FridayForbidden => "Friday is forbidden"
    case RoomAlreadyUsed => "Room already used"
    case ModuleAlreadyHasExam => "Module already has an exam"
    case StudentConflictSameDay => "Student conflict same day"
  }

  /** Distinct reasons are reported with distinct strings, so a message identifies its check. */
  lemma MessageInjective(a: Reason, b: Reason)
    ensures Message(a) == Message(b) ==> a == b
  {
  }

  // ---------------------------------------------------------------------
  // Time utilities
  // ---------------------------------------------------------------------

  predicate IsFriday(dateHeure: DateTime)
  {
    Weekday(dateHeure.date) == 4
  }

  function Max(a: int, b: int): int { if a < b then b else a }

  function Min(a: int, b: int): int { if a < b then a else b }

  /**
   * `overlap(start1, dur1, start2, dur2)`: the half-open intervals
   * [start, start + dur) share some minute, tested as max(starts) < min(ends).
   */
  predicate Overlap(start1: DateTime, dur1: int, start2: DateTime, dur2: int)
  {
    var s1, s2 := Instant(start1), Instant(start2);
    Max(s1, s2) < Min(s1 + dur1, s2 + dur2)
  }

  /** Minute `t` lies in the half-open interval that starts at `s` and lasts `d` minutes. */
  predicate Within(t: int, s: DateTime, d: int)
  {
    Instant(s) <= t < Instant(s) + d
  }

  /** The overlap test means exactly that the two intervals share a minute. */
  lemma {:induction false} OverlapIffSharedMinute(start1: DateTime, dur1: int, start2: DateTime, dur2: int)
    ensures Overlap(start1, dur1, start2, dur2) <==> exists t :: Within(t, start1, dur1) && Within(t, start2, dur2)
  {
    var s1, s2 := Instant(start1), Instant(start2);
    if Overlap(start1, dur1, start2, dur2) {
      assert Within(Max(s1, s2), start1, dur1) && Within(Max(s1, s2), start2, dur2);
    }
  }

  lemma OverlapSymmetric(start1: DateTime, dur1: int, start2: DateTime, dur2: int)
    ensures Overlap(start1, dur1, start2, dur2) == Overlap(start2, dur2, start1, dur1)
  {
  }

  /** Back-to-back exams do not overlap, in either order. */
  lemma BackToBackDoNotOverlap(start1: DateTime, dur1: int, start2: DateTime, dur2: int)
    requires Instant(start1) + dur1 == Instant(start2)
    ensures !Overlap(start1, dur1, start2, dur2) && !Overlap(start2, dur2, start1, dur1)
  {
  }

  /** An interval of no length overlaps nothing. */
  lemma EmptyIntervalOverlapsNothing(start1: DateTime, dur1: int, start2: DateTime, dur2: int)
    requires dur1 <= 0
    ensures !Overlap(start1, dur1, start2, dur2) && !Overlap(start2, dur2, start1, dur1)
  {
  }

  /** Two exams of positive length that start together always overlap. */
  lemma SameStartOverlaps(start: DateTime, dur1: int, dur2: int)
    requires dur1 > 0 && dur2 > 0
    ensures Overlap(start, dur1, start, dur2)
  {
  }

  // ---------------------------------------------------------------------
  // Constraints
  // ---------------------------------------------------------------------

  // The three list constraints, stated on their own (the checks below compute them).

  predicate HasRoomClash(existing: seq<Exam>, roomId: RoomId, dateHeure: DateTime, duree: int)
  {
    exists i :: 0 <= i < |existing| && RoomClash(existing[i], roomId, dateHeure, duree)
  }

  predicate HasModule(existing: seq<Exam>, moduleId: ModuleId)
  {
    exists i :: 0 <= i < |existing| && existing[i].moduleId == moduleId
  }

  predicate HasStudentClash(existing: seq<Exam>, moduleStudents: set<StudentId>, dateHeure: DateTime)
  {
    exists i :: 0 <= i < |existing| && StudentClash(existing[i], moduleStudents, dateHeure)
  }

  function NoFridayConstraint(dateHeure: DateTime): (r: Check)
    ensures r != Pass <==> Weekday(dateHeure.date) == 4
    ensures r != Pass ==> r == Fail(FridayForbidden)
  {
    if IsFriday(dateHeure) then Fail(FridayForbidden) else Pass
  }

  /** Exam `e` uses room `roomId` during part of [dateHeure, dateHeure + duree). */
  predicate RoomClash(e: Exam, roomId: RoomId, dateHeure: DateTime, duree: int)
  {
    e.roomId == roomId && Overlap(dateHeure, duree, e.start, e.duration)
  }

  function RoomNotOccupied(existing: seq<Exam>, roomId: RoomId, dateHeure: DateTime, duree: int): (r: Check)
    ensures r != Pass <==> HasRoomClash(existing, roomId, dateHeure, duree)
    ensures r != Pass ==> r == Fail(RoomAlreadyUsed)
  {
    if existing == [] then Pass
    else if existing[0].roomId == roomId && Overlap(dateHeure, duree, existing[0].start, existing[0].duration) then
      Fail(RoomAlreadyUsed)
    else
      var rest := RoomNotOccupied(existing[1..], roomId, dateHeure, duree);
      assert forall i :: 1 <= i < |existing| ==> existing[i] == existing[1..][i - 1];
      rest
  }

  function ModuleOnlyOnce(existing: seq<Exam>, moduleId: ModuleId): (r: Check)
    ensures r != Pass <==> HasModule(existing, moduleId)
    ensures r != Pass ==> r == Fail(ModuleAlreadyHasExam)
  {
    if existing == [] then Pass
    else if existing[0].moduleId == moduleId then Fail(ModuleAlreadyHasExam)
    else
      var rest := ModuleOnlyOnce(existing[1..], moduleId);
      assert forall i :: 1 <= i < |existing| ==> existing[i] == existing[1..][i - 1];
      rest
  }

  /** Exam `e` falls on the calendar day of `dateHeure` and some student sits both. */
  predicate StudentClash(e: Exam, moduleStudents: set<StudentId>, dateHeure: DateTime)
  {
    e.start.date == dateHeure.date && exists s :: s in e.students && s in moduleStudents
  }

  /** A non-empty intersection (the source's truth test on a set) has a common element. */
  lemma SharedStudent(a: set<StudentId>, b: set<StudentId>)
    requires a * b != {}
    ensures exists s :: s in a && s in b
  {
    if forall s :: s !in a * b {
      assert false;
    }
  }

  function StudentsOneExamPerDay(existing: seq<Exam>, moduleStudents: set<StudentId>, dateHeure: DateTime): (r: Check)
    ensures r != Pass <==> HasStudentClash(existing, moduleStudents, dateHeure)
    ensures r != Pass ==> r == Fail(StudentConflictSameDay)
  {
    if existing == [] then Pass
    else if existing[0].start.date == dateHeure.date && existing[0].students * moduleStudents != {} then
      SharedStudent(existing[0].students, moduleStudents);
      Fail(StudentConflictSameDay)
    else
      var rest := StudentsOneExamPerDay(existing[1..], moduleStudents, dateHeure);
      assert !StudentClash(existing[0], moduleStudents, dateHeure) by {
        if existing[0].start.date == dateHeure.date {
          assert forall s :: s in existing[0].students && s in moduleStudents ==> s in existing[0].students * moduleStudents;
        }
      }
      assert forall i :: 1 <= i < |existing| ==> existing[i] == existing[1..][i - 1];
      rest
  }

  // ---------------------------------------------------------------------
  // Global validation
  // ---------------------------------------------------------------------

  /** The `for ok, reason in checks` loop: the first failing check, or a pass. */
  function FirstFailure(checks: seq<Check>): (r: Check)
    ensures r == Pass <==> forall i :: 0 <= i < |checks| ==> checks[i] == Pass
    ensures r != Pass ==> exists i :: 0 <= i < |checks| && checks[i] == r && forall j :: 0 <= j < i ==> checks[j] == Pass
  {
    if checks == [] then Pass
    else if checks[0] != Pass then checks[0]
    else
      var rest := FirstFailure(checks[1..]);
      assert forall i :: 1 <= i < |checks| ==> checks[i] == checks[1..][i - 1];
      assert rest != Pass ==> exists i :: 1 <= i < |checks| && checks[i] == rest && forall j :: 0 <= j < i ==> checks[j] == Pass by {
        if rest != Pass {
          var k :| 0 <= k < |checks[1..]| && checks[1..][k] == rest && forall j :: 0 <= j < k ==> checks[1..][j] == Pass;
          assert checks[k + 1] == rest && forall j :: 0 <= j < k + 1 ==> checks[j] == Pass;
        }
      }
      rest
  }

  /** On a list of four checks the loop picks the first failure, from left to right. */
  lemma FirstFailureOfFour(checks: seq<Check>)
    requires |checks| == 4
    ensures FirstFailure(checks) ==
      if checks[0] != Pass then checks[0]
      else if checks[1] != Pass then checks[1]
      else if checks[2] != Pass then checks[2]
      else checks[3]
  {
    assert checks[1..][1..] == checks[2..];
    assert checks[2..][1..] == checks[3..];
    assert checks[3..][1..] == [];
  }

  /**
   * `is_exam_valid`: pass exactly when all four constraints hold; otherwise
   * the reason of the first violated one, in the order Friday, module, room,
   * students.
   */
  function IsExamValid(existing: seq<Exam>, moduleId: ModuleId, moduleStudents: set<StudentId>,
                       roomId: RoomId, dateHeure: DateTime, duree: int): (r: Check)
    ensures r == Pass <==>
      && !IsFriday(dateHeure)
      && !HasModule(existing, moduleId)
      && !HasRoomClash(existing, roomId, dateHeure, duree)
      && !HasStudentClash(existing, moduleStudents, dateHeure)
    ensures r == Fail(FridayForbidden) <==> IsFriday(dateHeure)
    ensures r == Fail(ModuleAlreadyHasExam) <==> !IsFriday(dateHeure) && HasModule(existing, moduleId)
    ensures r == Fail(RoomAlreadyUsed) <==>
      !IsFriday(dateHeure) && !HasModule(existing, moduleId) && HasRoomClash(existing, roomId, dateHeure, duree)
    ensures r == Fail(StudentConflictSameDay) <==>
      && !IsFriday(dateHeure)
      && !HasModule(existing, moduleId)
      && !HasRoomClash(existing, roomId, dateHeure, duree)
      && HasStudentClash(existing, moduleStudents, dateHeure)
  {
    var checks := [
      NoFridayConstraint(dateHeure),
      ModuleOnlyOnce(existing, moduleId),
      RoomNotOccupied(existing, roomId, dateHeure, duree),
      StudentsOneExamPerDay(existing, moduleStudents, dateHeure)
    ];
    FirstFailureOfFour(checks);
    FirstFailure(checks)
  }

  // ---------------------------------------------------------------------
  // Properties of the checks
  // ---------------------------------------------------------------------

  /** Exams in other rooms never make a room look occupied. */
  lemma {:induction false} OtherRoomsNeverBlock(existing: seq<Exam>, others: seq<Exam>, roomId: RoomId, dateHeure: DateTime, duree: int)
    requires forall i :: 0 <= i < |others| ==> others[i].roomId != roomId
    ensures RoomNotOccupied(existing + others, roomId, dateHeure, duree) == RoomNotOccupied(existing, roomId, dateHeure, duree)
  {
    var all := existing + others;
    assert forall i :: 0 <= i < |existing| ==> all[i] == existing[i];
    assert forall i :: |existing| <= i < |all| ==> all[i] == others[i - |existing|];
    assert HasRoomClash(all, roomId, dateHeure, duree) == HasRoomClash(existing, roomId, dateHeure, duree);
  }

  /** Exams on other days, or with no student in common, never cause a student conflict. */
  lemma {:induction false} UnrelatedExamsNeverConflict(existing: seq<Exam>, moduleStudents: set<StudentId>, dateHeure: DateTime)
    requires forall i :: 0 <= i < |existing| ==>
      existing[i].start.date != dateHeure.date || existing[i].students !! moduleStudents
    ensures StudentsOneExamPerDay(existing, moduleStudents, dateHeure) == Pass
  {
    forall i | 0 <= i < |existing|
      ensures !StudentClash(existing[i], moduleStudents, dateHeure)
    {
      assert forall s :: s in existing[i].students ==> s !in moduleStudents || existing[i].start.date != dateHeure.date;
    }
  }
}
