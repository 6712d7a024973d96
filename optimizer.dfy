/**
 * The greedy first-fit exam scheduler (backend/optimizer.py).
 *
 * The database reads become inputs: the rooms, the formations with their
 * modules and students, the professors. Each `insert_exam` call becomes one
 * row appended to the output `inserted`, and each module reported as failed
 * is appended to `failed`. The in-memory list `existing_exams` and the map
 * `prof_schedule` are local state of the run, threaded through `VisitModule`
 * as parameters and results; the dict's iteration order is kept apart, as the
 * sequence `profOrder`.
 */
module Optimizer {
  import opened Wrappers
  import opened Calendar
  import opened ConflictDetector

  // ---------------------------------------------------------------------
  // Parameters
  // ---------------------------------------------------------------------

  /** `EXAM_DURATION`, in minutes. */
  const ExamDuration: int := 90

  /** `TIME_SLOTS`: 08:30, 10:30 and 13:30. */
  const TimeSlots: seq<Time> := [Clock(8, 30), Clock(10, 30), Clock(13, 30)]

  /** `START_DATE = datetime(2026, 1, 6)`, a Tuesday. */
  const StartDate: DateTime := DateTime(739622, 0)

  /** `END_DATE = datetime(2026, 1, 21)`, a Wednesday. */
  const EndDate: DateTime := DateTime(739637, 0)

  /** A professor's busy mark: `(date_heure.date(), date_heure.time())`. */
  type SlotKey = (Date, Time)

  /** A formation as the data provider gives it: its modules and its students, in fetch order. */
  datatype Formation = Formation(id: int, modules: seq<ModuleId>, students: seq<StudentId>)

  /** The arguments of one `insert_exam` call. */
  datatype ExamRow = ExamRow(moduleId: ModuleId, profId: ProfId, roomId: RoomId,
                             dateExam: Date, heureDebut: Time, duration: int)

  function RowOf(e: Exam): ExamRow
  {
    ExamRow(e.moduleId, e.profId, e.roomId, e.start.date, e.start.time, e.duration)
  }

  function KeyOf(e: Exam): SlotKey
  {
    (e.start.date, e.start.time)
  }

  /** `{s["id"] for s in students}`. */
  function StudentSet(f: Formation): set<StudentId>
  {
    set s | s in f.students
  }

  // ---------------------------------------------------------------------
  // Date generator (Monday to Thursday)
  // ---------------------------------------------------------------------

  /** Day `d` is visited by the generator (same clock time as `start`, not after `end`) and is Monday to Thursday. */
  predicate PossibleDate(start: DateTime, end: DateTime, d: Date)
  {
    start.date <= d && NotAfter(DateTime(d, start.time), end) && Weekday(d) < 4
  }

  /** `generate_possible_dates`: every Monday-to-Thursday date from `start` to `end`, in increasing order. */
  method GeneratePossibleDates(start: DateTime, end: DateTime) returns (dates: seq<Date>)
    ensures forall k :: 0 <= k < |dates| ==> PossibleDate(start, end, dates[k])
    ensures forall d :: PossibleDate(start, end, d) ==> d in dates
    ensures forall j, k :: 0 <= j < k < |dates| ==> dates[j] < dates[k]
    ensures !NotAfter(start, end) ==> dates == []
  {
    dates := [];
    var current := start;
    while NotAfter(current, end)
      invariant current.time == start.time && start.date <= current.date
      invariant forall k :: 0 <= k < |dates| ==> PossibleDate(start, end, dates[k]) && dates[k] < current.date
      invariant forall d :: start.date <= d < current.date && PossibleDate(start, end, d) ==> d in dates
      invariant forall j, k :: 0 <= j < k < |dates| ==> dates[j] < dates[k]
      invariant !NotAfter(start, end) ==> dates == []
      decreases end.date - current.date + 1
    {
      NotAfterIsLexicographic(current, end);
      if Weekday(current.date) < 4 {
        dates := dates + [current.date];
      }
      current := NextDay(current);
    }
    forall d | PossibleDate(start, end, d)
      ensures d in dates
    {
      if d >= current.date {
        NotAfterIsLexicographic(current, end);
        NotAfterIsLexicographic(DateTime(d, start.time), end);
      }
    }
  }

  /** Since every generated date is Monday to Thursday, the Friday ban never rejects a scheduler candidate. */
  lemma GeneratedDatesAreNeverFriday(start: DateTime, end: DateTime, d: Date, t: Time)
    requires PossibleDate(start, end, d)
    ensures NoFridayConstraint(DateTime(d, t)) == Pass
  {
  }

  /** The Monday-to-Thursday days from 2026-01-06 to 2026-01-21, as ordinals. */
  const SessionDays: seq<Date> := [739622, 739623, 739624, 739628, 739629, 739630, 739631, 739635, 739636, 739637]

  /** With the module's own window the generator offers exactly the ten session days. */
  lemma {:induction false} SessionDaysOfTheWindow(d: Date)
    ensures PossibleDate(StartDate, EndDate, d) <==> d in SessionDays
  {
    if 739622 <= d <= 739637 {
      assert Weekday(d) == (d - 739622 + 1) % 7;
    } else {
      assert !(StartDate.date <= d && NotAfter(DateTime(d, StartDate.time), EndDate));
    }
  }

  // ---------------------------------------------------------------------
  // Professors
  // ---------------------------------------------------------------------

  /** The keys of `{prof["id"]: set() for prof in professors}` in the dict's iteration order (first occurrence). */
  function DistinctInOrder(xs: seq<ProfId>): (r: seq<ProfId>)
    ensures forall x :: x in r <==> x in xs
    ensures forall i, j :: 0 <= i < j < |r| ==> r[i] != r[j]
  {
    if xs == [] then []
    else
      var r := DistinctInOrder(xs[..|xs| - 1]);
      assert forall x :: x in xs <==> x in xs[..|xs| - 1] || x == xs[|xs| - 1];
      if xs[|xs| - 1] in r then r else r + [xs[|xs| - 1]]
  }

  predicate IsFree(profSchedule: map<ProfId, set<SlotKey>>, p: ProfId, key: SlotKey)
  {
    p in profSchedule && key !in profSchedule[p]
  }

  predicate HasFreeProf(profOrder: seq<ProfId>, profSchedule: map<ProfId, set<SlotKey>>, key: SlotKey)
  {
    exists i :: 0 <= i < |profOrder| && IsFree(profSchedule, profOrder[i], key)
  }

  /** `p` is free at `key` and every professor before it in iteration order is busy then. */
  predicate IsFirstFree(profOrder: seq<ProfId>, profSchedule: map<ProfId, set<SlotKey>>, key: SlotKey, p: ProfId)
  {
    exists i :: 0 <= i < |profOrder| && profOrder[i] == p && IsFree(profSchedule, p, key) &&
      forall j :: 0 <= j < i ==> !IsFree(profSchedule, profOrder[j], key)
  }

  /** The `for prof_id in prof_schedule` loop: the first professor free at `key`, if any. */
  method FindAvailableProf(profOrder: seq<ProfId>, profSchedule: map<ProfId, set<SlotKey>>, key: SlotKey)
    returns (availableProf: Option<ProfId>)
    requires forall i :: 0 <= i < |profOrder| ==> profOrder[i] in profSchedule
    ensures availableProf == None <==> !HasFreeProf(profOrder, profSchedule, key)
    ensures availableProf != None ==> IsFirstFree(profOrder, profSchedule, key, availableProf.value)
  {
    availableProf := None;
    for i := 0 to |profOrder|
      invariant availableProf == None
      invariant forall j :: 0 <= j < i ==> !IsFree(profSchedule, profOrder[j], key)
    {
      var profId := profOrder[i];
      if key !in profSchedule[profId] {
        availableProf := Some(profId);
        break;
      }
    }
  }

  // ---------------------------------------------------------------------
  // Placing one module
  // ---------------------------------------------------------------------

  /** A candidate (date, slot, room) passes `is_exam_valid` and some professor is free then. */
  predicate Fits(existing: seq<Exam>, profOrder: seq<ProfId>, profSchedule: map<ProfId, set<SlotKey>>,
                 moduleId: ModuleId, students: set<StudentId>, date: Date, slot: Time, roomId: RoomId)
  {
    && IsExamValid(existing, moduleId, students, roomId, DateTime(date, slot), ExamDuration) == Pass
    && HasFreeProf(profOrder, profSchedule, (date, slot))
  }

  /** Candidate (a, b, c) precedes (a', b', c') in the order dates x slots x rooms. */
  predicate Earlier(a: int, b: int, c: int, a': int, b': int, c': int)
  {
    a < a' || (a == a' && (b < b' || (b == b' && c < c')))
  }

  /** No candidate before (a, b, c) fits. */
  predicate NoneFitsBefore(existing: seq<Exam>, profOrder: seq<ProfId>, profSchedule: map<ProfId, set<SlotKey>>,
                           moduleId: ModuleId, students: set<StudentId>, dates: seq<Date>, rooms: seq<RoomId>,
                           a: int, b: int, c: int)
  {
    forall a', b', c' ::
      0 <= a' < |dates| && 0 <= b' < |TimeSlots| && 0 <= c' < |rooms| && Earlier(a', b', c', a, b, c) ==>
      !Fits(existing, profOrder, profSchedule, moduleId, students, dates[a'], TimeSlots[b'], rooms[c'])
  }

  /**
   * `exam` is what the scheduler places for the module at candidate (a, b, c):
   * the first candidate that fits, with the first free professor.
   */
  predicate IsFirstFit(existing: seq<Exam>, profOrder: seq<ProfId>, profSchedule: map<ProfId, set<SlotKey>>,
                       moduleId: ModuleId, students: set<StudentId>, dates: seq<Date>, rooms: seq<RoomId>,
                       a: int, b: int, c: int, exam: Exam)
  {
    && 0 <= a < |dates| && 0 <= b < |TimeSlots| && 0 <= c < |rooms|
    && Fits(existing, profOrder, profSchedule, moduleId, students, dates[a], TimeSlots[b], rooms[c])
    && NoneFitsBefore(existing, profOrder, profSchedule, moduleId, students, dates, rooms, a, b, c)
    && exam.moduleId == moduleId
    && exam.roomId == rooms[c]
    && exam.start == DateTime(dates[a], TimeSlots[b])
    && exam.duration == ExamDuration
    && exam.students == students
    && IsFirstFree(profOrder, profSchedule, (dates[a], TimeSlots[b]), exam.profId)
  }

  /** `exam` places the module at (date, slot) in `roomId` with the first professor free then. */
  predicate PlacedAt(profOrder: seq<ProfId>, profSchedule: map<ProfId, set<SlotKey>>,
                     moduleId: ModuleId, students: set<StudentId>, date: Date, slot: Time, roomId: RoomId, exam: Exam)
  {
    && exam.moduleId == moduleId
    && exam.roomId == roomId
    && exam.start == DateTime(date, slot)
    && exam.duration == ExamDuration
    && exam.students == students
    && IsFirstFree(profOrder, profSchedule, (date, slot), exam.profId)
  }

  /**
   * The `for room in rooms` loop at one date and slot: the exam placed in the
   * first room where the module fits, or nothing when it fits in none.
   */
  method ScheduleAtSlot(existing: seq<Exam>, profOrder: seq<ProfId>, profSchedule: map<ProfId, set<SlotKey>>,
                        moduleId: ModuleId, studentIds: set<StudentId>, examDate: Date, slot: Time, rooms: seq<RoomId>)
    returns (placed: Option<Exam>)
    requires forall i :: 0 <= i < |profOrder| ==> profOrder[i] in profSchedule
    ensures placed == None ==>
      forall c :: 0 <= c < |rooms| ==> !Fits(existing, profOrder, profSchedule, moduleId, studentIds, examDate, slot, rooms[c])
    ensures placed != None ==> exists c ::
      && 0 <= c < |rooms|
      && Fits(existing, profOrder, profSchedule, moduleId, studentIds, examDate, slot, rooms[c])
      && (forall c' :: 0 <= c' < c ==> !Fits(existing, profOrder, profSchedule, moduleId, studentIds, examDate, slot, rooms[c']))
      && PlacedAt(profOrder, profSchedule, moduleId, studentIds, examDate, slot, rooms[c], placed.value)
  {
    placed := None;
    var dateHeure := DateTime(examDate, slot);
    for ri := 0 to |rooms|
      invariant placed == None
      invariant forall c :: 0 <= c < ri ==> !Fits(existing, profOrder, profSchedule, moduleId, studentIds, examDate, slot, rooms[c])
    {
      var room := rooms[ri];
      var valid := IsExamValid(existing, moduleId, studentIds, room, dateHeure, ExamDuration);
      if valid != Pass {
        continue;
      }
      var availableProf := FindAvailableProf(profOrder, profSchedule, (dateHeure.date, dateHeure.time));
      if availableProf == None {
        continue;
      }
      placed := Some(Exam(moduleId, room, dateHeure, ExamDuration, studentIds, availableProf.value));
      assert PlacedAt(profOrder, profSchedule, moduleId, studentIds, examDate, slot, rooms[ri], placed.value);
      break;
    }
  }

  /** Proof step for the slot loop: rooms exhausted at (di, si) moves the frontier to the next slot. */
  lemma NoneFitsNextSlot(existing: seq<Exam>, profOrder: seq<ProfId>, profSchedule: map<ProfId, set<SlotKey>>,
                         moduleId: ModuleId, students: set<StudentId>, dates: seq<Date>, rooms: seq<RoomId>, di: int, si: int)
    requires 0 <= di < |dates| && 0 <= si < |TimeSlots|
    requires NoneFitsBefore(existing, profOrder, profSchedule, moduleId, students, dates, rooms, di, si, 0)
    requires forall c :: 0 <= c < |rooms| ==> !Fits(existing, profOrder, profSchedule, moduleId, students, dates[di], TimeSlots[si], rooms[c])
    ensures NoneFitsBefore(existing, profOrder, profSchedule, moduleId, students, dates, rooms, di, si + 1, 0)
  {
  }

  /** Proof step for the date loop: slots exhausted at di moves the frontier to the next date. */
  lemma NoneFitsNextDate(existing: seq<Exam>, profOrder: seq<ProfId>, profSchedule: map<ProfId, set<SlotKey>>,
                         moduleId: ModuleId, students: set<StudentId>, dates: seq<Date>, rooms: seq<RoomId>, di: int)
    requires 0 <= di < |dates|
    requires NoneFitsBefore(existing, profOrder, profSchedule, moduleId, students, dates, rooms, di, |TimeSlots|, 0)
    ensures NoneFitsBefore(existing, profOrder, profSchedule, moduleId, students, dates, rooms, di + 1, 0, 0)
  {
  }

  /** Proof step at a success: the first room that fits at the frontier is the first fit overall. */
  lemma FirstFitAtFrontier(existing: seq<Exam>, profOrder: seq<ProfId>, profSchedule: map<ProfId, set<SlotKey>>,
                           moduleId: ModuleId, students: set<StudentId>, dates: seq<Date>, rooms: seq<RoomId>,
                           di: int, si: int, c: int, exam: Exam)
    requires 0 <= di < |dates| && 0 <= si < |TimeSlots| && 0 <= c < |rooms|
    requires NoneFitsBefore(existing, profOrder, profSchedule, moduleId, students, dates, rooms, di, si, 0)
    requires Fits(existing, profOrder, profSchedule, moduleId, students, dates[di], TimeSlots[si], rooms[c])
    requires forall c' :: 0 <= c' < c ==> !Fits(existing, profOrder, profSchedule, moduleId, students, dates[di], TimeSlots[si], rooms[c'])
    requires PlacedAt(profOrder, profSchedule, moduleId, students, dates[di], TimeSlots[si], rooms[c], exam)
    ensures IsFirstFit(existing, profOrder, profSchedule, moduleId, students, dates, rooms, di, si, c, exam)
  {
  }

  /**
   * The date and slot loops of `generate_exam_schedule` for one module: the
   * exam placed at the first candidate that fits, or nothing when none does.
   */
  method ScheduleModule(existing: seq<Exam>, profOrder: seq<ProfId>, profSchedule: map<ProfId, set<SlotKey>>,
                        moduleId: ModuleId, studentIds: set<StudentId>, possibleDates: seq<Date>, rooms: seq<RoomId>)
    returns (placed: Option<Exam>)
    requires forall i :: 0 <= i < |profOrder| ==> profOrder[i] in profSchedule
    ensures placed == None ==>
      NoneFitsBefore(existing, profOrder, profSchedule, moduleId, studentIds, possibleDates, rooms, |possibleDates|, 0, 0)
    ensures placed != None ==> exists a, b, c ::
      IsFirstFit(existing, profOrder, profSchedule, moduleId, studentIds, possibleDates, rooms, a, b, c, placed.value)
  {
    placed := None;
    var scheduled := false;
    for di := 0 to |possibleDates|
      invariant !scheduled && placed == None
      invariant NoneFitsBefore(existing, profOrder, profSchedule, moduleId, studentIds, possibleDates, rooms, di, 0, 0)
    {
      var examDate := possibleDates[di];
      for si := 0 to |TimeSlots|
        invariant !scheduled && placed == None
        invariant NoneFitsBefore(existing, profOrder, profSchedule, moduleId, studentIds, possibleDates, rooms, di, si, 0)
      {
        var slot := TimeSlots[si];
        placed := ScheduleAtSlot(existing, profOrder, profSchedule, moduleId, studentIds, examDate, slot, rooms);
        if placed != None {
          ghost var c :|
            && 0 <= c < |rooms|
            && Fits(existing, profOrder, profSchedule, moduleId, studentIds, examDate, slot, rooms[c])
            && (forall c' :: 0 <= c' < c ==> !Fits(existing, profOrder, profSchedule, moduleId, studentIds, examDate, slot, rooms[c']))
            && PlacedAt(profOrder, profSchedule, moduleId, studentIds, examDate, slot, rooms[c], placed.value);
          FirstFitAtFrontier(existing, profOrder, profSchedule, moduleId, studentIds, possibleDates, rooms, di, si, c, placed.value);
          scheduled := true;
          break;
        }
        NoneFitsNextSlot(existing, profOrder, profSchedule, moduleId, studentIds, possibleDates, rooms, di, si);
      }
      if scheduled {
        break;
      }
      NoneFitsNextDate(existing, profOrder, profSchedule, moduleId, studentIds, possibleDates, rooms, di);
    }
  }

  // ---------------------------------------------------------------------
  // Properties of a whole schedule
  // ---------------------------------------------------------------------

  /** Every exam passed `is_exam_valid` against the list as it stood just before it was appended. */
  predicate AcceptedInOrder(exams: seq<Exam>)
  {
    forall k :: 0 <= k < |exams| ==>
      IsExamValid(exams[..k], exams[k].moduleId, exams[k].students, exams[k].roomId, exams[k].start, exams[k].duration) == Pass
  }

  /** The hard constraints of the checker, stated pairwise over a whole schedule. */
  predicate ScheduleValid(exams: seq<Exam>)
  {
    && (forall i :: 0 <= i < |exams| ==> !IsFriday(exams[i].start))
    && (forall i, j :: 0 <= i < j < |exams| ==> exams[i].moduleId != exams[j].moduleId)
    && (forall i, j :: 0 <= i < j < |exams| && exams[i].roomId == exams[j].roomId ==>
          !Overlap(exams[i].start, exams[i].duration, exams[j].start, exams[j].duration))
    && (forall i, j :: 0 <= i < j < |exams| && exams[i].start.date == exams[j].start.date ==>
          exams[i].students !! exams[j].students)
  }

  /** No professor supervises two exams at the same date and start time. */
  predicate ProfsNeverDoubleBooked(exams: seq<Exam>)
  {
    forall i, j :: 0 <= i < j < |exams| && exams[i].profId == exams[j].profId ==> exams[i].start != exams[j].start
  }

  /** Appending an exam that passed the checker against the current list keeps the list accepted in order. */
  lemma AcceptedInOrderAppend(exams: seq<Exam>, e: Exam)
    requires AcceptedInOrder(exams)
    requires IsExamValid(exams, e.moduleId, e.students, e.roomId, e.start, e.duration) == Pass
    ensures AcceptedInOrder(exams + [e])
  {
    var all := exams + [e];
    assert all[..|exams|] == exams;
    forall k | 0 <= k < |exams|
      ensures all[..k] == exams[..k] && all[k] == exams[k]
    {
    }
  }

  lemma NoSharedStudentIsDisjoint(a: set<StudentId>, b: set<StudentId>)
    requires !exists s :: s in a && s in b
    ensures a !! b
  {
    forall s | s in a
      ensures s !in b
    {
    }
  }

  /** Appending an exam that passes the checker keeps every constraint of the schedule. */
  lemma ValidAppend(prefix: seq<Exam>, e: Exam)
    requires ScheduleValid(prefix)
    requires IsExamValid(prefix, e.moduleId, e.students, e.roomId, e.start, e.duration) == Pass
    ensures ScheduleValid(prefix + [e])
  {
    var all := prefix + [e];
    assert !IsFriday(e.start);
    forall i | 0 <= i < |prefix|
      ensures all[i] == prefix[i]
      ensures prefix[i].moduleId != e.moduleId
      ensures prefix[i].roomId == e.roomId ==> !Overlap(prefix[i].start, prefix[i].duration, e.start, e.duration)
      ensures prefix[i].start.date == e.start.date ==> prefix[i].students !! e.students
    {
      assert !RoomClash(prefix[i], e.roomId, e.start, e.duration);
      OverlapSymmetric(prefix[i].start, prefix[i].duration, e.start, e.duration);
      assert !StudentClash(prefix[i], e.students, e.start);
      if prefix[i].start.date == e.start.date {
        NoSharedStudentIsDisjoint(prefix[i].students, e.students);
      }
    }
    assert all[|prefix|] == e;
  }

  /** A list built by accepted appends satisfies every constraint pairwise. */
  lemma {:induction false} AcceptedInOrderIsValid(exams: seq<Exam>)
    requires AcceptedInOrder(exams)
    ensures ScheduleValid(exams)
  {
    if exams != [] {
      var n := |exams| - 1;
      var prefix := exams[..n];
      assert AcceptedInOrder(prefix) by {
        forall k | 0 <= k < |prefix|
          ensures prefix[..k] == exams[..k] && prefix[k] == exams[k]
        {
        }
      }
      AcceptedInOrderIsValid(prefix);
      ValidAppend(prefix, exams[n]);
      assert prefix + [exams[n]] == exams;
    }
  }

  /**
   * Two modules of one formation share that formation's student set, so
   * when the formation has students they are never examined on the same day.
   */
  lemma SameCohortNeverSameDay(exams: seq<Exam>, i: int, j: int)
    requires ScheduleValid(exams)
    requires 0 <= i < j < |exams|
    requires exams[i].students == exams[j].students && exams[i].students != {}
    ensures exams[i].start.date != exams[j].start.date
  {
    assert exists s :: s in exams[i].students by {
      if forall s :: s !in exams[i].students {
        assert false;
      }
    }
    var s :| s in exams[i].students;
    assert s in exams[j].students;
  }

  // ---------------------------------------------------------------------
  // The modules of a run
  // ---------------------------------------------------------------------

  /** All modules in the order the formation and module loops visit them. */
  function AllModules(formations: seq<Formation>): seq<ModuleId>
  {
    if formations == [] then []
    else AllModules(formations[..|formations| - 1]) + formations[|formations| - 1].modules
  }

  predicate Distinct(xs: seq<ModuleId>)
  {
    forall i, j :: 0 <= i < j < |xs| ==> xs[i] != xs[j]
  }

  /** The modules of the first `k` formations come first among all modules. */
  lemma {:induction false} AllModulesPrefix(formations: seq<Formation>, k: int)
    requires 0 <= k <= |formations|
    ensures AllModules(formations[..k]) <= AllModules(formations)
  {
    if k < |formations| {
      var n := |formations| - 1;
      assert formations[..n][..k] == formations[..k];
      AllModulesPrefix(formations[..n], k);
      assert formations[..|formations|] == formations;
    } else {
      assert formations[..k] == formations;
    }
  }

  /** The exam `e` is for a module of some formation and seats that formation's students. */
  predicate FromFormation(formations: seq<Formation>, e: Exam)
  {
    exists f :: 0 <= f < |formations| && e.moduleId in formations[f].modules && e.students == StudentSet(formations[f])
  }

  /** The exam `e` uses the run's parameters: its duration, one of its slots, rooms, professors and dates. */
  predicate WellPlaced(e: Exam, rooms: seq<RoomId>, professors: seq<ProfId>, startDate: DateTime, endDate: DateTime)
  {
    && e.duration == ExamDuration
    && e.start.time in TimeSlots
    && e.roomId in rooms
    && e.profId in professors
    && PossibleDate(startDate, endDate, e.start.date)
  }

  /** `prof_schedule[p]` holds exactly the (date, time) of the exams `p` supervises. */
  ghost predicate TracksProfessors(profSchedule: map<ProfId, set<SlotKey>>, professors: seq<ProfId>, exams: seq<Exam>)
  {
    && (forall p :: p in profSchedule <==> p in professors)
    && (forall p, key :: p in profSchedule ==>
          (key in profSchedule[p] <==> exists i :: 0 <= i < |exams| && exams[i].profId == p && KeyOf(exams[i]) == key))
  }

  /** The part of the scheduler's state the formation and module loops keep invariant. */
  ghost predicate RunInvariant(rooms: seq<RoomId>, formations: seq<Formation>, professors: seq<ProfId>,
                               startDate: DateTime, endDate: DateTime, profOrder: seq<ProfId>,
                               profSchedule: map<ProfId, set<SlotKey>>, existing: seq<Exam>, inserted: seq<ExamRow>)
  {
    && AcceptedInOrder(existing)
    && ProfsNeverDoubleBooked(existing)
    && (forall i :: 0 <= i < |profOrder| ==> profOrder[i] in profSchedule)
    && TracksProfessors(profSchedule, professors, existing)
    && |inserted| == |existing|
    && (forall i :: 0 <= i < |existing| ==> inserted[i] == RowOf(existing[i]))
    && (forall i :: 0 <= i < |existing| ==>
          WellPlaced(existing[i], rooms, professors, startDate, endDate) && FromFormation(formations, existing[i]))
  }

  /**
   * Each module visited so far (`done`) has produced exactly one exam or one
   * failure report; with no repeated module, never both.
   */
  ghost predicate Accounted(done: seq<ModuleId>, all: seq<ModuleId>, existing: seq<Exam>, failed: seq<ModuleId>)
  {
    && |existing| + |failed| == |done|
    && (forall m :: m in done ==> m in failed || HasModule(existing, m))
    && (forall m :: m in failed ==> m in done)
    && (forall i :: 0 <= i < |existing| ==> existing[i].moduleId in done)
    && (Distinct(all) ==> forall k, i :: 0 <= k < |failed| && 0 <= i < |existing| ==> failed[k] != existing[i].moduleId)
  }

  /** Marking a free professor busy for the new exam keeps professors single-booked. */
  lemma CommitKeepsProfsSingleBooked(profSchedule: map<ProfId, set<SlotKey>>, professors: seq<ProfId>,
                                     existing: seq<Exam>, exam: Exam)
    requires ProfsNeverDoubleBooked(existing) && TracksProfessors(profSchedule, professors, existing)
    requires IsFree(profSchedule, exam.profId, KeyOf(exam))
    ensures ProfsNeverDoubleBooked(existing + [exam])
  {
    var exams' := existing + [exam];
    forall i | 0 <= i < |existing| && existing[i].profId == exam.profId
      ensures existing[i].start != exam.start
    {
      assert KeyOf(existing[i]) in profSchedule[exam.profId];
    }
    forall i, j | 0 <= i < j < |exams'| && exams'[i].profId == exams'[j].profId
      ensures exams'[i].start != exams'[j].start
    {
      assert exams'[i] == existing[i];
      if j < |existing| {
        assert exams'[j] == existing[j];
      }
    }
  }

  /** Adding the new exam's (date, time) to its professor's set keeps `prof_schedule` exact. */
  lemma CommitKeepsTracking(profSchedule: map<ProfId, set<SlotKey>>, professors: seq<ProfId>,
                            existing: seq<Exam>, exam: Exam)
    requires TracksProfessors(profSchedule, professors, existing)
    requires exam.profId in profSchedule
    ensures TracksProfessors(profSchedule[exam.profId := profSchedule[exam.profId] + {KeyOf(exam)}],
                             professors, existing + [exam])
  {
    var key := KeyOf(exam);
    var p := exam.profId;
    var exams' := existing + [exam];
    var sched' := profSchedule[p := profSchedule[p] + {key}];
    forall q, k | q in sched'
      ensures k in sched'[q] <==> exists i :: 0 <= i < |exams'| && exams'[i].profId == q && KeyOf(exams'[i]) == k
    {
      if k in sched'[q] {
        if q == p && k == key {
          assert exams'[|existing|] == exam;
        } else {
          var i :| 0 <= i < |existing| && existing[i].profId == q && KeyOf(existing[i]) == k;
          assert exams'[i] == existing[i];
        }
      }
      if exists i :: 0 <= i < |exams'| && exams'[i].profId == q && KeyOf(exams'[i]) == k {
        var i :| 0 <= i < |exams'| && exams'[i].profId == q && KeyOf(exams'[i]) == k;
        if i < |existing| {
          assert exams'[i] == existing[i];
        }
      }
    }
  }

  /** Committing the first fit (insert, append, mark the professor busy) keeps the run invariant. */
  lemma CommitKeepsInvariant(rooms: seq<RoomId>, formations: seq<Formation>, professors: seq<ProfId>,
                             startDate: DateTime, endDate: DateTime, profOrder: seq<ProfId>,
                             profSchedule: map<ProfId, set<SlotKey>>, existing: seq<Exam>, inserted: seq<ExamRow>,
                             possibleDates: seq<Date>, fi: int, moduleId: ModuleId, a: int, b: int, c: int, exam: Exam)
    requires RunInvariant(rooms, formations, professors, startDate, endDate, profOrder, profSchedule, existing, inserted)
    requires forall x :: x in profOrder <==> x in professors
    requires forall k :: 0 <= k < |possibleDates| ==> PossibleDate(startDate, endDate, possibleDates[k])
    requires 0 <= fi < |formations| && moduleId in formations[fi].modules
    requires IsFirstFit(existing, profOrder, profSchedule, moduleId, StudentSet(formations[fi]), possibleDates, rooms, a, b, c, exam)
    ensures RunInvariant(rooms, formations, professors, startDate, endDate, profOrder,
                         profSchedule[exam.profId := profSchedule[exam.profId] + {KeyOf(exam)}],
                         existing + [exam], inserted + [RowOf(exam)])
  {
    var key := KeyOf(exam);
    var p := exam.profId;
    var i0 :| 0 <= i0 < |profOrder| && profOrder[i0] == p && IsFree(profSchedule, p, key) &&
      forall j :: 0 <= j < i0 ==> !IsFree(profSchedule, profOrder[j], key);
    assert p in profOrder;
    AcceptedInOrderAppend(existing, exam);
    CommitKeepsProfsSingleBooked(profSchedule, professors, existing, exam);
    CommitKeepsTracking(profSchedule, professors, existing, exam);
    assert WellPlaced(exam, rooms, professors, startDate, endDate);
    assert FromFormation(formations, exam);
    var exams', rows' := existing + [exam], inserted + [RowOf(exam)];
    forall i | 0 <= i < |exams'|
      ensures rows'[i] == RowOf(exams'[i])
      ensures WellPlaced(exams'[i], rooms, professors, startDate, endDate) && FromFormation(formations, exams'[i])
    {
      if i < |existing| {
        assert exams'[i] == existing[i] && rows'[i] == inserted[i];
      }
    }
  }

  /** Nothing recorded in (`existing0`, `profSchedule0`) is missing from (`existing`, `profSchedule`). */
  ghost predicate OnlyGrown(existing0: seq<Exam>, profSchedule0: map<ProfId, set<SlotKey>>,
                            existing: seq<Exam>, profSchedule: map<ProfId, set<SlotKey>>)
  {
    && existing0 <= existing
    && forall p :: p in profSchedule0 ==> p in profSchedule && profSchedule0[p] <= profSchedule[p]
  }

  /** A commit appends one exam and adds one busy mark: it never removes anything. */
  lemma CommitOnlyGrows(existing0: seq<Exam>, profSchedule0: map<ProfId, set<SlotKey>>,
                        existing: seq<Exam>, profSchedule: map<ProfId, set<SlotKey>>, exam: Exam)
    requires OnlyGrown(existing0, profSchedule0, existing, profSchedule)
    requires exam.profId in profSchedule
    ensures OnlyGrown(existing0, profSchedule0, existing + [exam],
                      profSchedule[exam.profId := profSchedule[exam.profId] + {(exam.start.date, exam.start.time)}])
  {
  }

  /** Recording a placed module keeps every visited module accounted for. */
  lemma AccountPlaced(done: seq<ModuleId>, all: seq<ModuleId>, existing: seq<Exam>, failed: seq<ModuleId>, exam: Exam)
    requires Accounted(done, all, existing, failed)
    requires Distinct(all) ==> exam.moduleId !in done
    ensures Accounted(done + [exam.moduleId], all, existing + [exam], failed)
  {
    var exams' := existing + [exam];
    assert HasModule(exams', exam.moduleId) by {
      assert exams'[|existing|] == exam;
    }
    forall m | m in done && HasModule(existing, m)
      ensures HasModule(exams', m)
    {
      var i :| 0 <= i < |existing| && existing[i].moduleId == m;
      assert exams'[i] == existing[i];
    }
    forall i | 0 <= i < |exams'|
      ensures exams'[i].moduleId in done + [exam.moduleId]
    {
      if i < |existing| {
        assert exams'[i] == existing[i];
      }
    }
  }

  /** Recording a failed module keeps every visited module accounted for. */
  lemma AccountFailed(done: seq<ModuleId>, all: seq<ModuleId>, existing: seq<Exam>, failed: seq<ModuleId>, moduleId: ModuleId)
    requires Accounted(done, all, existing, failed)
    requires Distinct(all) ==> moduleId !in done
    ensures Accounted(done + [moduleId], all, existing, failed + [moduleId])
  {
    var failed' := failed + [moduleId];
    forall k, i | 0 <= k < |failed'| && 0 <= i < |existing| && Distinct(all)
      ensures failed'[k] != existing[i].moduleId
    {
      if k < |failed| {
        assert failed'[k] == failed[k];
      }
    }
  }

  // ---------------------------------------------------------------------
  // Main optimizer
  // ---------------------------------------------------------------------

  /** Growth composes. */
  lemma OnlyGrownTransitive(e0: seq<Exam>, s0: map<ProfId, set<SlotKey>>, e1: seq<Exam>, s1: map<ProfId, set<SlotKey>>,
                            e2: seq<Exam>, s2: map<ProfId, set<SlotKey>>)
    requires OnlyGrown(e0, s0, e1, s1) && OnlyGrown(e1, s1, e2, s2)
    ensures OnlyGrown(e0, s0, e2, s2)
  {
  }

  /**
   * One turn of the `for module in modules` loop: search the first fit, then
   * either insert it, append it and mark its professor busy, or report the
   * module as failed.
   */
  method VisitModule(rooms: seq<RoomId>, formations: seq<Formation>, professors: seq<ProfId>,
                     startDate: DateTime, endDate: DateTime, profOrder: seq<ProfId>, possibleDates: seq<Date>,
                     fi: int, moduleId: ModuleId, studentIds: set<StudentId>, ghost all: seq<ModuleId>, ghost done: seq<ModuleId>,
                     existing: seq<Exam>, inserted: seq<ExamRow>, failed: seq<ModuleId>, profSchedule: map<ProfId, set<SlotKey>>)
    returns (placed: Option<Exam>, existing': seq<Exam>, inserted': seq<ExamRow>, failed': seq<ModuleId>,
             profSchedule': map<ProfId, set<SlotKey>>)
    requires RunInvariant(rooms, formations, professors, startDate, endDate, profOrder, profSchedule, existing, inserted)
    requires Accounted(done, all, existing, failed)
    requires forall x :: x in profOrder <==> x in professors
    requires forall k :: 0 <= k < |possibleDates| ==> PossibleDate(startDate, endDate, possibleDates[k])
    requires 0 <= fi < |formations| && moduleId in formations[fi].modules && studentIds == StudentSet(formations[fi])
    requires Distinct(all) ==> moduleId !in done
    ensures RunInvariant(rooms, formations, professors, startDate, endDate, profOrder, profSchedule', existing', inserted')
    ensures Accounted(done + [moduleId], all, existing', failed')
    ensures OnlyGrown(existing, profSchedule, existing', profSchedule')
    ensures placed == None ==>
      && NoneFitsBefore(existing, profOrder, profSchedule, moduleId, studentIds, possibleDates, rooms, |possibleDates|, 0, 0)
      && existing' == existing && inserted' == inserted && profSchedule' == profSchedule && failed' == failed + [moduleId]
    ensures placed != None ==>
      && (exists a, b, c :: IsFirstFit(existing, profOrder, profSchedule, moduleId, studentIds, possibleDates, rooms, a, b, c, placed.value))
      && existing' == existing + [placed.value] && inserted' == inserted + [RowOf(placed.value)] && failed' == failed
      && profSchedule' == profSchedule[placed.value.profId := profSchedule[placed.value.profId] + {KeyOf(placed.value)}]
  {
    placed := ScheduleModule(existing, profOrder, profSchedule, moduleId, studentIds, possibleDates, rooms);
    if placed != None {
      var exam := placed.value;
      ghost var a, b, c :| IsFirstFit(existing, profOrder, profSchedule, moduleId, studentIds, possibleDates, rooms, a, b, c, exam);
      CommitKeepsInvariant(rooms, formations, professors, startDate, endDate, profOrder, profSchedule,
                           existing, inserted, possibleDates, fi, moduleId, a, b, c, exam);
      AccountPlaced(done, all, existing, failed, exam);
      CommitOnlyGrows(existing, profSchedule, existing, profSchedule, exam);
      inserted' := inserted + [RowOf(exam)];
      existing' := existing + [exam];
      profSchedule' := profSchedule[exam.profId := profSchedule[exam.profId] + {(exam.start.date, exam.start.time)}];
      failed' := failed;
    } else {
      AccountFailed(done, all, existing, failed, moduleId);
      existing', inserted', profSchedule' := existing, inserted, profSchedule;
      failed' := failed + [moduleId];
    }
  }

  /**
   * The body of `generate_exam_schedule`, with the database reads as
   * parameters and the date window explicit. Returns the in-memory schedule,
   * the rows handed to `insert_exam` in order, and the modules reported as
   * failed.
   */
  method ScheduleWithin(rooms: seq<RoomId>, formations: seq<Formation>, professors: seq<ProfId>,
                              startDate: DateTime, endDate: DateTime)
    returns (existing: seq<Exam>, inserted: seq<ExamRow>, failed: seq<ModuleId>)
    ensures AcceptedInOrder(existing)
    ensures ScheduleValid(existing)
    ensures ProfsNeverDoubleBooked(existing)
    ensures |inserted| == |existing| && forall i :: 0 <= i < |existing| ==> inserted[i] == RowOf(existing[i])
    ensures forall i :: 0 <= i < |existing| ==>
      WellPlaced(existing[i], rooms, professors, startDate, endDate) && FromFormation(formations, existing[i])
    ensures |existing| + |failed| == |AllModules(formations)|
    ensures forall m :: m in AllModules(formations) ==> m in failed || HasModule(existing, m)
    ensures forall m :: m in failed ==> m in AllModules(formations)
    ensures Distinct(AllModules(formations)) ==>
      forall k, i :: 0 <= k < |failed| && 0 <= i < |existing| ==> failed[k] != existing[i].moduleId
  {
    var profOrder := DistinctInOrder(professors);
    var profSchedule: map<ProfId, set<SlotKey>> := map p | p in professors :: {};
    var possibleDates := GeneratePossibleDates(startDate, endDate);
    existing, inserted, failed := [], [], [];
    ghost var all := AllModules(formations);

    for fi := 0 to |formations|
      invariant RunInvariant(rooms, formations, professors, startDate, endDate, profOrder, profSchedule, existing, inserted)
      invariant Accounted(AllModules(formations[..fi]), all, existing, failed)
    {
      var formation := formations[fi];
      var modules := formation.modules;
      var studentIds := StudentSet(formation);
      ghost var before := AllModules(formations[..fi]);
      assert formations[..fi + 1][..fi] == formations[..fi];
      assert AllModules(formations[..fi + 1]) == before + modules;
      AllModulesPrefix(formations, fi + 1);
      ghost var existing0, profSchedule0 := existing, profSchedule;

      for mi := 0 to |modules|
        invariant RunInvariant(rooms, formations, professors, startDate, endDate, profOrder, profSchedule, existing, inserted)
        invariant Accounted(before + modules[..mi], all, existing, failed)
        invariant OnlyGrown(existing0, profSchedule0, existing, profSchedule)
      {
        var moduleId := modules[mi];
        ghost var done := before + modules[..mi];
        assert before + modules[..mi + 1] == done + [moduleId];
        assert Distinct(all) ==> moduleId !in done by {
          if Distinct(all) {
            NewModuleNotDone(all, before + modules, |done|);
            assert (before + modules)[|done|] == moduleId;
            assert (before + modules)[..|done|] == done;
          }
        }
        ghost var existing1, profSchedule1 := existing, profSchedule;
        var placed;
        placed, existing, inserted, failed, profSchedule :=
          VisitModule(rooms, formations, professors, startDate, endDate, profOrder, possibleDates,
                      fi, moduleId, studentIds, all, done, existing, inserted, failed, profSchedule);
        OnlyGrownTransitive(existing0, profSchedule0, existing1, profSchedule1, existing, profSchedule);
      }
      assert modules[..|modules|] == modules;
    }
    assert formations[..|formations|] == formations;
    AcceptedInOrderIsValid(existing);
  }

  /**
   * `generate_exam_schedule` itself: the run over `START_DATE` .. `END_DATE`.
   * Every exam lands on one of the ten session days, at one of the three slots.
   */
  method GenerateExamSchedule(rooms: seq<RoomId>, formations: seq<Formation>, professors: seq<ProfId>)
    returns (existing: seq<Exam>, inserted: seq<ExamRow>, failed: seq<ModuleId>)
    ensures ScheduleValid(existing) && ProfsNeverDoubleBooked(existing)
    ensures |inserted| == |existing| && forall i :: 0 <= i < |existing| ==> inserted[i] == RowOf(existing[i])
    ensures forall i :: 0 <= i < |existing| ==>
      && existing[i].start.date in SessionDays && existing[i].start.time in TimeSlots
      && existing[i].duration == ExamDuration && existing[i].roomId in rooms && existing[i].profId in professors
      && FromFormation(formations, existing[i])
    ensures |existing| + |failed| == |AllModules(formations)|
    ensures forall m :: m in AllModules(formations) ==> m in failed || HasModule(existing, m)
    ensures forall m :: m in failed ==> m in AllModules(formations)
  {
    existing, inserted, failed := ScheduleWithin(rooms, formations, professors, StartDate, EndDate);
    forall i | 0 <= i < |existing|
      ensures existing[i].start.date in SessionDays
    {
      SessionDaysOfTheWindow(existing[i].start.date);
    }
  }

  /** In a list without repeats, the element right after a prefix is not in that prefix. */
  lemma NewModuleNotDone(all: seq<ModuleId>, prefix: seq<ModuleId>, n: int)
    requires Distinct(all) && prefix <= all && 0 <= n < |prefix|
    ensures prefix[n] !in prefix[..n]
  {
    assert forall i :: 0 <= i < n ==> prefix[i] == all[i];
    assert prefix[n] == all[n];
  }
}
