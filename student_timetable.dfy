/**
 * The clash detector of a student's timetable (`check_exam_conflicts` in
 * frontend/pages/student.py): it reports every pair of the student's exams
 * that start on the same date at the same time.
 */
module StudentTimetable {
  import opened Calendar

  /** The fields of one exam row the detector reads. */
  datatype StudentExam = StudentExam(moduleName: string, dateExam: Date, heureDebut: Time)

  /** One conflict record: `{'date', 'time', 'module1', 'module2'}`. */
  datatype Conflict = Conflict(date: Date, time: Time, module1: string, module2: string)

  /** The two exams start at the same date and time (intervals are not compared). */
  predicate SameStart(e1: StudentExam, e2: StudentExam)
  {
    e1.dateExam == e2.dateExam && e1.heureDebut == e2.heureDebut
  }

  /** The record reported for the pair (i, j), with i the earlier exam. */
  function RecordOf(exams: seq<StudentExam>, p: (int, int)): Conflict
    requires 0 <= p.0 < |exams| && 0 <= p.1 < |exams|
  {
    Conflict(exams[p.0].dateExam, exams[p.0].heureDebut, exams[p.0].moduleName, exams[p.1].moduleName)
  }

  /** Pair p comes strictly before pair q, comparing i first and then j. */
  predicate LexLess(p: (int, int), q: (int, int))
  {
    p.0 < q.0 || (p.0 == q.0 && p.1 < q.1)
  }

  /** The clashing pairs (i, j) with i < j < hi, in increasing j. */
  function RowPairs(exams: seq<StudentExam>, i: int, hi: int): (r: seq<(int, int)>)
    requires 0 <= i < |exams| && hi <= |exams|
    ensures forall k :: 0 <= k < |r| ==> r[k].0 == i && i < r[k].1 < hi
    decreases hi
  {
    if hi <= i + 1 then []
    else RowPairs(exams, i, hi - 1) + (if SameStart(exams[i], exams[hi - 1]) then [(i, hi - 1)] else [])
  }

  /** The clashing pairs whose first exam is among the first n, in scan order. */
  function PairsBefore(exams: seq<StudentExam>, n: int): (r: seq<(int, int)>)
    requires 0 <= n <= |exams|
    ensures forall k :: 0 <= k < |r| ==> 0 <= r[k].0 < n && r[k].0 < r[k].1 < |exams|
  {
    if n == 0 then [] else PairsBefore(exams, n - 1) + RowPairs(exams, n - 1, |exams|)
  }

  /** All clashing pairs of the timetable, in the order the scan meets them. */
  function ClashPairs(exams: seq<StudentExam>): seq<(int, int)>
  {
    PairsBefore(exams, |exams|)
  }

  /** The records the scan of row i emits for the exams j with i < j < hi. */
  function RowRecords(exams: seq<StudentExam>, i: int, hi: int): seq<Conflict>
    requires 0 <= i < |exams| && hi <= |exams|
    decreases hi
  {
    if hi <= i + 1 then []
    else RowRecords(exams, i, hi - 1) + (if SameStart(exams[i], exams[hi - 1]) then [RecordOf(exams, (i, hi - 1))] else [])
  }

  /** The records emitted for the first n rows. */
  function RecordsBefore(exams: seq<StudentExam>, n: int): seq<Conflict>
    requires 0 <= n <= |exams|
  {
    if n == 0 then [] else RecordsBefore(exams, n - 1) + RowRecords(exams, n - 1, |exams|)
  }

  /** The whole conflict list of a timetable. */
  function ConflictsOf(exams: seq<StudentExam>): seq<Conflict>
  {
    RecordsBefore(exams, |exams|)
  }

  /** The inner loop of `check_exam_conflicts`: compares exam i with every later exam. */
  method ScanRow(exams: seq<StudentExam>, i: int, found: seq<Conflict>) returns (conflicts: seq<Conflict>)
    requires 0 <= i < |exams|
    ensures conflicts == found + RowRecords(exams, i, |exams|)
  {
    conflicts := found;
    var exam1 := exams[i];
    for j := i + 1 to |exams|
      invariant conflicts == found + RowRecords(exams, i, j)
    {
      var exam2 := exams[j];
      if exam1.dateExam == exam2.dateExam {
        var time1Start := exam1.heureDebut;
        var time2Start := exam2.heureDebut;
        if time1Start == time2Start {
          conflicts := conflicts + [Conflict(exam1.dateExam, time1Start, exam1.moduleName, exam2.moduleName)];
        }
      }
    }
  }

  /**
   * `check_exam_conflicts`: one record per pair i < j of exams that start at
   * the same date and time, in the order the two loops meet the pairs.
   */
  method CheckExamConflicts(exams: seq<StudentExam>) returns (conflicts: seq<Conflict>)
    ensures conflicts == ConflictsOf(exams)
    ensures |conflicts| == |ClashPairs(exams)|
    ensures forall k :: 0 <= k < |ClashPairs(exams)| ==> conflicts[k] == RecordOf(exams, ClashPairs(exams)[k])
  {
    conflicts := [];
    for i := 0 to |exams|
      invariant conflicts == RecordsBefore(exams, i)
    {
      conflicts := ScanRow(exams, i, conflicts);
    }
    ConflictsArePairRecords(exams);
  }

  /** Row i emits one record per clashing pair of that row, in the same order. */
  lemma {:induction false} RowRecordsArePairRecords(exams: seq<StudentExam>, i: int, hi: int)
    requires 0 <= i < |exams| && hi <= |exams|
    ensures |RowRecords(exams, i, hi)| == |RowPairs(exams, i, hi)|
    ensures forall k :: 0 <= k < |RowPairs(exams, i, hi)| ==> RowRecords(exams, i, hi)[k] == RecordOf(exams, RowPairs(exams, i, hi)[k])
    decreases hi
  {
    if hi > i + 1 {
      RowRecordsArePairRecords(exams, i, hi - 1);
    }
  }

  lemma {:induction false} RecordsBeforeArePairRecords(exams: seq<StudentExam>, n: int)
    requires 0 <= n <= |exams|
    ensures |RecordsBefore(exams, n)| == |PairsBefore(exams, n)|
    ensures forall k :: 0 <= k < |PairsBefore(exams, n)| ==> RecordsBefore(exams, n)[k] == RecordOf(exams, PairsBefore(exams, n)[k])
  {
    if n > 0 {
      RecordsBeforeArePairRecords(exams, n - 1);
      RowRecordsArePairRecords(exams, n - 1, |exams|);
    }
  }

  /** The k-th reported conflict is the record of the k-th clashing pair in scan order. */
  lemma ConflictsArePairRecords(exams: seq<StudentExam>)
    ensures |ConflictsOf(exams)| == |ClashPairs(exams)|
    ensures forall k :: 0 <= k < |ClashPairs(exams)| ==> ConflictsOf(exams)[k] == RecordOf(exams, ClashPairs(exams)[k])
  {
    RecordsBeforeArePairRecords(exams, |exams|);
  }

  // ---------------------------------------------------------------------
  // Properties of the reported pairs
  // ---------------------------------------------------------------------

  lemma {:induction false} RowPairsExactly(exams: seq<StudentExam>, i: int, hi: int, p: (int, int))
    requires 0 <= i < |exams| && hi <= |exams|
    ensures p in RowPairs(exams, i, hi) <==> p.0 == i && i < p.1 < hi && SameStart(exams[i], exams[p.1])
    decreases hi
  {
    if hi > i + 1 {
      RowPairsExactly(exams, i, hi - 1, p);
    }
  }

  lemma {:induction false} PairsBeforeExactly(exams: seq<StudentExam>, n: int, p: (int, int))
    requires 0 <= n <= |exams|
    ensures p in PairsBefore(exams, n) <==> 0 <= p.0 < n && p.0 < p.1 < |exams| && SameStart(exams[p.0], exams[p.1])
  {
    if n > 0 {
      PairsBeforeExactly(exams, n - 1, p);
      RowPairsExactly(exams, n - 1, |exams|, p);
    }
  }

  /** A pair (i, j) with i < j is reported exactly when the two exams start at the same date and time. */
  lemma ReportedExactlyTheClashes(exams: seq<StudentExam>, i: int, j: int)
    ensures (i, j) in ClashPairs(exams) <==> 0 <= i < j < |exams| && SameStart(exams[i], exams[j])
  {
    PairsBeforeExactly(exams, |exams|, (i, j));
  }

  /** Exams on the same day with different start times are never reported, even when their intervals overlap. */
  lemma DifferentStartsNeverReported(exams: seq<StudentExam>, i: int, j: int)
    requires 0 <= i < j < |exams|
    requires exams[i].heureDebut != exams[j].heureDebut
    ensures (i, j) !in ClashPairs(exams)
  {
    ReportedExactlyTheClashes(exams, i, j);
  }

  lemma {:induction false} RowPairsSorted(exams: seq<StudentExam>, i: int, hi: int)
    requires 0 <= i < |exams| && hi <= |exams|
    ensures forall k, l :: 0 <= k < l < |RowPairs(exams, i, hi)| ==> LexLess(RowPairs(exams, i, hi)[k], RowPairs(exams, i, hi)[l])
    decreases hi
  {
    if hi > i + 1 {
      RowPairsSorted(exams, i, hi - 1);
    }
  }

  lemma {:induction false} PairsBeforeSorted(exams: seq<StudentExam>, n: int)
    requires 0 <= n <= |exams|
    ensures forall k, l :: 0 <= k < l < |PairsBefore(exams, n)| ==> LexLess(PairsBefore(exams, n)[k], PairsBefore(exams, n)[l])
  {
    if n > 0 {
      PairsBeforeSorted(exams, n - 1);
      RowPairsSorted(exams, n - 1, |exams|);
    }
  }

  /** Records come out ordered by i, then by j; in particular no pair is reported twice. */
  lemma ReportedInScanOrder(exams: seq<StudentExam>)
    ensures forall k, l :: 0 <= k < l < |ClashPairs(exams)| ==> LexLess(ClashPairs(exams)[k], ClashPairs(exams)[l])
    ensures forall k, l :: 0 <= k < l < |ClashPairs(exams)| ==> ClashPairs(exams)[k] != ClashPairs(exams)[l]
  {
    PairsBeforeSorted(exams, |exams|);
  }

  /** Triangle(n) == 0 + 1 + ... + (n - 1), the number of pairs i < j below n. */
  function Triangle(n: nat): nat
  {
    if n == 0 then 0 else Triangle(n - 1) + (n - 1)
  }

  lemma {:induction false} TriangleClosedForm(n: nat)
    ensures 2 * Triangle(n) == n * (n - 1)
  {
    if n > 0 {
      TriangleClosedForm(n - 1);
      assert n * (n - 1) == (n - 1) * (n - 2) + 2 * (n - 1);
    }
  }

  lemma {:induction false} RowPairsLength(exams: seq<StudentExam>, i: int, hi: int)
    requires 0 <= i < |exams| && hi <= |exams|
    ensures |RowPairs(exams, i, hi)| <= if hi <= i + 1 then 0 else hi - i - 1
    decreases hi
  {
    if hi > i + 1 {
      RowPairsLength(exams, i, hi - 1);
    }
  }

  /** Row i contributes at most |exams| - 1 - i pairs, so the first n rows at most the sum of those. */
  lemma {:induction false} PairsBeforeLength(exams: seq<StudentExam>, n: int)
    requires 0 <= n <= |exams|
    ensures |PairsBefore(exams, n)| + Triangle(|exams| - n) <= Triangle(|exams|)
  {
    if n > 0 {
      PairsBeforeLength(exams, n - 1);
      RowPairsLength(exams, n - 1, |exams|);
      assert Triangle(|exams| - n + 1) == Triangle(|exams| - n) + (|exams| - n);
    }
  }

  /** At most one record per unordered pair: no more than n(n - 1)/2 records. */
  lemma AtMostOnePerPair(exams: seq<StudentExam>)
    ensures 2 * |ClashPairs(exams)| <= |exams| * (|exams| - 1)
  {
    PairsBeforeLength(exams, |exams|);
    TriangleClosedForm(|exams|);
  }

  /** An empty or one-exam timetable has no conflict. */
  lemma ShortTimetablesHaveNoConflicts(exams: seq<StudentExam>)
    requires |exams| <= 1
    ensures ClashPairs(exams) == []
  {
    AtMostOnePerPair(exams);
  }
}
