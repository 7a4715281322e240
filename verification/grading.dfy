/** The shared grading record (`shared_t`) and the vocabulary both variants of the
    TA grading program use: the question states, the configured sizes, and the
    shape every record keeps. */
module Grading {

  /** A C `char` seen through its unsigned byte value. */
  type byte = b: int | 0 <= b < 256

  /** `NUM_Q`: questions per exam, and lines of the rubric. */
  const NumQ: nat := 5
  /** Entries of the configured exam file table `exam_files`. */
  const NumExams: nat := 20
  /** Size of one `rubric_text` field, terminating NUL included. */
  const FieldSize: nat := 32
  /** The student number that marks the last exam. */
  const Sentinel: int := 9999

  /** `qstate_t`. */
  datatype QState = NotMarked | InProgress | Done

  /** The numeric value of the enum; marking only ever raises it. */
  function Rank(q: QState): nat
  {
    match q
    case NotMarked => 0
    case InProgress => 1
    case Done => 2
  }

  /** `shared_t`. A rubric line holds the bytes of its C string, up to but not
      including the terminating NUL; `terminate` is the C flag, which only ever
      holds 0 or 1. */
  datatype Shared = Shared(
    rubric: seq<seq<byte>>,
    examIndex: int,
    student: int,
    questions: seq<QState>,
    terminate: bool)

  predicate NoNul(l: seq<byte>)
  {
    forall i :: 0 <= i < |l| ==> l[i] != 0
  }

  /** A C string that fits a `char[32]` field. */
  predicate FitsField(l: seq<byte>)
  {
    |l| < FieldSize && NoNul(l)
  }

  /** The shape the C types impose: five rubric strings that fit their fields and
      five question states. */
  predicate WellFormed(s: Shared)
  {
    && |s.rubric| == NumQ
    && (forall i :: 0 <= i < |s.rubric| ==> FitsField(s.rubric[i]))
    && |s.questions| == NumQ
  }

  /** What every reachable record satisfies: well formed, and the exam index
      names an entry of the exam file table. */
  predicate Invariant(s: Shared)
  {
    WellFormed(s) && 0 <= s.examIndex < NumExams
  }

  /** The question states of a freshly loaded exam. */
  function AllNotMarked(): (qs: seq<QState>)
    ensures |qs| == NumQ
    ensures forall i :: 0 <= i < |qs| ==> qs[i] == NotMarked
  {
    seq(NumQ, _ => NotMarked)
  }

  /** The record right after `memset(sh, 0, sizeof(*sh))`. */
  function Zeroed(): (s: Shared)
    ensures WellFormed(s)
  {
    Shared([[], [], [], [], []], 0, 0, AllNotMarked(), false)
  }

  /** Every entry of `b` is at least as far along as the same entry of `a`. */
  predicate MovesForward(a: seq<QState>, b: seq<QState>)
  {
    |a| == |b| && forall i :: 0 <= i < |a| ==> Rank(a[i]) <= Rank(b[i])
  }

  /** The exam part of the record (index, student, question states) is the same. */
  predicate SameExam(a: Shared, b: Shared)
  {
    a.examIndex == b.examIndex && a.student == b.student && a.questions == b.questions
  }

  /** Fatal start-up errors. */
  datatype InitError = RubricTooShort

  datatype Result<T> = Ok(value: T) | Err(error: InitError)
}
