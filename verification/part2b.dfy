/** The semaphore variant (part2b.c): the same record operations, but exam
    loading checks nothing. The index is trusted and whatever the exam file
    yields, including the -1 of a file that cannot be opened, is installed as
    the student number. */
module Part2b {
  import opened Grading
  import Rubric

  /** `load_rubric_into_shared`: the first five buffers read from the rubric
      file, each stored trimmed. This variant does not check `fgets`, so it needs
      five lines to be well defined. */
  function LoadRubric(lines: seq<seq<byte>>): (r: seq<seq<byte>>)
    requires |lines| >= NumQ
    ensures |r| == NumQ
    ensures forall i :: 0 <= i < NumQ ==> Rubric.TrimmedFrom(lines[i], r[i]) && FitsField(r[i])
  {
    seq(NumQ, i requires 0 <= i < NumQ => Rubric.StoredLine(lines[i]))
  }

  /** `load_exam_into_shared`: install exam `index` unconditionally, whatever
      student number the load yields, with all questions unmarked. */
  function LoadExamIntoShared(s: Shared, exams: seq<int>, index: int): (r: Shared)
    requires |exams| == NumExams && 0 <= index < NumExams
    ensures r.examIndex == index && r.student == exams[index] && r.questions == AllNotMarked()
    ensures r.rubric == s.rubric && r.terminate == s.terminate
    ensures WellFormed(s) ==> Invariant(r)
  {
    s.(examIndex := index, student := exams[index], questions := AllNotMarked())
  }

  /** Start-up in `main`: zero the record, load the rubric, load exam 0. */
  function Init(lines: seq<seq<byte>>, exams: seq<int>): (r: Shared)
    requires |lines| >= NumQ && |exams| == NumExams
    ensures Invariant(r)
    ensures !r.terminate
    ensures r.examIndex == 0 && r.student == exams[0] && r.questions == AllNotMarked()
    ensures forall i :: 0 <= i < NumQ ==> Rubric.TrimmedFrom(lines[i], r.rubric[i])
  {
    LoadExamIntoShared(Zeroed().(rubric := LoadRubric(lines)), exams, 0)
  }

  /** `load_next_exam_if_any`: past the last exam, raise `terminate` and keep the
      current exam; otherwise install the next exam whatever its student number,
      and raise `terminate` too if it is the sentinel. `terminate` is only ever
      raised. */
  function LoadNextExamIfAny(s: Shared, exams: seq<int>): (r: Shared)
    requires |exams| == NumExams && -1 <= s.examIndex
    ensures r.rubric == s.rubric
    ensures s.terminate ==> r.terminate
    ensures s.examIndex + 1 >= NumExams ==> r.terminate && SameExam(s, r)
    ensures s.examIndex + 1 < NumExams ==>
      && r.examIndex == s.examIndex + 1
      && r.student == exams[s.examIndex + 1]
      && r.questions == AllNotMarked()
      && (r.terminate <==> s.terminate || r.student == Sentinel)
    ensures s.examIndex <= r.examIndex
    ensures Invariant(s) ==> Invariant(r)
  {
    var next := s.examIndex + 1;
    if next >= NumExams then s.(terminate := true)
    else
      var loaded := LoadExamIntoShared(s, exams, next);
      if loaded.student == Sentinel then loaded.(terminate := true) else loaded
  }

  /** `*p = *p + 1` on a signed `char`: the byte is read as a value in -128..127,
      incremented as an `int`, and stored back modulo 256 (two's complement).
      It lands on the same byte as the unsigned increment of part2a.c. */
  function SignedIncrement(b: byte): (r: byte)
    ensures r == Rubric.Increment(b)
  {
    var c := if b < 128 then b else b - 256;
    (c + 1) % 256
  }
}
