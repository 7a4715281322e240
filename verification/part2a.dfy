/** The variant without semaphores (part2a.c): loading the rubric and the first
    exam at start-up, and moving on to the next exam. This variant checks the
    exam index and treats a negative student number as a failed load. */
module Part2a {
  import opened Grading
  import Rubric

  /** `load_rubric_into_shared`: the first five buffers read from the rubric
      file, each stored trimmed; a file with fewer than five lines is fatal. */
  function LoadRubric(lines: seq<seq<byte>>): (r: Result<seq<seq<byte>>>)
    ensures r.Err? <==> |lines| < NumQ
    ensures r.Ok? ==>
      && |r.value| == NumQ
      && forall i :: 0 <= i < NumQ ==> Rubric.TrimmedFrom(lines[i], r.value[i]) && FitsField(r.value[i])
  {
    if |lines| < NumQ then Err(RubricTooShort)
    else Ok(seq(NumQ, i requires 0 <= i < NumQ => Rubric.StoredLine(lines[i])))
  }

  /** `load_exam_into_shared`: install exam `index` as the current exam with all
      questions unmarked. An index outside the table, or a load that yields a
      negative student number, leaves the record untouched. */
  function LoadExamIntoShared(s: Shared, exams: seq<int>, index: int): (r: Shared)
    requires |exams| == NumExams
    ensures index < 0 || index >= NumExams || exams[index] < 0 ==> r == s
    ensures 0 <= index < NumExams && exams[index] >= 0 ==>
      r.examIndex == index && r.student == exams[index] && r.questions == AllNotMarked()
    ensures r.rubric == s.rubric && r.terminate == s.terminate
    ensures WellFormed(s) ==> WellFormed(r)
  {
    if index < 0 || index >= NumExams then s
    else
      var student := exams[index];
      if student < 0 then s
      else s.(examIndex := index, student := student, questions := AllNotMarked())
  }

  /** Start-up in `main`: zero the record, load the rubric, load exam 0. A
      failed load of exam 0 is not fatal: the record keeps student number 0. */
  function Init(lines: seq<seq<byte>>, exams: seq<int>): (r: Result<Shared>)
    requires |exams| == NumExams
    ensures r.Err? <==> |lines| < NumQ
    ensures r.Ok? ==>
      && Invariant(r.value)
      && !r.value.terminate
      && r.value.examIndex == 0
      && r.value.questions == AllNotMarked()
      && r.value.student == (if exams[0] >= 0 then exams[0] else 0)
      && forall i :: 0 <= i < NumQ ==> Rubric.TrimmedFrom(lines[i], r.value.rubric[i])
  {
    match LoadRubric(lines)
    case Err(e) => Err(e)
    case Ok(rubric) => Ok(LoadExamIntoShared(Zeroed().(rubric := rubric), exams, 0))
  }

  /** `load_next_exam_if_any`: past the last exam, or when the next exam fails to
      load, raise `terminate` and keep the current exam; otherwise install the
      next exam, and raise `terminate` too if it is the sentinel. `terminate` is
      only ever raised. */
  function LoadNextExamIfAny(s: Shared, exams: seq<int>): (r: Shared)
    requires |exams| == NumExams && -1 <= s.examIndex
    ensures r.rubric == s.rubric
    ensures s.terminate ==> r.terminate
    ensures s.examIndex + 1 >= NumExams ==> r.terminate && SameExam(s, r)
    ensures s.examIndex + 1 < NumExams && exams[s.examIndex + 1] < 0 ==>
      r.terminate && SameExam(s, r)
    ensures s.examIndex + 1 < NumExams && exams[s.examIndex + 1] >= 0 ==>
      && r.examIndex == s.examIndex + 1
      && r.student == exams[s.examIndex + 1]
      && r.questions == AllNotMarked()
      && (r.terminate <==> s.terminate || r.student == Sentinel)
    ensures s.examIndex <= r.examIndex
    ensures Invariant(s) ==> Invariant(r)
  {
    var next := s.examIndex + 1;
    if next >= NumExams then s.(terminate := true)
    else
      var student := exams[next];
      if student < 0 then s.(terminate := true)
      else
        var loaded := s.(examIndex := next, student := student, questions := AllNotMarked());
        if student == Sentinel then loaded.(terminate := true) else loaded
  }
}
