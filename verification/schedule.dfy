/** Whole record operations run one after another, for either variant, and how
    the two variants compare. A sequence of steps describes a schedule in which
    no two operations overlap; it says nothing about what concurrent TAs may do
    to each other in the middle of an operation. The marking loop of one TA
    alone is here too, since its exit runs the variant's advance. */
module Schedule {
  import opened Grading
  import Rubric
  import Questions
  import Part2a
  import Part2b

  datatype Variant = NoSemaphores | Semaphores

  /** One whole operation on the shared record, with the TA's coin flip for a
      rubric correction given explicitly. */
  datatype Step =
    | CorrectRubric(line: int, correct: bool)
    | Pick
    | Complete(q: int)
    | LoadNext

  predicate StepInRange(st: Step)
  {
    match st
    case CorrectRubric(line, _) => 0 <= line < NumQ
    case Pick => true
    case Complete(q) => 0 <= q < NumQ
    case LoadNext => true
  }

  function Apply(v: Variant, s: Shared, exams: seq<int>, st: Step): (r: Shared)
    requires Invariant(s) && |exams| == NumExams && StepInRange(st)
    ensures Invariant(r)
    ensures s.terminate ==> r.terminate
    ensures s.examIndex <= r.examIndex
  {
    match st
    case CorrectRubric(line, correct) => Rubric.MaybeCorrect(s, line, correct)
    case Pick => Questions.PickQuestion(s).after
    case Complete(q) => Questions.MarkDone(s, q)
    case LoadNext =>
      match v
      case NoSemaphores => Part2a.LoadNextExamIfAny(s, exams)
      case Semaphores => Part2b.LoadNextExamIfAny(s, exams)
  }

  function Run(v: Variant, s: Shared, exams: seq<int>, steps: seq<Step>): (r: Shared)
    requires Invariant(s) && |exams| == NumExams
    requires forall i :: 0 <= i < |steps| ==> StepInRange(steps[i])
    ensures Invariant(r)
    decreases |steps|
  {
    if steps == [] then s else Run(v, Apply(v, s, exams, steps[0]), exams, steps[1..])
  }

  /** Along any schedule of whole operations, `terminate` once raised stays
      raised and the exam index never goes back. */
  lemma {:induction false} RunIsMonotone(v: Variant, s: Shared, exams: seq<int>, steps: seq<Step>)
    requires Invariant(s) && |exams| == NumExams
    requires forall i :: 0 <= i < |steps| ==> StepInRange(steps[i])
    ensures s.terminate ==> Run(v, s, exams, steps).terminate
    ensures s.examIndex <= Run(v, s, exams, steps).examIndex
    decreases |steps|
  {
    if steps != [] {
      RunIsMonotone(v, Apply(v, s, exams, steps[0]), exams, steps[1..]);
    }
  }

  /** Only a rubric correction touches the rubric; claiming, completing and
      advancing leave it alone. */
  lemma RubricOnlyChangedByCorrections(v: Variant, s: Shared, exams: seq<int>, st: Step)
    requires Invariant(s) && |exams| == NumExams && StepInRange(st)
    requires !st.CorrectRubric?
    ensures Apply(v, s, exams, st).rubric == s.rubric
  {
  }

  /** Advancing does not look at `terminate`: on a record whose flag is already
      raised it still installs the next exam, in both variants (in part2a.c
      provided that exam loads). */
  lemma AdvanceIgnoresTerminate(s: Shared, exams: seq<int>)
    requires Invariant(s) && |exams| == NumExams
    requires s.terminate && s.examIndex + 1 < NumExams
    ensures exams[s.examIndex + 1] >= 0 ==>
      var r := Part2a.LoadNextExamIfAny(s, exams);
      r.examIndex == s.examIndex + 1 && r.student == exams[s.examIndex + 1] && r.questions == AllNotMarked()
    ensures var r := Part2b.LoadNextExamIfAny(s, exams);
      r.examIndex == s.examIndex + 1 && r.student == exams[s.examIndex + 1] && r.questions == AllNotMarked()
  {
  }

  /** The marking loop of one TA (the inner `while (1)` of `ta_process`) while no
      other TA touches the record: stop if `terminate` is set; otherwise claim a
      question and mark it done, and when the claim finds nothing, advance to the
      next exam and leave the loop. */
  function MarkingLoop(v: Variant, s: Shared, exams: seq<int>): (r: Shared)
    requires Invariant(s) && |exams| == NumExams
    ensures Invariant(r)
    ensures r.rubric == s.rubric
    ensures s.terminate ==> r == s
    ensures !s.terminate ==> r.terminate || r.examIndex == s.examIndex + 1
    decreases Questions.CountNotMarked(s.questions)
  {
    if s.terminate then s
    else
      var c := Questions.PickQuestion(s);
      if c.q == -1 then Apply(v, s, exams, LoadNext)
      else
        Questions.ClaimConsumesOne(s);
        Questions.CountAfterOverwrite(c.after.questions, c.q, Done);
        MarkingLoop(v, Questions.MarkDone(c.after, c.q), exams)
  }

  /** A TA alone on an exam whose first `k` questions are done and the rest
      unmarked marks the remaining ones, then advances from the fully marked
      exam. */
  lemma {:induction false} MarkingLoopFrom(v: Variant, s: Shared, exams: seq<int>, k: nat)
    requires Invariant(s) && |exams| == NumExams && !s.terminate
    requires k <= NumQ && s.questions == Questions.DoneUpTo(k)
    ensures MarkingLoop(v, s, exams) == Apply(v, s.(questions := Questions.DoneUpTo(NumQ)), exams, LoadNext)
    decreases NumQ - k
  {
    if k < NumQ {
      Questions.RoundOnDoneUpTo(s, k);
      var c := Questions.PickQuestion(s);
      MarkingLoopFrom(v, Questions.MarkDone(c.after, c.q), exams, k + 1);
    } else {
      assert Questions.NoneNotMarked(Questions.DoneUpTo(NumQ));
      assert s.(questions := Questions.DoneUpTo(NumQ)) == s;
    }
  }

  /** On a freshly loaded exam, a TA alone marks all five questions before its
      claim comes back empty, and only then advances. */
  lemma MarkingLoopMarksAllThenAdvances(v: Variant, s: Shared, exams: seq<int>)
    requires Invariant(s) && |exams| == NumExams && !s.terminate
    requires s.questions == AllNotMarked()
    ensures MarkingLoop(v, s, exams) == Apply(v, s.(questions := Questions.DoneUpTo(NumQ)), exams, LoadNext)
  {
    assert AllNotMarked() == Questions.DoneUpTo(0);
    MarkingLoopFrom(v, s, exams, 0);
  }

  /** The two variants advance to the same record exactly when they are past
      the last exam or the next exam loads a non-negative student number. Both
      are given the same value per exam file; for an empty exam file they would
      not be, as part2b.c then parses an uninitialised buffer. */
  lemma AdvanceVariantsAgreeIff(s: Shared, exams: seq<int>)
    requires |exams| == NumExams && -1 <= s.examIndex
    ensures Part2a.LoadNextExamIfAny(s, exams) == Part2b.LoadNextExamIfAny(s, exams)
      <==> s.examIndex + 1 >= NumExams || exams[s.examIndex + 1] >= 0
  {
  }

  /** The two variants start from the same record exactly when exam 0 loads a
      non-negative student number, both being given the same value for it. */
  lemma InitVariantsAgreeIff(lines: seq<seq<byte>>, exams: seq<int>)
    requires |lines| >= NumQ && |exams| == NumExams
    ensures Part2a.Init(lines, exams) == Ok(Part2b.Init(lines, exams)) <==> exams[0] >= 0
  {
  }
}
