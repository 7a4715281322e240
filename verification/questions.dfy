/** The question states of the current exam: a TA claims the first unmarked
    question (`pick_question`) and later marks it done. */
module Questions {
  import opened Grading

  /** The scan of `pick_question` from position `i`: the first index at or after
      `i` whose state is `NotMarked`, or -1 when there is none. */
  function FirstNotMarked(qs: seq<QState>, i: nat): (k: int)
    requires i <= |qs|
    ensures k == -1 || (i <= k < |qs| && qs[k] == NotMarked)
    ensures k == -1 <==> forall j :: i <= j < |qs| ==> qs[j] != NotMarked
    ensures k != -1 ==> forall j :: i <= j < k ==> qs[j] != NotMarked
    decreases |qs| - i
  {
    if i == |qs| then -1
    else if qs[i] == NotMarked then i
    else FirstNotMarked(qs, i + 1)
  }

  /** No question of the exam is left to claim. */
  predicate NoneNotMarked(qs: seq<QState>)
  {
    forall j :: 0 <= j < |qs| ==> qs[j] != NotMarked
  }

  /** What `pick_question` returns (`q`) together with the record it leaves. */
  datatype Claim = Claim(q: int, after: Shared)

  /** `pick_question`: claim the lowest-numbered unmarked question by setting it
      to `InProgress`, or report -1 when every question is already claimed. */
  function PickQuestion(s: Shared): (r: Claim)
    requires |s.questions| == NumQ
    ensures |r.after.questions| == NumQ
    ensures r.q == -1 <==> NoneNotMarked(s.questions)
    ensures r.q == -1 ==> r.after == s
    ensures r.q != -1 ==>
      && 0 <= r.q < NumQ
      && s.questions[r.q] == NotMarked
      && (forall j :: 0 <= j < r.q ==> s.questions[j] != NotMarked)
      && r.after.questions[r.q] == InProgress
    ensures forall j :: 0 <= j < NumQ && j != r.q ==> r.after.questions[j] == s.questions[j]
    ensures r.after.rubric == s.rubric && r.after.terminate == s.terminate
    ensures r.after.examIndex == s.examIndex && r.after.student == s.student
  {
    var k := FirstNotMarked(s.questions, 0);
    if k == -1 then Claim(-1, s)
    else Claim(k, s.(questions := s.questions[k := InProgress]))
  }

  /** `question_state[q] = Q_DONE` after the TA has marked question `q`. */
  function MarkDone(s: Shared, q: int): (r: Shared)
    requires |s.questions| == NumQ && 0 <= q < NumQ
    ensures |r.questions| == NumQ
    ensures r.questions[q] == Done
    ensures forall j :: 0 <= j < NumQ && j != q ==> r.questions[j] == s.questions[j]
    ensures r.rubric == s.rubric && r.terminate == s.terminate
    ensures r.examIndex == s.examIndex && r.student == s.student
  {
    s.(questions := s.questions[q := Done])
  }

  /** Claiming and completing only move question states forward. */
  lemma ClaimAndCompleteMoveForward(s: Shared, q: int)
    requires |s.questions| == NumQ && 0 <= q < NumQ
    ensures MovesForward(s.questions, PickQuestion(s).after.questions)
    ensures MovesForward(s.questions, MarkDone(s, q).questions)
  {
  }

  /** The number of questions still to be claimed. */
  function CountNotMarked(qs: seq<QState>): (n: nat)
    ensures n <= |qs|
    ensures n == 0 <==> NoneNotMarked(qs)
  {
    if qs == [] then 0
    else (if qs[0] == NotMarked then 1 else 0) + CountNotMarked(qs[1..])
  }

  lemma {:induction false} CountAfterClaim(qs: seq<QState>, k: int)
    requires 0 <= k < |qs| && qs[k] == NotMarked
    ensures CountNotMarked(qs[k := InProgress]) == CountNotMarked(qs) - 1
    decreases |qs|
  {
    if k > 0 {
      assert qs[k := InProgress][1..] == qs[1..][k - 1 := InProgress];
      CountAfterClaim(qs[1..], k - 1);
    } else {
      assert qs[k := InProgress][1..] == qs[1..];
    }
  }

  /** Overwriting a claimed or done entry with a state other than `NotMarked`
      leaves the number of questions still to be claimed as it was. */
  lemma {:induction false} CountAfterOverwrite(qs: seq<QState>, k: int, x: QState)
    requires 0 <= k < |qs| && qs[k] != NotMarked && x != NotMarked
    ensures CountNotMarked(qs[k := x]) == CountNotMarked(qs)
    decreases |qs|
  {
    if k > 0 {
      assert qs[k := x][1..] == qs[1..][k - 1 := x];
      CountAfterOverwrite(qs[1..], k - 1, x);
    } else {
      assert qs[k := x][1..] == qs[1..];
    }
  }

  /** A successful claim leaves one question fewer to claim; a failed one leaves
      none. */
  lemma ClaimConsumesOne(s: Shared)
    requires |s.questions| == NumQ
    ensures var r := PickQuestion(s);
      if r.q == -1 then CountNotMarked(s.questions) == 0
      else CountNotMarked(r.after.questions) == CountNotMarked(s.questions) - 1
  {
    var r := PickQuestion(s);
    if r.q != -1 {
      assert r.after.questions == s.questions[r.q := InProgress];
      CountAfterClaim(s.questions, r.q);
    }
  }

  /** `k` claim-then-complete rounds of a TA running alone: only the
      claim-and-complete part of the marking loop, `Schedule.MarkingLoop`, which
      is the model of the whole loop. When the claim finds nothing the loop
      advances the exam and exits; this function does not (it leaves the record
      as it is), so its rounds follow the source only while claims succeed. */
  function SoloRounds(s: Shared, k: nat): (r: Shared)
    requires |s.questions| == NumQ
    ensures |r.questions| == NumQ
    ensures r.rubric == s.rubric && r.terminate == s.terminate
    ensures r.examIndex == s.examIndex && r.student == s.student
  {
    if k == 0 then s
    else
      var before := SoloRounds(s, k - 1);
      var c := PickQuestion(before);
      if c.q == -1 then c.after else MarkDone(c.after, c.q)
  }

  /** Question states with the first `k` done and the rest unmarked. */
  function DoneUpTo(k: nat): (qs: seq<QState>)
    requires k <= NumQ
  {
    seq(NumQ, j => if j < k then Done else NotMarked)
  }

  /** On an exam whose first `k` questions are done and the rest unmarked, one
      round claims question `k` and leaves the first `k + 1` done. */
  lemma RoundOnDoneUpTo(s: Shared, k: nat)
    requires k < NumQ && s.questions == DoneUpTo(k)
    ensures PickQuestion(s).q == k
    ensures MarkDone(PickQuestion(s).after, k).questions == DoneUpTo(k + 1)
  {
    assert s.questions[k] == NotMarked;
    assert forall j :: 0 <= j < k ==> s.questions[j] == Done;
    var c := PickQuestion(s);
    assert MarkDone(c.after, k).questions == DoneUpTo(k + 1);
  }

  /** A TA alone on a freshly loaded exam claims the questions in order 0 to 4,
      leaving after `k` rounds the first `k` done and the rest unmarked. */
  lemma {:induction false} SoloRoundsInOrder(s: Shared, k: nat)
    requires s.questions == AllNotMarked()
    requires k <= NumQ
    ensures SoloRounds(s, k).questions == DoneUpTo(k)
  {
    if k > 0 {
      SoloRoundsInOrder(s, k - 1);
      RoundOnDoneUpTo(SoloRounds(s, k - 1), k - 1);
    } else {
      assert AllNotMarked() == DoneUpTo(0);
    }
  }

  /** After five rounds every question is done and the next claim finds
      nothing, which sends the TA on to load the next exam. */
  lemma SoloMarksEveryQuestion(s: Shared)
    requires s.questions == AllNotMarked()
    ensures forall j :: 0 <= j < NumQ ==> SoloRounds(s, NumQ).questions[j] == Done
    ensures PickQuestion(SoloRounds(s, NumQ)).q == -1
  {
    SoloRoundsInOrder(s, NumQ);
    assert NoneNotMarked(DoneUpTo(NumQ));
  }
}
