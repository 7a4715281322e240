# TA exam-grading shared record, in Dafny

This project models the sequential state-transition logic of a small exam-grading
program. The program has two variants. `part2a.c` runs without semaphores. `part2b.c`
guards its critical sections with System V semaphores. Several TA processes share one
record, `shared_t`, which holds:

- five rubric lines, each a C string of at most 31 bytes;
- the index of the current exam in a table of 20 exam files;
- the current student number;
- five question states (`NotMarked`, `InProgress`, `Done`);
- a `terminate` flag.

Every operation that a TA or the parent process performs on this record is modelled as a
pure function from one record to the next:

- storing a rubric line on load;
- correcting a rubric line;
- claiming a question;
- marking a question done;
- loading an exam;
- advancing to the next exam.

The model is written separately for each variant wherever the two C files differ.

Modules:

- `Grading` (grading.dfy): the record `Shared`, the question states, and the constants
  `NUM_Q` = 5, 20 exam files, the 32-byte rubric field and the sentinel student number 9999.
  It also defines the shape the C types impose (`WellFormed`) and the invariant every
  reachable record keeps (`Invariant`: well formed, and the exam index inside the table).
- `Rubric` (rubric.dfy): `strcspn`/`snprintf` trimming when the rubric is loaded, plus a
  reference definition of the stored line and a proof that it is unique. Also the
  correction edit (`strchr` for the first comma, skip spaces, increment one byte), a
  reference definition of where the edit lands, and the five-line rubric pass.
- `Questions` (questions.dfy): `pick_question`, the `Q_DONE` write, the count of
  questions still to be claimed, and the claim-then-complete rounds of one TA alone.
- `Part2a` (part2a.dfy): rubric load with its fatal short-file check, `load_exam_into_shared`
  with its index and failure checks, start-up, and `load_next_exam_if_any` with its
  failure branch.
- `Part2b` (part2b.dfy): the same operations as `part2b.c` writes them. There are no checks:
  whatever the exam load yields, including -1, is installed. This module also covers the
  signed-`char` increment.
- `Schedule` (schedule.dfy): sequences of whole operations for either variant; the marking
  loop of one TA alone (`MarkingLoop`), including the advance when its claim comes back
  empty, with the proof that on a fresh exam it marks all five questions and then advances
  (`MarkingLoopFrom`, `MarkingLoopMarksAllThenAdvances`); and lemmas comparing the two
  variants.

Representation choices:

- A byte is an `int` in 0..255. A rubric line is the content of its C string, that is,
  the bytes before the NUL.
- A wrap from 255 to 0 during a correction ends the C string at that byte. The model
  therefore represents it as truncating the line there.
- `terminate` is a `bool`, because the C `int` only ever holds 0 or 1.
- The exam files are a sequence of 20 integers: the value `load_exam_file` returns for
  each file. That is -1 when the file cannot be opened, otherwise whatever `atoi` gives.
  `part2a.c` treats any negative value as a failed load (`student < 0`). Both variants are
  given the same sequence.
- The TA's 50% decision to correct a line is a boolean parameter.
- The rubric file is given as the buffers `fgets` delivers, one per line.

Behaviour of the code that a reader might not expect; the model follows the code:

- A failed load of exam 0 is not fatal. In `part2a.c` a failed load of exam 0 is reported
  on stderr and start-up continues: the record keeps the zeroed student number 0, which
  `main` then prints as 0000 (`Part2a.Init`). When the file cannot be opened, `part2b.c`
  installs -1.
- The `terminate` flag ("1 = stop (9999 reached)", part2a.c:29) does not freeze the exam
  fields. `load_next_exam_if_any` never reads `terminate`, so an advance on a terminated
  record still installs the next exam (`Schedule.AdvanceIgnoresTerminate`).
- A correction does not always raise one character by one. When that character is 255, the
  C code writes a NUL, which shortens the line (`Rubric.CorrectLineEditsAt`). An increment
  can also turn a tab into a line feed, or a form feed into a carriage return. The saved
  rubric file then no longer reloads to the same five lines
  (`Rubric.CorrectionCanBreakReload`).

## Model

| member | source | states |
|---|---|---|
| `Grading.Zeroed` | part2a.c:373 | the record after `memset` is well formed: five empty rubric strings, five question states |
| `Grading.AllNotMarked` | part2a.c:130-132 | a freshly loaded exam has exactly five questions, all unmarked |
| `Rubric.StopIndex` | part2a.c:81 | `strcspn(buf, "\r\n")`: the scanned prefix holds no CR, LF or NUL, and the scan stops at the buffer's end or on one of them |
| `Rubric.StoredLine` | part2a.c:80-82 | the stored line meets the reference definition: a prefix of the buffer, up to but not including its first CR, LF or NUL, at most 31 bytes, stopping early only at such a byte or at the buffer's end; it fits a `char[32]` field |
| `Rubric.TrimmedFromUnique` | part2b.c:80-81 | the reference definition admits exactly one line, the stored one, so the two characterise each other |
| `Rubric.SaveThenLoad` | part2a.c:87-96 | a line with no CR/LF/NUL, of at most 31 bytes, written out as `"%s\n"` and loaded again comes back unchanged |
| `Rubric.StoredLineIdempotent` | part2b.c:80-81 | trimming an already stored line changes nothing |
| `Rubric.Find` | part2a.c:170 | `strchr`: the first index at or after the start holding the byte, or -1 exactly when no such index exists |
| `Rubric.SkipSpaces` | part2a.c:172-173 | the skipped bytes are all spaces, and the scan stops at a non-space or at the end |
| `Rubric.Increment` | part2a.c:175 | the byte goes up by one, except 255, which wraps to NUL |
| `Rubric.CorrectLine` | part2a.c:158-177 | with no decision to correct, the line is unchanged; a correction never lengthens a line, never introduces a NUL, and every changed byte is the increment of the original |
| `Rubric.CorrectLineEditsAt` | part2a.c:170-176 | at the first non-space byte after the first comma: if it is not 255, exactly that byte becomes old+1, the length is kept, and every other byte is unchanged; if it is 255, the line ends just before it |
| `Rubric.CorrectLineUnchangedIff` | part2b.c:163-168 | a correction leaves the line unchanged if and only if the line has no comma, or only spaces follow its first comma |
| `Rubric.MaybeCorrect` | part2b.c:146-176 | correcting rubric line q changes only that line, as the line edit says; the other four lines and all exam fields are untouched; well-formedness is kept |
| `Rubric.RubricPass` | part2a.c:301-305 | after the pass over lines 0..4, each line is its own correction under its own decision; the rubric still has five lines fitting their fields; nothing else changes |
| `Rubric.CorrectionCanBreakReload` | part2a.c:170-186 | the line `A,<tab>` is corrected to `A,<LF>`, and writing that out and reading it back does not give the corrected line |
| `Questions.FirstNotMarked` | part2b.c:179-196 | the scan returns the lowest unmarked index at or after the start, or -1 exactly when every such entry is claimed |
| `Questions.PickQuestion` | part2a.c:189-210 | returns the lowest index whose state is `NotMarked` and sets only that entry to `InProgress`; returns -1 if and only if no entry is `NotMarked`, and then the record is unchanged; rubric, exam index, student and `terminate` are never touched |
| `Questions.MarkDone` | part2a.c:336 | the claimed question becomes `Done`; the other four states and every other field are unchanged |
| `Questions.ClaimAndCompleteMoveForward` | part2b.c:178-298 | claiming and completing never move a question state backwards (`NotMarked` < `InProgress` < `Done`) |
| `Questions.CountAfterOverwrite` | part2b.c:295 | writing `Done` over a claimed question leaves the number still to be claimed unchanged |
| `Questions.ClaimConsumesOne` | part2b.c:178-197 | a successful claim leaves one claimable question fewer; a failed claim happens only when none is claimable |
| `Questions.SoloRounds` | part2a.c:319-336 | claim-then-complete rounds change only question states |
| `Questions.RoundOnDoneUpTo` | part2a.c:319-336 | with the first k questions done and the rest unmarked, a round claims question k and leaves the first k+1 done |
| `Questions.SoloRoundsInOrder` | part2b.c:267-303 | a TA alone on a fresh exam claims questions 0,1,2,... in order; after k rounds the first k are done and the rest unmarked |
| `Questions.SoloMarksEveryQuestion` | part2a.c:319-326 | after five rounds all questions are done, and the next claim returns -1, which sends the TA on to the next exam |
| `Part2a.LoadRubric` | part2a.c:69-85 | fails exactly when fewer than five lines are present; otherwise each of the five stored lines meets the trimming reference definition for its buffer and fits its field |
| `Part2a.LoadExamIntoShared` | part2a.c:118-133 | leaves the record untouched when the index is outside 0..19 or the load yields a negative number; otherwise sets index and student and resets all five states; rubric and `terminate` are never touched |
| `Part2a.Init` | part2a.c:373-377 | start-up fails exactly when the rubric is short; otherwise the record satisfies the invariant, `terminate` is clear, the index is 0, all questions are unmarked, the student is exam 0's number if it loaded and 0 if not, and each rubric line is trimmed from its buffer |
| `Part2a.LoadNextExamIfAny` | part2a.c:212-270 | past exam 20, or on a failed load, sets `terminate` and keeps index, student and states; otherwise index becomes cur+1, the student is the loaded value, all states are reset, and `terminate` ends up set exactly when it was already set or the value is 9999; `terminate` is never cleared; the index never decreases; the invariant is kept |
| `Part2b.LoadRubric` | part2b.c:74-84 | each of the five stored lines meets the trimming reference definition for its buffer and fits its field |
| `Part2b.LoadExamIntoShared` | part2b.c:104-110 | always sets the index and the loaded value, even -1, and resets all five states; rubric and `terminate` are untouched |
| `Part2b.Init` | part2b.c:332-335 | the start record satisfies the invariant, `terminate` is clear, the index is 0, the student is whatever exam 0 yielded, all questions are unmarked, and each rubric line is trimmed from its buffer |
| `Part2b.LoadNextExamIfAny` | part2b.c:199-237 | past exam 20, sets `terminate` and keeps index, student and states; otherwise index becomes cur+1 and the loaded value is installed even if it is -1, all states are reset, and `terminate` ends up set exactly when it was already set or the value is 9999; `terminate` is never cleared; the invariant is kept |
| `Part2b.SignedIncrement` | part2b.c:167 | the increment on a signed `char` (two's complement) lands on the same byte as the unsigned increment of `part2a.c` |
| `Schedule.Apply` | part2a.c:302-336 | every whole operation keeps the record invariant, never clears `terminate` and never lowers the exam index |
| `Schedule.Run` | part2b.c:242-304 | any schedule of whole, non-overlapping operations keeps the record invariant |
| `Schedule.RunIsMonotone` | part2b.c:207-236 | along any such schedule, once `terminate` is set it stays set, and the exam index never decreases |
| `Schedule.RubricOnlyChangedByCorrections` | part2b.c:178-298 | claiming, completing and advancing leave the rubric as it was |
| `Schedule.AdvanceIgnoresTerminate` | part2b.c:199-237 | for every record whose `terminate` is already set and that is not at the last exam, the 2b advance still installs the next exam (index, student, reset states), and so does the 2a advance whenever that exam loads |
| `Schedule.MarkingLoop` | part2a.c:311-344 | one TA's marking loop: with `terminate` set it changes nothing; otherwise it ends with `terminate` set or the exam index one higher, leaves the rubric alone and keeps the invariant |
| `Schedule.MarkingLoopFrom` | part2b.c:267-303 | from an exam whose first k questions are done, the loop marks the rest and then advances from the fully marked exam |
| `Schedule.MarkingLoopMarksAllThenAdvances` | part2a.c:311-326 | on a fresh exam, a TA alone marks all five questions before its claim comes back empty, and only then advances |
| `Schedule.AdvanceVariantsAgreeIff` | part2b.c:219-226 | the two variants' advances give the same record if and only if they are past the last exam or the next exam yields a non-negative number |
| `Schedule.InitVariantsAgreeIff` | part2a.c:123-127 | the two variants start from the same record if and only if exam 0 yields a non-negative number |

## Left out

- File I/O: opening and reading the rubric and exam files, `save_rubric_from_shared`, and
  splitting the rubric file into `fgets` buffers of at most 127 bytes. Rubric lines are given
  as byte buffers and exam files as their integer values. Only the save format (`"%s\n"`)
  appears, in `Rubric.SaveThenLoad`.
- Part2b.LoadRubric: requires five rubric lines. `part2b.c` does not check `fgets`; with a
  shorter file it stores an indeterminate buffer, which cannot be modelled.
- Part2b.Init: requires five rubric lines, for the same reason, since it loads the rubric.
- Schedule.InitVariantsAgreeIff: requires five rubric lines, for the same reason, since it
  compares the two start-ups.
- Exam loading in `part2b.c` does not check `fgets` (part2b.c:99). An empty exam file
  yields an indeterminate number there, where `part2a.c` yields -1 (part2a.c:108-111). The
  model gives each file one value, so `Schedule.AdvanceVariantsAgreeIff` and
  `Schedule.InitVariantsAgreeIff` assume that both variants read the same value; they say
  nothing about an empty exam file.
- Parsing with `atoi`, in `load_exam_file` and in `main`, and the worker-count check in
  `main`: this is C library behaviour and argument handling, outside the record.
- `rand`, `urand01` and `sleep_random`: randomness and floating-point delays. The
  correction decision is a boolean parameter, and delays have no effect on the record.
- The rubric save that follows every decision to correct, even when no byte changed. It is
  I/O and does not change the record.
- `fork`/`wait`, shared-memory set-up and teardown, and the semaphores with `P`/`V`. The
  model does not describe interleavings of TA processes. It makes no claim that a question
  is marked exactly once across processes. `Schedule.Run` covers only schedules in which
  whole operations do not overlap. Without semaphores, a stale advance can even lower the
  exam index.
- Questions.SoloRounds: a round whose claim finds nothing leaves the record as it is. In the
  source the marking loop instead advances the exam and exits; `Schedule.MarkingLoop`
  models that exit.
- The outer TA loop in `ta_process`: its termination check, the sentinel check of
  `part2a.c`, and the order in which it runs the rubric pass and the marking loop. They only
  decide whether and when a process keeps calling the modelled operations.
- Logging (`printf`, `qstate_name`) and the local copy of the rubric line that is made only
  for logging.
- Integer widths: `examIndex + 1` cannot overflow, because the index always stays in 0..19.
  Student numbers are kept as whatever `int` the load yields.
