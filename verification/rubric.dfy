/** The rubric lines of the shared record: how a line read from the rubric file is
    stored (`load_rubric_into_shared`), how a TA corrects one
    (`maybe_correct_rubric_line`), and the pass over all five lines. */
module Rubric {
  import opened Grading

  const Nul: byte := 0
  const LF: byte := 10
  const CR: byte := 13
  const Space: byte := 32
  const Comma: byte := 44

  /** Longest line a `char[32]` field holds. */
  const MaxLen: nat := FieldSize - 1

  // ---------------------------------------------------------------------------
  // Storing a line on load
  // ---------------------------------------------------------------------------

  /** The bytes at which `strcspn(buf, "\r\n")` stops: the two rejected
      characters and the end of the C string. */
  predicate IsStop(b: byte)
  {
    b == Nul || b == CR || b == LF
  }

  /** `strcspn(buf, "\r\n")`, scanning from position `i`. */
  function StopIndex(buf: seq<byte>, i: nat): (k: nat)
    requires i <= |buf|
    ensures i <= k <= |buf|
    ensures forall j :: i <= j < k ==> !IsStop(buf[j])
    ensures k < |buf| ==> IsStop(buf[k])
    decreases |buf| - i
  {
    if i == |buf| || IsStop(buf[i]) then i else StopIndex(buf, i + 1)
  }

  /** Reference definition of a stored line: `r` is `buf` up to, not including,
      its first CR, LF or NUL, cut to at most `MaxLen` bytes. */
  ghost predicate TrimmedFrom(buf: seq<byte>, r: seq<byte>)
  {
    && |r| <= MaxLen
    && r <= buf
    && (forall j :: 0 <= j < |r| ==> !IsStop(r[j]))
    && (|r| < MaxLen ==> |r| == |buf| || IsStop(buf[|r|]))
  }

  /** The line `load_rubric_into_shared` stores for one buffer read by `fgets`:
      the buffer is cut at its first CR or LF, then copied by `snprintf` into a
      32-byte field. */
  function StoredLine(buf: seq<byte>): (r: seq<byte>)
    ensures TrimmedFrom(buf, r)
    ensures FitsField(r)
  {
    var k := StopIndex(buf, 0);
    if k <= MaxLen then buf[..k] else buf[..MaxLen]
  }

  /** The reference definition admits exactly one line, the stored one. */
  lemma TrimmedFromUnique(buf: seq<byte>, r: seq<byte>)
    requires TrimmedFrom(buf, r)
    ensures r == StoredLine(buf)
  {
  }

  /** Writing a stored line out as `"%s\n"` and loading it again gives it back,
      provided the line holds no CR, LF or NUL. */
  lemma SaveThenLoad(l: seq<byte>)
    requires |l| <= MaxLen
    requires forall j :: 0 <= j < |l| ==> !IsStop(l[j])
    ensures StoredLine(l + [LF]) == l
  {
    var buf := l + [LF];
    assert buf[..|l|] == l;
    assert TrimmedFrom(buf, l);
    TrimmedFromUnique(buf, l);
  }

  /** Storing a stored line again changes nothing. */
  lemma StoredLineIdempotent(buf: seq<byte>)
    ensures StoredLine(StoredLine(buf)) == StoredLine(buf)
  {
  }

  // ---------------------------------------------------------------------------
  // Correcting a line
  // ---------------------------------------------------------------------------

  /** `strchr` from position `i`: the first index at or after `i` holding `c`,
      or -1 when there is none. */
  function Find(l: seq<byte>, c: byte, i: nat): (k: int)
    requires i <= |l|
    ensures k == -1 || (i <= k < |l| && l[k] == c)
    ensures k == -1 ==> forall j :: i <= j < |l| ==> l[j] != c
    ensures k != -1 ==> forall j :: i <= j < k ==> l[j] != c
    decreases |l| - i
  {
    if i == |l| then -1 else if l[i] == c then i else Find(l, c, i + 1)
  }

  /** `while (*p == ' ') p++;` from position `i`. */
  function SkipSpaces(l: seq<byte>, i: nat): (k: nat)
    requires i <= |l|
    ensures i <= k <= |l|
    ensures forall j :: i <= j < k ==> l[j] == Space
    ensures k < |l| ==> l[k] != Space
    decreases |l| - i
  {
    if i < |l| && l[i] == Space then SkipSpaces(l, i + 1) else i
  }

  /** `(char)((unsigned char)(*p) + 1)`: one up, with 255 wrapping to NUL. */
  function Increment(b: byte): (r: byte)
    ensures b < 255 ==> r == b + 1
    ensures b == 255 ==> r == Nul
  {
    (b + 1) % 256
  }

  /** The edit `maybe_correct_rubric_line` makes when it decides to correct: the
      first non-space byte after the first comma goes up by one. A wrap to NUL
      ends the C string at that byte. */
  function CorrectLine(l: seq<byte>, correct: bool): (r: seq<byte>)
    ensures !correct ==> r == l
    ensures |r| <= |l|
    ensures NoNul(l) ==> NoNul(r)
    ensures forall j :: 0 <= j < |r| && r[j] != l[j] ==> r[j] == Increment(l[j])
  {
    if !correct then l
    else
      var c := Find(l, Comma, 0);
      if c == -1 then l
      else
        var p := SkipSpaces(l, c + 1);
        if p == |l| then l
        else
          var b := Increment(l[p]);
          if b == Nul then l[..p] else l[p := b]
  }

  /** `c` is the position of the first comma of `l`. */
  ghost predicate FirstComma(l: seq<byte>, c: int)
  {
    0 <= c < |l| && l[c] == Comma && forall j :: 0 <= j < c ==> l[j] != Comma
  }

  /** `p` is the first non-space byte after the first comma `c`. */
  ghost predicate EditPoint(l: seq<byte>, c: int, p: int)
  {
    && FirstComma(l, c)
    && c < p < |l|
    && l[p] != Space
    && forall j :: c < j < p ==> l[j] == Space
  }

  /** A line with no comma, or with only spaces after its first comma. */
  ghost predicate NothingToEdit(l: seq<byte>)
  {
    || (forall j :: 0 <= j < |l| ==> l[j] != Comma)
    || (exists c :: FirstComma(l, c) && forall j :: c < j < |l| ==> l[j] == Space)
  }

  lemma FirstCommaUnique(l: seq<byte>, c: int, d: int)
    requires FirstComma(l, c) && FirstComma(l, d)
    ensures c == d
  {
  }

  /** Where the correction lands: at the edit point, one byte goes up by one and
      nothing else changes, unless the byte was 255, whose wrap to NUL ends the
      line there. */
  lemma CorrectLineEditsAt(l: seq<byte>, c: int, p: int)
    requires EditPoint(l, c, p)
    ensures l[p] != 255 ==> CorrectLine(l, true) == l[p := l[p] + 1]
    ensures l[p] != 255 ==>
      var r := CorrectLine(l, true);
      |r| == |l| && r[p] == l[p] + 1 && forall j :: 0 <= j < |l| && j != p ==> r[j] == l[j]
    ensures l[p] == 255 ==> CorrectLine(l, true) == l[..p]
  {
  }

  /** A correction leaves the line as it was exactly when there is nothing to
      edit: no comma, or only spaces after the first one. */
  lemma CorrectLineUnchangedIff(l: seq<byte>)
    ensures CorrectLine(l, true) == l <==> NothingToEdit(l)
  {
    var c := Find(l, Comma, 0);
    if c != -1 {
      assert FirstComma(l, c);
      var p := SkipSpaces(l, c + 1);
      if p == |l| {
        assert NothingToEdit(l);
      } else {
        assert EditPoint(l, c, p);
        CorrectLineEditsAt(l, c, p);
        var r := CorrectLine(l, true);
        if l[p] == 255 {
          assert |r| == p < |l|;
        } else {
          assert r[p] != l[p];
        }
        forall d | FirstComma(l, d)
          ensures c < p < |l| && l[p] != Space
        {
          FirstCommaUnique(l, c, d);
        }
      }
    }
  }

  // ---------------------------------------------------------------------------
  // The rubric in the shared record
  // ---------------------------------------------------------------------------

  /** `maybe_correct_rubric_line` on line `q` of the record, with the TA's coin
      flip given as `correct`. Only that line can change. */
  function MaybeCorrect(s: Shared, q: int, correct: bool): (r: Shared)
    requires 0 <= q < |s.rubric|
    ensures |r.rubric| == |s.rubric|
    ensures r.rubric[q] == CorrectLine(s.rubric[q], correct)
    ensures forall i :: 0 <= i < |s.rubric| && i != q ==> r.rubric[i] == s.rubric[i]
    ensures SameExam(s, r) && r.terminate == s.terminate
    ensures WellFormed(s) ==> WellFormed(r)
  {
    s.(rubric := s.rubric[q := CorrectLine(s.rubric[q], correct)])
  }

  /** One TA's rubric pass: lines 0 to 4 in order, each corrected or not by its
      own coin flip `decide[q]`. */
  method RubricPass(s: Shared, decide: seq<bool>) returns (r: Shared)
    requires |s.rubric| == NumQ && |decide| == NumQ
    ensures |r.rubric| == NumQ
    ensures forall i :: 0 <= i < NumQ ==> r.rubric[i] == CorrectLine(s.rubric[i], decide[i])
    ensures SameExam(s, r) && r.terminate == s.terminate
    ensures WellFormed(s) ==> WellFormed(r)
  {
    r := s;
    for q := 0 to NumQ
      invariant |r.rubric| == NumQ
      invariant forall i :: 0 <= i < q ==> r.rubric[i] == CorrectLine(s.rubric[i], decide[i])
      invariant forall i :: q <= i < NumQ ==> r.rubric[i] == s.rubric[i]
      invariant SameExam(s, r) && r.terminate == s.terminate
      invariant WellFormed(s) ==> WellFormed(r)
    {
      r := MaybeCorrect(r, q, decide[q]);
    }
  }

  /** A correction can turn a tab into a line feed (or a form feed into a
      carriage return); the saved file then no longer reloads to the same
      rubric. */
  lemma CorrectionCanBreakReload()
    ensures CorrectLine([65, 44, 9], true) == [65, 44, LF]
    ensures StoredLine(CorrectLine([65, 44, 9], true) + [LF]) != [65, 44, LF]
  {
  }
}
