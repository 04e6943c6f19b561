/** Assessment authoring (src/components/Instructor/UploadAssessment.js): the question list an
    instructor edits, the maximum score kept in step with it, the completeness check run on
    upload, and the numbered payload that is posted. */
module Authoring {
  import opened Common
  import opened Scoring

  /** `parseInt(q.marks) || 0`: zero and NaN contribute nothing, every other value is kept. */
  function AuthoredMarks(m: Marks): (r: int)
    ensures m.Numeric? ==> r == m.n
    ensures m == Unparsable ==> r == 0
  {
    match m
    case Numeric(n) => n
    case Unparsable => 0
  }

  /** The `maxScore` effect: the sum of the authored marks of every question. */
  function MaxScore(qs: seq<Question>): (r: int)
    ensures (forall i :: 0 <= i < |qs| ==> Defaulted(qs[i])) ==> r == 0
  {
    if qs == [] then 0 else MaxScore(qs[..|qs| - 1]) + AuthoredMarks(qs[|qs| - 1].marks)
  }

  /** The maximum score of a concatenation is the sum of the parts' maximum scores. */
  lemma {:induction false} MaxScoreAppend(a: seq<Question>, b: seq<Question>)
    ensures MaxScore(a + b) == MaxScore(a) + MaxScore(b)
  {
    if b == [] {
      assert a + b == a;
    } else {
      var last := |b| - 1;
      assert (a + b)[..|a + b| - 1] == a + b[..last];
      assert (a + b)[|a + b| - 1] == b[last];
      MaxScoreAppend(a, b[..last]);
    }
  }

  /** The maximum score as the part before question k, question k, and the part after. */
  lemma MaxScoreAround(qs: seq<Question>, k: nat)
    requires k < |qs|
    ensures MaxScore(qs) == MaxScore(qs[..k]) + AuthoredMarks(qs[k].marks) + MaxScore(qs[k + 1..])
  {
    var before, after := qs[..k], qs[k + 1..];
    assert qs == (before + [qs[k]]) + after;
    MaxScoreAppend(before + [qs[k]], after);
    MaxScoreSnoc(before, qs[k]);
  }

  lemma MaxScoreSnoc(qs: seq<Question>, q: Question)
    ensures MaxScore(qs + [q]) == MaxScore(qs) + AuthoredMarks(q.marks)
  {
    assert (qs + [q])[..|qs|] == qs;
  }

  /** A question whose marks are zero or not a number: the student side counts it as 1,
      the authoring side as 0. */
  predicate Defaulted(q: Question) {
    q.marks == Numeric(0) || q.marks == Unparsable
  }

  function DefaultedCount(qs: seq<Question>): nat
  {
    if qs == [] then 0 else DefaultedCount(qs[..|qs| - 1]) + (if Defaulted(qs[|qs| - 1]) then 1 else 0)
  }

  /** The total possible marks a student sees exceed the authored maximum score by exactly
      the number of questions whose marks are zero or not a number. */
  lemma {:induction false} PossibleExceedsMaxScoreByDefaulted(qs: seq<Question>)
    ensures Possible(qs) == MaxScore(qs) + DefaultedCount(qs)
  {
    if qs != [] {
      PossibleExceedsMaxScoreByDefaulted(qs[..|qs| - 1]);
    }
  }

  /** With every question's marks a positive integer, both sides agree on the total. */
  lemma {:induction false} PossibleEqualsMaxScore(qs: seq<Question>)
    requires forall i :: 0 <= i < |qs| ==> qs[i].marks.Numeric? && qs[i].marks.n > 0
    ensures Possible(qs) == MaxScore(qs)
  {
    if qs != [] {
      PossibleEqualsMaxScore(qs[..|qs| - 1]);
    }
  }

  // ---------------------------------------------------------------------------
  // Edits to the question list

  /** The question added by addQuestion and present when the form opens. */
  const BlankQuestion: Question := Question("", ["", "", ""], "", Numeric(1))

  /** addQuestion: one blank question at the end. */
  function AddQuestion(qs: seq<Question>): (r: seq<Question>)
    ensures |r| == |qs| + 1 && r[..|qs|] == qs && r[|qs|] == BlankQuestion
  {
    qs + [BlankQuestion]
  }

  /** Where `splice(index, 1)` removes an element: a negative index counts from the end,
      and an index at or past the end removes nothing. */
  function SpliceStart(n: nat, index: int): (start: nat)
    ensures index >= 0 ==> start == index
    ensures index < 0 && n + index >= 0 ==> start == n + index
    ensures index < 0 && n + index < 0 ==> start == 0
  {
    if index >= 0 then index else if n + index >= 0 then n + index else 0
  }

  /** removeQuestion: `splice(index, 1)` on a copy of the list. */
  function RemoveQuestion(qs: seq<Question>, index: int): (r: seq<Question>)
    ensures SpliceStart(|qs|, index) >= |qs| ==> r == qs
    ensures SpliceStart(|qs|, index) < |qs| ==>
      var k := SpliceStart(|qs|, index);
      && |r| == |qs| - 1
      && (forall j :: 0 <= j < k ==> r[j] == qs[j])
      && (forall j :: k <= j < |r| ==> r[j] == qs[j + 1])
      && multiset(r) + multiset{qs[k]} == multiset(qs)
  {
    var k := SpliceStart(|qs|, index);
    if k >= |qs| then qs
    else
      assert qs == qs[..k] + [qs[k]] + qs[k + 1..];
      qs[..k] + qs[k + 1..]
  }

  /** Removing the question just added restores the list. */
  lemma AddThenRemoveLast(qs: seq<Question>)
    ensures RemoveQuestion(AddQuestion(qs), |qs|) == qs
    ensures RemoveQuestion(AddQuestion(qs), -1) == qs
  {
    var r := RemoveQuestion(AddQuestion(qs), |qs|);
    assert r == qs;
  }

  /** The fields updateQuestion is called with: the text, the answer, and the marks
      (already `parseInt(value) || 0`). */
  datatype Edit = SetText(text: string) | SetAnswer(answer: string) | SetMarks(marks: int)

  function ApplyEdit(q: Question, e: Edit): (r: Question)
    ensures r.options == q.options
    ensures e.SetText? ==> r == q.(text := e.text)
    ensures e.SetAnswer? ==> r == q.(answer := e.answer)
    ensures e.SetMarks? ==> r == q.(marks := Numeric(e.marks))
  {
    match e
    case SetText(t) => q.(text := t)
    case SetAnswer(a) => q.(answer := a)
    case SetMarks(n) => q.(marks := Numeric(n))
  }

  /** updateQuestion: the addressed field of the addressed question changes, nothing else.
      Assigning into `updated[index]` throws for an index outside the list. */
  function UpdateQuestion(qs: seq<Question>, index: nat, e: Edit): (r: seq<Question>)
    requires index < |qs|
    ensures |r| == |qs|
    ensures r[index] == ApplyEdit(qs[index], e)
    ensures forall j :: 0 <= j < |qs| && j != index ==> r[j] == qs[j]
  {
    qs[index := ApplyEdit(qs[index], e)]
  }

  /** updateOption: one option of one question changes, nothing else. The option inputs
      are rendered from the options themselves, so the option index is always in range. */
  function UpdateOption(qs: seq<Question>, qIndex: nat, optIndex: nat, value: string): (r: seq<Question>)
    requires qIndex < |qs| && optIndex < |qs[qIndex].options|
    ensures |r| == |qs|
    ensures forall j :: 0 <= j < |qs| && j != qIndex ==> r[j] == qs[j]
    ensures r[qIndex].text == qs[qIndex].text && r[qIndex].answer == qs[qIndex].answer
    ensures r[qIndex].marks == qs[qIndex].marks
    ensures |r[qIndex].options| == |qs[qIndex].options| && r[qIndex].options[optIndex] == value
    ensures forall o :: 0 <= o < |qs[qIndex].options| && o != optIndex ==>
      r[qIndex].options[o] == qs[qIndex].options[o]
  {
    var q := qs[qIndex];
    qs[qIndex := q.(options := q.options[optIndex := value])]
  }

  /** Adding a blank question raises the maximum score by its one mark. */
  lemma AddQuestionMaxScore(qs: seq<Question>)
    ensures MaxScore(AddQuestion(qs)) == MaxScore(qs) + 1
  {
    assert AddQuestion(qs)[..|qs|] == qs;
  }

  /** Removing a question lowers the maximum score by exactly its authored marks. */
  lemma RemoveQuestionMaxScore(qs: seq<Question>, index: nat)
    requires index < |qs|
    ensures MaxScore(RemoveQuestion(qs, index)) == MaxScore(qs) - AuthoredMarks(qs[index].marks)
  {
    var r := RemoveQuestion(qs, index);
    assert r == qs[..index] + qs[index + 1..];
    MaxScoreAround(qs, index);
    MaxScoreAppend(qs[..index], qs[index + 1..]);
  }

  /** Setting a question's marks replaces its contribution to the maximum score. */
  lemma SetMarksMaxScore(qs: seq<Question>, index: nat, n: int)
    requires index < |qs|
    ensures MaxScore(UpdateQuestion(qs, index, SetMarks(n))) == MaxScore(qs) - AuthoredMarks(qs[index].marks) + n
  {
    var r := UpdateQuestion(qs, index, SetMarks(n));
    assert r[..index] == qs[..index] && r[index + 1..] == qs[index + 1..];
    MaxScoreAround(qs, index);
    MaxScoreAround(r, index);
  }

  // ---------------------------------------------------------------------------
  // Upload

  /** A question the upload accepts: text, answer and every option non-empty, and marks
      truthy (not 0, not NaN). */
  predicate Complete(q: Question)
    ensures Complete(q) ==> !Defaulted(q) && AuthoredMarks(q.marks) == EffectiveMarks(q.marks)
  {
    q.text != "" && q.answer != "" &&
    (forall o :: 0 <= o < |q.options| ==> q.options[o] != "") &&
    q.marks != Numeric(0) && q.marks != Unparsable
  }

  /** The `for...of` loop of handleUpload, returning at the first incomplete question. */
  method ValidateQuestions(qs: seq<Question>) returns (ok: bool)
    ensures ok <==> forall i :: 0 <= i < |qs| ==> Complete(qs[i])
  {
    var i := 0;
    while i < |qs|
      invariant 0 <= i <= |qs|
      invariant forall j :: 0 <= j < i ==> Complete(qs[j])
    {
      var q := qs[i];
      if q.text == "" || q.answer == "" || (exists o :: 0 <= o < |q.options| && q.options[o] == "") ||
         q.marks == Numeric(0) || q.marks == Unparsable {
        return false;
      }
      i := i + 1;
    }
    return true;
  }

  /** A question as posted, with its number. */
  datatype NumberedQuestion = NumberedQuestion(question: Question, number: string)

  /** The numbering map: question i (from 0) is posted as "Q" followed by i + 1. */
  function Numbered(qs: seq<Question>): (r: seq<NumberedQuestion>)
    ensures |r| == |qs|
    ensures forall i :: 0 <= i < |qs| ==> r[i].question == qs[i] && r[i].number == "Q" + DecimalString(i + 1)
  {
    seq(|qs|, i requires 0 <= i < |qs| => NumberedQuestion(qs[i], "Q" + DecimalString(i + 1)))
  }

  /** No two posted questions share a number. */
  lemma NumbersDistinct(qs: seq<Question>, i: nat, j: nat)
    requires i < |qs| && j < |qs| && i != j
    ensures Numbered(qs)[i].number != Numbered(qs)[j].number
  {
    DecimalInjective(i + 1, j + 1);
    assert Numbered(qs)[i].number[1..] == DecimalString(i + 1);
    assert Numbered(qs)[j].number[1..] == DecimalString(j + 1);
  }

  /** The body posted to the assessments endpoint (the question list is sent as its JSON
      text; serialisation is not modelled). */
  datatype AssessmentPayload = AssessmentPayload(title: string, courseId: string,
                                                 questions: seq<NumberedQuestion>, maxScore: int)

  datatype UploadOutcome =
    | NoCourse                                 // "Please select a course."
    | Incomplete                               // "Please complete all fields in each question."
    | Posted(payload: AssessmentPayload)       // the post succeeded and the form was reset
    | PostFailed(payload: AssessmentPayload)   // the post failed; the form is kept

  /** The form's state. `maxScore` follows `questions` through an effect that runs after
      every change of the list, modelled by SyncMaxScore. */
  class AssessmentForm {
    var title: string
    var courseId: string
    var questions: seq<Question>
    var maxScore: int

    /** Consistent once the maxScore effect has run. */
    predicate Synced()
      reads this
    {
      maxScore == MaxScore(questions)
    }

    /** The initial state, once the effect has run on mount: one blank question, worth 1. */
    constructor ()
      ensures title == "" && courseId == "" && questions == [BlankQuestion]
      ensures maxScore == 1 && Synced()
    {
      title, courseId, questions := "", "", [BlankQuestion];
      maxScore := 1;
      assert [BlankQuestion][..0] == [];
    }

    /** The effect on `questions`: recomputes the maximum score. */
    method SyncMaxScore()
      modifies this
      ensures Synced()
      ensures title == old(title) && courseId == old(courseId) && questions == old(questions)
    {
      maxScore := MaxScore(questions);
    }

    method Add()
      modifies this
      ensures questions == AddQuestion(old(questions))
      ensures title == old(title) && courseId == old(courseId) && maxScore == old(maxScore)
    {
      questions := AddQuestion(questions);
    }

    method Remove(index: int)
      modifies this
      ensures questions == RemoveQuestion(old(questions), index)
      ensures title == old(title) && courseId == old(courseId) && maxScore == old(maxScore)
    {
      questions := RemoveQuestion(questions, index);
    }

    method Update(index: nat, e: Edit)
      requires index < |questions|
      modifies this
      ensures questions == UpdateQuestion(old(questions), index, e)
      ensures title == old(title) && courseId == old(courseId) && maxScore == old(maxScore)
    {
      questions := UpdateQuestion(questions, index, e);
    }

    method SetOption(qIndex: nat, optIndex: nat, value: string)
      requires qIndex < |questions| && optIndex < |questions[qIndex].options|
      modifies this
      ensures questions == UpdateOption(old(questions), qIndex, optIndex, value)
      ensures title == old(title) && courseId == old(courseId) && maxScore == old(maxScore)
    {
      questions := UpdateOption(questions, qIndex, optIndex, value);
    }

    /** handleUpload: an empty course id, then an incomplete question, abort before
        anything is posted; otherwise the numbered payload is posted and, if the post
        succeeds, the form is reset (`maxScore` to 0 until the effect recomputes it). */
    method HandleUpload(postSucceeded: bool) returns (outcome: UploadOutcome)
      modifies this
      ensures outcome == NoCourse <==> old(courseId) == ""
      ensures outcome == Incomplete <==>
        old(courseId) != "" && !(forall i :: 0 <= i < |old(questions)| ==> Complete(old(questions)[i]))
      ensures outcome.Posted? || outcome.PostFailed? ==>
        && (forall i :: 0 <= i < |old(questions)| ==> Complete(old(questions)[i]))
        && outcome.payload == AssessmentPayload(Trim(old(title)), old(courseId),
                                                Numbered(old(questions)), old(maxScore))
        && (outcome.Posted? <==> postSucceeded)
      ensures outcome.Posted? ==>
        title == "" && courseId == "" && questions == [BlankQuestion] && maxScore == 0
      ensures !outcome.Posted? ==>
        title == old(title) && courseId == old(courseId) &&
        questions == old(questions) && maxScore == old(maxScore)
    {
      if courseId == "" {
        return NoCourse;
      }
      var ok := ValidateQuestions(questions);
      if !ok {
        return Incomplete;
      }
      var payload := AssessmentPayload(Trim(title), courseId, Numbered(questions), maxScore);
      if postSucceeded {
        title, courseId, questions, maxScore := "", "", [BlankQuestion], 0;
        outcome := Posted(payload);
      } else {
        outcome := PostFailed(payload);
      }
    }
  }

  /** After a reset the effect brings the maximum score back to the blank question's mark. */
  lemma ResetFormMaxScore()
    ensures MaxScore([BlankQuestion]) == 1
  {
    assert [BlankQuestion][..0] == [];
  }
}
