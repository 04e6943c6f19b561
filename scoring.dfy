/** Assessment taking and scoring (src/components/Student/TakeAssessment.js): the answers a
    student selects, the score computed when the attempt is submitted, and the total
    possible marks shown beside it. */
module Scoring {
  import opened Common
  import opened Token

  /** What `parseInt(q.marks)` yields: an integer, or NaN for a missing or non-numeric value. */
  datatype Marks = Numeric(n: int) | Unparsable

  /** One question as stored in the assessment: its text, the option texts, the text of the
      correct option and its marks. */
  datatype Question = Question(text: string, options: seq<string>, answer: string, marks: Marks)

  /** The selected option text per question index (`answers` state); unanswered questions
      have no entry. */
  type Answers = map<nat, string>

  /** `parseInt(q.marks) || 1`: zero and NaN fall back to 1, every other value is kept. */
  function EffectiveMarks(m: Marks): (r: int)
    ensures r != 0
    ensures m.Numeric? && m.n != 0 ==> r == m.n
    ensures m == Unparsable || m == Numeric(0) ==> r == 1
  {
    match m
    case Numeric(n) => if n != 0 then n else 1
    case Unparsable => 1
  }

  /** The answer given to question `i` is, character for character, its correct answer. An
      unanswered question is never correct. */
  predicate IsCorrect(answers: Answers, i: nat, q: Question)
    ensures IsCorrect(answers, i, q) ==> i in answers
  {
    i in answers && answers[i] == q.answer
  }

  /** A question is answered correctly exactly when selecting its correct option again
      would change nothing. */
  lemma CorrectIffReselectIsNoop(answers: Answers, i: nat, q: Question)
    ensures IsCorrect(answers, i, q) <==> SelectAnswer(answers, i, q.answer) == answers
  {
    if SelectAnswer(answers, i, q.answer) == answers {
      assert i in SelectAnswer(answers, i, q.answer);
    }
  }

  /** The score: the effective marks of exactly the questions answered correctly. */
  function Earned(qs: seq<Question>, answers: Answers): (r: int)
    ensures (forall i :: 0 <= i < |qs| ==> !IsCorrect(answers, i, qs[i])) ==> r == 0
  {
    if qs == [] then 0
    else
      var i := |qs| - 1;
      Earned(qs[..i], answers) + (if IsCorrect(answers, i, qs[i]) then EffectiveMarks(qs[i].marks) else 0)
  }

  /** `totalPossibleMarks`: the effective marks of every question. */
  function Possible(qs: seq<Question>): (r: int)
    ensures (forall i :: 0 <= i < |qs| ==> qs[i].marks in {Unparsable, Numeric(0)}) ==> r == |qs|
  {
    if qs == [] then 0 else Possible(qs[..|qs| - 1]) + EffectiveMarks(qs[|qs| - 1].marks)
  }

  /** The scoring loop of handleSubmit, accumulating into `score` question by question. */
  method ScoreAnswers(qs: seq<Question>, answers: Answers) returns (score: int)
    ensures score == Earned(qs, answers)
  {
    score := 0;
    var idx := 0;
    while idx < |qs|
      invariant 0 <= idx <= |qs|
      invariant score == Earned(qs[..idx], answers)
    {
      var q := qs[idx];
      var questionMarks := EffectiveMarks(q.marks);
      if idx in answers && answers[idx] == q.answer {
        score := score + questionMarks;
      }
      assert qs[..idx + 1][..idx] == qs[..idx];
      idx := idx + 1;
    }
    assert qs[..idx] == qs;
  }

  /** With every effective mark non-negative, the score lies between 0 and the total possible. */
  lemma {:induction false} EarnedBounds(qs: seq<Question>, answers: Answers)
    requires forall i :: 0 <= i < |qs| ==> EffectiveMarks(qs[i].marks) >= 0
    ensures 0 <= Earned(qs, answers) <= Possible(qs)
  {
    if qs != [] {
      EarnedBounds(qs[..|qs| - 1], answers);
    }
  }

  /** Answering every question correctly scores the total possible. */
  lemma {:induction false} AllCorrectEarnsPossible(qs: seq<Question>, answers: Answers)
    requires forall i :: 0 <= i < |qs| ==> IsCorrect(answers, i, qs[i])
    ensures Earned(qs, answers) == Possible(qs)
  {
    if qs != [] {
      AllCorrectEarnsPossible(qs[..|qs| - 1], answers);
    }
  }

  /** Unanswered questions never match: with no answers at all the score is 0. */
  lemma {:induction false} NoAnswersEarnNothing(qs: seq<Question>)
    ensures Earned(qs, map[]) == 0
  {
    if qs != [] {
      NoAnswersEarnNothing(qs[..|qs| - 1]);
    }
  }

  /** Every question has a non-zero effective mark, so with positive marks the total possible
      is at least the number of questions. */
  lemma {:induction false} PossibleAtLeastCount(qs: seq<Question>)
    requires forall i :: 0 <= i < |qs| ==> EffectiveMarks(qs[i].marks) > 0
    ensures Possible(qs) >= |qs|
  {
    if qs != [] {
      PossibleAtLeastCount(qs[..|qs| - 1]);
    }
  }

  /** handleChange: records the selected option for one question; every other entry is kept. */
  function SelectAnswer(answers: Answers, questionIndex: nat, selectedOption: string): (r: Answers)
    ensures questionIndex in r && r[questionIndex] == selectedOption
    ensures r.Keys == answers.Keys + {questionIndex}
    ensures forall j :: j in answers && j != questionIndex ==> r[j] == answers[j]
  {
    answers[questionIndex := selectedOption]
  }

  /** Selecting the correct option for a question not yet answered correctly raises the
      score by exactly that question's effective marks: the other questions are unaffected. */
  lemma {:induction false} SelectingCorrectOption(qs: seq<Question>, answers: Answers, i: nat)
    requires i < |qs| && !IsCorrect(answers, i, qs[i])
    ensures Earned(qs, SelectAnswer(answers, i, qs[i].answer)) == Earned(qs, answers) + EffectiveMarks(qs[i].marks)
  {
    var last := |qs| - 1;
    var updated := SelectAnswer(answers, i, qs[i].answer);
    if i < last {
      assert qs[..last][i] == qs[i];
      SelectingCorrectOption(qs[..last], answers, i);
    } else {
      EarnedIgnoresLaterAnswers(qs[..last], answers, updated);
    }
  }

  /** The score of the first questions depends only on the answers given to them. */
  lemma {:induction false} EarnedIgnoresLaterAnswers(qs: seq<Question>, a: Answers, b: Answers)
    requires forall j: nat :: j < |qs| ==> (j in a <==> j in b) && (j in a ==> a[j] == b[j])
    ensures Earned(qs, a) == Earned(qs, b)
  {
    if qs != [] {
      EarnedIgnoresLaterAnswers(qs[..|qs| - 1], a, b);
    }
  }

  /** The submit button is enabled once at least one question is answered, so partial
      answer sets reach the scoring loop. */
  predicate SubmitEnabled(answers: Answers)
    ensures !SubmitEnabled(answers) <==> answers == map[]
  {
    |answers| > 0
  }

  /** The result record posted to the server (attemptDate, a clock reading, is left out). */
  datatype ResultDto = ResultDto(assessmentId: string, userId: Json, score: int)

  datatype SubmitOutcome =
    | LoginRequired                                    // no user id: alert and go to /login
    | Submitted(dto: ResultDto, possible: int)         // posted, with the total shown to the student

  /** handleSubmit: without a user id in the stored token nothing is scored or posted;
      otherwise the attempt is scored and the result posted. */
  method HandleSubmit(token: Option<string>, decode: string -> Payload, assessmentId: string,
                      qs: seq<Question>, answers: Answers)
    returns (out: SubmitOutcome)
    ensures out == LoginRequired <==> UserIdFromToken(token, decode).None?
    ensures out.Submitted? ==>
      && out.dto.userId == UserIdFromToken(token, decode).value
      && out.dto.assessmentId == assessmentId
      && out.dto.score == Earned(qs, answers)
      && out.possible == Possible(qs)
  {
    var userId := UserIdFromToken(token, decode);
    if userId.None? {
      return LoginRequired;
    }
    var score := ScoreAnswers(qs, answers);
    out := Submitted(ResultDto(assessmentId, userId.value, score), Possible(qs));
  }

  /** The worked example: "4" is right for 2 marks, "Rome" is wrong for 1 mark, so the attempt
      scores 2 of 3, shown as 67%. */
  lemma WorkedExample()
    ensures
      var qs := [Question("2+2?", ["3", "4", "5"], "4", Numeric(2)),
                 Question("Capital of France?", ["Paris", "Rome", "Berlin"], "Paris", Numeric(1))];
      var answers: Answers := map[0 := "4", 1 := "Rome"];
      Earned(qs, answers) == 2 && Possible(qs) == 3 && RoundedPercent(2, 3) == 67
  {
    var qs := [Question("2+2?", ["3", "4", "5"], "4", Numeric(2)),
               Question("Capital of France?", ["Paris", "Rome", "Berlin"], "Paris", Numeric(1))];
    assert qs[..1][..0] == [];
    assert qs[..1] == [qs[0]];
  }
}
