/** A student's results page (src/components/Student/ViewResults.js): the results of the
    signed-in user, the assessments and courses indexed by id, the point totals and average,
    and each result card's percentage, colours, message and title. */
module Results {
  import opened Common
  import opened Token
  import opened Casing

  /** One row of the results table (the attempt date, a clock reading, is left out). */
  datatype ResultRecord = ResultRecord(resultId: string, assessmentId: string, userId: Json, score: int)

  datatype AssessmentInfo = AssessmentInfo(assessmentId: string, title: string, courseId: string, maxScore: int)

  datatype CourseInfo = CourseInfo(courseId: string, title: string)

  /** `String(r.userId) === String(userId)`. */
  predicate BelongsTo(r: ResultRecord, userId: Json) {
    ToText(r.userId) == ToText(userId)
  }

  /** The results kept for the signed-in user. */
  function UserResults(results: seq<ResultRecord>, userId: Json): (r: seq<ResultRecord>)
    ensures |r| <= |results|
    ensures forall i :: 0 <= i < |r| ==> r[i] in results && BelongsTo(r[i], userId)
    ensures forall i :: 0 <= i < |results| && BelongsTo(results[i], userId) ==> results[i] in r
  {
    Filter(results, (x: ResultRecord) => BelongsTo(x, userId))
  }

  /** The filter keeps the original order: the results of a concatenation are the results
      of each part, one after the other. */
  lemma UserResultsInOrder(a: seq<ResultRecord>, b: seq<ResultRecord>, userId: Json)
    ensures UserResults(a + b, userId) == UserResults(a, userId) + UserResults(b, userId)
  {
    FilterAppend(a, b, (x: ResultRecord) => BelongsTo(x, userId));
  }

  /** Both sides are compared as text, so a numeric id matches its decimal string. */
  lemma NumericIdMatchesText(resultId: string, assessmentId: string, score: int)
    ensures BelongsTo(ResultRecord(resultId, assessmentId, JNumber(42), score), JString("42"))
  {
    assert DecimalString(42) == DecimalString(4) + [DigitChar(2)];
  }

  // ---------------------------------------------------------------------------
  // Id-keyed maps

  /** The object `forEach((a) => (map[key(a)] = a))` builds: each record under its key,
      later records replacing earlier ones with the same key. */
  function IndexBy<T>(items: seq<T>, key: T -> string): map<string, T>
  {
    if items == [] then map[]
    else IndexBy(items[..|items| - 1], key)[key(items[|items| - 1]) := items[|items| - 1]]
  }

  /** The `forEach` loop filling an id map. */
  method BuildIndex<T>(items: seq<T>, key: T -> string) returns (m: map<string, T>)
    ensures m == IndexBy(items, key)
  {
    m := map[];
    var i := 0;
    while i < |items|
      invariant 0 <= i <= |items|
      invariant m == IndexBy(items[..i], key)
    {
      m := m[key(items[i]) := items[i]];
      assert items[..i + 1][..i] == items[..i];
      i := i + 1;
    }
    assert items[..i] == items;
  }

  /** A key is present exactly when some record has it. */
  lemma {:induction false} IndexByKeys<T>(items: seq<T>, key: T -> string, k: string)
    ensures k in IndexBy(items, key) <==> exists i :: 0 <= i < |items| && key(items[i]) == k
  {
    if items != [] {
      var n := |items| - 1;
      IndexByKeys(items[..n], key, k);
      if exists i :: 0 <= i < n && key(items[..n][i]) == k {
        var i :| 0 <= i < n && key(items[..n][i]) == k;
        assert items[i] == items[..n][i];
      }
      if exists i :: 0 <= i < |items| && key(items[i]) == k {
        var i :| 0 <= i < |items| && key(items[i]) == k;
        if i < n {
          assert items[..n][i] == items[i];
        }
      }
    }
  }

  /** The record stored under a key is the last record with that key. */
  lemma {:induction false} IndexByLastWins<T>(items: seq<T>, key: T -> string, i: nat)
    requires i < |items|
    requires forall j :: i < j < |items| ==> key(items[j]) != key(items[i])
    ensures key(items[i]) in IndexBy(items, key) && IndexBy(items, key)[key(items[i])] == items[i]
  {
    var n := |items| - 1;
    if i < n {
      forall j | i < j < n
        ensures key(items[..n][j]) != key(items[..n][i])
      {
        assert items[..n][j] == items[j];
      }
      IndexByLastWins(items[..n], key, i);
      assert items[..n][i] == items[i];
    }
  }

  // ---------------------------------------------------------------------------
  // Totals

  /** `totalPoints`: the sum of the kept scores. */
  function TotalPoints(results: seq<ResultRecord>): (r: int)
    ensures (forall i :: 0 <= i < |results| ==> results[i].score >= 0) ==> r >= 0
  {
    if results == [] then 0 else TotalPoints(results[..|results| - 1]) + results[|results| - 1].score
  }

  /** The maximum score of a result's assessment, or 0 when the assessment is unknown. */
  function KnownMaxScore(assessments: map<string, AssessmentInfo>, assessmentId: string): (r: int)
    ensures assessmentId !in assessments ==> r == 0
    ensures assessmentId in assessments ==> r == assessments[assessmentId].maxScore
  {
    if assessmentId in assessments then assessments[assessmentId].maxScore else 0
  }

  /** `possiblePoints`: the maximum scores of the results' assessments. */
  function PossiblePoints(results: seq<ResultRecord>, assessments: map<string, AssessmentInfo>): (r: int)
    ensures (forall i :: 0 <= i < |results| ==> results[i].assessmentId !in assessments) ==> r == 0
  {
    if results == [] then 0
    else PossiblePoints(results[..|results| - 1], assessments) +
         KnownMaxScore(assessments, results[|results| - 1].assessmentId)
  }

  /** When every result is of a known assessment and scores between 0 and its maximum,
      the total lies between 0 and the possible points. */
  lemma {:induction false} PointsBounds(results: seq<ResultRecord>, assessments: map<string, AssessmentInfo>)
    requires forall i :: 0 <= i < |results| ==>
      results[i].assessmentId in assessments &&
      0 <= results[i].score <= assessments[results[i].assessmentId].maxScore
    ensures 0 <= TotalPoints(results) <= PossiblePoints(results, assessments)
  {
    if results != [] {
      PointsBounds(results[..|results| - 1], assessments);
    }
  }

  /** A result of an unknown assessment adds its score to the total and nothing to the
      possible points. */
  lemma UnknownAssessmentAddsNothing(results: seq<ResultRecord>, r: ResultRecord, assessments: map<string, AssessmentInfo>)
    requires r.assessmentId !in assessments
    ensures PossiblePoints(results + [r], assessments) == PossiblePoints(results, assessments)
    ensures TotalPoints(results + [r]) == TotalPoints(results) + r.score
  {
    assert (results + [r])[..|results|] == results;
  }

  /** `average`: the rounded percentage of the possible points, or 0 when there are none. */
  function Average(total: int, possible: int): (r: int)
    ensures possible <= 0 ==> r == 0
    ensures possible > 0 ==> 2 * possible * r - possible <= 200 * total < 2 * possible * r + possible
  {
    if possible > 0 then RoundedPercent(total, possible) else 0
  }

  lemma AverageBounds(total: int, possible: int)
    requires 0 <= total <= possible
    ensures 0 <= Average(total, possible) <= 100
  {
    if possible > 0 {
      RoundedPercentBounds(total, possible);
    }
  }

  // ---------------------------------------------------------------------------
  // One result card

  /** The card's percentage: `Math.round((score / maxScore) * 100)`, the integer nearest to
      100·score/maxScore with halves rounded up, or 0 when maxScore is 0 (falsy). */
  function Percentage(score: int, maxScore: int): (r: int)
    ensures maxScore == 0 ==> r == 0
    ensures maxScore > 0 ==> 2 * maxScore * r - maxScore <= 200 * score < 2 * maxScore * r + maxScore
    ensures maxScore < 0 ==> 2 * -maxScore * r + maxScore <= 200 * -score < 2 * -maxScore * r - maxScore
  {
    if maxScore == 0 then 0
    else if maxScore > 0 then RoundedPercent(score, maxScore)
    else RoundedPercent(-score, -maxScore)
  }

  datatype Tone = Success | Warning | Danger

  function ToneRank(t: Tone): nat {
    match t
    case Danger => 0
    case Warning => 1
    case Success => 2
  }

  /** getScoreColor on the unrounded ratio: success from 80%, warning from 60%. A zero maximum
      gives +Infinity for a positive score (success) and NaN or -Infinity otherwise (danger).
      For a non-zero maximum the thresholds compare score/maxScore itself, stated here
      without division. */
  function ScoreColor(score: int, maxScore: int): (t: Tone)
    ensures maxScore != 0 ==>
      (t == Success <==> 5 * score * maxScore >= 4 * maxScore * maxScore) &&
      (t != Danger <==> 5 * score * maxScore >= 3 * maxScore * maxScore)
    ensures maxScore == 0 ==> (t == Success <==> score > 0) && t != Warning
  {
    var m := maxScore;
    if m == 0 then (if score > 0 then Success else Danger)
    else if m > 0 then
      MulCompare(m, 5 * score, 4 * m);
      MulCompare(m, 5 * score, 3 * m);
      if 5 * score >= 4 * m then Success else if 5 * score >= 3 * m then Warning else Danger
    else
      MulCompare(-m, -5 * score, -4 * m);
      MulCompare(-m, -5 * score, -3 * m);
      if 5 * score <= 4 * m then Success else if 5 * score <= 3 * m then Warning else Danger
  }

  /** For a fixed positive maximum a higher score never gets a worse colour. */
  lemma ScoreColorMonotone(s1: int, s2: int, maxScore: int)
    requires maxScore > 0 && s1 <= s2
    ensures ToneRank(ScoreColor(s1, maxScore)) <= ToneRank(ScoreColor(s2, maxScore))
  {
    MulCompare(maxScore, 5 * s1, 4 * maxScore);
    MulCompare(maxScore, 5 * s2, 4 * maxScore);
    MulCompare(maxScore, 5 * s1, 3 * maxScore);
    MulCompare(maxScore, 5 * s2, 3 * maxScore);
  }

  /** The badge and progress bar colour, on the rounded percentage. */
  function BadgeColor(percentage: int): (t: Tone)
    ensures t == Success <==> percentage >= 80
    ensures t == Warning <==> 60 <= percentage < 80
  {
    if percentage >= 80 then Success else if percentage >= 60 then Warning else Danger
  }

  /** Rounding never lowers a percentage below an integer threshold it reached, so the
      badge is at least as good as the score colour. */
  lemma BadgeAtLeastScoreColor(score: int, maxScore: int)
    requires maxScore > 0
    ensures ToneRank(ScoreColor(score, maxScore)) <= ToneRank(BadgeColor(Percentage(score, maxScore)))
  {
    var p := Percentage(score, maxScore);
    MulCompare(maxScore, 5 * score, 4 * maxScore);
    MulCompare(maxScore, 5 * score, 3 * maxScore);
    MulCompare(2 * maxScore, p, 80);
    MulCompare(2 * maxScore, p, 60);
    MulCompare(2 * maxScore, 79, p);
    MulCompare(2 * maxScore, 59, p);
  }

  /** The converse fails: 159 of 200 is 79.5%, a warning-coloured score under a badge that
      rounds to 80% and is coloured success. */
  lemma BadgeCanExceedScoreColor()
    ensures ScoreColor(159, 200) == Warning && Percentage(159, 200) == 80
    ensures BadgeColor(Percentage(159, 200)) == Success
  {
  }

  /** The message in the card footer. */
  datatype Message = Excellent | GreatJob | GoodWork | KeepImproving | NeedMorePractice

  function MessageRank(m: Message): nat {
    match m
    case NeedMorePractice => 0
    case KeepImproving => 1
    case GoodWork => 2
    case GreatJob => 3
    case Excellent => 4
  }

  /** The bands 90, 80, 70 and 60: every percentage falls in exactly one. */
  function Band(percentage: int): (m: Message)
    ensures m == Excellent <==> percentage >= 90
    ensures m == GreatJob <==> 80 <= percentage < 90
    ensures m == GoodWork <==> 70 <= percentage < 80
    ensures m == KeepImproving <==> 60 <= percentage < 70
    ensures m == NeedMorePractice <==> percentage < 60
  {
    if percentage >= 90 then Excellent
    else if percentage >= 80 then GreatJob
    else if percentage >= 70 then GoodWork
    else if percentage >= 60 then KeepImproving
    else NeedMorePractice
  }

  /** A higher percentage never gets a lower band; the two top bands are the success badge. */
  lemma BandMonotone(p1: int, p2: int)
    requires p1 <= p2
    ensures MessageRank(Band(p1)) <= MessageRank(Band(p2))
    ensures Band(p1) in {Excellent, GreatJob} <==> BadgeColor(p1) == Success
  {
  }

  /** toPascalCase of this page: empty for empty text; otherwise symbols are removed, each
      word is capitalised with the rest of it lower-cased, and the ends are trimmed. */
  function TitleCase(text: string): (r: string)
    ensures |r| <= |text|
    ensures text == [] ==> r == []
    ensures forall i :: 0 <= i < |r| ==> IsKept(r[i])
    ensures r == [] || (r[0] != ' ' && r[|r| - 1] != ' ')
    ensures SameUpToCase(r, Trim(StripSymbols(text)))
    ensures WellCased(r)
  {
    if text == [] then
      assert StripSymbols(text) == [];
      []
    else
      TrimmedCapitalization(StripSymbols(text));
      Trim(CapitalizeWords(StripSymbols(text)))
  }

  /** Capitalising the stripped text and then trimming it: kept characters only, the same
      letters up to case as the trimmed stripped text, and well-cased. */
  lemma TrimmedCapitalization(stripped: string)
    requires AllKept(stripped)
    ensures |Trim(CapitalizeWords(stripped))| <= |stripped|
    ensures Trim(CapitalizeWords(stripped)) == [] ||
      (Trim(CapitalizeWords(stripped))[0] != ' ' &&
       Trim(CapitalizeWords(stripped))[|Trim(CapitalizeWords(stripped))| - 1] != ' ')
    ensures AllKept(Trim(CapitalizeWords(stripped)))
    ensures SameUpToCase(Trim(CapitalizeWords(stripped)), Trim(stripped))
    ensures WellCased(Trim(CapitalizeWords(stripped)))
  {
    CapitalizeWordsCharacters(stripped);
    TrimKeepsKept(CapitalizeWords(stripped));
    TrimSameUpToCase(CapitalizeWords(stripped), stripped);
    CapitalizeWordsWellCased(stripped);
    TrimWellCased(CapitalizeWords(stripped));
  }

  /** The card heading: the assessment's title, or "Assessment <id>" when it is unknown. */
  function CardTitle(result: ResultRecord, assessments: map<string, AssessmentInfo>): (r: string)
    ensures result.assessmentId in assessments ==> r == TitleCase(assessments[result.assessmentId].title)
    ensures result.assessmentId !in assessments ==> r == TitleCase("Assessment " + result.assessmentId)
  {
    TitleCase(if result.assessmentId in assessments then assessments[result.assessmentId].title
              else "Assessment " + result.assessmentId)
  }

  /** The course badge: shown only for a known assessment whose course is known. */
  function CardCourse(result: ResultRecord, assessments: map<string, AssessmentInfo>,
                      courses: map<string, CourseInfo>): (r: Option<CourseInfo>)
    ensures r.Some? <==> result.assessmentId in assessments && assessments[result.assessmentId].courseId in courses
    ensures r.Some? ==> r.value == courses[assessments[result.assessmentId].courseId]
  {
    if result.assessmentId in assessments && assessments[result.assessmentId].courseId in courses
    then Some(courses[assessments[result.assessmentId].courseId]) else None
  }

  // ---------------------------------------------------------------------------
  // Loading the page

  datatype ResultsView =
    | Loading
    | Loaded(results: seq<ResultRecord>, assessments: map<string, AssessmentInfo>, courses: map<string, CourseInfo>)

  /** The fetch effect. Without a truthy user id it returns before its `try` block, so the
      loading flag is never cleared and the spinner stays. A failed fetch ends with nothing
      loaded, which shows the "No Results Found" state. */
  method LoadResults(userId: Option<Json>, fetched: Option<(seq<ResultRecord>, seq<AssessmentInfo>, seq<CourseInfo>)>)
    returns (view: ResultsView)
    ensures !TruthyOpt(userId) <==> view == Loading
    ensures TruthyOpt(userId) && fetched.None? ==> view == Loaded([], map[], map[])
    ensures TruthyOpt(userId) && fetched.Some? ==>
      view.Loaded? &&
      view.results == UserResults(fetched.value.0, userId.value) &&
      view.assessments == IndexBy(fetched.value.1, (a: AssessmentInfo) => a.assessmentId) &&
      view.courses == IndexBy(fetched.value.2, (c: CourseInfo) => c.courseId)
  {
    if !TruthyOpt(userId) {
      return Loading;
    }
    if fetched.None? {
      return Loaded([], map[], map[]);
    }
    var (resultsData, assessmentsData, coursesData) := fetched.value;
    var userResults := UserResults(resultsData, userId.value);
    var assessmentMap := BuildIndex(assessmentsData, (a: AssessmentInfo) => a.assessmentId);
    var courseMap := BuildIndex(coursesData, (c: CourseInfo) => c.courseId);
    view := Loaded(userResults, assessmentMap, courseMap);
  }
}
