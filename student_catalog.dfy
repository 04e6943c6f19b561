/** The student's list of assessments by course (src/components/Student/StudentAssessmentList.js):
    its title casing, the assessments of the selected course and the link
    each one offers. Its course search is Catalog.Search. */
module StudentAssessments {
  import opened Common
  import opened Casing
  import Catalog
  import App

  /** An assessment as the list shows it. */
  datatype Assessment = Assessment(assessmentId: string, courseId: string, title: string)

  /** toPascalCase: the symbols are dropped and each word capitalised; unlike the other
      variants nothing is trimmed, so the spaces stay where the stripping left them. */
  function TitleCase(text: string): (r: string)
    ensures |r| == |StripSymbols(text)| && |r| <= |text|
    ensures AllKept(r)
    ensures forall i :: 0 <= i < |r| ==> (r[i] == ' ' <==> StripSymbols(text)[i] == ' ')
    ensures SameUpToCase(r, StripSymbols(text))
    ensures WellCased(r)
  {
    CapitalizeWordsCharacters(StripSymbols(text));
    CapitalizeWordsWellCased(StripSymbols(text));
    CapitalizeWords(StripSymbols(text))
  }

  /** A leading space survives: nothing is trimmed. */
  lemma TitleCaseKeepsLeadingSpace(text: string)
    requires text != [] && text[0] == ' '
    ensures TitleCase(text) != [] && TitleCase(text)[0] == ' '
  {
    assert StripSymbols(text) == [' '] + StripSymbols(text[1..]);
  }

  /** `a => a.courseId === selectedCourse.courseId`. */
  function InCourse(courseId: string): Assessment -> bool {
    (a: Assessment) => a.courseId == courseId
  }

  /** The assessments of one course, in the order fetched. */
  function AssessmentsOf(all: seq<Assessment>, courseId: string): (r: seq<Assessment>)
    ensures |r| <= |all|
    ensures forall i :: 0 <= i < |r| ==> r[i].courseId == courseId && r[i] in all
    ensures forall i :: 0 <= i < |all| && all[i].courseId == courseId ==> all[i] in r
  {
    Filter(all, InCourse(courseId))
  }

  /** Filtering the assessments of a course again by the same course keeps them all. */
  lemma AssessmentsOfIdempotent(all: seq<Assessment>, courseId: string)
    ensures AssessmentsOf(AssessmentsOf(all, courseId), courseId) == AssessmentsOf(all, courseId)
  {
    FilterKeepsAll(AssessmentsOf(all, courseId), InCourse(courseId));
  }

  /** The assessments effect: nothing is fetched before a course is selected, and a failed
      fetch (`fetched` is None) keeps the list that was shown. */
  function ShownAssessments(selected: Option<Catalog.Course>, fetched: Option<seq<Assessment>>,
                            current: seq<Assessment>): (r: seq<Assessment>)
    ensures selected.None? || fetched.None? ==> r == current
    ensures selected.Some? && fetched.Some? ==>
      forall i :: 0 <= i < |r| ==> r[i].courseId == selected.value.courseId && r[i] in fetched.value
    ensures selected.Some? && fetched.Some? ==> r == AssessmentsOf(fetched.value, selected.value.courseId)
  {
    if selected.None? || fetched.None? then current
    else AssessmentsOf(fetched.value, selected.value.courseId)
  }

  /** The "Take" link of an assessment. */
  function TakeLink(assessmentId: string): (r: string)
    ensures App.TakeAssessmentPrefix <= r && |r| == |App.TakeAssessmentPrefix| + |assessmentId|
  {
    App.TakeAssessmentPrefix + assessmentId
  }

  /** The link of an assessment whose id is not empty and holds no '/' opens a page the
      route table reserves for students. */
  lemma TakeLinkIsStudentRoute(assessmentId: string)
    requires assessmentId != "" && forall j :: 0 <= j < |assessmentId| ==> assessmentId[j] != '/'
    ensures App.RouteOf(TakeLink(assessmentId)) == App.PrivatePage("Student")
  {
    App.TakeAssessmentKey(assessmentId);
  }
}
