/** The student's course catalogue (src/components/Student/CourseList.js): the title casing,
    the case-insensitive search and what the page shows. The search is shared with
    src/components/Student/StudentAssessmentList.js. */
module Catalog {
  import opened Common

  /** A course as the catalogue lists it (the description and media are display-only). */
  datatype Course = Course(courseId: string, title: string)

  // ---------------------------------------------------------------------------
  // toPascalCase: `toLowerCase().split(' ').map(capitalize first).join(' ')`

  /** The split-map-join over single spaces, before the lower-casing. */
  function CapitalizePieces(t: string): string
  {
    Join(CapitalizeAll(Split(t, {' '})), " ")
  }

  /** `r` is `t` with the first character after each single space, and the first character,
      upper-cased. */
  predicate CapitalizedAt(t: string, r: string) {
    |r| == |t| && forall i :: 0 <= i < |t| ==> r[i] == CapitalizedChar(t, i)
  }

  function CapitalizedChar(t: string, i: nat): char
    requires i < |t|
  {
    if t[i] == ' ' then ' ' else if i == 0 || t[i - 1] == ' ' then Upper(t[i]) else t[i]
  }

  lemma CapitalizeFirstAt(w: string)
    requires forall j :: 0 <= j < |w| ==> w[j] != ' '
    ensures CapitalizedAt(w, CapitalizeFirst(w))
  {
    var r := CapitalizeFirst(w);
    forall i | 0 < i < |w| ensures r[i] == w[i] {
      assert r[i] == r[1..][i - 1] == w[1..][i - 1];
    }
  }

  lemma CapitalizedAtIndex(t: string, r: string, j: nat)
    requires CapitalizedAt(t, r) && j < |t|
    ensures r[j] == CapitalizedChar(t, j)
  {
  }

  lemma CapitalizedAtJoin(a: string, ra: string, b: string, rb: string)
    requires CapitalizedAt(a, ra) && CapitalizedAt(b, rb)
    ensures CapitalizedAt(a + " " + b, ra + " " + rb)
  {
    var t := a + " " + b;
    var r := ra + " " + rb;
    forall i | 0 <= i < |t|
      ensures r[i] == CapitalizedChar(t, i)
    {
      if i < |a| {
        assert t[i] == a[i] && r[i] == ra[i];
        if i > 0 {
          assert t[i - 1] == a[i - 1];
        }
      } else if i > |a| {
        var j := i - |a| - 1;
        assert t[i] == b[j] && r[i] == rb[j];
        CapitalizedAtIndex(b, rb, j);
        if j > 0 {
          assert t[i - 1] == b[j - 1];
        }
      }
    }
  }

  /** Splitting on single spaces keeps the empty pieces, so every character keeps its
      position: a space stays a space and only the first character of each piece changes. */
  lemma {:induction false} CapitalizePiecesAt(t: string)
    ensures CapitalizedAt(t, CapitalizePieces(t))
    decreases |t|
  {
    var k := FirstIndexOf(t, {' '});
    if k == |t| {
      assert Split(t, {' '}) == [t];
      CapitalizeFirstAt(t);
    } else {
      var a := t[..k];
      var b := t[k + 1..];
      assert t == a + " " + b;
      CapitalizePiecesStep(a, b);
      CapitalizeFirstAt(a);
      CapitalizePiecesAt(b);
      CapitalizedAtJoin(a, CapitalizeFirst(a), b, CapitalizePieces(b));
    }
  }

  /** One piece and one space at a time. */
  lemma CapitalizePiecesStep(a: string, b: string)
    requires forall j :: 0 <= j < |a| ==> a[j] != ' '
    ensures CapitalizePieces(a + " " + b) == CapitalizeFirst(a) + " " + CapitalizePieces(b)
  {
    SplitAfterFree(a, ' ', b, {' '});
    CapitalizeAllCons(a, Split(b, {' '}));
    JoinCons(CapitalizeFirst(a), CapitalizeAll(Split(b, {' '})), " ");
  }

  /** toPascalCase: "" for a missing or empty title; otherwise the title keeps its length
      and its spaces, the first character and every character after a space is upper-cased
      and every other character lower-cased. */
  function TitleCase(text: Option<string>): (r: string)
    ensures text.None? ==> r == ""
    ensures text.Some? ==> |r| == |text.value|
    ensures text.Some? ==> forall i :: 0 <= i < |r| ==>
      r[i] == (if text.value[i] == ' ' then ' '
               else if i == 0 || text.value[i - 1] == ' ' then Upper(text.value[i])
               else Lower(text.value[i]))
  {
    if text.None? || text.value == "" then ""
    else
      var s := text.value;
      var lowered := LowerStr(s);
      CapitalizePiecesAt(lowered);
      forall i | 0 <= i < |s| ensures Upper(Lower(s[i])) == Upper(s[i]) {
        UpperOfLower(s[i]);
      }
      CapitalizePieces(lowered)
  }

  // ---------------------------------------------------------------------------
  // The search

  /** `course.title.toLowerCase().includes(searchTerm.toLowerCase())`. */
  function MatchesTerm(term: string): Course -> bool {
    (c: Course) => Contains(LowerStr(c.title), LowerStr(term))
  }

  /** filteredCourses: exactly the courses whose title contains the term, ignoring case,
      in their original order. src/components/Student/StudentAssessmentList.js filters its
      course list with the same expression. */
  function Search(courses: seq<Course>, term: string): (r: seq<Course>)
    ensures |r| <= |courses|
    ensures forall i :: 0 <= i < |r| ==> r[i] in courses && Contains(LowerStr(r[i].title), LowerStr(term))
    ensures forall i :: 0 <= i < |courses| && Contains(LowerStr(courses[i].title), LowerStr(term)) ==>
      courses[i] in r
  {
    Filter(courses, MatchesTerm(term))
  }

  /** An empty term is contained in every title, so it keeps every course. */
  lemma EmptyTermKeepsAll(courses: seq<Course>)
    ensures Search(courses, "") == courses
  {
    forall i | 0 <= i < |courses| ensures MatchesTerm("")(courses[i]) {
      assert LowerStr("") == [];
    }
    FilterKeepsAll(courses, MatchesTerm(""));
  }

  /** The case of the term does not matter. */
  lemma {:induction false} SearchIgnoresTermCase(courses: seq<Course>, t1: string, t2: string)
    requires LowerStr(t1) == LowerStr(t2)
    ensures Search(courses, t1) == Search(courses, t2)
  {
    if courses != [] {
      SearchIgnoresTermCase(courses[1..], t1, t2);
    }
  }

  /** Searching a concatenation searches each part: the result keeps the input's order. */
  lemma SearchAppend(a: seq<Course>, b: seq<Course>, term: string)
    ensures Search(a + b, term) == Search(a, term) + Search(b, term)
  {
    FilterAppend(a, b, MatchesTerm(term));
  }

  // ---------------------------------------------------------------------------
  // What the page shows

  datatype CourseListView = Loading | LoadError | NoCoursesFound | Listing(courses: seq<Course>)

  /** The page: a spinner while loading, the error once the fetch failed (`fetched` is
      None), "No Courses Found" when the search leaves nothing, and the matching courses
      otherwise. */
  function View(loading: bool, fetched: Option<seq<Course>>, term: string): (v: CourseListView)
    ensures loading <==> v == Loading
    ensures v == LoadError <==> !loading && fetched.None?
    ensures v == NoCoursesFound <==> !loading && fetched.Some? && Search(fetched.value, term) == []
    ensures v.Listing? ==> fetched.Some? && v.courses == Search(fetched.value, term) && v.courses != []
  {
    if loading then Loading
    else if fetched.None? then LoadError
    else
      var shown := Search(fetched.value, term);
      if shown == [] then NoCoursesFound else Listing(shown)
  }

  /** Without a search term, the notice appears only when there is no course at all. */
  lemma NoCoursesFoundWithoutTerm(courses: seq<Course>)
    ensures View(false, Some(courses), "") == NoCoursesFound <==> courses == []
  {
    EmptyTermKeepsAll(courses);
  }
}
