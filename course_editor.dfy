/** The instructor's course list and its edit dialog (src/components/Instructor/CoursesList.js):
    the title casing, the list updates after a delete or a save, the edit form's validation,
    the media URL that is saved, the media-type icon and the switch between URL and file. */
module CourseEditor {
  import opened Common
  import CourseUpload

  // ---------------------------------------------------------------------------
  // toPascalCase: `replace(/\w\S*/g, …)`, then `replace(/\s+/g, " ")`, then `trim()`

  /** Whether, before position i of s, the current whitespace-delimited token already holds a
      word character, that is, whether a `\w\S*` match is open at i; `open0` says whether one
      was open before s began. */
  predicate WordSeen(s: string, i: nat, open0: bool)
    requires i <= |s|
  {
    if i == 0 then open0
    else !IsSpace(s[i - 1]) && (IsWordChar(s[i - 1]) || WordSeen(s, i - 1, open0))
  }

  /** Whitespace ends a token; none lies between j and i. */
  predicate NoSpaceBetween(s: string, j: nat, i: nat)
    requires j <= i <= |s|
  {
    forall k :: j <= k < i ==> !IsSpace(s[k])
  }

  /** A match is open at i exactly when some word character comes before i with no
      whitespace after it. */
  lemma {:induction false} WordSeenMeaning(s: string, i: nat)
    requires i <= |s|
    ensures WordSeen(s, i, false) <==> exists j :: 0 <= j < i && IsWordChar(s[j]) && NoSpaceBetween(s, j, i)
  {
    if i > 0 {
      WordSeenMeaning(s, i - 1);
      if WordSeen(s, i, false) {
        if IsWordChar(s[i - 1]) {
          assert NoSpaceBetween(s, i - 1, i);
        } else {
          var j :| 0 <= j < i - 1 && IsWordChar(s[j]) && NoSpaceBetween(s, j, i - 1);
          assert NoSpaceBetween(s, j, i);
        }
      } else {
        forall j | 0 <= j < i && IsWordChar(s[j])
          ensures !NoSpaceBetween(s, j, i)
        {
          if !IsSpace(s[i - 1]) {
            assert j < i - 1;
            assert !NoSpaceBetween(s, j, i - 1);
          }
        }
      }
    }
  }

  /** Dropping the first character moves the open-match state one step along. */
  lemma {:induction false} WordSeenShift(s: string, open0: bool, j: nat)
    requires 0 < |s| && j < |s|
    ensures WordSeen(s[1..], j, !IsSpace(s[0]) && (open0 || IsWordChar(s[0]))) == WordSeen(s, j + 1, open0)
  {
    if j > 0 {
      assert s[1..][j - 1] == s[j];
      WordSeenShift(s, open0, j - 1);
    }
  }

  /** The first replacement as a left-to-right scan: a word character outside a match opens
      one and is upper-cased, every other non-space character of an open match is
      lower-cased, and whitespace closes the match. Characters before a token's first word
      character are copied (upper-casing leaves them as they are). */
  function TokenCaseFrom(s: string, open0: bool): (r: string)
    ensures |r| == |s|
    ensures forall i :: 0 <= i < |s| ==> r[i] == TokenChar(s, i, open0)
  {
    if s == [] then []
    else
      var c := s[0];
      var rest := TokenCaseFrom(s[1..], !IsSpace(c) && (open0 || IsWordChar(c)));
      var r := [if IsSpace(c) then c else if open0 then Lower(c) else Upper(c)] + rest;
      forall i | 1 <= i < |s|
        ensures r[i] == TokenChar(s, i, open0)
      {
        assert r[i] == rest[i - 1];
        TokenCharShift(s, open0, i);
      }
      r
  }

  /** Character i of the scan: whitespace is kept, the first character of a match is
      upper-cased and the rest of it lower-cased. */
  function TokenChar(s: string, i: nat, open0: bool): char
    requires i < |s|
  {
    if IsSpace(s[i]) then s[i] else if WordSeen(s, i, open0) then Lower(s[i]) else Upper(s[i])
  }

  lemma TokenCharShift(s: string, open0: bool, i: nat)
    requires 1 <= i < |s|
    ensures TokenChar(s[1..], i - 1, !IsSpace(s[0]) && (open0 || IsWordChar(s[0]))) == TokenChar(s, i, open0)
  {
    assert s[1..][i - 1] == s[i];
    WordSeenShift(s, open0, i - 1);
  }

  /** The characters change at most in case. */
  lemma TokenCaseSameUpToCase(s: string)
    ensures SameUpToCase(TokenCaseFrom(s, false), s)
  {
    var r := TokenCaseFrom(s, false);
    forall i | 0 <= i < |s|
      ensures Lower(r[i]) == Lower(s[i])
    {
      LowerOfCase(s[i]);
    }
  }

  /** `replace(/\s+/g, " ")` as a scan: each run of whitespace becomes one space;
      `afterSpace` says whether a run is already being replaced. */
  function CollapseFrom(s: string, afterSpace: bool): (r: string)
    ensures |r| <= |s|
    ensures forall i :: 0 <= i < |r| && IsSpace(r[i]) ==> r[i] == ' '
    ensures forall i :: 0 < i < |r| && IsSpace(r[i]) ==> !IsSpace(r[i - 1])
    ensures afterSpace && r != [] ==> !IsSpace(r[0])
  {
    if s == [] then []
    else if IsSpace(s[0]) then
      var rest := CollapseFrom(s[1..], true);
      if afterSpace then rest else [' '] + rest
    else
      [s[0]] + CollapseFrom(s[1..], false)
  }

  /** Collapsing keeps every other character, in order. */
  lemma {:induction false} CollapseKeepsNonSpace(s: string, afterSpace: bool)
    ensures NonSpace(CollapseFrom(s, afterSpace)) == NonSpace(s)
    decreases |s|
  {
    if s != [] {
      CollapseKeepsNonSpace(s[1..], IsSpace(s[0]));
      var rest := CollapseFrom(s[1..], IsSpace(s[0]));
      if IsSpace(s[0]) && !afterSpace {
        assert ([' '] + rest)[1..] == rest;
      } else if !IsSpace(s[0]) {
        assert ([s[0]] + rest)[1..] == rest;
      }
    }
  }

  /** Every whitespace character is a plain space and no two are adjacent. */
  predicate SingleSpaced(t: string) {
    && (forall i :: 0 <= i < |t| && IsSpace(t[i]) ==> t[i] == ' ')
    && (forall i :: 0 < i < |t| && IsSpace(t[i]) ==> !IsSpace(t[i - 1]))
  }

  lemma SingleSpacedSlice(t: string, a: nat, b: nat)
    requires SingleSpaced(t) && a <= b <= |t|
    ensures SingleSpaced(t[a..b])
  {
    var u := t[a..b];
    forall i | 0 < i < |u| && IsSpace(u[i])
      ensures !IsSpace(u[i - 1])
    {
      assert u[i] == t[a + i] && u[i - 1] == t[a + i - 1];
    }
  }

  lemma TrimSingleSpaced(t: string)
    requires SingleSpaced(t)
    ensures SingleSpaced(Trim(t))
  {
    var u := TrimStart(t);
    SingleSpacedSlice(t, |t| - |u|, |t|);
    assert u == t[|t| - |u|..|t|];
    var v := TrimEnd(u);
    SingleSpacedSlice(u, 0, |v|);
    assert v == u[0..|v|];
  }

  /** The length of the run of non-whitespace characters s begins with. */
  function WordLength(s: string): (n: nat)
    ensures n <= |s|
    ensures forall j :: 0 <= j < n ==> !IsSpace(s[j])
    ensures n < |s| ==> IsSpace(s[n])
  {
    if s == [] || IsSpace(s[0]) then 0 else 1 + WordLength(s[1..])
  }

  /** The whitespace-delimited words of s in order: its maximal runs of non-whitespace. */
  function Words(s: string): seq<string>
    decreases |s|
  {
    if s == [] then []
    else if IsSpace(s[0]) then Words(s[1..])
    else [s[..WordLength(s)]] + Words(s[WordLength(s)..])
  }

  /** Every word is non-empty and holds no whitespace. */
  lemma {:induction false} WordsAreUnspaced(s: string)
    ensures forall k :: 0 <= k < |Words(s)| ==> Words(s)[k] != [] && NonSpace(Words(s)[k]) == Words(s)[k]
    decreases |s|
  {
    if s != [] {
      if IsSpace(s[0]) {
        WordsAreUnspaced(s[1..]);
      } else {
        var n := WordLength(s);
        NonSpaceOfUnspaced(s[..n]);
        WordsAreUnspaced(s[n..]);
      }
    }
  }

  lemma {:induction false} NonSpaceOfUnspaced(w: string)
    requires forall j :: 0 <= j < |w| ==> !IsSpace(w[j])
    ensures NonSpace(w) == w
  {
    if w != [] {
      NonSpaceOfUnspaced(w[1..]);
    }
  }

  lemma {:induction false} WordLengthAppend(a: string, b: string)
    ensures WordLength(a + b) == if WordLength(a) < |a| then WordLength(a) else |a| + WordLength(b)
  {
    if a == [] {
      assert a + b == b;
    } else if !IsSpace(a[0]) {
      assert (a + b)[1..] == a[1..] + b;
      WordLengthAppend(a[1..], b);
    }
  }

  lemma {:induction false} WordsOfBlank(b: string)
    requires IsBlank(b)
    ensures Words(b) == []
  {
    if b != [] {
      WordsOfBlank(b[1..]);
    }
  }

  /** Whitespace added after the text adds no word. */
  lemma {:induction false} WordsAppendBlank(a: string, b: string)
    requires IsBlank(b)
    ensures Words(a + b) == Words(a)
    decreases |a|
  {
    if a == [] {
      assert a + b == b;
      WordsOfBlank(b);
    } else if IsSpace(a[0]) {
      assert (a + b)[1..] == a[1..] + b;
      WordsAppendBlank(a[1..], b);
    } else {
      var n := WordLength(a);
      WordLengthAppend(a, b);
      assert WordLength(a + b) == n;
      assert (a + b)[..n] == a[..n];
      assert (a + b)[n..] == a[n..] + b;
      WordsAppendBlank(a[n..], b);
    }
  }

  /** Trimming removes no word. */
  lemma WordsOfTrim(s: string)
    ensures Words(Trim(s)) == Words(s)
  {
    WordsOfTrimStart(s);
    WordsOfTrimEnd(TrimStart(s));
  }

  lemma WordsOfTrimEnd(t: string)
    ensures Words(TrimEnd(t)) == Words(t)
  {
    var u := TrimEnd(t);
    var tail := t[|u|..];
    assert t == u + tail;
    assert IsBlank(tail) by {
      forall i | 0 <= i < |tail| ensures IsSpace(tail[i]) {
        assert tail[i] == t[|u| + i];
      }
    }
    WordsAppendBlank(u, tail);
  }

  lemma {:induction false} WordsOfTrimStart(s: string)
    ensures Words(TrimStart(s)) == Words(s)
    decreases |s|
  {
    if s != [] && IsSpace(s[0]) {
      WordsOfTrimStart(s[1..]);
    }
  }

  /** A non-whitespace character in front of s starts the first word, or joins the first
      word when s begins with one. */
  lemma WordsCons(c: char, x: string)
    requires !IsSpace(c)
    ensures x == [] || IsSpace(x[0]) ==> Words([c] + x) == [[c]] + Words(x)
    ensures x != [] && !IsSpace(x[0]) ==>
      Words(x) != [] && Words([c] + x) == [[c] + Words(x)[0]] + Words(x)[1..]
  {
    var s := [c] + x;
    assert s[1..] == x;
    var m := WordLength(x);
    assert WordLength(s) == 1 + m;
    assert s[..1 + m] == [c] + x[..m];
    assert s[1 + m..] == x[m..];
  }

  /** The scan starts with whitespace exactly when its input does. */
  lemma CollapseHead(x: string)
    ensures (CollapseFrom(x, false) == [] || IsSpace(CollapseFrom(x, false)[0])) <==>
      (x == [] || IsSpace(x[0]))
  {
  }

  /** Collapsing whitespace changes no word: "a  b" still holds the words "a" and "b". */
  lemma {:induction false} WordsOfCollapse(s: string, afterSpace: bool)
    ensures Words(CollapseFrom(s, afterSpace)) == Words(s)
    decreases |s|
  {
    if s != [] {
      var x := s[1..];
      if IsSpace(s[0]) {
        var rest := CollapseFrom(x, true);
        WordsOfCollapse(x, true);
        if !afterSpace {
          assert ([' '] + rest)[1..] == rest;
        }
      } else {
        WordsOfCollapse(x, false);
        assert CollapseFrom(s, afterSpace) == [s[0]] + CollapseFrom(x, false);
        assert s == [s[0]] + x;
        CollapseWordStep(s[0], x);
      }
    }
  }

  /** A non-whitespace character in front of the scan's input and in front of its output
      leaves the words of the two equal, once they are equal without it. */
  lemma CollapseWordStep(c: char, x: string)
    requires !IsSpace(c) && Words(CollapseFrom(x, false)) == Words(x)
    ensures Words([c] + CollapseFrom(x, false)) == Words([c] + x)
  {
    CollapseHead(x);
    WordsCons(c, CollapseFrom(x, false));
    WordsCons(c, x);
  }

  /** A trimmed, single-spaced text is its words joined by single spaces. */
  lemma {:induction false} UnpaddedIsJoin(t: string)
    requires SingleSpaced(t)
    requires t == [] || (!IsSpace(t[0]) && !IsSpace(t[|t| - 1]))
    ensures t == Join(Words(t), " ")
    decreases |t|
  {
    if t != [] {
      var n := WordLength(t);
      if n == |t| {
        assert t[..n] == t && t[n..] == [];
      } else {
        var u := t[n + 1..];
        FirstWordThenSpace(t, n);
        SingleSpacedSlice(t, n + 1, |t|);
        assert t[n + 1..|t|] == u;
        UnpaddedIsJoin(u);
        JoinCons(t[..n], Words(u), " ");
        SplitAround(t, n);
      }
    }
  }

  /** In a trimmed, single-spaced text, the first word is followed by one space and then
      the next word. */
  lemma FirstWordThenSpace(t: string, n: nat)
    requires SingleSpaced(t) && t != [] && !IsSpace(t[0]) && !IsSpace(t[|t| - 1])
    requires n == WordLength(t) && n < |t|
    ensures n < |t| - 1 && t[n] == ' ' && !IsSpace(t[n + 1])
    ensures Words(t) == [t[..n]] + Words(t[n + 1..])
    ensures Words(t[n + 1..]) != []
  {
    var u := t[n + 1..];
    assert t[n..][1..] == u;
    assert u[0] == t[n + 1];
  }

  /** `replace(/\s+/g, " ").trim()` joins the words of the text with single spaces. */
  lemma CollapseTrimIsJoin(s: string)
    ensures Trim(CollapseFrom(s, false)) == Join(Words(s), " ")
  {
    var c := CollapseFrom(s, false);
    assert SingleSpaced(c);
    TrimSingleSpaced(c);
    var t := Trim(c);
    UnpaddedIsJoin(t);
    WordsOfTrim(c);
    WordsOfCollapse(s, false);
    assert Words(t) == Words(s);
  }

  /** toPascalCase: absent input stays absent (the optional chaining); otherwise the result
      is trimmed and single-spaced, and keeps every non-space character in order, changed
      at most in case. */
  function PascalCase(str: Option<string>): (r: Option<string>)
    ensures r.None? <==> str.None?
    ensures r.Some? ==> SingleSpaced(r.value)
    ensures r.Some? && r.value != [] ==> !IsSpace(r.value[0]) && !IsSpace(r.value[|r.value| - 1])
    ensures r.Some? ==> SameUpToCase(NonSpace(r.value), NonSpace(str.value))
    ensures r.Some? ==> r.value == Join(Words(TokenCaseFrom(str.value, false)), " ")
  {
    match str
    case None => None
    case Some(s) =>
      ReplacementsKeepText(s);
      CollapseTrimIsJoin(TokenCaseFrom(s, false));
      Some(Trim(CollapseFrom(TokenCaseFrom(s, false), false)))
  }

  /** The three replacements leave the text single-spaced, and change its other characters
      at most in case. */
  lemma ReplacementsKeepText(s: string)
    ensures SingleSpaced(Trim(CollapseFrom(TokenCaseFrom(s, false), false)))
    ensures SameUpToCase(NonSpace(Trim(CollapseFrom(TokenCaseFrom(s, false), false))), NonSpace(s))
  {
    var cased := TokenCaseFrom(s, false);
    var collapsed := CollapseFrom(cased, false);
    TrimSingleSpaced(collapsed);
    CollapseKeepsNonSpace(cased, false);
    NonSpaceOfTrim(collapsed);
    TokenCaseSameUpToCase(s);
    SameUpToCaseNonSpace(cased, s);
  }

  // ---------------------------------------------------------------------------
  // The course list

  /** A course as the list holds it; a missing media URL is "". */
  datatype Course = Course(courseId: string, title: string, description: string, mediaUrl: string)

  /** The body of the update request, spread over the stored course. */
  datatype UpdateData = UpdateData(title: string, description: string, mediaUrl: string)

  /** `course => course.courseId !== courseId`. */
  function OtherThan(courseId: string): Course -> bool {
    (c: Course) => c.courseId != courseId
  }

  /** The list after a delete: the courses with another id, in their order. */
  function DeleteCourse(courses: seq<Course>, courseId: string): (r: seq<Course>)
    ensures |r| <= |courses|
    ensures forall i :: 0 <= i < |r| ==> r[i].courseId != courseId && r[i] in courses
    ensures forall i :: 0 <= i < |courses| && courses[i].courseId != courseId ==> courses[i] in r
  {
    Filter(courses, OtherThan(courseId))
  }

  /** Deleting from a list split in two deletes from each part. */
  lemma DeleteAppend(a: seq<Course>, b: seq<Course>, courseId: string)
    ensures DeleteCourse(a + b, courseId) == DeleteCourse(a, courseId) + DeleteCourse(b, courseId)
  {
    FilterAppend(a, b, OtherThan(courseId));
  }

  /** Deleting an id no course has changes nothing, so deleting twice is deleting once. */
  lemma DeleteAbsent(courses: seq<Course>, courseId: string)
    requires forall i :: 0 <= i < |courses| ==> courses[i].courseId != courseId
    ensures DeleteCourse(courses, courseId) == courses
  {
    FilterKeepsAll(courses, OtherThan(courseId));
  }

  lemma DeleteIdempotent(courses: seq<Course>, courseId: string)
    ensures DeleteCourse(DeleteCourse(courses, courseId), courseId) == DeleteCourse(courses, courseId)
  {
    DeleteAbsent(DeleteCourse(courses, courseId), courseId);
  }

  /** The list after a save: the course with the edited id takes the new title, description
      and media URL; every other course, and the order, stay as they were. */
  function UpdateCourse(courses: seq<Course>, courseId: string, data: UpdateData): (r: seq<Course>)
    ensures |r| == |courses|
    ensures forall i :: 0 <= i < |r| ==> r[i].courseId == courses[i].courseId
    ensures forall i :: 0 <= i < |r| && courses[i].courseId != courseId ==> r[i] == courses[i]
    ensures forall i :: 0 <= i < |r| && courses[i].courseId == courseId ==>
      r[i] == Course(courseId, data.title, data.description, data.mediaUrl)
  {
    seq(|courses|, i requires 0 <= i < |courses| =>
      if courses[i].courseId == courseId
      then courses[i].(title := data.title, description := data.description, mediaUrl := data.mediaUrl)
      else courses[i])
  }

  /** Saving the same data twice is saving it once. */
  lemma UpdateIdempotent(courses: seq<Course>, courseId: string, data: UpdateData)
    ensures UpdateCourse(UpdateCourse(courses, courseId, data), courseId, data) == UpdateCourse(courses, courseId, data)
  {
  }

  /** A course that was edited and then deleted is gone as if it had never been edited. */
  lemma {:induction false} DeleteAfterUpdate(courses: seq<Course>, courseId: string, data: UpdateData)
    ensures DeleteCourse(UpdateCourse(courses, courseId, data), courseId) == DeleteCourse(courses, courseId)
  {
    if courses != [] {
      var u := UpdateCourse(courses, courseId, data);
      assert u[1..] == UpdateCourse(courses[1..], courseId, data);
      DeleteAfterUpdate(courses[1..], courseId, data);
    }
  }

  // ---------------------------------------------------------------------------
  // The edit form

  /** `mediaOption`: "url" or "file". */
  datatype MediaOption = UrlOption | FileOption

  const TitleRequired := "Title is required"
  const DescriptionRequired := "Description is required"
  const InvalidUrlMessage := "Please enter a valid URL"
  const SelectFileMessage := "Please select a media file"
  const SizeMessage := "File size must be less than 50MB"
  const TypeMessage := "Invalid file type. Allowed: JPEG, PNG, GIF, MP4, AVI, MOV, PDF"

  /** The `newErrors` object validateForm builds. `existingUrl` is the edited course's media
      URL ("" for none). `!value.trim()` is written IsBlank(value), which Trim's contract
      makes the same test. A URL is checked as typed, and only when one is typed; in file mode
      a new file is checked for its size and then its type, the type message overwriting the
      size message. The new file is accepted exactly when the course-creation form would
      accept it, but the message differs for a file that is both too large and of a refused
      type. */
  function FormErrors(title: string, description: string, mediaUrl: string, option: MediaOption,
                      file: Option<CourseUpload.MediaFile>, existingUrl: string, isValidUrl: string -> bool)
    : map<string, string>
  {
    MediaErrors(TextErrors(title, description), mediaUrl, option, file, existingUrl, isValidUrl)
  }

  /** The media entry validateForm adds to the errors of the text fields. */
  function MediaErrors(withText: map<string, string>, mediaUrl: string, option: MediaOption,
                       file: Option<CourseUpload.MediaFile>, existingUrl: string, isValidUrl: string -> bool)
    : map<string, string>
  {
    if option == UrlOption then
      if mediaUrl != "" && !isValidUrl(mediaUrl) then withText["mediaUrl" := InvalidUrlMessage] else withText
    else if file.None? && existingUrl == "" then withText["media" := SelectFileMessage]
    else if file.Some? && FileMessage(file.value).Some? then withText["media" := FileMessage(file.value).value]
    else withText
  }

  /** The errors of the two text fields, set in the order validateForm sets them. */
  function TextErrors(title: string, description: string): map<string, string> {
    var withTitle := if IsBlank(title) then map[]["title" := TitleRequired] else map[];
    if IsBlank(description) then withTitle["description" := DescriptionRequired] else withTitle
  }

  /** Each field's error is set exactly when its check fails, with its message; no other key
      is ever set. */
  lemma FormErrorsMeaning(title: string, description: string, mediaUrl: string, option: MediaOption,
                          file: Option<CourseUpload.MediaFile>, existingUrl: string, isValidUrl: string -> bool,
                          errors: map<string, string>)
    requires errors == FormErrors(title, description, mediaUrl, option, file, existingUrl, isValidUrl)
    ensures errors.Keys <= {"title", "description", "mediaUrl", "media"}
    ensures "title" in errors <==> IsBlank(title)
    ensures "title" in errors ==> errors["title"] == TitleRequired
    ensures "description" in errors <==> IsBlank(description)
    ensures "description" in errors ==> errors["description"] == DescriptionRequired
    ensures "mediaUrl" in errors <==> option == UrlOption && mediaUrl != "" && !isValidUrl(mediaUrl)
    ensures "mediaUrl" in errors ==> errors["mediaUrl"] == InvalidUrlMessage
    ensures "media" in errors <==>
      option == FileOption && (if file.None? then existingUrl == "" else CourseUpload.ValidateFile(file.value).Some?)
    ensures "media" in errors && file.None? ==> errors["media"] == SelectFileMessage
    ensures "media" in errors && file.Some? ==>
      errors["media"] == (if LowerStr(file.value.mimeType) in CourseUpload.AllowedTypes then SizeMessage else TypeMessage)
  {
    assert |"description"| == 11 && |"mediaUrl"| == 8 && |"media"| == 5 && "media"[0] != "title"[0];
  }

  /** validateForm, step by step: `errors` is the `newErrors` object it builds, `ok` its
      verdict. */
  method ValidateForm(title: string, description: string, mediaUrl: string, option: MediaOption,
                      file: Option<CourseUpload.MediaFile>, existingUrl: string, isValidUrl: string -> bool)
    returns (errors: map<string, string>, ok: bool)
    ensures errors == FormErrors(title, description, mediaUrl, option, file, existingUrl, isValidUrl)
    ensures ok <==> errors == map[]
  {
    errors := map[];
    if IsBlank(title) {
      errors := errors["title" := TitleRequired];
    }
    if IsBlank(description) {
      errors := errors["description" := DescriptionRequired];
    }
    assert errors == TextErrors(title, description);
    errors := AddMediaError(errors, mediaUrl, option, file, existingUrl, isValidUrl);
    ok := |errors.Keys| == 0;
  }

  /** The media checks of validateForm, adding to the errors of the text fields. */
  method AddMediaError(withText: map<string, string>, mediaUrl: string, option: MediaOption,
                       file: Option<CourseUpload.MediaFile>, existingUrl: string, isValidUrl: string -> bool)
    returns (errors: map<string, string>)
    ensures errors == MediaErrors(withText, mediaUrl, option, file, existingUrl, isValidUrl)
  {
    errors := withText;
    if option == UrlOption {
      if mediaUrl != "" && !isValidUrl(mediaUrl) {
        errors := errors["mediaUrl" := InvalidUrlMessage];
      }
    } else {
      if file.None? && existingUrl == "" {
        errors := errors["media" := SelectFileMessage];
      } else if file.Some? {
        var message := NewFileError(file.value);
        if message.Some? {
          errors := errors["media" := message.value];
        }
      }
    }
  }

  /** The message validateForm leaves for a newly chosen file: the type message when its
      type is refused, else the size message when it is too large, else none. It has one
      exactly when the course-creation validator refuses the file. */
  function FileMessage(file: CourseUpload.MediaFile): (message: Option<string>)
    ensures message.Some? <==> CourseUpload.ValidateFile(file).Some?
    ensures message.Some? ==>
      message.value == (if LowerStr(file.mimeType) in CourseUpload.AllowedTypes then SizeMessage else TypeMessage)
  {
    if LowerStr(file.mimeType) !in CourseUpload.AllowedTypes then Some(TypeMessage)
    else if file.size > CourseUpload.MaxFileSize then Some(SizeMessage)
    else None
  }

  /** The checks validateForm makes on a newly chosen file, in its order: the size, then the
      type, the type message overwriting the size message. */
  method NewFileError(file: CourseUpload.MediaFile) returns (message: Option<string>)
    ensures message == FileMessage(file)
  {
    message := None;
    if file.size > CourseUpload.MaxFileSize {
      message := Some(SizeMessage);
    }
    if LowerStr(file.mimeType) !in CourseUpload.AllowedTypes {
      message := Some(TypeMessage);
    }
  }

  /** The media URL sent with the update: the uploaded file's URL in file mode with a new
      file, the trimmed typed URL in URL mode, and otherwise the course's existing URL. */
  function SavedMediaUrl(option: MediaOption, hasNewFile: bool, uploadedUrl: string,
                         formUrl: string, existingUrl: string): (r: string)
    ensures option == FileOption && hasNewFile ==> r == uploadedUrl
    ensures option == UrlOption ==> r == Trim(formUrl) && (r == [] <==> IsBlank(formUrl))
    ensures option == FileOption && !hasNewFile ==> r == existingUrl
  {
    if option == FileOption && hasNewFile then uploadedUrl
    else if option == UrlOption then (if formUrl != "" then Trim(formUrl) else "")
    else existingUrl
  }

  /** What the preview icon shows. */
  datatype Icon = Folder | Video | Picture | Document | Screen

  const VideoMarkers: seq<string> := [".mp4", ".avi", ".mov", "video"]
  const ImageMarkers: seq<string> := [".jpg", ".jpeg", ".png", ".gif", "image"]

  predicate HasMarker(url: string, markers: seq<string>) {
    exists m :: m in markers && Contains(url, m)
  }

  /** getFileTypeIcon: an empty URL is a folder; otherwise the lower-cased URL is searched
      for video markers first, then image markers, then ".pdf". */
  function FileTypeIcon(mediaUrl: string): (r: Icon)
    ensures r == Folder <==> mediaUrl == ""
    ensures r == Video <==> mediaUrl != "" && HasMarker(LowerStr(mediaUrl), VideoMarkers)
    ensures r == Picture <==>
      mediaUrl != "" && !HasMarker(LowerStr(mediaUrl), VideoMarkers) && HasMarker(LowerStr(mediaUrl), ImageMarkers)
    ensures r == Document <==>
      && mediaUrl != "" && !HasMarker(LowerStr(mediaUrl), VideoMarkers) && !HasMarker(LowerStr(mediaUrl), ImageMarkers)
      && Contains(LowerStr(mediaUrl), ".pdf")
  {
    if mediaUrl == "" then Folder
    else
      var url := LowerStr(mediaUrl);
      if HasMarker(url, VideoMarkers) then Video
      else if HasMarker(url, ImageMarkers) then Picture
      else if Contains(url, ".pdf") then Document
      else Screen
  }

  /** The icon does not depend on the case of the URL. */
  lemma FileTypeIconIgnoresCase(u: string, v: string)
    requires LowerStr(u) == LowerStr(v)
    ensures FileTypeIcon(u) == FileTypeIcon(v)
  {
    assert |u| == |v|;
  }

  /** How a save ended. */
  datatype SaveOutcome =
    | Invalid                    // validateForm refused; its errors are shown
    | UploadFailed               // the new file could not be uploaded; the dialog stays open
    | SaveFailed                 // the update request failed; the dialog stays open
    | Saved(data: UpdateData)    // the list was updated and the dialog closed

  /** The component's state that the list and the edit dialog use. */
  class CourseListPage {
    var courses: seq<Course>
    var editing: Option<Course>
    var isModalOpen: bool
    var title: string
    var description: string
    var mediaUrl: string
    var mediaFile: Option<CourseUpload.MediaFile>
    var mediaOption: MediaOption
    var errors: map<string, string>
    var uploadProgress: int

    /** The page after the courses were fetched. */
    constructor (fetched: seq<Course>)
      ensures courses == fetched && editing == None && !isModalOpen
      ensures title == "" && description == "" && mediaUrl == "" && mediaFile == None
      ensures mediaOption == UrlOption && errors == map[] && uploadProgress == 0
    {
      courses, editing, isModalOpen := fetched, None, false;
      title, description, mediaUrl, mediaFile := "", "", "", None;
      mediaOption, errors, uploadProgress := UrlOption, map[], 0;
    }

    /** handleDelete: the course leaves the list only when the user confirmed and the
        request succeeded. */
    method HandleDelete(courseId: string, confirmed: bool, deleted: bool)
      modifies this
      ensures courses == if confirmed && deleted then DeleteCourse(old(courses), courseId) else old(courses)
      ensures editing == old(editing) && isModalOpen == old(isModalOpen) && errors == old(errors)
    {
      if confirmed && deleted {
        courses := DeleteCourse(courses, courseId);
      }
    }

    /** handleEdit: the dialog opens on the course, URL mode when it has a media URL and
        file mode otherwise. */
    method HandleEdit(course: Course)
      modifies this
      ensures editing == Some(course) && isModalOpen
      ensures title == course.title && description == course.description && mediaUrl == course.mediaUrl
      ensures mediaFile == None && errors == map[] && uploadProgress == 0
      ensures mediaOption == (if course.mediaUrl != "" then UrlOption else FileOption)
      ensures courses == old(courses)
    {
      editing, isModalOpen := Some(course), true;
      title, description, mediaUrl := course.title, course.description, course.mediaUrl;
      mediaFile, errors, uploadProgress := None, map[], 0;
      mediaOption := if course.mediaUrl != "" then UrlOption else FileOption;
    }

    /** handleCloseModal: the dialog closes and its form returns to its initial values. */
    method HandleCloseModal()
      modifies this
      ensures editing == None && !isModalOpen
      ensures title == "" && description == "" && mediaUrl == "" && mediaFile == None
      ensures mediaOption == UrlOption && errors == map[] && uploadProgress == 0
      ensures courses == old(courses)
    {
      editing, isModalOpen := None, false;
      title, description, mediaUrl, mediaFile := "", "", "", None;
      mediaOption, errors, uploadProgress := UrlOption, map[], 0;
    }

    /** handleMediaOptionChange: URL mode drops the chosen file and the progress, file mode
        drops the typed URL, and either way set media errors are blanked. */
    method HandleMediaOptionChange(option: MediaOption)
      modifies this
      ensures mediaOption == option
      ensures option == UrlOption ==> mediaFile == None && uploadProgress == 0 && mediaUrl == old(mediaUrl)
      ensures option == FileOption ==>
        mediaUrl == "" && mediaFile == old(mediaFile) && uploadProgress == old(uploadProgress)
      ensures var flagged := ("media" in old(errors) && old(errors)["media"] != "")
                            || ("mediaUrl" in old(errors) && old(errors)["mediaUrl"] != "");
        errors == if flagged then old(errors)["media" := ""]["mediaUrl" := ""] else old(errors)
      ensures title == old(title) && description == old(description) && courses == old(courses)
      ensures editing == old(editing) && isModalOpen == old(isModalOpen)
    {
      mediaOption := option;
      if option == UrlOption {
        mediaFile, uploadProgress := None, 0;
      } else {
        mediaUrl := "";
      }
      if ("media" in errors && errors["media"] != "") || ("mediaUrl" in errors && errors["mediaUrl"] != "") {
        errors := errors["media" := ""]["mediaUrl" := ""];
      }
    }

    /** The errors validateForm finds in the form as it stands. */
    function FormErrorsNow(isValidUrl: string -> bool): map<string, string>
      reads this
    {
      FormErrors(title, description, mediaUrl, mediaOption, mediaFile,
                 if editing.Some? then editing.value.mediaUrl else "", isValidUrl)
    }

    /** The validation step of a save: the form's errors become validateForm's, and the save
        may go on exactly when there are none. */
    method Validate(isValidUrl: string -> bool) returns (ok: bool)
      modifies this
      ensures errors == old(FormErrorsNow(isValidUrl))
      ensures ok <==> errors == map[]
      ensures courses == old(courses) && editing == old(editing) && isModalOpen == old(isModalOpen)
      ensures title == old(title) && description == old(description) && mediaUrl == old(mediaUrl)
      ensures mediaFile == old(mediaFile) && mediaOption == old(mediaOption)
    {
      var existingUrl := if editing.Some? then editing.value.mediaUrl else "";
      errors, ok := ValidateForm(title, description, mediaUrl, mediaOption, mediaFile, existingUrl, isValidUrl);
    }

    /** handleSaveChanges: `uploadedUrl` is what the file upload returned (None when it
        failed) and `putSucceeded` whether the update request succeeded. The errors always
        become the validation's; a save updates the edited course in the list and closes
        the dialog; any other outcome leaves the list and the form as they were. */
    method HandleSaveChanges(isValidUrl: string -> bool, uploadedUrl: Option<string>, putSucceeded: bool)
      returns (outcome: SaveOutcome)
      modifies this
      ensures errors == old(FormErrorsNow(isValidUrl))
      ensures outcome.Invalid? <==> errors != map[]
      ensures outcome.UploadFailed? <==>
        errors == map[] && old(mediaOption) == FileOption && old(mediaFile).Some? && uploadedUrl.None?
      ensures outcome.Saved? <==>
        && errors == map[] && !outcome.UploadFailed? && old(editing).Some? && putSucceeded
      ensures outcome.Saved? ==>
        && old(editing).Some? && putSucceeded
        && outcome.data == UpdateData(Trim(old(title)), Trim(old(description)),
             SavedMediaUrl(old(mediaOption), old(mediaFile).Some?,
                           if uploadedUrl.Some? then uploadedUrl.value else "", old(mediaUrl),
                           if old(editing).Some? then old(editing).value.mediaUrl else ""))
        && courses == UpdateCourse(old(courses), old(editing).value.courseId, outcome.data)
        && editing == None && !isModalOpen
      ensures !outcome.Saved? ==>
        && courses == old(courses) && editing == old(editing) && isModalOpen == old(isModalOpen)
        && title == old(title) && description == old(description) && mediaUrl == old(mediaUrl)
        && mediaFile == old(mediaFile) && mediaOption == old(mediaOption)
    {
      var existingUrl := if editing.Some? then editing.value.mediaUrl else "";
      var ok := Validate(isValidUrl);
      if !ok {
        return Invalid;
      }
      if mediaOption == FileOption && mediaFile.Some? && uploadedUrl.None? {
        return UploadFailed;
      }
      var url := SavedMediaUrl(mediaOption, mediaFile.Some?, if uploadedUrl.Some? then uploadedUrl.value else "",
                               mediaUrl, existingUrl);
      if editing.None? || !putSucceeded {
        return SaveFailed;
      }
      var data := UpdateData(Trim(title), Trim(description), url);
      courses := UpdateCourse(courses, editing.value.courseId, data);
      HandleCloseModal();
      outcome := Saved(data);
    }
  }
}
