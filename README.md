# EduSync front end: the rules behind the pages

A Dafny model of the logic in the EduSync React front end, where students take assessments and instructors publish courses and assessments. The model covers:

- how a student's answers are scored;
- how the role is read from the stored JSON Web Token (RFC 7519) and turned into route decisions;
- how results are aggregated, coloured and graded;
- how the course and assessment forms validate their input and update their lists;
- the string helpers behind titles, breadcrumbs and the navigation bar.

Each source component is one module:

| module | source |
|---|---|
| `Storage` | the browser's `localStorage`, as a class over a map |
| `Token` | the token's payload, its claims and JavaScript truthiness |
| `Auth` | `src/services/auth.js` |
| `App` | `src/App.js` |
| `Scoring` | `src/components/Student/TakeAssessment.js` |
| `Authoring` | `src/components/Instructor/UploadAssessment.js` |
| `Results` | `src/components/Student/ViewResults.js` |
| `Grading` | `src/components/Instructor/ViewStudentResults.js` |
| `CourseUpload` | `src/components/Instructor/UploadCourse.js` |
| `CourseEditor` | `src/components/Instructor/CoursesList.js` |
| `Catalog` | `src/components/Student/CourseList.js` |
| `StudentAssessments` | `src/components/Student/StudentAssessmentList.js` |
| `AssessmentTitles` | `src/components/Instructor/InstructorAssessments.js` |
| `Breadcrumbs` | `src/components/shared/Layout.js` |
| `Navigation` | `src/components/Navbar.js` |
| `Casing` | the two regular-expression replacements that several `toPascalCase` helpers share |
| `Common` | JavaScript's string built-ins, restricted to ASCII: `toLowerCase`, `split`, `join`, `trim`, `includes`, `filter` and `Math.round` on a ratio |

State that the source updates in place is modelled as a class whose methods carry `modifies` clauses. These are:

- the store;
- the App shell's session;
- the assessment form;
- the course upload form;
- the course list page.

Pure decisions are modelled as functions with lemmas about them. Loops become methods with invariants:

- the scoring `forEach`;
- the id-map `forEach`;
- the `groupedResults` reduce;
- the question validation `for...of`.

`validateForm` builds its error object one assignment at a time; it is a method that updates a local map.

Two details of the session code:

- When the stored token has expired, `getUserRole` removes only the `token` key. The user id and name stay in the store.
- `src/services/api.js` attaches the bearer header and nothing else. No response interceptor handles a 401, so none is modelled.

## Model

| member | source | states |
|---|---|---|
| Storage.Store.GetItem | src/services/auth.js:25 | localStorage.getItem (called here by getToken, and for "userId" by the App effect): a value exactly when the key is stored, and that value is the stored one |
| Storage.Store.SetItem | src/services/auth.js:30 | setItem stores the value under the key: getItem then yields it, and every other key reads as before |
| Storage.Store.RemoveItem | src/services/auth.js:35 | removeItem drops the key: getItem then yields nothing for it, and every other key reads as before |
| Auth.SetToken | src/services/auth.js:29-31 | the store gains the token under "token" and nothing else changes; getToken then returns it |
| Auth.ClearToken | src/services/auth.js:34-36 | only the "token" key is removed; getToken then returns null |
| Auth.StoredAfterLogin | src/services/auth.js:9-17 | after login the token is always stored; the user id only when truthy (as text); the name with its first character upper-cased and the rest kept; every other key unchanged |
| Auth.GetToken | src/services/auth.js:24-26 | the stored "token" entry, or null when there is none |
| Auth.Login | src/services/auth.js:5-21 | the store ends as StoredAfterLogin describes and the response is returned unchanged |
| Auth.ResolveRole | src/services/auth.js:57-81 | a role is returned only from a decodable, unexpired payload, is truthy and is the namespaced or the plain role claim; the token is cleared exactly when the payload decodes and has expired, and then no role is returned; for a decodable, unexpired payload the role is exactly the first truthy of the namespaced and the plain role claim |
| Auth.NoTokenNoRole | src/services/auth.js:58-59 | no (or an empty) stored token gives no role and leaves the store alone |
| Auth.DecodeFailureKeepsToken | src/services/auth.js:77-80 | a payload that fails to decode gives no role and keeps the token |
| Auth.ExpiryBoundary | src/services/auth.js:67-71 | exp one second before now clears the token; exp equal to now does not (RFC 7519 section 4.1.4 would reject it) |
| Auth.MissingExpNeverExpires | src/services/auth.js:68 | a missing or zero exp skips the expiry check whatever the time |
| Auth.NamespacedRolePreferred | src/services/auth.js:74-76 | the namespaced role claim wins over the plain role claim when truthy |
| Auth.GetUserRole | src/services/auth.js:57-81 | returns ResolveRole's role for the stored token and removes the token exactly when ResolveRole says it expired |
| Token.MiddleSegment | src/services/auth.js:62 | split(".")[1]: undefined exactly when there is no dot; otherwise the dot-free text right after the first dot, up to the next dot or the end |
| Token.PayloadOf | src/services/auth.js:62-64 | without a middle segment decoding fails (atob of undefined throws); otherwise it is the abstract decode of that segment |
| Token.FirstTruthy | src/services/auth.js:76 | `a \|\| b \|\| null`: the first truthy of the two, else null |
| Token.IsExpired | src/services/auth.js:67-71 | expiry needs a truthy exp; for a numeric exp the token has expired exactly when exp is non-zero and before now |
| Token.UserIdFromToken | src/components/Student/TakeAssessment.js:7-21 | a user id is returned only when it is the truthy name-identifier claim of a decodable stored token, and is returned whenever that claim is truthy |
| App.AllowedRoles | src/App.js:41-42 | a falsy role prop means no restriction; a string becomes a one-element list; an array is kept |
| App.Guard | src/App.js:36-49 | renders exactly when the role is truthy and either unrestricted or listed; otherwise redirects to /login |
| App.GuardExamples | src/App.js:36-49 | a student is refused an instructor page, admitted to a student page and to a page listing both roles, and refused an empty role list |
| App.PrivateRoute | src/App.js:36-49 | decides with Guard on the role read from the store, and the store loses the token exactly when it expired |
| App.LoginRoute | src/App.js:94-114 | /login renders the form exactly when logged out; a logged-in Instructor goes to /instructor and every other role to /student |
| App.RouteOf | src/App.js:91-216 | classifies every path by its match key (trailing slashes dropped, letters lower-cased): the login page, the three public pages, the six instructor pages, the student pages and /student/take-assessment/:id, and everything else |
| App.DropTrailingSlashes | src/App.js:91-216 | the path up to its last character that is not a slash: the dropped tail is all slashes |
| App.RouteOfKey | src/App.js:91-216 | a key is the login page, a public page, an instructor page or a student page exactly when it is the path of that route (or of /student/take-assessment/:id), and the fallback otherwise |
| App.LowerCaseKey | src/App.js:91-216 | a path that ends in something other than a slash and has no upper-case letter is its own key |
| App.InstructorPathsAreKeys | src/App.js:119-170 | every instructor route path is its own key |
| App.StudentPathsAreKeys | src/App.js:172-214 | every student route path is its own key |
| App.TakeAssessmentKey | src/App.js:197 | the key of /student/take-assessment/ followed by one non-empty segment without a slash is again such a path |
| App.LoginIgnoresCaseAndSlash | src/App.js:94-114 | "/Login/" is the login route, "/login/x" falls back |
| App.RootIgnoresSlashes | src/App.js:93 | "/" and "//" are both the home page |
| App.StudentIgnoresCaseAndSlashes | src/App.js:172-178 | "/STUDENT//" is the student dashboard |
| App.Navigate | src/App.js:91-216 | unknown paths redirect to "/", public pages render, and a private page renders exactly when the guard's role is that page's role |
| App.Shell.constructor | src/App.js:52-54 | the session starts logged out with no role and no id |
| App.Shell.SyncSession | src/App.js:59-76 | a resolvable role logs in with the stored user id; otherwise the state resets and every non-public path navigates to /login; an expired token is removed |
| App.Shell.OnLogin | src/App.js:105-110 | the login callback sets the role, the login flag and the stored user id |
| App.Shell.Logout | src/App.js:78-85 | the token and the user id leave the store (nothing else does), the state resets and the app goes to /login |
| Scoring.EffectiveMarks | src/components/Student/TakeAssessment.js:81 | zero and NaN marks count as 1, every other integer as itself; the result is never 0 |
| Scoring.IsCorrect | src/components/Student/TakeAssessment.js:79-89 | a question counts as correct only when it has been answered |
| Scoring.CorrectIffReselectIsNoop | src/components/Student/TakeAssessment.js:56-61 | a question is answered correctly exactly when selecting its correct option again would change nothing |
| Scoring.Earned | src/components/Student/TakeAssessment.js:74-97 | with no question answered correctly the score is 0 |
| Scoring.Possible | src/components/Student/TakeAssessment.js:100-103 | questions whose marks are zero or not a number count one mark each |
| Scoring.ScoreAnswers | src/components/Student/TakeAssessment.js:74-97 | the loop's score is the sum of effective marks over exactly the questions whose selected text equals the answer |
| Scoring.EarnedBounds | src/components/Student/TakeAssessment.js:89-103 | with non-negative effective marks, 0 <= score <= totalPossibleMarks |
| Scoring.AllCorrectEarnsPossible | src/components/Student/TakeAssessment.js:79-103 | answering every question correctly scores totalPossibleMarks |
| Scoring.NoAnswersEarnNothing | src/components/Student/TakeAssessment.js:79-90 | with no answers the score is 0 |
| Scoring.PossibleAtLeastCount | src/components/Student/TakeAssessment.js:100-103 | with every effective mark positive the total possible is at least the number of questions |
| Scoring.SelectAnswer | src/components/Student/TakeAssessment.js:56-61 | handleChange sets the entry for one question index and keeps every other entry |
| Scoring.SelectingCorrectOption | src/components/Student/TakeAssessment.js:56-61 | selecting the right option for a question answered wrongly raises the score by its effective marks |
| Scoring.EarnedIgnoresLaterAnswers | src/components/Student/TakeAssessment.js:78-97 | the score of the first questions depends only on the answers to them |
| Scoring.SubmitEnabled | src/components/Student/TakeAssessment.js:205 | the submit button is disabled exactly when no question has been answered |
| Scoring.HandleSubmit | src/components/Student/TakeAssessment.js:63-115 | without a user id in the token nothing is scored or posted; otherwise the posted score and total are the model's sums |
| Scoring.WorkedExample | src/components/Student/TakeAssessment.js:74-103 | a concrete attempt: the right answer to a 2-mark question and a wrong one to a 1-mark question score 2 of 3, rounded to 67% |
| Authoring.AuthoredMarks | src/components/Instructor/UploadAssessment.js:29 | zero and NaN marks contribute 0, every other integer itself |
| Authoring.MaxScore | src/components/Instructor/UploadAssessment.js:27-32 | questions whose marks are zero or not a number add nothing to the maximum score |
| Authoring.MaxScoreAppend | src/components/Instructor/UploadAssessment.js:27-32 | the maximum score of a concatenation is the sum of the parts' |
| Authoring.PossibleExceedsMaxScoreByDefaulted | src/components/Instructor/UploadAssessment.js:27-32 | the student's total possible exceeds the author's maxScore by exactly the number of zero or NaN marks |
| Authoring.PossibleEqualsMaxScore | src/components/Student/TakeAssessment.js:100-103 | with every question's marks a positive integer, totalPossibleMarks equals the authored maxScore |
| Authoring.AddQuestion | src/components/Instructor/UploadAssessment.js:35-40 | exactly one blank question (three empty options, empty answer, 1 mark) is appended; earlier questions are unchanged |
| Authoring.SpliceStart | src/components/Instructor/UploadAssessment.js:44 | where splice(index, 1) starts: a negative index counts from the end, clamped to the list |
| Authoring.RemoveQuestion | src/components/Instructor/UploadAssessment.js:42-46 | exactly the element at the splice position is removed and the rest keep their order; an index past the end removes nothing |
| Authoring.AddThenRemoveLast | src/components/Instructor/UploadAssessment.js:35-46 | removing the question just added restores the list |
| Authoring.ApplyEdit | src/components/Instructor/UploadAssessment.js:50 | one named field of a question changes and nothing else |
| Authoring.UpdateQuestion | src/components/Instructor/UploadAssessment.js:48-52 | only the addressed question's addressed field changes; the length is unchanged |
| Authoring.UpdateOption | src/components/Instructor/UploadAssessment.js:54-58 | only the addressed option of the addressed question changes; the length is unchanged |
| Authoring.AddQuestionMaxScore | src/components/Instructor/UploadAssessment.js:27-40 | adding a blank question raises maxScore by 1 |
| Authoring.RemoveQuestionMaxScore | src/components/Instructor/UploadAssessment.js:27-46 | removing a question lowers maxScore by exactly its authored marks |
| Authoring.SetMarksMaxScore | src/components/Instructor/UploadAssessment.js:27-52 | setting a question's marks replaces its contribution to maxScore |
| Authoring.Complete | src/components/Instructor/UploadAssessment.js:68-78 | a complete question has marks that count the same on the authoring and the student side |
| Authoring.ValidateQuestions | src/components/Instructor/UploadAssessment.js:68-78 | the loop accepts exactly when every question has text, answer, every option and truthy marks |
| Authoring.Numbered | src/components/Instructor/UploadAssessment.js:80-83 | question i is posted unchanged with the number "Q" followed by i + 1 |
| Authoring.NumbersDistinct | src/components/Instructor/UploadAssessment.js:80-83 | no two posted questions share a number |
| Authoring.AssessmentForm.constructor | src/components/Instructor/UploadAssessment.js:6-11 | the form opens with one blank question and, once the effect has run, maxScore 1 |
| Authoring.AssessmentForm.SyncMaxScore | src/components/Instructor/UploadAssessment.js:27-33 | the effect makes maxScore the authored sum of the questions |
| Authoring.AssessmentForm.Add | src/components/Instructor/UploadAssessment.js:35-40 | the list becomes AddQuestion of the old list; maxScore waits for the effect |
| Authoring.AssessmentForm.Remove | src/components/Instructor/UploadAssessment.js:42-46 | the list becomes RemoveQuestion of the old list; maxScore waits for the effect |
| Authoring.AssessmentForm.Update | src/components/Instructor/UploadAssessment.js:48-52 | the list becomes UpdateQuestion of the old list; maxScore waits for the effect |
| Authoring.AssessmentForm.SetOption | src/components/Instructor/UploadAssessment.js:54-58 | the list becomes UpdateOption of the old list; maxScore waits for the effect |
| Authoring.AssessmentForm.HandleUpload | src/components/Instructor/UploadAssessment.js:60-105 | an empty course id, then an incomplete question, abort with the form unchanged; a posted payload holds only complete questions and carries the trimmed title, the numbered questions and maxScore; a successful post resets the form with maxScore 0 |
| Authoring.ResetFormMaxScore | src/components/Instructor/UploadAssessment.js:95-100 | after the reset the effect brings maxScore back to the blank question's 1 |
| Results.UserResults | src/components/Student/ViewResults.js:68-70 | keeps exactly the results whose user id reads as the same text, in order |
| Results.UserResultsInOrder | src/components/Student/ViewResults.js:68-70 | filtering a concatenation filters each part, so the input order is kept |
| Results.NumericIdMatchesText | src/components/Student/ViewResults.js:69 | a numeric user id matches its decimal string |
| Results.BuildIndex | src/components/Student/ViewResults.js:72-76 | the forEach loop builds the map of every record under its key |
| Results.IndexByKeys | src/components/Student/ViewResults.js:73 | a key is in the map exactly when some record has it |
| Results.IndexByLastWins | src/components/Student/ViewResults.js:73-76 | the record under a key is the last record with that key |
| Results.KnownMaxScore | src/components/Student/ViewResults.js:106-107 | an unknown assessment counts 0, a known one its maxScore |
| Results.TotalPoints | src/components/Student/ViewResults.js:104 | with no negative score the total is not negative |
| Results.PossiblePoints | src/components/Student/ViewResults.js:105-108 | results of unknown assessments add nothing: with none known the possible points are 0 |
| Results.PointsBounds | src/components/Student/ViewResults.js:104-108 | when every result is of a known assessment and within its maximum, 0 <= totalPoints <= possiblePoints |
| Results.UnknownAssessmentAddsNothing | src/components/Student/ViewResults.js:104-108 | a result of an unknown assessment adds its score to the total and nothing to the possible points |
| Results.Average | src/components/Student/ViewResults.js:109-110 | 0 without positive possible points, otherwise the integer nearest to 100·total/possible, halves rounded up |
| Results.AverageBounds | src/components/Student/ViewResults.js:109-110 | with 0 <= total <= possible the average is between 0 and 100 |
| Results.Percentage | src/components/Student/ViewResults.js:148-151 | 0 for a zero maxScore (an unknown assessment's), otherwise the integer nearest to 100·score/maxScore, halves rounded up |
| Results.ScoreColor | src/components/Student/ViewResults.js:38-43 | success from 80%, warning from 60%, else danger, compared on the exact ratio (JavaScript's Infinity and NaN for a zero maximum included) |
| Results.ScoreColorMonotone | src/components/Student/ViewResults.js:38-43 | for a fixed positive maximum a higher score never gets a worse colour |
| Results.BadgeColor | src/components/Student/ViewResults.js:165-172 | the badge tone from the rounded percentage: success from 80, warning from 60 |
| Results.BadgeAtLeastScoreColor | src/components/Student/ViewResults.js:165-210 | the rounded badge is never a worse tone than the score colour |
| Results.BadgeCanExceedScoreColor | src/components/Student/ViewResults.js:165-210 | 159 of 200 (79.5%) colours the score warning but rounds to 80, a success badge |
| Results.Band | src/components/Student/ViewResults.js:224-232 | the 90/80/70/60 message bands are disjoint and cover every percentage |
| Results.BandMonotone | src/components/Student/ViewResults.js:224-232 | a higher percentage never gets a lower band, and the two top bands are exactly the success badge's range |
| Results.TitleCase | src/components/Student/ViewResults.js:20-26 | "" for empty text; never longer than the text; only letters, digits and spaces; no space at either end; the same letters, up to case, as the text with symbols removed and then trimmed; every word capitalised with the rest of it lower-case |
| Results.CardTitle | src/components/Student/ViewResults.js:159-163 | the assessment's title, or "Assessment <id>" for an unknown one, title-cased |
| Results.CardCourse | src/components/Student/ViewResults.js:147-185 | the course badge appears only for a known assessment of a known course |
| Results.LoadResults | src/components/Student/ViewResults.js:56-90 | no truthy user id keeps the spinner; a failed fetch loads nothing; otherwise the user's results and the two id maps |
| Grading.AttemptsFor | src/components/Instructor/ViewStudentResults.js:61 | the results with a title, in input order |
| Grading.AttemptsPartition | src/components/Instructor/ViewStudentResults.js:51-63 | over distinct keys covering every title, the groups' attempts add up to the number of results |
| Grading.GroupsStep | src/components/Instructor/ViewStudentResults.js:52-61 | one reduce step keeps every group equal to its title's attempts, headed by the first result with that title |
| Grading.Accumulate | src/components/Instructor/ViewStudentResults.js:52-61 | one call of the reduce callback keeps the groups equal to their titles' attempts and the key order distinct and matching the groups, adding the title only when it is new |
| Grading.GroupByTitle | src/components/Instructor/ViewStudentResults.js:51-63 | every result lands in the one group keyed by its title; each group keeps its attempts in order and takes its course and maximum from its first result; the keys are distinct and cover every title |
| Grading.PassMatchesScoreColor | src/components/Instructor/ViewStudentResults.js:112-117 | Pass is exactly the score a student's page colours warning or success |
| Grading.PassMonotone | src/components/Instructor/ViewStudentResults.js:112-117 | for a positive maximum, a higher score never turns Pass into Fail, and full marks pass |
| Grading.IsPass | src/components/Instructor/ViewStudentResults.js:112-117 | for a non-zero maximum, a pass exactly when score / maxScore is at least 0.6 |
| Grading.Render | src/components/Instructor/ViewStudentResults.js:11-71 | the error exactly when the fetch failed; "no results" exactly for an empty list; otherwise every group holds exactly its title's attempts in order, headed by the first, the keys are exactly the titles, the order lists each key once, and the groups' attempts add up to the number of results |
| CourseUpload.ValidateFile | src/components/Instructor/UploadCourse.js:34-57 | too large exactly when over 50 MiB; a bad type exactly when within size and the lower-cased type is not one of the nine allowed |
| CourseUpload.ValidateFileExamples | src/components/Instructor/UploadCourse.js:35-56 | exactly 50 MiB passes, one byte more does not, the type ignores case, and size is reported before type |
| CourseUpload.IsImageType | src/components/Instructor/UploadCourse.js:23 | an image type is exactly one starting with "image/", letter case counting |
| CourseUpload.CheckForm | src/components/Instructor/UploadCourse.js:72-95 | passing every check means a medium was chosen, and in file mode a file is present |
| CourseUpload.CheckFormMeaning | src/components/Instructor/UploadCourse.js:72-95 | each alert exactly when its check is the first to fail, in order: blank fields, no mode, no file, blank link, invalid link |
| CourseUpload.MediaTypeOf | src/components/Instructor/UploadCourse.js:162 | the response's type when present, else the mode's name |
| CourseUpload.UploadResult | src/components/Instructor/UploadCourse.js:69-192 | a rejection exactly when a form check fails; a created course only after a stored media upload and a successful course post |
| CourseUpload.UploadResultMeaning | src/components/Instructor/UploadCourse.js:69-192 | a rejection exactly when a check fails; a file rejection only for a file the validator refuses; a created course only after every check and both requests succeed, with trimmed texts and the media type |
| CourseUpload.SubmitCourse | src/components/Instructor/UploadCourse.js:100-188 | once the checks have passed, the file validation, the media upload and the course post in order give UploadResult of the form, never a rejection |
| CourseUpload.CourseUploadForm.constructor | src/components/Instructor/UploadCourse.js:6-13 | every field starts empty |
| CourseUpload.CourseUploadForm.HandleFileSelect | src/components/Instructor/UploadCourse.js:17-31 | the chosen file is kept; an image previews its data URL, another file clears the preview, a cancelled dialog leaves it |
| CourseUpload.CourseUploadForm.ResetMediaSelection | src/components/Instructor/UploadCourse.js:195-200 | clears only the mode, file, link and preview |
| CourseUpload.CourseUploadForm.HandleUpload | src/components/Instructor/UploadCourse.js:69-192 | the outcome is UploadResult of the form; a created course resets every field, any other outcome keeps them |
| CourseEditor.TokenCaseFrom | src/components/Instructor/CoursesList.js:6-9 | each character is upper-cased exactly when it is the first word character of its whitespace-delimited token, lower-cased after that, and left alone before it |
| CourseEditor.TokenCaseSameUpToCase | src/components/Instructor/CoursesList.js:6-9 | the token casing changes only letter case |
| CourseEditor.CollapseFrom | src/components/Instructor/CoursesList.js:10 | never longer; the only whitespace left is plain spaces, no two of them adjacent |
| CourseEditor.CollapseKeepsNonSpace | src/components/Instructor/CoursesList.js:10 | every character other than whitespace is kept, in order |
| CourseEditor.WordsAreUnspaced | src/components/Instructor/CoursesList.js:10 | the words of a text are non-empty and hold no whitespace |
| CourseEditor.WordsOfCollapse | src/components/Instructor/CoursesList.js:10 | collapsing whitespace runs changes none of the text's words |
| CourseEditor.WordsOfTrim | src/components/Instructor/CoursesList.js:11 | trimming changes none of the text's words |
| CourseEditor.UnpaddedIsJoin | src/components/Instructor/CoursesList.js:10-11 | a trimmed, single-spaced text is its words joined by single spaces |
| CourseEditor.CollapseTrimIsJoin | src/components/Instructor/CoursesList.js:10-11 | collapsing whitespace and then trimming gives the text's words joined by single spaces |
| CourseEditor.TrimSingleSpaced | src/components/Instructor/CoursesList.js:10-11 | trimming a single-spaced string leaves it single-spaced |
| CourseEditor.PascalCase | src/components/Instructor/CoursesList.js:5-12 | null stays null; otherwise the result is trimmed and single-spaced, and its non-space characters are those of the input in order, differing at most in case; it is exactly the words of the token-cased input joined by single spaces |
| CourseEditor.DeleteCourse | src/components/Instructor/CoursesList.js:49-51 | keeps exactly the courses with another id, in order |
| CourseEditor.DeleteAppend | src/components/Instructor/CoursesList.js:49-51 | deleting from a list split in two deletes from each part |
| CourseEditor.DeleteAbsent | src/components/Instructor/CoursesList.js:49-51 | deleting an id no course has changes nothing |
| CourseEditor.DeleteIdempotent | src/components/Instructor/CoursesList.js:49-51 | deleting twice is deleting once |
| CourseEditor.UpdateCourse | src/components/Instructor/CoursesList.js:274-280 | the course with the id takes the new title, description and media URL; every other course and the order stay |
| CourseEditor.UpdateIdempotent | src/components/Instructor/CoursesList.js:274-280 | saving the same data twice is saving it once |
| CourseEditor.DeleteAfterUpdate | src/components/Instructor/CoursesList.js:49-51 | deleting an edited course gives the list deleting it unedited would |
| CourseEditor.ValidateForm | src/components/Instructor/CoursesList.js:136-185 | the errors it builds are FormErrors of the form, and it is true exactly when there are none |
| CourseEditor.FormErrorsMeaning | src/components/Instructor/CoursesList.js:136-181 | errors only under title, description, mediaUrl and media; each present exactly when its check fails (blank title, blank description, a typed invalid URL in URL mode, in file mode no file and no existing URL or a file the validator refuses), with that check's message |
| CourseEditor.FileMessage | src/components/Instructor/CoursesList.js:156-179 | a message exactly when the course-creation validator refuses the file: the type message when the type is refused, the size message otherwise |
| CourseEditor.NewFileError | src/components/Instructor/CoursesList.js:156-179 | the size check then the type check, the second message overwriting the first, end with FileMessage of the file |
| CourseEditor.SavedMediaUrl | src/components/Instructor/CoursesList.js:248-263 | the uploaded URL for a new file, the trimmed typed URL in URL mode, the existing URL otherwise |
| CourseEditor.FileTypeIcon | src/components/Instructor/CoursesList.js:303-327 | a folder exactly for an empty URL; then video markers before image markers before ".pdf", on the lower-cased URL |
| CourseEditor.FileTypeIconIgnoresCase | src/components/Instructor/CoursesList.js:303-327 | the icon does not depend on the URL's case |
| CourseEditor.CourseListPage.constructor | src/components/Instructor/CoursesList.js:15-44 | the fetched courses with the dialog closed and the form empty |
| CourseEditor.CourseListPage.HandleDelete | src/components/Instructor/CoursesList.js:45-58 | the course leaves the list exactly when confirmed and deleted |
| CourseEditor.CourseListPage.HandleEdit | src/components/Instructor/CoursesList.js:60-73 | the dialog opens on the course, in URL mode exactly when it has a media URL |
| CourseEditor.CourseListPage.HandleCloseModal | src/components/Instructor/CoursesList.js:75-83 | the dialog closes and the form returns to its initial values |
| CourseEditor.CourseListPage.HandleMediaOptionChange | src/components/Instructor/CoursesList.js:114-134 | URL mode drops the file and the progress, file mode the typed URL; media errors are blanked |
| CourseEditor.CourseListPage.Validate | src/components/Instructor/CoursesList.js:136-185 | the errors become FormErrors of the form as it stood, and the save may go on exactly when there are none |
| CourseEditor.CourseListPage.HandleSaveChanges | src/components/Instructor/CoursesList.js:241-301 | errors are FormErrors of the form as it stood; invalid exactly when there are any; an upload failure exactly when valid, in file mode with a new file and no uploaded URL; saved exactly when valid, not an upload failure, a course is edited and the update succeeded, and then the trimmed texts and saved media URL update that course and the dialog closes; anything else leaves list and form alone |
| Catalog.CapitalizePiecesAt | src/components/Student/CourseList.js:36-38 | split(' ')/map/join(' ') keeps every position: spaces stay and only the first character of each piece is upper-cased |
| Catalog.TitleCase | src/components/Student/CourseList.js:32-39 | "" for absent or empty text; otherwise the same length and spaces, upper-case at the start and after each space, lower-case elsewhere |
| Catalog.Search | src/components/Student/CourseList.js:41-43 | keeps exactly the courses whose lower-cased title contains the lower-cased term, from the input; src/components/Student/StudentAssessmentList.js:46-51 filters its course list with the same expression |
| Catalog.EmptyTermKeepsAll | src/components/Student/CourseList.js:41-43 | an empty term keeps every course |
| Catalog.SearchIgnoresTermCase | src/components/Student/CourseList.js:41-43 | the term's case does not matter |
| Catalog.SearchAppend | src/components/Student/CourseList.js:41-43 | the search of a concatenation is the concatenation of the searches, so order is kept |
| Catalog.View | src/components/Student/CourseList.js:45-55 | a spinner exactly while loading, the error exactly after a failed fetch, "No Courses Found" exactly when the search leaves nothing, the matches otherwise |
| Catalog.NoCoursesFoundWithoutTerm | src/components/Student/CourseList.js:54-55 | without a term the notice shows exactly when there are no courses |
| StudentAssessments.TitleCase | src/components/Student/StudentAssessmentList.js:5-8 | only letters, digits and spaces; no longer than the input; the stripped text's spaces kept in place; the same letters up to case, with every word capitalised |
| StudentAssessments.TitleCaseKeepsLeadingSpace | src/components/Student/StudentAssessmentList.js:5-8 | nothing is trimmed: a leading space stays |
| StudentAssessments.AssessmentsOf | src/components/Student/StudentAssessmentList.js:35-37 | keeps exactly the assessments of the course, from the input |
| StudentAssessments.AssessmentsOfIdempotent | src/components/Student/StudentAssessmentList.js:35-37 | filtering again by the same course changes nothing |
| StudentAssessments.ShownAssessments | src/components/Student/StudentAssessmentList.js:30-44 | nothing changes before a course is selected or after a failed fetch; otherwise exactly the fetched assessments of the selected course, in order |
| StudentAssessments.TakeLink | src/components/Student/StudentAssessmentList.js:110-111 | the link is the take-assessment prefix followed by the id |
| StudentAssessments.TakeLinkIsStudentRoute | src/components/Student/StudentAssessmentList.js:110-111 | a link to a non-empty id without '/' opens a route reserved for students |
| AssessmentTitles.SplitRuns | src/components/Instructor/InstructorAssessments.js:15 | split on runs of whitespace, '-' and '_': at least one piece, none holding a separator |
| AssessmentTitles.SplitRunsPieces | src/components/Instructor/InstructorAssessments.js:15 | the pieces are the maximal separator-free stretches: joined they are the title without its separators, there is one more piece than there are runs of separators, and only the first and last piece can be empty |
| AssessmentTitles.PiecesAreScan | src/components/Instructor/InstructorAssessments.js:14-17 | split/capitalise/join with no joiner is the scan that drops separators and upper-cases the character after each run |
| AssessmentTitles.SeparatorCountOfLower | src/components/Instructor/InstructorAssessments.js:14 | lower-casing keeps the number of separators |
| AssessmentTitles.PascalCase | src/components/Instructor/InstructorAssessments.js:10-18 | null stays null and "" stays ""; otherwise no separator remains, the length drops by exactly the separator count, and the result is the scan of the lower-cased title |
| Breadcrumbs.Segments | src/components/shared/Layout.js:9 | the non-empty pieces between slashes, in order |
| Breadcrumbs.SegmentsHaveNoSlash | src/components/shared/Layout.js:9 | no segment is empty or holds '/' |
| Breadcrumbs.RootHasNoSegments | src/components/shared/Layout.js:9 | "/" has no breadcrumbs |
| Breadcrumbs.SegmentsOfPath | src/components/shared/Layout.js:9 | the path "/" + segments joined by "/" gives back exactly those segments |
| Breadcrumbs.Label | src/components/shared/Layout.js:11 | same length; the first character upper-cased; every later '-' a space and every other character kept |
| Breadcrumbs.LeadingHyphenKept | src/components/shared/Layout.js:11 | a leading hyphen is not replaced |
| Breadcrumbs.Crumbs | src/components/shared/Layout.js:8-22 | one crumb per segment in order, labelled; all but the last highlighted |
| Breadcrumbs.OneUnhighlighted | src/components/shared/Layout.js:14-18 | exactly one crumb, the last, is unhighlighted, unless there is none |
| Navigation.NavLinks | src/components/Navbar.js:22-40 | four /student links for a student, five /instructor links without view-results for an instructor, none for any other role |
| Navigation.LinksMatchRoutes | src/components/Navbar.js:22-40 | every link leads to a private route of its own role |
| Navigation.IsActive | src/components/Navbar.js:70 | a link is active exactly when the pathname is its target character for character (same length, and a prefix) |
| Navigation.AtMostOneActive | src/components/Navbar.js:66-71 | the link targets are distinct, so at most one link is active |
| Navigation.TrailingSlashNotActive | src/components/Navbar.js:70 | the active test is exact while routing is not: "/student/" shows the student dashboard but its Dashboard link is not active |
| Navigation.Session | src/components/Navbar.js:10-20 | logged in, the stored name and the resolved role; logged out, an empty name and a role that offers no links |
| Navigation.LoggedOutHasNoLinks | src/components/Navbar.js:16-39 | logging out blanks the name and the role, and the blank role offers no links |
| Casing.StripSymbols | src/components/Student/ViewResults.js:23 | only letters, digits and spaces remain, every such character of the input is kept, text made only of them is unchanged, and the result is the input filtered by those characters, in order |
| Casing.StripSymbolsAppend | src/components/Student/ViewResults.js:23 | stripping a concatenation strips each part and keeps them in order |
| Casing.CapitalizeWords | src/components/Student/ViewResults.js:24 | same length; a word character is upper-cased when it starts a run of word characters and lower-cased otherwise; other characters stay |
| Casing.CapitalizeWordsCharacters | src/components/Student/ViewResults.js:24 | on letters, digits and spaces the replacement keeps them such, keeps every space in place and changes letters at most in case |
| Casing.CapitalizeWordsWellCased | src/components/Student/ViewResults.js:24 | after the replacement a letter is upper-case exactly when it begins a word |
| Common.TrimSameUpToCase | src/components/Student/ViewResults.js:25 | two texts that differ only in case still do after trimming |
| Casing.TrimWellCased | src/components/Student/ViewResults.js:25 | trimming keeps a well-cased string well-cased |
| Common.RoundedPercent | src/components/Student/ViewResults.js:110 | Math.round(100·n/d) for d > 0 computed on exact rationals: the integer nearest the exact percentage, halves rounded up |
| Common.RoundedPercentMonotone | src/components/Student/ViewResults.js:110 | for a fixed positive denominator a larger numerator never rounds to a smaller percentage |
| Common.SplitJoin | src/components/Student/CourseList.js:36-38 | joining the pieces of split(c) with c gives back the text: splitting loses nothing |
| Common.JoinSplit | src/components/shared/Layout.js:9 | splitting pieces joined by c, when no piece holds c, gives back the pieces |

## Left out

- Network requests. The course, assessment, result and login endpoints, the media upload and the update and delete requests are not modelled. Their responses, or whether they succeeded, are parameters.
- Decoding the token payload (`atob` then `JSON.parse`) is the abstract parameter `decode`. `atob` is plain base64, not the base64url of section 5 of RFC 4648. No signature is checked, as in the source.
- URL validity (`new URL`, the WHATWG URL Standard) is the abstract predicate `isValidUrl`.
- The clock: `Date.now` is the parameter `now`. Attempt dates and `toLocaleDateString` formatting are left out.
- `FileReader` previews: the data URL the reader yields is a parameter.
- Upload-progress percentages and file sizes shown in MB are float displays and are left out.
- Common.RoundedPercent: computes on exact rationals, not on IEEE 754 doubles. JavaScript evaluates `(n / d) * 100` in doubles, so an exact half can land just below or above .5: 23/40 gives 57.49999999999999, which rounds to 57 where the model gives 58, and 29/200 gives 14 where the model gives 15. Results.Average, Results.Percentage and the badge built on them inherit this difference of one at such points.
- Results.Average: rounds the exact ratio, so it can be one above JavaScript's result where the double product falls just below a half (see Common.RoundedPercent).
- Results.Percentage: rounds the exact ratio, so it can be one above JavaScript's result where the double product falls just below a half (see Common.RoundedPercent).
- Case mapping is ASCII only. JavaScript's Unicode case mapping, and its Unicode whitespace in `\s` and `trim`, are not modelled.
- React rendering, effect ordering, alerts and navigation are out of scope. Navigation is the path returned; an alert is the outcome value that names it.
- `Object.values` lists integer-like keys first. Grading.GroupByTitle orders groups by first appearance and does not model that ordering rule.
- Token.IsExpired: a string or composite `exp` is treated as never expiring. JavaScript's coercion of such values in `<` is not modelled.
- JSON numbers are integers. A fractional `exp`, marks value or score is not modelled.
- Scoring.HandleSubmit: the attempt date in the posted record is left out.
- StudentAssessments.TitleCase: a null title throws in the source; the model takes a string and does not model the throw.
- Navigation.Session: the role is the string shown, so a non-string role claim is not modelled.
- Token.ToText: JComposite stands for both arrays and objects and always gives "[object Object]". For an array JavaScript's String joins the elements with commas (`String([1,2])` is "1,2"), which is not modelled.
- Scoring.IsCorrect: a question stored without an `answer` and left unanswered is correct in JavaScript (`undefined === undefined`) and earns its marks. The model's answer is always a string, so an unanswered question never scores.
- Grading.GroupByTitle: a title that names a property of Object.prototype ("constructor", "toString", "__proto__" and the like) makes `!acc[key]` false on a fresh accumulator, so the source pushes onto a non-array and throws. The model groups such titles like any other title.
- App.RouteOf: the location is not percent-decoded before matching, and letter case is folded for ASCII letters only.
- Presentational components (home page, dashboards, register, forgot-password and login forms) and `src/config/api.config.js` are not part of this model.
