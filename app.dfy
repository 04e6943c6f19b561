/** Route gating of src/App.js: the PrivateRoute guard, the route table with its `/login`
    redirect and catch-all, and the App component's session state (logged-in flag, role,
    user id), refreshed on every navigation and reset on logout. Navigation is modelled by
    returning the path navigated to. */
module App {
  import opened Common
  import opened Token
  import Storage
  import Auth

  /** The `role` prop of PrivateRoute: absent, one role, or an array of roles. */
  datatype Required = Unrestricted | Single(role: string) | AnyOf(roles: seq<string>)

  /** What a route element does: render its page, or navigate elsewhere. */
  datatype Decision = Render | RedirectTo(path: string)

  const LoginPath: string := "/login"
  const PublicPaths: seq<string> := ["/", "/login", "/register", "/forgot-password"]

  /** `if (role) { const allowed = Array.isArray(role) ? role : [role]; … }`: the list the
      role must belong to, or None when the prop is falsy (absent or the empty string). */
  function AllowedRoles(req: Required): (r: Option<seq<string>>)
    ensures req.Unrestricted? || req == Single("") <==> r.None?
    ensures req.Single? && req.role != "" ==> r == Some([req.role])
    ensures req.AnyOf? ==> r == Some(req.roles)
  {
    match req
    case Unrestricted => None
    case Single(role) => if role == "" then None else Some([role])
    case AnyOf(roles) => Some(roles)
  }

  /** `allowed.includes(userRole)`: the role is the JSON string of one of the listed roles. */
  predicate IsListed(userRole: Json, allowed: seq<string>) {
    userRole.JString? && userRole.s in allowed
  }

  /** PrivateRoute's decision for the role getUserRole returned. */
  function Guard(userRole: Option<Json>, req: Required): (d: Decision)
    ensures d == Render || d == RedirectTo(LoginPath)
    ensures !TruthyOpt(userRole) ==> d == RedirectTo(LoginPath)
    ensures d == Render <==>
      TruthyOpt(userRole) && (AllowedRoles(req).None? || IsListed(userRole.value, AllowedRoles(req).value))
  {
    if !TruthyOpt(userRole) then RedirectTo(LoginPath)
    else match AllowedRoles(req)
      case None => Render
      case Some(allowed) => if IsListed(userRole.value, allowed) then Render else RedirectTo(LoginPath)
  }

  /** A student is sent to the login page from an instructor-only page, and admitted to a
      student page; an array of roles admits each of its members. */
  lemma GuardExamples()
    ensures Guard(Some(JString("Student")), Single("Instructor")) == RedirectTo(LoginPath)
    ensures Guard(Some(JString("Student")), Single("Student")) == Render
    ensures Guard(Some(JString("Student")), AnyOf(["Instructor", "Student"])) == Render
    ensures Guard(Some(JString("Student")), AnyOf([])) == RedirectTo(LoginPath)
  {
  }

  /** PrivateRoute: reads the role (which may remove an expired token) and decides. */
  method PrivateRoute(store: Storage.Store, decode: string -> Payload, now: int, req: Required)
    returns (d: Decision)
    modifies store
    ensures d == Guard(Auth.ResolveRole(old(Auth.GetToken(store)), decode, now).role, req)
    ensures store.items ==
      if Auth.ResolveRole(old(Auth.GetToken(store)), decode, now).clearsToken
      then old(store.items) - {Auth.TokenKey} else old(store.items)
  {
    var userRole := Auth.GetUserRole(store, decode, now);
    d := Guard(userRole, req);
  }

  /** The element of the `/login` route: a logged-in user is sent to the instructor
      dashboard if the role is "Instructor" and to the student dashboard otherwise. */
  function LoginRoute(isLoggedIn: bool, userRole: Option<Json>): (d: Decision)
    ensures d == Render <==> !isLoggedIn
    ensures isLoggedIn && userRole == Some(JString("Instructor")) ==> d == RedirectTo("/instructor")
    ensures isLoggedIn && userRole != Some(JString("Instructor")) ==> d == RedirectTo("/student")
  {
    if !isLoggedIn then Render
    else if userRole == Some(JString("Instructor")) then RedirectTo("/instructor")
    else RedirectTo("/student")
  }

  // ---------------------------------------------------------------------------
  // The route table

  /** How App's <Routes> treats a path. */
  datatype Route = PublicPage | LoginPage | PrivatePage(role: string) | Fallback

  const InstructorPaths: seq<string> := [
    "/instructor", "/instructor/upload-course", "/instructor/upload-assessment",
    "/instructor/instructor-assessment-list", "/instructor/courses-list", "/instructor/view-results"
  ]
  const StudentPaths: seq<string> := [
    "/student", "/student/assessments-list", "/student/results", "/student/courses-list"
  ]
  const TakeAssessmentPrefix: string := "/student/take-assessment/"

  /** `/student/take-assessment/:id`: the prefix followed by one non-empty segment. */
  predicate IsTakeAssessmentPath(path: string) {
    TakeAssessmentPrefix <= path && |path| > |TakeAssessmentPrefix| &&
    forall j :: |TakeAssessmentPrefix| <= j < |path| ==> path[j] != '/'
  }

  /** The path without its trailing slashes: a route path matches a location followed by
      any number of slashes. */
  function DropTrailingSlashes(path: string): (r: string)
    ensures r <= path
    ensures r == [] || r[|r| - 1] != '/'
    ensures forall j :: |r| <= j < |path| ==> path[j] == '/'
  {
    if path != [] && path[|path| - 1] == '/' then DropTrailingSlashes(path[..|path| - 1]) else path
  }

  /** The form in which <Routes> compares a location with a route path: trailing slashes
      dropped and letters lower-cased, since route paths are case-insensitive unless marked
      caseSensitive, and none here is. The key of "/" is "". */
  function MatchKey(path: string): string {
    LowerStr(DropTrailingSlashes(path))
  }

  const PublicKeys: seq<string> := ["", "/register", "/forgot-password"]

  /** The route a location is rendered by: the route whose path has the location's key.
      Instructor and student pages are told apart by their second character, so no key
      is both. */
  function RouteOf(path: string): (r: Route)
    ensures r == LoginPage <==> MatchKey(path) == LoginPath
    ensures r == PublicPage <==> MatchKey(path) in PublicKeys
    ensures r == PrivatePage("Instructor") <==> MatchKey(path) in InstructorPaths
    ensures r == PrivatePage("Student") <==>
      MatchKey(path) in StudentPaths || IsTakeAssessmentPath(MatchKey(path))
    ensures r.PrivatePage? ==> r.role == "Instructor" || r.role == "Student"
  {
    RouteOfKey(MatchKey(path))
  }

  function RouteOfKey(key: string): (r: Route)
    ensures r == LoginPage <==> key == LoginPath
    ensures r == PublicPage <==> key in PublicKeys
    ensures r == PrivatePage("Instructor") <==> key in InstructorPaths
    ensures r == PrivatePage("Student") <==> key in StudentPaths || IsTakeAssessmentPath(key)
    ensures r.PrivatePage? ==> r.role == "Instructor" || r.role == "Student"
  {
    if key == LoginPath then LoginPage
    else if key in PublicKeys then PublicPage
    else if key in InstructorPaths then
      assert !IsTakeAssessmentPath(key) by {
        assert |key| > 1 && key[1] == 'i' && TakeAssessmentPrefix[1] == 's';
      }
      PrivatePage("Instructor")
    else if key in StudentPaths || IsTakeAssessmentPath(key) then PrivatePage("Student")
    else Fallback
  }

  /** A path that does not end in '/' and whose letters are already lower-case is its own
      key. */
  lemma LowerCaseKey(path: string)
    requires path != [] && path[|path| - 1] != '/'
    requires forall j :: 0 <= j < |path| ==> !IsUpper(path[j])
    ensures MatchKey(path) == path
  {
    assert DropTrailingSlashes(path) == path;
  }

  /** The instructor and student paths of the route table are their own keys. */
  lemma InstructorPathsAreKeys()
    ensures forall p :: p in InstructorPaths ==> MatchKey(p) == p
  {
    ShortInstructorPathsAreKeys();
    LongInstructorPathsAreKeys();
    AssessmentListPathIsKey();
  }

  lemma ShortInstructorPathsAreKeys()
    ensures MatchKey("/instructor") == "/instructor"
    ensures MatchKey("/instructor/upload-course") == "/instructor/upload-course"
    ensures MatchKey("/instructor/courses-list") == "/instructor/courses-list"
  {
    LowerCaseKey("/instructor");
    LowerCaseKey("/instructor/upload-course");
    LowerCaseKey("/instructor/courses-list");
  }

  lemma LongInstructorPathsAreKeys()
    ensures MatchKey("/instructor/upload-assessment") == "/instructor/upload-assessment"
    ensures MatchKey("/instructor/view-results") == "/instructor/view-results"
  {
    LowerCaseKey("/instructor/upload-assessment");
    LowerCaseKey("/instructor/view-results");
  }

  lemma AssessmentListPathIsKey()
    ensures MatchKey("/instructor/instructor-assessment-list") == "/instructor/instructor-assessment-list"
  {
    LowerCaseKey("/instructor/instructor-assessment-list");
  }

  lemma StudentPathsAreKeys()
    ensures forall p :: p in StudentPaths ==> MatchKey(p) == p
  {
    LowerCaseKey("/student");
    LowerCaseKey("/student/assessments-list");
    LowerCaseKey("/student/results");
    LowerCaseKey("/student/courses-list");
  }

  /** The key of `/student/take-assessment/` followed by one non-empty segment is again
      such a path: only the segment's letters are lower-cased. */
  lemma TakeAssessmentKey(id: string)
    requires id != [] && forall j :: 0 <= j < |id| ==> id[j] != '/'
    ensures IsTakeAssessmentPath(MatchKey(TakeAssessmentPrefix + id))
  {
    var path := TakeAssessmentPrefix + id;
    assert path[|path| - 1] == id[|id| - 1];
    assert DropTrailingSlashes(path) == path;
    var key := MatchKey(path);
    forall j | 0 <= j < |TakeAssessmentPrefix|
      ensures key[j] == TakeAssessmentPrefix[j]
    {
      assert path[j] == TakeAssessmentPrefix[j];
    }
    forall j | |TakeAssessmentPrefix| <= j < |key|
      ensures key[j] != '/'
    {
      assert path[j] == id[j - |TakeAssessmentPrefix|];
    }
  }

  /** The login route is reached whatever the letter case of the location and with a
      trailing slash, but not with a further segment. */
  lemma LoginIgnoresCaseAndSlash()
    ensures RouteOf("/Login/") == LoginPage
    ensures RouteOf("/login/x") == Fallback
  {
    assert MatchKey("/Login/") == "/login" by {
      assert DropTrailingSlashes("/Login/") == "/Login";
    }
    LowerCaseKey("/login/x");
  }

  /** Any number of slashes follow a route path: "//" is the home page. */
  lemma RootIgnoresSlashes()
    ensures RouteOf("/") == PublicPage && RouteOf("//") == PublicPage
  {
    assert MatchKey("//") == "" by {
      assert DropTrailingSlashes("//") == DropTrailingSlashes("/");
    }
  }

  /** "/STUDENT//" is the student dashboard. */
  lemma StudentIgnoresCaseAndSlashes()
    ensures RouteOf("/STUDENT//") == PrivatePage("Student")
  {
    assert MatchKey("/STUDENT//") == "/student" by {
      assert DropTrailingSlashes("/STUDENT//") == DropTrailingSlashes("/STUDENT/");
    }
  }

  /** What rendering `path` does, given App's state and the role PrivateRoute reads. */
  function Navigate(path: string, isLoggedIn: bool, appRole: Option<Json>, guardRole: Option<Json>): (d: Decision)
    ensures RouteOf(path) == Fallback ==> d == RedirectTo("/")
    ensures RouteOf(path) == PublicPage ==> d == Render
    ensures RouteOf(path).PrivatePage? ==>
      (d == Render <==> guardRole.Some? && guardRole.value == JString(RouteOf(path).role))
  {
    match RouteOf(path)
    case PublicPage => Render
    case LoginPage => LoginRoute(isLoggedIn, appRole)
    case PrivatePage(role) => Guard(guardRole, Single(role))
    case Fallback => RedirectTo("/")
  }

  // ---------------------------------------------------------------------------
  // The App component's session state

  class Shell {
    var userRole: Option<Json>
    var isLoggedIn: bool
    var userId: Option<string>

    constructor ()
      ensures userRole == None && !isLoggedIn && userId == None
    {
      userRole, isLoggedIn, userId := None, false, None;
    }

    /** The effect run on every change of location.pathname: adopt the stored session, or
        reset the state and, away from the public paths, navigate to the login page. The
        pathname is compared with the public paths exactly, unlike the route table's keys. */
    method SyncSession(store: Storage.Store, decode: string -> Payload, now: int, pathname: string)
      returns (navigateTo: Option<string>)
      modifies this, store
      ensures var r := Auth.ResolveRole(old(Auth.GetToken(store)), decode, now);
        && isLoggedIn == r.role.Some?
        && userRole == r.role
        && userId == (if r.role.Some? then old(store.GetItem(Auth.UserIdKey)) else None)
        && navigateTo == (if r.role.None? && pathname !in PublicPaths then Some(LoginPath) else None)
        && store.items == (if r.clearsToken then old(store.items) - {Auth.TokenKey} else old(store.items))
    {
      var role := Auth.GetUserRole(store, decode, now);
      var id := store.GetItem(Auth.UserIdKey);
      if role.Some? {
        userRole, userId, isLoggedIn := role, id, true;
        navigateTo := None;
      } else {
        isLoggedIn, userRole, userId := false, None, None;
        navigateTo := if pathname !in PublicPaths then Some(LoginPath) else None;
      }
    }

    /** The `onLogin` callback the login page receives. */
    method OnLogin(store: Storage.Store, role: Option<Json>)
      modifies this
      ensures userRole == role && isLoggedIn && userId == store.GetItem(Auth.UserIdKey)
    {
      userRole, isLoggedIn := role, true;
      userId := store.GetItem(Auth.UserIdKey);
    }

    /** handleLogout: removes the token and the user id (the display name stays), resets
        the state and goes to the login page. */
    method Logout(store: Storage.Store) returns (navigateTo: string)
      modifies this, store
      ensures store.items == old(store.items) - {Auth.TokenKey, Auth.UserIdKey}
      ensures !isLoggedIn && userRole == None && userId == None
      ensures navigateTo == LoginPath
    {
      Auth.ClearToken(store);
      store.RemoveItem(Auth.UserIdKey);
      isLoggedIn, userRole, userId := false, None, None;
      navigateTo := LoginPath;
    }
  }
}
