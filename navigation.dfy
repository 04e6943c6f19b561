/** The navigation bar (src/components/Navbar.js): the links each role is offered, which one
    is marked active, and the name and role it shows. */
module Navigation {
  import opened Common
  import App

  /** A link: its target and its text (the icon is display-only). */
  datatype NavLink = NavLink(to: string, text: string)

  const StudentLinks: seq<NavLink> := [
    NavLink("/student", "Dashboard"),
    NavLink("/student/assessments-list", "Assessments"),
    NavLink("/student/courses-list", "Courses"),
    NavLink("/student/results", "Results")
  ]

  const InstructorLinks: seq<NavLink> := [
    NavLink("/instructor", "Dashboard"),
    NavLink("/instructor/upload-course", "Upload Course"),
    NavLink("/instructor/upload-assessment", "Upload Assessment"),
    NavLink("/instructor/courses-list", "Courses"),
    NavLink("/instructor/instructor-assessment-list", "Assessments")
  ]

  /** getNavLinks: four student links, five instructor links (the results page has a route
      but no link), and none for any other role, a missing one included. */
  function NavLinks(role: Option<string>): (r: seq<NavLink>)
    ensures role == Some("Student") ==> |r| == 4 && forall i :: 0 <= i < |r| ==> "/student" <= r[i].to
    ensures role == Some("Instructor") ==>
      && |r| == 5
      && (forall i :: 0 <= i < |r| ==> "/instructor" <= r[i].to)
      && (forall i :: 0 <= i < |r| ==> r[i].to != "/instructor/view-results")
    ensures role != Some("Student") && role != Some("Instructor") ==> r == []
  {
    if role == Some("Student") then
      StudentLinksUnderStudent();
      StudentLinks
    else if role == Some("Instructor") then
      InstructorLinksUnderInstructor();
      InstructorLinks
    else []
  }

  lemma StudentLinksUnderStudent()
    ensures |StudentLinks| == 4 && forall i :: 0 <= i < 4 ==> "/student" <= StudentLinks[i].to
  {
    assert forall i :: 0 <= i < 4 ==> StudentLinks[i].to[..8] == "/student";
  }

  lemma InstructorLinksUnderInstructor()
    ensures |InstructorLinks| == 5
    ensures forall i :: 0 <= i < 5 ==> "/instructor" <= InstructorLinks[i].to
    ensures forall i :: 0 <= i < 5 ==> InstructorLinks[i].to != "/instructor/view-results"
  {
    assert forall i :: 0 <= i < 5 ==> InstructorLinks[i].to[..11] == "/instructor";
    assert forall i :: 0 <= i < 5 ==> |InstructorLinks[i].to| != 24 || InstructorLinks[i].to[12] != 'v';
  }

  /** Every link leads to a page the route table reserves for the same role. */
  lemma LinksMatchRoutes(role: string, i: nat)
    requires role == "Student" || role == "Instructor"
    requires i < |NavLinks(Some(role))|
    ensures App.RouteOf(NavLinks(Some(role))[i].to) == App.PrivatePage(role)
  {
    var to := NavLinks(Some(role))[i].to;
    if role == "Student" {
      assert to in App.StudentPaths;
      App.StudentPathsAreKeys();
    } else {
      assert to in App.InstructorPaths;
      App.InstructorPathsAreKeys();
    }
  }

  /** `location.pathname === link.to`: the pathname exactly as written, with none of the
      route table's case folding or slash dropping. */
  predicate IsActive(pathname: string, link: NavLink)
    ensures IsActive(pathname, link) <==> |pathname| == |link.to| && pathname <= link.to
  {
    pathname == link.to
  }

  /** The targets are distinct, so at most one link is active on any page. */
  lemma AtMostOneActive(role: Option<string>, pathname: string, i: nat, j: nat)
    requires i < |NavLinks(role)| && j < |NavLinks(role)|
    requires IsActive(pathname, NavLinks(role)[i]) && IsActive(pathname, NavLinks(role)[j])
    ensures i == j
  {
    var links := NavLinks(role);
    assert forall a, b :: 0 <= a < b < |links| ==> links[a].to != links[b].to by {
      if role == Some("Student") {
        assert |links[0].to| == 8 && |links[1].to| == 25 && |links[2].to| == 21 && |links[3].to| == 16;
      } else if role == Some("Instructor") {
        assert |links[0].to| == 11 && |links[1].to| == 25 && |links[2].to| == 29;
        assert |links[3].to| == 24 && |links[4].to| == 38;
      }
    }
  }

  /** The active test is exact while routing is not: "/student/" shows the student
      dashboard, yet its Dashboard link is not marked active. */
  lemma TrailingSlashNotActive()
    ensures App.RouteOf("/student/") == App.RouteOf(NavLinks(Some("Student"))[0].to)
    ensures !IsActive("/student/", NavLinks(Some("Student"))[0])
  {
    assert App.MatchKey("/student/") == "/student" by {
      assert App.DropTrailingSlashes("/student/") == App.DropTrailingSlashes("/student");
      App.LowerCaseKey("/student");
    }
    App.LowerCaseKey("/student");
  }

  /** The name and role the bar shows: what is stored and resolved while logged in, and ""
      for both once logged out. */
  function Session(isLoggedIn: bool, storedUsername: Option<string>, role: Option<string>)
    : (r: (Option<string>, Option<string>))
    ensures isLoggedIn ==> r.0 == storedUsername && r.1 == role
    ensures !isLoggedIn ==> r.0 == Some("") && NavLinks(r.1) == []
  {
    if isLoggedIn then (storedUsername, role) else (Some(""), Some(""))
  }

  /** Logging out blanks the name and the role, and a blank role offers no links. */
  lemma LoggedOutHasNoLinks(storedUsername: Option<string>, role: Option<string>)
    ensures Session(false, storedUsername, role) == (Some(""), Some(""))
    ensures NavLinks(Session(false, storedUsername, role).1) == []
  {
  }
}
