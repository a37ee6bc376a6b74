/** `lib/role-utils.ts`: the route gate that sends a user who opens a page meant for
    the other role back to their own home page. */
module RoleUtils {
  import opened Common

  datatype Role = Educator | Student

  /** `roleRoutes`: each role's home page. */
  function Home(role: Role): string
  {
    match role
    case Educator => "/dashboard"
    case Student => "/dashboard/student"
  }

  /** One entry of `roleRestrictedRoutes`: a route prefix and who may open it. */
  datatype Restriction = Restriction(route: string, educator: bool, student: bool)

  predicate Allows(x: Restriction, role: Role)
  {
    match role
    case Educator => x.educator
    case Student => x.student
  }

  /** The table, in the order `Object.entries` yields it. */
  const RestrictedRoutes: seq<Restriction> := [
    Restriction("/dashboard", true, false),
    Restriction("/dashboard/student", false, true),
    Restriction("/courses", true, false),
    Restriction("/students", true, false),
    Restriction("/grades", true, false),
    Restriction("/messages", true, false),
    Restriction("/browse-courses", false, true),
    Restriction("/my-courses", false, true),
    Restriction("/my-work", false, true)
  ]

  /** A table route covers a route equal to it or below it at a `/` boundary. */
  predicate Matches(prefix: string, route: string)
  {
    route == prefix || prefix + "/" <= route
  }

  /** The loop over the entries: the first matching entry that does not allow the role
      sends the user home; running out of entries allows the route. */
  function ScanRoutes(entries: seq<Restriction>, role: Role, route: string): (r: Option<string>)
    ensures r == None || r == Some(Home(role))
    ensures r.Some? <==> exists i :: 0 <= i < |entries| && Matches(entries[i].route, route) && !Allows(entries[i], role)
  {
    if |entries| == 0 then None
    else if Matches(entries[0].route, route) && !Allows(entries[0], role) then Some(Home(role))
    else
      var rest := ScanRoutes(entries[1..], role, route);
      assert forall i :: 1 <= i < |entries| ==> entries[i] == entries[1..][i - 1];
      assert rest.Some? ==> exists i :: 1 <= i < |entries| && Matches(entries[i].route, route) && !Allows(entries[i], role);
      rest
  }

  /** `getRoleSpecificRoute`: `None` when the role may open the route, otherwise the
      role's home page. */
  function RoleSpecificRoute(role: Role, route: string): (r: Option<string>)
    ensures r == None || r == Some(Home(role))
    ensures r.Some? <==> exists i :: 0 <= i < |RestrictedRoutes| && Matches(RestrictedRoutes[i].route, route) && !Allows(RestrictedRoutes[i], role)
  {
    ScanRoutes(RestrictedRoutes, role, route)
  }

  /** A route that no table entry covers is open to both roles. */
  lemma UnrestrictedRouteIsOpen(role: Role, route: string)
    requires forall i :: 0 <= i < |RestrictedRoutes| ==> !Matches(RestrictedRoutes[i].route, route)
    ensures RoleSpecificRoute(role, route) == None
  {
  }

  /** The boundary rule: "/coursesX" is not under "/courses", "/courses/x" is. */
  lemma PrefixNeedsBoundary()
    ensures !Matches("/courses", "/coursesX")
    ensures Matches("/courses", "/courses/x")
  {
    assert ("/courses" + "/")[8] == '/' && "/coursesX"[8] == 'X';
  }

  lemma DiffersAt(prefix: string, route: string, k: nat)
    requires k < |prefix| && k < |route| && prefix[k] != route[k]
    ensures !Matches(prefix, route)
  {
    assert (prefix + "/")[k] == prefix[k];
  }

  lemma LongerThan(prefix: string, route: string)
    requires |prefix| > |route|
    ensures !Matches(prefix, route)
  {
  }

  /** An educator's home is open to educators. */
  lemma EducatorHomeIsOpen()
    ensures RoleSpecificRoute(Educator, "/dashboard") == None
  {
    var t := RestrictedRoutes;
    LongerThan(t[1].route, "/dashboard");
    DiffersAt(t[6].route, "/dashboard", 1);
    DiffersAt(t[7].route, "/dashboard", 1);
    DiffersAt(t[8].route, "/dashboard", 1);
    forall i | 0 <= i < |t| && !Allows(t[i], Educator)
      ensures i == 1 || i == 6 || i == 7 || i == 8
    {
    }
  }

  /** The student pages and everything below them send an educator to "/dashboard". */
  lemma EducatorSentHomeFromStudentPages(suffix: string)
    ensures RoleSpecificRoute(Educator, "/dashboard/student") == Some("/dashboard")
    ensures RoleSpecificRoute(Educator, "/browse-courses/" + suffix) == Some("/dashboard")
    ensures RoleSpecificRoute(Educator, "/my-courses/" + suffix) == Some("/dashboard")
    ensures RoleSpecificRoute(Educator, "/my-work/" + suffix) == Some("/dashboard")
  {
    assert Matches(RestrictedRoutes[1].route, "/dashboard/student");
    assert RestrictedRoutes[6].route + "/" <= "/browse-courses/" + suffix;
    assert RestrictedRoutes[7].route + "/" <= "/my-courses/" + suffix;
    assert RestrictedRoutes[8].route + "/" <= "/my-work/" + suffix;
  }

  /** First match wins: "/dashboard/student" is also under "/dashboard", which students
      may not open, so a student at their own home is sent to that same home. */
  lemma StudentRedirectedToOwnHome()
    ensures RoleSpecificRoute(Student, Home(Student)) == Some(Home(Student))
  {
    assert Matches(RestrictedRoutes[0].route, "/dashboard/student");
  }

  /** The gate with the most specific entry deciding: among the entries covering the
      route, the one with the longest route governs. */
  function Governing(entries: seq<Restriction>, route: string): (r: Option<Restriction>)
    ensures r.Some? ==> r.value in entries && Matches(r.value.route, route)
    ensures r.Some? ==> forall x :: x in entries && Matches(x.route, route) ==> |x.route| <= |r.value.route|
    ensures r.None? ==> forall x :: x in entries ==> !Matches(x.route, route)
  {
    if |entries| == 0 then None
    else
      var rest := Governing(entries[1..], route);
      assert forall x :: x in entries ==> x == entries[0] || x in entries[1..];
      if !Matches(entries[0].route, route) then rest
      else if rest.Some? && |rest.value.route| > |entries[0].route| then rest
      else Some(entries[0])
  }

  function RoleSpecificRouteCorrected(role: Role, route: string): (r: Option<string>)
    ensures r == None || r == Some(Home(role))
    ensures r.Some? ==> exists x :: x in RestrictedRoutes && Matches(x.route, route) && !Allows(x, role)
  {
    match Governing(RestrictedRoutes, route)
    case None => None
    case Some(x) => if Allows(x, role) then None else Some(Home(role))
  }

  /** With the most specific entry deciding, each role may open its own home, so the
      gate never sends anyone to a page it would redirect again. */
  lemma CorrectedGateHasNoLoops(role: Role, route: string)
    ensures RoleSpecificRouteCorrected(role, Home(role)) == None
    ensures RoleSpecificRouteCorrected(role, route).Some? ==>
      RoleSpecificRouteCorrected(role, RoleSpecificRouteCorrected(role, route).value) == None
  {
    HomeGovernedByOwnEntry(role);
  }

  lemma HomeGovernedByOwnEntry(role: Role)
    ensures Governing(RestrictedRoutes, Home(role)).Some?
    ensures Allows(Governing(RestrictedRoutes, Home(role)).value, role)
  {
    match role
    case Educator => EducatorHomeGoverned();
    case Student => StudentHomeGoverned();
  }

  /** No entry after the first covers "/dashboard". */
  lemma DashboardCoveredOnlyByFirst()
    ensures forall i :: 1 <= i < |RestrictedRoutes| ==> !Matches(RestrictedRoutes[i].route, "/dashboard")
  {
    var t := RestrictedRoutes;
    LongerThan(t[1].route, "/dashboard");
    assert !Matches(t[2].route, "/dashboard") by { DiffersAt(t[2].route, "/dashboard", 1); }
    assert !Matches(t[3].route, "/dashboard") by { DiffersAt(t[3].route, "/dashboard", 1); }
    assert !Matches(t[4].route, "/dashboard") by { DiffersAt(t[4].route, "/dashboard", 1); }
    assert !Matches(t[5].route, "/dashboard") by { DiffersAt(t[5].route, "/dashboard", 1); }
    assert !Matches(t[6].route, "/dashboard") by { DiffersAt(t[6].route, "/dashboard", 1); }
    assert !Matches(t[7].route, "/dashboard") by { DiffersAt(t[7].route, "/dashboard", 1); }
    assert !Matches(t[8].route, "/dashboard") by { DiffersAt(t[8].route, "/dashboard", 1); }
  }

  /** Only the "/dashboard" entry covers "/dashboard". */
  lemma EducatorHomeGoverned()
    ensures Governing(RestrictedRoutes, "/dashboard") == Some(RestrictedRoutes[0])
  {
    var t := RestrictedRoutes;
    var g := Governing(t, "/dashboard");
    assert Matches(t[0].route, "/dashboard");
    DashboardCoveredOnlyByFirst();
    var k :| 0 <= k < |t| && t[k] == g.value;
    assert k == 0;
  }

  /** "/dashboard/student" is covered by two entries; the longer is its own. */
  lemma StudentHomeGoverned()
    ensures Governing(RestrictedRoutes, "/dashboard/student") == Some(RestrictedRoutes[1])
  {
    var t := RestrictedRoutes;
    var g := Governing(t, "/dashboard/student");
    assert Matches(t[1].route, "/dashboard/student");
    assert t[1] in t;
    var k :| 0 <= k < |t| && t[k] == g.value;
    assert |t[k].route| >= 18;
  }
}
