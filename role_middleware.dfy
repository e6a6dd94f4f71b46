/**
 * The role middleware (backend/app/Http/Middleware/RoleMiddleware.php):
 * route parameter "admin|instructor" lists the roles allowed through.
 */
module RoleMiddleware {
  import opened Wrappers
  import opened PhpValue
  import Http
  import Text
  import opened Users

  datatype Decision = Reject(status: Http.Status) | Next

  /** Loose in_array: some element of the list is `==` to the needle. */
  predicate InArrayLoose(needle: Value, haystack: seq<string>) {
    exists k :: 0 <= k < |haystack| && LooseEq(needle, Str(haystack[k]))
  }

  /** handle: 401 without an authenticated user, 403 when the user's role is
      not in the '|'-separated list, otherwise the request goes on. */
  function Handle(user: Option<User>, roleParam: string): (d: Decision)
    ensures user.None? ==> d == Reject(Http.Unauthorized)
    ensures d.Reject? ==> d.status == Http.Unauthorized || d.status == Http.Forbidden
  {
    match user
    case None => Reject(Http.Unauthorized)
    case Some(u) =>
      if InArrayLoose(Str(u.role), Text.Split(roleParam, '|')) then Next
      else Reject(Http.Forbidden)
  }

  /** Between two strings of which one is not numeric, `==` is string equality. */
  lemma LooseEqNonNumericString(r: string, t: string)
    requires !IsNumeric(Str(r))
    ensures LooseEq(Str(r), Str(t)) <==> r == t
  {
  }

  /** For a role that is not a numeric string, the user passes exactly when
      the role is literally one of the listed roles. */
  lemma NonNumericRoleExact(u: User, roleParam: string)
    requires !IsNumeric(Str(u.role))
    ensures Handle(Some(u), roleParam) == Next <==> u.role in Text.Split(roleParam, '|')
    ensures Handle(Some(u), roleParam) != Next ==> Handle(Some(u), roleParam) == Reject(Http.Forbidden)
  {
    var allowed := Text.Split(roleParam, '|');
    if u.role in allowed {
      var k :| 0 <= k < |allowed| && allowed[k] == u.role;
      LooseEqNonNumericString(u.role, allowed[k]);
    }
    if InArrayLoose(Str(u.role), allowed) {
      var k :| 0 <= k < |allowed| && LooseEq(Str(u.role), Str(allowed[k]));
      LooseEqNonNumericString(u.role, allowed[k]);
    }
  }

  /** The three real roles are not numeric, so for them the list is matched exactly. */
  lemma RealRolesNotNumeric()
    ensures !IsNumeric(Str(RoleAdmin)) && !IsNumeric(Str(RoleInstructor)) && !IsNumeric(Str(RoleStudent))
  {
    NotNumericStart(RoleAdmin);
    NotNumericStart(RoleInstructor);
    NotNumericStart(RoleStudent);
  }

  /** A route for several roles lets each of them through, and no one else. */
  lemma JoinedRolesAdmitEach(u: User, roles: seq<string>)
    requires |roles| > 0 && forall k :: 0 <= k < |roles| ==> '|' !in roles[k]
    requires !IsNumeric(Str(u.role))
    ensures Handle(Some(u), Text.Join(roles, '|')) == Next <==> u.role in roles
  {
    Text.SplitJoin(roles, '|');
    NonNumericRoleExact(u, Text.Join(roles, '|'));
  }

  /** The route parameter "admin|instructor" lists exactly those two roles. */
  lemma AdminInstructorList(param: string)
    requires param == "admin|instructor"
    ensures Text.Split(param, '|') == [RoleAdmin, RoleInstructor]
  {
    var roles := [RoleAdmin, RoleInstructor];
    assert roles[1..] == [RoleInstructor];
    assert Text.Join(roles, '|') == param;
    Text.SplitJoin(roles, '|');
  }

  /** An administrator passes "admin|instructor"; a student is refused with 403. */
  lemma AdminInstructorRoute(admin: User, student: User, param: string)
    requires param == "admin|instructor"
    requires IsAdmin(admin) && IsStudent(student)
    ensures Handle(Some(admin), param) == Next
    ensures Handle(Some(student), param) == Reject(Http.Forbidden)
  {
    RealRolesNotNumeric();
    AdminInstructorList(param);
    NonNumericRoleExact(admin, param);
    NonNumericRoleExact(student, param);
    assert RoleStudent != RoleAdmin && RoleStudent != RoleInstructor;
  }

  /** Loose comparison lets a numeric role match a differently spelled number:
      a role "10" passes a route that allows "1e1". */
  lemma NumericRoleCoercion(u: User, param: string)
    requires u.role == "10" && param == "1e1"
    ensures Handle(Some(u), param) == Next
  {
    Text.SplitNoSep(param, '|');
    NumericStringsLooseEqual(u.role, param);
    assert Text.Split(param, '|')[0] == param;
  }
}
