/**
 * Users and their roles (backend/app/Models/User.php). A role check is a
 * strict string comparison with one of three role constants.
 */
module Users {

  const RoleAdmin := "admin"
  const RoleInstructor := "instructor"
  const RoleStudent := "student"

  datatype User = User(id: int, name: string, email: string, role: string)

  /** hasRole: strict `===` on the role column. */
  predicate HasRole(u: User, role: string) {
    u.role == role
  }

  predicate IsAdmin(u: User) { HasRole(u, RoleAdmin) }
  predicate IsInstructor(u: User) { HasRole(u, RoleInstructor) }
  predicate IsStudent(u: User) { HasRole(u, RoleStudent) }

  /** The three role predicates exclude one another. */
  lemma AtMostOneRole(u: User)
    ensures !(IsAdmin(u) && IsInstructor(u))
    ensures !(IsAdmin(u) && IsStudent(u))
    ensures !(IsInstructor(u) && IsStudent(u))
  {
    assert RoleAdmin[0] != RoleInstructor[0] && RoleAdmin[0] != RoleStudent[0];
    assert RoleInstructor[0] != RoleStudent[0];
  }

  /** A role outside the three constants satisfies none of the predicates,
      and a role that satisfies none of them is outside the constants. */
  lemma OtherRoleHasNone(u: User)
    ensures u.role !in {RoleAdmin, RoleInstructor, RoleStudent} <==>
      (!IsAdmin(u) && !IsInstructor(u) && !IsStudent(u))
  {
  }
}
