/**
 * Course access as both QuizController and LessonController decide it
 * (the private hasAccessToCourse, written out identically in each).
 */
module Access {
  import opened Users
  import opened Courses

  /** hasAccessToCourse: administrators always; instructors for the courses
      they own (strict id comparison); students when enrolled; nobody else.
      `enrolled` says whether a (user, course) enrollment row exists. */
  predicate HasAccessToCourse(u: User, c: Course, enrolled: bool) {
    if IsAdmin(u) then true
    else if IsInstructor(u) && c.instructorId == u.id then true
    else if IsStudent(u) then enrolled
    else false
  }

  /** The decision, one role at a time. */
  lemma AccessByRole(u: User, c: Course, enrolled: bool)
    ensures IsAdmin(u) ==> HasAccessToCourse(u, c, enrolled)
    ensures IsInstructor(u) ==> (HasAccessToCourse(u, c, enrolled) <==> c.instructorId == u.id)
    ensures IsStudent(u) ==> (HasAccessToCourse(u, c, enrolled) <==> enrolled)
    ensures !IsAdmin(u) && !IsInstructor(u) && !IsStudent(u) ==> !HasAccessToCourse(u, c, enrolled)
  {
    AtMostOneRole(u);
  }

  /** Access always rests on the role, ownership or an enrollment. */
  lemma AccessHasAReason(u: User, c: Course, enrolled: bool)
    requires HasAccessToCourse(u, c, enrolled)
    ensures IsAdmin(u) || (IsInstructor(u) && c.instructorId == u.id) || (IsStudent(u) && enrolled)
  {
  }

  /** Enrolling an instructor in somebody else's course does not give access. */
  lemma InstructorEnrollmentIgnored(u: User, c: Course)
    requires IsInstructor(u) && c.instructorId != u.id
    ensures !HasAccessToCourse(u, c, true)
  {
    AtMostOneRole(u);
  }
}
