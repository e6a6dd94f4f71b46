/**
 * The student progress route (PUT /student/courses/{courseId}/progress in
 * backend/routes/api.php): the demo student's enrollment is found or created
 * and its progress set directly, with completed_at following it both ways.
 */
module ProgressRoute {
  import opened Wrappers
  import Http
  import opened Enrollments
  import opened Store

  /** The state the route saves: the requested progress, completed_at kept
      or set at 100 and cleared below it. */
  function AfterPut(s: ProgressState, p: int, now: int): ProgressState {
    var completedAt :=
      if p >= 100 then (if s.completedAt.None? then Some(now) else s.completedAt)
      else None;
    ProgressState(p, completedAt)
  }

  /** After a save, completed_at is set exactly when progress is 100, and an
      earlier completion time survives while progress stays at 100. */
  lemma PutCompletedIffFull(s: ProgressState, p: int, now: int)
    requires 0 <= p <= 100
    ensures AfterPut(s, p, now).progress == p
    ensures AfterPut(s, p, now).completedAt.Some? <==> p == 100
    ensures p == 100 && s.completedAt.Some? ==> AfterPut(s, p, now).completedAt == s.completedAt
    ensures p == 100 && s.completedAt.None? ==> AfterPut(s, p, now).completedAt == Some(now)
  {
  }

  /** The two progress writers disagree: from a completed enrollment, reporting
      50 through updateProgress keeps completed_at, through this route clears it. */
  lemma WritersDisagreeBelowHundred(t0: int, now: int)
    ensures AfterUpdate(ProgressState(100, Some(t0)), 50, now) == ProgressState(50, Some(t0))
    ensures AfterPut(ProgressState(100, Some(t0)), 50, now) == ProgressState(50, None)
  {
  }

  /** The route with a request whose progress field is `requested`: the
      integer it denotes when it passes the `integer` rule (an int, or a
      string of digits), None otherwise. 404 for an unknown course, 422 outside
      0..100, otherwise firstOrCreate the (student, course) enrollment with
      progress 0 and save the new progress and completion time. */
  method SetProgress(db: Db, courseId: int, studentId: int, requested: Option<int>, now: int)
    returns (status: Http.Status)
    modifies db`enrollments, db`nextId, EnrollmentFrame(db.enrollments, studentId, courseId)
    ensures FindCourse(db.courses, courseId).None? ==> status == Http.NotFound
    ensures FindCourse(db.courses, courseId).Some? ==>
      (status == Http.Unprocessable <==> !(requested.Some? && 0 <= requested.value <= 100))
    ensures FindCourse(db.courses, courseId).Some? && requested.Some? && 0 <= requested.value <= 100 ==>
      status == Http.Ok
    ensures status != Http.Ok ==>
      && db.enrollments == old(db.enrollments) && db.nextId == old(db.nextId)
      && forall e :: e in EnrollmentFrame(db.enrollments, studentId, courseId) ==> unchanged(e)
    ensures status == Http.Ok ==>
      && FindEnrollment(db.enrollments, studentId, courseId).Some?
      && var e := FindEnrollment(db.enrollments, studentId, courseId).value;
      && (old(IsEnrolled(db.enrollments, studentId, courseId)) ==>
            && db.enrollments == old(db.enrollments) && db.nextId == old(db.nextId)
            && e == old(FindEnrollment(db.enrollments, studentId, courseId)).value
            && e.State() == AfterPut(old(e.State()), requested.value, now))
      && (!old(IsEnrolled(db.enrollments, studentId, courseId)) ==>
            && db.enrollments == old(db.enrollments) + [e] && fresh(e)
            && e.id == old(db.nextId) && e.enrolledAt == now && db.nextId == old(db.nextId) + 1
            && e.State() == AfterPut(ProgressState(0, None), requested.value, now))
    ensures status in {Http.NotFound, Http.Unprocessable, Http.Ok}
  {
    if FindCourse(db.courses, courseId).None? {
      return Http.NotFound;
    }
    if !(requested.Some? && 0 <= requested.value <= 100) {
      return Http.Unprocessable;
    }
    var found := FindEnrollment(db.enrollments, studentId, courseId);
    var e: Enrollment;
    if found.Some? {
      e := found.value;
    } else {
      e := new Enrollment(db.nextId, studentId, courseId, now);
      FindEnrollmentAppend(db.enrollments, e, studentId, courseId);
      db.enrollments := db.enrollments + [e];
      db.nextId := db.nextId + 1;
    }
    e.progress := requested.value;
    if e.progress >= 100 && e.completedAt.None? {
      e.completedAt := Some(now);
    }
    if e.progress < 100 {
      e.completedAt := None;
    }
    return Http.Ok;
  }

  lemma {:induction false} FindEnrollmentAppend(es: seq<Enrollment>, e: Enrollment, userId: int, courseId: int)
    requires FindEnrollment(es, userId, courseId).None?
    requires e.userId == userId && e.courseId == courseId
    ensures FindEnrollment(es + [e], userId, courseId) == Some(e)
  {
    if es != [] {
      assert (es + [e])[1..] == es[1..] + [e];
      FindEnrollmentAppend(es[1..], e, userId, courseId);
    }
  }
}
