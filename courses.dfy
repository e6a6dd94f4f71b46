/**
 * Courses (backend/app/Models/Course.php): the publication status, the
 * seat limit and the completion rate.
 */
module Courses {
  import opened Wrappers
  import Rounding

  const StatusDraft := "draft"
  const StatusPublished := "published"
  const StatusArchived := "archived"

  /** A courses row; `maxStudents` is the nullable max_students column.
      Price, category, level and the text fields are carried as strings. */
  datatype Course = Course(
    id: int,
    title: string,
    description: string,
    instructorId: int,
    level: string,
    durationHours: int,
    price: string,
    status: string,
    maxStudents: Option<int>)

  /** isPublished: strict comparison with 'published'. */
  predicate IsPublished(c: Course) {
    c.status == StatusPublished
  }

  /** hasAvailableSpots given the course's enrolled count: a null or zero
      limit is falsy and means unlimited. */
  predicate HasAvailableSpots(c: Course, enrolledCount: nat) {
    match c.maxStudents
    case None => true
    case Some(m) => m == 0 || enrolledCount < m
  }

  /** Without a positive limit there is always room; with one, there is room
      exactly while fewer students than the limit are enrolled. */
  lemma AvailableSpotsRule(c: Course, enrolledCount: nat)
    ensures (c.maxStudents.None? || c.maxStudents == Some(0)) ==> HasAvailableSpots(c, enrolledCount)
    ensures c.maxStudents.Some? && c.maxStudents.value > 0 ==>
      (HasAvailableSpots(c, enrolledCount) <==> enrolledCount < c.maxStudents.value)
  {
  }

  /** Filling a limited course closes it: one seat fewer than the limit
      is available, the limit itself is not. */
  lemma FullCourseHasNoSpots(c: Course, m: nat)
    requires c.maxStudents == Some(m) && m > 0
    ensures HasAvailableSpots(c, m - 1) && !HasAvailableSpots(c, m)
  {
  }

  /** The completion-rate accessor, in hundredths of a percent: 0 without
      enrollments, otherwise round(completed / total * 100, 2). */
  function CompletionRate(completed: nat, total: nat): (r: nat)
    ensures total == 0 ==> r == 0
    ensures total > 0 ==> 2 * total * r <= 20000 * completed + total < 2 * total * r + 2 * total
    ensures completed <= total ==> r <= 10000
  {
    if total == 0 then 0
    else
      var p := Rounding.RoundDiv(10000 * completed, total);
      RateBound(completed, total, p);
      p
  }

  lemma RateBound(completed: nat, total: nat, p: nat)
    requires 0 < total
    requires 2 * total * p <= 20000 * completed + total
    ensures completed <= total ==> p <= 10000
  {
    if completed <= total && p > 10000 {
      Rounding.MulMonotone(2 * total, 10001, p);
      assert false;
    }
  }

  /** Every enrollment completed gives a rate of exactly 100.00. */
  lemma AllCompletedRate(total: nat)
    requires total > 0
    ensures CompletionRate(total, total) == 10000
  {
    var r := CompletionRate(total, total);
    if r < 10000 {
      Rounding.MulMonotone(2 * total, r, 9999);
      assert false;
    }
  }
}
