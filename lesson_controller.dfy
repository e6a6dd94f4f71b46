/**
 * LessonController (backend/app/Http/Controllers/LessonController.php):
 * marking a lesson complete, recomputing the course progress it feeds into
 * the enrollment, and the order a new lesson gets.
 */
module LessonController {
  import opened Wrappers
  import opened PhpValue
  import Http
  import Rounding
  import opened Users
  import opened Courses
  import opened Enrollments
  import opened Store
  import opened Rules

  // ---------------------------------------------------------------------
  // lesson_progress rows: one per (user, lesson)

  function Key(p: LessonProgress): (int, int) {
    (p.userId, p.lessonId)
  }

  function Keys(ps: seq<LessonProgress>): set<(int, int)> {
    if ps == [] then {} else {Key(ps[0])} + Keys(ps[1..])
  }

  /** No two rows share a (user, lesson) pair. */
  predicate OneRowPerPair(ps: seq<LessonProgress>) {
    ps == [] || (Key(ps[0]) !in Keys(ps[1..]) && OneRowPerPair(ps[1..]))
  }

  /** updateOrCreate on (user, lesson) with completed = true and
      completed_at = now. `completed` is not in LessonProgress's fillable
      list, so mass assignment drops it: the first matching row gets
      completed_at = now and keeps its `completed` flag, or a new row with id
      `id` is appended with the column default, not completed. */
  function Upserted(ps: seq<LessonProgress>, userId: int, lessonId: int, now: int, id: int): (r: seq<LessonProgress>)
    ensures Keys(r) == Keys(ps) + {(userId, lessonId)}
    ensures (userId, lessonId) in Keys(ps) ==> |r| == |ps|
    ensures (userId, lessonId) !in Keys(ps) ==> |r| == |ps| + 1
    ensures OneRowPerPair(ps) ==> OneRowPerPair(r)
    ensures exists k :: 0 <= k < |r| && Key(r[k]) == (userId, lessonId) && r[k].completedAt == Some(now)
  {
    if ps == [] then
      var row := LessonProgress(id, userId, lessonId, false, Some(now));
      assert Key([row][0]) == (userId, lessonId);
      [row]
    else if Key(ps[0]) == (userId, lessonId) then
      var r := [ps[0].(completedAt := Some(now))] + ps[1..];
      assert r[1..] == ps[1..];
      assert Key(r[0]) == (userId, lessonId);
      r
    else
      var rest := Upserted(ps[1..], userId, lessonId, now, id);
      var r := [ps[0]] + rest;
      assert r[1..] == rest;
      var k :| 0 <= k < |rest| && Key(rest[k]) == (userId, lessonId) && rest[k].completedAt == Some(now);
      assert r[k + 1] == rest[k];
      r
  }

  /** Marking the same lesson again adds no row. */
  lemma MarkTwiceKeepsOneRow(ps: seq<LessonProgress>, userId: int, lessonId: int, t1: int, t2: int, id1: int, id2: int)
    ensures |Upserted(Upserted(ps, userId, lessonId, t1, id1), userId, lessonId, t2, id2)| ==
            |Upserted(ps, userId, lessonId, t1, id1)|
    ensures OneRowPerPair(ps) ==>
      OneRowPerPair(Upserted(Upserted(ps, userId, lessonId, t1, id1), userId, lessonId, t2, id2))
  {
  }

  // ---------------------------------------------------------------------
  // updateCourseProgress

  /** Lesson::where('course_id', ...)->count(). */
  function TotalLessons(ls: seq<Lesson>, courseId: int): nat {
    if ls == [] then 0
    else (if ls[0].courseId == courseId then 1 else 0) + TotalLessons(ls[1..], courseId)
  }

  /** A progress row the completed count includes: the user's, completed, and
      for a lesson of the course (whereHas('lesson', ...)). */
  predicate Counted(p: LessonProgress, ls: seq<Lesson>, userId: int, courseId: int) {
    p.userId == userId && p.completed &&
    FindLesson(ls, p.lessonId).Some? && FindLesson(ls, p.lessonId).value.courseId == courseId
  }

  function CompletedLessons(ps: seq<LessonProgress>, ls: seq<Lesson>, userId: int, courseId: int): nat {
    if ps == [] then 0
    else (if Counted(ps[0], ls, userId, courseId) then 1 else 0) + CompletedLessons(ps[1..], ls, userId, courseId)
  }

  /** The course progress: round(completed / total * 100), 0 without lessons. */
  function CourseProgress(completed: nat, total: nat): (p: nat)
    ensures total == 0 ==> p == 0
    ensures total > 0 ==> 2 * total * p <= 200 * completed + total < 2 * total * p + 2 * total
    ensures completed <= total ==> p <= 100
    ensures total > 0 && completed == total ==> p == 100
  {
    if total > 0 then Rounding.Percent(completed, total) else 0
  }

  /** updateCourseProgress: the recomputed progress goes to the (user, course)
      enrollment through updateProgress, and nowhere when there is none. */
  method UpdateCourseProgress(db: Db, courseId: int, userId: int, now: int)
    modifies EnrollmentFrame(db.enrollments, userId, courseId)
    ensures var e := FindEnrollment(db.enrollments, userId, courseId);
      e.Some? ==> e.value.State() == AfterUpdate(old(e.value.State()),
        CourseProgress(CompletedLessons(db.progress, db.lessons, userId, courseId), TotalLessons(db.lessons, courseId)), now)
  {
    var total := TotalLessons(db.lessons, courseId);
    var completed := CompletedLessons(db.progress, db.lessons, userId, courseId);
    var progress := CourseProgress(completed, total);
    var e := FindEnrollment(db.enrollments, userId, courseId);
    if e.Some? {
      e.value.UpdateProgress(progress, now);
    }
  }

  // ---------------------------------------------------------------------
  // The completed count never exceeds the lesson count

  function CountedIds(ps: seq<LessonProgress>, ls: seq<Lesson>, userId: int, courseId: int): (r: set<int>)
    ensures forall x :: x in r ==> (userId, x) in Keys(ps)
    ensures forall x :: x in r ==> x in CourseLessonIds(ls, courseId)
  {
    if ps == [] then {}
    else
      var rest := CountedIds(ps[1..], ls, userId, courseId);
      if Counted(ps[0], ls, userId, courseId) then
        var l := FindLesson(ls, ps[0].lessonId).value;
        assert l.id in CourseLessonIds(ls, courseId);
        {ps[0].lessonId} + rest
      else rest
  }

  function CourseLessonIds(ls: seq<Lesson>, courseId: int): (r: set<int>)
    ensures forall l :: l in ls && l.courseId == courseId ==> l.id in r
    ensures |r| <= TotalLessons(ls, courseId)
  {
    if ls == [] then {}
    else
      var rest := CourseLessonIds(ls[1..], courseId);
      assert forall l :: l in ls ==> l == ls[0] || l in ls[1..];
      if ls[0].courseId == courseId then {ls[0].id} + rest else rest
  }

  lemma {:induction false} CompletedIsDistinctIds(ps: seq<LessonProgress>, ls: seq<Lesson>, userId: int, courseId: int)
    requires OneRowPerPair(ps)
    ensures CompletedLessons(ps, ls, userId, courseId) == |CountedIds(ps, ls, userId, courseId)|
  {
    if ps != [] {
      CompletedIsDistinctIds(ps[1..], ls, userId, courseId);
      if Counted(ps[0], ls, userId, courseId) {
        assert ps[0].lessonId !in CountedIds(ps[1..], ls, userId, courseId);
      }
    }
  }

  lemma SubsetCard(a: set<int>, b: set<int>)
    requires a <= b
    ensures |a| <= |b|
  {
    assert b == a + (b - a);
    assert a * (b - a) == {};
  }

  /** Because the `completed` write is dropped, marking a lesson complete
      never changes how many completed lessons updateCourseProgress counts,
      for any user and course. */
  lemma {:induction false} MarkNeverCounts(ps: seq<LessonProgress>, ls: seq<Lesson>, userId: int, lessonId: int,
                                           now: int, id: int, u: int, courseId: int)
    ensures CompletedLessons(Upserted(ps, userId, lessonId, now, id), ls, u, courseId) == CompletedLessons(ps, ls, u, courseId)
  {
    if ps == [] {
      var row := LessonProgress(id, userId, lessonId, false, Some(now));
      assert [row][1..] == [];
    } else if Key(ps[0]) == (userId, lessonId) {
      var r := [ps[0].(completedAt := Some(now))] + ps[1..];
      assert r[1..] == ps[1..];
      assert Counted(r[0], ls, u, courseId) == Counted(ps[0], ls, u, courseId);
    } else {
      var rest := Upserted(ps[1..], userId, lessonId, now, id);
      MarkNeverCounts(ps[1..], ls, userId, lessonId, now, id, u, courseId);
      assert ([ps[0]] + rest)[1..] == rest;
    }
  }

  /** With one row per (user, lesson), a student never completes more lessons
      than the course has, so the stored progress is at most 100. */
  lemma CompletedAtMostTotal(ps: seq<LessonProgress>, ls: seq<Lesson>, userId: int, courseId: int)
    requires OneRowPerPair(ps)
    ensures CompletedLessons(ps, ls, userId, courseId) <= TotalLessons(ls, courseId)
    ensures CourseProgress(CompletedLessons(ps, ls, userId, courseId), TotalLessons(ls, courseId)) <= 100
  {
    CompletedIsDistinctIds(ps, ls, userId, courseId);
    SubsetCard(CountedIds(ps, ls, userId, courseId), CourseLessonIds(ls, courseId));
  }

  // ---------------------------------------------------------------------
  // markComplete

  /** The enrollment markComplete may update: the caller's, in the lesson's course. */
  function LessonEnrollmentFrame(ls: seq<Lesson>, es: seq<Enrollment>, lessonId: int, userId: int): set<Enrollment> {
    match FindLesson(ls, lessonId)
    case None => {}
    case Some(l) => EnrollmentFrame(es, userId, l.courseId)
  }

  /** markComplete: 404 for an unknown lesson, 403 without an enrollment in its
      course (nothing changes), otherwise the (user, lesson) row is upserted
      and the course progress, whose completed count the upsert leaves as it
      was, is pushed into the enrollment. */
  method MarkComplete(db: Db, lessonId: int, userId: int, now: int) returns (status: Http.Status)
    modifies db`progress, db`nextId, LessonEnrollmentFrame(db.lessons, db.enrollments, lessonId, userId)
    ensures FindLesson(db.lessons, lessonId).None? ==> status == Http.NotFound
    ensures status != Http.Ok ==> db.progress == old(db.progress) && db.nextId == old(db.nextId)
    ensures FindLesson(db.lessons, lessonId).Some? ==>
      var courseId := FindLesson(db.lessons, lessonId).value.courseId;
      var e := FindEnrollment(db.enrollments, userId, courseId);
      && (e.None? ==> status == Http.Forbidden)
      && (e.Some? ==>
            && status == Http.Ok
            && db.progress == Upserted(old(db.progress), userId, lessonId, now, old(db.nextId))
            && db.nextId == old(db.nextId) + (if (userId, lessonId) in Keys(old(db.progress)) then 0 else 1)
            && CompletedLessons(db.progress, db.lessons, userId, courseId) ==
               CompletedLessons(old(db.progress), db.lessons, userId, courseId)
            && e.value.State() == AfterUpdate(old(e.value.State()),
                 CourseProgress(CompletedLessons(db.progress, db.lessons, userId, courseId), TotalLessons(db.lessons, courseId)),
                 now))
    ensures OneRowPerPair(old(db.progress)) ==> OneRowPerPair(db.progress)
  {
    var lesson := FindLesson(db.lessons, lessonId);
    if lesson.None? {
      return Http.NotFound;
    }
    var courseId := lesson.value.courseId;
    if FindEnrollment(db.enrollments, userId, courseId).None? {
      return Http.Forbidden;
    }
    var created := (userId, lessonId) !in Keys(db.progress);
    MarkNeverCounts(db.progress, db.lessons, userId, lessonId, now, db.nextId, userId, courseId);
    db.progress := Upserted(db.progress, userId, lessonId, now, db.nextId);
    if created {
      db.nextId := db.nextId + 1;
    }
    UpdateCourseProgress(db, courseId, userId, now);
    return Http.Ok;
  }

  // ---------------------------------------------------------------------
  // store: a new lesson goes after the course's last one

  /** max('order') over the course's lessons; None when it has none. */
  function MaxLessonOrder(ls: seq<Lesson>, courseId: int): (m: Option<int>)
    ensures m.None? <==> forall l :: l in ls ==> l.courseId != courseId
    ensures m.Some? ==> forall l :: l in ls && l.courseId == courseId ==> l.order <= m.value
    ensures m.Some? ==> exists l :: l in ls && l.courseId == courseId && l.order == m.value
  {
    if ls == [] then None
    else
      var rest := MaxLessonOrder(ls[1..], courseId);
      assert forall l :: l in ls ==> l == ls[0] || l in ls[1..];
      if ls[0].courseId != courseId then rest
      else if rest.None? || rest.value < ls[0].order then Some(ls[0].order)
      else rest
  }

  /** max('order') ?? 0, plus one. */
  function NextLessonOrder(ls: seq<Lesson>, courseId: int): int {
    MaxLessonOrder(ls, courseId).GetOr(0) + 1
  }

  /** The next order is 1 for an empty course, and otherwise one past the
      largest existing order, so it is larger than every existing one. */
  lemma NextLessonOrderIsAfterAll(ls: seq<Lesson>, courseId: int)
    ensures (forall l :: l in ls ==> l.courseId != courseId) ==> NextLessonOrder(ls, courseId) == 1
    ensures forall l :: l in ls && l.courseId == courseId ==> l.order < NextLessonOrder(ls, courseId)
    ensures (exists l :: l in ls && l.courseId == courseId) ==>
      exists l :: l in ls && l.courseId == courseId && l.order == NextLessonOrder(ls, courseId) - 1
  {
  }

  /** A lesson-creation request as sent. Null marks a missing field wherever
      its rule treats missing and null alike; `isFree` is None when absent,
      because `boolean` skips an absent key but refuses a null one. */
  datatype LessonInput = LessonInput(
    title: Value,
    description: Value,
    content: Value,
    videoUrl: Value,
    durationMinutes: Value,
    isFree: Option<Value>,
    resources: Value)

  /** The store rules: title required|string|max:255, description and
      content nullable|string, video_url nullable|url, duration_minutes
      required|integer|min:1, is_free boolean, resources nullable|array.
      `isUrl` stands for the framework's URL pattern, which the `url` rule
      applies to strings only. A blank string passes every rule but
      `required`. */
  predicate ValidLessonInput(input: LessonInput, isUrl: string -> bool) {
    && Required(input.title) && input.title.Str? && |input.title.s| <= 255
    && (input.description.Null? || input.description.Str?)
    && (input.content.Null? || input.content.Str?)
    && (input.videoUrl.Null? || Blank(input.videoUrl) || (input.videoUrl.Str? && isUrl(input.videoUrl.s)))
    && PositiveInteger(input.durationMinutes)
    && (input.isFree.None? || Blank(input.isFree.value) || BooleanRule(input.isFree.value))
    && (input.resources.Null? || Blank(input.resources) || input.resources.List?)
  }

  /** Every optional field is checked: a non-blank non-URL video, a null or
      non-boolean is_free, a non-string description and a non-array
      resources each fail the request, while leaving them out, or sending a
      blank video_url, is_free or resources, does not. */
  lemma LessonFieldRules(input: LessonInput, isUrl: string -> bool, url: string)
    requires ValidLessonInput(input, isUrl)
    ensures ValidLessonInput(input.(description := Null, content := Null, videoUrl := Null, isFree := None,
                                    resources := Null), isUrl)
    ensures !isUrl(url) && Trim(url) != "" ==> !ValidLessonInput(input.(videoUrl := Str(url)), isUrl)
    ensures Trim(url) == "" ==>
      ValidLessonInput(input.(videoUrl := Str(url), isFree := Some(Str(url)), resources := Str(url)), isUrl)
    ensures !ValidLessonInput(input.(videoUrl := Int(1)), isUrl)
    ensures !ValidLessonInput(input.(isFree := Some(Null)), isUrl)
    ensures !ValidLessonInput(input.(isFree := Some(Str("yes"))), isUrl)
    ensures !ValidLessonInput(input.(description := Int(1)), isUrl)
    ensures !ValidLessonInput(input.(content := List([])), isUrl)
    ensures !ValidLessonInput(input.(resources := Str("notes")), isUrl)
  {
    BlankStrings("yes");
    BlankStrings("notes");
  }

  /** store: 404 for an unknown course, 403 unless an administrator or the
      course's instructor, 422 on invalid input, otherwise 201 and one new
      lesson placed after the course's last. */
  method StoreLesson(db: Db, courseId: int, u: User, input: LessonInput, isUrl: string -> bool)
    returns (status: Http.Status)
    modifies db`lessons, db`nextId
    ensures var c := FindCourse(db.courses, courseId);
      && (c.None? ==> status == Http.NotFound)
      && (c.Some? && !IsAdmin(u) && c.value.instructorId != u.id ==> status == Http.Forbidden)
      && (c.Some? && (IsAdmin(u) || c.value.instructorId == u.id) && !ValidLessonInput(input, isUrl) ==>
            status == Http.Unprocessable)
      && (c.Some? && (IsAdmin(u) || c.value.instructorId == u.id) && ValidLessonInput(input, isUrl) ==>
            status == Http.Created)
    ensures status != Http.Created ==> db.lessons == old(db.lessons) && db.nextId == old(db.nextId)
    ensures status == Http.Created ==>
      db.lessons == old(db.lessons) + [Lesson(old(db.nextId), courseId, input.title.s,
        IntegerRule(input.durationMinutes).value, NextLessonOrder(old(db.lessons), courseId),
        RequestBoolean(input.isFree))]
      && db.nextId == old(db.nextId) + 1
  {
    var c := FindCourse(db.courses, courseId);
    if c.None? {
      return Http.NotFound;
    }
    if !IsAdmin(u) && c.value.instructorId != u.id {
      return Http.Forbidden;
    }
    if !ValidLessonInput(input, isUrl) {
      return Http.Unprocessable;
    }
    var order := NextLessonOrder(db.lessons, courseId);
    db.lessons := db.lessons + [Lesson(db.nextId, courseId, input.title.s, IntegerRule(input.durationMinutes).value,
      order, RequestBoolean(input.isFree))];
    db.nextId := db.nextId + 1;
    return Http.Created;
  }
}
