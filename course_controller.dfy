/**
 * CourseController (backend/app/Http/Controllers/CourseController.php):
 * enrolling in a course, creating a course and updating one.
 */
module CourseController {
  import opened Wrappers
  import opened PhpValue
  import Http
  import opened Users
  import opened Courses
  import opened Enrollments
  import opened Store
  import opened Rules

  // ---------------------------------------------------------------------
  // enroll

  /** No two enrollments share a (user, course) pair. */
  predicate OneEnrollmentPerPair(es: seq<Enrollment>) {
    forall i, j :: 0 <= i < j < |es| ==> !(es[i].userId == es[j].userId && es[i].courseId == es[j].courseId)
  }

  /** enroll: 404 for an unknown course; 400 when it is not published, when it
      is full, or when the caller is already enrolled (checked in that order);
      otherwise 201 and one new enrollment for the caller. */
  method Enroll(db: Db, courseId: int, userId: int, now: int) returns (status: Http.Status)
    modifies db`enrollments, db`nextId
    ensures var c := FindCourse(db.courses, courseId);
      var count := EnrolledCount(old(db.enrollments), courseId);
      && (c.None? ==> status == Http.NotFound)
      && (c.Some? && !IsPublished(c.value) ==> status == Http.BadRequest)
      && (c.Some? && !HasAvailableSpots(c.value, count) ==> status == Http.BadRequest)
      && (c.Some? && IsEnrolled(old(db.enrollments), userId, courseId) ==> status == Http.BadRequest)
      && ((c.Some? && IsPublished(c.value) && HasAvailableSpots(c.value, count) &&
           !IsEnrolled(old(db.enrollments), userId, courseId)) ==> status == Http.Created)
    ensures status != Http.Created ==> db.enrollments == old(db.enrollments) && db.nextId == old(db.nextId)
    ensures status == Http.Created ==>
      && |db.enrollments| == |old(db.enrollments)| + 1
      && db.enrollments[..|old(db.enrollments)|] == old(db.enrollments)
      && var e := db.enrollments[|old(db.enrollments)|];
      && fresh(e)
      && e.id == old(db.nextId) && e.userId == userId && e.courseId == courseId && e.enrolledAt == now
      && e.progress == 0 && e.completedAt.None?
      && db.nextId == old(db.nextId) + 1
    ensures OneEnrollmentPerPair(old(db.enrollments)) ==> OneEnrollmentPerPair(db.enrollments)
    ensures status == Http.Created ==>
      EnrolledCount(db.enrollments, courseId) == EnrolledCount(old(db.enrollments), courseId) + 1
    ensures status == Http.Created ==>
      var c := FindCourse(db.courses, courseId).value;
      c.maxStudents.Some? && c.maxStudents.value > 0 ==> EnrolledCount(db.enrollments, courseId) <= c.maxStudents.value
  {
    var c := FindCourse(db.courses, courseId);
    if c.None? {
      return Http.NotFound;
    }
    if !IsPublished(c.value) {
      return Http.BadRequest;
    }
    if !HasAvailableSpots(c.value, EnrolledCount(db.enrollments, courseId)) {
      return Http.BadRequest;
    }
    if IsEnrolled(db.enrollments, userId, courseId) {
      return Http.BadRequest;
    }
    var e := new Enrollment(db.nextId, userId, courseId, now);
    EnrolledCountAppend(db.enrollments, e, courseId);
    db.enrollments := db.enrollments + [e];
    db.nextId := db.nextId + 1;
    return Http.Created;
  }

  // ---------------------------------------------------------------------
  // store

  /** The fields of a course-creation request as sent; Null marks a missing
      field, which every rule here treats like a null one. */
  datatype CourseInput = CourseInput(
    title: Value,
    description: Value,
    shortDescription: Value,
    category: Value,
    level: Value,
    durationHours: Value,
    price: Value,
    maxStudents: Value,
    requirements: Value,
    learningOutcomes: Value)

  predicate IsLevel(s: string) {
    s == "beginner" || s == "intermediate" || s == "advanced"
  }

  predicate IsStatus(s: string) {
    s == StatusDraft || s == StatusPublished || s == StatusArchived
  }

  /** A numeric string whose value is not below zero (numeric|min:0). */
  predicate NonNegativePrice(s: string) {
    ParseNumeric(s).Some? && (ParseNumeric(s).value.negative ==> ParseNumeric(s).value.digits == 0)
  }

  /** `numeric|min:0`: an int or a numeric string whose value is not below zero. */
  predicate NonNegativeNumber(v: Value) {
    IsNumeric(v) && (NumberOf(v).value.negative ==> NumberOf(v).value.digits == 0)
  }

  /** `nullable|string|max:n`. */
  predicate NullableString(v: Value, max: nat) {
    v.Null? || (v.Str? && |v.s| <= max)
  }

  /** The store rules: title (a string of at most 255), description (a
      string), level, duration_hours (an integer, at least 1) and price
      (numeric, at least 0) required; short_description (at most 500) and
      category (at most 100) nullable strings; max_students a nullable
      integer, at least 1; requirements and learning_outcomes nullable
      arrays. A blank string passes every rule but `required`. */
  predicate ValidCourseInput(input: CourseInput) {
    && Required(input.title) && input.title.Str? && |input.title.s| <= 255
    && Required(input.description) && input.description.Str?
    && (Blank(input.shortDescription) || NullableString(input.shortDescription, 500))
    && (Blank(input.category) || NullableString(input.category, 100))
    && input.level.Str? && IsLevel(input.level.s)
    && PositiveInteger(input.durationHours)
    && NonNegativeNumber(input.price)
    && (input.maxStudents.Null? || Blank(input.maxStudents) || PositiveInteger(input.maxStudents))
    && (input.requirements.Null? || Blank(input.requirements) || input.requirements.List?)
    && (input.learningOutcomes.Null? || Blank(input.learningOutcomes) || input.learningOutcomes.List?)
  }

  /** The max_students a valid request stores: none for null, otherwise the
      integer column's reading of the value. */
  function MaxStudentsOf(input: CourseInput): (r: Option<int>)
    requires ValidCourseInput(input)
    ensures r.None? <==> input.maxStudents.Null?
    ensures r.Some? && !Blank(input.maxStudents) ==> r.value >= 1 && r.value == IntVal(input.maxStudents)
    ensures Blank(input.maxStudents) ==> r == Some(0)
  {
    if input.maxStudents.Null? then None else Some(StoredInteger(input.maxStudents))
  }

  /** The optional fields are checked too: an over-long short description or
      category, or requirements that are not an array, make the request fail. */
  lemma OptionalFieldRules(input: CourseInput)
    requires ValidCourseInput(input)
    ensures ValidCourseInput(input.(shortDescription := Null, category := Null, requirements := Null))
    ensures !ValidCourseInput(input.(shortDescription := Str(seq(501, k => 'a'))))
    ensures !ValidCourseInput(input.(category := Str(seq(101, k => 'a'))))
    ensures !ValidCourseInput(input.(requirements := Str("none")))
    ensures !ValidCourseInput(input.(learningOutcomes := Int(1)))
  {
    BlankStrings("none");
    BlankStrings(seq(501, k => 'a'));
    BlankStrings(seq(101, k => 'a'));
  }

  /** The validator skips a blank optional field: a blank short
      description, category, max_students, requirements or learning
      outcomes, of any length, does not fail the request, while a blank
      title or description does. */
  lemma BlankOptionalFieldsPass(input: CourseInput, blank: string)
    requires ValidCourseInput(input) && Trim(blank) == ""
    ensures ValidCourseInput(input.(shortDescription := Str(blank), category := Str(blank),
      maxStudents := Str(blank), requirements := Str(blank), learningOutcomes := Str(blank)))
    ensures !ValidCourseInput(input.(title := Str(blank)))
    ensures !ValidCourseInput(input.(description := Str(blank)))
  {
  }

  /** store: 422 on invalid input; otherwise 201 and a new draft course whose
      instructor is the caller. */
  method StoreCourse(db: Db, u: User, input: CourseInput) returns (status: Http.Status)
    modifies db`courses, db`nextId
    ensures !ValidCourseInput(input) <==> status == Http.Unprocessable
    ensures status == Http.Unprocessable ==> db.courses == old(db.courses) && db.nextId == old(db.nextId)
    ensures status == Http.Created ==>
      && |db.courses| == |old(db.courses)| + 1
      && db.courses[..|old(db.courses)|] == old(db.courses)
      && var c := db.courses[|old(db.courses)|];
      && c.id == old(db.nextId) && c.instructorId == u.id && c.status == StatusDraft && !IsPublished(c)
      && c.title == input.title.s && c.description == input.description.s && c.level == input.level.s
      && c.durationHours == IntegerRule(input.durationHours).value && c.price == ToPhpString(input.price)
      && c.maxStudents == MaxStudentsOf(input)
    ensures status == Http.Unprocessable || status == Http.Created
  {
    if !ValidCourseInput(input) {
      return Http.Unprocessable;
    }
    var c := Course(db.nextId, input.title.s, input.description.s, u.id, input.level.s,
      IntegerRule(input.durationHours).value, ToPhpString(input.price), StatusDraft, MaxStudentsOf(input));
    db.courses := db.courses + [c];
    db.nextId := db.nextId + 1;
    return Http.Created;
  }

  // ---------------------------------------------------------------------
  // update

  /** The keys of an update request that the course's fillable list accepts,
      as sent: None marks an absent key, which `sometimes` skips; a present
      key holds its decoded JSON value, null included. instructor_id has no
      rule and is taken as an integer. */
  datatype CoursePatch = CoursePatch(
    title: Option<Value>,
    description: Option<Value>,
    shortDescription: Option<Value>,
    category: Option<Value>,
    level: Option<Value>,
    durationHours: Option<Value>,
    price: Option<Value>,
    maxStudents: Option<Value>,
    requirements: Option<Value>,
    learningOutcomes: Option<Value>,
    status: Option<Value>,
    instructorId: Option<int>)

  /** The request with no keys. */
  const NoKeys := CoursePatch(None, None, None, None, None, None, None, None, None, None, None, None)

  /** `string|max:n` on a present value. */
  predicate StringAtMost(v: Value, max: nat) {
    v.Str? && |v.s| <= max
  }

  /** The `sometimes` rules: each present key must satisfy its rule or be a
      blank string, which every one of them skips; none of them is nullable. */
  predicate ValidPatch(p: CoursePatch) {
    && (p.title.Some? ==> Blank(p.title.value) || StringAtMost(p.title.value, 255))
    && (p.description.Some? ==> p.description.value.Str?)
    && (p.shortDescription.Some? ==> Blank(p.shortDescription.value) || StringAtMost(p.shortDescription.value, 500))
    && (p.category.Some? ==> Blank(p.category.value) || StringAtMost(p.category.value, 100))
    && (p.level.Some? ==> Blank(p.level.value) || (p.level.value.Str? && IsLevel(p.level.value.s)))
    && (p.durationHours.Some? ==> Blank(p.durationHours.value) || PositiveInteger(p.durationHours.value))
    && (p.price.Some? ==> Blank(p.price.value) || NonNegativeNumber(p.price.value))
    && (p.maxStudents.Some? ==> Blank(p.maxStudents.value) || PositiveInteger(p.maxStudents.value))
    && (p.requirements.Some? ==> Blank(p.requirements.value) || p.requirements.value.List?)
    && (p.learningOutcomes.Some? ==> Blank(p.learningOutcomes.value) || p.learningOutcomes.value.List?)
    && (p.status.Some? ==> Blank(p.status.value) || (p.status.value.Str? && IsStatus(p.status.value.s)))
  }

  /** Removing keys never makes a valid request invalid. */
  lemma PatchKeysOptional(p: CoursePatch)
    requires ValidPatch(p)
    ensures ValidPatch(NoKeys)
    ensures ValidPatch(p.(title := None, shortDescription := None, maxStudents := None, status := None))
  {
  }

  /** A present null fails every rule, whatever the other keys hold (none
      of the `sometimes` rules is nullable). */
  lemma PatchNullRejected(p: CoursePatch)
    ensures !ValidPatch(p.(title := Some(Null))) && !ValidPatch(p.(description := Some(Null)))
    ensures !ValidPatch(p.(shortDescription := Some(Null))) && !ValidPatch(p.(category := Some(Null)))
    ensures !ValidPatch(p.(level := Some(Null))) && !ValidPatch(p.(status := Some(Null)))
    ensures !ValidPatch(p.(durationHours := Some(Null))) && !ValidPatch(p.(price := Some(Null)))
    ensures !ValidPatch(p.(maxStudents := Some(Null)))
    ensures !ValidPatch(p.(requirements := Some(Null))) && !ValidPatch(p.(learningOutcomes := Some(Null)))
  {
  }

  /** An over-long short description or category, and non-array
      requirements or learning outcomes, are refused. */
  lemma PatchFieldRules(p: CoursePatch)
    requires ValidPatch(p)
    ensures !ValidPatch(p.(shortDescription := Some(Str(seq(501, k => 'a')))))
    ensures !ValidPatch(p.(category := Some(Str(seq(101, k => 'a')))))
    ensures !ValidPatch(p.(requirements := Some(Str("none"))))
    ensures !ValidPatch(p.(learningOutcomes := Some(Int(1))))
  {
    BlankStrings("none");
    BlankStrings(seq(501, k => 'a'));
    BlankStrings(seq(101, k => 'a'));
  }

  /** A blank value is skipped by every `sometimes` rule, so it passes in any
      key; a blank duration is then stored as 0. */
  lemma BlankPatchPasses(c: Course, p: CoursePatch, blank: string)
    requires ValidPatch(p) && Trim(blank) == ""
    ensures var b := Some(Str(blank));
      ValidPatch(p.(title := b, description := b, shortDescription := b, category := b, level := b,
        durationHours := b, price := b, maxStudents := b, requirements := b, learningOutcomes := b, status := b))
    ensures ApplyPatch(c, NoKeys.(durationHours := Some(Str(blank)))).durationHours == 0
    ensures ApplyPatch(c, NoKeys.(title := Some(Str(blank)))).title == blank
  {
  }

  /** $course->update($request->all()): every present key that names a kept
      column overwrites it with the value the rule accepted. */
  function ApplyPatch(c: Course, p: CoursePatch): (r: Course)
    requires ValidPatch(p)
    ensures r.id == c.id
    ensures p == NoKeys ==> r == c
  {
    Course(
      c.id,
      if p.title.Some? then p.title.value.s else c.title,
      if p.description.Some? then p.description.value.s else c.description,
      p.instructorId.GetOr(c.instructorId),
      if p.level.Some? then p.level.value.s else c.level,
      if p.durationHours.Some? then StoredInteger(p.durationHours.value) else c.durationHours,
      if p.price.Some? then ToPhpString(p.price.value) else c.price,
      if p.status.Some? then p.status.value.s else c.status,
      if p.maxStudents.Some? then Some(StoredInteger(p.maxStudents.value)) else c.maxStudents)
  }

  function Later<T>(a: Option<T>, b: Option<T>): Option<T> {
    if b.Some? then b else a
  }

  /** The keys of q, and those of p that q does not send. */
  function Merge(p: CoursePatch, q: CoursePatch): CoursePatch {
    CoursePatch(
      Later(p.title, q.title), Later(p.description, q.description),
      Later(p.shortDescription, q.shortDescription), Later(p.category, q.category),
      Later(p.level, q.level), Later(p.durationHours, q.durationHours), Later(p.price, q.price),
      Later(p.maxStudents, q.maxStudents), Later(p.requirements, q.requirements),
      Later(p.learningOutcomes, q.learningOutcomes), Later(p.status, q.status),
      Later(p.instructorId, q.instructorId))
  }

  /** Two accepted requests merge into an accepted one. */
  lemma MergeValid(p: CoursePatch, q: CoursePatch)
    requires ValidPatch(p) && ValidPatch(q)
    ensures ValidPatch(Merge(p, q))
  {
  }

  /** The text columns of two updates in a row are those of the merged one. */
  lemma ComposeText(c: Course, p: CoursePatch, q: CoursePatch)
    requires ValidPatch(p) && ValidPatch(q) && ValidPatch(Merge(p, q))
    ensures var once := ApplyPatch(ApplyPatch(c, p), q);
      var merged := ApplyPatch(c, Merge(p, q));
      && once.title == merged.title && once.description == merged.description
      && once.level == merged.level && once.status == merged.status
  {
  }

  /** The other columns of two updates in a row are those of the merged one. */
  lemma ComposeValues(c: Course, p: CoursePatch, q: CoursePatch)
    requires ValidPatch(p) && ValidPatch(q) && ValidPatch(Merge(p, q))
    ensures var once := ApplyPatch(ApplyPatch(c, p), q);
      var merged := ApplyPatch(c, Merge(p, q));
      && once.instructorId == merged.instructorId && once.durationHours == merged.durationHours
      && once.price == merged.price && once.maxStudents == merged.maxStudents
  {
  }

  /** Two accepted updates in a row are one update with the later values
      winning. */
  lemma PatchesCompose(c: Course, p: CoursePatch, q: CoursePatch)
    requires ValidPatch(p) && ValidPatch(q)
    ensures ValidPatch(Merge(p, q))
    ensures ApplyPatch(ApplyPatch(c, p), q) == ApplyPatch(c, Merge(p, q))
  {
    MergeValid(p, q);
    ComposeText(c, p, q);
    ComposeValues(c, p, q);
  }

  /** Repeating an accepted update changes nothing more. */
  lemma PatchIdempotent(c: Course, p: CoursePatch)
    requires ValidPatch(p)
    ensures ApplyPatch(ApplyPatch(c, p), p) == ApplyPatch(c, p)
  {
  }

  /** The rows with the first row of the given id replaced by `row`. */
  function ReplaceCourse(cs: seq<Course>, row: Course): (r: seq<Course>)
    ensures |r| == |cs|
    ensures FindCourse(cs, row.id).Some? ==> FindCourse(r, row.id) == Some(row)
    ensures FindCourse(cs, row.id).None? ==> r == cs
    ensures forall id :: id != row.id ==> FindCourse(r, id) == FindCourse(cs, id)
  {
    if cs == [] then []
    else if cs[0].id == row.id then [row] + cs[1..]
    else
      var rest := ReplaceCourse(cs[1..], row);
      assert ([cs[0]] + rest)[1..] == rest;
      [cs[0]] + rest
  }

  /** update: 404 for an unknown course; 403 unless the caller is an
      administrator or the course's instructor; 422 when a present key breaks
      its rule; otherwise the patch is applied. */
  method UpdateCourse(db: Db, courseId: int, u: User, patch: CoursePatch) returns (status: Http.Status)
    modifies db`courses
    ensures var c := FindCourse(old(db.courses), courseId);
      && (c.None? ==> status == Http.NotFound)
      && (c.Some? && !IsAdmin(u) && c.value.instructorId != u.id ==> status == Http.Forbidden)
      && (c.Some? && (IsAdmin(u) || c.value.instructorId == u.id) && !ValidPatch(patch) ==> status == Http.Unprocessable)
      && (status == Http.Ok <==> c.Some? && (IsAdmin(u) || c.value.instructorId == u.id) && ValidPatch(patch))
      && (status == Http.Ok ==> db.courses == ReplaceCourse(old(db.courses), ApplyPatch(c.value, patch)))
    ensures status != Http.Ok ==> db.courses == old(db.courses)
  {
    var c := FindCourse(db.courses, courseId);
    if c.None? {
      return Http.NotFound;
    }
    if !IsAdmin(u) && c.value.instructorId != u.id {
      return Http.Forbidden;
    }
    if !ValidPatch(patch) {
      return Http.Unprocessable;
    }
    db.courses := ReplaceCourse(db.courses, ApplyPatch(c.value, patch));
    return Http.Ok;
  }

  /** instructor_id is fillable and unvalidated, so an instructor's update can
      hand the course to another user, after which the instructor's own
      updates are refused. */
  lemma UpdateCanReassignOwner(c: Course, u: User, other: int)
    requires IsInstructor(u) && c.instructorId == u.id && other != u.id
    ensures var p := NoKeys.(instructorId := Some(other));
      && ValidPatch(p)
      && ApplyPatch(c, p).instructorId == other
      && !IsAdmin(u) && ApplyPatch(c, p).instructorId != u.id
  {
    AtMostOneRole(u);
  }
}
