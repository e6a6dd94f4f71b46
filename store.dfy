/**
 * The database the controllers and routes work on: one sequence per table.
 * Enrollments and quiz attempts are objects whose columns are updated in
 * place; the other rows are values that are appended or replaced.
 */
module Store {
  import opened Wrappers
  import opened QuizQuestions
  import opened Quizzes
  import opened QuizAttempts
  import opened Enrollments
  import opened Courses

  /** A lessons row (backend/app/Models/Lesson.php). */
  datatype Lesson = Lesson(id: int, courseId: int, title: string, durationMinutes: int, order: int, isFree: bool)

  /** A lesson_progress row: one user's completion of one lesson. */
  datatype LessonProgress = LessonProgress(id: int, userId: int, lessonId: int, completed: bool, completedAt: Option<int>)

  class Db {
    var courses: seq<Course>
    var enrollments: seq<Enrollment>
    var lessons: seq<Lesson>
    var progress: seq<LessonProgress>
    var quizzes: seq<Quiz>
    var questions: seq<Question>
    var attempts: seq<QuizAttempt>
    var answers: seq<Answer>
    /** The next auto-increment id. */
    var nextId: int

    constructor ()
      ensures courses == [] && enrollments == [] && lessons == [] && progress == []
      ensures quizzes == [] && questions == [] && attempts == [] && answers == []
      ensures nextId == 1
    {
      courses := [];
      enrollments := [];
      lessons := [];
      progress := [];
      quizzes := [];
      questions := [];
      attempts := [];
      answers := [];
      nextId := 1;
    }
  }

  // ---------------------------------------------------------------------
  // Lookups (findOrFail, where(...)->first())

  function FindCourse(cs: seq<Course>, id: int): (r: Option<Course>)
    ensures r.Some? ==> r.value in cs && r.value.id == id
    ensures r.None? ==> forall c :: c in cs ==> c.id != id
  {
    if cs == [] then None
    else if cs[0].id == id then Some(cs[0])
    else FindCourse(cs[1..], id)
  }

  function FindLesson(ls: seq<Lesson>, id: int): (r: Option<Lesson>)
    ensures r.Some? ==> r.value in ls && r.value.id == id
    ensures r.None? ==> forall l :: l in ls ==> l.id != id
  {
    if ls == [] then None
    else if ls[0].id == id then Some(ls[0])
    else FindLesson(ls[1..], id)
  }

  function FindQuiz(qs: seq<Quiz>, id: int): (r: Option<Quiz>)
    ensures r.Some? ==> r.value in qs && r.value.id == id
    ensures r.None? ==> forall q :: q in qs ==> q.id != id
  {
    if qs == [] then None
    else if qs[0].id == id then Some(qs[0])
    else FindQuiz(qs[1..], id)
  }

  /** Quiz::where('course_id', ...)->first(): the course's earliest quiz. */
  function FirstQuizOfCourse(qs: seq<Quiz>, courseId: int): (r: Option<Quiz>)
    ensures r.Some? ==> r.value in qs && r.value.courseId == courseId
    ensures r.None? ==> forall q :: q in qs ==> q.courseId != courseId
  {
    if qs == [] then None
    else if qs[0].courseId == courseId then Some(qs[0])
    else FirstQuizOfCourse(qs[1..], courseId)
  }

  /** The (user, course) enrollment, if any. */
  function FindEnrollment(es: seq<Enrollment>, userId: int, courseId: int): (r: Option<Enrollment>)
    ensures r.Some? ==> r.value in es && r.value.userId == userId && r.value.courseId == courseId
    ensures r.None? ==> forall e :: e in es ==> !(e.userId == userId && e.courseId == courseId)
  {
    if es == [] then None
    else if es[0].userId == userId && es[0].courseId == courseId then Some(es[0])
    else FindEnrollment(es[1..], userId, courseId)
  }

  predicate IsEnrolled(es: seq<Enrollment>, userId: int, courseId: int) {
    FindEnrollment(es, userId, courseId).Some?
  }

  /** The objects a method may touch when it updates the (user, course) enrollment. */
  function EnrollmentFrame(es: seq<Enrollment>, userId: int, courseId: int): set<Enrollment> {
    match FindEnrollment(es, userId, courseId)
    case None => {}
    case Some(e) => {e}
  }

  function FindAttempt(attempts: seq<QuizAttempt>, id: int): (r: Option<QuizAttempt>)
    ensures r.Some? ==> r.value in attempts && r.value.id == id
    ensures r.None? ==> forall a :: a in attempts ==> a.id != id
  {
    if attempts == [] then None
    else if attempts[0].id == id then Some(attempts[0])
    else FindAttempt(attempts[1..], id)
  }

  function AttemptFrame(attempts: seq<QuizAttempt>, id: int): set<QuizAttempt> {
    match FindAttempt(attempts, id)
    case None => {}
    case Some(a) => {a}
  }

  // ---------------------------------------------------------------------
  // Counts

  /** enrollments()->count(): the course's enrolled_count. */
  function EnrolledCount(es: seq<Enrollment>, courseId: int): nat {
    if es == [] then 0
    else (if es[0].courseId == courseId then 1 else 0) + EnrolledCount(es[1..], courseId)
  }

  lemma {:induction false} EnrolledCountAppend(es: seq<Enrollment>, e: Enrollment, courseId: int)
    ensures EnrolledCount(es + [e], courseId) == EnrolledCount(es, courseId) + (if e.courseId == courseId then 1 else 0)
  {
    if es != [] {
      assert (es + [e])[1..] == es[1..] + [e];
      EnrolledCountAppend(es[1..], e, courseId);
    }
  }

  /** userAttempts($userId)->count(): attempts of any state. */
  function AttemptCount(attempts: seq<QuizAttempt>, quizId: int, userId: int): nat {
    if attempts == [] then 0
    else
      var own := if attempts[0].quizId == quizId && attempts[0].userId == userId then 1 else 0;
      own + AttemptCount(attempts[1..], quizId, userId)
  }

  lemma {:induction false} AttemptCountAppend(attempts: seq<QuizAttempt>, a: QuizAttempt, quizId: int, userId: int)
    ensures AttemptCount(attempts + [a], quizId, userId) ==
      AttemptCount(attempts, quizId, userId) + (if a.quizId == quizId && a.userId == userId then 1 else 0)
  {
    if attempts != [] {
      assert (attempts + [a])[1..] == attempts[1..] + [a];
      AttemptCountAppend(attempts[1..], a, quizId, userId);
    }
  }

  /** The answers that belong to one attempt ($attempt->answers). */
  function AnswersOf(answers: seq<Answer>, attemptId: int): (r: seq<Answer>)
    ensures forall x :: x in r <==> x in answers && x.attemptId == attemptId
  {
    if answers == [] then []
    else (if answers[0].attemptId == attemptId then [answers[0]] else []) + AnswersOf(answers[1..], attemptId)
  }

  lemma {:induction false} AnswersOfAppend(answers: seq<Answer>, more: seq<Answer>, attemptId: int)
    ensures AnswersOf(answers + more, attemptId) == AnswersOf(answers, attemptId) + AnswersOf(more, attemptId)
  {
    if answers == [] {
      assert answers + more == more;
    } else {
      var head := if answers[0].attemptId == attemptId then [answers[0]] else [];
      assert (answers + more)[0] == answers[0];
      assert (answers + more)[1..] == answers[1..] + more;
      AnswersOfAppend(answers[1..], more, attemptId);
      assert AnswersOf(answers + more, attemptId) == head + AnswersOf(answers[1..] + more, attemptId);
      assert head + (AnswersOf(answers[1..], attemptId) + AnswersOf(more, attemptId))
          == (head + AnswersOf(answers[1..], attemptId)) + AnswersOf(more, attemptId);
    }
  }
}
