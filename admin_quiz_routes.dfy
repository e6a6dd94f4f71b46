/**
 * The admin quiz routes of backend/routes/api.php: a quiz is created with an
 * optional question list, and an update may patch the quiz's fields and
 * replace its whole question list. These routes carry no authentication.
 */
module AdminQuizRoutes {
  import opened Wrappers
  import opened PhpValue
  import Http
  import opened QuizQuestions
  import opened Quizzes
  import opened Store
  import opened Courses
  import opened Rules

  /** One element of the `questions` list. `id`, `options` and `points` are
      None when the key is absent and otherwise hold the value sent, null
      included; `question` and `type` are None when missing, null or not a
      string, which `required|string` rejects alike; a missing
      `correct_answer` is Null. */
  datatype QuestionInput = QuestionInput(
    id: Option<Value>,
    question: Option<string>,
    qtype: Option<string>,
    options: Option<Value>,
    correctAnswer: Value,
    points: Option<Value>)

  /** questions.*: question required|string, type one of the three kinds,
      options `array` and points `integer|min:1` whenever the key is present
      (null fails both, a blank string is skipped by both), correct_answer
      required. */
  predicate ValidQuestion(q: QuestionInput) {
    && q.question.Some? && Trim(q.question.value) != ""
    && q.qtype.Some? && q.qtype.value in {MultipleChoice, TrueFalse, ShortAnswer}
    && (q.options.Some? ==> Blank(q.options.value) || q.options.value.List?)
    && Required(q.correctAnswer)
    && (q.points.Some? ==> Blank(q.points.value) || PositiveInteger(q.points.value))
  }

  /** The update also checks questions.*.id with `sometimes|integer`. */
  predicate ValidUpdateQuestion(q: QuestionInput) {
    ValidQuestion(q) && (q.id.Some? ==> Blank(q.id.value) || IntegerRule(q.id.value).Some?)
  }

  predicate ValidQuestions(qs: Option<seq<QuestionInput>>) {
    qs.Some? ==> forall k :: 0 <= k < |qs.value| ==> ValidQuestion(qs.value[k])
  }

  predicate ValidUpdateQuestions(qs: Option<seq<QuestionInput>>) {
    qs.Some? ==> forall k :: 0 <= k < |qs.value| ==> ValidUpdateQuestion(qs.value[k])
  }

  /** A present null options or points, or an update question whose id is
      not an integer, fails validation; an absent one takes the default. */
  lemma NullFieldsRejected(q: QuestionInput)
    requires ValidQuestion(q.(options := None, points := None))
    ensures !ValidQuestion(q.(options := Some(Null)))
    ensures !ValidQuestion(q.(points := Some(Null)))
    ensures !ValidUpdateQuestion(q.(options := None, points := None, id := Some(Str("x"))))
    ensures ValidUpdateQuestion(q.(options := None, points := None, id := None))
    ensures NewQuestion(q.(options := None, points := None), 1, 1, 0).points == 10
    ensures NewQuestion(q.(options := None, points := None), 1, 1, 0).options == List([])
  {
    assert !IsNumeric(Str("x")) by { NotNumericStart("x"); }
    BlankStrings("x");
  }

  /** A blank options or points is skipped by its rule and stored as sent:
      options keep the blank string (`?? []` replaces null only) and points
      read back as 0. */
  lemma BlankFieldsStored(q: QuestionInput, blank: string)
    requires ValidQuestion(q) && Trim(blank) == ""
    ensures var b := q.(options := Some(Str(blank)), points := Some(Str(blank)));
      && ValidQuestion(b)
      && NewQuestion(b, 1, 1, 0).options == Str(blank)
      && NewQuestion(b, 1, 1, 0).points == 0
  {
  }

  /** The row created for list element `index`: options ?? [], points ?? 10
      (read as an integer), order index + 1. */
  function NewQuestion(q: QuestionInput, quizId: int, id: int, index: int): (r: Question)
    requires ValidQuestion(q)
  {
    Question(id, quizId, q.question.value, q.qtype.value, q.options.GetOr(List([])), q.correctAnswer,
      None, if q.points.Some? then StoredInteger(q.points.value) else 10, index + 1)
  }

  /** The rows created for a whole list, with consecutive ids from firstId. */
  function NewQuestions(inputs: seq<QuestionInput>, quizId: int, firstId: int): (r: seq<Question>)
    requires forall k :: 0 <= k < |inputs| ==> ValidQuestion(inputs[k])
    ensures |r| == |inputs|
    ensures forall k :: 0 <= k < |inputs| && ValidQuestion(inputs[k]) ==>
      && r[k].id == firstId + k && r[k].quizId == quizId && r[k].order == k + 1
      && r[k].text == inputs[k].question.value && r[k].qtype == inputs[k].qtype.value
      && r[k].correctAnswer == inputs[k].correctAnswer
      && r[k].points == (if inputs[k].points.Some? then StoredInteger(inputs[k].points.value) else 10)
      && r[k].options == (if inputs[k].options.Some? then inputs[k].options.value else List([]))
  {
    seq(|inputs|, k requires 0 <= k < |inputs| => NewQuestion(inputs[k], quizId, firstId + k, k))
  }

  /** A created list is in `order` order, with no negative point value; a
      question's points are at least 1 unless they were sent blank. */
  lemma NewQuestionsOrdered(inputs: seq<QuestionInput>, quizId: int, firstId: int)
    requires forall k :: 0 <= k < |inputs| ==> ValidQuestion(inputs[k])
    ensures SortedByOrder(NewQuestions(inputs, quizId, firstId))
    ensures forall q :: q in NewQuestions(inputs, quizId, firstId) ==> q.points >= 0 && q.order >= 1
    ensures forall k :: 0 <= k < |inputs| ==>
      (NewQuestions(inputs, quizId, firstId)[k].points >= 1 <==> !(inputs[k].points.Some? && Blank(inputs[k].points.value)))
  {
  }

  /** The question-creating loop: one row per list element, in list order. */
  method AppendQuestions(db: Db, inputs: seq<QuestionInput>, quizId: int)
    requires forall k :: 0 <= k < |inputs| ==> ValidQuestion(inputs[k])
    modifies db`questions, db`nextId
    ensures db.questions == old(db.questions) + NewQuestions(inputs, quizId, old(db.nextId))
    ensures db.nextId == old(db.nextId) + |inputs|
  {
    ghost var base := db.questions;
    ghost var first := db.nextId;
    var i := 0;
    while i < |inputs|
      invariant 0 <= i <= |inputs|
      invariant db.nextId == first + i
      invariant |db.questions| == |base| + i && db.questions[..|base|] == base
      invariant forall k :: 0 <= k < i ==> db.questions[|base| + k] == NewQuestion(inputs[k], quizId, first + k, k)
    {
      db.questions := db.questions + [NewQuestion(inputs[i], quizId, db.nextId, i)];
      db.nextId := db.nextId + 1;
      i := i + 1;
    }
    assert db.questions == base + NewQuestions(inputs, quizId, first);
  }

  /** The question table without the quiz's questions (questions()->delete()). */
  function WithoutQuiz(table: seq<Question>, quizId: int): (r: seq<Question>)
    ensures forall q :: q in r <==> q in table && q.quizId != quizId
  {
    if table == [] then []
    else if table[0].quizId == quizId then WithoutQuiz(table[1..], quizId)
    else [table[0]] + WithoutQuiz(table[1..], quizId)
  }

  lemma {:induction false} QuestionsOfQuizConcat(a: seq<Question>, b: seq<Question>, quizId: int)
    ensures QuestionsOfQuiz(a + b, quizId) == QuestionsOfQuiz(a, quizId) + QuestionsOfQuiz(b, quizId)
  {
    if a == [] {
      assert a + b == b;
    } else {
      assert (a + b)[1..] == a[1..] + b;
      QuestionsOfQuizConcat(a[1..], b, quizId);
    }
  }

  lemma {:induction false} QuestionsOfQuizAll(s: seq<Question>, quizId: int)
    requires forall k :: 0 <= k < |s| ==> s[k].quizId == quizId
    ensures QuestionsOfQuiz(s, quizId) == s
  {
    if s != [] {
      QuestionsOfQuizAll(s[1..], quizId);
    }
  }

  lemma {:induction false} QuestionsOfQuizNone(s: seq<Question>, quizId: int)
    requires forall k :: 0 <= k < |s| ==> s[k].quizId != quizId
    ensures QuestionsOfQuiz(s, quizId) == []
  {
    if s != [] {
      QuestionsOfQuizNone(s[1..], quizId);
    }
  }

  /** Deleting a quiz's questions empties its list and leaves every other quiz's list as it was. */
  lemma {:induction false} WithoutQuizLists(table: seq<Question>, quizId: int, other: int)
    ensures QuestionsOfQuiz(WithoutQuiz(table, quizId), quizId) == []
    ensures other != quizId ==> QuestionsOfQuiz(WithoutQuiz(table, quizId), other) == QuestionsOfQuiz(table, other)
  {
    if table != [] {
      WithoutQuizLists(table[1..], quizId, other);
    }
  }

  /** After replacing, the quiz's questions are exactly the new list, and
      every other quiz keeps its questions. */
  lemma ReplacedLists(table: seq<Question>, inputs: seq<QuestionInput>, quizId: int, firstId: int, other: int)
    requires forall k :: 0 <= k < |inputs| ==> ValidQuestion(inputs[k])
    ensures var after := WithoutQuiz(table, quizId) + NewQuestions(inputs, quizId, firstId);
      && QuestionsOfQuiz(after, quizId) == NewQuestions(inputs, quizId, firstId)
      && (other != quizId ==> QuestionsOfQuiz(after, other) == QuestionsOfQuiz(table, other))
  {
    var created := NewQuestions(inputs, quizId, firstId);
    QuestionsOfQuizConcat(WithoutQuiz(table, quizId), created, quizId);
    QuestionsOfQuizConcat(WithoutQuiz(table, quizId), created, other);
    WithoutQuizLists(table, quizId, other);
    QuestionsOfQuizAll(created, quizId);
    if other != quizId {
      QuestionsOfQuizNone(created, other);
    }
  }

  // ---------------------------------------------------------------------
  // create

  /** The create request; None marks a missing field. A null is None too
      where the rule treats it like a missing one (every field but is_active
      and questions). */
  datatype QuizInput = QuizInput(
    courseId: Option<int>,
    title: Option<string>,
    description: Option<string>,
    timeLimit: Option<int>,
    maxAttempts: Option<int>,
    passingScore: Option<int>,
    isActive: Option<bool>,
    questions: Option<seq<QuestionInput>>)

  /** The number of quizzes the course already has. */
  function QuizCount(qs: seq<Quiz>, courseId: int): (n: nat)
    ensures n <= |qs|
    ensures n == 0 <==> FirstQuizOfCourse(qs, courseId).None?
  {
    if qs == [] then 0
    else QuizCount(qs[1..], courseId) + (if qs[0].courseId == courseId then 1 else 0)
  }

  lemma {:induction false} QuizCountAppend(qs: seq<Quiz>, q: Quiz, courseId: int)
    ensures QuizCount(qs + [q], courseId) == QuizCount(qs, courseId) + (if q.courseId == courseId then 1 else 0)
  {
    if qs == [] {
      assert qs + [q] == [q];
    } else {
      assert (qs + [q])[1..] == qs[1..] + [q];
      QuizCountAppend(qs[1..], q, courseId);
    }
  }

  /** The create rules: an existing course, a title of at most 255
      characters, time limit and attempts at least 1, passing score 0..100,
      valid questions. */
  predicate ValidQuizInput(courses: seq<Course>, r: QuizInput) {
    && r.courseId.Some? && FindCourse(courses, r.courseId.value).Some?
    && r.title.Some? && Trim(r.title.value) != "" && |r.title.value| <= 255
    && r.timeLimit.Some? && r.timeLimit.value >= 1
    && r.maxAttempts.Some? && r.maxAttempts.value >= 1
    && r.passingScore.Some? && 0 <= r.passingScore.value <= 100
    && ValidQuestions(r.questions)
  }

  /** The quiz row a valid create request makes. */
  function CreatedQuiz(r: QuizInput, id: int, count: nat): Quiz
    requires r.courseId.Some? && r.title.Some? && r.timeLimit.Some? && r.maxAttempts.Some? && r.passingScore.Some?
  {
    Quiz(id, r.courseId.value, r.title.value, Some(r.description.GetOr("")),
      r.timeLimit.value, r.maxAttempts.value, r.passingScore.value, r.isActive.GetOr(true), count + 1)
  }

  /** Quiz::create: the row is appended after the course's existing quizzes. */
  method InsertQuiz(db: Db, r: QuizInput) returns (q: Quiz)
    requires r.courseId.Some? && r.title.Some? && r.timeLimit.Some? && r.maxAttempts.Some? && r.passingScore.Some?
    modifies db`quizzes, db`nextId
    ensures q == CreatedQuiz(r, old(db.nextId), QuizCount(old(db.quizzes), r.courseId.value))
    ensures db.quizzes == old(db.quizzes) + [q] && db.nextId == old(db.nextId) + 1
    ensures QuizCount(db.quizzes, r.courseId.value) == QuizCount(old(db.quizzes), r.courseId.value) + 1
  {
    q := CreatedQuiz(r, db.nextId, QuizCount(db.quizzes, r.courseId.value));
    QuizCountAppend(db.quizzes, q, r.courseId.value);
    db.quizzes := db.quizzes + [q];
    db.nextId := db.nextId + 1;
  }

  /** POST /admin/quizzes: 422 on invalid input; otherwise the quiz is appended
      after the course's existing quizzes (order = count + 1), description
      defaults to "" and is_active to true, and the question list, if any,
      is created in list order. */
  method CreateQuiz(db: Db, r: QuizInput) returns (status: Http.Status, quiz: Option<Quiz>)
    modifies db`quizzes, db`questions, db`nextId
    ensures !ValidQuizInput(db.courses, r) <==> status == Http.Unprocessable
    ensures status == Http.Unprocessable ==>
      quiz.None? && db.quizzes == old(db.quizzes) && db.questions == old(db.questions) && db.nextId == old(db.nextId)
    ensures status == Http.Created ==>
      && quiz == Some(CreatedQuiz(r, old(db.nextId), QuizCount(old(db.quizzes), r.courseId.value)))
      && db.quizzes == old(db.quizzes) + [quiz.value]
      && QuizCount(db.quizzes, r.courseId.value) == QuizCount(old(db.quizzes), r.courseId.value) + 1
      && var inputs := if r.questions.Some? then r.questions.value else [];
      && db.questions == old(db.questions) + NewQuestions(inputs, quiz.value.id, old(db.nextId) + 1)
      && db.nextId == old(db.nextId) + 1 + |inputs|
    ensures status == Http.Unprocessable || status == Http.Created
  {
    if !ValidQuizInput(db.courses, r) {
      return Http.Unprocessable, None;
    }
    var q := InsertQuiz(db, r);
    var inputs := if r.questions.Some? then r.questions.value else [];
    AppendQuestions(db, inputs, q.id);
    return Http.Created, Some(q);
  }

  // ---------------------------------------------------------------------
  // update

  /** The update request: every field is `sometimes`; None marks an absent
      one, and a present field holds a value of its rule's type. */
  datatype QuizPatch = QuizPatch(
    title: Option<string>,
    description: Option<string>,
    timeLimit: Option<int>,
    maxAttempts: Option<int>,
    passingScore: Option<int>,
    isActive: Option<bool>,
    questions: Option<seq<QuestionInput>>)

  predicate ValidPatch(p: QuizPatch) {
    && (p.title.Some? ==> Trim(p.title.value) == "" || |p.title.value| <= 255)
    && (p.timeLimit.Some? ==> p.timeLimit.value >= 1)
    && (p.maxAttempts.Some? ==> p.maxAttempts.value >= 1)
    && (p.passingScore.Some? ==> 0 <= p.passingScore.value <= 100)
    && ValidUpdateQuestions(p.questions)
  }

  /** PHP falsiness of a string: "" and "0". */
  predicate FalsyString(s: string) {
    s == "" || s == "0"
  }

  /** $quiz->update(array_filter([...])): a field changes only when it was
      given AND its value is truthy. */
  function ApplyPatch(q: Quiz, p: QuizPatch): (r: Quiz)
    requires ValidPatch(p)
    ensures r.id == q.id && r.courseId == q.courseId && r.order == q.order
    ensures r.title == (if p.title.Some? && !FalsyString(p.title.value) then p.title.value else q.title)
    ensures r.description ==
      (if p.description.Some? && !FalsyString(p.description.value) then p.description else q.description)
    ensures r.timeLimit == p.timeLimit.GetOr(q.timeLimit)
    ensures r.maxAttempts == p.maxAttempts.GetOr(q.maxAttempts)
    ensures r.passingScore == (if p.passingScore.Some? && p.passingScore.value != 0 then p.passingScore.value else q.passingScore)
    ensures r.isActive == (q.isActive || p.isActive == Some(true))
  {
    q.(
      title := if p.title.Some? && !FalsyString(p.title.value) then p.title.value else q.title,
      description := if p.description.Some? && !FalsyString(p.description.value) then p.description else q.description,
      timeLimit := if p.timeLimit.Some? && p.timeLimit.value != 0 then p.timeLimit.value else q.timeLimit,
      maxAttempts := if p.maxAttempts.Some? && p.maxAttempts.value != 0 then p.maxAttempts.value else q.maxAttempts,
      passingScore := if p.passingScore.Some? && p.passingScore.value != 0 then p.passingScore.value else q.passingScore,
      isActive := if p.isActive == Some(true) then true else q.isActive)
  }

  /** array_filter drops falsy values, so this route can neither deactivate a
      quiz nor lower its passing score to 0, nor set the title "0". */
  lemma FalsyPatchIgnored(q: Quiz, p: QuizPatch)
    requires ValidPatch(p)
    requires p.isActive == Some(false) && p.passingScore == Some(0) && p.title == Some("0")
    requires p.timeLimit.None? && p.maxAttempts.None? && p.description.None?
    ensures ApplyPatch(q, p) == q
  {
  }

  /** The patch is applied once; applying it again changes nothing. */
  lemma {:induction false} ApplyPatchIdempotent(q: Quiz, p: QuizPatch)
    requires ValidPatch(p)
    ensures ApplyPatch(ApplyPatch(q, p), p) == ApplyPatch(q, p)
  {
    var once := ApplyPatch(q, p);
    var twice := ApplyPatch(once, p);
    assert twice.title == once.title && twice.description == once.description;
    assert twice.timeLimit == once.timeLimit && twice.maxAttempts == once.maxAttempts;
    assert twice.passingScore == once.passingScore && twice.isActive == once.isActive;
  }

  /** The quiz table with the row whose id is `id` replaced. */
  function ReplaceQuiz(qs: seq<Quiz>, id: int, q: Quiz): (r: seq<Quiz>)
    ensures |r| == |qs|
    ensures forall k :: 0 <= k < |qs| ==> r[k] == (if qs[k].id == id then q else qs[k])
  {
    if qs == [] then []
    else [if qs[0].id == id then q else qs[0]] + ReplaceQuiz(qs[1..], id, q)
  }

  /** PUT /admin/quizzes/{id}: 404 for an unknown quiz; 422 on invalid input
      with nothing written; otherwise the filtered patch is applied and, when
      a question list is given, all the quiz's questions are deleted and the
      list is created in its place. */
  method UpdateQuiz(db: Db, id: int, p: QuizPatch) returns (status: Http.Status)
    modifies db`quizzes, db`questions, db`nextId
    ensures FindQuiz(old(db.quizzes), id).None? ==> status == Http.NotFound
    ensures FindQuiz(old(db.quizzes), id).Some? ==> (status == Http.Ok <==> ValidPatch(p))
    ensures status != Http.Ok ==>
      db.quizzes == old(db.quizzes) && db.questions == old(db.questions) && db.nextId == old(db.nextId)
    ensures status == Http.Ok ==>
      && FindQuiz(old(db.quizzes), id).Some?
      && db.quizzes == ReplaceQuiz(old(db.quizzes), id, ApplyPatch(FindQuiz(old(db.quizzes), id).value, p))
      && (p.questions.None? ==> db.questions == old(db.questions) && db.nextId == old(db.nextId))
      && (p.questions.Some? ==>
            && db.questions == WithoutQuiz(old(db.questions), id) + NewQuestions(p.questions.value, id, old(db.nextId))
            && db.nextId == old(db.nextId) + |p.questions.value|)
    ensures status in {Http.NotFound, Http.Unprocessable, Http.Ok}
  {
    var found := FindQuiz(db.quizzes, id);
    if found.None? {
      return Http.NotFound;
    }
    if !ValidPatch(p) {
      return Http.Unprocessable;
    }
    db.quizzes := ReplaceQuiz(db.quizzes, id, ApplyPatch(found.value, p));
    if p.questions.Some? {
      db.questions := WithoutQuiz(db.questions, id);
      AppendQuestions(db, p.questions.value, id);
    }
    return Http.Ok;
  }

  /** After an update with a question list the quiz's questions are exactly
      that list in list order, whatever it had before. */
  lemma UpdateReplacesList(table: seq<Question>, inputs: seq<QuestionInput>, id: int, firstId: int)
    requires forall k :: 0 <= k < |inputs| ==> ValidQuestion(inputs[k])
    ensures var after := WithoutQuiz(table, id) + NewQuestions(inputs, id, firstId);
      && QuestionsOfQuiz(after, id) == NewQuestions(inputs, id, firstId)
      && |QuestionsOfQuiz(after, id)| == |inputs|
  {
    ReplacedLists(table, inputs, id, firstId, id);
  }
}
