/**
 * QuizController (backend/app/Http/Controllers/QuizController.php): the quiz
 * page with its student redaction, starting an attempt, and submitting it.
 * The caller's identity is a parameter; `now` is the request's clock.
 */
module QuizController {
  import opened Wrappers
  import opened PhpValue
  import Http
  import opened QuizQuestions
  import opened Quizzes
  import opened QuizAttempts
  import opened Users
  import opened Courses
  import opened Access
  import opened Store
  import opened Rules

  // ---------------------------------------------------------------------
  // show: the quiz with its questions; students get no answers

  /** A question as the JSON response shows it; None marks an attribute
      that was unset before serialising. */
  datatype QuestionView = QuestionView(
    id: int,
    text: string,
    qtype: string,
    options: Value,
    points: int,
    order: int,
    correctAnswer: Option<Value>,
    explanation: Option<Option<string>>)

  datatype QuizPage = QuizPage(
    quiz: Quiz,
    questions: seq<QuestionView>,
    attemptsCount: Option<nat>,
    bestScore: Option<int>,
    canTake: Option<bool>)

  function ViewOf(q: Question, redact: bool): QuestionView {
    QuestionView(q.id, q.text, q.qtype, q.options, q.points, q.order,
      if redact then None else Some(q.correctAnswer),
      if redact then None else Some(q.explanation))
  }

  /** show: 403 without course access; a student's page has correct_answer and
      explanation removed and carries attempts_count, best_score and can_take.
      `scores` are the scores of the caller's attempts at this quiz. */
  function Show(u: User, quiz: Quiz, course: Course, enrolled: bool, table: seq<Question>, scores: seq<Option<int>>)
    : (r: Result<QuizPage, Http.Status>)
    requires course.id == quiz.courseId
    ensures r.Failure? <==> !HasAccessToCourse(u, course, enrolled)
    ensures r.Failure? ==> r.error == Http.Forbidden
    ensures r.Success? ==> |r.value.questions| == |Questions(table, quiz.id)|
    ensures r.Success? ==> forall k :: 0 <= k < |r.value.questions| ==>
      r.value.questions[k].id == Questions(table, quiz.id)[k].id
    ensures r.Success? && IsStudent(u) ==> forall k :: 0 <= k < |r.value.questions| ==>
      r.value.questions[k].correctAnswer.None? && r.value.questions[k].explanation.None?
    ensures r.Success? && !IsStudent(u) ==> forall k :: 0 <= k < |r.value.questions| ==>
      r.value.questions[k].correctAnswer == Some(Questions(table, quiz.id)[k].correctAnswer)
    ensures r.Success? && IsStudent(u) ==>
      r.value.attemptsCount == Some(|scores|) &&
      r.value.bestScore == Some(GetUserBestScore(scores)) &&
      r.value.canTake == Some(CanUserTake(quiz, |scores|))
  {
    if !HasAccessToCourse(u, course, enrolled) then Failure(Http.Forbidden)
    else
      var qs := Questions(table, quiz.id);
      var student := IsStudent(u);
      var views := seq(|qs|, k requires 0 <= k < |qs| => ViewOf(qs[k], student));
      if student then
        Success(QuizPage(quiz, views, Some(|scores|), Some(GetUserBestScore(scores)), Some(CanUserTake(quiz, |scores|))))
      else
        Success(QuizPage(quiz, views, None, None, None))
  }

  // ---------------------------------------------------------------------
  // startAttempt

  /** startAttempt: 404 for an unknown quiz, 400 when canUserTake fails (checked
      first), 403 without an enrollment, otherwise a new in-progress attempt
      whose total_questions is the current question count. `shown` is the
      quiz's question list the 201 response carries, correct answers included. */
  method StartAttempt(db: Db, quizId: int, userId: int, now: int) returns (status: Http.Status, shown: seq<Question>)
    modifies db`attempts, db`nextId
    ensures var q := FindQuiz(db.quizzes, quizId);
      && (q.None? ==> status == Http.NotFound)
      && (q.Some? && !CanUserTake(q.value, AttemptCount(old(db.attempts), quizId, userId)) ==> status == Http.BadRequest)
      && ((q.Some? && CanUserTake(q.value, AttemptCount(old(db.attempts), quizId, userId)) &&
           !IsEnrolled(db.enrollments, userId, q.value.courseId)) ==> status == Http.Forbidden)
      && ((q.Some? && CanUserTake(q.value, AttemptCount(old(db.attempts), quizId, userId)) &&
           IsEnrolled(db.enrollments, userId, q.value.courseId)) ==> status == Http.Created)
    ensures status != Http.Created ==> db.attempts == old(db.attempts) && db.nextId == old(db.nextId)
    ensures status == Http.Created ==>
      && |db.attempts| == |old(db.attempts)| + 1
      && db.attempts[..|old(db.attempts)|] == old(db.attempts)
      && var a := db.attempts[|old(db.attempts)|];
      && fresh(a)
      && a.id == old(db.nextId) && a.userId == userId && a.quizId == quizId && a.startedAt == now
      && a.completedAt.None? && a.score.None? && a.passed.None?
      && a.totalQuestions == |QuestionsOfQuiz(db.questions, quizId)|
      && shown == Questions(db.questions, quizId)
      && db.nextId == old(db.nextId) + 1
    ensures status == Http.Created ==>
      AttemptCount(db.attempts, quizId, userId) == AttemptCount(old(db.attempts), quizId, userId) + 1
    ensures status == Http.Created && FindQuiz(db.quizzes, quizId).value.maxAttempts > 0 ==>
      AttemptCount(db.attempts, quizId, userId) <= FindQuiz(db.quizzes, quizId).value.maxAttempts
  {
    shown := [];
    var q := FindQuiz(db.quizzes, quizId);
    if q.None? {
      return Http.NotFound, shown;
    }
    var quiz := q.value;
    if !CanUserTake(quiz, AttemptCount(db.attempts, quizId, userId)) {
      return Http.BadRequest, shown;
    }
    if !IsEnrolled(db.enrollments, userId, quiz.courseId) {
      return Http.Forbidden, shown;
    }
    var a := new QuizAttempt(db.nextId, userId, quizId, now, |QuestionsOfQuiz(db.questions, quizId)|);
    AttemptCountAppend(db.attempts, a, quizId, userId);
    db.attempts := db.attempts + [a];
    db.nextId := db.nextId + 1;
    shown := Questions(db.questions, quizId);
    return Http.Created, shown;
  }

  /** The 201 response of startAttempt carries every question's correct answer,
      even for a student, whom show() would not show them. */
  lemma StartAttemptRevealsAnswers(u: User, quiz: Quiz, course: Course, table: seq<Question>, scores: seq<Option<int>>, k: int)
    requires IsStudent(u) && course.id == quiz.courseId
    requires 0 <= k < |Questions(table, quiz.id)|
    ensures Show(u, quiz, course, true, table, scores).Success?
    ensures Show(u, quiz, course, true, table, scores).value.questions[k].correctAnswer.None?
    ensures exists q :: (q in table && q.quizId == quiz.id && q.id == Questions(table, quiz.id)[k].id &&
                         q.correctAnswer == Questions(table, quiz.id)[k].correctAnswer)
  {
    AccessByRole(u, course, true);
    var q := Questions(table, quiz.id)[k];
    QuestionsOrdered(table, quiz.id);
    assert q in Questions(table, quiz.id);
  }

  // ---------------------------------------------------------------------
  // submitAttempt

  /** One element of the request's `answers` array; Null marks a missing key. */
  datatype Entry = Entry(questionId: Value, answer: Value)

  /** The first question whose id is loosely equal to the key: Eloquent's
      Collection::find for a scalar key. */
  function FindQuestionByKey(qs: seq<Question>, key: Value): (r: Option<Question>)
    ensures r.Some? ==> r.value in qs && LooseEq(key, Int(r.value.id))
    ensures r.None? ==> forall q :: q in qs ==> !LooseEq(key, Int(q.id))
  {
    if qs == [] then None
    else if LooseEq(key, Int(qs[0].id)) then Some(qs[0])
    else FindQuestionByKey(qs[1..], key)
  }

  /** Whether an integer id column equals a bound scalar in SQL: a bool binds
      as 1 or 0, an int as itself, and a string compares by the number it
      spells (a string that spells no number matches nothing). */
  predicate SqlIdMatches(key: Value, id: int) {
    match key
    case Bool(b) => id == (if b then 1 else 0)
    case Int(n) => id == n
    case Str(_) => LooseEq(key, Int(id))
    case _ => false
  }

  /** The distinct ids of the rows whose id matches some element of an
      array key: what `whereIn(id, items)->distinct()->count(id)` counts. */
  function MatchedIds(table: seq<Question>, items: seq<Value>): set<int> {
    set q | q in table && (exists k :: 0 <= k < |items| && SqlIdMatches(items[k], q.id)) :: q.id
  }

  /** The string forms of an array's elements; array_unique keeps one
      element per form, so their number is count(array_unique(items)). */
  function DistinctForms(items: seq<Value>): set<string> {
    set k | 0 <= k < |items| :: ToPhpString(items[k])
  }

  /** The `exists:quiz_questions,id` rule, which runs as an SQL count over the
      whole question table: a scalar must match some row; for an array the
      number of distinct matched ids must reach the number of elements
      array_unique keeps. */
  predicate ExistsRule(table: seq<Question>, key: Value) {
    if key.List? then |MatchedIds(table, key.items)| >= |DistinctForms(key.items)|
    else exists q :: q in table && SqlIdMatches(key, q.id)
  }

  /** A one-element array passes exactly when its element would. */
  lemma SingletonArrayKey(table: seq<Question>, x: Value)
    requires !x.List?
    ensures ExistsRule(table, List([x])) <==> ExistsRule(table, x)
  {
    PairForms(x, x);
    assert [x, x][0] == x;
    assert DistinctForms([x]) == DistinctForms([x, x]);
    if exists q :: q in table && SqlIdMatches(x, q.id) {
      var q :| q in table && SqlIdMatches(x, q.id);
      assert SqlIdMatches([x][0], q.id);
      assert q.id in MatchedIds(table, [x]);
    }
  }

  /** A non-empty array passes only if at least one element names a row. */
  lemma ArrayKeyNeedsAMatch(table: seq<Question>, items: seq<Value>)
    requires items != [] && ExistsRule(table, List(items))
    ensures exists q, k :: q in table && 0 <= k < |items| && SqlIdMatches(items[k], q.id)
  {
    assert ToPhpString(items[0]) in DistinctForms(items);
    var id :| id in MatchedIds(table, items);
  }

  /** array_unique compares string forms while the count is over ids: with
      only question 5, [5, "5"] passes (one form, one id), but [5, "5.0"]
      fails (two forms, one id) although each element names question 5, and
      so does [5, 7]. */
  lemma ArrayKeyCountsDistinct(q: Question)
    requires q.id == 5
    ensures ExistsRule([q], List([Int(5), Str("5")]))
    ensures SqlIdMatches(Str("5.0"), q.id) && !ExistsRule([q], List([Int(5), Str("5.0")]))
    ensures !ExistsRule([q], List([Int(5), Int(7)]))
  {
    assert ParseNumeric("5.0") == Some(Decimal(false, 50, -1));
    assert ParseNumeric("5") == Some(Decimal(false, 5, 0));
    assert Pow10(1) == 10 && Pow10(0) == 1;
    FivesMatchOne(q, [Int(5), Str("5")]);
    FivesMatchOne(q, [Int(5), Str("5.0")]);
    FivesMatchOne(q, [Int(5), Int(7)]);
    assert ToPhpString(Int(5)) == "5" by { assert Text.NatToString(5) == "5"; }
    assert ToPhpString(Int(7)) == "7" by { assert Text.NatToString(7) == "7"; }
    PairForms(Int(5), Str("5"));
    PairForms(Int(5), Str("5.0"));
    PairForms(Int(5), Int(7));
  }

  lemma PairForms(a: Value, b: Value)
    ensures DistinctForms([a, b]) == {ToPhpString(a), ToPhpString(b)}
    ensures DistinctForms([a]) == {ToPhpString(a)}
  {
    assert [a, b][0] == a && [a, b][1] == b && [a][0] == a;
    assert forall f :: f in DistinctForms([a, b]) ==> f == ToPhpString(a) || f == ToPhpString(b);
    assert forall f :: f in DistinctForms([a]) ==> f == ToPhpString(a);
  }

  /** In a one-row table the matched ids are at most that row's. */
  lemma FivesMatchOne(q: Question, items: seq<Value>)
    requires |items| > 0 && SqlIdMatches(items[0], q.id)
    ensures MatchedIds([q], items) == {q.id}
  {
    assert q in [q];
  }

  /** The validation rules: answers required|array, each question_id
      required|exists:quiz_questions,id, each answer required. */
  predicate ValidSubmission(entries: Option<seq<Entry>>, table: seq<Question>) {
    && entries.Some? && |entries.value| > 0
    && forall k :: 0 <= k < |entries.value| ==>
        Required(entries.value[k].questionId) &&
        ExistsRule(table, entries.value[k].questionId) &&
        Required(entries.value[k].answer)
  }

  /** The validation verdict spelled out: an array of ids passes `exists` when
      its distinct matched ids are at least as many as its distinct string
      forms, and a key passes only when it is required and exists. */
  lemma ValidSubmissionCases(table: seq<Question>, key: Value, answer: Value)
    ensures ValidSubmission(Some([Entry(key, answer)]), table) <==>
      && Required(key) && Required(answer)
      && (key.List? ==> |MatchedIds(table, key.items)| >= |DistinctForms(key.items)|)
      && (!key.List? ==> exists q :: q in table && SqlIdMatches(key, q.id))
  {
    var es := [Entry(key, answer)];
    assert es[0] == Entry(key, answer);
    var named :=
      && (key.List? ==> |MatchedIds(table, key.items)| >= |DistinctForms(key.items)|)
      && (!key.List? ==> exists q :: q in table && SqlIdMatches(key, q.id));
    assert ExistsRule(table, key) == named;
    assert ValidSubmission(Some(es), table) ==
      (Required(es[0].questionId) && ExistsRule(table, es[0].questionId) && Required(es[0].answer));
  }

  /** `true` passes `exists` only when question 1 exists, while an integer key
      passes whenever its own question exists. */
  lemma TrueKeyNeedsQuestionOne(q: Question)
    requires q.id == 5
    ensures !ExistsRule([q], Bool(true))
    ensures ExistsRule([q], Int(5)) && ExistsRule([q], Str("5.0"))
    ensures ExistsRule([q], List([Int(5), Str("5")]))
  {
    assert SqlIdMatches(Int(5), q.id);
    assert ParseNumeric("5.0") == Some(Decimal(false, 50, -1));
    assert ParseNumeric("5") == Some(Decimal(false, 5, 0));
    assert Pow10(1) == 10 && Pow10(0) == 1;
    assert SqlIdMatches(Str("5.0"), q.id);
    ArrayKeyCountsDistinct(q);
  }

  /** quiz_answers.quiz_question_id as the integer column stores the
      submitted question_id (`$answerData['question_id']`): a bool as 1 or 0,
      an int as itself, a numeric string as the number it spells, which is
      the id of the question find() matched. */
  function StoredKey(key: Value, found: Question): int {
    match key
    case Bool(b) => if b then 1 else 0
    case Int(n) => n
    case _ => found.id
  }

  /** For an int or string key the stored id is the judged question's id. */
  lemma StoredKeyIsFoundId(key: Value, found: Question)
    requires key.Int? || key.Str?
    requires LooseEq(key, Int(found.id))
    ensures StoredKey(key, found) == found.id
  {
    if key.Int? {
      LooseEqInts(key.i, found.id);
    }
  }

  /** The stored form of an answer: arrays as they are, scalars as [x]. */
  function Wrap(v: Value): (r: Value)
    ensures r.List?
    ensures v.List? ==> r == v
    ensures !v.List? ==> r.items == [v]
  {
    if v.List? then v else List([v])
  }

  /** The quiz_answers row one entry becomes, or the fault that aborts the
      transaction. An array key makes find() return a Collection, on which
      isCorrectAnswer does not exist; a key matching no question of the quiz
      leaves a null question. */
  function JudgeEntry(e: Entry, quizQuestions: seq<Question>, attemptId: int, id: int): (r: Result<Answer, Fault>)
    ensures e.questionId.List? ==> r == Failure(MethodOnCollection)
    ensures !e.questionId.List? && FindQuestionByKey(quizQuestions, e.questionId).None? ==> r == Failure(NullQuestion)
    ensures r.Success? ==>
      && !e.questionId.List?
      && var q := FindQuestionByKey(quizQuestions, e.questionId).value;
      && r.value.id == id && r.value.attemptId == attemptId && r.value.questionId == StoredKey(e.questionId, q)
      && r.value.answer == Wrap(e.answer)
      && IsCorrectAnswer(q, e.answer) == Success(r.value.isCorrect)
    ensures r.Failure? && !e.questionId.List? && FindQuestionByKey(quizQuestions, e.questionId).Some? ==>
      IsCorrectAnswer(FindQuestionByKey(quizQuestions, e.questionId).value, e.answer) == Failure(r.error)
  {
    if e.questionId.List? then Failure(MethodOnCollection)
    else
      match FindQuestionByKey(quizQuestions, e.questionId)
      case None => Failure(NullQuestion)
      case Some(q) =>
        match IsCorrectAnswer(q, e.answer)
        case Failure(f) => Failure(f)
        case Success(ok) => Success(Answer(id, attemptId, StoredKey(e.questionId, q), Wrap(e.answer), ok))
  }

  /** With `true` as key the row is judged against the quiz's first question
      with a non-zero id but stored under question 1, so calculateScore later
      judges it against question 1, even one from another quiz. */
  lemma TrueKeyStoredAsOne(q: Question, attemptId: int, id: int)
    requires q.id == 5 && q.qtype == TrueFalse && q.correctAnswer == List([Bool(true)])
    ensures var r := JudgeEntry(Entry(Bool(true), Bool(true)), [q], attemptId, id);
      r.Success? && r.value.questionId == 1 && r.value.isCorrect
  {
    assert LooseEq(Bool(true), Int(q.id));
  }

  /** find() searches the relation in `order` order, not table order: with
      `true` as key and two questions stored as [a, b], the one with the
      lower `order` is judged. Here that answers, where the other would
      throw. */
  lemma TrueKeyFollowsRelationOrder(a: Question, b: Question, attemptId: int, id: int)
    requires a.quizId == b.quizId && a.id != 0 && b.id != 0 && b.order < a.order
    requires a.qtype == MultipleChoice && a.correctAnswer == Str("y")
    requires b.qtype == TrueFalse && b.correctAnswer == List([Str("x")])
    ensures Questions([a, b], a.quizId) == [b, a]
    ensures var r := JudgeEntry(Entry(Bool(true), Str("x")), Questions([a, b], a.quizId), attemptId, id);
      r.Success? && r.value.questionId == 1 && r.value.isCorrect
    ensures JudgeEntry(Entry(Bool(true), Str("x")), [a, b], attemptId, id) == Failure(InArrayOnNonArray)
  {
    assert QuestionsOfQuiz([a, b], a.quizId) == [a, b];
    assert [a, b][1..] == [b];
    assert SortByOrder([b]) == [b];
    assert InsertByOrder(a, [b]) == [b] + InsertByOrder(a, []);
    NotNumericStart("x");
  }

  /** Every entry judged on its own, in order, ids handed out from firstId. */
  function Judgements(entries: seq<Entry>, quizQuestions: seq<Question>, attemptId: int, firstId: int)
    : seq<Result<Answer, Fault>>
  {
    seq(|entries|, k requires 0 <= k < |entries| => JudgeEntry(entries[k], quizQuestions, attemptId, firstId + k))
  }

  /** The rows when every judgement succeeds; otherwise the first fault. */
  function Collect(rs: seq<Result<Answer, Fault>>): Result<seq<Answer>, Fault> {
    if rs == [] then Success([])
    else
      match Collect(rs[..|rs| - 1])
      case Failure(f) => Failure(f)
      case Success(rows) =>
        match rs[|rs| - 1]
        case Failure(f) => Failure(f)
        case Success(row) => Success(rows + [row])
  }

  /** All entries judged in order; the first fault wins. */
  function JudgeAll(entries: seq<Entry>, quizQuestions: seq<Question>, attemptId: int, firstId: int)
    : Result<seq<Answer>, Fault>
  {
    Collect(Judgements(entries, quizQuestions, attemptId, firstId))
  }

  /** A successful collection holds exactly the successful rows, in order. */
  lemma {:induction false} CollectSuccess(rs: seq<Result<Answer, Fault>>)
    requires Collect(rs).Success?
    ensures |Collect(rs).value| == |rs|
    ensures forall k :: 0 <= k < |rs| ==> rs[k] == Success(Collect(rs).value[k])
  {
    if rs != [] {
      var n := |rs| - 1;
      CollectSuccess(rs[..n]);
      var rows := Collect(rs[..n]).value;
      forall k | 0 <= k < |rs|
        ensures rs[k] == Success(Collect(rs).value[k])
      {
        if k < n {
          assert rs[..n][k] == rs[k];
        }
      }
    }
  }

  /** A failed collection has a failed judgement. */
  lemma {:induction false} CollectFailure(rs: seq<Result<Answer, Fault>>)
    requires Collect(rs).Failure?
    ensures exists k :: 0 <= k < |rs| && rs[k].Failure?
  {
    var n := |rs| - 1;
    if Collect(rs[..n]).Failure? {
      CollectFailure(rs[..n]);
      var k :| 0 <= k < n && rs[..n][k].Failure?;
      assert rs[k] == rs[..n][k];
    }
  }

  /** Once a prefix fails, the whole collection fails. */
  lemma {:induction false} CollectPrefixFailure(rs: seq<Result<Answer, Fault>>, m: nat)
    requires m <= |rs| && Collect(rs[..m]).Failure?
    ensures Collect(rs).Failure?
    decreases |rs| - m
  {
    if m < |rs| {
      assert rs[..m + 1][..m] == rs[..m];
      CollectPrefixFailure(rs, m + 1);
    } else {
      assert rs[..m] == rs;
    }
  }

  /** A successful run judges every entry, row k with id firstId + k. */
  lemma JudgeAllJudgesEach(entries: seq<Entry>, quizQuestions: seq<Question>, attemptId: int, firstId: int)
    requires JudgeAll(entries, quizQuestions, attemptId, firstId).Success?
    ensures var rows := JudgeAll(entries, quizQuestions, attemptId, firstId).value;
      && |rows| == |entries|
      && forall k :: 0 <= k < |entries| ==> JudgeEntry(entries[k], quizQuestions, attemptId, firstId + k) == Success(rows[k])
  {
    var rs := Judgements(entries, quizQuestions, attemptId, firstId);
    CollectSuccess(rs);
    var rows := Collect(rs).value;
    forall k | 0 <= k < |entries|
      ensures JudgeEntry(entries[k], quizQuestions, attemptId, firstId + k) == Success(rows[k])
    {
      assert rs[k] == JudgeEntry(entries[k], quizQuestions, attemptId, firstId + k);
    }
  }

  /** A failed run has an entry whose judgement fails. */
  lemma JudgeAllFailureHasCause(entries: seq<Entry>, quizQuestions: seq<Question>, attemptId: int, firstId: int)
    requires JudgeAll(entries, quizQuestions, attemptId, firstId).Failure?
    ensures exists k :: 0 <= k < |entries| && JudgeEntry(entries[k], quizQuestions, attemptId, firstId + k).Failure?
  {
    var rs := Judgements(entries, quizQuestions, attemptId, firstId);
    CollectFailure(rs);
    var k :| 0 <= k < |rs| && rs[k].Failure?;
    assert JudgeEntry(entries[k], quizQuestions, attemptId, firstId + k) == rs[k];
  }

  function Abs(x: int): nat {
    if x < 0 then -x else x
  }

  /** Whether the transaction of submitAttempt commits: the attempt's quiz
      exists, every entry is judged without a fault, and calculateScore then
      judges every stored answer of the attempt without a fault. */
  predicate Submits(answers: seq<Answer>, questions: seq<Question>, quizzes: seq<Quiz>, list: seq<Entry>,
                    attemptId: int, quizId: int, firstId: int)
  {
    && FindQuiz(quizzes, quizId).Some?
    && var rows := JudgeAll(list, Questions(questions, quizId), attemptId, firstId);
    && rows.Success?
    && ScoreOf(AnswersOf(answers + rows.value, attemptId), questions, quizId).Success?
  }

  /** submitAttempt. 404 for an unknown attempt; 403 when it is not the
      caller's; 400 when already submitted; 422 when validation fails. Then,
      in one transaction: an answer row per entry (stored wrapped, judged by
      isCorrectAnswer), completed_at and time_taken, and calculateScore. Any
      fault is a 500 and nothing is kept. `correctCount` is the SQL-computed
      correct_answers column. */
  method SubmitAttempt(db: Db, attemptId: int, userId: int, entries: Option<seq<Entry>>, now: int, correctCount: int)
    returns (status: Http.Status)
    modifies db`answers, db`nextId, AttemptFrame(db.attempts, attemptId)
    ensures db.attempts == old(db.attempts)
    ensures status != Http.Ok ==> db.answers == old(db.answers) && db.nextId == old(db.nextId)
    ensures status != Http.Ok ==> forall a :: a in AttemptFrame(db.attempts, attemptId) ==> unchanged(a)
    ensures FindAttempt(db.attempts, attemptId).None? ==> status == Http.NotFound
    ensures FindAttempt(db.attempts, attemptId).Some? ==>
      var a := FindAttempt(db.attempts, attemptId).value;
      && (a.userId != userId ==> status == Http.Forbidden)
      && (a.userId == userId && old(a.completedAt).Some? ==> status == Http.BadRequest)
      && (a.userId == userId && old(a.completedAt).None? && !ValidSubmission(entries, db.questions) ==>
            status == Http.Unprocessable)
      && (a.userId == userId && old(a.completedAt).None? && ValidSubmission(entries, db.questions) ==>
            && (status == Http.Ok || status == Http.ServerError)
            && (status == Http.Ok <==>
                  Submits(old(db.answers), db.questions, db.quizzes, entries.value, attemptId, a.quizId, old(db.nextId))))
      && a.totalQuestions == old(a.totalQuestions)
      && (status == Http.Ok ==>
            && ValidSubmission(entries, db.questions)
            && var rows := JudgeAll(entries.value, Questions(db.questions, a.quizId), attemptId, old(db.nextId));
            && rows.Success?
            && db.answers == old(db.answers) + rows.value
            && db.nextId == old(db.nextId) + |entries.value|
            && a.completedAt == Some(now)
            && a.timeTaken == Some(Abs(now - a.startedAt))
            && var score := ScoreOf(AnswersOf(db.answers, attemptId), db.questions, a.quizId);
            && score.Success? && a.score == Some(score.value)
            && FindQuiz(db.quizzes, a.quizId).Some?
            && a.passed == Some(score.value >= FindQuiz(db.quizzes, a.quizId).value.passingScore)
            && a.correctAnswers == Some(correctCount))
    ensures status in {Http.NotFound, Http.Forbidden, Http.BadRequest, Http.Unprocessable, Http.Ok, Http.ServerError}
  {
    var found := FindAttempt(db.attempts, attemptId);
    if found.None? {
      return Http.NotFound;
    }
    var attempt := found.value;
    if attempt.userId != userId {
      return Http.Forbidden;
    }
    if attempt.completedAt.Some? {
      return Http.BadRequest;
    }
    if !ValidSubmission(entries, db.questions) {
      return Http.Unprocessable;
    }
    status := Finish(db, attempt, entries.value, now, correctCount);
    assert db.attempts == old(db.attempts);
    assert FindAttempt(db.attempts, attemptId) == Some(attempt);
  }

  /** The part of submit after validation: judge every entry, then write. */
  method Finish(db: Db, attempt: QuizAttempt, list: seq<Entry>, now: int, correctCount: int)
    returns (status: Http.Status)
    modifies db`answers, db`nextId, attempt
    ensures status == Http.Ok || status == Http.ServerError
    ensures status == Http.Ok <==>
      Submits(old(db.answers), db.questions, db.quizzes, list, attempt.id, attempt.quizId, old(db.nextId))
    ensures status != Http.Ok ==> db.answers == old(db.answers) && db.nextId == old(db.nextId) && unchanged(attempt)
    ensures attempt.totalQuestions == old(attempt.totalQuestions)
    ensures status == Http.Ok ==>
      && var rows := JudgeAll(list, Questions(db.questions, attempt.quizId), attempt.id, old(db.nextId));
      && rows.Success?
      && db.answers == old(db.answers) + rows.value
      && db.nextId == old(db.nextId) + |list|
      && attempt.completedAt == Some(now)
      && attempt.timeTaken == Some(Abs(now - attempt.startedAt))
      && var score := ScoreOf(AnswersOf(db.answers, attempt.id), db.questions, attempt.quizId);
      && score.Success? && attempt.score == Some(score.value)
      && FindQuiz(db.quizzes, attempt.quizId).Some?
      && attempt.passed == Some(score.value >= FindQuiz(db.quizzes, attempt.quizId).value.passingScore)
      && attempt.correctAnswers == Some(correctCount)
  {
    var quizFound := FindQuiz(db.quizzes, attempt.quizId);
    if quizFound.None? {
      return Http.ServerError;
    }
    var quiz := quizFound.value;
    var quizQuestions := Questions(db.questions, attempt.quizId);

    // Judge every entry before anything is written.
    var judged := JudgeEntries(list, quizQuestions, attempt.id, db.nextId);
    if judged.Failure? {
      return Http.ServerError;
    }
    var rows := judged.value;
    assert JudgeAll(list, quizQuestions, attempt.id, db.nextId) == Success(rows);
    JudgeAllJudgesEach(list, quizQuestions, attempt.id, db.nextId);
    assert |rows| == |list|;

    var committed := Commit(db, attempt, rows, quiz, now, correctCount);
    assert db.questions == old(db.questions) && db.quizzes == old(db.quizzes);
    return if committed then Http.Ok else Http.ServerError;
  }

  /** The writes of the transaction: the answer rows, completed_at and
      time_taken, then calculateScore; a scoring fault rolls all of them back. */
  method Commit(db: Db, attempt: QuizAttempt, rows: seq<Answer>, quiz: Quiz, now: int, correctCount: int)
    returns (committed: bool)
    requires quiz.id == attempt.quizId
    modifies db`answers, db`nextId, attempt
    ensures committed <==> ScoreOf(AnswersOf(old(db.answers) + rows, attempt.id), db.questions, quiz.id).Success?
    ensures !committed ==> db.answers == old(db.answers) && db.nextId == old(db.nextId) && unchanged(attempt)
    ensures attempt.totalQuestions == old(attempt.totalQuestions)
    ensures committed ==>
      && db.answers == old(db.answers) + rows
      && db.nextId == old(db.nextId) + |rows|
      && attempt.completedAt == Some(now)
      && attempt.timeTaken == Some(Abs(now - attempt.startedAt))
      && var score := ScoreOf(AnswersOf(db.answers, attempt.id), db.questions, quiz.id);
      && score.Success? && attempt.score == Some(score.value)
      && attempt.passed == Some(score.value >= quiz.passingScore)
      && attempt.correctAnswers == Some(correctCount)
  {
    var savedAnswers, savedNextId := db.answers, db.nextId;
    var savedCompletedAt, savedTimeTaken := attempt.completedAt, attempt.timeTaken;
    db.answers := db.answers + rows;
    db.nextId := db.nextId + |rows|;
    attempt.completedAt := Some(now);
    attempt.timeTaken := Some(Abs(now - attempt.startedAt));
    var score := attempt.CalculateScore(AnswersOf(db.answers, attempt.id), db.questions, quiz, correctCount);
    if score.Failure? {
      db.answers, db.nextId := savedAnswers, savedNextId;
      attempt.completedAt, attempt.timeTaken := savedCompletedAt, savedTimeTaken;
      return false;
    }
    return true;
  }

  /** The loop of submitAttempt that judges the entries one by one. */
  method JudgeEntries(list: seq<Entry>, quizQuestions: seq<Question>, attemptId: int, firstId: int)
    returns (r: Result<seq<Answer>, Fault>)
    ensures r == JudgeAll(list, quizQuestions, attemptId, firstId) || (r.Failure? && JudgeAll(list, quizQuestions, attemptId, firstId).Failure?)
  {
    ghost var rs := Judgements(list, quizQuestions, attemptId, firstId);
    var rows: seq<Answer> := [];
    var i := 0;
    while i < |list|
      invariant 0 <= i <= |list|
      invariant Collect(rs[..i]) == Success(rows)
    {
      var row := JudgeEntry(list[i], quizQuestions, attemptId, firstId + i);
      assert rs[..i + 1][..i] == rs[..i] && rs[..i + 1][i] == row;
      if row.Failure? {
        CollectPrefixFailure(rs, i + 1);
        return Failure(row.error);
      }
      rows := rows + [row.value];
      i := i + 1;
    }
    assert rs[..i] == rs;
    return Success(rows);
  }
}
