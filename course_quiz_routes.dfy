/**
 * The course-level quiz routes of backend/routes/api.php: a course's quiz is
 * fetched or created on first use, questions are upserted one at a time with
 * a bare option index as their answer, and a submission is scored by counting
 * loosely equal answers.
 */
module CourseQuizRoutes {
  import opened Wrappers
  import opened PhpValue
  import Http
  import Rounding
  import opened Courses
  import opened QuizQuestions
  import opened Quizzes
  import opened QuizAttempts
  import opened Store
  import opened Rules
  import Json
  import Text
  import QuizController

  // ---------------------------------------------------------------------
  // get-or-create

  /** The quiz a course gets on first use. */
  function DefaultQuiz(id: int, c: Course): (q: Quiz)
    ensures q.courseId == c.id && q.timeLimit == 30 && q.maxAttempts == 3 && q.passingScore == 70
    ensures q.isActive && q.order == 1
  {
    Quiz(id, c.id, c.title + " Quiz", Some("Quiz for " + c.title), 30, 3, 70, true, 1)
  }

  /** The course's first quiz, created with the defaults when it has none. */
  method GetOrCreateQuiz(db: Db, c: Course) returns (quiz: Quiz)
    modifies db`quizzes, db`nextId
    ensures FirstQuizOfCourse(old(db.quizzes), c.id).Some? ==>
      quiz == FirstQuizOfCourse(old(db.quizzes), c.id).value &&
      db.quizzes == old(db.quizzes) && db.nextId == old(db.nextId)
    ensures FirstQuizOfCourse(old(db.quizzes), c.id).None? ==>
      quiz == DefaultQuiz(old(db.nextId), c) &&
      db.quizzes == old(db.quizzes) + [quiz] && db.nextId == old(db.nextId) + 1
    ensures FirstQuizOfCourse(db.quizzes, c.id) == Some(quiz)
  {
    var first := FirstQuizOfCourse(db.quizzes, c.id);
    if first.Some? {
      return first.value;
    }
    quiz := DefaultQuiz(db.nextId, c);
    FirstQuizAppend(db.quizzes, quiz, c.id);
    db.quizzes := db.quizzes + [quiz];
    db.nextId := db.nextId + 1;
  }

  lemma {:induction false} FirstQuizAppend(qs: seq<Quiz>, q: Quiz, courseId: int)
    requires FirstQuizOfCourse(qs, courseId).None? && q.courseId == courseId
    ensures FirstQuizOfCourse(qs + [q], courseId) == Some(q)
  {
    if qs != [] {
      assert (qs + [q])[1..] == qs[1..] + [q];
      FirstQuizAppend(qs[1..], q, courseId);
    }
  }

  /** A question as GET /courses/{id}/quiz shows it. */
  datatype QuestionCard = QuestionCard(id: int, text: string, options: Value, answerIndex: int)

  /** is_numeric(correct_answer) ? (int) correct_answer : 0. */
  function AnswerIndex(correct: Value): int {
    if IsNumeric(correct) then IntVal(correct) else 0
  }

  /** A bare index reads back as itself; a one-element list (as the admin
      routes store) or an option text reads back as 0. */
  lemma AnswerIndexCases(k: int, items: seq<Value>, s: string)
    requires !IsNumeric(Str(s))
    ensures AnswerIndex(Int(k)) == k
    ensures AnswerIndex(List(items)) == 0
    ensures AnswerIndex(Str(s)) == 0
  {
    IntValOfInt(k);
  }

  function CardOf(q: Question): QuestionCard {
    QuestionCard(q.id, q.text, if q.options.Null? then List([]) else q.options, AnswerIndex(q.correctAnswer))
  }

  /** GET /courses/{courseId}/quiz: 404 for an unknown course; otherwise the
      course's first quiz, or a default quiz appended when it has none, with
      its questions in `order`. */
  method ShowCourseQuiz(db: Db, courseId: int) returns (status: Http.Status, quiz: Option<Quiz>, cards: seq<QuestionCard>)
    modifies db`quizzes, db`nextId
    ensures FindCourse(db.courses, courseId).None? <==> status == Http.NotFound
    ensures status == Http.NotFound ==> db.quizzes == old(db.quizzes) && db.nextId == old(db.nextId)
    ensures status == Http.Ok ==>
      && quiz.Some? && FirstQuizOfCourse(db.quizzes, courseId) == quiz
      && (FirstQuizOfCourse(old(db.quizzes), courseId).Some? ==>
            quiz == FirstQuizOfCourse(old(db.quizzes), courseId) &&
            db.quizzes == old(db.quizzes) && db.nextId == old(db.nextId))
      && (FirstQuizOfCourse(old(db.quizzes), courseId).None? ==>
            quiz == Some(DefaultQuiz(old(db.nextId), FindCourse(db.courses, courseId).value)) &&
            db.quizzes == old(db.quizzes) + [quiz.value] && db.nextId == old(db.nextId) + 1)
      && |cards| == |Questions(db.questions, quiz.value.id)|
      && forall k :: 0 <= k < |cards| ==> cards[k] == CardOf(Questions(db.questions, quiz.value.id)[k])
    ensures status == Http.NotFound || status == Http.Ok
  {
    cards := [];
    var c := FindCourse(db.courses, courseId);
    if c.None? {
      return Http.NotFound, None, cards;
    }
    var q := GetOrCreateQuiz(db, c.value);
    var qs := Questions(db.questions, q.id);
    cards := seq(|qs|, k requires 0 <= k < |qs| => CardOf(qs[k]));
    return Http.Ok, Some(q), cards;
  }

  // ---------------------------------------------------------------------
  // question upsert

  /** The fields of an upsert request. `id` and `answerIndex` are the JSON
      values as sent (Null when missing); `text` and `options` are None when
      missing, null or not a string or an array, which their rules all reject. */
  datatype UpsertRequest = UpsertRequest(id: Value, text: Option<string>, options: Option<seq<Value>>, answerIndex: Value)

  /** The rules: id nullable|string, text required, options an array of
      exactly 4 required strings, answerIndex an integer 0..3. */
  predicate ValidUpsert(r: UpsertRequest) {
    && (r.id.Null? || r.id.Str?)
    && r.text.Some? && Trim(r.text.value) != ""
    && r.options.Some? && |r.options.value| == 4
    && (forall k :: 0 <= k < 4 ==> r.options.value[k].Str? && Trim(r.options.value[k].s) != "")
    && IntegerRule(r.answerIndex).Some? && 0 <= IntegerRule(r.answerIndex).value <= 3
  }

  /** `nullable|string` refuses a numeric id, which is what the client sends
      back for a question it loaded (`id: q.id`), and `integer` accepts a
      string of digits as answerIndex. */
  lemma UpsertFieldRules(r: UpsertRequest, k: int)
    requires r.id == Int(k)
    ensures !ValidUpsert(r)
    ensures !ValidUpsert(r.(id := Null, answerIndex := Int(4)))
    ensures ValidUpsert(r.(id := Null, answerIndex := Str("2"))) <==> ValidUpsert(r.(id := Null, answerIndex := Int(2)))
  {
    IntToStringIsNumeric(2);
    assert Text.IntToString(2) == "2";
  }

  /** !empty($id): PHP counts null, "" and "0" as empty. */
  predicate NonEmptyId(id: Value) {
    id.Str? && id.s != "" && id.s != "0"
  }

  /** The quiz's question whose id equals the given one (where('id', ...)). */
  function FindQuizQuestion(table: seq<Question>, quizId: int, id: string): (r: Option<Question>)
    ensures r.Some? ==> r.value in table && r.value.quizId == quizId && LooseEq(Str(id), Int(r.value.id))
  {
    if table == [] then None
    else if table[0].quizId == quizId && LooseEq(Str(id), Int(table[0].id)) then Some(table[0])
    else FindQuizQuestion(table[1..], quizId, id)
  }

  /** The table with the first row whose id is `target` replaced by `row`. */
  function ReplaceQuestion(table: seq<Question>, target: int, row: Question): (r: seq<Question>)
    ensures |r| == |table|
    ensures forall k :: 0 <= k < |table| ==> r[k] == table[k] || (table[k].id == target && r[k] == row)
  {
    if table == [] then []
    else if table[0].id == target then [row] + table[1..]
    else [table[0]] + ReplaceQuestion(table[1..], target, row)
  }

  /** The answerIndex a valid upsert stores reads back, through `AnswerIndex`,
      as the integer the `integer` rule accepted. */
  lemma ValidIndexReadsBack(r: UpsertRequest)
    requires ValidUpsert(r)
    ensures AnswerIndex(r.answerIndex) == IntegerRule(r.answerIndex).value
  {
  }

  /** The question an upsert writes: multiple choice, the 4 options, the
      answerIndex as sent (a bare int or a digit string) as correct answer,
      10 points. */
  function Upserted(base: Question, r: UpsertRequest): (q: Question)
    requires ValidUpsert(r)
    ensures q.qtype == MultipleChoice && q.points == 10
    ensures q.correctAnswer == r.answerIndex
    ensures q.options == List(r.options.value)
    ensures q.id == base.id && q.quizId == base.quizId && q.order == base.order
  {
    base.(text := r.text.value, options := List(r.options.value), correctAnswer := r.answerIndex,
      qtype := MultipleChoice, points := 10)
  }

  /** POST /courses/{courseId}/quiz/questions: 404 for an unknown course; the
      quiz is fetched or created BEFORE validation, so a 422 may still leave a
      new quiz behind; a non-empty id naming one of the quiz's questions
      updates it in place, anything else appends a question after the quiz's
      current ones. Both answer 201 with the stored index as an int. */
  method UpsertQuestion(db: Db, courseId: int, r: UpsertRequest) returns (status: Http.Status, answerIndex: int)
    modifies db`quizzes, db`questions, db`nextId
    ensures FindCourse(db.courses, courseId).None? <==> status == Http.NotFound
    ensures status == Http.NotFound ==> db.quizzes == old(db.quizzes) && db.nextId == old(db.nextId)
    ensures status != Http.NotFound ==> FirstQuizOfCourse(db.quizzes, courseId).Some?
    ensures FindCourse(db.courses, courseId).Some? ==> (status == Http.Created <==> ValidUpsert(r))
    ensures status != Http.NotFound && FirstQuizOfCourse(old(db.quizzes), courseId).Some? ==>
      db.quizzes == old(db.quizzes)
    ensures status != Http.NotFound && FirstQuizOfCourse(old(db.quizzes), courseId).None? ==>
      db.quizzes == old(db.quizzes) + [DefaultQuiz(old(db.nextId), FindCourse(db.courses, courseId).value)]
    ensures status != Http.NotFound && !ValidUpsert(r) ==> status == Http.Unprocessable
    ensures status != Http.Created ==> db.questions == old(db.questions)
    ensures status == Http.Created ==>
      && ValidUpsert(r) && answerIndex == IntegerRule(r.answerIndex).value
      && FirstQuizOfCourse(db.quizzes, courseId).Some?
      && db.questions == UpsertTable(old(db.questions), FirstQuizOfCourse(db.quizzes, courseId).value.id, r,
                                     old(db.nextId) + |db.quizzes| - |old(db.quizzes)|)
    ensures status in {Http.NotFound, Http.Unprocessable, Http.Created}
  {
    var c := FindCourse(db.courses, courseId);
    if c.None? {
      return Http.NotFound, 0;
    }
    var quiz := GetOrCreateQuiz(db, c.value);
    if !ValidUpsert(r) {
      return Http.Unprocessable, 0;
    }
    WriteQuestion(db, quiz.id, r);
    return Http.Created, IntegerRule(r.answerIndex).value;
  }

  /** The question an upsert updates: a non-empty id naming one of the quiz's questions. */
  function UpsertTarget(table: seq<Question>, quizId: int, r: UpsertRequest): Option<Question> {
    if NonEmptyId(r.id) then FindQuizQuestion(table, quizId, r.id.s) else None
  }

  /** The question table after a valid upsert; a created row takes id newId. */
  function UpsertTable(table: seq<Question>, quizId: int, r: UpsertRequest, newId: int): seq<Question>
    requires ValidUpsert(r)
  {
    var hit := UpsertTarget(table, quizId, r);
    if hit.Some? then ReplaceQuestion(table, hit.value.id, Upserted(hit.value, r))
    else
      var count := |QuestionsOfQuiz(table, quizId)|;
      table + [Upserted(Question(newId, quizId, "", MultipleChoice, Null, Null, None, 10, count + 1), r)]
  }

  /** The write step of an upsert. */
  method WriteQuestion(db: Db, quizId: int, r: UpsertRequest)
    requires ValidUpsert(r)
    modifies db`questions, db`nextId
    ensures db.questions == UpsertTable(old(db.questions), quizId, r, old(db.nextId))
    ensures db.nextId == old(db.nextId) + (if UpsertTarget(old(db.questions), quizId, r).Some? then 0 else 1)
  {
    var hit := UpsertTarget(db.questions, quizId, r);
    if hit.Some? {
      db.questions := ReplaceQuestion(db.questions, hit.value.id, Upserted(hit.value, r));
    } else {
      var count := |QuestionsOfQuiz(db.questions, quizId)|;
      db.questions := db.questions + [Upserted(Question(db.nextId, quizId, "", MultipleChoice, Null, Null, None, 10, count + 1), r)];
      db.nextId := db.nextId + 1;
    }
  }

  /** Question ids are primary keys. */
  predicate UniqueQuestionIds(table: seq<Question>) {
    forall i, j :: 0 <= i < j < |table| ==> table[i].id != table[j].id
  }

  /** With unique ids, replacing by id is replacing at the row's position. */
  lemma {:induction false} ReplaceAt(table: seq<Question>, i: nat, row: Question)
    requires UniqueQuestionIds(table) && i < |table|
    ensures ReplaceQuestion(table, table[i].id, row) == table[i := row]
  {
    if table[0].id == table[i].id {
      assert i == 0;
      assert [row] + table[1..] == table[0 := row];
    } else {
      var tail := table[1..];
      assert UniqueQuestionIds(tail) by {
        forall a, b | 0 <= a < b < |tail| ensures tail[a].id != tail[b].id {
          assert tail[a] == table[a + 1] && tail[b] == table[b + 1];
        }
      }
      assert tail[i - 1] == table[i];
      ReplaceAt(tail, i - 1, row);
      assert ReplaceQuestion(table, table[i].id, row) == [table[0]] + tail[i - 1 := row];
      assert [table[0]] + tail[i - 1 := row] == table[i := row];
    }
  }

  /** An upsert naming one of the quiz's questions updates that row in place:
      the row's position, id and order stay, and the quiz's question count is unchanged. */
  lemma UpsertUpdatesInPlace(table: seq<Question>, quizId: int, r: UpsertRequest, newId: int)
    requires ValidUpsert(r) && UniqueQuestionIds(table)
    requires UpsertTarget(table, quizId, r).Some?
    ensures exists i :: (0 <= i < |table| && table[i] == UpsertTarget(table, quizId, r).value &&
                         UpsertTable(table, quizId, r, newId) == table[i := Upserted(table[i], r)])
    ensures |QuestionsOfQuiz(UpsertTable(table, quizId, r, newId), quizId)| == |QuestionsOfQuiz(table, quizId)|
  {
    var hit := UpsertTarget(table, quizId, r).value;
    var i :| 0 <= i < |table| && table[i] == hit;
    ReplaceAt(table, i, Upserted(hit, r));
    ReplaceKeepsCount(table, hit.id, Upserted(hit, r), quizId);
  }

  /** Otherwise a new question is appended to the quiz with order count + 1,
      so the quiz's question count grows by one. */
  lemma UpsertCreatesAfter(table: seq<Question>, quizId: int, r: UpsertRequest, newId: int)
    requires ValidUpsert(r)
    requires UpsertTarget(table, quizId, r).None?
    ensures var t := UpsertTable(table, quizId, r, newId);
      && |t| == |table| + 1 && t[..|table|] == table
      && t[|table|].id == newId && t[|table|].quizId == quizId
      && t[|table|].order == |QuestionsOfQuiz(table, quizId)| + 1
      && |QuestionsOfQuiz(t, quizId)| == |QuestionsOfQuiz(table, quizId)| + 1
  {
    var t := UpsertTable(table, quizId, r, newId);
    QuestionsOfQuizAppend(table, t[|table|], quizId);
    assert t == table + [t[|table|]];
  }

  lemma {:induction false} QuestionsOfQuizAppend(table: seq<Question>, q: Question, quizId: int)
    ensures QuestionsOfQuiz(table + [q], quizId) ==
      QuestionsOfQuiz(table, quizId) + (if q.quizId == quizId then [q] else [])
  {
    if table == [] {
      assert table + [q] == [q];
    } else {
      assert (table + [q])[1..] == table[1..] + [q];
      QuestionsOfQuizAppend(table[1..], q, quizId);
    }
  }

  /** An update in place keeps the quiz's question count. */
  /** Replacing a row by one of the same quiz keeps every quiz's count. */
  lemma {:induction false} ReplaceKeepsCount(table: seq<Question>, target: int, row: Question, quizId: int)
    requires forall k :: 0 <= k < |table| && table[k].id == target ==> table[k].quizId == row.quizId
    decreases |table|
    ensures |QuestionsOfQuiz(ReplaceQuestion(table, target, row), quizId)| == |QuestionsOfQuiz(table, quizId)|
  {
    if table != [] && table[0].id != target {
      ReplaceKeepsCount(table[1..], target, row, quizId);
    } else if table != [] {
      assert ReplaceQuestion(table, target, row) == [row] + table[1..];
      assert ([row] + table[1..])[1..] == table[1..];
    }
  }

  /** A question upserted with an int answerIndex (what the client sends)
      never scores in calculateScore: its bare index is never judged correct. */
  lemma UpsertedNeverScores(base: Question, r: UpsertRequest, answer: Value)
    requires ValidUpsert(r) && r.answerIndex.Int?
    ensures IsCorrectAnswer(Upserted(base, r), answer) != Success(true)
  {
    BareIndexNeverCorrect(Upserted(base, r), r.answerIndex.i, answer);
  }

  /** With answerIndex sent as a digit string the stored answer is that
      string, whose `[0]` is the digit itself, so the index does score. */
  lemma UpsertedStringIndexScores(base: Question, r: UpsertRequest)
    requires ValidUpsert(r) && r.answerIndex.Str?
    ensures IsCorrectAnswer(Upserted(base, r), Int(IntegerRule(r.answerIndex).value)) == Success(true)
  {
    var v := IntegerRule(r.answerIndex).value;
    var q := Upserted(base, r);
    assert Text.IntToString(v) == Text.NatToString(v) == [Text.DigitChar(v)];
    assert Offset0(q.correctAnswer) == q.correctAnswer;
    IntValOfInt(v);
  }

  // ---------------------------------------------------------------------
  // course-quiz submission

  /** The submitted answer for a question: answers[question.id] ?? null. */
  function Submitted(answers: map<int, Value>, q: Question): Value {
    if q.id in answers then answers[q.id] else Null
  }

  /** Counted correct: an answer is present, not null, and `==` the stored answer. */
  predicate CountsCorrect(answers: map<int, Value>, q: Question) {
    !Submitted(answers, q).Null? && LooseEq(Submitted(answers, q), q.correctAnswer)
  }

  function CorrectCount(qs: seq<Question>, answers: map<int, Value>): (n: nat)
    ensures n <= |qs|
  {
    if qs == [] then 0
    else CorrectCount(qs[..|qs| - 1], answers) + (if CountsCorrect(answers, qs[|qs| - 1]) then 1 else 0)
  }

  /** round(correct / total * 100), 0 for a quiz without questions. */
  function CountScore(correct: nat, total: nat): (s: nat)
    requires correct <= total
    ensures total == 0 ==> s == 0
    ensures total > 0 ==> 2 * total * s <= 200 * correct + total < 2 * total * s + 2 * total
    ensures s <= 100
    ensures total > 0 && correct == total ==> s == 100
  {
    if total > 0 then Rounding.Percent(correct, total) else 0
  }

  /** The row stored for one question: the JSON text of its submitted
      answer, and whether it counted. The route writes json_encode($answer)
      into a column cast to `array`, so the text is encoded a second time on
      the way in and the column reads back as that text, a PHP string. */
  function RowFor(answers: map<int, Value>, q: Question, attemptId: int, id: int): Answer {
    Answer(id, attemptId, q.id, Str(Json.Encode(Submitted(answers, q))), CountsCorrect(answers, q))
  }

  /** What the route's rows read back as: the text "null" for an unanswered
      question, the digits of an int answer, a plain string in quotes. None
      of them is an array, so none has the wrapped form the attempt
      controller stores for the same answer. */
  lemma StoredAsJsonText(answers: map<int, Value>, q: Question, attemptId: int, id: int, s: string)
    ensures q.id !in answers ==> RowFor(answers, q, attemptId, id).answer == Str("null")
    ensures q.id in answers && answers[q.id].Int? ==>
      RowFor(answers, q, attemptId, id).answer == Str(Text.IntToString(answers[q.id].i))
    ensures q.id in answers && answers[q.id] == Str(s) && (forall k :: 0 <= k < |s| ==> Json.IsPlain(s[k])) ==>
      RowFor(answers, q, attemptId, id).answer == Str("\"" + s + "\"")
    ensures RowFor(answers, q, attemptId, id).answer.Str?
    ensures q.id in answers ==> RowFor(answers, q, attemptId, id).answer != QuizController.Wrap(answers[q.id])
  {
    Json.EscapeLength(s);
  }

  /** The answer rows: one per question in order, unanswered ones included. */
  function AnswerRows(qs: seq<Question>, answers: map<int, Value>, attemptId: int, firstId: int): (rows: seq<Answer>)
    ensures |rows| == |qs|
  {
    if qs == [] then []
    else AnswerRows(qs[..|qs| - 1], answers, attemptId, firstId) + [RowFor(answers, qs[|qs| - 1], attemptId, firstId + |qs| - 1)]
  }

  /** Row k answers question k, under id firstId + k, with the submitted value
      (null when absent) and the counted flag; the flags add up to the count. */
  lemma {:induction false} AnswerRowsAt(qs: seq<Question>, answers: map<int, Value>, attemptId: int, firstId: int)
    ensures forall k :: 0 <= k < |qs| ==>
      AnswerRows(qs, answers, attemptId, firstId)[k] == RowFor(answers, qs[k], attemptId, firstId + k)
  {
    if qs != [] {
      var init := qs[..|qs| - 1];
      AnswerRowsAt(init, answers, attemptId, firstId);
      forall k | 0 <= k < |qs|
        ensures AnswerRows(qs, answers, attemptId, firstId)[k] == RowFor(answers, qs[k], attemptId, firstId + k)
      {
        if k < |qs| - 1 {
          assert qs[k] == init[k];
        }
      }
    }
  }

  /** The stored flags count exactly the correct answers. */
  lemma {:induction false} AnswerRowsCountCorrect(qs: seq<Question>, answers: map<int, Value>, attemptId: int, firstId: int)
    ensures CorrectRows(AnswerRows(qs, answers, attemptId, firstId)) == CorrectCount(qs, answers)
  {
    if qs != [] {
      var rows := AnswerRows(qs[..|qs| - 1], answers, attemptId, firstId);
      var last := RowFor(answers, qs[|qs| - 1], attemptId, firstId + |qs| - 1);
      AnswerRowsCountCorrect(qs[..|qs| - 1], answers, attemptId, firstId);
      assert (rows + [last])[..|rows + [last]| - 1] == rows;
    }
  }

  /** The number of rows flagged correct. */
  function CorrectRows(rows: seq<Answer>): nat {
    if rows == [] then 0
    else CorrectRows(rows[..|rows| - 1]) + (if rows[|rows| - 1].isCorrect then 1 else 0)
  }

  /** The counting loop of the submission route. */
  method CountCorrect(qs: seq<Question>, given: map<int, Value>) returns (correct: nat)
    ensures correct == CorrectCount(qs, given)
  {
    correct := 0;
    var i := 0;
    while i < |qs|
      invariant 0 <= i <= |qs|
      invariant correct == CorrectCount(qs[..i], given)
    {
      assert qs[..i + 1][..i] == qs[..i];
      if CountsCorrect(given, qs[i]) {
        correct := correct + 1;
      }
      i := i + 1;
    }
    assert qs[..i] == qs;
  }

  /** The loop that builds one answer row per question. */
  method BuildRows(qs: seq<Question>, given: map<int, Value>, attemptId: int, firstId: int) returns (rows: seq<Answer>)
    ensures rows == AnswerRows(qs, given, attemptId, firstId)
  {
    rows := [];
    var j := 0;
    while j < |qs|
      invariant 0 <= j <= |qs|
      invariant rows == AnswerRows(qs[..j], given, attemptId, firstId)
    {
      assert qs[..j + 1][..j] == qs[..j];
      rows := rows + [RowFor(given, qs[j], attemptId, firstId + j)];
      j := j + 1;
    }
    assert qs[..j] == qs;
  }

  /** The attempt a scored submission records: started and completed now,
      taking no time, with the count, score and verdict filled in. */
  predicate RecordedAttempt(a: QuizAttempt, id: int, userId: int, quiz: Quiz, now: int, total: int, correct: int, score: int)
    reads a
  {
    && a.id == id && a.userId == userId && a.quizId == quiz.id
    && a.startedAt == now && a.completedAt == Some(now) && a.timeTaken == Some(0)
    && a.totalQuestions == total && a.correctAnswers == Some(correct)
    && a.score == Some(score) && a.passed == Some(score >= quiz.passingScore)
  }

  /** The writes of a scored submission: a completed attempt, then one
      answer row per question. */
  method RecordCompleted(db: Db, userId: int, quiz: Quiz, qs: seq<Question>, given: map<int, Value>,
                         correct: nat, score: int, now: int)
    modifies db`attempts, db`answers, db`nextId
    ensures |db.attempts| == |old(db.attempts)| + 1
    ensures db.attempts[..|old(db.attempts)|] == old(db.attempts)
    ensures fresh(db.attempts[|old(db.attempts)|])
    ensures RecordedAttempt(db.attempts[|old(db.attempts)|], old(db.nextId), userId, quiz, now, |qs|, correct, score)
    ensures db.answers == old(db.answers) + AnswerRows(qs, given, old(db.nextId), old(db.nextId) + 1)
    ensures db.nextId == old(db.nextId) + 1 + |qs|
  {
    var a := new QuizAttempt(db.nextId, userId, quiz.id, now, |qs|);
    a.completedAt := Some(now);
    a.score := Some(score);
    a.correctAnswers := Some(correct);
    a.timeTaken := Some(0);
    a.passed := Some(score >= quiz.passingScore);
    db.attempts := db.attempts + [a];
    db.nextId := db.nextId + 1;
    var rows := BuildRows(qs, given, a.id, db.nextId);
    db.answers := db.answers + rows;
    db.nextId := db.nextId + |qs|;
  }

  /** POST /courses/{courseId}/quiz/attempts. 404 for an unknown course or a
      course without a quiz; 422 when answers is missing, not an array or
      empty (checked before authentication); 401 without a user; otherwise a
      completed attempt and one answer row per question. No attempt limit or
      enrollment is checked. Returns the score. */
  method SubmitCourseQuiz(db: Db, courseId: int, answers: Option<map<int, Value>>, user: Option<int>, now: int)
    returns (status: Http.Status, score: int)
    modifies db`attempts, db`answers, db`nextId
    ensures var quiz := FirstQuizOfCourse(db.quizzes, courseId);
      && (FindCourse(db.courses, courseId).None? || quiz.None? ==> status == Http.NotFound)
      && (FindCourse(db.courses, courseId).Some? && quiz.Some? && (answers.None? || answers.value == map[]) ==>
            status == Http.Unprocessable)
      && (FindCourse(db.courses, courseId).Some? && quiz.Some? && answers.Some? && answers.value != map[] ==>
            status == (if user.None? then Http.Unauthorized else Http.Ok))
    ensures status != Http.Ok ==>
      db.attempts == old(db.attempts) && db.answers == old(db.answers) && db.nextId == old(db.nextId)
    ensures status == Http.Ok ==> user.Some? && answers.Some? && FirstQuizOfCourse(db.quizzes, courseId).Some?
    ensures status == Http.Ok ==>
      && var quiz := FirstQuizOfCourse(db.quizzes, courseId).value;
      && var qs := Questions(db.questions, quiz.id);
      && var correct := CorrectCount(qs, answers.value);
      && score == CountScore(correct, |qs|) && 0 <= score <= 100
      && |db.attempts| == |old(db.attempts)| + 1
      && db.attempts[..|old(db.attempts)|] == old(db.attempts)
      && fresh(db.attempts[|old(db.attempts)|])
      && RecordedAttempt(db.attempts[|old(db.attempts)|], old(db.nextId), user.value, quiz, now, |qs|, correct, score)
      && db.answers == old(db.answers) + AnswerRows(qs, answers.value, old(db.nextId), old(db.nextId) + 1)
      && db.nextId == old(db.nextId) + 1 + |qs|
  {
    score := 0;
    if FindCourse(db.courses, courseId).None? {
      return Http.NotFound, score;
    }
    var found := FirstQuizOfCourse(db.quizzes, courseId);
    if found.None? {
      return Http.NotFound, score;
    }
    if answers.None? || answers.value == map[] {
      return Http.Unprocessable, score;
    }
    if user.None? {
      return Http.Unauthorized, score;
    }
    score := Grade(db, user.value, found.value, answers.value, now);
    assert FirstQuizOfCourse(db.quizzes, courseId) == found;
    return Http.Ok, score;
  }

  /** The part of the submission after validation: count, score and record. */
  method Grade(db: Db, userId: int, quiz: Quiz, given: map<int, Value>, now: int) returns (score: int)
    modifies db`attempts, db`answers, db`nextId
    ensures var qs := Questions(db.questions, quiz.id);
      && var correct := CorrectCount(qs, given);
      && score == CountScore(correct, |qs|) && 0 <= score <= 100
      && |db.attempts| == |old(db.attempts)| + 1
      && db.attempts[..|old(db.attempts)|] == old(db.attempts)
      && fresh(db.attempts[|old(db.attempts)|])
      && RecordedAttempt(db.attempts[|old(db.attempts)|], old(db.nextId), userId, quiz, now, |qs|, correct, score)
      && db.answers == old(db.answers) + AnswerRows(qs, given, old(db.nextId), old(db.nextId) + 1)
      && db.nextId == old(db.nextId) + 1 + |qs|
  {
    var qs := Questions(db.questions, quiz.id);
    var correct := CountCorrect(qs, given);
    score := CountScore(correct, |qs|);
    RecordCompleted(db, userId, quiz, qs, given, correct, score, now);
    assert db.questions == old(db.questions);
  }

  /** The loose comparison accepts a numeric string for a bare index: "2" counts for 2. */
  lemma StringIndexCounts(q: Question)
    requires q.correctAnswer == Int(2) && q.id == 7
    ensures CountsCorrect(map[7 := Str("2")], q)
  {
    assert ParseNumeric("2") == Some(Decimal(false, 2, 0));
    assert Pow10(0) == 1;
  }

  /** A question stored with a one-element list answer (the admin routes) never
      counts for a scalar submission: a list is only `==` to a list. */
  lemma ListAnswerNeedsList(answers: map<int, Value>, q: Question)
    requires q.correctAnswer.List? && q.id in answers && !answers[q.id].List?
    ensures !CountsCorrect(answers, q) || answers[q.id].Bool?
  {
  }
}
