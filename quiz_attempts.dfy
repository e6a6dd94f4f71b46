/**
 * Quiz attempts (backend/app/Models/QuizAttempt.php): completion and the
 * points-weighted scorer `calculateScore`.
 */
module QuizAttempts {
  import opened Wrappers
  import opened PhpValue
  import opened QuizQuestions
  import Quizzes
  import Rounding

  /** A quiz_answers row; `answer` is the JSON column cast to an array. */
  datatype Answer = Answer(id: int, attemptId: int, questionId: int, answer: Value, isCorrect: bool)

  class QuizAttempt {
    const id: int
    const userId: int
    const quizId: int
    const startedAt: int
    var completedAt: Option<int>
    var totalQuestions: int
    /** None stands for a column left at its database default. */
    var score: Option<int>
    var correctAnswers: Option<int>
    var timeTaken: Option<int>
    var passed: Option<bool>

    /** A new in-progress attempt, as startAttempt creates it. */
    constructor (id: int, userId: int, quizId: int, startedAt: int, totalQuestions: int)
      ensures this.id == id && this.userId == userId && this.quizId == quizId
      ensures this.startedAt == startedAt && this.totalQuestions == totalQuestions
      ensures completedAt == None && score == None && correctAnswers == None
      ensures timeTaken == None && passed == None
    {
      this.id := id;
      this.userId := userId;
      this.quizId := quizId;
      this.startedAt := startedAt;
      this.totalQuestions := totalQuestions;
      completedAt := None;
      score := None;
      correctAnswers := None;
      timeTaken := None;
      passed := None;
    }

    /** isCompleted: completed_at is set. */
    predicate IsCompleted()
      reads this
    {
      completedAt.Some?
    }

    /** calculateScore. The answers, the question table, the quiz and the
        SQL-counted correct_answers are the relations Eloquent loads. The score
        is written only when every answer could be judged. */
    method CalculateScore(answers: seq<Answer>, table: seq<Question>, quiz: Quizzes.Quiz, correctCount: int)
      returns (r: Result<int, Fault>)
      requires quiz.id == quizId
      modifies this`score, this`passed, this`correctAnswers
      ensures r == ScoreOf(answers, table, quizId)
      ensures r.Success? ==>
        score == Some(r.value) && passed == Some(r.value >= quiz.passingScore) && correctAnswers == Some(correctCount)
      ensures r.Failure? ==> score == old(score) && passed == old(passed) && correctAnswers == old(correctAnswers)
    {
      var totalPoints := TotalPoints(table, quizId);
      ghost var ps := PointsList(answers, table);
      var earned := 0;
      var i := 0;
      while i < |answers|
        invariant 0 <= i <= |answers|
        invariant SumPoints(ps[..i]) == Success(earned)
        invariant score == old(score) && passed == old(passed) && correctAnswers == old(correctAnswers)
      {
        var p := AnswerPoints(answers[i].questionId, answers[i].answer, table);
        assert p == ps[i];
        if p.Failure? {
          SumFailsAt(ps, i);
          return Failure(p.error);
        }
        SumStep(ps, i);
        earned := earned + p.value;
        i := i + 1;
      }
      assert ps[..i] == ps;
      var s := ScoreFor(earned, totalPoints);
      score := Some(s);
      correctAnswers := Some(correctCount);
      passed := Some(s >= quiz.passingScore);
      return Success(s);
    }
  }

  /** The question row with a given id (ids are unique), or None. */
  function FindQuestion(table: seq<Question>, id: int): (r: Option<Question>)
    ensures r.Some? ==> r.value in table && r.value.id == id
    ensures r.None? ==> forall q :: q in table ==> q.id != id
  {
    if table == [] then None
    else if table[0].id == id then Some(table[0])
    else FindQuestion(table[1..], id)
  }

  /** questions()->sum('points'): the quiz's current question bank. */
  function TotalPoints(table: seq<Question>, quizId: int): int {
    if table == [] then 0
    else (if table[0].quizId == quizId then table[0].points else 0) + TotalPoints(table[1..], quizId)
  }

  /** What one answer earns: its question's points if judged correct, else 0. */
  function AnswerPoints(questionId: int, answer: Value, table: seq<Question>): Result<int, Fault> {
    match FindQuestion(table, questionId)
    case None => Failure(NullQuestion)
    case Some(q) =>
      match IsCorrectAnswer(q, answer)
      case Failure(f) => Failure(f)
      case Success(ok) => Success(if ok then q.points else 0)
  }

  /** What each answer earns, in order. */
  function PointsList(answers: seq<Answer>, table: seq<Question>): seq<Result<int, Fault>> {
    seq(|answers|, k requires 0 <= k < |answers| => AnswerPoints(answers[k].questionId, answers[k].answer, table))
  }

  /** The sum of the points, or the first fault in the list. */
  function SumPoints(ps: seq<Result<int, Fault>>): Result<int, Fault> {
    if ps == [] then Success(0)
    else
      match SumPoints(ps[..|ps| - 1])
      case Failure(f) => Failure(f)
      case Success(e) =>
        match ps[|ps| - 1]
        case Failure(f) => Failure(f)
        case Success(p) => Success(e + p)
  }

  /** The points earned by a list of answers, or the first fault met. */
  function EarnedPoints(answers: seq<Answer>, table: seq<Question>): Result<int, Fault> {
    SumPoints(PointsList(answers, table))
  }

  lemma PointsListPrefix(answers: seq<Answer>, table: seq<Question>, i: nat)
    requires i <= |answers|
    ensures PointsList(answers[..i], table) == PointsList(answers, table)[..i]
  {
  }

  /** Adding one more successful item adds its points to a successful sum. */
  lemma SumSnoc(ps: seq<Result<int, Fault>>, p: Result<int, Fault>)
    requires SumPoints(ps).Success? && p.Success?
    ensures SumPoints(ps + [p]) == Success(SumPoints(ps).value + p.value)
  {
    assert (ps + [p])[..|ps|] == ps;
  }

  /** The loop step: a successful item after a successful prefix extends the sum. */
  lemma SumStep(ps: seq<Result<int, Fault>>, i: nat)
    requires i < |ps| && SumPoints(ps[..i]).Success? && ps[i].Success?
    ensures SumPoints(ps[..i + 1]) == Success(SumPoints(ps[..i]).value + ps[i].value)
  {
    assert ps[..i + 1] == ps[..i] + [ps[i]];
    SumSnoc(ps[..i], ps[i]);
  }

  /** The loop's early exit: a failed item after a successful prefix is the sum's fault. */
  lemma SumFailsAt(ps: seq<Result<int, Fault>>, i: nat)
    requires i < |ps| && SumPoints(ps[..i]).Success? && ps[i].Failure?
    ensures SumPoints(ps) == Failure(ps[i].error)
  {
    assert ps[..i + 1][..i] == ps[..i];
    SumPrefixFailure(ps, i + 1);
  }

  /** A successful sum splits into the sum of all answers but the last, plus the last one's points. */
  lemma EarnedSplit(answers: seq<Answer>, table: seq<Question>)
    requires answers != [] && EarnedPoints(answers, table).Success?
    ensures var n := |answers| - 1;
      && EarnedPoints(answers[..n], table).Success?
      && AnswerPoints(answers[n].questionId, answers[n].answer, table).Success?
      && EarnedPoints(answers, table).value ==
           EarnedPoints(answers[..n], table).value + AnswerPoints(answers[n].questionId, answers[n].answer, table).value
  {
    var n := |answers| - 1;
    var ps := PointsList(answers, table);
    PointsListPrefix(answers, table, n);
    assert ps[n] == AnswerPoints(answers[n].questionId, answers[n].answer, table);
  }

  /** Once a prefix of the list fails, the sum fails with that fault. */
  lemma {:induction false} SumPrefixFailure(ps: seq<Result<int, Fault>>, m: nat)
    requires m <= |ps| && SumPoints(ps[..m]).Failure?
    ensures SumPoints(ps) == SumPoints(ps[..m])
    decreases |ps| - m
  {
    if m < |ps| {
      assert ps[..m + 1][..m] == ps[..m];
      SumPrefixFailure(ps, m + 1);
    } else {
      assert ps[..m] == ps;
    }
  }

  /** round(earned / total * 100), PHP rounding half away from zero; 0 unless total > 0. */
  function ScoreFor(earned: int, total: int): (s: int)
    ensures total <= 0 ==> s == 0
    ensures total > 0 && earned >= 0 ==> s >= 0 && 2 * total * s <= 200 * earned + total < 2 * total * s + 2 * total
    ensures total > 0 && 0 <= earned <= total ==> s <= 100
    ensures total > 0 && earned == total ==> s == 100
  {
    if total <= 0 then 0
    else if earned >= 0 then Rounding.Percent(earned, total)
    else var away: int := Rounding.Percent(-earned, total); -away
  }

  /** The score calculateScore stores and returns, or the fault that aborts it. */
  function ScoreOf(answers: seq<Answer>, table: seq<Question>, quizId: int): Result<int, Fault> {
    match EarnedPoints(answers, table)
    case Failure(f) => Failure(f)
    case Success(e) => Success(ScoreFor(e, TotalPoints(table, quizId)))
  }

  // ---------------------------------------------------------------------
  // Properties of the scorer

  /** A quiz whose questions carry no points always scores 0. */
  lemma NoPointsScoresZero(answers: seq<Answer>, table: seq<Question>, quizId: int)
    requires TotalPoints(table, quizId) == 0
    ensures ScoreOf(answers, table, quizId).Success? ==> ScoreOf(answers, table, quizId).value == 0
  {
  }

  /** Correctness is recomputed from the stored answer: the is_correct column never matters. */
  lemma ScoreIgnoresStoredVerdict(a1: seq<Answer>, a2: seq<Answer>, table: seq<Question>)
    requires |a1| == |a2|
    requires forall i :: 0 <= i < |a1| ==> a1[i].questionId == a2[i].questionId && a1[i].answer == a2[i].answer
    ensures EarnedPoints(a1, table) == EarnedPoints(a2, table)
  {
    assert PointsList(a1, table) == PointsList(a2, table);
  }

  predicate UniqueIds(table: seq<Question>) {
    forall i, j :: 0 <= i < j < |table| ==> table[i].id != table[j].id
  }

  predicate NonNegativePoints(table: seq<Question>) {
    forall i :: 0 <= i < |table| ==> table[i].points >= 0
  }

  /** No two answers are for the same question. */
  predicate DistinctQuestions(answers: seq<Answer>) {
    forall i, j :: 0 <= i < j < |answers| ==> answers[i].questionId != answers[j].questionId
  }

  /** Every answer is for an existing question of the quiz. */
  predicate AnswersInQuiz(answers: seq<Answer>, table: seq<Question>, quizId: int) {
    forall i :: 0 <= i < |answers| ==>
      FindQuestion(table, answers[i].questionId).Some? && FindQuestion(table, answers[i].questionId).value.quizId == quizId
  }

  /** With at most one answer per question of the quiz and no negative points,
      the score never exceeds 100. */
  lemma ScoreAtMostHundred(answers: seq<Answer>, table: seq<Question>, quizId: int)
    requires UniqueIds(table) && NonNegativePoints(table)
    requires DistinctQuestions(answers) && AnswersInQuiz(answers, table, quizId)
    requires ScoreOf(answers, table, quizId).Success?
    ensures 0 <= ScoreOf(answers, table, quizId).value <= 100
  {
    EarnedBound(answers, table, quizId);
    PointsOfAtMostTotal(table, quizId, AnsweredIds(answers));
  }

  function AnsweredIds(answers: seq<Answer>): set<int> {
    set i | 0 <= i < |answers| :: answers[i].questionId
  }

  /** The points of the quiz's questions whose ids are in ids. */
  function PointsOf(table: seq<Question>, quizId: int, ids: set<int>): int {
    if table == [] then 0
    else (if table[0].quizId == quizId && table[0].id in ids then table[0].points else 0) + PointsOf(table[1..], quizId, ids)
  }

  /** The ids answered by a list are those of all but its last answer, plus the last one's. */
  lemma AnsweredIdsSnoc(answers: seq<Answer>)
    requires answers != []
    ensures AnsweredIds(answers) == AnsweredIds(answers[..|answers| - 1]) + {answers[|answers| - 1].questionId}
  {
    var init := answers[..|answers| - 1];
    var last := answers[|answers| - 1];
    forall x ensures x in AnsweredIds(answers) <==> x in AnsweredIds(init) + {last.questionId} {
      if x in AnsweredIds(answers) {
        var i :| 0 <= i < |answers| && answers[i].questionId == x;
        if i < |init| { assert init[i].questionId == x; }
      }
      if x in AnsweredIds(init) {
        var i :| 0 <= i < |init| && init[i].questionId == x;
        assert answers[i].questionId == x;
      }
    }
  }

  /** Dropping the last answer keeps the answers distinct and within the quiz,
      and the last answer's question is not among the others. */
  lemma InitAnswers(answers: seq<Answer>, table: seq<Question>, quizId: int)
    requires answers != []
    requires DistinctQuestions(answers) && AnswersInQuiz(answers, table, quizId)
    ensures DistinctQuestions(answers[..|answers| - 1]) && AnswersInQuiz(answers[..|answers| - 1], table, quizId)
    ensures answers[|answers| - 1].questionId !in AnsweredIds(answers[..|answers| - 1])
  {
    var init := answers[..|answers| - 1];
    forall i | 0 <= i < |init|
      ensures init[i] == answers[i] && init[i].questionId != answers[|answers| - 1].questionId
    {
    }
  }

  lemma {:induction false} EarnedBound(answers: seq<Answer>, table: seq<Question>, quizId: int)
    requires UniqueIds(table) && NonNegativePoints(table)
    requires DistinctQuestions(answers) && AnswersInQuiz(answers, table, quizId)
    requires EarnedPoints(answers, table).Success?
    ensures 0 <= EarnedPoints(answers, table).value <= PointsOf(table, quizId, AnsweredIds(answers))
  {
    if answers != [] {
      var n := |answers| - 1;
      var init := answers[..n];
      var last := answers[n];
      EarnedSplit(answers, table);
      var e := EarnedPoints(init, table).value;
      var p := AnswerPoints(last.questionId, last.answer, table).value;
      InitAnswers(answers, table, quizId);
      EarnedBound(init, table, quizId);
      AnsweredIdsSnoc(answers);
      PointsOfAdd(table, quizId, AnsweredIds(init), last.questionId);
      AnswerPointsBetween(last.questionId, last.answer, table);
      var q := FindQuestion(table, last.questionId).value;
      var k :| 0 <= k < |table| && table[k] == q;
      assert 0 <= p <= q.points;
    } else {
      PointsOfNonNegative(table, quizId, AnsweredIds(answers));
    }
  }

  lemma AnswerPointsBetween(questionId: int, answer: Value, table: seq<Question>)
    requires AnswerPoints(questionId, answer, table).Success?
    ensures FindQuestion(table, questionId).Some?
    ensures AnswerPoints(questionId, answer, table).value in {0, FindQuestion(table, questionId).value.points}
  {
  }

  /** Adding the id of one question of the quiz adds exactly its points. */
  lemma {:induction false} PointsOfAdd(table: seq<Question>, quizId: int, ids: set<int>, x: int)
    requires UniqueIds(table) && x !in ids
    requires FindQuestion(table, x).Some? && FindQuestion(table, x).value.quizId == quizId
    ensures PointsOf(table, quizId, ids + {x}) == PointsOf(table, quizId, ids) + FindQuestion(table, x).value.points
  {
    assert UniqueIds(table[1..]) by {
      forall i, j | 0 <= i < j < |table[1..]| ensures table[1..][i].id != table[1..][j].id {
        assert table[1..][i] == table[i + 1] && table[1..][j] == table[j + 1];
      }
    }
    if table[0].id == x {
      PointsOfAbsent(table[1..], quizId, ids, x);
    } else {
      PointsOfAdd(table[1..], quizId, ids, x);
    }
  }

  lemma {:induction false} PointsOfAbsent(table: seq<Question>, quizId: int, ids: set<int>, x: int)
    requires forall i :: 0 <= i < |table| ==> table[i].id != x
    ensures PointsOf(table, quizId, ids + {x}) == PointsOf(table, quizId, ids)
  {
    if table != [] {
      PointsOfAbsent(table[1..], quizId, ids, x);
    }
  }

  lemma {:induction false} PointsOfNonNegative(table: seq<Question>, quizId: int, ids: set<int>)
    requires NonNegativePoints(table)
    ensures PointsOf(table, quizId, ids) >= 0
  {
    if table != [] {
      PointsOfNonNegative(table[1..], quizId, ids);
    }
  }

  lemma {:induction false} PointsOfAtMostTotal(table: seq<Question>, quizId: int, ids: set<int>)
    requires NonNegativePoints(table)
    ensures PointsOf(table, quizId, ids) <= TotalPoints(table, quizId)
  {
    if table != [] {
      PointsOfAtMostTotal(table[1..], quizId, ids);
    }
  }

  /** The loop does not deduplicate: answering one 10-point question twice,
      correctly, scores 200. */
  lemma DuplicateAnswersExceedHundred(q: Question, a: Answer)
    requires q.qtype == TrueFalse && q.correctAnswer == List([Bool(true)]) && q.points == 10
    requires a.questionId == q.id && a.answer == List([Bool(true)])
    ensures ScoreOf([a, a], [q], q.quizId) == Success(200)
  {
    TrueFalseIsStrict(q);
    assert FindQuestion([q], q.id) == Some(q);
    assert AnswerPoints(a.questionId, a.answer, [q]) == Success(10);
    var ten: Result<int, Fault> := Success(10);
    assert PointsList([a, a], [q]) == [ten, ten];
    assert [ten, ten][..1] == [ten] && [ten][..0] == [];
    assert SumPoints([ten]) == ten;
    assert EarnedPoints([a, a], [q]) == Success(20);
    assert TotalPoints([q], q.quizId) == 10;
    assert Rounding.Percent(20, 10) == 200;
  }

  /** The denominator is the live question bank: an attempt started when the
      quiz had one question, answered fully and correctly, scores 50 once a
      second question of equal points has been added. */
  lemma LiveBankDenominator(q1: Question, q2: Question, a: Answer)
    requires q1.qtype == TrueFalse && q1.correctAnswer == List([Bool(true)]) && q1.points == 10
    requires q2.quizId == q1.quizId && q2.id != q1.id && q2.points == 10
    requires a.questionId == q1.id && a.answer == List([Bool(true)])
    ensures ScoreOf([a], [q1], q1.quizId) == Success(100)
    ensures ScoreOf([a], [q1, q2], q1.quizId) == Success(50)
  {
    TrueFalseIsStrict(q1);
    assert FindQuestion([q1], q1.id) == Some(q1);
    assert FindQuestion([q1, q2], q1.id) == Some(q1);
    assert AnswerPoints(a.questionId, a.answer, [q1]) == Success(10);
    assert AnswerPoints(a.questionId, a.answer, [q1, q2]) == Success(10);
    var ten: Result<int, Fault> := Success(10);
    assert PointsList([a], [q1]) == [ten];
    assert PointsList([a], [q1, q2]) == [ten];
    assert [ten][..0] == [];
    assert SumPoints([ten]) == ten;
    assert EarnedPoints([a], [q1]) == Success(10);
    assert EarnedPoints([a], [q1, q2]) == Success(10);
    assert [q1, q2][1..] == [q2];
    assert [q2][1..] == [] && [q1][1..] == [];
    assert TotalPoints([q2], q1.quizId) == 10;
    assert TotalPoints([q1], q1.quizId) == 10;
    assert TotalPoints([q1, q2], q1.quizId) == 20;
    assert Rounding.Percent(10, 10) == 100;
    assert Rounding.Percent(10, 20) == 50;
  }
}
