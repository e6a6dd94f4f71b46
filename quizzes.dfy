/**
 * Quizzes (backend/app/Models/Quiz.php): whether a user may start another
 * attempt, the user's best score, and the question list in `order`.
 */
module Quizzes {
  import opened Wrappers
  import opened QuizQuestions

  datatype Quiz = Quiz(
    id: int,
    courseId: int,
    title: string,
    description: Option<string>,
    timeLimit: int,
    maxAttempts: int,
    passingScore: int,
    isActive: bool,
    order: int)

  /** canUserTake: an active quiz, and either unlimited attempts (0) or fewer
      attempts so far than allowed. In-progress attempts count too. */
  predicate CanUserTake(quiz: Quiz, attemptCount: nat) {
    quiz.isActive && (quiz.maxAttempts == 0 || attemptCount < quiz.maxAttempts)
  }

  lemma InactiveNeverTaken(quiz: Quiz, attemptCount: nat)
    requires !quiz.isActive
    ensures !CanUserTake(quiz, attemptCount)
  {
  }

  lemma UnlimitedAlwaysTaken(quiz: Quiz, attemptCount: nat)
    requires quiz.isActive && quiz.maxAttempts == 0
    ensures CanUserTake(quiz, attemptCount)
  {
  }

  lemma LimitedIffBelow(quiz: Quiz, attemptCount: nat)
    requires quiz.isActive && quiz.maxAttempts != 0
    ensures CanUserTake(quiz, attemptCount) <==> attemptCount < quiz.maxAttempts
  {
  }

  /** More attempts never re-open a quiz that was closed to the user. */
  lemma CanUserTakeMonotone(quiz: Quiz, m: nat, n: nat)
    requires m <= n && !CanUserTake(quiz, m)
    ensures !CanUserTake(quiz, n)
  {
  }

  // ---------------------------------------------------------------------
  // Best score: MAX(score) over the user's attempts, NULL scores ignored, ?? 0

  /** SQL MAX over nullable scores: None when no score is present. */
  function MaxScore(scores: seq<Option<int>>): (m: Option<int>)
    ensures m.None? <==> forall i :: 0 <= i < |scores| ==> scores[i].None?
    ensures m.Some? ==> forall i :: 0 <= i < |scores| && scores[i].Some? ==> scores[i].value <= m.value
    ensures m.Some? ==> exists i :: 0 <= i < |scores| && scores[i] == m
  {
    if scores == [] then None
    else
      var rest := MaxScore(scores[1..]);
      var m :=
        if scores[0].None? then rest
        else if rest.Some? && rest.value > scores[0].value then rest
        else scores[0];
      assert forall i :: 1 <= i < |scores| ==> scores[i] == scores[1..][i - 1];
      assert m.Some? ==> (m == scores[0] || exists i :: 1 <= i < |scores| && scores[i] == m);
      m
  }

  /** getUserBestScore: the largest score recorded, or 0 when there is none. */
  function GetUserBestScore(scores: seq<Option<int>>): int {
    MaxScore(scores).GetOr(0)
  }

  lemma BestScoreIsMaximum(scores: seq<Option<int>>)
    ensures forall i :: 0 <= i < |scores| && scores[i].Some? ==> scores[i].value <= GetUserBestScore(scores)
    ensures (forall i :: 0 <= i < |scores| ==> scores[i].None?) ==> GetUserBestScore(scores) == 0
    ensures (exists i :: 0 <= i < |scores| && scores[i].Some?) ==>
      exists i :: 0 <= i < |scores| && scores[i] == Some(GetUserBestScore(scores))
  {
  }

  // ---------------------------------------------------------------------
  // questions(): the quiz's questions ordered by `order`

  predicate SortedByOrder(qs: seq<Question>) {
    forall i, j :: 0 <= i < j < |qs| ==> qs[i].order <= qs[j].order
  }

  /** Insert q before the first question with a larger order (after equal ones). */
  function InsertByOrder(q: Question, qs: seq<Question>): seq<Question> {
    if qs == [] then [q]
    else if q.order <= qs[0].order then [q] + qs
    else [qs[0]] + InsertByOrder(q, qs[1..])
  }

  /** Insertion adds exactly q. */
  lemma {:induction false} InsertByOrderPermutes(q: Question, qs: seq<Question>)
    ensures multiset(InsertByOrder(q, qs)) == multiset(qs) + multiset{q}
  {
    if qs != [] && q.order > qs[0].order {
      InsertByOrderPermutes(q, qs[1..]);
      assert qs == [qs[0]] + qs[1..];
    }
  }

  /** Insertion keeps every order at or above a common lower bound. */
  lemma {:induction false} InsertByOrderAbove(q: Question, qs: seq<Question>, lo: int)
    requires q.order >= lo
    requires forall k :: 0 <= k < |qs| ==> qs[k].order >= lo
    ensures forall k :: 0 <= k < |InsertByOrder(q, qs)| ==> InsertByOrder(q, qs)[k].order >= lo
  {
    if qs != [] && q.order > qs[0].order {
      InsertByOrderAbove(q, qs[1..], lo);
      var rest := InsertByOrder(q, qs[1..]);
      assert InsertByOrder(q, qs) == [qs[0]] + rest;
    }
  }

  /** Insertion keeps a sorted list sorted. */
  lemma {:induction false} InsertByOrderSorted(q: Question, qs: seq<Question>)
    requires SortedByOrder(qs)
    ensures SortedByOrder(InsertByOrder(q, qs))
  {
    if qs == [] {
    } else if q.order <= qs[0].order {
      var r := [q] + qs;
      forall i, j | 0 <= i < j < |r|
        ensures r[i].order <= r[j].order
      {
        if i == 0 {
          assert r[j] == qs[j - 1];
          assert qs[0].order <= qs[j - 1].order;
        } else {
          assert r[i] == qs[i - 1] && r[j] == qs[j - 1];
        }
      }
    } else {
      var rest := InsertByOrder(q, qs[1..]);
      InsertByOrderSorted(q, qs[1..]);
      InsertByOrderAbove(q, qs[1..], qs[0].order);
      var r := [qs[0]] + rest;
      forall i, j | 0 <= i < j < |r|
        ensures r[i].order <= r[j].order
      {
        if i == 0 {
          assert r[j] == rest[j - 1];
        } else {
          assert r[i] == rest[i - 1] && r[j] == rest[j - 1];
        }
      }
    }
  }

  /** Insertion sort on `order`; ties keep their table order (SQL leaves the
      order of ties unspecified, so any fixed choice is one the source allows). */
  function SortByOrder(qs: seq<Question>): seq<Question> {
    if qs == [] then [] else InsertByOrder(qs[0], SortByOrder(qs[1..]))
  }

  /** Two questions with the same `order` come out as stored. */
  lemma TiesKeepTableOrder(a: Question, b: Question)
    requires a.order == b.order
    ensures SortByOrder([a, b]) == [a, b]
  {
    assert [a, b][1..] == [b];
    assert SortByOrder([b]) == [b];
  }

  /** The sorted list is ordered and a permutation of the input. */
  lemma {:induction false} SortByOrderSorted(qs: seq<Question>)
    ensures SortedByOrder(SortByOrder(qs))
    ensures multiset(SortByOrder(qs)) == multiset(qs)
  {
    if qs != [] {
      SortByOrderSorted(qs[1..]);
      InsertByOrderSorted(qs[0], SortByOrder(qs[1..]));
      InsertByOrderPermutes(qs[0], SortByOrder(qs[1..]));
      assert qs == [qs[0]] + qs[1..];
    }
  }

  function QuestionsOfQuiz(table: seq<Question>, quizId: int): (r: seq<Question>)
    ensures forall i :: 0 <= i < |r| ==> r[i].quizId == quizId
    ensures forall q :: q in table && q.quizId == quizId ==> q in r
    ensures forall q :: q in r ==> q in table
    ensures |r| <= |table|
  {
    if table == [] then []
    else
      var rest := QuestionsOfQuiz(table[1..], quizId);
      assert forall q :: q in table ==> q == table[0] || q in table[1..];
      if table[0].quizId == quizId then [table[0]] + rest else rest
  }

  /** questions(): this quiz's questions ordered by `order`. */
  function Questions(table: seq<Question>, quizId: int): seq<Question> {
    SortByOrder(QuestionsOfQuiz(table, quizId))
  }

  /** questions() holds this quiz's questions, every one of them and nothing
      else, each as often as in the table, in ascending order. */
  lemma QuestionsOrdered(table: seq<Question>, quizId: int)
    ensures SortedByOrder(Questions(table, quizId))
    ensures multiset(Questions(table, quizId)) == multiset(QuestionsOfQuiz(table, quizId))
    ensures forall q :: q in Questions(table, quizId) <==> q in table && q.quizId == quizId
  {
    var own := QuestionsOfQuiz(table, quizId);
    SortByOrderSorted(own);
    assert forall q :: q in Questions(table, quizId) <==> q in multiset(own);
  }
}
