/**
 * Quiz questions and the answer judge `isCorrectAnswer`
 * (backend/app/Models/QuizQuestion.php). The `options` and `correct_answer`
 * columns are JSON cast to PHP arrays; whatever JSON they hold (a list, a bare
 * number, a string, null) arrives here as a PhpValue.Value.
 */
module QuizQuestions {
  import opened Wrappers
  import opened PhpValue
  import Text

  const MultipleChoice: string := "multiple_choice"
  const TrueFalse: string := "true_false"
  const ShortAnswer: string := "short_answer"

  datatype Question = Question(
    id: int,
    quizId: int,
    text: string,
    qtype: string,
    options: Value,
    correctAnswer: Value,
    explanation: Option<string>,
    points: int,
    order: int)

  /** Ways judging an answer can throw instead of answering. Each aborts the request. */
  datatype Fault =
    | InArrayOnNonArray        // in_array() given a non-array haystack: a TypeError in PHP 8
    | ArrayToStringConversion  // (string) of an array: a warning, raised as ErrorException by Laravel
    | NullQuestion             // a method called on a question that was not found (null): an Error
    | MethodOnCollection       // a question method called on the Collection find() returns for an array key

  /** `$v[0] ?? $default`. */
  function OffsetOr(v: Value, default: Value): Value {
    var o := Offset0(v);
    if o == Null then default else o
  }

  /** The multiple-choice branch: it throws only when a string answer meets a
      non-array correct_answer, and a bool, null or array answer is never right. */
  function CheckMultipleChoice(q: Question, answer: Value): (r: Result<bool, Fault>)
    ensures r.Failure? ==> r.error == InArrayOnNonArray && Unwrap(answer).Str? && !q.correctAnswer.List?
    ensures Unwrap(answer).Bool? || Unwrap(answer).Null? || Unwrap(answer).List? ==> r == Success(false)
  {
    var provided := Unwrap(answer);
    var correct := Offset0(q.correctAnswer);
    if IsNumeric(provided) && IsNumeric(correct) then
      Success(IntVal(provided) == IntVal(correct))
    else if IsNumeric(provided) && correct.Str? then
      var idx := IntVal(provided);
      Success(Isset(q.options, idx) && At(q.options, idx) == correct)
    else if provided.Str? then
      if q.correctAnswer.List? then Success(provided in q.correctAnswer.items)
      else Failure(InArrayOnNonArray)
    else
      Success(false)
  }

  /** The true/false branch: identity with the first canonical element. A
      canonical answer that is neither an array nor a string has no `[0]`,
      so only an absent answer matches it. */
  function CheckTrueFalse(q: Question, answer: Value): (r: bool)
    ensures q.correctAnswer.List? && q.correctAnswer.items != [] ==> (r <==> Unwrap(answer) == q.correctAnswer.items[0])
    ensures !q.correctAnswer.List? && !q.correctAnswer.Str? ==> (r <==> Unwrap(answer) == Null)
  {
    Unwrap(answer) == Offset0(q.correctAnswer)
  }

  /** The short-answer comparison key: (string), then trim, then strtolower. */
  function Normalise(v: Value): Result<string, Fault> {
    if v.List? then Failure(ArrayToStringConversion)
    else Success(Text.Lower(Trim(ToPhpString(v))))
  }

  /** The short-answer branch: it throws only when one side's first element is an array. */
  function CheckShortAnswer(q: Question, answer: Value): (r: Result<bool, Fault>)
    ensures r.Failure? ==> r.error == ArrayToStringConversion
  {
    var provided := if answer.List? then OffsetOr(answer, Str("")) else if answer == Null then Str("") else answer;
    var correct := OffsetOr(q.correctAnswer, Str(""));
    match Normalise(provided)
    case Failure(f) => Failure(f)
    case Success(p) =>
      match Normalise(correct)
      case Failure(f) => Failure(f)
      case Success(c) => Success(p == c)
  }

  /** isCorrectAnswer($answer): dispatch on the question type; an unknown type is never correct. */
  function IsCorrectAnswer(q: Question, answer: Value): (r: Result<bool, Fault>)
    ensures r.Failure? ==> (q.qtype == MultipleChoice && r.error == InArrayOnNonArray) ||
                           (q.qtype == ShortAnswer && r.error == ArrayToStringConversion)
  {
    if q.qtype == MultipleChoice then CheckMultipleChoice(q, answer)
    else if q.qtype == TrueFalse then Success(CheckTrueFalse(q, answer))
    else if q.qtype == ShortAnswer then CheckShortAnswer(q, answer)
    else Success(false)
  }

  // ---------------------------------------------------------------------
  // Multiple choice

  /** Two numeric sides are compared as truncated integers. */
  lemma MultipleChoiceNumericPair(q: Question, answer: Value)
    requires q.qtype == MultipleChoice
    requires IsNumeric(Unwrap(answer)) && IsNumeric(Offset0(q.correctAnswer))
    ensures IsCorrectAnswer(q, answer) == Success(IntVal(Unwrap(answer)) == IntVal(Offset0(q.correctAnswer)))
  {
  }

  /** "2.5", bare or wrapped, matches the canonical index 2. */
  lemma DecimalMatchesIndex(q: Question)
    requires q.qtype == MultipleChoice && q.correctAnswer == List([Int(2)])
    ensures IsCorrectAnswer(q, Str("2.5")) == Success(true)
    ensures IsCorrectAnswer(q, List([Str("2.5")])) == Success(true)
  {
    DecimalStringExample();
    IntValOfInt(2);
  }

  /** A numeric answer against a string canonical answer picks an option by
      index: correct iff the index is in range and that option is the canonical
      string itself. */
  lemma MultipleChoiceIndexAgainstText(q: Question, answer: Value)
    requires q.qtype == MultipleChoice && q.options.List?
    requires IsNumeric(Unwrap(answer))
    requires Offset0(q.correctAnswer).Str? && !IsNumeric(Offset0(q.correctAnswer))
    ensures var k := IntVal(Unwrap(answer));
      IsCorrectAnswer(q, answer) ==
        Success(0 <= k < |q.options.items| && q.options.items[k] == Offset0(q.correctAnswer))
  {
  }

  /** An index outside the option list is incorrect. */
  lemma MultipleChoiceOutOfRange(q: Question, k: int)
    requires q.qtype == MultipleChoice && q.options.List?
    requires Offset0(q.correctAnswer).Str? && !IsNumeric(Offset0(q.correctAnswer))
    requires k < 0 || k >= |q.options.items|
    ensures IsCorrectAnswer(q, Int(k)) == Success(false)
    ensures IsCorrectAnswer(q, List([Int(k)])) == Success(false)
  {
  }

  /** A non-numeric string answer is correct iff it is identical to some element
      of the whole correct_answer list; a non-list correct_answer makes
      in_array throw. */
  lemma MultipleChoiceText(q: Question, s: string)
    requires q.qtype == MultipleChoice && !IsNumeric(Str(s))
    ensures q.correctAnswer.List? ==>
      IsCorrectAnswer(q, Str(s)) == Success(exists k :: 0 <= k < |q.correctAnswer.items| && q.correctAnswer.items[k] == Str(s))
    ensures !q.correctAnswer.List? ==> IsCorrectAnswer(q, Str(s)) == Failure(InArrayOnNonArray)
  {
    if q.correctAnswer.List? {
      var items := q.correctAnswer.items;
      if Str(s) in items {
        var k :| 0 <= k < |items| && items[k] == Str(s);
      }
    }
  }

  /** A bool, null or empty-list submission is never a correct multiple-choice answer. */
  lemma MultipleChoiceOtherValues(q: Question, answer: Value)
    requires q.qtype == MultipleChoice
    requires answer.Bool? || answer.Null? || answer == List([]) || Unwrap(answer).Bool? || Unwrap(answer).Null?
    ensures IsCorrectAnswer(q, answer) == Success(false)
  {
  }

  // ---------------------------------------------------------------------
  // Every type

  /** One level of wrapping does not matter: x and [x] get the same verdict for
      every question type, whenever x is not itself an array. */
  lemma WrappingInvariance(q: Question, x: Value)
    requires !x.List?
    ensures IsCorrectAnswer(q, x) == IsCorrectAnswer(q, List([x]))
  {
  }

  /** A question of any other type is never answered correctly. */
  lemma UnknownTypeIncorrect(q: Question, answer: Value)
    requires q.qtype != MultipleChoice && q.qtype != TrueFalse && q.qtype != ShortAnswer
    ensures IsCorrectAnswer(q, answer) == Success(false)
  {
  }

  // ---------------------------------------------------------------------
  // True / false

  /** True/false compares with `===`: the string "True" and the int 1 are not `true`. */
  lemma TrueFalseIsStrict(q: Question)
    requires q.qtype == TrueFalse && q.correctAnswer == List([Bool(true)])
    ensures IsCorrectAnswer(q, Bool(true)) == Success(true)
    ensures IsCorrectAnswer(q, List([Bool(true)])) == Success(true)
    ensures IsCorrectAnswer(q, Str("True")) == Success(false)
    ensures IsCorrectAnswer(q, Str("true")) == Success(false)
    ensures IsCorrectAnswer(q, Int(1)) == Success(false)
  {
  }

  /** True/false never throws, and is correct exactly for the identical value. */
  lemma TrueFalseIdentity(q: Question, answer: Value)
    requires q.qtype == TrueFalse
    ensures IsCorrectAnswer(q, answer).Success?
    ensures IsCorrectAnswer(q, answer).value <==> Unwrap(answer) == Offset0(q.correctAnswer)
  {
  }

  // ---------------------------------------------------------------------
  // Short answer

  /** Only the first canonical element counts; alternatives after it are ignored. */
  lemma ShortAnswerFirstOnly(q: Question, s: string, c: string, rest: seq<Value>)
    requires q.qtype == ShortAnswer && q.correctAnswer == List([Str(c)] + rest)
    ensures IsCorrectAnswer(q, Str(s)) == Success(Text.Lower(Trim(s)) == Text.Lower(Trim(c)))
  {
  }

  /** A missing answer (null, or an empty list) is compared as the empty string. */
  lemma ShortAnswerAbsentIsEmpty(q: Question)
    requires q.qtype == ShortAnswer
    ensures IsCorrectAnswer(q, Null) == IsCorrectAnswer(q, Str(""))
    ensures IsCorrectAnswer(q, List([])) == IsCorrectAnswer(q, Str(""))
    ensures IsCorrectAnswer(q, List([Null])) == IsCorrectAnswer(q, Str(""))
  {
  }

  /** Surrounding whitespace and upper case in the submission never change the verdict. */
  lemma ShortAnswerIgnoresCaseAndPadding(q: Question, s: string, left: string, right: string)
    requires q.qtype == ShortAnswer
    requires forall i :: 0 <= i < |left| ==> IsTrimChar(left[i])
    requires forall i :: 0 <= i < |right| ==> IsTrimChar(right[i])
    ensures IsCorrectAnswer(q, Str(left + Text.Upper(s) + right)) == IsCorrectAnswer(q, Str(s))
  {
    var u := Text.Upper(s);
    TrimPadded(left, u, right);
    TrimUpper(s);
    LowerUpper(Trim(s));
  }

  lemma TrimPadded(left: string, x: string, right: string)
    requires forall i :: 0 <= i < |left| ==> IsTrimChar(left[i])
    requires forall i :: 0 <= i < |right| ==> IsTrimChar(right[i])
    ensures Trim(left + x + right) == Trim(x)
  {
    assert left + x + right == left + (x + right);
    TrimLeftPadded(left, x + right);
    TrimLeftAppend(x, right);
    if TrimLeft(x) != [] {
      TrimRightPadded(TrimLeft(x), right);
    }
  }

  lemma {:induction false} AllTrimLeft(p: string)
    requires forall i :: 0 <= i < |p| ==> IsTrimChar(p[i])
    ensures TrimLeft(p) == []
  {
    if p != [] {
      AllTrimLeft(p[1..]);
    }
  }

  lemma {:induction false} TrimLeftPadded(p: string, y: string)
    requires forall i :: 0 <= i < |p| ==> IsTrimChar(p[i])
    ensures TrimLeft(p + y) == TrimLeft(y)
  {
    if p != [] {
      assert (p + y)[1..] == p[1..] + y;
      TrimLeftPadded(p[1..], y);
    } else {
      assert p + y == y;
    }
  }

  lemma {:induction false} TrimRightPadded(y: string, p: string)
    requires forall i :: 0 <= i < |p| ==> IsTrimChar(p[i])
    ensures TrimRight(y + p) == TrimRight(y)
  {
    if p != [] {
      var q := p[..|p| - 1];
      assert (y + p)[..|y + p| - 1] == y + q;
      TrimRightPadded(y, q);
    } else {
      assert y + p == y;
    }
  }

  /** Left-trimming a string followed by padding keeps the padding unless the string was all padding. */
  lemma {:induction false} TrimLeftAppend(x: string, p: string)
    requires forall i :: 0 <= i < |p| ==> IsTrimChar(p[i])
    ensures TrimLeft(x + p) == if TrimLeft(x) == [] then [] else TrimLeft(x) + p
  {
    if x == [] {
      assert x + p == p;
      AllTrimLeft(p);
    } else if IsTrimChar(x[0]) {
      assert (x + p)[1..] == x[1..] + p;
      TrimLeftAppend(x[1..], p);
    }
  }

  /** Upper-casing and trimming commute: case mapping never creates or removes whitespace. */
  lemma TrimUpper(s: string)
    ensures Trim(Text.Upper(s)) == Text.Upper(Trim(s))
  {
    TrimLeftUpper(s);
    TrimRightUpper(TrimLeft(s));
  }

  lemma {:induction false} TrimLeftUpper(s: string)
    ensures TrimLeft(Text.Upper(s)) == Text.Upper(TrimLeft(s))
  {
    if s != [] {
      assert Text.Upper(s)[1..] == Text.Upper(s[1..]);
      TrimLeftUpper(s[1..]);
    }
  }

  lemma {:induction false} TrimRightUpper(s: string)
    ensures TrimRight(Text.Upper(s)) == Text.Upper(TrimRight(s))
  {
    if s != [] {
      var t := s[..|s| - 1];
      assert Text.Upper(s)[..|s| - 1] == Text.Upper(t);
      TrimRightUpper(t);
    }
  }

  lemma LowerUpper(s: string)
    ensures Text.Lower(Text.Upper(s)) == Text.Lower(s)
  {
  }

  // ---------------------------------------------------------------------
  // The two correct-answer encodings

  /** Questions written by the course-quiz upsert route store a bare integer
      index. Its `[0]` is null, so no submission is ever judged correct: an int
      or a bool is incorrect and a string makes in_array throw. */
  lemma BareIndexNeverCorrect(q: Question, k: int, answer: Value)
    requires q.qtype == MultipleChoice && q.correctAnswer == Int(k)
    ensures IsCorrectAnswer(q, answer) != Success(true)
    ensures Unwrap(answer).Str? ==> IsCorrectAnswer(q, answer) == Failure(InArrayOnNonArray)
  {
  }

  /** With an index as canonical answer, submitting the option's own text is
      judged incorrect: the encodings are not interchangeable. */
  lemma OptionTextAgainstIndex(q: Question)
    requires q.qtype == MultipleChoice
    requires q.options == List([Str("a"), Str("b")]) && q.correctAnswer == List([Int(1)])
    ensures IsCorrectAnswer(q, Int(1)) == Success(true)
    ensures IsCorrectAnswer(q, Str("b")) == Success(false)
  {
    IntValOfInt(1);
    NotNumericLetter();
  }

  lemma NotNumericLetter()
    ensures !IsNumeric(Str("b"))
  {
    NotNumericStart("b");
  }
}
