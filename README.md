# LMS platform: quiz engine, enrollment progress and access rules in Dafny

This project models the core of a learning-management system: a Laravel API
with a React client. Instructors publish courses made of lessons and quizzes.
Students enroll, mark lessons complete and take quizzes. The model covers
five parts of it:

- **Answer judging.** `QuizQuestion::isCorrectAnswer` covers multiple
  choice, true/false and short answer, with PHP's `is_numeric`, `intval`,
  loose `==`, strict `===`, `in_array`, `trim` and `strtolower` written out
  (modules `PhpValue`, `QuizQuestions`).
- **Scoring.** There are two scorers:
  - `QuizAttempt::calculateScore` is points-weighted (`QuizAttempts`).
  - The course-quiz route scores by question count (`CourseQuizRoutes`).
- **The attempt lifecycle.** Starting an attempt is limited by
  `canUserTake`. Submitting is once only and all-or-nothing (`Quizzes`,
  `QuizController`, over the in-memory store `Store.Db`).
- **Enrollment progress.** This covers `Enrollment::updateProgress`, the
  progress a lesson completion recomputes, and the student progress route.
  These two writers disagree below 100% (`Enrollments`, `LessonController`,
  `ProgressRoute`).
- **Access control.** This covers `hasAccessToCourse`, the role
  middleware, the role predicates, course enrollment and the authoring
  routes (`Access`, `RoleMiddleware`, `Users`, `Courses`,
  `CourseController`, `AdminQuizRoutes`).
- **The client helpers:**
  - the authentication reducer (`AuthReducer`)
  - the YouTube embed-URL builder (`YouTube`)
  - `formatDuration`, `getInitials` and `truncateText` (`ClientUtils`)

The database is a class `Store.Db` whose tables are sequences. An
`Enrollment` and a `QuizAttempt` are classes, because the source updates
their fields in place. The other rows are datatypes, and an update replaces
them in their table. Route handlers are methods over the store that return
the HTTP status as `Http.Status`. Anything that can make PHP throw while a
request is served is a `Fault` in a `Result`.

## Model

| member | source | states |
|---|---|---|
| Rules.Required | backend/app/Http/Controllers/QuizController.php:215-216 | Laravel's `required`: not null, not a blank string and not an empty array |
| Rules.BlankStrings | backend/app/Http/Controllers/CourseController.php:96-103 | the blank strings, which every rule but `required` skips, are exactly those made only of trim() characters, "" and " " included; a string starting with another character is not blank |
| Rules.IntegerNotBlank | backend/app/Http/Controllers/CourseController.php:101 | no blank string passes `integer` |
| Rules.StoredInteger | backend/app/Http/Controllers/CourseController.php:119 | an integer column written with a value that passed `integer` holds that integer; one written with a skipped blank string reads back as 0 |
| Rules.IntegerRule | backend/app/Http/Controllers/CourseController.php:99 | Laravel's `integer`: an int passes as itself, a string only when it is the decimal text of the integer it yields, and null, booleans and arrays fail |
| QuizQuestions.IsCorrectAnswer | backend/app/Models/QuizQuestion.php:53-89 | dispatches on the type; it can throw only for multiple choice (`in_array` on a non-array) and short answer (an array cast to string), and an unknown type is never correct |
| QuizQuestions.CheckMultipleChoice | backend/app/Models/QuizQuestion.php:55-75 | throws only when a string answer meets a non-array `correct_answer`; a bool, null or array answer is never correct |
| QuizQuestions.CheckTrueFalse | backend/app/Models/QuizQuestion.php:77-80 | with an array `correct_answer`, correct exactly when the unwrapped answer is identical to its first element; with a canonical answer that is neither an array nor a string, only an absent answer matches |
| QuizQuestions.CheckShortAnswer | backend/app/Models/QuizQuestion.php:83-86 | the only fault it raises is the array-to-string conversion |
| QuizQuestions.MultipleChoiceNumericPair | backend/app/Models/QuizQuestion.php:55-64 | when both the provided value (first element if wrapped) and `correct_answer[0]` are numeric, the verdict is whether their `intval`s are equal |
| QuizQuestions.DecimalMatchesIndex | backend/app/Models/QuizQuestion.php:57-64 | "2.5", bare or wrapped, is judged correct against canonical index 2, because `intval` truncates |
| QuizQuestions.MultipleChoiceIndexAgainstText | backend/app/Models/QuizQuestion.php:66-69 | a numeric answer against a non-numeric string canonical answer is correct exactly when the option at that index exists and is identical to the canonical string |
| QuizQuestions.MultipleChoiceOutOfRange | backend/app/Models/QuizQuestion.php:66-69 | an index outside the option list is judged incorrect, bare or wrapped |
| QuizQuestions.MultipleChoiceText | backend/app/Models/QuizQuestion.php:71-73 | a non-numeric string answer is correct exactly when it is identical to some element of `correct_answer`; when `correct_answer` is not an array, `in_array` throws |
| QuizQuestions.MultipleChoiceOtherValues | backend/app/Models/QuizQuestion.php:57-74 | a bool, null or empty-list submission is never a correct multiple-choice answer |
| QuizQuestions.WrappingInvariance | backend/app/Models/QuizQuestion.php:57-84 | for every question type, a scalar `x` and the one-element list `[x]` get the same verdict |
| QuizQuestions.TrueFalseIsStrict | backend/app/Models/QuizQuestion.php:77-80 | against canonical `true`: `true` and `[true]` are correct; "True", "true" and 1 are not |
| QuizQuestions.TrueFalseIdentity | backend/app/Models/QuizQuestion.php:77-80 | true/false never throws, and is correct exactly when the unwrapped answer is identical to `correct_answer[0] ?? null` |
| QuizQuestions.ShortAnswerFirstOnly | backend/app/Models/QuizQuestion.php:83-86 | only the first canonical element counts; the verdict is equality of `strtolower(trim(..))` of both sides |
| QuizQuestions.ShortAnswerAbsentIsEmpty | backend/app/Models/QuizQuestion.php:84 | a null, `[]` or `[null]` submission is compared as the empty string |
| QuizQuestions.ShortAnswerIgnoresCaseAndPadding | backend/app/Models/QuizQuestion.php:85 | surrounding trim characters and upper case in the submission never change the verdict |
| QuizQuestions.UnknownTypeIncorrect | backend/app/Models/QuizQuestion.php:88 | a question of any other type is never answered correctly |
| QuizQuestions.BareIndexNeverCorrect | backend/app/Models/QuizQuestion.php:59-72 | a multiple-choice question whose `correct_answer` is a bare integer is never judged correct; a string answer makes `in_array` throw |
| QuizQuestions.OptionTextAgainstIndex | backend/app/Models/QuizQuestion.php:62-73 | with an index as canonical answer, the index is correct but the option's own text is not |
| PhpValue.IntValOfInt | backend/app/Models/QuizQuestion.php:63 | an integer is numeric and `intval` gives it back |
| PhpValue.IsNumeric | backend/app/Models/QuizQuestion.php:62 | `is_numeric`: an int, or a string matching PHP's numeric grammar; its behaviour is stated by IntToStringIsNumeric, LeadingSpaceParse and the NotNumeric lemmas |
| PhpValue.IntVal | backend/app/Models/QuizQuestion.php:63 | `intval` of a numeric value, truncated toward zero; stated by IntValOfInt, IntToStringIsNumeric and the string examples |
| PhpValue.IntToStringIsNumeric | backend/app/Models/QuizQuestion.php:62-63 | the decimal text of any integer is a numeric string whose `intval` is that integer |
| PhpValue.LeadingSpaceParse | backend/app/Models/QuizQuestion.php:62 | leading whitespace does not change how `is_numeric` reads a string |
| PhpValue.DecimalStringExample | backend/app/Models/QuizQuestion.php:62-63 | "2.5" is numeric and its `intval` is 2 |
| PhpValue.PaddedStringExample | backend/app/Models/QuizQuestion.php:62-63 | " 7" is numeric and its `intval` is 7 |
| PhpValue.ExponentStringExample | backend/app/Models/QuizQuestion.php:62-63 | "1e3" is numeric and its `intval` is 1000 |
| PhpValue.NotNumericStart | backend/app/Models/QuizQuestion.php:62-71 | a string starting with anything but whitespace, a digit, a sign or a dot is not numeric |
| PhpValue.NotNumericWord | backend/app/Models/QuizQuestion.php:71 | "abc" is not numeric |
| PhpValue.NotNumericEmptyOrDot | backend/app/Models/QuizQuestion.php:62 | "", "." and "1e" are not numeric |
| PhpValue.Trim | backend/app/Models/QuizQuestion.php:85 | `trim` leaves no trim character at either end of its result |
| PhpValue.TrimEmpty | backend/app/Models/QuizQuestion.php:85 | `trim` returns "" exactly for strings made only of trim characters |
| PhpValue.Unwrap | backend/app/Models/QuizQuestion.php:57-78 | a value that is not a list is its own provided value |
| PhpValue.LooseEq | backend/routes/api.php:846 | PHP 8 `==`; its properties are stated by LooseEqInts, LooseEqSymmetric, LooseEqReflexive, LooseEqNotTransitive and the string lemmas below |
| PhpValue.LooseEqInts | backend/routes/api.php:846 | between integers, `==` is equality |
| PhpValue.LooseEqSymmetric | backend/routes/api.php:846 | `==` is symmetric |
| PhpValue.LooseEqReflexive | backend/routes/api.php:846 | every value is `==` to itself, lists included |
| PhpValue.LooseEqNotTransitive | backend/routes/api.php:846 | `0 == null` and `null == ""`, but `0 != ""` |
| PhpValue.NumericStringsLooseEqual | backend/app/Http/Middleware/RoleMiddleware.php:29 | "10" == "1e1" although the strings differ |
| PhpValue.NumericStringEqualsInt | backend/routes/api.php:846 | "1.0" == 1 |
| PhpValue.WordNotEqualZero | backend/routes/api.php:846 | under PHP 8 rules, "abc" is not `==` 0 |
| QuizAttempts.QuizAttempt.constructor | backend/app/Http/Controllers/QuizController.php:182-187 | a new attempt is in progress: no completion time, score, verdict, count or time taken |
| QuizAttempts.QuizAttempt.IsCompleted | backend/app/Models/QuizAttempt.php:61-64 | `isCompleted`: `completed_at` is set; SubmitAttempt refuses such an attempt with 400 |
| QuizAttempts.QuizAttempt.CalculateScore | backend/app/Models/QuizAttempt.php:69-92 | returns the score of the answers against the live question bank. On success it stores that score, `passed` as score >= passing_score and the correct-answer count. When an answer cannot be judged, it stores nothing |
| QuizAttempts.FindQuestion | backend/app/Models/QuizAttempt.php:75 | the question found has the requested id; none is found only when no question has it |
| QuizAttempts.ScoreFor | backend/app/Models/QuizAttempt.php:80 | 0 without points; otherwise earned/total×100 rounded half up, between 0 and 100 when earned ≤ total, and exactly 100 at full marks |
| QuizAttempts.NoPointsScoresZero | backend/app/Models/QuizAttempt.php:80 | a quiz whose questions carry no points scores 0 |
| QuizAttempts.ScoreIgnoresStoredVerdict | backend/app/Models/QuizAttempt.php:74-78 | the earned points depend only on the stored answers and question ids, never on the stored `is_correct` flag |
| QuizAttempts.ScoreOf | backend/app/Models/QuizAttempt.php:71-80 | the score calculateScore returns, or the first judging fault; stated by NoPointsScoresZero, ScoreIgnoresStoredVerdict, ScoreAtMostHundred and SumPrefixFailure |
| QuizAttempts.ScoreAtMostHundred | backend/app/Models/QuizAttempt.php:71-80 | with unique question ids, no negative points, at most one answer per question and every answer within the quiz, the score is between 0 and 100 |
| QuizAttempts.EarnedBound | backend/app/Models/QuizAttempt.php:74-78 | under the same conditions, the earned points are at most the points of the questions answered |
| QuizAttempts.AnswerPointsBetween | backend/app/Models/QuizAttempt.php:75-76 | a judged answer earns either 0 or its question's points |
| QuizAttempts.PointsOfAtMostTotal | backend/app/Models/QuizAttempt.php:71 | the points of any subset of the quiz's questions are at most `sum('points')` |
| QuizAttempts.DuplicateAnswersExceedHundred | backend/app/Models/QuizAttempt.php:74-80 | the loop does not deduplicate: one 10-point question answered correctly twice scores 200 |
| QuizAttempts.LiveBankDenominator | backend/app/Models/QuizAttempt.php:71-80 | the denominator is the current question bank: adding a second 10-point question halves an earlier full score from 100 to 50 |
| QuizAttempts.SumPrefixFailure | backend/app/Models/QuizAttempt.php:74-78 | once an earlier answer throws, the whole computation fails with that fault |
| Quizzes.CanUserTake | backend/app/Models/Quiz.php:66-72 | `canUserTake`: stated by InactiveNeverTaken, UnlimitedAlwaysTaken, LimitedIffBelow and CanUserTakeMonotone |
| Quizzes.InactiveNeverTaken | backend/app/Models/Quiz.php:68 | an inactive quiz can never be taken |
| Quizzes.UnlimitedAlwaysTaken | backend/app/Models/Quiz.php:71 | an active quiz with `max_attempts` 0 can always be taken |
| Quizzes.LimitedIffBelow | backend/app/Models/Quiz.php:70-71 | with a positive limit, an active quiz can be taken exactly while the attempt count is below the limit |
| Quizzes.CanUserTakeMonotone | backend/app/Models/Quiz.php:66-72 | more attempts never re-open a quiz that was closed to the user |
| Quizzes.MaxScore | backend/app/Models/Quiz.php:79 | SQL MAX: absent exactly when no score is present; otherwise at least every present score and equal to one of them |
| Quizzes.GetUserBestScore | backend/app/Models/Quiz.php:77-80 | `max('score') ?? 0`; stated by BestScoreIsMaximum |
| Quizzes.BestScoreIsMaximum | backend/app/Models/Quiz.php:77-80 | the best score is at least every recorded score, equals one of them when any exists, and is 0 otherwise |
| Quizzes.QuestionsOfQuiz | backend/app/Models/Quiz.php:42-45 | the questions selected are exactly the table's questions of that quiz |
| Quizzes.Questions | backend/app/Models/Quiz.php:42-45 | `questions()`; stated by QuestionsOrdered |
| Quizzes.QuestionsOrdered | backend/app/Models/Quiz.php:42-45 | `questions()` is sorted by `order`, a permutation of the quiz's rows, and contains exactly the quiz's questions |
| Quizzes.SortByOrderSorted | backend/app/Models/Quiz.php:44 | ordering by `order` yields a sorted permutation of its input |
| Quizzes.TiesKeepTableOrder | backend/app/Models/Quiz.php:42-45 | questions with equal `order` are listed in the order they are stored (SQL leaves ties unspecified; the model fixes table order) |
| QuizController.Show | backend/app/Http/Controllers/QuizController.php:55-85 | 403 exactly when the caller has no access. Otherwise it shows every question in order. Students get no correct answers or explanations, plus their attempt count, best score and whether they can take the quiz; other callers see the answers |
| QuizController.StartAttempt | backend/app/Http/Controllers/QuizController.php:164-194 | 404 for an unknown quiz; 400 when `canUserTake` fails; 403 without enrollment; otherwise 201, with one new in-progress attempt appended, the attempt count raised by one and, under a positive `max_attempts`, never past it. Nothing changes on an error |
| QuizController.StartAttemptRevealsAnswers | backend/app/Http/Controllers/QuizController.php:189-193 | a student's `show` hides every correct answer, but the question list `startAttempt` returns carries the stored ones |
| QuizController.FindQuestionByKey | backend/app/Http/Controllers/QuizController.php:227 | `Collection::find` for a scalar key: the question found is loosely equal in id to the key; none is found only when no question's id matches |
| QuizController.SqlIdMatches | backend/app/Http/Controllers/QuizController.php:215 | how the integer id column compares with a bound key in SQL: `true` as 1, an int as itself, a string by the number it spells |
| QuizController.ExistsRule | backend/app/Http/Controllers/QuizController.php:215 | `exists:quiz_questions,id` over the whole question table: a scalar must match a row; an array passes when its distinct matched ids are at least as many as the elements `array_unique` keeps (distinct string forms) |
| QuizController.SingletonArrayKey | backend/app/Http/Controllers/QuizController.php:215 | a one-element array key passes `exists` exactly when its element does |
| QuizController.ArrayKeyNeedsAMatch | backend/app/Http/Controllers/QuizController.php:215 | a non-empty array key passes only if some element matches a row |
| QuizController.ArrayKeyCountsDistinct | backend/app/Http/Controllers/QuizController.php:215 | with only question 5, [5, "5"] passes, while [5, "5.0"] fails although "5.0" matches question 5, and [5, 7] fails |
| QuizController.ValidSubmission | backend/app/Http/Controllers/QuizController.php:213-217 | answers required and an array; each question_id required and existing; each answer required |
| QuizController.ValidSubmissionCases | backend/app/Http/Controllers/QuizController.php:213-217 | a one-entry submission passes exactly when key and answer are required values and the key names some question (for an array, the distinct matched ids reach the number of distinct string forms) |
| QuizController.TrueKeyNeedsQuestionOne | backend/app/Http/Controllers/QuizController.php:215 | with only question 5 in the table, `true` fails `exists` while 5, "5.0" and [5, "5"] pass |
| QuizController.StoredKey | backend/app/Http/Controllers/QuizController.php:232 | the `quiz_question_id` stored for a submitted key |
| QuizController.StoredKeyIsFoundId | backend/app/Http/Controllers/QuizController.php:227-232 | for an int or string key the stored question id is the id of the question `find` matched |
| QuizController.Wrap | backend/app/Http/Controllers/QuizController.php:233 | an answer is stored as a list: lists as they are, anything else as a one-element list |
| QuizController.JudgeEntry | backend/app/Http/Controllers/QuizController.php:227-235 | an array key fails with a method call on a Collection; an unknown question id fails with a null-question fault. A judged entry becomes a row under the stored key (`true` as 1), with the wrapped answer and `isCorrectAnswer`'s verdict; a judging fault is passed on |
| QuizController.TrueKeyStoredAsOne | backend/app/Http/Controllers/QuizController.php:227-235 | a `true` key is judged against question 5 but stored under question 1 |
| QuizController.TrueKeyFollowsRelationOrder | backend/app/Http/Controllers/QuizController.php:201-228 | `find` searches the quiz's questions in `order` order, as the eager-loaded relation lists them, not in table order: a `true` key picks the question with the lower order, which here answers where the other question would throw |
| QuizController.JudgeAll | backend/app/Http/Controllers/QuizController.php:226-236 | the answer loop; stated by JudgeAllJudgesEach and JudgeAllFailureHasCause, and by JudgeEntries for the loop itself |
| QuizController.JudgeAllJudgesEach | backend/app/Http/Controllers/QuizController.php:226-236 | a successful run of the answer loop yields one row per entry, in order, each the judgement of its entry |
| QuizController.JudgeAllFailureHasCause | backend/app/Http/Controllers/QuizController.php:226-236 | a failed run has an entry whose judgement fails |
| QuizController.JudgeEntries | backend/app/Http/Controllers/QuizController.php:226-236 | the loop computes the rows of every entry, or a fault exactly when some entry cannot be judged |
| QuizController.Submits | backend/app/Http/Controllers/QuizController.php:223-262 | the transaction commits exactly when the quiz exists, every entry is judged and calculateScore judges every stored answer |
| QuizController.SubmitAttempt | backend/app/Http/Controllers/QuizController.php:199-263 | 404, 403 (not the caller's), 400 (already completed), 422 (validation) in that order. A valid submission gives 200 exactly when the transaction commits (`Submits`), and 500 otherwise. On success: every answer row appended, completed_at set, time taken as the absolute difference, score and verdict as calculateScore, correct_answers stored, total_questions unchanged. A 500 leaves the store and the attempt as they were |
| QuizController.Finish | backend/app/Http/Controllers/QuizController.php:223-262 | 200 exactly when the transaction commits; then the rows, completion, time taken, score, verdict and correct_answers are written; otherwise nothing is |
| QuizController.Commit | backend/app/Http/Controllers/QuizController.php:223-262 | commits exactly when calculateScore succeeds on the stored answers; it then writes the rows, completion time, score, verdict and correct_answers, and a scoring fault rolls all of them back |
| Enrollments.Enrollment.constructor | backend/app/Http/Controllers/CourseController.php:206-210 | a new enrollment has progress 0 and no completion time |
| Enrollments.Enrollment.IsCompleted | backend/app/Models/Enrollment.php:58-61 | `isCompleted`: `completed_at` is set; MarkAsCompleted establishes it |
| Enrollments.Enrollment.MarkAsCompleted | backend/app/Models/Enrollment.php:66-72 | progress becomes 100 and completed_at now, so the enrollment is completed |
| Enrollments.Enrollment.UpdateProgress | backend/app/Models/Enrollment.php:77-84 | the new progress state is `AfterUpdate` of the old one, about which the lemmas below are proved |
| Enrollments.Clamp | backend/app/Models/Enrollment.php:79 | the result lies in 0..100, equals the input inside that range and the nearer bound outside it |
| Enrollments.AfterUpdate | backend/app/Models/Enrollment.php:77-84 | the state `updateProgress` leaves; stated by UpdateStoresClamped, UpdateCompletes, UpdateKeepsCompletion and CompletionIsPermanent |
| Enrollments.UpdateStoresClamped | backend/app/Models/Enrollment.php:79-83 | the stored progress is always the clamped request, hence within 0..100 |
| Enrollments.UpdateCompletes | backend/app/Models/Enrollment.php:81-83 | a request of 100 or more completes a not-yet-completed enrollment at 100 and now |
| Enrollments.UpdateKeepsCompletion | backend/app/Models/Enrollment.php:81 | an existing completion time is never overwritten or cleared |
| Enrollments.CompletionIsPermanent | backend/app/Models/Enrollment.php:77-84 | after any sequence of updates, a completed enrollment keeps its completion time |
| Enrollments.UpdatesKeepFullMeansCompleted | backend/app/Models/Enrollment.php:77-84 | "progress 100 implies completed" holds after any sequence of updates, and the progress stays within 0..100 |
| Enrollments.CompletedBelowHundredReachable | backend/app/Models/Enrollment.php:79-83 | reaching 100 and then reporting 50 leaves a completed enrollment at 50% |
| ProgressRoute.AfterPut | backend/routes/api.php:560-567 | the state the route saves; stated by PutCompletedIffFull and WritersDisagreeBelowHundred |
| ProgressRoute.PutCompletedIffFull | backend/routes/api.php:559-567 | the route stores the requested progress, and the enrollment is completed exactly when it is 100. An existing completion time is kept at 100, otherwise it is set to now |
| ProgressRoute.WritersDisagreeBelowHundred | backend/routes/api.php:564-566 | from a completed enrollment, 50% keeps the completion under `updateProgress` but clears it under the route |
| ProgressRoute.SetProgress | backend/routes/api.php:547-574 | 404 for an unknown course; otherwise 422 exactly when the progress is not an integer in 0..100, and 200 when it is. The (student, course) enrollment is then created if missing and updated as the route does |
| LessonController.Upserted | backend/app/Http/Controllers/LessonController.php:184-193 | `updateOrCreate` sets completed_at on the (user, lesson) row, adds a row only if the pair had none, and keeps one row per pair; `completed` is not fillable, so it is never set |
| LessonController.MarkTwiceKeepsOneRow | backend/app/Http/Controllers/LessonController.php:184-193 | marking the same lesson again adds no row |
| LessonController.TotalLessons | backend/app/Http/Controllers/LessonController.php:240 | the course's lesson count; stated by CompletedAtMostTotal |
| LessonController.CompletedLessons | backend/app/Http/Controllers/LessonController.php:241-246 | the completed count; stated by CompletedIsDistinctIds, CompletedAtMostTotal and MarkNeverCounts |
| LessonController.MarkNeverCounts | backend/app/Http/Controllers/LessonController.php:184-193 | the upsert never changes any user's completed count for any course, because the `completed` write is dropped |
| LessonController.CourseProgress | backend/app/Http/Controllers/LessonController.php:248 | 0 without lessons; otherwise completed/total×100 rounded half up, at most 100 when completed ≤ total and 100 when all are done |
| LessonController.CompletedIsDistinctIds | backend/app/Http/Controllers/LessonController.php:241-246 | with one row per (user, lesson), the completed count is the number of distinct completed lessons of the course |
| LessonController.CompletedAtMostTotal | backend/app/Http/Controllers/LessonController.php:240-248 | with one row per (user, lesson), the completed count is at most the lesson count, so course progress never exceeds 100 |
| LessonController.UpdateCourseProgress | backend/app/Http/Controllers/LessonController.php:238-257 | the user's enrollment, if any, is updated with the course progress; no other enrollment changes |
| LessonController.MarkComplete | backend/app/Http/Controllers/LessonController.php:172-204 | 404 for an unknown lesson; 403 without enrollment. Otherwise the progress row is upserted, the completed count stays as it was, and the course progress is recomputed from it; errors change nothing |
| LessonController.MaxLessonOrder | backend/app/Http/Controllers/LessonController.php:97 | absent exactly when the course has no lessons; otherwise the largest `order` among them |
| LessonController.NextLessonOrder | backend/app/Http/Controllers/LessonController.php:97-106 | `max('order') + 1`; stated by NextLessonOrderIsAfterAll |
| LessonController.NextLessonOrderIsAfterAll | backend/app/Http/Controllers/LessonController.php:97-106 | a new lesson's order is 1 in an empty course and greater than every existing lesson's otherwise |
| LessonController.StoreLesson | backend/app/Http/Controllers/LessonController.php:73-115 | 404, then 403 unless admin or the course's instructor, then 422 exactly when a rule fails (a blank string skips every rule but `required`). Otherwise one lesson is appended, placed after every existing lesson of the course |
| LessonController.LessonFieldRules | backend/app/Http/Controllers/LessonController.php:82-90 | a non-blank non-URL or a non-string video_url, a null or non-boolean is_free, a non-string description or content and a non-array resources each fail validation; leaving the optional fields out, or sending blank video_url, is_free and resources, does not |
| Rules.RequestBoolean | backend/app/Http/Controllers/LessonController.php:98-108 | `$request->boolean('is_free', false)`: true exactly when the key is present with a truthy value that is not blank |
| CourseController.Enroll | backend/app/Http/Controllers/CourseController.php:183-216 | 404 for an unknown course; 400 when it is not published, is full or the user is already enrolled. Otherwise 201 with one new enrollment, raising the enrolled count by one but never past a positive limit; one enrollment per (user, course) is preserved |
| CourseController.StoreCourse | backend/app/Http/Controllers/CourseController.php:91-129 | 422 exactly when a rule of the store validator fails (every field, optional ones included; a blank string skips every rule but `required`); otherwise one new draft course owned by the caller is appended, with the title, description, level, duration, price and student limit sent |
| CourseController.OptionalFieldRules | backend/app/Http/Controllers/CourseController.php:96-103 | an over-long short description or category, or requirements or learning outcomes that are not arrays, fail validation; null ones pass |
| CourseController.BlankOptionalFieldsPass | backend/app/Http/Controllers/CourseController.php:96-103 | blank short description, category, max_students, requirements and learning outcomes, of any length, pass; a blank title or description fails |
| CourseController.MaxStudentsOf | backend/app/Http/Controllers/CourseController.php:119 | the stored limit is none exactly for null, the integer sent (at least 1) otherwise, and 0 for a blank string |
| CourseController.ApplyPatch | backend/app/Http/Controllers/CourseController.php:161 | `update($request->all())` keeps the id, and an empty patch changes nothing |
| CourseController.PatchKeysOptional | backend/app/Http/Controllers/CourseController.php:143-155 | the request with no keys passes, and dropping keys from a passing request keeps it passing (`sometimes`) |
| CourseController.PatchNullRejected | backend/app/Http/Controllers/CourseController.php:143-155 | a present null fails every rule, whatever the other keys hold |
| CourseController.PatchFieldRules | backend/app/Http/Controllers/CourseController.php:146-153 | a short description over 500 characters, a category over 100, and requirements or learning outcomes that are not arrays are refused |
| CourseController.BlankPatchPasses | backend/app/Http/Controllers/CourseController.php:143-155 | a blank string passes in every key of an update; a blank duration is stored as 0 and a blank title as sent |
| CourseController.PatchesCompose | backend/app/Http/Controllers/CourseController.php:161 | two accepted updates in a row equal one update with the merged keys, the later value winning |
| CourseController.PatchIdempotent | backend/app/Http/Controllers/CourseController.php:161 | repeating an accepted update changes nothing more |
| CourseController.ReplaceCourse | backend/app/Http/Controllers/CourseController.php:161 | the row with that id is replaced and every other lookup is unchanged |
| CourseController.UpdateCourse | backend/app/Http/Controllers/CourseController.php:134-167 | 404, then 403 unless admin or owner, then 422 when a present key breaks its rule. Otherwise the course row is patched; errors change nothing |
| CourseController.UpdateCanReassignOwner | backend/app/Http/Controllers/CourseController.php:140-161 | `instructor_id` is fillable and unvalidated, so an instructor can hand the course to someone else and lose the right to update it |
| Courses.IsPublished | backend/app/Models/Course.php:128-131 | `isPublished`; Enroll refuses an unpublished course |
| Courses.HasAvailableSpots | backend/app/Models/Course.php:136-140 | `hasAvailableSpots`; stated by AvailableSpotsRule and FullCourseHasNoSpots |
| Courses.AvailableSpotsRule | backend/app/Models/Course.php:136-140 | without a positive limit there is always room; with one, there is room exactly while fewer students than the limit are enrolled |
| Courses.FullCourseHasNoSpots | backend/app/Models/Course.php:138-139 | one below the limit there is room; at the limit there is none |
| Courses.CompletionRate | backend/app/Models/Course.php:108-115 | 0 without enrollments; otherwise completed/total×100 rounded to hundredths, at most 100.00 |
| Courses.AllCompletedRate | backend/app/Models/Course.php:113-114 | every enrollment completed gives exactly 100.00 |
| Users.HasRole | backend/app/Models/User.php:88-91 | strict comparison of the role; stated by AtMostOneRole and OtherRoleHasNone |
| Users.IsAdmin | backend/app/Models/User.php:96-99 | `hasRole('admin')` |
| Users.IsInstructor | backend/app/Models/User.php:104-107 | `hasRole('instructor')` |
| Users.IsStudent | backend/app/Models/User.php:112-115 | `hasRole('student')` |
| Users.AtMostOneRole | backend/app/Models/User.php:88-115 | no user satisfies two of isAdmin, isInstructor and isStudent |
| Users.OtherRoleHasNone | backend/app/Models/User.php:88-115 | a user satisfies none of the role predicates exactly when the role is outside the three constants |
| Access.HasAccessToCourse | backend/app/Http/Controllers/QuizController.php:338-362 | `hasAccessToCourse`; stated by AccessByRole, AccessHasAReason and InstructorEnrollmentIgnored |
| Access.AccessByRole | backend/app/Http/Controllers/QuizController.php:338-362 | admins always have access; instructors exactly for their own courses; students exactly when enrolled; other roles never |
| Access.AccessHasAReason | backend/app/Http/Controllers/QuizController.php:338-362 | access always rests on the admin role, ownership, or a student's enrollment |
| Access.InstructorEnrollmentIgnored | backend/app/Http/Controllers/LessonController.php:209-233 | an enrollment gives an instructor no access to somebody else's course |
| RoleMiddleware.Handle | backend/app/Http/Middleware/RoleMiddleware.php:18-34 | 401 without a user; any rejection is 401 or 403 |
| RoleMiddleware.LooseEqNonNumericString | backend/app/Http/Middleware/RoleMiddleware.php:29 | when one of two strings is not numeric, loose `==` between them is string equality |
| RoleMiddleware.NonNumericRoleExact | backend/app/Http/Middleware/RoleMiddleware.php:27-31 | a user whose role is not numeric passes exactly when the role is one of the `|`-separated names, and is refused with 403 otherwise |
| RoleMiddleware.RealRolesNotNumeric | backend/app/Models/User.php:58-60 | the three role constants are not numeric strings |
| RoleMiddleware.JoinedRolesAdmitEach | backend/app/Http/Middleware/RoleMiddleware.php:27-29 | a route for several roles joined by `|` lets each of them through and no one else |
| RoleMiddleware.AdminInstructorList | backend/app/Http/Middleware/RoleMiddleware.php:27 | "admin|instructor" splits into exactly the two roles |
| RoleMiddleware.AdminInstructorRoute | backend/app/Http/Middleware/RoleMiddleware.php:27-33 | an administrator passes "admin|instructor" and a student is refused with 403 |
| RoleMiddleware.NumericRoleCoercion | backend/app/Http/Middleware/RoleMiddleware.php:29 | the non-strict `in_array` lets a role "10" through a route that allows "1e1" |
| Text.Split | backend/app/Http/Middleware/RoleMiddleware.php:27 | `explode` yields at least one part, and no part contains the separator |
| Text.JoinSplit | backend/app/Http/Middleware/RoleMiddleware.php:27 | joining the parts of `explode` with the separator gives the string back |
| Text.SplitJoin | backend/app/Http/Middleware/RoleMiddleware.php:27 | `explode` of separator-free parts joined by the separator gives the parts back |
| CourseQuizRoutes.DefaultQuiz | backend/routes/api.php:647-659 | the default quiz belongs to the course, lasts 30 minutes, allows 3 attempts, passes at 70, and is active with order 1 |
| CourseQuizRoutes.GetOrCreateQuiz | backend/routes/api.php:645-660 | the course's first quiz is returned as it is; when there is none, a default quiz is appended; either way it is the course's first quiz afterwards |
| CourseQuizRoutes.AnswerIndexCases | backend/routes/api.php:675 | `answerIndex` is a numeric index itself, and 0 for a list or a non-numeric string |
| CourseQuizRoutes.AnswerIndex | backend/routes/api.php:675 | `is_numeric ? (int) : 0`; stated by AnswerIndexCases |
| CourseQuizRoutes.CardOf | backend/routes/api.php:671-676 | the card of one question; ShowCourseQuiz states the cards are its questions' in order |
| CourseQuizRoutes.ShowCourseQuiz | backend/routes/api.php:643-679 | 404 exactly for an unknown course. Otherwise the course's first quiz is returned with nothing written, or, when it has none, the default quiz (30 minutes, 3 attempts, pass mark 70) is appended under the next id and every other quiz is kept; its questions are listed in `order` with `answerIndex` per question |
| CourseQuizRoutes.UpsertFieldRules | backend/routes/api.php:700-705 | `nullable|string` refuses an integer id, `integer|min:0|max:3` refuses 4, and the digit string "2" passes exactly when 2 does |
| CourseQuizRoutes.FindQuizQuestion | backend/routes/api.php:718-721 | a question found belongs to the quiz and matches the given id under loose comparison |
| CourseQuizRoutes.ReplaceQuestion | backend/routes/api.php:723-729 | every row is kept, or replaced when it has the target id |
| CourseQuizRoutes.Upserted | backend/routes/api.php:723-729 | an updated question becomes multiple choice worth 10 points, with the given options and the answerIndex as sent as its answer; id, quiz and order are kept |
| CourseQuizRoutes.ValidIndexReadsBack | backend/routes/api.php:675 | an answerIndex that passed the integer, min 0 and max 3 rules reads back through `is_numeric ? (int) : 0` as the integer the rule accepted |
| CourseQuizRoutes.UpsertUpdatesInPlace | backend/routes/api.php:718-729 | when the id names a question of the quiz, that row is replaced where it stands and the quiz's question count is unchanged |
| CourseQuizRoutes.UpsertCreatesAfter | backend/routes/api.php:730-748 | otherwise one question is appended, with order one past the quiz's question count |
| CourseQuizRoutes.UpsertQuestion | backend/routes/api.php:682-755 | 404 exactly for an unknown course. Otherwise a quiz exists afterwards: the existing first quiz kept, or a default quiz appended; 201 exactly on valid input, which writes exactly the upserted table and answers with the validated index; 422 writes no question |
| CourseQuizRoutes.UpsertedNeverScores | backend/routes/api.php:723-748 | a question written with an integer answerIndex can never be judged correct by `isCorrectAnswer`, whose `in_array` expects an array |
| CourseQuizRoutes.UpsertedStringIndexScores | backend/routes/api.php:723-748 | with answerIndex sent as a digit string, the written question judges that index correct |
| CourseQuizRoutes.CountsCorrect | backend/routes/api.php:844-849 | an answer counts when present, not null and loosely equal to the stored answer; stated by StringIndexCounts and ListAnswerNeedsList |
| CourseQuizRoutes.CorrectCount | backend/routes/api.php:844-849 | the count of correct questions is at most the number of questions |
| CourseQuizRoutes.CountScore | backend/routes/api.php:851 | 0 without questions; otherwise correct/total×100 rounded half up, between 0 and 100, and 100 when all are correct |
| CourseQuizRoutes.RowFor | backend/routes/api.php:868-877 | the row for one question holds the JSON text of its answer and the counted flag; stated by StoredAsJsonText and AnswerRowsAt |
| CourseQuizRoutes.StoredAsJsonText | backend/routes/api.php:868-877 | a row reads back as JSON text: "null" for an unanswered question, the digits of an int answer, a plain string in quotes; never the wrapped array the attempt controller stores for the same answer |
| Json.EscapeChar | backend/routes/api.php:875 | json_encode copies a character exactly when it is printable ASCII other than the quote, the backslash and the slash, and escapes every other one |
| Json.EscapeLength | backend/routes/api.php:875 | escaping never shortens a string, and leaves it unchanged exactly when every character is plain |
| Json.SingletonList | backend/routes/api.php:875 | a one-element array is encoded as its element's text in brackets |
| CourseQuizRoutes.AnswerRowsAt | backend/routes/api.php:868-877 | the k-th answer row is the row for the k-th question, with consecutive ids |
| CourseQuizRoutes.AnswerRowsCountCorrect | backend/routes/api.php:844-877 | the number of rows stored as correct equals the count the score was computed from |
| CourseQuizRoutes.CountCorrect | backend/routes/api.php:844-849 | the loop computes exactly the correct count |
| CourseQuizRoutes.BuildRows | backend/routes/api.php:868-877 | the loop builds exactly the answer rows, one per question |
| CourseQuizRoutes.RecordCompleted | backend/routes/api.php:855-877 | one completed attempt with the score, count and verdict is appended, followed by one answer row per question |
| CourseQuizRoutes.SubmitCourseQuiz | backend/routes/api.php:819-888 | 404 for an unknown course or one without a quiz; 422 without answers; 401 without a user. Otherwise the count-based score is recorded, with no attempt-limit or enrollment check; errors change nothing |
| CourseQuizRoutes.Grade | backend/routes/api.php:840-878 | the score is the count-based score of the quiz's ordered questions, and the attempt and rows are recorded |
| CourseQuizRoutes.StringIndexCounts | backend/routes/api.php:846 | loose `==` counts the string "2" as correct for a stored bare index 2 |
| CourseQuizRoutes.ListAnswerNeedsList | backend/routes/api.php:846 | against an array `correct_answer`, only an array or a boolean submission can count as correct |
| AdminQuizRoutes.NullFieldsRejected | backend/routes/api.php:288-290 | a present null `options` or `points`, or an update question id that is not an integer, fails validation; absent ones take the defaults [] and 10 |
| AdminQuizRoutes.BlankFieldsStored | backend/routes/api.php:288-315 | blank `options` and `points` pass their rules; the options are stored as the blank string and the points as 0 |
| AdminQuizRoutes.NewQuestions | backend/routes/api.php:305-316 | one question per input, in order, with points defaulting to 10, options to [] and order index+1 |
| AdminQuizRoutes.NewQuestionsOrdered | backend/routes/api.php:305-316 | the created questions are sorted by order, each with a positive order and non-negative points; the points are at least 1 exactly when they were not sent blank |
| AdminQuizRoutes.AppendQuestions | backend/routes/api.php:305-317 | the loop appends exactly the new questions with consecutive ids |
| AdminQuizRoutes.WithoutQuiz | backend/routes/api.php:354 | deleting a quiz's questions keeps exactly the other quizzes' questions |
| AdminQuizRoutes.WithoutQuizLists | backend/routes/api.php:354 | after the delete the quiz has no questions, and every other quiz's questions are unchanged |
| AdminQuizRoutes.ReplacedLists | backend/routes/api.php:352-367 | after delete-and-recreate, the quiz's questions are exactly the new ones and other quizzes are unchanged |
| AdminQuizRoutes.UpdateReplacesList | backend/routes/api.php:352-367 | after an update with a question list, the quiz's questions are exactly the new ones, one per submitted question in submission order, whatever it had before |
| AdminQuizRoutes.QuizCount | backend/routes/api.php:301 | the count is at most the number of quizzes, and 0 exactly when the course has no quiz |
| AdminQuizRoutes.QuizCountAppend | backend/routes/api.php:301 | appending a quiz of the course raises its count by one |
| AdminQuizRoutes.InsertQuiz | backend/routes/api.php:293-303 | the quiz is appended with order one past the course's quiz count |
| AdminQuizRoutes.CreateQuiz | backend/routes/api.php:276-321 | 422 exactly on invalid input, a null or non-integer points or a null options included; otherwise 201 with the quiz and its questions appended |
| AdminQuizRoutes.ApplyPatch | backend/routes/api.php:342-349 | `array_filter` drops falsy values: an empty or "0" title, a 0 passing score and `false` are ignored. Id, course and order are kept |
| AdminQuizRoutes.FalsyPatchIgnored | backend/routes/api.php:342-349 | a patch of only falsy values leaves the quiz unchanged, so a quiz cannot be deactivated this way |
| AdminQuizRoutes.ApplyPatchIdempotent | backend/routes/api.php:342-349 | applying the same patch twice is the same as once |
| AdminQuizRoutes.ReplaceQuiz | backend/routes/api.php:342 | every quiz row with the id is replaced and the others are kept |
| AdminQuizRoutes.UpdateQuiz | backend/routes/api.php:322-371 | 404 for an unknown quiz; 200 exactly for a valid patch (a question id must be an integer), which updates the row and replaces the question list when one is given; errors change nothing |
| AuthReducer.Reduce | frontend/src/contexts/AuthContext.jsx:15-40 | SET_LOADING and SET_USER change only their field; LOGIN_SUCCESS stores user and token and authenticates; LOGOUT clears both and signs out; other actions change nothing |
| AuthReducer.LogoutForgets | frontend/src/contexts/AuthContext.jsx:27-34 | logout from any state yields the same signed-out state, is idempotent, and undoes a login |
| AuthReducer.LoadingAndUserCommute | frontend/src/contexts/AuthContext.jsx:17-36 | SET_LOADING and SET_USER commute |
| AuthReducer.ReduceKeepsToken | frontend/src/contexts/AuthContext.jsx:15-40 | if logins carry a token, one step preserves "authenticated implies token" |
| AuthReducer.TokenInvariant | frontend/src/contexts/AuthContext.jsx:15-40 | any sequence of actions whose logins carry tokens preserves "authenticated implies token" |
| AuthReducer.OnlyLoginAndLogoutAuthenticate | frontend/src/contexts/AuthContext.jsx:15-40 | actions other than login and logout never change authentication or the token |
| AuthReducer.InitialStateSignedOut | frontend/src/contexts/AuthContext.jsx:8-13 | the initial state is signed out, loading, without user or token |
| YouTube.Segments | frontend/src/lib/youtube.js:18 | `filter(Boolean)` keeps exactly the non-empty segments |
| YouTube.IndexOf | frontend/src/lib/youtube.js:19 | `indexOf` gives the first position of the word, or -1 when it is absent |
| YouTube.VideoId | frontend/src/lib/youtube.js:9-28 | the id the host selects; stated by WatchParameterWins, ShortsPath, EmbedPath, ShortLink and OtherHostRejected |
| YouTube.ToEmbed | frontend/src/lib/youtube.js:1-33 | null for a missing, blank or unparsable URL; otherwise an embed URL exactly when a video id is found, and that URL is the nocookie prefix, the id and `?rel=0` |
| YouTube.EmbedRoundTrip | frontend/src/lib/youtube.js:30 | the id can be read back from an embed URL between the prefix and the suffix |
| YouTube.WatchParameterWins | frontend/src/lib/youtube.js:11-14 | on youtube.com, a non-empty `v` parameter is the id |
| YouTube.ShortsPath | frontend/src/lib/youtube.js:17-20 | on youtube.com, `/shorts/<id>` gives that id |
| YouTube.EmbedPath | frontend/src/lib/youtube.js:17-22 | on youtube.com, `/embed/<id>` gives that id |
| YouTube.ShortLink | frontend/src/lib/youtube.js:24-27 | on youtu.be, the path after the slash is the id |
| YouTube.OtherHostRejected | frontend/src/lib/youtube.js:9-33 | any other host gives null |
| ClientUtils.JsRem | frontend/src/lib/utils.jsx:33 | JavaScript `%` keeps the sign of the dividend: it agrees with the mathematical remainder for non-negative values and is its negation for negative ones |
| ClientUtils.FormatDuration | frontend/src/lib/utils.jsx:31-39 | 60 minutes or more give "<h>h <m>m"; 0..59 give "<m>m" |
| ClientUtils.DurationParts | frontend/src/lib/utils.jsx:32-36 | for 60 minutes or more, the hours and minutes shown recombine to the input, with minutes below 60 |
| ClientUtils.NegativeDuration | frontend/src/lib/utils.jsx:31-39 | -65 minutes are shown as "-5m" |
| ClientUtils.WordStarts | frontend/src/lib/utils.jsx:43-45 | there is at most one letter per word |
| ClientUtils.Initials | frontend/src/lib/utils.jsx:41-48 | at most two characters: the first two upper-cased word starts |
| ClientUtils.InitialsFromWords | frontend/src/lib/utils.jsx:41-48 | every initial is the upper-cased first character of some space-separated word |
| ClientUtils.TwoWordInitials | frontend/src/lib/utils.jsx:41-48 | "first last" gives the two upper-cased first letters |
| ClientUtils.LeadingSpaceSkipped | frontend/src/lib/utils.jsx:43-44 | a leading space does not change the initials |
| ClientUtils.Slice | frontend/src/lib/utils.jsx:52 | `slice(0, end)` is a prefix; its length is `end` inside the string, and the length plus `end` (floored at 0) for a negative `end` |
| ClientUtils.TruncateText | frontend/src/lib/utils.jsx:50-53 | text within the limit is returned as it is; longer text becomes a prefix of it followed by "..." |
| ClientUtils.TruncatedFits | frontend/src/lib/utils.jsx:50-53 | the result never exceeds the limit by more than the three dots, and a result within the limit is the text itself |
| ClientUtils.NegativeMaxDropsTail | frontend/src/lib/utils.jsx:52 | a negative limit -k drops the last k characters before the dots |
| ClientUtils.DefaultTruncation | frontend/src/lib/utils.jsx:50 | with the default limit of 100, a 101-character text becomes its first 100 characters and "...", 103 in all |
| Store.FindCourse | backend/app/Http/Controllers/CourseController.php:185 | `findOrFail`: the course found has the id; none is found only when no course has it |
| Store.FirstQuizOfCourse | backend/routes/api.php:645 | the quiz found belongs to the course; none is found only when the course has no quiz |
| Store.FindEnrollment | backend/app/Http/Controllers/CourseController.php:198-200 | the enrollment found is the (user, course) pair's; none is found only when no row has that pair |
| Store.AnswersOf | backend/app/Models/QuizAttempt.php:74 | exactly the answers of the attempt |
| Store.EnrolledCountAppend | backend/app/Models/Course.php:100-103 | a new enrollment raises its course's enrolled count by one and no other's |
| Store.AttemptCountAppend | backend/app/Models/Quiz.php:58-71 | a new attempt raises its (quiz, user) attempt count by one and no other's |

## Left out

- **I/O and frameworks.** HTTP, the JSON of responses, Eloquent and the
  SQL database are not modelled; tables are sequences in `Store.Db`. The
  one JSON text the model writes is the course-quiz route's stored answer
  (`Json.Encode`, PHP's default flags). Strings here are sequences of
  Unicode characters, so json_encode's failure on invalid UTF-8 cannot
  arise. The
  `correct_answers` column that calculateScore fills by a SQL `JSON_EXTRACT`
  comparison is an input (`correctCount`) and is stored unchanged.
- **Clocks.** `now()` is a parameter. Carbon's `diffInSeconds` is the
  absolute difference of two integer timestamps.
- **Floating point.** PHP's `round` of a float quotient is modelled as exact
  rational rounding half away from zero, with no float error.
  `number_format`, currencies and dates are not modelled.
- **Transactions and concurrency.** A transaction is a sequence of writes
  with an explicit restore on failure. Concurrent requests are not
  modelled.
- **Validators.** Error messages are not modelled. `exists` is an SQL
  count over the whole table (`QuizController.ExistsRule`), so it does not
  check that the question belongs to the attempt's quiz, just as the source
  does not.
- **Request middleware.** Request values are taken as the validator
  receives them, so a blank string (one that `trim` empties) reaches the
  rules and skips every rule but `required` (`Rules.Blank`). The
  application's HTTP kernel is not part of this model. Laravel's default
  `TrimStrings` and `ConvertEmptyStringsToNull` middleware would trim
  strings and turn blank ones into null before validation; that is not
  modelled.
- **SQL coercion of strings.** A string key is matched against an integer
  column by the number PHP's `is_numeric` reads in it. MySQL also reads a
  leading number out of a non-numeric string ("1abc" as 1); that is not
  modelled, and such a key matches nothing here.
- **Other routes and screens.** Deleting quizzes, questions, lessons and
  courses, the listing routes, dashboards, the database browser, the demo
  token login and the seeders are not part of this model.
- **Text.** Case mapping is ASCII only. `trim` uses PHP's default character
  list. Strings are sequences of characters with no encoding.
- **The `url` rule.** Laravel's URL pattern is a parameter (`isUrl`) of
  `LessonController.StoreLesson`; the rule applies it to strings only.
- **JavaScript numbers.** They are integers here: `formatDuration` of a
  fractional number is not modelled.
- **The URL parser.** `new URL(..)` is an input (`parsed`, None when it
  throws). Its hostname, pathname and `v` search parameter are taken as
  given.
- **Where the PHP values come from.** Only null, booleans, integers,
  strings and lists exist. PHP floats and JSON objects are left out. The
  one object read is the `answers` map of the course-quiz submission
  route, keyed by integer question id. A non-empty object none of whose
  keys is an integer string (`{"a": 1}`) passes `required|array` in the
  source and scores 0. The model cannot send it: without integer keys its
  map is empty, which `required` refuses.
- **The requesting user.**
  - The student in the progress route comes from `ensureDemoStudent()`; it
    is a parameter (`studentId`).
  - The token user of the course-quiz submission route comes from a cache
    lookup; it is an `Option` parameter.
  - The admin quiz routes carry no authentication in the source, and none
    is modelled.
- **Unused columns.** `markComplete` writes `completed = true`, but
  LessonProgress's fillable list names `is_completed`, so mass assignment
  drops the write. The model keeps that behaviour: `completed` is never set
  by the route, and `LessonController.MarkNeverCounts` shows the completed
  count never moves. The migrations are not part of this model; a new row's
  `completed` is taken to default to false. Ratings, thumbnails, resources
  and featured flags are not kept.
- RoleMiddleware.Handle: its own contract states only the 401 case and the
  range of rejections. The full decision for ordinary roles is stated by
  RoleMiddleware.NonNumericRoleExact, and numeric roles are covered only by
  NumericRoleCoercion.
- CourseController.ApplyPatch: stated through PatchesCompose,
  PatchIdempotent, UpdateCanReassignOwner, BlankPatchPasses and the
  empty-patch case, not field by field. A blank level or status is stored
  as the blank string; an enum column that refuses it is not modelled.
- Rules.StoredInteger: a blank string written to an integer column is read
  back as 0, the `integer` cast of the stored text. A database that refuses
  the write (MySQL in strict mode) would fail the request instead; that is
  not modelled.
- QuizController.ExistsRule: an array key holding an array is refused
  here. In the source `array_unique` converts it to a string, and the
  warning PHP raises there becomes an exception; that failure is not
  modelled.
- CourseController.UpdateCourse: `instructor_id` has no rule in the source
  and is taken as an integer here, so a request carrying another JSON type
  there is not modelled. short_description, category, requirements and
  learning_outcomes are validated, but the course row does not keep those
  columns.
- QuizController.StartAttemptRevealsAnswers: states that the returned list
  carries the stored answers, not the JSON shape of the response.
- PhpValue.IntVal: integers are unbounded; PHP's `intval` saturates at
  PHP_INT_MAX and PHP_INT_MIN for numeric strings beyond 64 bits, which is
  not modelled. A string with a fraction or an exponent is read here as an
  exact decimal and truncated. PHP parses it to a double first, so digits
  beyond double precision can round it up ("1.99999999999999999999" is 2 in
  PHP, 1 here), and an overflowing exponent gives infinity, which becomes 0
  ("1e400" is 0 in PHP, 10^400 here). This reaches `AnswerIndex` and the
  multiple-choice `intval` comparison.
- PhpValue.LooseEq: two numeric strings are compared as exact decimals.
  PHP converts them to doubles first, so strings that differ only beyond
  double precision compare equal in PHP and unequal here.
- Rules.IntegerRule: it accepts exactly the canonical decimal text of an
  integer. `FILTER_VALIDATE_INT` also accepts `true`, a leading `+` and
  surrounding whitespace; those requests are refused here.
- AdminQuizRoutes.CreateQuiz: the quiz-level fields (`course_id`, `title`,
  `description`, `time_limit`, `max_attempts`, `passing_score`,
  `is_active`, `questions`) are typed options, so a present null or a
  value of the wrong type cannot be sent; the source answers such a
  request with 422. A blank string, which the source lets through every
  rule but `required`, cannot be sent there either. Question-level fields
  are modelled with their values, blank strings included.
- AdminQuizRoutes.UpdateQuiz: likewise, a `sometimes` field sent as null
  or with the wrong type cannot be expressed, although the source answers
  422. Of the blank strings the source lets through, only a blank title is
  modelled.
- LessonController.MarkComplete: models the route as written, so marking a
  lesson complete never raises the course progress. The evidently intended
  behaviour, a write of the fillable `is_completed` that the count would
  see, is not modelled.
