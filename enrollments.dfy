/**
 * Enrollments (backend/app/Models/Enrollment.php): a student's progress
 * through a course, 0..100, and the moment the course was completed.
 */
module Enrollments {
  import opened Wrappers

  /** The progress-related part of an enrollment row. */
  datatype ProgressState = ProgressState(progress: int, completedAt: Option<int>)

  class Enrollment {
    const id: int
    const userId: int
    const courseId: int
    const enrolledAt: int
    var progress: int
    var completedAt: Option<int>

    /** A fresh enrollment: progress at its column default 0, not completed. */
    constructor (id: int, userId: int, courseId: int, enrolledAt: int)
      ensures this.id == id && this.userId == userId && this.courseId == courseId && this.enrolledAt == enrolledAt
      ensures progress == 0 && completedAt == None
    {
      this.id := id;
      this.userId := userId;
      this.courseId := courseId;
      this.enrolledAt := enrolledAt;
      progress := 0;
      completedAt := None;
    }

    function State(): ProgressState
      reads this
    {
      ProgressState(progress, completedAt)
    }

    /** isCompleted: completed_at is set. */
    predicate IsCompleted()
      reads this
    {
      completedAt.Some?
    }

    /** markAsCompleted: completed now, at 100%. */
    method MarkAsCompleted(now: int)
      modifies this`progress, this`completedAt
      ensures progress == 100 && completedAt == Some(now)
      ensures IsCompleted()
    {
      completedAt := Some(now);
      progress := 100;
    }

    /** updateProgress: store the clamped value, then complete the enrollment
        if the requested value reached 100 and it was not completed yet. */
    method UpdateProgress(p: int, now: int)
      modifies this`progress, this`completedAt
      ensures State() == AfterUpdate(old(State()), p, now)
    {
      progress := Clamp(p);
      if p >= 100 && completedAt.None? {
        MarkAsCompleted(now);
      }
    }
  }

  /** min(100, max(0, p)). */
  function Clamp(p: int): (r: int)
    ensures 0 <= r <= 100
    ensures 0 <= p <= 100 ==> r == p
    ensures p < 0 ==> r == 0
    ensures p > 100 ==> r == 100
  {
    if p > 100 then 100 else if p < 0 then 0 else p
  }

  /** The state updateProgress(p) leaves behind. */
  function AfterUpdate(s: ProgressState, p: int, now: int): ProgressState {
    if p >= 100 && s.completedAt.None? then ProgressState(100, Some(now))
    else s.(progress := Clamp(p))
  }

  /** The stored progress is always the clamped request (100 when it completes). */
  lemma UpdateStoresClamped(s: ProgressState, p: int, now: int)
    ensures AfterUpdate(s, p, now).progress == Clamp(p)
    ensures 0 <= AfterUpdate(s, p, now).progress <= 100
  {
  }

  /** Reaching 100 completes a not-yet-completed enrollment at the given moment. */
  lemma UpdateCompletes(s: ProgressState, p: int, now: int)
    requires p >= 100 && s.completedAt.None?
    ensures AfterUpdate(s, p, now) == ProgressState(100, Some(now))
  {
  }

  /** An existing completion time is never overwritten nor cleared. */
  lemma UpdateKeepsCompletion(s: ProgressState, p: int, now: int)
    requires s.completedAt.Some?
    ensures AfterUpdate(s, p, now).completedAt == s.completedAt
  {
  }

  /** The state after a sequence of updateProgress calls, one per (value, time). */
  function AfterUpdates(s: ProgressState, updates: seq<(int, int)>): ProgressState
    decreases |updates|
  {
    if updates == [] then s
    else AfterUpdates(AfterUpdate(s, updates[0].0, updates[0].1), updates[1..])
  }

  /** However progress moves afterwards, a completed enrollment keeps its completion time. */
  lemma {:induction false} CompletionIsPermanent(s: ProgressState, updates: seq<(int, int)>)
    requires s.completedAt.Some?
    ensures AfterUpdates(s, updates).completedAt == s.completedAt
    decreases |updates|
  {
    if updates != [] {
      UpdateKeepsCompletion(s, updates[0].0, updates[0].1);
      CompletionIsPermanent(AfterUpdate(s, updates[0].0, updates[0].1), updates[1..]);
    }
  }

  /** "At 100% means completed" holds in every reachable state, however it is driven. */
  predicate FullMeansCompleted(s: ProgressState) {
    s.progress >= 100 ==> s.completedAt.Some?
  }

  lemma {:induction false} UpdatesKeepFullMeansCompleted(s: ProgressState, updates: seq<(int, int)>)
    requires FullMeansCompleted(s)
    ensures FullMeansCompleted(AfterUpdates(s, updates))
    ensures 0 <= s.progress <= 100 || updates != [] ==> 0 <= AfterUpdates(s, updates).progress <= 100
    decreases |updates|
  {
    if updates != [] {
      var next := AfterUpdate(s, updates[0].0, updates[0].1);
      UpdateStoresClamped(s, updates[0].0, updates[0].1);
      UpdatesKeepFullMeansCompleted(next, updates[1..]);
    }
  }

  /** Completed with progress below 100 is reachable: reach 100, then report 50. */
  lemma CompletedBelowHundredReachable(t1: int, t2: int)
    ensures AfterUpdates(ProgressState(0, None), [(100, t1), (50, t2)]) == ProgressState(50, Some(t1))
  {
    var updates := [(100, t1), (50, t2)];
    var s1 := AfterUpdate(ProgressState(0, None), 100, t1);
    assert s1 == ProgressState(100, Some(t1));
    assert updates[1..] == [(50, t2)];
    assert [(50, t2)][1..] == [];
    assert AfterUpdates(s1, [(50, t2)]) == AfterUpdates(ProgressState(50, Some(t1)), []);
  }
}
