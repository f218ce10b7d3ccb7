/**
  The list logic inside the lesson pages: which lessons a user is shown, which
  lesson and answer a lesson page picks, and how a student's answer is
  submitted and a tutor's mark recorded.  Lessons and answers are the JSON
  objects of the lessons service; the HTTP calls around them are not modelled.
 */
module Lessons {
  import opened Wrappers
  import opened Sessions

  /** An answer object of a lesson's `answers` list. */
  datatype Answer = Answer(
    studentId: Option<Id>,
    text: string,
    mark: Option<string>,
    createdAt: Timestamp,
    lastUpdatedAt: Timestamp)

  /** A lesson object: its number, the task attached to it (if any) and the students' answers. */
  datatype Lesson = Lesson(number: string, taskId: Option<Id>, answers: seq<Answer>)

  /** The fields of a profile the lesson pages read. */
  datatype Profile = Profile(id: Id, role: string, tutorId: Option<Id>)

  /** A failed `assert` in a handler (an `AssertionError`, answered with status 500). */
  datatype Failure = SeveralAnswers | NotExactlyOneAnswer

  /** The tutor whose lessons a user sees: a student's tutor, otherwise the user. */
  function TutorIdFor(user: Profile): (r: Option<Id>)
    ensures user.role == "student" ==> r == user.tutorId
    ensures user.role != "student" ==> r == Some(user.id)
  {
    if user.role == "student" then user.tutorId else Some(user.id)
  }

  /** A student and the tutor named in their profile query the same lessons. */
  lemma StudentSharesTutorLessons(student: Profile, tutor: Profile)
    requires student.role == "student" && student.tutorId == Some(tutor.id)
    requires tutor.role != "student"
    ensures TutorIdFor(student) == TutorIdFor(tutor) == Some(tutor.id)
  {
  }

  /** Some answer of the lesson still has no mark. */
  predicate HasUnmarkedAnswer(l: Lesson) {
    exists i :: 0 <= i < |l.answers| && l.answers[i].mark.None?
  }

  /** The lesson has a task and `userId` has not answered it yet. */
  predicate OpenFor(userId: Option<Id>, l: Lesson) {
    l.taskId.Some? && forall i :: 0 <= i < |l.answers| ==> l.answers[i].studentId != userId
  }

  /** Whether `get_lessons` lists the lesson for a user with this role and id. */
  predicate Wanted(role: Option<string>, userId: Option<Id>, l: Lesson) {
    if role == Some("tutor") then HasUnmarkedAnswer(l) else OpenFor(userId, l)
  }

  /** `a` is `b` with some elements left out, the rest in their order. */
  ghost predicate IsSubsequence<T>(a: seq<T>, b: seq<T>)
    decreases |b|
  {
    |a| == 0
    || (|b| > 0 && ((a[0] == b[0] && IsSubsequence(a[1..], b[1..])) || IsSubsequence(a, b[1..])))
  }

  /**
    The lessons `get_lessons` selects: for a tutor those with an unmarked
    answer, for anyone else (a student, or a user whose role is unknown) those
    with a task the user has not answered.
   */
  function SelectLessons(role: Option<string>, userId: Option<Id>, lessons: seq<Lesson>): (r: seq<Lesson>)
    ensures IsSubsequence(r, lessons)
    ensures forall i :: 0 <= i < |r| ==> Wanted(role, userId, r[i])
    ensures forall l :: multiset(r)[l] == if Wanted(role, userId, l) then multiset(lessons)[l] else 0
  {
    if |lessons| == 0 then []
    else
      var rest := SelectLessons(role, userId, lessons[1..]);
      assert lessons == [lessons[0]] + lessons[1..];
      if Wanted(role, userId, lessons[0]) then
        var r := [lessons[0]] + rest;
        assert r[1..] == rest;
        r
      else
        rest
  }

  /** A selected lesson always came from the fetched list. */
  lemma SelectedWereFetched(role: Option<string>, userId: Option<Id>, lessons: seq<Lesson>, l: Lesson)
    requires l in SelectLessons(role, userId, lessons)
    ensures l in lessons && Wanted(role, userId, l)
  {
    var r := SelectLessons(role, userId, lessons);
    assert multiset(r)[l] > 0;
  }

  /** `None if len(found) == 0 else found[0]` */
  function FirstOrNone<T>(found: seq<T>): (r: Option<T>)
    ensures r.None? <==> |found| == 0
    ensures r.Some? ==> r.value == found[0]
  {
    if |found| == 0 then None else Some(found[0])
  }

  /** `sid` has not answered. */
  predicate NoAnswerBy(answers: seq<Answer>, sid: Option<Id>) {
    forall i :: 0 <= i < |answers| ==> answers[i].studentId != sid
  }

  /** The answer at `i` is the one and only answer of `sid`. */
  predicate OnlyAnswerBy(answers: seq<Answer>, sid: Option<Id>, i: int) {
    && 0 <= i < |answers|
    && answers[i].studentId == sid
    && forall j :: 0 <= j < |answers| && j != i ==> answers[j].studentId != sid
  }

  /** `[ind for ind, ans in enumerate(answers) if ans['student_id'] == sid]` */
  function MatchingIndices(answers: seq<Answer>, sid: Option<Id>): (r: seq<nat>)
    ensures forall j :: 0 <= j < |r| ==> r[j] < |answers| && answers[r[j]].studentId == sid
    ensures forall j, k :: 0 <= j < k < |r| ==> r[j] < r[k]
    ensures forall i :: 0 <= i < |answers| && answers[i].studentId == sid ==> i in r
  {
    if |answers| == 0 then []
    else
      var n := |answers| - 1;
      var front := answers[..n];
      var prefix := MatchingIndices(front, sid);
      assert forall i :: 0 <= i < n ==> front[i] == answers[i];
      if answers[n].studentId == sid then prefix + [n] else prefix
  }

  /** How many indices `MatchingIndices` lists: none, exactly the one answer, or two or more. */
  lemma MatchingCount(answers: seq<Answer>, sid: Option<Id>)
    ensures MatchingIndices(answers, sid) == [] <==> NoAnswerBy(answers, sid)
    ensures forall i :: OnlyAnswerBy(answers, sid, i) ==> MatchingIndices(answers, sid) == [i]
    ensures |MatchingIndices(answers, sid)| == 1 ==> OnlyAnswerBy(answers, sid, MatchingIndices(answers, sid)[0])
    ensures forall i, j ::
      (0 <= i < j < |answers| && answers[i].studentId == sid && answers[j].studentId == sid)
      ==> |MatchingIndices(answers, sid)| >= 2
  {
    var r := MatchingIndices(answers, sid);
    if |r| > 0 {
      assert answers[r[0]].studentId == sid;
    }
    if |r| >= 2 {
      assert r[0] < r[1];
      assert answers[r[0]].studentId == sid && answers[r[1]].studentId == sid;
    }
    if |r| == 1 {
      assert forall j :: j in r ==> j == r[0];
    }
    forall i | OnlyAnswerBy(answers, sid, i)
      ensures r == [i]
    {
      assert i in r;
    }
    forall i, j | 0 <= i < j < |answers| && answers[i].studentId == sid && answers[j].studentId == sid
      ensures |r| >= 2
    {
      assert i in r && j in r;
    }
  }

  /**
    A student's own answer on the lesson page: none if they have not
    answered, the answer if there is one, a failure if there are several.
   */
  function StudentAnswer(l: Lesson, userId: Id): (r: Result<Option<Answer>, Failure>)
    ensures r == Ok(None) <==> NoAnswerBy(l.answers, Some(userId))
    ensures forall i :: OnlyAnswerBy(l.answers, Some(userId), i) ==> r == Ok(Some(l.answers[i]))
    ensures forall i, j ::
      (0 <= i < j < |l.answers| && l.answers[i].studentId == Some(userId) && l.answers[j].studentId == Some(userId))
      ==> r == Err(SeveralAnswers)
  {
    var idx := MatchingIndices(l.answers, Some(userId));
    MatchingCount(l.answers, Some(userId));
    if |idx| == 0 then Ok(None)
    else if |idx| != 1 then Err(SeveralAnswers)
    else Ok(Some(l.answers[idx[0]]))
  }

  /** The answer a student submits for the first time: unmarked, created and updated now. */
  function FreshAnswer(userId: Option<Id>, text: string, now: Timestamp): Answer {
    Answer(userId, text, None, now, now)
  }

  /** A resubmitted answer: new text, mark withdrawn, updated now; author and creation time kept. */
  function Resubmitted(a: Answer, text: string, now: Timestamp): Answer {
    a.(mark := None, text := text, lastUpdatedAt := now)
  }

  /**
    The `update_answer` branch: the student's existing answer is replaced in
    place (and its mark withdrawn), or a new answer is appended; two answers
    by the same student fail.
   */
  function UpsertAnswer(answers: seq<Answer>, userId: Option<Id>, text: string, now: Timestamp)
    : (r: Result<seq<Answer>, Failure>)
    ensures NoAnswerBy(answers, userId) ==> r == Ok(answers + [FreshAnswer(userId, text, now)])
    ensures forall i :: OnlyAnswerBy(answers, userId, i) ==>
      && r.Ok?
      && |r.value| == |answers|
      && r.value[i] == Resubmitted(answers[i], text, now)
      && forall j :: 0 <= j < |answers| && j != i ==> r.value[j] == answers[j]
    ensures forall i, j ::
      (0 <= i < j < |answers| && answers[i].studentId == userId && answers[j].studentId == userId)
      ==> r == Err(SeveralAnswers)
  {
    var idx := MatchingIndices(answers, userId);
    MatchingCount(answers, userId);
    if |idx| > 0 then
      if |idx| != 1 then Err(SeveralAnswers)
      else
        var i := idx[0];
        Ok(answers[i := Resubmitted(answers[i], text, now)])
    else
      Ok(answers + [FreshAnswer(userId, text, now)])
  }

  /**
    The `mark_answer` branch: exactly one answer of the student must exist;
    only its mark and update time change.
   */
  function MarkAnswer(answers: seq<Answer>, studentId: Id, mark: string, now: Timestamp)
    : (r: Result<seq<Answer>, Failure>)
    ensures r.Ok? <==> exists i :: OnlyAnswerBy(answers, Some(studentId), i)
    ensures r.Ok? ==> |r.value| == |answers|
    ensures forall i :: 0 <= i < |answers| && answers[i].studentId == Some(studentId) && r.Ok? ==>
      r.value[i] == answers[i].(mark := Some(mark), lastUpdatedAt := now)
    ensures forall i :: 0 <= i < |answers| && answers[i].studentId != Some(studentId) && r.Ok? ==>
      r.value[i] == answers[i]
  {
    var idx := MatchingIndices(answers, Some(studentId));
    MatchingCount(answers, Some(studentId));
    if |idx| == 1 then
      var i := idx[0];
      Ok(answers[i := answers[i].(mark := Some(mark), lastUpdatedAt := now)])
    else
      Err(NotExactlyOneAnswer)
  }

  /**
    After a successful submission the student has exactly one answer, the
    submitted text without a mark: the page shows it, the student's list no
    longer offers the lesson and the tutor's list does.
   */
  lemma SubmittedAnswerIsShown(l: Lesson, userId: Id, text: string, now: Timestamp)
    requires UpsertAnswer(l.answers, Some(userId), text, now).Ok?
    ensures
      var l' := l.(answers := UpsertAnswer(l.answers, Some(userId), text, now).value);
      && StudentAnswer(l', userId).Ok?
      && StudentAnswer(l', userId).value.Some?
      && StudentAnswer(l', userId).value.value.text == text
      && StudentAnswer(l', userId).value.value.mark.None?
      && !OpenFor(Some(userId), l')
      && HasUnmarkedAnswer(l')
  {
    var a := l.answers;
    var sid := Some(userId);
    var r := UpsertAnswer(a, sid, text, now).value;
    var l' := l.(answers := r);
    if NoAnswerBy(a, sid) {
      var n := |a|;
      assert r == a + [FreshAnswer(sid, text, now)];
      assert OnlyAnswerBy(r, sid, n);
    } else {
      var i :| 0 <= i < |a| && a[i].studentId == sid;
      assert OnlyAnswerBy(a, sid, i);
      assert OnlyAnswerBy(r, sid, i);
    }
  }

  /**
    Marking the last unmarked answer of a lesson removes the lesson from the
    tutor's list of lessons to check.
   */
  lemma MarkingLastAnswerClearsLesson(l: Lesson, studentId: Id, mark: string, now: Timestamp)
    requires MarkAnswer(l.answers, studentId, mark, now).Ok?
    requires forall i :: 0 <= i < |l.answers| && l.answers[i].mark.None? ==> l.answers[i].studentId == Some(studentId)
    ensures !HasUnmarkedAnswer(l.(answers := MarkAnswer(l.answers, studentId, mark, now).value))
  {
  }
}
