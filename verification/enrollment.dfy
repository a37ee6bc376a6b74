/** Enrollment lifecycle and completion tracking of `lib/data-service.ts`:
    `enrollStudent`, `updateEnrollmentProgress`, `markLessonCompleted` and
    `markQuizCompleted`, as transitions of `Store`. */
module Enrollments {
  import opened Common
  import opened Model
  import opened Progress
  import opened Catalog

  /** `Math.min(100, Math.max(0, p))`. */
  function Clamp(p: int): (r: int)
    ensures 0 <= r <= 100
    ensures 0 <= p <= 100 ==> r == p
    ensures p < 0 ==> r == 0
    ensures p > 100 ==> r == 100
  {
    if p < 0 then 0 else if p > 100 then 100 else p
  }

  /** The cached progress lies in [0, 100] and `completed` holds exactly at 100. */
  predicate Consistent(e: Enrollment)
  {
    0 <= e.progress <= 100 && (e.completed <==> e.progress == 100)
  }

  /** `updateEnrollmentProgress`: `None` and no change when the pair is not enrolled;
      otherwise the first enrollment of the pair gets the clamped progress and
      `completed` iff the raw value reaches 100, keeping its identity and date. */
  function UpdateEnrollmentProgress(s: Store, courseId: string, studentId: string, progress: int): (r: (Store, Option<Enrollment>))
    ensures r.1.None? <==> EnrollmentIndex(s.enrollments, courseId, studentId).None?
    ensures r.1.None? ==> r.0 == s
    ensures r.1.Some? ==>
      var i := EnrollmentIndex(s.enrollments, courseId, studentId).value;
      && r.0 == s.(enrollments := s.enrollments[i := r.1.value])
      && r.1.value.courseId == courseId && r.1.value.studentId == studentId
      && r.1.value.enrolledAt == s.enrollments[i].enrolledAt
      && (0 <= progress <= 100 ==> r.1.value.progress == progress)
      && (progress < 0 ==> r.1.value.progress == 0)
      && (progress > 100 ==> r.1.value.progress == 100)
      && (r.1.value.completed <==> progress >= 100)
      && Consistent(r.1.value)
  {
    match EnrollmentIndex(s.enrollments, courseId, studentId)
    case None => (s, None)
    case Some(i) =>
      var e := s.enrollments[i].(progress := Clamp(progress), completed := progress >= 100);
      (s.(enrollments := s.enrollments[i := e]), Some(e))
  }

  /** The clamp law at the two sides of the range. */
  lemma ClampLaw(s: Store, courseId: string, studentId: string)
    requires EnrollmentIndex(s.enrollments, courseId, studentId).Some?
    ensures
      var low := UpdateEnrollmentProgress(s, courseId, studentId, -5).1.value;
      low.progress == 0 && !low.completed
    ensures
      var high := UpdateEnrollmentProgress(s, courseId, studentId, 150).1.value;
      high.progress == 100 && high.completed
  {
  }

  /** Updating the same pair twice with the same value is the same as doing it once. */
  lemma UpdateEnrollmentProgressIdempotent(s: Store, courseId: string, studentId: string, progress: int)
    ensures
      var once := UpdateEnrollmentProgress(s, courseId, studentId, progress);
      UpdateEnrollmentProgress(once.0, courseId, studentId, progress) == once
  {
    var once := UpdateEnrollmentProgress(s, courseId, studentId, progress);
    if once.1.Some? {
      var i := EnrollmentIndex(s.enrollments, courseId, studentId).value;
      assert EnrollmentPairs(once.0.enrollments) == EnrollmentPairs(s.enrollments);
      assert EnrollmentIndex(once.0.enrollments, courseId, studentId) == Some(i);
      var e := once.1.value;
      assert once.0.enrollments[i] == e;
      assert e.(progress := Clamp(progress), completed := progress >= 100) == e;
      assert once.0.enrollments[i := e] == once.0.enrollments;
    }
  }

  /** Every stored enrollment is consistent. */
  predicate AllConsistent(es: seq<Enrollment>)
  {
    forall i :: 0 <= i < |es| ==> Consistent(es[i])
  }

  lemma UpdateKeepsConsistent(s: Store, courseId: string, studentId: string, progress: int)
    requires AllConsistent(s.enrollments)
    ensures AllConsistent(UpdateEnrollmentProgress(s, courseId, studentId, progress).0.enrollments)
  {
  }

  // -------------------------------------------------------------- enrolling

  /** The `students` counter of the first course carrying `courseId`, bumped by one. */
  function BumpStudents(s: Store, courseId: string): (r: Store)
    ensures CourseIndex(s.courses, courseId).None? ==> r == s
    ensures CourseIndex(s.courses, courseId).Some? ==>
      var i := CourseIndex(s.courses, courseId).value;
      r == s.(courses := s.courses[i := s.courses[i].(students := s.courses[i].students + 1)])
  {
    match FindCourse(s.courses, courseId)
    case None => s
    case Some(course) =>
      UpdateCourse(s, courseId, NoCourseChange.(students := Some(course.students + 1))).0
  }

  /** `enrollStudent`: an existing enrollment of the pair is returned with nothing changed;
      otherwise one fresh record (progress 0, not completed) is appended and the course's
      `students` counter, when the course exists, grows by exactly one. */
  function EnrollStudent(s: Store, courseId: string, studentId: string, enrolledAt: string): (r: (Store, Enrollment))
    ensures r.1.courseId == courseId && r.1.studentId == studentId
    ensures EnrollmentIndex(s.enrollments, courseId, studentId).Some? ==>
      r.0 == s && r.1 == s.enrollments[EnrollmentIndex(s.enrollments, courseId, studentId).value]
    ensures EnrollmentIndex(s.enrollments, courseId, studentId).None? ==>
      && r.1 == Enrollment(courseId, studentId, 0, false, enrolledAt)
      && r.0.enrollments == s.enrollments + [r.1]
      && |r.0.courses| == |s.courses|
      && (CourseIndex(s.courses, courseId).None? ==> r.0.courses == s.courses)
      && (CourseIndex(s.courses, courseId).Some? ==>
            var i := CourseIndex(s.courses, courseId).value;
            && r.0.courses[i] == s.courses[i].(students := s.courses[i].students + 1)
            && forall j :: 0 <= j < |s.courses| && j != i ==> r.0.courses[j] == s.courses[j])
    ensures r.0.lessons == s.lessons && r.0.assignments == s.assignments
    ensures r.0.quizzes == s.quizzes && r.0.completed == s.completed
  {
    match EnrollmentIndex(s.enrollments, courseId, studentId)
    case Some(i) => (s, s.enrollments[i])
    case None =>
      var e := Enrollment(courseId, studentId, 0, false, enrolledAt);
      (BumpStudents(s.(enrollments := s.enrollments + [e]), courseId), e)
  }

  /** Enrolling twice is enrolling once: the second call returns the first call's record
      (with its `enrolledAt`) and changes nothing. */
  lemma EnrollStudentIdempotent(s: Store, courseId: string, studentId: string, t1: string, t2: string)
    ensures
      var first := EnrollStudent(s, courseId, studentId, t1);
      EnrollStudent(first.0, courseId, studentId, t2) == first
  {
    var first := EnrollStudent(s, courseId, studentId, t1);
    if EnrollmentIndex(s.enrollments, courseId, studentId).None? {
      var n := |s.enrollments|;
      assert first.0.enrollments[n] == first.1;
      assert forall j :: 0 <= j < n ==> first.0.enrollments[j] == s.enrollments[j];
      assert EnrollmentIndex(first.0.enrollments, courseId, studentId) == Some(n);
    }
  }

  /** The enrollments of one course. */
  function EnrollmentsOf(es: seq<Enrollment>, courseId: string): seq<Enrollment>
  {
    Filter(es, (e: Enrollment) => e.courseId == courseId)
  }

  /** The course's `students` counter equals its number of enrollments. */
  predicate StudentCounterAccurate(s: Store, courseId: string)
  {
    match CourseIndex(s.courses, courseId)
    case None => true
    case Some(i) => s.courses[i].students == |EnrollmentsOf(s.enrollments, courseId)|
  }

  /** Enrolling keeps an accurate `students` counter accurate. */
  lemma EnrollKeepsStudentCounter(s: Store, courseId: string, studentId: string, enrolledAt: string)
    requires StudentCounterAccurate(s, courseId)
    ensures StudentCounterAccurate(EnrollStudent(s, courseId, studentId, enrolledAt).0, courseId)
  {
    var r := EnrollStudent(s, courseId, studentId, enrolledAt);
    if EnrollmentIndex(s.enrollments, courseId, studentId).None? {
      var p := (e: Enrollment) => e.courseId == courseId;
      FilterConcat(s.enrollments, [r.1], p);
      assert Filter([r.1], p) == [r.1];
      assert |EnrollmentsOf(r.0.enrollments, courseId)| == |EnrollmentsOf(s.enrollments, courseId)| + 1;
      if CourseIndex(s.courses, courseId).Some? {
        var i := CourseIndex(s.courses, courseId).value;
        assert r.0.courses == s.courses[i := r.0.courses[i]];
        CourseIndexAfterReplace(s.courses, courseId, r.0.courses[i]);
      }
    }
  }

  /** At most one enrollment per (course, student) pair is an invariant of enrolling. */
  lemma EnrollKeepsPairsUnique(s: Store, courseId: string, studentId: string, enrolledAt: string)
    requires NoDuplicates(EnrollmentPairs(s.enrollments))
    ensures NoDuplicates(EnrollmentPairs(EnrollStudent(s, courseId, studentId, enrolledAt).0.enrollments))
  {
  }

  /** A freshly created enrollment is consistent. */
  lemma EnrollKeepsConsistent(s: Store, courseId: string, studentId: string, enrolledAt: string)
    requires AllConsistent(s.enrollments)
    ensures AllConsistent(EnrollStudent(s, courseId, studentId, enrolledAt).0.enrollments)
  {
  }

  // ------------------------------------------------------ completion lists

  /** `markLessonCompleted` / `markQuizCompleted`, which differ only in the list they use:
      an id already in the list changes nothing; otherwise it is appended and the
      enrollment of the pair, if any, receives the recomputed progress. */
  function MarkCompleted(s: Store, kind: CompletionKind, courseId: string, itemId: string, studentId: string): (r: Store)
    ensures itemId in CompletedList(s, kind, studentId, courseId) ==> r == s
    ensures itemId !in CompletedList(s, kind, studentId, courseId) ==>
      CompletedList(r, kind, studentId, courseId) == CompletedList(s, kind, studentId, courseId) + [itemId]
    ensures forall k :: k != CompletionKey(kind, studentId, courseId) ==>
      (k in r.completed <==> k in s.completed) && (k in s.completed ==> r.completed[k] == s.completed[k])
    ensures r.courses == s.courses && r.lessons == s.lessons
    ensures r.assignments == s.assignments && r.quizzes == s.quizzes
    ensures EnrollmentPairs(r.enrollments) == EnrollmentPairs(s.enrollments)
    ensures forall i :: 0 <= i < |s.enrollments| && EnrollmentIndex(s.enrollments, courseId, studentId) != Some(i) ==>
      r.enrollments[i] == s.enrollments[i]
    ensures itemId !in CompletedList(s, kind, studentId, courseId) && EnrollmentIndex(s.enrollments, courseId, studentId).Some? ==>
      var i := EnrollmentIndex(s.enrollments, courseId, studentId).value;
      var p := CalculateCourseProgress(r, courseId, studentId);
      r.enrollments[i] == s.enrollments[i].(progress := Clamp(p), completed := p >= 100)
  {
    var key := CompletionKey(kind, studentId, courseId);
    var list := CompletedList(s, kind, studentId, courseId);
    if itemId in list then s
    else
      var s1 := s.(completed := s.completed[key := list + [itemId]]);
      var updated := UpdateEnrollmentProgress(s1, courseId, studentId, CalculateCourseProgress(s1, courseId, studentId)).0;
      ProgressIgnoresEnrollments(s1, updated.enrollments, courseId, studentId);
      assert EnrollmentIndex(s1.enrollments, courseId, studentId).Some? ==>
        EnrollmentPairs(updated.enrollments) == EnrollmentPairs(s1.enrollments);
      updated
  }

  /** `markLessonCompleted`: afterwards the lesson is in the student's list for the
      course, and no quiz list has changed. */
  function MarkLessonCompleted(s: Store, courseId: string, lessonId: string, studentId: string): (r: Store)
    ensures lessonId in CompletedList(r, LessonList, studentId, courseId)
    ensures forall u, c :: CompletedList(r, QuizList, u, c) == CompletedList(s, QuizList, u, c)
  {
    MarkCompleted(s, LessonList, courseId, lessonId, studentId)
  }

  /** `markQuizCompleted`: afterwards the quiz is in the student's list for the course,
      and no lesson list has changed. */
  function MarkQuizCompleted(s: Store, courseId: string, quizId: string, studentId: string): (r: Store)
    ensures quizId in CompletedList(r, QuizList, studentId, courseId)
    ensures forall u, c :: CompletedList(r, LessonList, u, c) == CompletedList(s, LessonList, u, c)
  {
    MarkCompleted(s, QuizList, courseId, quizId, studentId)
  }

  /** Marking the same item twice gives the same store as marking it once. */
  lemma MarkCompletedIdempotent(s: Store, kind: CompletionKind, courseId: string, itemId: string, studentId: string)
    ensures
      var once := MarkCompleted(s, kind, courseId, itemId, studentId);
      MarkCompleted(once, kind, courseId, itemId, studentId) == once
  {
  }

  /** Lists built only by marking stay duplicate-free. */
  lemma MarkKeepsListDistinct(s: Store, kind: CompletionKind, courseId: string, itemId: string, studentId: string)
    requires NoDuplicates(CompletedList(s, kind, studentId, courseId))
    ensures NoDuplicates(CompletedList(MarkCompleted(s, kind, courseId, itemId, studentId), kind, studentId, courseId))
  {
  }

  /** Marking a lesson or quiz that belongs to the course keeps the student's lists sound,
      so the recomputed progress stays within [0, 100]. */
  lemma MarkKeepsSound(s: Store, kind: CompletionKind, courseId: string, itemId: string, studentId: string)
    requires CompletionSound(s, studentId, courseId)
    requires kind == LessonList ==> itemId in LessonIds(LessonsOf(s.lessons, courseId))
    requires kind == QuizList ==> itemId in QuizIds(QuizzesOf(s.quizzes, courseId))
    ensures CompletionSound(MarkCompleted(s, kind, courseId, itemId, studentId), studentId, courseId)
    ensures CalculateCourseProgress(MarkCompleted(s, kind, courseId, itemId, studentId), courseId, studentId) <= 100
  {
    var r := MarkCompleted(s, kind, courseId, itemId, studentId);
    var list := CompletedList(s, kind, studentId, courseId);
    if itemId !in list {
      var other := if kind == LessonList then QuizList else LessonList;
      assert CompletionKey(other, studentId, courseId) != CompletionKey(kind, studentId, courseId);
      assert CompletedList(r, other, studentId, courseId) == CompletedList(s, other, studentId, courseId);
      AppendKeepsSound(s, r, kind, courseId, itemId, studentId);
    }
  }

  /** Marking the last missing lesson or quiz of a course whose assignments are all done
      brings the student's enrollment to 100 and marks it completed. */
  lemma MarkingLastItemCompletes(s: Store, kind: CompletionKind, courseId: string, itemId: string, studentId: string)
    requires CompletionSound(s, studentId, courseId)
    requires kind == LessonList ==> itemId in LessonIds(LessonsOf(s.lessons, courseId))
    requires kind == QuizList ==> itemId in QuizIds(QuizzesOf(s.quizzes, courseId))
    requires itemId !in CompletedList(s, kind, studentId, courseId)
    requires EnrollmentIndex(s.enrollments, courseId, studentId).Some?
    requires FindCourse(s.courses, courseId).Some?
    requires |LessonsOf(s.lessons, courseId)| > 0
    requires |AssignmentsOf(s.assignments, courseId)| > 0
    requires |QuizzesOf(s.quizzes, courseId)| > 0
    requires NoDuplicates(LessonIds(LessonsOf(s.lessons, courseId)))
    requires NoDuplicates(QuizIds(QuizzesOf(s.quizzes, courseId)))
    requires forall a :: a in AssignmentsOf(s.assignments, courseId) ==> IsDone(a)
    requires forall x :: x in LessonIds(LessonsOf(s.lessons, courseId)) ==>
      x in CompletedList(s, LessonList, studentId, courseId) || (kind == LessonList && x == itemId)
    requires forall x :: x in QuizIds(QuizzesOf(s.quizzes, courseId)) ==>
      x in CompletedList(s, QuizList, studentId, courseId) || (kind == QuizList && x == itemId)
    ensures
      var r := MarkCompleted(s, kind, courseId, itemId, studentId);
      var i := EnrollmentIndex(s.enrollments, courseId, studentId).value;
      r.enrollments[i].progress == 100 && r.enrollments[i].completed
  {
    var r := MarkCompleted(s, kind, courseId, itemId, studentId);
    var other := if kind == LessonList then QuizList else LessonList;
    assert CompletionKey(other, studentId, courseId) != CompletionKey(kind, studentId, courseId);
    assert CompletedList(r, other, studentId, courseId) == CompletedList(s, other, studentId, courseId);
    MarkKeepsSound(s, kind, courseId, itemId, studentId);
    FullCompletionIsHundred(r, courseId, studentId);
  }

  /** Appending a new id of the course to one list, and nothing else, keeps the lists sound. */
  lemma AppendKeepsSound(s: Store, r: Store, kind: CompletionKind, courseId: string, itemId: string, studentId: string)
    requires CompletionSound(s, studentId, courseId)
    requires kind == LessonList ==> itemId in LessonIds(LessonsOf(s.lessons, courseId))
    requires kind == QuizList ==> itemId in QuizIds(QuizzesOf(s.quizzes, courseId))
    requires r.lessons == s.lessons && r.quizzes == s.quizzes
    requires itemId !in CompletedList(s, kind, studentId, courseId)
    requires CompletedList(r, kind, studentId, courseId) == CompletedList(s, kind, studentId, courseId) + [itemId]
    requires var other := if kind == LessonList then QuizList else LessonList;
      CompletedList(r, other, studentId, courseId) == CompletedList(s, other, studentId, courseId)
    ensures CompletionSound(r, studentId, courseId)
  {
    var list := CompletedList(s, kind, studentId, courseId);
    assert NoDuplicates(list + [itemId]);
    assert forall x :: x in list + [itemId] ==> x in list || x == itemId;
  }
}
