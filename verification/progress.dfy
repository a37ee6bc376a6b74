/** `calculateCourseProgress` of `lib/data-service.ts`: a student's completion
    of a course as a whole percentage, weighting lessons 60, assignments 25 and
    quizzes 15, on exact reals instead of floating point. */
module Progress {
  import opened Common
  import opened Model

  const LessonWeight: nat := 60
  const AssignmentWeight: nat := 25
  const QuizWeight: nat := 15

  /** One category's contribution: `(done / total) * weight`, or 0 for an empty category. */
  function Share(weight: nat, done: nat, total: nat): (r: real)
    ensures 0.0 <= r
    ensures total == 0 ==> r == 0.0
    ensures done <= total ==> r <= weight as real
    ensures 0 < total && done == total ==> r == weight as real
  {
    if total > 0 then
      var ratio := done as real / total as real;
      assert done <= total ==> ratio <= 1.0;
      ratio * weight as real
    else 0.0
  }

  /** The rounded weighted sum for `cl` of `l` lessons, `ca` of `a` assignments and `cq` of `q` quizzes. */
  function WeightedProgress(cl: nat, l: nat, ca: nat, a: nat, cq: nat, q: nat): (r: int)
    ensures r >= 0
    ensures cl <= l && ca <= a && cq <= q ==> r <= 100
    ensures l == 0 && ca <= a && cq <= q ==> r <= AssignmentWeight + QuizWeight
    ensures 0 < l && 0 < a && 0 < q && cl == l && ca == a && cq == q ==> r == 100
    ensures cl == 0 && ca == 0 && cq == 0 ==> r == 0
  {
    var x := Share(LessonWeight, cl, l) + Share(AssignmentWeight, ca, a) + Share(QuizWeight, cq, q);
    RoundHalfUp(x)
  }

  /** The completion lists of `studentId` in `courseId` hold each id at most once,
      and only ids of the course's current lessons and quizzes. */
  ghost predicate CompletionSound(s: Store, studentId: string, courseId: string)
  {
    var done := CompletedList(s, LessonList, studentId, courseId);
    var passed := CompletedList(s, QuizList, studentId, courseId);
    && NoDuplicates(done)
    && (forall x :: x in done ==> x in LessonIds(LessonsOf(s.lessons, courseId)))
    && NoDuplicates(passed)
    && (forall x :: x in passed ==> x in QuizIds(QuizzesOf(s.quizzes, courseId)))
  }

  function CalculateCourseProgress(s: Store, courseId: string, studentId: string): (p: int)
    ensures p >= 0
    ensures FindCourse(s.courses, courseId).None? ==> p == 0
    ensures |LessonsOf(s.lessons, courseId)| + |AssignmentsOf(s.assignments, courseId)| + |QuizzesOf(s.quizzes, courseId)| == 0 ==> p == 0
    ensures CompletionSound(s, studentId, courseId) ==> p <= 100
    ensures CompletionSound(s, studentId, courseId) && |LessonsOf(s.lessons, courseId)| == 0 ==> p <= AssignmentWeight + QuizWeight
  {
    if FindCourse(s.courses, courseId).None? then 0
    else
      var lessons := LessonsOf(s.lessons, courseId);
      var assignments := AssignmentsOf(s.assignments, courseId);
      var quizzes := QuizzesOf(s.quizzes, courseId);
      var done := CompletedList(s, LessonList, studentId, courseId);
      var submitted := Filter(assignments, IsDone);
      var passed := CompletedList(s, QuizList, studentId, courseId);
      if |lessons| + |assignments| + |quizzes| == 0 then 0
      else
        SoundCountsBounded(s, studentId, courseId);
        WeightedProgress(|done|, |lessons|, |submitted|, |assignments|, |passed|, |quizzes|)
  }

  /** Sound completion lists are no longer than the categories they count. */
  lemma SoundCountsBounded(s: Store, studentId: string, courseId: string)
    ensures CompletionSound(s, studentId, courseId) ==>
      && |CompletedList(s, LessonList, studentId, courseId)| <= |LessonsOf(s.lessons, courseId)|
      && |CompletedList(s, QuizList, studentId, courseId)| <= |QuizzesOf(s.quizzes, courseId)|
  {
    if CompletionSound(s, studentId, courseId) {
      DistinctBoundedBy(CompletedList(s, LessonList, studentId, courseId), LessonIds(LessonsOf(s.lessons, courseId)));
      DistinctBoundedBy(CompletedList(s, QuizList, studentId, courseId), QuizIds(QuizzesOf(s.quizzes, courseId)));
    }
  }

  /** The reference definition: the same percentage on integers only. The weighted
      sum is the fraction n / d over the common denominator d = l'·a'·q', where an
      empty category counts as 1 in d and 0 in n. */
  function IntegerProgress(cl: nat, l: nat, ca: nat, a: nat, cq: nat, q: nat): int
  {
    RoundedFraction(LessonPart(cl, l, a, q) + AssignmentPart(ca, l, a, q) + QuizPart(cq, l, a, q), Denominator(l, a, q))
  }

  function AtLeastOne(n: nat): (r: nat)
    ensures r > 0
  {
    if n > 0 then n else 1
  }

  function Denominator(l: nat, a: nat, q: nat): (d: int)
    ensures d > 0
  {
    PositiveProduct(AtLeastOne(l), AtLeastOne(a), AtLeastOne(q));
    AtLeastOne(l) * (AtLeastOne(a) * AtLeastOne(q))
  }

  function LessonPart(cl: nat, l: nat, a: nat, q: nat): int
  {
    if l > 0 then LessonWeight * cl * (AtLeastOne(a) * AtLeastOne(q)) else 0
  }

  function AssignmentPart(ca: nat, l: nat, a: nat, q: nat): int
  {
    if a > 0 then AssignmentWeight * ca * (AtLeastOne(l) * AtLeastOne(q)) else 0
  }

  function QuizPart(cq: nat, l: nat, a: nat, q: nat): int
  {
    if q > 0 then QuizWeight * cq * (AtLeastOne(l) * AtLeastOne(a)) else 0
  }

  lemma PositiveProduct(x: int, y: int, z: int)
    requires x > 0 && y > 0 && z > 0
    ensures x * (y * z) > 0
  {
  }

  lemma Rearrange(x: int, y: int, z: int)
    ensures x * (y * z) == y * (x * z) == z * (x * y)
  {
  }

  /** A category's share written over the common denominator `d`. */
  lemma CategoryShare(w: nat, done: nat, total: nat, k: nat, d: int)
    requires k > 0
    requires d == AtLeastOne(total) * k
    ensures Share(w, done, total) == (if total > 0 then w * done * k else 0) as real / d as real
  {
    if total > 0 {
      var share := done as real / total as real * w as real;
      assert share * d as real == (w * done * k) as real;
    }
  }

  lemma LessonShare(cl: nat, l: nat, a: nat, q: nat)
    ensures Share(LessonWeight, cl, l) == LessonPart(cl, l, a, q) as real / Denominator(l, a, q) as real
  {
    CategoryShare(LessonWeight, cl, l, AtLeastOne(a) * AtLeastOne(q), Denominator(l, a, q));
  }

  lemma AssignmentShare(ca: nat, l: nat, a: nat, q: nat)
    ensures Share(AssignmentWeight, ca, a) == AssignmentPart(ca, l, a, q) as real / Denominator(l, a, q) as real
  {
    Rearrange(AtLeastOne(l), AtLeastOne(a), AtLeastOne(q));
    CategoryShare(AssignmentWeight, ca, a, AtLeastOne(l) * AtLeastOne(q), Denominator(l, a, q));
  }

  lemma QuizShare(cq: nat, l: nat, a: nat, q: nat)
    ensures Share(QuizWeight, cq, q) == QuizPart(cq, l, a, q) as real / Denominator(l, a, q) as real
  {
    Rearrange(AtLeastOne(l), AtLeastOne(a), AtLeastOne(q));
    CategoryShare(QuizWeight, cq, q, AtLeastOne(l) * AtLeastOne(a), Denominator(l, a, q));
  }

  lemma SumOverCommon(x: int, y: int, z: int, d: int)
    requires d > 0
    ensures x as real / d as real + y as real / d as real + z as real / d as real == (x + y + z) as real / d as real
  {
  }

  lemma RoundSum(x1: real, x2: real, x3: real, n1: int, n2: int, n3: int, d: int)
    requires d > 0
    requires x1 == n1 as real / d as real && x2 == n2 as real / d as real && x3 == n3 as real / d as real
    ensures RoundHalfUp(x1 + x2 + x3) == RoundedFraction(n1 + n2 + n3, d)
  {
    SumOverCommon(n1, n2, n3, d);
    RoundFraction(n1 + n2 + n3, d);
  }

  /** The real-number formula and the integer reference definition agree on every input. */
  lemma WeightedProgressIsIntegerProgress(cl: nat, l: nat, ca: nat, a: nat, cq: nat, q: nat)
    ensures WeightedProgress(cl, l, ca, a, cq, q) == IntegerProgress(cl, l, ca, a, cq, q)
  {
    LessonShare(cl, l, a, q);
    AssignmentShare(ca, l, a, q);
    QuizShare(cq, l, a, q);
    RoundSum(Share(LessonWeight, cl, l), Share(AssignmentWeight, ca, a), Share(QuizWeight, cq, q),
             LessonPart(cl, l, a, q), AssignmentPart(ca, l, a, q), QuizPart(cq, l, a, q), Denominator(l, a, q));
  }

  /** The worked example: 2 lessons, 2 assignments, 1 quiz. One lesson done gives 30;
      one assignment submitted on top gives 42.5, which rounds up to 43. */
  lemma WorkedExample()
    ensures WeightedProgress(1, 2, 0, 2, 0, 1) == 30
    ensures WeightedProgress(1, 2, 1, 2, 0, 1) == 43
  {
    WeightedProgressIsIntegerProgress(1, 2, 0, 2, 0, 1);
    WeightedProgressIsIntegerProgress(1, 2, 1, 2, 0, 1);
  }

  /** Counts are raw list lengths: a lesson list naming two ids against a course
      with a single lesson reports 120. */
  lemma StaleListOvershoots()
    ensures WeightedProgress(2, 1, 0, 0, 0, 0) == 120
  {
    WeightedProgressIsIntegerProgress(2, 1, 0, 0, 0, 0);
  }

  /** Progress reads courses, lessons, assignments, quizzes and completion lists,
      never enrollments, so writing an enrollment back cannot change it. */
  lemma ProgressIgnoresEnrollments(s: Store, es: seq<Enrollment>, courseId: string, studentId: string)
    ensures CalculateCourseProgress(s.(enrollments := es), courseId, studentId) == CalculateCourseProgress(s, courseId, studentId)
  {
  }

  /** Every lesson and quiz of the course recorded (each lesson and quiz id used once in
      the course) and every assignment submitted or graded gives exactly 100, provided
      all three categories are non-empty. */
  lemma FullCompletionIsHundred(s: Store, courseId: string, studentId: string)
    requires FindCourse(s.courses, courseId).Some?
    requires |LessonsOf(s.lessons, courseId)| > 0
    requires |AssignmentsOf(s.assignments, courseId)| > 0
    requires |QuizzesOf(s.quizzes, courseId)| > 0
    requires NoDuplicates(LessonIds(LessonsOf(s.lessons, courseId)))
    requires NoDuplicates(QuizIds(QuizzesOf(s.quizzes, courseId)))
    requires CompletionSound(s, studentId, courseId)
    requires forall x :: x in LessonIds(LessonsOf(s.lessons, courseId)) ==> x in CompletedList(s, LessonList, studentId, courseId)
    requires forall x :: x in QuizIds(QuizzesOf(s.quizzes, courseId)) ==> x in CompletedList(s, QuizList, studentId, courseId)
    requires forall a :: a in AssignmentsOf(s.assignments, courseId) ==> IsDone(a)
    ensures CalculateCourseProgress(s, courseId, studentId) == 100
  {
    DistinctCoverSameLength(CompletedList(s, LessonList, studentId, courseId), LessonIds(LessonsOf(s.lessons, courseId)));
    DistinctCoverSameLength(CompletedList(s, QuizList, studentId, courseId), QuizIds(QuizzesOf(s.quizzes, courseId)));
    var assignments := AssignmentsOf(s.assignments, courseId);
    assert forall i :: 0 <= i < |assignments| ==> IsDone(assignments[i]);
    assert |Filter(assignments, IsDone)| == |assignments|;
  }
}
