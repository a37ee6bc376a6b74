/** The course, lesson and assignment operations of `lib/data-service.ts` as
    transitions of `Store`, including the denormalised `lessons` counter and the
    cascade of `deleteCourse`. Generated ids and timestamps are parameters. */
module Catalog {
  import opened Common
  import opened Model
  import opened Progress

  // ---------------------------------------------------------------- courses

  /** The fields a caller supplies to `createCourse`. */
  datatype CourseDraft = CourseDraft(
    title: string,
    description: string,
    educatorId: string,
    educatorName: string,
    level: Level,
    image: string,
    category: string)

  /** A `Partial<Course>`: the fields present in an update object. */
  datatype CoursePatch = CoursePatch(
    id: Option<string>,
    title: Option<string>,
    description: Option<string>,
    educatorId: Option<string>,
    educatorName: Option<string>,
    level: Option<Level>,
    students: Option<int>,
    lessons: Option<int>,
    image: Option<string>,
    category: Option<string>,
    createdAt: Option<string>)

  const NoCourseChange: CoursePatch :=
    CoursePatch(None, None, None, None, None, None, None, None, None, None, None)

  /** `{ ...course, ...patch }`. */
  function ApplyCoursePatch(c: Course, p: CoursePatch): Course
  {
    Course(
      GetOr(p.id, c.id), GetOr(p.title, c.title), GetOr(p.description, c.description),
      GetOr(p.educatorId, c.educatorId), GetOr(p.educatorName, c.educatorName),
      GetOr(p.level, c.level), GetOr(p.students, c.students), GetOr(p.lessons, c.lessons),
      GetOr(p.image, c.image), GetOr(p.category, c.category), GetOr(p.createdAt, c.createdAt))
  }

  function CreateCourse(s: Store, draft: CourseDraft, id: string, createdAt: string): (r: (Store, Course))
    ensures r.0 == s.(courses := s.courses + [r.1])
    ensures r.1.id == id && r.1.createdAt == createdAt
    ensures r.1.lessons == 0 && r.1.students == 0
    ensures r.1.title == draft.title && r.1.description == draft.description && r.1.level == draft.level
    ensures r.1.educatorId == draft.educatorId && r.1.educatorName == draft.educatorName
    ensures r.1.image == draft.image && r.1.category == draft.category
  {
    var course := Course(id, draft.title, draft.description, draft.educatorId, draft.educatorName,
                         draft.level, 0, 0, draft.image, draft.category, createdAt);
    (s.(courses := s.courses + [course]), course)
  }

  /** A course created under a fresh id is the one `getCourseById` finds afterwards. */
  lemma CreatedCourseIsFound(s: Store, draft: CourseDraft, id: string, createdAt: string)
    requires FindCourse(s.courses, id).None?
    ensures FindCourse(CreateCourse(s, draft, id, createdAt).0.courses, id) == Some(CreateCourse(s, draft, id, createdAt).1)
  {
    var r := CreateCourse(s, draft, id, createdAt);
    var t := r.0.courses;
    assert forall i :: 0 <= i < |s.courses| ==> t[i] == s.courses[i] && t[i].id != id;
    assert t[|s.courses|] == r.1;
  }

  /** Only the first course carrying `id` changes; it takes the present fields of the
      patch; `None` and an unchanged store when no course carries `id`. */
  function UpdateCourse(s: Store, id: string, patch: CoursePatch): (r: (Store, Option<Course>))
    ensures r.1.None? <==> forall i :: 0 <= i < |s.courses| ==> s.courses[i].id != id
    ensures r.1.None? ==> r.0 == s
    ensures r.1.Some? ==> CourseIndex(s.courses, id).Some?
    ensures r.1.Some? ==>
      var i := CourseIndex(s.courses, id).value;
      && r.1.value == ApplyCoursePatch(s.courses[i], patch)
      && r.0 == s.(courses := s.courses[i := r.1.value])
  {
    match CourseIndex(s.courses, id)
    case None => (s, None)
    case Some(i) =>
      var updated := ApplyCoursePatch(s.courses[i], patch);
      (s.(courses := s.courses[i := updated]), Some(updated))
  }

  /** An update object with no fields leaves the store as it was. */
  lemma EmptyPatchChangesNothing(s: Store, id: string)
    ensures UpdateCourse(s, id, NoCourseChange).0 == s
  {
    match CourseIndex(s.courses, id)
    case None =>
    case Some(i) =>
      assert ApplyCoursePatch(s.courses[i], NoCourseChange) == s.courses[i];
      assert s.courses[i := s.courses[i]] == s.courses;
  }

  /** Applying the same update object twice is applying it once, as long as it does not
      rename the course. */
  lemma UpdateCourseIdempotent(s: Store, id: string, patch: CoursePatch)
    requires patch.id.None?
    ensures UpdateCourse(UpdateCourse(s, id, patch).0, id, patch) == UpdateCourse(s, id, patch)
  {
    match CourseIndex(s.courses, id)
    case None =>
    case Some(i) =>
      var t := UpdateCourse(s, id, patch).0;
      assert forall j :: 0 <= j < |t.courses| ==> (t.courses[j].id == id <==> s.courses[j].id == id);
      assert CourseIndex(t.courses, id) == Some(i);
      assert ApplyCoursePatch(t.courses[i], patch) == t.courses[i];
      assert t.courses[i := t.courses[i]] == t.courses;
  }

  /** `deleteCourse`: `false` and no change when no course carries `id`; otherwise every
      such course goes, together with the course's lessons, assignments and quizzes.
      Enrollments and completion lists stay behind. */
  function DeleteCourse(s: Store, id: string): (r: (Store, bool))
    ensures r.1 <==> exists i :: 0 <= i < |s.courses| && s.courses[i].id == id
    ensures !r.1 ==> r.0 == s
    ensures r.1 ==> forall c :: c in r.0.courses <==> c in s.courses && c.id != id
    ensures r.1 ==> forall l :: l in r.0.lessons <==> l in s.lessons && l.courseId != id
    ensures r.1 ==> forall a :: a in r.0.assignments <==> a in s.assignments && a.courseId != id
    ensures r.1 ==> forall q :: q in r.0.quizzes <==> q in s.quizzes && q.courseId != id
    ensures IsSubsequence(r.0.courses, s.courses) && IsSubsequence(r.0.lessons, s.lessons)
    ensures IsSubsequence(r.0.assignments, s.assignments) && IsSubsequence(r.0.quizzes, s.quizzes)
    ensures r.0.enrollments == s.enrollments && r.0.completed == s.completed
  {
    var filtered := Filter(s.courses, (c: Course) => c.id != id);
    if |filtered| == |s.courses| then
      assert IsSubsequence(s.lessons, s.lessons) by { SubsequenceOfItself(s.lessons); }
      assert IsSubsequence(s.courses, s.courses) by { SubsequenceOfItself(s.courses); }
      assert IsSubsequence(s.assignments, s.assignments) by { SubsequenceOfItself(s.assignments); }
      assert IsSubsequence(s.quizzes, s.quizzes) by { SubsequenceOfItself(s.quizzes); }
      (s, false)
    else
      (s.(courses := filtered,
          lessons := Filter(s.lessons, (l: Lesson) => l.courseId != id),
          assignments := Filter(s.assignments, (a: Assignment) => a.courseId != id),
          quizzes := Filter(s.quizzes, (q: Quiz) => q.courseId != id)),
       true)
  }

  lemma {:induction false} SubsequenceOfItself<T>(s: seq<T>)
    ensures IsSubsequence(s, s)
  {
    if |s| > 0 {
      SubsequenceOfItself(s[1..]);
    }
  }

  /** Once a course is deleted, progress in it reads 0 for every student. */
  lemma DeletedCourseHasNoProgress(s: Store, id: string, studentId: string)
    requires DeleteCourse(s, id).1
    ensures CalculateCourseProgress(DeleteCourse(s, id).0, id, studentId) == 0
  {
    var t := DeleteCourse(s, id).0;
    assert forall i :: 0 <= i < |t.courses| ==> t.courses[i] in t.courses;
  }

  // ---------------------------------------------------------------- lessons

  /** The fields a caller supplies to `createLesson`; an `order` of 0 is falsy. */
  datatype LessonDraft = LessonDraft(
    courseId: string,
    title: string,
    description: string,
    videoUrl: string,
    order: int,
    resources: Option<seq<string>>)

  predicate SortedByOrder(ls: seq<Lesson>)
  {
    forall i, j :: 0 <= i < j < |ls| ==> ls[i].order <= ls[j].order
  }

  /** The lessons with a given `order`, in sequence order. */
  function WithOrder(ls: seq<Lesson>, k: int): seq<Lesson>
  {
    Filter(ls, (l: Lesson) => l.order == k)
  }

  /** Places `x` before the first lesson whose order is not smaller. */
  function InsertByOrder(x: Lesson, ls: seq<Lesson>): (r: seq<Lesson>)
    ensures multiset(r) == multiset(ls) + multiset{x}
    ensures |r| == |ls| + 1
    ensures forall y :: y in r <==> y in ls || y == x
  {
    if |ls| == 0 then [x]
    else if x.order <= ls[0].order then [x] + ls
    else
      assert ls == [ls[0]] + ls[1..];
      [ls[0]] + InsertByOrder(x, ls[1..])
  }

  lemma {:induction false} InsertKeepsSorted(x: Lesson, ls: seq<Lesson>)
    requires SortedByOrder(ls)
    ensures SortedByOrder(InsertByOrder(x, ls))
  {
    if |ls| > 0 && x.order > ls[0].order {
      InsertKeepsSorted(x, ls[1..]);
      var rest := InsertByOrder(x, ls[1..]);
      assert forall y :: y in rest ==> ls[0].order <= y.order;
      assert InsertByOrder(x, ls) == [ls[0]] + rest;
    }
  }

  /** Inserting puts `x` ahead of every lesson of its own order and disturbs no other order. */
  lemma {:induction false} InsertWithOrder(x: Lesson, ls: seq<Lesson>, k: int)
    ensures WithOrder(InsertByOrder(x, ls), k) == if x.order == k then [x] + WithOrder(ls, k) else WithOrder(ls, k)
  {
    var r := InsertByOrder(x, ls);
    if |ls| == 0 {
      assert r == [x];
      assert r[1..] == [];
    } else if x.order <= ls[0].order {
      assert r[0] == x && r[1..] == ls;
    } else {
      InsertWithOrder(x, ls[1..], k);
      var rest := InsertByOrder(x, ls[1..]);
      assert r == [ls[0]] + rest;
      assert r[0] == ls[0] && r[1..] == rest;
    }
  }

  /** A stable insertion sort on `order`, the model of `Array.prototype.sort` with the
      comparator `a.order - b.order`. */
  function SortByOrder(ls: seq<Lesson>): (r: seq<Lesson>)
    ensures multiset(r) == multiset(ls)
    ensures |r| == |ls|
    ensures SortedByOrder(r)
  {
    if |ls| == 0 then []
    else
      var rest := SortByOrder(ls[1..]);
      assert ls == [ls[0]] + ls[1..];
      InsertKeepsSorted(ls[0], rest);
      InsertByOrder(ls[0], rest)
  }

  /** Sorting is stable: the lessons sharing any one order keep their relative order. */
  lemma {:induction false} SortByOrderIsStable(ls: seq<Lesson>, k: int)
    ensures WithOrder(SortByOrder(ls), k) == WithOrder(ls, k)
  {
    if |ls| > 0 {
      SortByOrderIsStable(ls[1..], k);
      InsertWithOrder(ls[0], SortByOrder(ls[1..]), k);
    }
  }

  /** `getLessonsByCourse`: the course's lessons, sorted by `order`. */
  function GetLessonsByCourse(s: Store, courseId: string): (r: seq<Lesson>)
    ensures forall l :: l in r ==> l.courseId == courseId
    ensures SortedByOrder(r)
    ensures multiset(r) == multiset(LessonsOf(s.lessons, courseId))
    ensures |r| == |LessonsOf(s.lessons, courseId)|
  {
    var r := SortByOrder(LessonsOf(s.lessons, courseId));
    assert forall l :: l in r ==> l in multiset(LessonsOf(s.lessons, courseId));
    r
  }

  /** Among lessons of equal order, `getLessonsByCourse` keeps the store order. */
  lemma GetLessonsByCourseIsStable(s: Store, courseId: string, k: int)
    ensures WithOrder(GetLessonsByCourse(s, courseId), k) == WithOrder(LessonsOf(s.lessons, courseId), k)
  {
    SortByOrderIsStable(LessonsOf(s.lessons, courseId), k);
  }

  /** `Math.max(...orders)` of a non-empty lesson list. */
  function MaxOrder(ls: seq<Lesson>): (m: int)
    requires |ls| > 0
    ensures forall l :: l in ls ==> l.order <= m
    ensures exists l :: l in ls && l.order == m
  {
    if |ls| == 1 then ls[0].order
    else
      var rest := MaxOrder(ls[1..]);
      assert forall l :: l in ls ==> l == ls[0] || l in ls[1..];
      if ls[0].order >= rest then ls[0].order else rest
  }

  /** The order a new lesson receives: the given one unless it is 0, otherwise one
      past the largest order in the course (1 for an empty course). */
  function NewLessonOrder(s: Store, draft: LessonDraft): (o: int)
    ensures draft.order != 0 ==> o == draft.order
    ensures draft.order == 0 ==> forall l :: l in LessonsOf(s.lessons, draft.courseId) ==> l.order < o
    ensures draft.order == 0 && |LessonsOf(s.lessons, draft.courseId)| == 0 ==> o == 1
    ensures draft.order == 0 && |LessonsOf(s.lessons, draft.courseId)| > 0 ==>
      exists l :: l in LessonsOf(s.lessons, draft.courseId) && l.order == o - 1
  {
    var courseLessons := GetLessonsByCourse(s, draft.courseId);
    var maxOrder := if |courseLessons| > 0 then MaxOrder(courseLessons) else 0;
    assert forall l :: l in LessonsOf(s.lessons, draft.courseId) ==> l in multiset(courseLessons);
    assert forall l :: l in courseLessons ==> l in multiset(LessonsOf(s.lessons, draft.courseId));
    if draft.order != 0 then draft.order else maxOrder + 1
  }

  /** Persists the new lesson (the first half of `createLesson`). */
  function AppendLesson(s: Store, draft: LessonDraft, id: string, createdAt: string): (r: (Store, Lesson))
    ensures r.0 == s.(lessons := s.lessons + [r.1])
    ensures r.1 == Lesson(id, draft.courseId, draft.title, draft.description, draft.videoUrl,
                          NewLessonOrder(s, draft), draft.resources, createdAt)
  {
    var lesson := Lesson(id, draft.courseId, draft.title, draft.description, draft.videoUrl,
                         NewLessonOrder(s, draft), draft.resources, createdAt);
    (s.(lessons := s.lessons + [lesson]), lesson)
  }

  lemma AppendedLessonCounted(s: Store, l: Lesson)
    ensures |LessonsOf(s.lessons + [l], l.courseId)| == |LessonsOf(s.lessons, l.courseId)| + 1
  {
    FilterConcat(s.lessons, [l], (x: Lesson) => x.courseId == l.courseId);
  }

  /** Writes `n` into the `lessons` counter of the course, if it exists. */
  function SetLessonCount(s: Store, courseId: string, n: int): (r: Store)
    ensures CourseIndex(s.courses, courseId).None? ==> r == s
    ensures CourseIndex(s.courses, courseId).Some? ==>
      var i := CourseIndex(s.courses, courseId).value;
      r == s.(courses := s.courses[i := s.courses[i].(lessons := n)])
  {
    if FindCourse(s.courses, courseId).Some? then
      UpdateCourse(s, courseId, NoCourseChange.(lessons := Some(n))).0
    else s
  }

  /** `createLesson` as written: after persisting the lesson it sets the course's
      counter to the stored count plus one, so the counter ends one above the truth. */
  function CreateLesson(s: Store, draft: LessonDraft, id: string, createdAt: string): (r: (Store, Lesson))
    ensures r.0.lessons == s.lessons + [r.1]
    ensures r.1 == Lesson(id, draft.courseId, draft.title, draft.description, draft.videoUrl,
                          NewLessonOrder(s, draft), draft.resources, createdAt)
    ensures CourseIndex(s.courses, draft.courseId).Some? ==>
      var i := CourseIndex(s.courses, draft.courseId).value;
      r.0.courses == s.courses[i := s.courses[i].(lessons := |LessonsOf(r.0.lessons, draft.courseId)| + 1)]
    ensures CourseIndex(s.courses, draft.courseId).None? ==> r.0.courses == s.courses
    ensures r.0.enrollments == s.enrollments && r.0.completed == s.completed
    ensures r.0.assignments == s.assignments && r.0.quizzes == s.quizzes
  {
    var (s1, lesson) := AppendLesson(s, draft, id, createdAt);
    var n := |GetLessonsByCourse(s1, draft.courseId)|;
    assert n == |LessonsOf(s1.lessons, draft.courseId)|;
    (SetLessonCount(s1, draft.courseId, n + 1), lesson)
  }

  /** `createLesson` with the counter set to the true count. */
  function CreateLessonCorrected(s: Store, draft: LessonDraft, id: string, createdAt: string): (r: (Store, Lesson))
    ensures r.0.lessons == s.lessons + [r.1]
    ensures r.1 == Lesson(id, draft.courseId, draft.title, draft.description, draft.videoUrl,
                          NewLessonOrder(s, draft), draft.resources, createdAt)
    ensures CourseIndex(s.courses, draft.courseId).Some? ==>
      var i := CourseIndex(s.courses, draft.courseId).value;
      r.0.courses == s.courses[i := s.courses[i].(lessons := |LessonsOf(r.0.lessons, draft.courseId)|)]
    ensures CourseIndex(s.courses, draft.courseId).None? ==> r.0.courses == s.courses
    ensures r.0.enrollments == s.enrollments && r.0.completed == s.completed
    ensures r.0.assignments == s.assignments && r.0.quizzes == s.quizzes
  {
    var (s1, lesson) := AppendLesson(s, draft, id, createdAt);
    var n := |GetLessonsByCourse(s1, draft.courseId)|;
    assert n == |LessonsOf(s1.lessons, draft.courseId)|;
    (SetLessonCount(s1, draft.courseId, n), lesson)
  }

  /** The course's `lessons` counter equals the number of its stored lessons. */
  predicate LessonCounterAccurate(s: Store, courseId: string)
  {
    match CourseIndex(s.courses, courseId)
    case None => true
    case Some(i) => s.courses[i].lessons == |LessonsOf(s.lessons, courseId)|
  }

  /** As written, creating a lesson in an existing course always leaves its counter
      one above the number of lessons, however accurate it was before. */
  lemma CreateLessonOvercounts(s: Store, draft: LessonDraft, id: string, createdAt: string)
    requires CourseIndex(s.courses, draft.courseId).Some?
    ensures !LessonCounterAccurate(CreateLesson(s, draft, id, createdAt).0, draft.courseId)
    ensures
      var r := CreateLesson(s, draft, id, createdAt).0;
      r.courses[CourseIndex(s.courses, draft.courseId).value].lessons
        == |LessonsOf(s.lessons, draft.courseId)| + 2
  {
    var r := CreateLesson(s, draft, id, createdAt);
    var lesson := r.1;
    AppendedLessonCounted(s, lesson);
  }

  /** The corrected creation keeps the counter accurate. */
  lemma CreateLessonCorrectedCounts(s: Store, draft: LessonDraft, id: string, createdAt: string)
    ensures LessonCounterAccurate(CreateLessonCorrected(s, draft, id, createdAt).0, draft.courseId)
    ensures CourseIndex(s.courses, draft.courseId).Some? ==>
      var r := CreateLessonCorrected(s, draft, id, createdAt).0;
      r.courses[CourseIndex(s.courses, draft.courseId).value].lessons
        == |LessonsOf(s.lessons, draft.courseId)| + 1
  {
    var r := CreateLessonCorrected(s, draft, id, createdAt);
    AppendedLessonCounted(s, r.1);
    RecountIsAccurate(s.(lessons := s.lessons + [r.1]), draft.courseId);
  }

  /** `deleteLesson`: `false` and no change when no lesson carries `id`; otherwise all such
      lessons go and the course of the first one gets its true remaining count. */
  function DeleteLesson(s: Store, id: string): (r: (Store, bool))
    ensures r.1 <==> exists i :: 0 <= i < |s.lessons| && s.lessons[i].id == id
    ensures !r.1 ==> r.0 == s
    ensures r.1 ==> forall l :: l in r.0.lessons <==> l in s.lessons && l.id != id
    ensures IsSubsequence(r.0.lessons, s.lessons)
    ensures r.1 ==>
      var removed := Find(s.lessons, (l: Lesson) => l.id == id).value;
      && LessonCounterAccurate(r.0, removed.courseId)
      && (CourseIndex(s.courses, removed.courseId).None? ==> r.0.courses == s.courses)
      && (CourseIndex(s.courses, removed.courseId).Some? ==>
            var i := CourseIndex(s.courses, removed.courseId).value;
            r.0.courses == s.courses[i := s.courses[i].(lessons := |LessonsOf(r.0.lessons, removed.courseId)|)])
    ensures |r.0.courses| == |s.courses|
    ensures r.0.enrollments == s.enrollments && r.0.completed == s.completed
    ensures r.0.assignments == s.assignments && r.0.quizzes == s.quizzes
  {
    var lesson := Find(s.lessons, (l: Lesson) => l.id == id);
    var filtered := Filter(s.lessons, (l: Lesson) => l.id != id);
    if |filtered| == |s.lessons| then
      SubsequenceOfItself(s.lessons);
      (s, false)
    else
      var s1 := s.(lessons := filtered);
      var courseId := lesson.value.courseId;
      var n := |GetLessonsByCourse(s1, courseId)|;
      RecountIsAccurate(s1, courseId);
      (SetLessonCount(s1, courseId, n), true)
  }

  /** Writing the true count into the counter makes it accurate. */
  lemma RecountIsAccurate(s: Store, courseId: string)
    ensures LessonCounterAccurate(SetLessonCount(s, courseId, |LessonsOf(s.lessons, courseId)|), courseId)
  {
    var n := |LessonsOf(s.lessons, courseId)|;
    if CourseIndex(s.courses, courseId).Some? {
      var i := CourseIndex(s.courses, courseId).value;
      CourseIndexAfterReplace(s.courses, courseId, s.courses[i].(lessons := n));
    }
  }

  // ------------------------------------------------------------ assignments

  /** The fields a caller supplies to `createAssignment`. */
  datatype AssignmentDraft = AssignmentDraft(
    courseId: string,
    title: string,
    description: Option<string>,
    dueDate: string,
    points: int,
    instructions: Option<string>,
    grade: Option<int>)

  /** A `Partial<Assignment>`: the fields present in an update object. */
  datatype AssignmentPatch = AssignmentPatch(
    id: Option<string>,
    courseId: Option<string>,
    title: Option<string>,
    description: Option<string>,
    dueDate: Option<string>,
    points: Option<int>,
    instructions: Option<string>,
    status: Option<AssignmentStatus>,
    grade: Option<int>,
    createdAt: Option<string>)

  /** `{ ...assignment, ...patch }`; a present optional field replaces the stored one. */
  function ApplyAssignmentPatch(a: Assignment, p: AssignmentPatch): Assignment
  {
    Assignment(
      GetOr(p.id, a.id), GetOr(p.courseId, a.courseId), GetOr(p.title, a.title),
      if p.description.Some? then p.description else a.description,
      GetOr(p.dueDate, a.dueDate), GetOr(p.points, a.points),
      if p.instructions.Some? then p.instructions else a.instructions,
      if p.status.Some? then p.status else a.status,
      if p.grade.Some? then p.grade else a.grade,
      GetOr(p.createdAt, a.createdAt))
  }

  /** `createAssignment`: appended with status "pending", so it does not count as done. */
  function CreateAssignment(s: Store, draft: AssignmentDraft, id: string, createdAt: string): (r: (Store, Assignment))
    ensures r.0 == s.(assignments := s.assignments + [r.1])
    ensures r.1.id == id && r.1.courseId == draft.courseId && r.1.createdAt == createdAt
    ensures r.1.status == Some(Pending) && !IsDone(r.1)
    ensures r.1.title == draft.title && r.1.dueDate == draft.dueDate && r.1.points == draft.points
    ensures r.1.description == draft.description && r.1.instructions == draft.instructions && r.1.grade == draft.grade
  {
    var a := Assignment(id, draft.courseId, draft.title, draft.description, draft.dueDate,
                        draft.points, draft.instructions, Some(Pending), draft.grade, createdAt);
    (s.(assignments := s.assignments + [a]), a)
  }

  /** A new assignment adds to the course's total but not to its done count, in every course. */
  lemma CreateAssignmentAddsPendingWork(s: Store, draft: AssignmentDraft, id: string, createdAt: string, courseId: string)
    ensures
      var t := CreateAssignment(s, draft, id, createdAt).0;
      && |Filter(AssignmentsOf(t.assignments, courseId), IsDone)| == |Filter(AssignmentsOf(s.assignments, courseId), IsDone)|
      && |AssignmentsOf(t.assignments, courseId)|
           == |AssignmentsOf(s.assignments, courseId)| + (if draft.courseId == courseId then 1 else 0)
  {
    var r := CreateAssignment(s, draft, id, createdAt);
    var p := (a: Assignment) => a.courseId == courseId;
    FilterConcat(s.assignments, [r.1], p);
    FilterConcat(AssignmentsOf(s.assignments, courseId), Filter([r.1], p), IsDone);
  }

  /** `updateAssignment`: only the first assignment carrying `id` changes. */
  function UpdateAssignment(s: Store, id: string, patch: AssignmentPatch): (r: (Store, Option<Assignment>))
    ensures r.1.None? <==> forall i :: 0 <= i < |s.assignments| ==> s.assignments[i].id != id
    ensures r.1.None? ==> r.0 == s
    ensures r.1.Some? ==>
      var i := FirstIndex(s.assignments, (a: Assignment) => a.id == id).value;
      && r.1.value == ApplyAssignmentPatch(s.assignments[i], patch)
      && r.0 == s.(assignments := s.assignments[i := r.1.value])
    ensures r.1.Some? && patch.status == Some(Submitted) ==> IsDone(r.1.value)
  {
    match FirstIndex(s.assignments, (a: Assignment) => a.id == id)
    case None => (s, None)
    case Some(i) =>
      var updated := ApplyAssignmentPatch(s.assignments[i], patch);
      (s.(assignments := s.assignments[i := updated]), Some(updated))
  }

  /** Applying the same update object twice is applying it once, as long as it does not
      change the assignment's id. */
  lemma UpdateAssignmentIdempotent(s: Store, id: string, patch: AssignmentPatch)
    requires patch.id.None?
    ensures UpdateAssignment(UpdateAssignment(s, id, patch).0, id, patch) == UpdateAssignment(s, id, patch)
  {
    match FirstIndex(s.assignments, (a: Assignment) => a.id == id)
    case None =>
    case Some(i) =>
      var t := UpdateAssignment(s, id, patch).0;
      assert forall j :: 0 <= j < |t.assignments| ==> (t.assignments[j].id == id <==> s.assignments[j].id == id);
      assert FirstIndex(t.assignments, (a: Assignment) => a.id == id) == Some(i);
      assert ApplyAssignmentPatch(t.assignments[i], patch) == t.assignments[i];
      assert t.assignments[i := t.assignments[i]] == t.assignments;
  }
}
