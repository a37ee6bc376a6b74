/** The records of `lib/data-service.ts` and the whole persisted state as one
    immutable value. Each `komplex_*` key of the browser store becomes a field
    of `Store`; the per-student completion lists, stored under the keys
    `komplex_completed_lessons_<student>_<course>` and
    `komplex_completed_quizzes_<student>_<course>`, become one map keyed by
    the same three parts. */
module Model {
  import opened Common

  datatype Level = Beginner | Intermediate | Advanced

  datatype Course = Course(
    id: string,
    title: string,
    description: string,
    educatorId: string,
    educatorName: string,
    level: Level,
    students: int,   // denormalised number of enrollments
    lessons: int,    // denormalised number of lessons
    image: string,
    category: string,
    createdAt: string)

  datatype AssignmentStatus = Pending | Submitted | Graded

  datatype Assignment = Assignment(
    id: string,
    courseId: string,
    title: string,
    description: Option<string>,
    dueDate: string,
    points: int,
    instructions: Option<string>,
    status: Option<AssignmentStatus>,
    grade: Option<int>,
    createdAt: string)

  datatype Lesson = Lesson(
    id: string,
    courseId: string,
    title: string,
    description: string,
    videoUrl: string,
    order: int,
    resources: Option<seq<string>>,
    createdAt: string)

  datatype QuizQuestion = QuizQuestion(
    id: string,
    question: string,
    options: seq<string>,
    correctAnswer: int,   // index of the correct option
    points: int)

  datatype Quiz = Quiz(
    id: string,
    courseId: string,
    title: string,
    description: Option<string>,
    questions: seq<QuizQuestion>,
    timeLimit: int,       // minutes
    passingScore: int,
    createdAt: string)

  datatype Enrollment = Enrollment(
    courseId: string,
    studentId: string,
    progress: int,
    completed: bool,
    enrolledAt: string)

  /** Which of the two completion lists a key addresses. */
  datatype CompletionKind = LessonList | QuizList

  datatype CompletionKey = CompletionKey(kind: CompletionKind, studentId: string, courseId: string)

  datatype Store = Store(
    courses: seq<Course>,
    lessons: seq<Lesson>,
    assignments: seq<Assignment>,
    quizzes: seq<Quiz>,
    enrollments: seq<Enrollment>,
    completed: map<CompletionKey, seq<string>>)

  /** A missing key reads as the empty list. */
  function CompletedList(s: Store, kind: CompletionKind, studentId: string, courseId: string): seq<string>
  {
    var key := CompletionKey(kind, studentId, courseId);
    if key in s.completed then s.completed[key] else []
  }

  /** `getCourseById`: the first course carrying the id. */
  function FindCourse(courses: seq<Course>, id: string): Option<Course>
  {
    Find(courses, (c: Course) => c.id == id)
  }

  function CourseIndex(courses: seq<Course>, id: string): Option<nat>
  {
    FirstIndex(courses, (c: Course) => c.id == id)
  }

  /** Replacing the first course carrying `id` by another carrying `id` keeps it first. */
  lemma CourseIndexAfterReplace(courses: seq<Course>, id: string, c: Course)
    requires CourseIndex(courses, id).Some? && c.id == id
    ensures CourseIndex(courses[CourseIndex(courses, id).value := c], id) == CourseIndex(courses, id)
  {
    var i := CourseIndex(courses, id).value;
    var t := courses[i := c];
    assert forall j :: 0 <= j < i ==> t[j] == courses[j];
    FirstIndexIs(t, (x: Course) => x.id == id, i);
  }

  /** The lessons, assignments and quizzes belonging to one course, in store order. */
  function LessonsOf(lessons: seq<Lesson>, courseId: string): seq<Lesson>
  {
    Filter(lessons, (l: Lesson) => l.courseId == courseId)
  }

  function AssignmentsOf(assignments: seq<Assignment>, courseId: string): seq<Assignment>
  {
    Filter(assignments, (a: Assignment) => a.courseId == courseId)
  }

  function QuizzesOf(quizzes: seq<Quiz>, courseId: string): seq<Quiz>
  {
    Filter(quizzes, (q: Quiz) => q.courseId == courseId)
  }

  function LessonIds(lessons: seq<Lesson>): seq<string>
  {
    Map(lessons, (l: Lesson) => l.id)
  }

  function QuizIds(quizzes: seq<Quiz>): seq<string>
  {
    Map(quizzes, (q: Quiz) => q.id)
  }

  /** An assignment counts as done once it is submitted or graded; the status is
      stored on the assignment itself, shared by every student. */
  predicate IsDone(a: Assignment)
  {
    a.status == Some(Submitted) || a.status == Some(Graded)
  }

  /** The (course, student) pair identifying an enrollment, per position. */
  function EnrollmentPairs(es: seq<Enrollment>): (r: seq<(string, string)>)
    ensures |r| == |es|
    ensures forall i :: 0 <= i < |r| ==> r[i] == (es[i].courseId, es[i].studentId)
  {
    seq(|es|, i requires 0 <= i < |es| => (es[i].courseId, es[i].studentId))
  }

  /** The position of the enrollment of `studentId` in `courseId`, as `findIndex` finds it. */
  function EnrollmentIndex(es: seq<Enrollment>, courseId: string, studentId: string): (r: Option<nat>)
    ensures r.None? <==> forall i :: 0 <= i < |es| ==> !(es[i].courseId == courseId && es[i].studentId == studentId)
    ensures r.Some? ==> r.value < |es| && es[r.value].courseId == courseId && es[r.value].studentId == studentId
    ensures r.Some? ==> forall j :: 0 <= j < r.value ==> !(es[j].courseId == courseId && es[j].studentId == studentId)
  {
    var pairs := EnrollmentPairs(es);
    FirstIndex(pairs, (pr: (string, string)) => pr == (courseId, studentId))
  }
}
