# Course progress and enrollment engine of the Khmer e-learning app, in Dafny

This project models the course-progress and enrollment engine of the app, together with
the small pure rules around it, and proves properties of that model.

- **Data service** (`lib/data-service.ts`). The browser store becomes one immutable
  `Store` value (`model.dfy`). Every operation is a pure function from a store to a new
  store and a result. The operations are:
  - the weighted 60/25/15 course progress with JavaScript rounding (`progress.dfy`);
  - enrolling, progress write-back, and marking lessons and quizzes completed
    (`enrollment.dfy`);
  - creating, updating and deleting courses, lessons and assignments, with the
    denormalised `lessons` counter and the cascade of `deleteCourse` (`catalog.dfy`).
- **Role route gate** (`lib/role-utils.ts`, in `role_utils.dfy`): the ordered prefix
  scan of the restriction table.
- **Quiz player** (`components/student/quiz-player.tsx`, in `quiz_player.dfy`):
  counting, scoring, the pass rule, answer selection, navigation, submission and the
  countdown's timeout branch.
- **Course browse** (`components/student/course-browse.tsx`, in `course_browse.dfy`):
  the search and level filter.
- **Student dashboard** (`components/student/dashboard-overview.tsx`, in
  `student_dashboard.dfy`): the fold in `refreshDashboard` and the status counts.

`common.dfy` holds the array helpers that the JavaScript code leans on (`filter`,
`findIndex`, `find`) and `Math.round`. `Math.round` is `floor(x + 1/2)` on exact reals,
and is proved equal to an integer-only formula.

Deleting a course keeps that course's enrollments and completion lists. This is the
source's behaviour and the model keeps it; `DeletedCourseHasNoProgress` shows that those
orphaned records read as 0 progress.

## Model

| member | source | states |
|---|---|---|
| Progress.WeightedProgress | lib/data-service.ts:514-528 | The result is never negative. With counts bounded by their category sizes it is at most 100. It is 100 when all three categories are non-empty and complete, and 0 with no completions. A course with no lessons caps at 40 (25 + 15), and an empty category never contributes, because the weights are not renormalised. |
| Progress.WeightedProgressIsIntegerProgress | lib/data-service.ts:518-528 | The real-number formula equals an integer-only reference definition over a common denominator, on every input. |
| Progress.CalculateCourseProgress | lib/data-service.ts:490-529 | An unknown course gives 0. A course with no lessons, assignments or quizzes gives 0. The result is at least 0. With sound completion lists it is at most 100, and at most 40 when the course has no lessons. |
| Progress.SoundCountsBounded | lib/data-service.ts:500-512 | Duplicate-free completion lists drawn from the course's own ids are no longer than the lesson and quiz lists. |
| Progress.WorkedExample | lib/data-service.ts:518-528 | 1 of 2 lessons gives 30; adding 1 of 2 assignments gives 43 (42.5 rounded half up). |
| Progress.StaleListOvershoots | lib/data-service.ts:501-503 | Counts are raw list lengths, so two recorded ids against a one-lesson course give 120. |
| Progress.FullCompletionIsHundred | lib/data-service.ts:490-529 | For a course with at least one lesson, one assignment and one quiz, whose lesson ids and quiz ids are each duplicate-free: every lesson and quiz recorded once and every assignment done gives exactly 100. |
| Enrollments.UpdateEnrollmentProgress | lib/data-service.ts:470-488 | With no enrollment for the pair it returns None and changes nothing. Otherwise only the first matching enrollment changes: its progress is the raw value inside [0,100], 0 below and 100 above; `completed` holds iff the raw value is at least 100; identity and date are kept. |
| Enrollments.ClampLaw | lib/data-service.ts:481-485 | -5 stores 0 and not completed; 150 stores 100 and completed. |
| Enrollments.UpdateEnrollmentProgressIdempotent | lib/data-service.ts:470-488 | Writing the same value twice equals writing it once. |
| Enrollments.UpdateKeepsConsistent | lib/data-service.ts:481-485 | If every stored enrollment has progress in [0,100] with `completed` iff 100, an update preserves that. |
| Enrollments.EnrollStudent | lib/data-service.ts:438-460 | An existing pair is returned and the store is unchanged. Otherwise exactly one record is appended (progress 0, not completed), and `students` rises by 1 iff the course exists. |
| Enrollments.EnrollStudentIdempotent | lib/data-service.ts:438-441 | Enrolling twice gives the same store and record as enrolling once. |
| Enrollments.EnrollKeepsStudentCounter | lib/data-service.ts:453-457 | An accurate `students` counter stays accurate. |
| Enrollments.EnrollKeepsPairsUnique | lib/data-service.ts:439-450 | At most one enrollment per (course, student) pair is preserved. |
| Enrollments.EnrollKeepsConsistent | lib/data-service.ts:443-449 | A new enrollment keeps all enrollments consistent. |
| Enrollments.MarkCompleted | lib/data-service.ts:531-567 | An id already in the list changes nothing. Otherwise the id is appended once, and the pair's enrollment gets the clamped recomputed progress and `completed` iff that progress reaches 100, keeping its other fields. Every other list, every other enrollment, and the catalogue are unchanged. |
| Enrollments.MarkLessonCompleted | lib/data-service.ts:531-548 | Afterwards the lesson is in the student's list for the course; no quiz list changed. |
| Enrollments.MarkQuizCompleted | lib/data-service.ts:550-567 | Afterwards the quiz is in the student's list for the course; no lesson list changed. |
| Enrollments.MarkCompletedIdempotent | lib/data-service.ts:540-547 | Marking twice equals marking once. |
| Enrollments.MarkKeepsListDistinct | lib/data-service.ts:540-542 | Lists built by marking stay duplicate-free. |
| Enrollments.MarkKeepsSound | lib/data-service.ts:540-546 | Marking an item of the course keeps the lists sound, so the recomputed progress stays at most 100. |
| Enrollments.MarkingLastItemCompletes | lib/data-service.ts:531-548 | In a course with lessons, assignments and quizzes, all assignments done, and only the marked item missing, marking it sets the enrollment to 100 and completed. |
| Catalog.CreateCourse | lib/data-service.ts:216-228 | Appends one course with the given fields, counters 0, and the supplied id and date; nothing else changes. |
| Catalog.CreatedCourseIsFound | lib/data-service.ts:216-228 | A course created under a fresh id is what `getCourseById` finds afterwards. |
| Catalog.UpdateCourse | lib/data-service.ts:230-237 | With no match it returns None and changes nothing. Otherwise only the first matching course changes, taking exactly the patch's present fields. |
| Catalog.EmptyPatchChangesNothing | lib/data-service.ts:230-237 | An empty update object leaves the store unchanged. |
| Catalog.UpdateCourseIdempotent | lib/data-service.ts:230-237 | Applying an id-preserving update twice equals applying it once. |
| Catalog.DeleteCourse | lib/data-service.ts:239-251 | Returns false, with nothing changed, iff no course has the id. Otherwise exactly the courses, lessons, assignments and quizzes of that id are removed, the order of all four lists is preserved, and enrollments and completion lists stay. |
| Catalog.DeletedCourseHasNoProgress | lib/data-service.ts:239-251 | After deletion, progress in the course reads 0 for every student. |
| Catalog.SortByOrder | lib/data-service.ts:261-265 | The result is a permutation of the input, sorted by `order`. |
| Catalog.SortByOrderIsStable | lib/data-service.ts:261-265 | Lessons of equal order keep their relative order. |
| Catalog.GetLessonsByCourse | lib/data-service.ts:261-265 | The result is exactly the course's lessons (as a multiset), sorted by `order`. |
| Catalog.GetLessonsByCourseIsStable | lib/data-service.ts:261-265 | Among equal orders, store order is kept. |
| Catalog.MaxOrder | lib/data-service.ts:274 | The result bounds every order and is attained. |
| Catalog.NewLessonOrder | lib/data-service.ts:273-279 | A non-zero given order is kept. Otherwise the result is one more than the largest existing order of the course, and 1 for a course with no lessons. |
| Catalog.CreateLesson | lib/data-service.ts:271-292 | As written: appends a lesson made of the draft's fields with the given id, date and computed order, and sets the course's counter to the count after appending plus one. |
| Catalog.CreateLessonOvercounts | lib/data-service.ts:282-289 | As written, the counter ends at the old count plus 2, so it is never accurate. |
| Catalog.CreateLessonCorrected | lib/data-service.ts:271-292 | Corrected: the same lesson is appended, and the counter is set to the true count after appending. |
| Catalog.CreateLessonCorrectedCounts | lib/data-service.ts:282-289 | The corrected creation leaves the counter accurate: the old count plus 1. |
| Catalog.DeleteLesson | lib/data-service.ts:303-319 | Returns false, with nothing changed, iff no lesson has the id. Otherwise all such lessons go, order is preserved, and only the first one's course changes: its counter becomes the number of lessons left in it. |
| Catalog.RecountIsAccurate | lib/data-service.ts:311-316 | Writing a course's true lesson count into its counter makes the counter accurate for that course. |
| Catalog.CreateAssignment | lib/data-service.ts:343-354 | Appends the assignment with status pending, so it does not count as done. |
| Catalog.CreateAssignmentAddsPendingWork | lib/data-service.ts:343-354 | A new assignment raises its course's total by one and leaves every course's done count unchanged. |
| Catalog.UpdateAssignment | lib/data-service.ts:356-363 | With no match it returns None and changes nothing. Otherwise only the first match takes the patch; a patch with status submitted makes it done. |
| Catalog.UpdateAssignmentIdempotent | lib/data-service.ts:356-363 | Applying an id-preserving update twice equals applying it once. |
| RoleUtils.RoleSpecificRoute | lib/role-utils.ts:3-32 | The result is either null or the role's home. It is a redirect iff some table entry covers the route and disallows the role. |
| RoleUtils.ScanRoutes | lib/role-utils.ts:23-31 | Scans the table in order; the result is the role's home iff some scanned entry covers the route and disallows the role. |
| RoleUtils.UnrestrictedRouteIsOpen | lib/role-utils.ts:23-31 | A route no entry covers is open to both roles. |
| RoleUtils.PrefixNeedsBoundary | lib/role-utils.ts:24 | "/coursesX" is not under "/courses"; "/courses/x" is. |
| RoleUtils.EducatorHomeIsOpen | lib/role-utils.ts:3-11 | An educator may open "/dashboard". |
| RoleUtils.EducatorSentHomeFromStudentPages | lib/role-utils.ts:12-19 | An educator on "/dashboard/student" or below "/browse-courses", "/my-courses" or "/my-work" is sent to "/dashboard". |
| RoleUtils.StudentRedirectedToOwnHome | lib/role-utils.ts:11-28 | As written: a student on "/dashboard/student" first matches "/dashboard" and is redirected to "/dashboard/student" itself. |
| RoleUtils.Governing | lib/role-utils.ts:10-20 | Returns a covering entry whose route is at least as long as every covering entry's; None iff no entry covers the route. |
| RoleUtils.RoleSpecificRouteCorrected | lib/role-utils.ts:8-32 | Corrected gate: the result is null or the role's home, and a redirect only when a covering entry disallows the role. |
| RoleUtils.CorrectedGateHasNoLoops | lib/role-utils.ts:3-31 | Under the corrected gate each role may open its own home, so no redirect is ever redirected again. |
| QuizPlayer.CorrectCount | components/student/quiz-player.tsx:88-93 | The count is at most the number of answers and at most the number of questions. |
| QuizPlayer.CorrectCountExtremes | components/student/quiz-player.tsx:88-93 | The count is 0 iff no position is correct. It equals the number of answers iff every position is correct. Positions without a question, and unanswered positions, never count. |
| QuizPlayer.CountCorrect | components/student/quiz-player.tsx:88-93 | The `forEach` loop computes the count. |
| QuizPlayer.ScoreOf | components/student/quiz-player.tsx:94-96 | The score is in [0,100]; it is 100 when all are correct and 0 when none are. |
| QuizPlayer.ScoreIsIntegerRounding | components/student/quiz-player.tsx:94-96 | The score equals `(200·correct + n) div (2n)`. |
| QuizPlayer.ScoreMonotone | components/student/quiz-player.tsx:94-96 | More correct answers never lower the score. |
| QuizPlayer.NearPerfectRoundsToHundred | components/student/quiz-player.tsx:94-96 | 199 of 200 correct scores 100, so a score of 100 does not mean every answer was right. |
| QuizPlayer.Score | components/student/quiz-player.tsx:88-96 | The score of an answer array lies in [0,100]. |
| QuizPlayer.ScoreExtremes | components/student/quiz-player.tsx:88-96 | All answers correct scores 100; none correct scores 0. |
| QuizPlayer.PassThreshold | components/student/quiz-player.tsx:116 | The threshold is the quiz's passing score, or 70 when that is 0. |
| QuizPlayer.PassRule | components/student/quiz-player.tsx:116 | A passing score of 0 grades exactly like 70; full marks pass any threshold of at most 100. |
| QuizPlayer.InitialTime | components/student/quiz-player.tsx:22-27 | The countdown is the limit times 60 seconds, or 1800 when the limit is 0. |
| QuizPlayer.Start | components/student/quiz-player.tsx:108-113 | The session starts on question 0, not submitted, with one unanswered entry per question, scoring 0. |
| QuizPlayer.SelectAnswer | components/student/quiz-player.tsx:68-72 | Only the current position changes, to the chosen option. Writing past the end extends the array with unanswered entries. |
| QuizPlayer.SelectAnswerOverwrites | components/student/quiz-player.tsx:68-72 | The last selection at a position wins. |
| QuizPlayer.SelectStaysWithinQuestions | components/student/quiz-player.tsx:68-84 | While the current question is in range, the answer array never outgrows the question list. |
| QuizPlayer.Next | components/student/quiz-player.tsx:74-78 | Moves forward unless on the last question, keeping the index in range; only the index changes. |
| QuizPlayer.Previous | components/student/quiz-player.tsx:80-84 | Moves back unless at 0; only the index changes. |
| QuizPlayer.NavigationRoundTrip | components/student/quiz-player.tsx:74-84 | Next then previous, or previous then next, returns to the same question whenever the first move was not blocked. |
| QuizPlayer.Submit | components/student/quiz-player.tsx:86-106 | Shows the score. With a signed-in user the quiz is recorded through `markQuizCompleted`; without one the store is unchanged. |
| QuizPlayer.TickScoring | components/student/quiz-player.tsx:29-54 | The timer is idle once submitted or with no questions. A running timer loses one second. At 0 it scores, submits and stops, without touching the store. The answers and position never change, a submitted session stays submitted, and the remaining time never grows. |
| QuizPlayer.TickAsWritten | components/student/quiz-player.tsx:29-54 | As written, a timeout always scores 0. |
| QuizPlayer.TimeoutIgnoresAnswers | components/student/quiz-player.tsx:36-44 | A one-question quiz answered correctly scores 100 on submit but 0 on timeout, as written. |
| QuizPlayer.Tick | components/student/quiz-player.tsx:29-54 | Corrected timeout: scores the current answers; never changes answers or position. |
| QuizPlayer.TimeoutScoresLikeSubmit | components/student/quiz-player.tsx:36-44 | The corrected timeout gives exactly the session that submitting would give, with the clock at 0. |
| CourseBrowse.Contains | components/student/course-browse.tsx:17-18 | `includes` holds iff the needle appears at some position of the haystack. |
| CourseBrowse.FilterCourses | components/student/course-browse.tsx:15-21 | A course is kept iff the lowered search occurs in its lowered title or description and the level selector accepts it. The result is an order-preserving subsequence, and with one level chosen every kept course has it. |
| CourseBrowse.KeptCoursesMatchSearch | components/student/course-browse.tsx:16-18 | Every kept course contains the search text in its title or its description. |
| CourseBrowse.EmptySearchShowsAll | components/student/course-browse.tsx:16-19 | An empty search with all levels keeps the whole list. |
| StudentDashboard.EnrollmentsOfStudent | lib/data-service.ts:462-464 | Exactly the student's enrollments. |
| StudentDashboard.WithCourse | components/student/dashboard-overview.tsx:33-46 | Exactly the enrollments whose course still exists. |
| StudentDashboard.FreshRows | components/student/dashboard-overview.tsx:32-46 | One row per enrollment whose course exists, in order. Each row is that enrollment with the unclamped recomputed progress, plus its course. |
| StudentDashboard.Refresh | components/student/dashboard-overview.tsx:32-46 | The fold changes only cached progress. Its rows equal those computed on the starting store, so writing back never alters a later row. |
| StudentDashboard.RefreshWritesBack | components/student/dashboard-overview.tsx:36-37 | After the fold, each processed pair's stored enrollment holds the clamped fresh progress. |
| StudentDashboard.DashboardWritesBack | components/student/dashboard-overview.tsx:36-37 | After a refresh, each enrolled pair of the student whose course exists stores the clamped recomputed progress. |
| StudentDashboard.Overall | components/student/dashboard-overview.tsx:51-52 | 0 with no rows. |
| StudentDashboard.OverallWithin | components/student/dashboard-overview.tsx:51-52 | The rounded average lies between any integer bounds on the rows' progress. |
| StudentDashboard.OverallIsIntegerRounding | components/student/dashboard-overview.tsx:51-52 | The average equals `(2·sum + n) div (2n)`. |
| StudentDashboard.OverallIsPercentage | components/student/dashboard-overview.tsx:51-52 | When the completion lists of every existing course are sound, the overall progress lies in [0,100]. Lists left behind by deleted courses do not matter. |
| StudentDashboard.DeleteCourseKeepsRemainingSound | lib/data-service.ts:239-251 | Deleting a course keeps the completion lists of every remaining course sound, so the percentage bound survives the lists that the deletion leaves behind. |
| StudentDashboard.PendingAssignments | components/student/dashboard-overview.tsx:56-60 | Exactly the pending assignments of a shown course, in store order. |
| StudentDashboard.PendingOfShownCourse | components/student/dashboard-overview.tsx:56-60 | For a shown course, the listed pending work is exactly that course's pending assignments in store order, and none of it counts as done in the course's progress. |
| StudentDashboard.StatusCounts | components/student/dashboard-overview.tsx:91-94 | The total is the number of rows. |
| StudentDashboard.BucketsCoverRows | components/student/dashboard-overview.tsx:91-94 | Completed, in progress, not started and negative progress together count every row once. |
| StudentDashboard.StatusCountsPartition | components/student/dashboard-overview.tsx:91-94 | With no negative progress the three counts sum to the total. |
| StudentDashboard.RefreshDashboard | components/student/dashboard-overview.tsx:27-63 | Without a signed-in user nothing happens. Otherwise only cached progress changes, the rows are those computed on the starting store for the student's enrollments, and the average, the stat cards and the pending list are all taken from those rows. |
| StudentDashboard.DashboardRows | components/student/dashboard-overview.tsx:27-61 | Each row belongs to the student and to an existing course, and shows the unclamped progress. The status counts partition the rows. |

## Left out

- Storage: `localStorage`, JSON encoding, `initializeData` seeding and the server-side `typeof window` guards. The store is an explicit value, and a parse failure is not modelled.
- Generated ids (`Date.now()`) and timestamps are parameters. Id collisions are not modelled, though the first-match rules say what happens when ids repeat.
- The `progressUpdated` event, the dashboard's 2-second polling and the one-second interval itself. `TickScoring` models one tick of the timer's state update, not the scheduling.
- Floating point: all arithmetic is exact. `Math.round(x)` is `floor(x + 1/2)`. A float sum that lands just below a half can round differently from the exact value.
- `toLowerCase` is the parameter `lower`; Unicode case mapping is not modelled.
- `updateLesson`, `deleteAssignment`, the quiz create/update/delete functions and the read-only getters other than those used here are not modelled: they follow the same patterns as the modelled ones.
- `components/student/assignment-submission.tsx` is not part of this model. Its effect (status submitted, then recompute) is `UpdateAssignment` followed by `CalculateCourseProgress`.
- Rendering, charts, translation, authentication and navigation are not modelled.
- QuizPlayer.CorrectCount: an `undefined` answer at a position with no question would compare equal to the missing question's `undefined` and count. The model never counts such positions. `SelectStaysWithinQuestions` shows the array never grows past the question list, so the case does not arise.
- Progress.CalculateCourseProgress: the upper bound is stated only for sound completion lists (`CompletionSound`), because raw list lengths can exceed the category sizes (`StaleListOvershoots`).

## Findings

| source | as written | input that shows it | evidently intended | confidence | as-written member | corrected member |
|---|---|---|---|---|---|---|
| lib/data-service.ts:282-289 | `createLesson` persists the lesson, then sets the counter to the course's stored lesson count plus one | any lesson created in an existing course: a course with 0 lessons ends with counter 2 and one lesson | the counter equals the number of lessons, as `deleteLesson` sets it | high; not executed | Catalog.CreateLessonOvercounts | Catalog.CreateLessonCorrectedCounts |
| lib/role-utils.ts:11-28 | entries are scanned in table order and the first covering entry that disallows the role redirects | a student on "/dashboard/student" matches "/dashboard" (students disallowed) and is redirected to "/dashboard/student" | the most specific entry decides, so each role may open its own home | medium (`getRoleSpecificRoute` has no caller in the repository); not executed | RoleUtils.StudentRedirectedToOwnHome | RoleUtils.CorrectedGateHasNoLoops |
| components/student/quiz-player.tsx:29-54 | the countdown effect's callback reads `answers` from the render that installed it. The dependencies `[submitted, quiz?.id, quizQuestions.length]` do not change while answering, so it reads the initial empty array | one question answered correctly, then the time runs out: the score is 0, while submitting gives 100 | a timeout scores the answers given so far, like submitting | medium (React closure semantics); not executed | QuizPlayer.TimeoutIgnoresAnswers | QuizPlayer.TimeoutScoresLikeSubmit |
