/** The data side of `refreshDashboard` in `components/student/dashboard-overview.tsx`:
    recompute and write back the progress of each of the student's enrollments whose
    course still exists, average it, pick the pending assignments of those courses, and
    sort the courses into completed, in progress and not started. */
module StudentDashboard {
  import opened Common
  import opened Model
  import opened Progress
  import opened Enrollments
  import opened Catalog

  /** `getEnrollmentsByStudent`. */
  function EnrollmentsOfStudent(es: seq<Enrollment>, studentId: string): (r: seq<Enrollment>)
    ensures forall e :: e in r <==> e in es && e.studentId == studentId
  {
    Filter(es, (e: Enrollment) => e.studentId == studentId)
  }

  /** One dashboard row: the enrollment with its progress replaced by the fresh value,
      and the course it belongs to. */
  datatype Entry = Entry(record: Enrollment, course: Course)

  /** The enrollments whose course is still in the catalogue, in order. */
  function WithCourse(courses: seq<Course>, es: seq<Enrollment>): (r: seq<Enrollment>)
    ensures forall e :: e in r <==> e in es && FindCourse(courses, e.courseId).Some?
  {
    Filter(es, (e: Enrollment) => FindCourse(courses, e.courseId).Some?)
  }

  /** Two stores differing at most in the cached progress of the enrollments. */
  predicate SameExceptProgress(a: Store, b: Store)
  {
    && a.courses == b.courses && a.lessons == b.lessons && a.assignments == b.assignments
    && a.quizzes == b.quizzes && a.completed == b.completed
    && EnrollmentPairs(a.enrollments) == EnrollmentPairs(b.enrollments)
  }

  lemma SameStoreSameProgress(a: Store, b: Store, courseId: string, studentId: string)
    requires SameExceptProgress(a, b)
    ensures CalculateCourseProgress(a, courseId, studentId) == CalculateCourseProgress(b, courseId, studentId)
  {
    ProgressIgnoresEnrollments(b, a.enrollments, courseId, studentId);
    assert a == b.(enrollments := a.enrollments);
  }

  /** The first enrollment of a pair is determined by the pairs alone. */
  lemma IndexFollowsPairs(a: seq<Enrollment>, b: seq<Enrollment>, courseId: string, studentId: string)
    requires EnrollmentPairs(a) == EnrollmentPairs(b)
    ensures EnrollmentIndex(a, courseId, studentId) == EnrollmentIndex(b, courseId, studentId)
  {
    assert |a| == |EnrollmentPairs(a)| == |b|;
    assert forall i :: 0 <= i < |a| ==>
      (a[i].courseId == courseId && a[i].studentId == studentId <==> b[i].courseId == courseId && b[i].studentId == studentId)
    by {
      forall i | 0 <= i < |a|
        ensures (a[i].courseId == courseId && a[i].studentId == studentId <==> b[i].courseId == courseId && b[i].studentId == studentId)
      {
        assert EnrollmentPairs(a)[i] == EnrollmentPairs(b)[i];
      }
    }
  }

  /** `updateEnrollmentProgress` only touches the cached progress. */
  lemma UpdateIsProgressOnly(s: Store, courseId: string, studentId: string, p: int)
    ensures SameExceptProgress(s, UpdateEnrollmentProgress(s, courseId, studentId, p).0)
  {
    var r := UpdateEnrollmentProgress(s, courseId, studentId, p);
    if r.1.Some? {
      var i := EnrollmentIndex(s.enrollments, courseId, studentId).value;
      assert forall j :: 0 <= j < |s.enrollments| ==>
        EnrollmentPairs(r.0.enrollments)[j] == EnrollmentPairs(s.enrollments)[j];
    }
  }

  /** `WithCourse` peels off its first enrollment. */
  lemma WithCourseCons(courses: seq<Course>, es: seq<Enrollment>)
    requires |es| > 0
    ensures FindCourse(courses, es[0].courseId).Some? ==> WithCourse(courses, es) == [es[0]] + WithCourse(courses, es[1..])
    ensures FindCourse(courses, es[0].courseId).None? ==> WithCourse(courses, es) == WithCourse(courses, es[1..])
  {
  }

  /** `row` is what the dashboard shows for `e` on store `s`: the enrollment with its
      progress replaced by the recomputed value, and the course `getCourseById` finds. */
  predicate RowOf(s: Store, e: Enrollment, studentId: string, row: Entry)
  {
    && row.record == e.(progress := CalculateCourseProgress(s, e.courseId, studentId))
    && FindCourse(s.courses, e.courseId) == Some(row.course)
  }

  /** The rows as they would be computed on `s` alone, without writing anything back. */
  function FreshRows(s: Store, es: seq<Enrollment>, studentId: string): (r: seq<Entry>)
    ensures |r| == |WithCourse(s.courses, es)|
    ensures forall i :: 0 <= i < |r| ==> RowOf(s, WithCourse(s.courses, es)[i], studentId, r[i])
    decreases |es|
  {
    if |es| == 0 then []
    else
      var e := es[0];
      var rest := FreshRows(s, es[1..], studentId);
      WithCourseCons(s.courses, es);
      match FindCourse(s.courses, e.courseId)
      case None => rest
      case Some(c) =>
        var row := Entry(e.(progress := CalculateCourseProgress(s, e.courseId, studentId)), c);
        var rel := (x: Enrollment, y: Entry) => RowOf(s, x, studentId, y);
        ConsPointwise(e, WithCourse(s.courses, es[1..]), row, rest, rel);
        [row] + rest
  }

  /** A relation holding pointwise between two lists still holds after consing a related pair. */
  lemma ConsPointwise<A, B>(x: A, xs: seq<A>, y: B, ys: seq<B>, rel: (A, B) -> bool)
    requires |xs| == |ys| && rel(x, y)
    requires forall i :: 0 <= i < |xs| ==> rel(xs[i], ys[i])
    ensures forall i :: 0 <= i < |xs| + 1 ==> rel(([x] + xs)[i], ([y] + ys)[i])
  {
    forall i | 0 <= i < |xs| + 1
      ensures rel(([x] + xs)[i], ([y] + ys)[i])
    {
      if i > 0 {
        assert ([x] + xs)[i] == xs[i - 1] && ([y] + ys)[i] == ys[i - 1];
      }
    }
  }

  /** The rows depend only on what the progress formula reads. */
  lemma {:induction false} FreshRowsIgnoreProgress(a: Store, b: Store, es: seq<Enrollment>, studentId: string)
    requires SameExceptProgress(a, b)
    ensures FreshRows(a, es, studentId) == FreshRows(b, es, studentId)
    decreases |es|
  {
    if |es| > 0 {
      FreshRowsIgnoreProgress(a, b, es[1..], studentId);
      SameStoreSameProgress(a, b, es[0].courseId, studentId);
    }
  }

  /** The `map` over the student's enrollments: a course that is missing drops the row,
      otherwise the progress is recomputed, written back, and shown unclamped. The rows
      are those computed on the starting store: writing back never changes what a later
      row sees. */
  function Refresh(s: Store, es: seq<Enrollment>, studentId: string): (r: (Store, seq<Entry>))
    ensures SameExceptProgress(s, r.0)
    ensures r.1 == FreshRows(s, es, studentId)
    decreases |es|
  {
    if |es| == 0 then (s, [])
    else
      var e := es[0];
      match FindCourse(s.courses, e.courseId)
      case None =>
        Refresh(s, es[1..], studentId)
      case Some(c) =>
        var p := CalculateCourseProgress(s, e.courseId, studentId);
        var s1 := UpdateEnrollmentProgress(s, e.courseId, studentId, p).0;
        UpdateIsProgressOnly(s, e.courseId, studentId, p);
        var rest := Refresh(s1, es[1..], studentId);
        FreshRowsIgnoreProgress(s1, s, es[1..], studentId);
        (rest.0, [Entry(e.(progress := p), c)] + rest.1)
  }

  /** The enrollment of the pair, if any, holds the clamped progress computed on `s0`. */
  predicate WrittenBack(t: Store, s0: Store, courseId: string, studentId: string)
  {
    match EnrollmentIndex(t.enrollments, courseId, studentId)
    case None => true
    case Some(i) => t.enrollments[i].progress == Clamp(CalculateCourseProgress(s0, courseId, studentId))
  }

  /** Writing back the fresh progress of one pair keeps every other pair written back. */
  lemma UpdateKeepsWrittenBack(s0: Store, t: Store, courseId: string, studentId: string, c: string, u: string)
    requires SameExceptProgress(s0, t)
    requires WrittenBack(t, s0, c, u)
    ensures WrittenBack(UpdateEnrollmentProgress(t, courseId, studentId, CalculateCourseProgress(t, courseId, studentId)).0, s0, c, u)
  {
    var p := CalculateCourseProgress(t, courseId, studentId);
    var t1 := UpdateEnrollmentProgress(t, courseId, studentId, p).0;
    UpdateIsProgressOnly(t, courseId, studentId, p);
    IndexFollowsPairs(t1.enrollments, t.enrollments, c, u);
    if (courseId, studentId) == (c, u) {
      SameStoreSameProgress(s0, t, c, u);
    } else if EnrollmentIndex(t.enrollments, courseId, studentId).Some? && EnrollmentIndex(t.enrollments, c, u).Some? {
      var i := EnrollmentIndex(t.enrollments, courseId, studentId).value;
      var j := EnrollmentIndex(t.enrollments, c, u).value;
      assert i != j;
    }
  }

  lemma {:induction false} RefreshKeepsWrittenBack(s0: Store, t: Store, es: seq<Enrollment>, studentId: string, c: string, u: string)
    requires SameExceptProgress(s0, t)
    requires WrittenBack(t, s0, c, u)
    ensures WrittenBack(Refresh(t, es, studentId).0, s0, c, u)
    decreases |es|
  {
    if |es| > 0 {
      var e := es[0];
      if FindCourse(t.courses, e.courseId).Some? {
        var p := CalculateCourseProgress(t, e.courseId, studentId);
        var t1 := UpdateEnrollmentProgress(t, e.courseId, studentId, p).0;
        UpdateKeepsWrittenBack(s0, t, e.courseId, studentId, c, u);
        UpdateIsProgressOnly(t, e.courseId, studentId, p);
        RefreshKeepsWrittenBack(s0, t1, es[1..], studentId, c, u);
      } else {
        RefreshKeepsWrittenBack(s0, t, es[1..], studentId, c, u);
      }
    }
  }

  /** The store after the refresh has handled one enrollment: its fresh progress
      written back when its course exists, untouched otherwise. */
  function RefreshOne(t: Store, e: Enrollment, studentId: string): (r: Store)
    ensures SameExceptProgress(t, r)
  {
    if FindCourse(t.courses, e.courseId).Some? then
      var p := CalculateCourseProgress(t, e.courseId, studentId);
      UpdateIsProgressOnly(t, e.courseId, studentId, p);
      UpdateEnrollmentProgress(t, e.courseId, studentId, p).0
    else t
  }

  /** One step of the refresh: the first enrollment is handled, then the rest. */
  lemma RefreshStep(t: Store, es: seq<Enrollment>, studentId: string)
    requires |es| > 0
    ensures Refresh(t, es, studentId).0 == Refresh(RefreshOne(t, es[0], studentId), es[1..], studentId).0
  {
  }

  /** The first enrollment, when its course exists, ends up written back. */
  lemma WritesBackFirst(s0: Store, t: Store, es: seq<Enrollment>, studentId: string)
    requires SameExceptProgress(s0, t)
    requires |es| > 0 && FindCourse(t.courses, es[0].courseId).Some?
    ensures WrittenBack(Refresh(t, es, studentId).0, s0, es[0].courseId, studentId)
  {
    var e := es[0];
    var p := CalculateCourseProgress(t, e.courseId, studentId);
    var t1 := UpdateEnrollmentProgress(t, e.courseId, studentId, p).0;
    RefreshStep(t, es, studentId);
    UpdateIsProgressOnly(t, e.courseId, studentId, p);
    SameStoreSameProgress(s0, t, e.courseId, studentId);
    assert WrittenBack(t1, s0, e.courseId, studentId);
    RefreshKeepsWrittenBack(s0, t1, es[1..], studentId, e.courseId, studentId);
  }

  /** After the refresh, the pair of each enrollment whose course exists carries its
      clamped fresh progress in the stored enrollments. */
  lemma {:induction false} RefreshWritesBack(s0: Store, t: Store, es: seq<Enrollment>, studentId: string, k: nat)
    requires SameExceptProgress(s0, t)
    requires k < |es| && FindCourse(t.courses, es[k].courseId).Some?
    ensures WrittenBack(Refresh(t, es, studentId).0, s0, es[k].courseId, studentId)
    decreases |es|
  {
    if k == 0 {
      WritesBackFirst(s0, t, es, studentId);
    } else {
      var t1 := RefreshOne(t, es[0], studentId);
      RefreshWritesBack(s0, t1, es[1..], studentId, k - 1);
      RefreshStep(t, es, studentId);
      assert es[1..][k - 1] == es[k];
    }
  }

  // ------------------------------------------------------------ aggregates

  function TotalProgress(entries: seq<Entry>): int
  {
    if |entries| == 0 then 0 else entries[0].record.progress + TotalProgress(entries[1..])
  }

  lemma {:induction false} TotalWithin(entries: seq<Entry>, lo: int, hi: int)
    requires forall i :: 0 <= i < |entries| ==> lo <= entries[i].record.progress <= hi
    ensures |entries| * lo <= TotalProgress(entries) <= |entries| * hi
    decreases |entries|
  {
    if |entries| > 0 {
      TotalWithin(entries[1..], lo, hi);
    }
  }

  /** `Math.round(total / count)`, or 0 with no rows. */
  function Overall(entries: seq<Entry>): (r: int)
    ensures |entries| == 0 ==> r == 0
  {
    if |entries| == 0 then 0 else RoundHalfUp(TotalProgress(entries) as real / |entries| as real)
  }

  /** The average lies between the smallest and largest possible row progress; in
      particular rows all in [0, 100] average into [0, 100], and rows all equal to `p`
      average to `p`. */
  lemma OverallWithin(entries: seq<Entry>, lo: int, hi: int)
    requires |entries| > 0
    requires forall i :: 0 <= i < |entries| ==> lo <= entries[i].record.progress <= hi
    ensures lo <= Overall(entries) <= hi
  {
    TotalWithin(entries, lo, hi);
    var n := |entries| as real;
    var t := TotalProgress(entries) as real;
    assert n * lo as real <= t <= n * hi as real;
    AverageBetween(t, n, lo as real, hi as real);
    RoundWithin(t / n, lo, hi);
  }

  lemma AverageBetween(t: real, n: real, lo: real, hi: real)
    requires n > 0.0 && n * lo <= t <= n * hi
    ensures lo <= t / n <= hi
  {
    assert t / n - lo == (t - n * lo) / n;
    assert hi - t / n == (n * hi - t) / n;
  }

  /** The average as integer arithmetic. */
  lemma OverallIsIntegerRounding(entries: seq<Entry>)
    requires |entries| > 0
    ensures Overall(entries) == RoundedFraction(TotalProgress(entries), |entries|)
  {
    RoundFraction(TotalProgress(entries), |entries|);
  }

  function CourseIds(entries: seq<Entry>): (r: seq<string>)
    ensures |r| == |entries|
    ensures forall i :: 0 <= i < |r| ==> r[i] == entries[i].record.courseId
  {
    seq(|entries|, i requires 0 <= i < |entries| => entries[i].record.courseId)
  }

  /** The assignments still pending in one of the shown courses, in store order. */
  function PendingAssignments(assignments: seq<Assignment>, entries: seq<Entry>): (r: seq<Assignment>)
    ensures forall a :: a in r <==>
      a in assignments && a.status == Some(Pending) && exists i :: 0 <= i < |entries| && entries[i].record.courseId == a.courseId
    ensures IsSubsequence(r, assignments)
  {
    var ids := CourseIds(entries);
    Filter(assignments, (a: Assignment) => a.status == Some(Pending) && a.courseId in ids)
  }

  /** The pending work listed for a shown course is exactly that course's assignments
      still pending, in store order, and none of the listed work counts as done in the
      progress of its course. */
  lemma PendingOfShownCourse(assignments: seq<Assignment>, entries: seq<Entry>, k: nat)
    requires k < |entries|
    ensures
      var c := entries[k].record.courseId;
      Filter(PendingAssignments(assignments, entries), (a: Assignment) => a.courseId == c)
        == Filter(AssignmentsOf(assignments, c), (a: Assignment) => a.status == Some(Pending))
    ensures forall a :: a in PendingAssignments(assignments, entries) ==> !IsDone(a)
  {
    var c := entries[k].record.courseId;
    var ids := CourseIds(entries);
    assert ids[k] == c;
    FilterTwice(assignments,
      (a: Assignment) => a.status == Some(Pending) && a.courseId in ids, (a: Assignment) => a.courseId == c,
      (a: Assignment) => a.courseId == c, (a: Assignment) => a.status == Some(Pending));
  }

  predicate IsCompleted(e: Entry) { e.record.progress >= 100 }
  predicate IsInProgress(e: Entry) { 0 < e.record.progress < 100 }
  predicate IsNotStarted(e: Entry) { e.record.progress == 0 }
  predicate IsNegative(e: Entry) { e.record.progress < 0 }

  datatype Counts = Counts(total: nat, completed: nat, inProgress: nat, notStarted: nat)

  /** The four numbers of the stat cards. */
  function StatusCounts(entries: seq<Entry>): (r: Counts)
    ensures r.total == |entries|
  {
    Counts(|entries|, |Filter(entries, IsCompleted)|, |Filter(entries, IsInProgress)|, |Filter(entries, IsNotStarted)|)
  }

  /** Every row falls in exactly one of the three buckets or has negative progress. */
  lemma {:induction false} BucketsCoverRows(entries: seq<Entry>)
    ensures |Filter(entries, IsCompleted)| + |Filter(entries, IsInProgress)| + |Filter(entries, IsNotStarted)| + |Filter(entries, IsNegative)| == |entries|
    decreases |entries|
  {
    if |entries| > 0 {
      BucketsCoverRows(entries[1..]);
    }
  }

  /** With no negative progress the three counts partition the rows. */
  lemma StatusCountsPartition(entries: seq<Entry>)
    requires forall i :: 0 <= i < |entries| ==> entries[i].record.progress >= 0
    ensures var c := StatusCounts(entries); c.completed + c.inProgress + c.notStarted == c.total
  {
    BucketsCoverRows(entries);
  }

  /** What the dashboard shows. */
  datatype Dashboard = Dashboard(entries: seq<Entry>, overall: int, pending: seq<Assignment>, counts: Counts)

  /** `refreshDashboard`: nothing happens without a signed-in user; otherwise the rows
      are those computed on the starting store, and only cached progress changes. */
  function RefreshDashboard(s: Store, user: Option<string>): (r: (Store, Option<Dashboard>))
    ensures user.None? || user.value == "" ==> r == (s, None)
    ensures user.Some? && user.value != "" ==>
      && r.1.Some? && SameExceptProgress(s, r.0)
      && r.1.value.entries == FreshRows(s, EnrollmentsOfStudent(s.enrollments, user.value), user.value)
      && r.1.value.overall == Overall(r.1.value.entries)
      && r.1.value.counts == StatusCounts(r.1.value.entries)
      && r.1.value.pending == PendingAssignments(s.assignments, r.1.value.entries)
  {
    if user.None? || user.value == "" then (s, None)
    else
      var u := user.value;
      var rows := Refresh(s, EnrollmentsOfStudent(s.enrollments, u), u);
      var entries := rows.1;
      var d := Dashboard(entries, Overall(entries), PendingAssignments(s.assignments, entries), StatusCounts(entries));
      (rows.0, Some(d))
  }

  /** Each row belongs to the student, to a course that exists, and shows the unclamped
      progress of that course on the starting store; the status counts partition the rows. */
  lemma DashboardRows(s: Store, u: string)
    requires u != ""
    ensures
      var d := RefreshDashboard(s, Some(u)).1.value;
      && |d.entries| == |WithCourse(s.courses, EnrollmentsOfStudent(s.enrollments, u))|
      && (forall i :: 0 <= i < |d.entries| ==>
            && d.entries[i].record.studentId == u
            && FindCourse(s.courses, d.entries[i].record.courseId) == Some(d.entries[i].course)
            && d.entries[i].record.progress == CalculateCourseProgress(s, d.entries[i].record.courseId, u))
      && d.counts.completed + d.counts.inProgress + d.counts.notStarted == d.counts.total == |d.entries|
  {
    var mine := EnrollmentsOfStudent(s.enrollments, u);
    var d := RefreshDashboard(s, Some(u)).1.value;
    forall i | 0 <= i < |d.entries|
      ensures d.entries[i].record.studentId == u
    {
      assert WithCourse(s.courses, mine)[i] in mine;
    }
    StatusCountsPartition(d.entries);
  }

  /** With sound completion lists for every course, the overall progress is a percentage. */
  lemma OverallIsPercentage(s: Store, u: string)
    requires u != ""
    requires forall c :: FindCourse(s.courses, c).Some? ==> CompletionSound(s, u, c)
    ensures 0 <= RefreshDashboard(s, Some(u)).1.value.overall <= 100
  {
    var d := RefreshDashboard(s, Some(u)).1.value;
    DashboardRows(s, u);
    FreshProgressIsPercentage(s, u, d.entries);
    PercentagesAverageToPercentage(d.entries);
  }

  lemma PercentagesAverageToPercentage(entries: seq<Entry>)
    requires forall i :: 0 <= i < |entries| ==> 0 <= entries[i].record.progress <= 100
    ensures 0 <= Overall(entries) <= 100
  {
    if |entries| > 0 {
      OverallWithin(entries, 0, 100);
    }
  }

  /** Rows showing fresh progress over sound completion lists lie in [0, 100]. */
  lemma FreshProgressIsPercentage(s: Store, u: string, entries: seq<Entry>)
    requires forall c :: FindCourse(s.courses, c).Some? ==> CompletionSound(s, u, c)
    requires forall i :: 0 <= i < |entries| ==>
      && FindCourse(s.courses, entries[i].record.courseId).Some?
      && entries[i].record.progress == CalculateCourseProgress(s, entries[i].record.courseId, u)
    ensures forall i :: 0 <= i < |entries| ==> 0 <= entries[i].record.progress <= 100
  {
    forall i | 0 <= i < |entries|
      ensures 0 <= entries[i].record.progress <= 100
    {
      assert CompletionSound(s, u, entries[i].record.courseId);
    }
  }

  /** Deleting a course keeps the completion lists of every remaining course sound, so
      the lists it leaves behind never disturb the dashboard's percentage bound. */
  lemma DeleteCourseKeepsRemainingSound(s: Store, id: string, u: string)
    requires forall c :: FindCourse(s.courses, c).Some? ==> CompletionSound(s, u, c)
    ensures var t := DeleteCourse(s, id).0;
      forall c :: FindCourse(t.courses, c).Some? ==> CompletionSound(t, u, c)
  {
    var t := DeleteCourse(s, id).0;
    forall c | FindCourse(t.courses, c).Some?
      ensures CompletionSound(t, u, c)
    {
      if DeleteCourse(s, id).1 {
        var k :| 0 <= k < |t.courses| && t.courses[k].id == c;
        assert t.courses[k] in t.courses;
        assert t.courses[k] in s.courses;
        assert FindCourse(s.courses, c).Some?;
        assert CompletionSound(s, u, c);
        SameItemsAfterDelete(s, id, c);
      }
    }
  }

  /** The lessons and quizzes of a course other than the deleted one are untouched. */
  lemma SameItemsAfterDelete(s: Store, id: string, c: string)
    requires c != id
    requires DeleteCourse(s, id).1
    ensures LessonsOf(DeleteCourse(s, id).0.lessons, c) == LessonsOf(s.lessons, c)
    ensures QuizzesOf(DeleteCourse(s, id).0.quizzes, c) == QuizzesOf(s.quizzes, c)
  {
    var lk := (l: Lesson) => l.courseId != id;
    var lc := (l: Lesson) => l.courseId == c;
    FilterTwice(s.lessons, lk, lc, lc, lk);
    FilterKeepsAll(Filter(s.lessons, lc), lk);
    var qk := (q: Quiz) => q.courseId != id;
    var qc := (q: Quiz) => q.courseId == c;
    FilterTwice(s.quizzes, qk, qc, qc, qk);
    FilterKeepsAll(Filter(s.quizzes, qc), qk);
  }

  /** After the refresh, each enrolled pair of the student whose course exists holds the
      clamped fresh progress. */
  lemma DashboardWritesBack(s: Store, u: string, courseId: string)
    requires u != ""
    requires FindCourse(s.courses, courseId).Some?
    requires EnrollmentIndex(s.enrollments, courseId, u).Some?
    ensures
      var t := RefreshDashboard(s, Some(u)).0;
      var i := EnrollmentIndex(t.enrollments, courseId, u);
      i.Some? && t.enrollments[i.value].progress == Clamp(CalculateCourseProgress(s, courseId, u))
  {
    var t := RefreshDashboard(s, Some(u)).0;
    RefreshWritesBackOwn(s, u, courseId);
    IndexFollowsPairs(t.enrollments, s.enrollments, courseId, u);
  }

  /** Refreshing all of the student's enrollments writes back each one whose course exists. */
  lemma RefreshWritesBackOwn(s: Store, u: string, courseId: string)
    requires FindCourse(s.courses, courseId).Some?
    requires EnrollmentIndex(s.enrollments, courseId, u).Some?
    ensures WrittenBack(Refresh(s, EnrollmentsOfStudent(s.enrollments, u), u).0, s, courseId, u)
  {
    var mine := EnrollmentsOfStudent(s.enrollments, u);
    var e := s.enrollments[EnrollmentIndex(s.enrollments, courseId, u).value];
    assert e in mine;
    var j :| 0 <= j < |mine| && mine[j] == e;
    RefreshWritesBack(s, s, mine, u, j);
  }
}
