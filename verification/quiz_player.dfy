/** The pure rules of `components/student/quiz-player.tsx`: counting correct answers,
    the percentage score, the pass threshold, answer selection, question navigation,
    explicit submission and the countdown's timeout branch. */
module QuizPlayer {
  import opened Common
  import opened Model
  import opened Enrollments

  /** The answers array: `None` for a question not answered (`null`, or a hole left by
      writing past the end), `Some(k)` for the chosen option index. */
  type Answers = seq<Option<int>>

  /** The test inside the `forEach`: the answer at `idx` is the question's correct option.
      An index with no question behind it never counts. */
  predicate IsCorrect(questions: seq<QuizQuestion>, answers: Answers, idx: int)
  {
    0 <= idx < |answers| && idx < |questions| && answers[idx] == Some(questions[idx].correctAnswer)
  }

  /** The number of correct answers among the first `|answers|` positions. */
  function CorrectCount(questions: seq<QuizQuestion>, answers: Answers): (n: nat)
    ensures n <= |answers|
    ensures n <= |questions|
    decreases |answers|
  {
    if |answers| == 0 then 0
    else
      var prefix := answers[..|answers| - 1];
      assert forall i :: 0 <= i < |prefix| ==> (IsCorrect(questions, prefix, i) <==> IsCorrect(questions, answers, i));
      CorrectCount(questions, prefix) + (if IsCorrect(questions, answers, |answers| - 1) then 1 else 0)
  }

  /** The count sees only the correct positions: it is zero exactly when no position is
      correct, and it equals the number of answers exactly when every position is. */
  lemma {:induction false} CorrectCountExtremes(questions: seq<QuizQuestion>, answers: Answers)
    ensures CorrectCount(questions, answers) == 0 <==> forall i :: 0 <= i < |answers| ==> !IsCorrect(questions, answers, i)
    ensures CorrectCount(questions, answers) == |answers| <==> forall i :: 0 <= i < |answers| ==> IsCorrect(questions, answers, i)
    decreases |answers|
  {
    if |answers| > 0 {
      var prefix := answers[..|answers| - 1];
      assert forall i :: 0 <= i < |prefix| ==> (IsCorrect(questions, prefix, i) <==> IsCorrect(questions, answers, i));
      CorrectCountExtremes(questions, prefix);
    }
  }

  /** The `answers.forEach` loop of `handleSubmit` and of the timeout branch. */
  method CountCorrect(questions: seq<QuizQuestion>, answers: Answers) returns (count: nat)
    ensures count == CorrectCount(questions, answers)
    ensures count <= |questions|
  {
    count := 0;
    var idx := 0;
    while idx < |answers|
      invariant 0 <= idx <= |answers|
      invariant count == CorrectCount(questions, answers[..idx])
    {
      assert answers[..idx + 1][..idx] == answers[..idx];
      assert IsCorrect(questions, answers[..idx + 1], idx) <==> IsCorrect(questions, answers, idx);
      if idx < |questions| && answers[idx] == Some(questions[idx].correctAnswer) {
        count := count + 1;
      }
      idx := idx + 1;
    }
    assert answers[..idx] == answers;
  }

  /** `Math.round((correctCount / n) * 100)` for `n > 0` questions, and 0 for none. */
  function ScoreOf(correct: nat, total: nat): (score: int)
    requires correct <= total
    ensures 0 <= score <= 100
    ensures total > 0 && correct == total ==> score == 100
    ensures correct == 0 ==> score == 0
  {
    if total > 0 then
      var x := (correct as real / total as real) * 100.0;
      assert 0.0 <= x <= 100.0 by {
        assert correct as real / total as real <= 1.0;
      }
      RoundWithin(x, 0, 100);
      assert correct == total ==> correct as real / total as real == 1.0;
      assert correct == total ==> x == 100.0;
      RoundHalfUp(x)
    else 0
  }

  /** The score as integer arithmetic: `(200·correct + n) div (2·n)`. */
  lemma ScoreIsIntegerRounding(correct: nat, total: nat)
    requires correct <= total && total > 0
    ensures ScoreOf(correct, total) == RoundedFraction(100 * correct, total)
  {
    var c, t := correct as real, total as real;
    assert (c / t) * 100.0 == (100.0 * c) / t;
    assert (100 * correct) as real == 100.0 * c;
    RoundFraction(100 * correct, total);
  }

  /** One more correct answer never lowers the score. */
  lemma ScoreMonotone(c1: nat, c2: nat, total: nat)
    requires c1 <= c2 <= total
    ensures ScoreOf(c1, total) <= ScoreOf(c2, total)
  {
    if total > 0 {
      assert (c1 as real / total as real) * 100.0 <= (c2 as real / total as real) * 100.0 by {
        assert c2 as real / total as real - c1 as real / total as real == (c2 - c1) as real / total as real;
        assert c1 as real / total as real <= c2 as real / total as real;
      }
    }
  }

  /** Rounding can turn a near-perfect score into 100: with 200 questions, 199 correct
      answers score 100, so a score of 100 does not imply that every answer was correct. */
  lemma NearPerfectRoundsToHundred()
    ensures ScoreOf(199, 200) == 100
  {
    ScoreIsIntegerRounding(199, 200);
  }

  /** The final score of a set of answers. */
  function Score(questions: seq<QuizQuestion>, answers: Answers): (score: int)
    ensures 0 <= score <= 100
  {
    ScoreOf(CorrectCount(questions, answers), |questions|)
  }

  /** Answering every question correctly scores 100; answering none correctly scores 0. */
  lemma ScoreExtremes(questions: seq<QuizQuestion>, answers: Answers)
    requires |answers| == |questions|
    ensures |questions| > 0 && (forall i :: 0 <= i < |answers| ==> IsCorrect(questions, answers, i)) ==> Score(questions, answers) == 100
    ensures (forall i :: 0 <= i < |answers| ==> !IsCorrect(questions, answers, i)) ==> Score(questions, answers) == 0
  {
    CorrectCountExtremes(questions, answers);
  }

  /** `score >= (quiz.passingScore || 70)`: a passing score of 0 is falsy and so means 70. */
  function PassThreshold(passingScore: int): (t: int)
    ensures passingScore != 0 ==> t == passingScore
    ensures passingScore == 0 ==> t == 70
  {
    if passingScore == 0 then 70 else passingScore
  }

  predicate Passed(score: int, passingScore: int)
  {
    score >= PassThreshold(passingScore)
  }

  /** A quiz whose passing score is left at 0 is graded exactly like one set to 70, and
      full marks pass any threshold of at most 100. */
  lemma PassRule(score: int, passingScore: int)
    ensures Passed(score, 0) <==> Passed(score, 70)
    ensures Passed(score, 0) <==> score >= 70
    ensures score == 100 && passingScore <= 100 ==> Passed(score, passingScore)
  {
  }

  /** The component's state: the visible question, the answers, whether the result is
      shown, the score, and the seconds left on the countdown. */
  datatype Session = Session(current: nat, answers: Answers, submitted: bool, score: int, timeRemaining: int)

  /** The countdown starts at the quiz's limit in seconds, or 30 minutes when the limit is 0. */
  function InitialTime(timeLimit: int): (t: int)
    ensures timeLimit != 0 ==> t == timeLimit * 60
    ensures timeLimit == 0 ==> t == 1800
  {
    if timeLimit != 0 then timeLimit * 60 else 30 * 60
  }

  /** The session once the initialising effect has filled the answers with `null`s. */
  function Start(quiz: Quiz): (s: Session)
    ensures s.current == 0 && !s.submitted && s.score == 0
    ensures |s.answers| == |quiz.questions|
    ensures forall i :: 0 <= i < |s.answers| ==> s.answers[i] == None
    ensures Score(quiz.questions, s.answers) == 0
  {
    var answers := seq(|quiz.questions|, _ => None);
    CorrectCountExtremes(quiz.questions, answers);
    Session(0, answers, false, 0, InitialTime(quiz.timeLimit))
  }

  /** `handleAnswerSelect`: writes the option at the current position, extending the
      array with unanswered entries when the position lies past its end. */
  function SelectAnswer(s: Session, option: int): (r: Session)
    ensures r == s.(answers := r.answers)
    ensures |r.answers| == if s.current < |s.answers| then |s.answers| else s.current + 1
    ensures r.answers[s.current] == Some(option)
    ensures forall i :: 0 <= i < |s.answers| && i != s.current ==> r.answers[i] == s.answers[i]
    ensures forall i :: |s.answers| <= i < |r.answers| && i != s.current ==> r.answers[i] == None
  {
    if s.current < |s.answers| then s.(answers := s.answers[s.current := Some(option)])
    else s.(answers := s.answers + seq(s.current - |s.answers|, _ => None) + [Some(option)])
  }

  /** The last selection at a position wins. */
  lemma SelectAnswerOverwrites(s: Session, a: int, b: int)
    ensures SelectAnswer(SelectAnswer(s, a), b) == SelectAnswer(s, b)
  {
    var r1 := SelectAnswer(SelectAnswer(s, a), b);
    var r2 := SelectAnswer(s, b);
    assert |r1.answers| == |r2.answers|;
    assert forall i :: 0 <= i < |r1.answers| ==> r1.answers[i] == r2.answers[i];
  }

  /** `handleNext`: forward unless on the last question. */
  function Next(s: Session, questionCount: nat): (r: Session)
    ensures r == s.(current := r.current)
    ensures s.current < questionCount ==> r.current < questionCount
    ensures s.current + 1 < questionCount ==> r.current == s.current + 1
    ensures s.current + 1 >= questionCount ==> r == s
  {
    if s.current < questionCount - 1 then s.(current := s.current + 1) else s
  }

  /** `handlePrevious`: back unless on the first question. */
  function Previous(s: Session): (r: Session)
    ensures r == s.(current := r.current)
    ensures r.current <= s.current
    ensures s.current > 0 ==> r.current == s.current - 1
    ensures s.current == 0 ==> r == s
  {
    if s.current > 0 then s.(current := s.current - 1) else s
  }

  /** Going forward and back again (or back and forward) returns to the same question
      whenever the first move was not blocked. */
  lemma NavigationRoundTrip(s: Session, questionCount: nat)
    ensures s.current + 1 < questionCount ==> Previous(Next(s, questionCount)) == s
    ensures s.current > 0 && s.current < questionCount ==> Next(Previous(s), questionCount) == s
  {
  }

  /** While the visible question is in range, selecting answers never makes the array
      longer than the question list, so no answer ever sits past the last question. */
  lemma SelectStaysWithinQuestions(s: Session, option: int, questionCount: nat)
    requires s.current < questionCount && |s.answers| <= questionCount
    ensures |SelectAnswer(s, option).answers| <= questionCount
  {
  }

  /** `handleSubmit`: shows the score and, with a signed-in user, records the quiz as
      completed for that student. */
  function Submit(s: Session, quiz: Quiz, store: Store, user: Option<string>): (r: (Session, Store))
    ensures r.0 == s.(score := Score(quiz.questions, s.answers), submitted := true)
    ensures user.Some? && user.value != "" ==> quiz.id in CompletedList(r.1, QuizList, user.value, quiz.courseId)
    ensures user.Some? && user.value != "" ==> r.1 == MarkQuizCompleted(store, quiz.courseId, quiz.id, user.value)
    ensures user.None? || user.value == "" ==> r.1 == store
  {
    var scored := s.(score := Score(quiz.questions, s.answers), submitted := true);
    if user.Some? && user.value != "" then (scored, MarkQuizCompleted(store, quiz.courseId, quiz.id, user.value))
    else (scored, store)
  }

  /** One second of the countdown, scoring `scoredAnswers` when the time is up. The
      timer only runs while the result is not shown and the quiz has questions, and it
      never touches the store. */
  function TickScoring(s: Session, questions: seq<QuizQuestion>, scoredAnswers: Answers): (r: Session)
    ensures r.answers == s.answers && r.current == s.current
    ensures s.timeRemaining >= 0 ==> 0 <= r.timeRemaining <= s.timeRemaining
    ensures s.submitted ==> r.submitted
    ensures s.submitted || |questions| == 0 ==> r == s
    ensures !s.submitted && |questions| > 0 && s.timeRemaining > 0 ==> r == s.(timeRemaining := s.timeRemaining - 1)
    ensures !s.submitted && |questions| > 0 && s.timeRemaining <= 0 ==>
      r == s.(score := Score(questions, scoredAnswers), submitted := true, timeRemaining := 0)
  {
    if s.submitted || |questions| == 0 then s
    else if s.timeRemaining <= 0 then s.(score := Score(questions, scoredAnswers), submitted := true, timeRemaining := 0)
    else s.(timeRemaining := s.timeRemaining - 1)
  }

  /** The timeout branch as written: the interval callback reads the `answers` of the
      render that installed the effect, and the effect is installed on the first render,
      before the answers are initialised, and is not reinstalled while answering. */
  function TickAsWritten(s: Session, questions: seq<QuizQuestion>): (r: Session)
    ensures !s.submitted && |questions| > 0 && s.timeRemaining <= 0 ==> r.submitted && r.score == 0
  {
    CorrectCountExtremes(questions, []);
    TickScoring(s, questions, [])
  }

  /** A session with the only answer correct, timed out, scores 0 as written. */
  lemma TimeoutIgnoresAnswers()
    ensures
      var q := QuizQuestion("q1", "?", ["a", "b"], 0, 1);
      var s := Session(0, [Some(0)], false, 0, 0);
      TickAsWritten(s, [q]).score == 0 && Submit(s, Quiz("z", "c", "t", None, [q], 1, 70, ""), Store([], [], [], [], [], map[]), None).0.score == 100
  {
    var q := QuizQuestion("q1", "?", ["a", "b"], 0, 1);
    var s := Session(0, [Some(0)], false, 0, 0);
    CorrectCountExtremes([q], s.answers);
    assert IsCorrect([q], s.answers, 0);
  }

  /** The timeout branch scoring the answers the student has given. */
  function Tick(s: Session, questions: seq<QuizQuestion>): (r: Session)
    ensures r.answers == s.answers && r.current == s.current
  {
    TickScoring(s, questions, s.answers)
  }

  /** Running out of time scores exactly what submitting would have, and leaves the
      store alone; a running countdown only loses a second. */
  lemma TimeoutScoresLikeSubmit(s: Session, quiz: Quiz, store: Store, user: Option<string>)
    requires !s.submitted && |quiz.questions| > 0 && s.timeRemaining <= 0
    ensures Tick(s, quiz.questions) == Submit(s, quiz, store, user).0.(timeRemaining := 0)
  {
  }
}
