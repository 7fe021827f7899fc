/**
 * Quiz scoring, as repeated by the quiz-XP handler, the streak-log handler,
 * the attempt gate, the participant views and the result endpoint.
 *
 * Only the latest answer to each question counts: the one with the highest
 * `RetrySeq`.  An answer is correct when it equals the question's correct
 * letter ignoring case.  A quiz is passed when the number of correct latest
 * answers reaches the daily read's `MinimalCorrectAnswer`.
 */
module QuizScoring {
  import opened Common
  import opened DailyReadData
  import Sorting

  /**
   * The answer that counts for question `k` (`GroupBy(QuestionSeq)` then
   * `OrderByDescending(RetrySeq).First()`): one with the highest retry number,
   * the earliest stored among equals.
   */
  function LatestFor(answers: seq<QuizAnswer>, k: int): (r: Option<QuizAnswer>)
    ensures r.Some? ==> r.value in answers && r.value.questionSeq == k
    ensures r.Some? ==> forall a :: a in answers && a.questionSeq == k ==> a.retrySeq <= r.value.retrySeq
    ensures r.None? <==> forall a :: a in answers ==> a.questionSeq != k
  {
    if |answers| == 0 then None
    else
      var a := answers[|answers| - 1];
      var rest := LatestFor(answers[..|answers| - 1], k);
      assert answers == answers[..|answers| - 1] + [a];
      if a.questionSeq != k then rest
      else if rest.Some? && rest.value.retrySeq >= a.retrySeq then rest
      else Some(a)
  }

  /** The questions that have at least one answer: one latest answer each. */
  function AnsweredSeqs(answers: seq<QuizAnswer>): set<int>
  {
    set a | a in answers :: a.questionSeq
  }

  /** The text of the latest answer to `k`, or "" when there is none (`userAnswer?.Answer ?? ""`). */
  function AnswerText(answers: seq<QuizAnswer>, k: int): string
  {
    match LatestFor(answers, k)
    case None => ""
    case Some(a) => a.answer
  }

  /** `questions.Any(q => q.QuestionSeq == k && q.CorrectAnswer.Equals(text, OrdinalIgnoreCase))`. */
  predicate MatchesQuestion(questions: seq<QuestionRow>, k: int, text: string)
  {
    exists q :: q in questions && q.questionSeq == k && EqualsIgnoreCase(q.correctAnswer, text)
  }

  /** The questions whose latest answer is correct, in the handlers' form: latest answers that match some question. */
  function CorrectLatestSeqs(answers: seq<QuizAnswer>, questions: seq<QuestionRow>): set<int>
  {
    set k | k in AnsweredSeqs(answers) && MatchesQuestion(questions, k, AnswerText(answers, k))
  }

  /** `latestAnswers.Count(a => questions.Any(...))`: one latest answer per answered question. */
  function CorrectLatestCount(answers: seq<QuizAnswer>, questions: seq<QuestionRow>): (r: nat)
    ensures r <= |AnsweredSeqs(answers)|
  {
    CardinalityOfSubset(CorrectLatestSeqs(answers, questions), AnsweredSeqs(answers));
    |CorrectLatestSeqs(answers, questions)|
  }

  lemma CardinalityOfSubset(a: set<int>, b: set<int>)
    requires a <= b
    ensures |a| <= |b|
  {
    assert b == a + (b - a);
  }

  /** The pass test shared by the quiz-XP handler, the streak-log handler and the participant views. */
  predicate Passes(answers: seq<QuizAnswer>, questions: seq<QuestionRow>, minimalCorrectAnswer: int)
    ensures minimalCorrectAnswer <= 0 ==> Passes(answers, questions, minimalCorrectAnswer)
    ensures Passes(answers, questions, minimalCorrectAnswer) ==> minimalCorrectAnswer <= |AnsweredSeqs(answers)|
  {
    CorrectLatestCount(answers, questions) >= minimalCorrectAnswer
  }

  /** With a threshold of 0 every user passes, even one who has not answered at all. */
  lemma ZeroThresholdPasses(answers: seq<QuizAnswer>, questions: seq<QuestionRow>)
    ensures Passes(answers, questions, 0)
    ensures Passes([], questions, 0)
  {
  }

  // ----- the result endpoint's count -----

  /** `GetQuizResultEndpoint`'s loop: one point per question whose latest answer text equals its correct answer. */
  function ResultCount(questions: seq<QuestionRow>, answers: seq<QuizAnswer>): (r: nat)
    ensures r <= |questions|
  {
    if |questions| == 0 then 0
    else
      var q := questions[|questions| - 1];
      ResultCount(questions[..|questions| - 1], answers)
        + (if EqualsIgnoreCase(AnswerText(answers, q.questionSeq), q.correctAnswer) then 1 else 0)
  }

  /** The questions that score a point in `ResultCount`. */
  function CorrectQuestionSeqs(questions: seq<QuestionRow>, answers: seq<QuizAnswer>): set<int>
  {
    set q | q in questions && EqualsIgnoreCase(AnswerText(answers, q.questionSeq), q.correctAnswer) :: q.questionSeq
  }

  predicate DistinctSeqs(questions: seq<QuestionRow>)
  {
    forall i, j :: 0 <= i < j < |questions| ==> questions[i].questionSeq != questions[j].questionSeq
  }

  /** Over questions with distinct numbers the loop counts each correct question once. */
  lemma {:induction false} ResultCountIsCardinality(questions: seq<QuestionRow>, answers: seq<QuizAnswer>)
    requires DistinctSeqs(questions)
    ensures ResultCount(questions, answers) == |CorrectQuestionSeqs(questions, answers)|
  {
    if |questions| > 0 {
      var p := questions[..|questions| - 1];
      var q := questions[|questions| - 1];
      assert DistinctSeqs(p);
      ResultCountIsCardinality(p, answers);
      CorrectSeqsStep(questions, answers);
      LastSeqIsNew(questions, answers);
    }
  }

  lemma CorrectSeqsStep(questions: seq<QuestionRow>, answers: seq<QuizAnswer>)
    requires |questions| > 0
    ensures var q := questions[|questions| - 1];
      CorrectQuestionSeqs(questions, answers)
        == CorrectQuestionSeqs(questions[..|questions| - 1], answers)
           + (if EqualsIgnoreCase(AnswerText(answers, q.questionSeq), q.correctAnswer) then {q.questionSeq} else {})
  {
    var p, q := questions[..|questions| - 1], questions[|questions| - 1];
    assert questions == p + [q];
    assert forall q' :: q' in questions <==> q' in p || q' == q;
  }

  lemma LastSeqIsNew(questions: seq<QuestionRow>, answers: seq<QuizAnswer>)
    requires |questions| > 0 && DistinctSeqs(questions)
    ensures questions[|questions| - 1].questionSeq !in CorrectQuestionSeqs(questions[..|questions| - 1], answers)
  {
    var p := questions[..|questions| - 1];
    var q := questions[|questions| - 1];
    forall q' | q' in p
      ensures q'.questionSeq != q.questionSeq
    {
      var i :| 0 <= i < |p| && p[i] == q';
      assert questions[i] == q';
    }
  }

  /**
   * The two ways the system counts correct answers agree: the result
   * endpoint's per-question loop and the handlers' per-latest-answer count
   * give the same number, provided question numbers are distinct (as the
   * question endpoints keep them) and no correct answer is empty (as every
   * question validator demands).
   */
  lemma ScoresAgree(questions: seq<QuestionRow>, answers: seq<QuizAnswer>)
    requires DistinctSeqs(questions)
    requires forall q :: q in questions ==> q.correctAnswer != ""
    ensures ResultCount(questions, answers) == CorrectLatestCount(answers, questions)
  {
    ResultCountIsCardinality(questions, answers);
    var s := CorrectQuestionSeqs(questions, answers);
    var h := CorrectLatestSeqs(answers, questions);
    forall k | k in s ensures k in h {
      var q :| q in questions && q.questionSeq == k && EqualsIgnoreCase(AnswerText(answers, k), q.correctAnswer);
      assert |Upper(q.correctAnswer)| > 0;
      assert LatestFor(answers, k).Some?;
      assert LatestFor(answers, k).value in answers;
    }
    assert s == h;
  }

  // ----- GET {dailyReadId}/quiz/result -----

  datatype QuizResultResponse = QuizResultResponse(totalQuestions: nat, correctAnswers: nat, minimalCorrectAnswers: int)

  datatype ResultError = QuizNotFound

  /** The daily read's threshold, or 0 when it is missing (`FirstOrDefault` on an int). */
  function MinimalOf(dailyReads: seq<DailyRead>, dailyReadId: int): int
  {
    match FindDailyRead(dailyReads, dailyReadId)
    case None => 0
    case Some(d) => d.minimalCorrectAnswer
  }

  /**
   * `GetQuizResultEndpoint.HandleAsync`.  The source walks the questions in
   * `QuestionSeq` order; the order is not visible in the response, so the
   * walk here is in table order.
   */
  method GetQuizResult(dailyReads: seq<DailyRead>, questionTable: seq<QuestionRow>, answerTable: seq<QuizAnswer>,
                       userId: int, dailyReadId: int)
    returns (r: Result<QuizResultResponse, ResultError>)
    ensures r.Err? <==> |QuestionsOf(questionTable, dailyReadId)| == 0
    ensures r.Ok? ==> r.value.totalQuestions == |QuestionsOf(questionTable, dailyReadId)|
    ensures r.Ok? ==> r.value.correctAnswers == ResultCount(QuestionsOf(questionTable, dailyReadId), AnswersOf(answerTable, userId, dailyReadId))
    ensures r.Ok? ==> r.value.correctAnswers <= r.value.totalQuestions
    ensures r.Ok? ==> r.value.minimalCorrectAnswers == MinimalOf(dailyReads, dailyReadId)
  {
    var questions := QuestionsOf(questionTable, dailyReadId);
    var minimumCorrect := MinimalOf(dailyReads, dailyReadId);
    if |questions| == 0 {
      return Err(QuizNotFound);
    }
    var answers := AnswersOf(answerTable, userId, dailyReadId);
    var correctCount := CountCorrect(questions, answers);
    r := Ok(QuizResultResponse(|questions|, correctCount, minimumCorrect));
  }

  /** The endpoint's loop over the questions. */
  method CountCorrect(questions: seq<QuestionRow>, answers: seq<QuizAnswer>) returns (correctCount: nat)
    ensures correctCount == ResultCount(questions, answers)
  {
    correctCount := 0;
    var i := 0;
    while i < |questions|
      invariant 0 <= i <= |questions|
      invariant correctCount == ResultCount(questions[..i], answers)
    {
      var question := questions[i];
      var userAnswerText := AnswerText(answers, question.questionSeq);
      assert questions[..i + 1][..i] == questions[..i];
      if EqualsIgnoreCase(userAnswerText, question.correctAnswer) {
        correctCount := correctCount + 1;
      }
      i := i + 1;
    }
    assert questions[..i] == questions;
  }

  // ----- GET {dailyReadId}/quiz/attempt -----

  /** A question as handed to a participant: no correct answer. */
  datatype QuestionForAttempt = QuestionForAttempt(questionSeq: int, question: string, choices: seq<QuizChoice>)

  datatype AttemptError = DailyReadNotFound | QuizNotAvailable | QuizAlreadyPassed

  function ForAttempt(q: QuestionRow): QuestionForAttempt
  {
    QuestionForAttempt(q.questionSeq, q.question, q.choices)
  }

  /** `OrderBy(QuestionSeq)`: ascending question numbers. */
  function InSeqOrder(questions: seq<QuestionRow>): (r: seq<QuestionRow>)
    ensures |r| == |questions| && multiset(r) == multiset(questions)
    ensures forall i, j :: 0 <= i < j < |r| ==> r[i].questionSeq <= r[j].questionSeq
  {
    Sorting.SortDesc(questions, (q: QuestionRow) => -q.questionSeq)
  }

  /**
   * `GetQuizQuestionsForAttemptEndpoint.HandleAsync`: a missing daily read is
   * not found; a daily read not dated today (local clock) is not available; a
   * user with at least one answer whose latest answers pass has already
   * passed; otherwise the daily read's questions in ascending number order,
   * without their correct answers.
   */
  function QuizForAttempt(dailyReads: seq<DailyRead>, questionTable: seq<QuestionRow>, answerTable: seq<QuizAnswer>,
                          userId: int, dailyReadId: int, today: Day): (r: Result<seq<QuestionForAttempt>, AttemptError>)
    ensures r == Err(DailyReadNotFound) <==> FindDailyRead(dailyReads, dailyReadId).None?
    ensures r == Err(QuizNotAvailable) <==>
      FindDailyRead(dailyReads, dailyReadId).Some? && FindDailyRead(dailyReads, dailyReadId).value.date != today
    ensures r == Err(QuizAlreadyPassed) <==>
      && FindDailyRead(dailyReads, dailyReadId).Some?
      && FindDailyRead(dailyReads, dailyReadId).value.date == today
      && |AnswersOf(answerTable, userId, dailyReadId)| > 0
      && Passes(AnswersOf(answerTable, userId, dailyReadId), QuestionsOf(questionTable, dailyReadId),
                FindDailyRead(dailyReads, dailyReadId).value.minimalCorrectAnswer)
    ensures r.Ok? ==> |r.value| == |QuestionsOf(questionTable, dailyReadId)|
    ensures r.Ok? ==> multiset(r.value) == multiset(ForAttemptAll(QuestionsOf(questionTable, dailyReadId)))
    ensures r.Ok? ==> forall i, j :: 0 <= i < j < |r.value| ==> r.value[i].questionSeq <= r.value[j].questionSeq
    ensures r.Ok? ==> forall i :: 0 <= i < |r.value| ==> FromQuestion(r.value[i], QuestionsOf(questionTable, dailyReadId))
  {
    match FindDailyRead(dailyReads, dailyReadId)
    case None => Err(DailyReadNotFound)
    case Some(dailyRead) =>
      if dailyRead.date != today then Err(QuizNotAvailable)
      else
        var answers := AnswersOf(answerTable, userId, dailyReadId);
        var questions := QuestionsOf(questionTable, dailyReadId);
        if |answers| > 0 && Passes(answers, questions, dailyRead.minimalCorrectAnswer) then Err(QuizAlreadyPassed)
        else
          Ok(AttemptQuestions(questions))
  }

  /** `x` is one of the questions without its correct answer. */
  predicate FromQuestion(x: QuestionForAttempt, questions: seq<QuestionRow>)
  {
    exists j :: 0 <= j < |questions| && x == ForAttempt(questions[j])
  }

  /** The questions in ascending number order, each without its correct answer. */
  function AttemptQuestions(questions: seq<QuestionRow>): (r: seq<QuestionForAttempt>)
    ensures |r| == |questions|
    ensures multiset(r) == multiset(ForAttemptAll(questions))
    ensures forall i, j :: 0 <= i < j < |r| ==> r[i].questionSeq <= r[j].questionSeq
    ensures forall i :: 0 <= i < |r| ==> FromQuestion(r[i], questions)
  {
    var ordered := InSeqOrder(questions);
    var r := ForAttemptAll(ordered);
    InOrderedIsIn(questions, ordered);
    AttemptRowsFrom(questions, ordered, r);
    ForAttemptAllMultiset(ordered, questions);
    r
  }

  /** Every question, in the given order, without its correct answer. */
  function ForAttemptAll(questions: seq<QuestionRow>): (r: seq<QuestionForAttempt>)
    ensures |r| == |questions|
    ensures forall i :: 0 <= i < |r| ==> r[i] == ForAttempt(questions[i])
  {
    seq(|questions|, i requires 0 <= i < |questions| => ForAttempt(questions[i]))
  }

  /** Dropping the correct answers commutes with reordering: equal multisets of questions give equal multisets of attempt rows. */
  lemma {:induction false} ForAttemptAllMultiset(a: seq<QuestionRow>, b: seq<QuestionRow>)
    requires multiset(a) == multiset(b)
    ensures multiset(ForAttemptAll(a)) == multiset(ForAttemptAll(b))
    decreases |a|
  {
    if a == [] {
      assert |multiset(b)| == 0;
    } else {
      assert a[0] in multiset(a);
      var k :| 0 <= k < |b| && b[k] == a[0];
      var rest := RemoveAt(b, k);
      assert a == [a[0]] + a[1..];
      assert multiset(a[1..]) == multiset(rest);
      ForAttemptAllMultiset(a[1..], rest);
      ForAttemptAllAppend([a[0]], a[1..]);
      ForAttemptAllRemoveAt(b, k);
      calc {
        multiset(ForAttemptAll(a));
        multiset(ForAttemptAll([a[0]])) + multiset(ForAttemptAll(a[1..]));
        { assert ForAttemptAll([a[0]]) == [ForAttempt(b[k])]; }
        multiset{ForAttempt(b[k])} + multiset(ForAttemptAll(rest));
      }
    }
  }

  /** `s` without its element at `k`. */
  function RemoveAt(s: seq<QuestionRow>, k: nat): (r: seq<QuestionRow>)
    requires k < |s|
    ensures multiset(r) == multiset(s) - multiset{s[k]}
  {
    assert s == s[..k] + [s[k]] + s[k + 1..];
    s[..k] + s[k + 1..]
  }

  lemma ForAttemptAllAppend(x: seq<QuestionRow>, y: seq<QuestionRow>)
    ensures ForAttemptAll(x + y) == ForAttemptAll(x) + ForAttemptAll(y)
  {
  }

  lemma ForAttemptAllRemoveAt(s: seq<QuestionRow>, k: nat)
    requires k < |s|
    ensures multiset(ForAttemptAll(s)) == multiset(ForAttemptAll(RemoveAt(s, k))) + multiset{ForAttempt(s[k])}
  {
    assert s == s[..k] + [s[k]] + s[k + 1..];
    ForAttemptAllAppend(s[..k] + [s[k]], s[k + 1..]);
    ForAttemptAllAppend(s[..k], [s[k]]);
    ForAttemptAllAppend(s[..k], s[k + 1..]);
  }

  lemma AttemptRowsFrom(questions: seq<QuestionRow>, ordered: seq<QuestionRow>, r: seq<QuestionForAttempt>)
    requires forall i :: 0 <= i < |ordered| ==> ordered[i] in questions
    requires |r| == |ordered| && forall i :: 0 <= i < |r| ==> r[i] == ForAttempt(ordered[i])
    ensures forall i :: 0 <= i < |r| ==> FromQuestion(r[i], questions)
  {
    forall i | 0 <= i < |r|
      ensures FromQuestion(r[i], questions)
    {
      var j :| 0 <= j < |questions| && questions[j] == ordered[i];
      assert r[i] == ForAttempt(questions[j]);
    }
  }

  lemma InOrderedIsIn(questions: seq<QuestionRow>, ordered: seq<QuestionRow>)
    requires multiset(ordered) == multiset(questions)
    ensures forall i :: 0 <= i < |ordered| ==> ordered[i] in questions
  {
    forall i | 0 <= i < |ordered|
      ensures ordered[i] in questions
    {
      assert ordered[i] in multiset(ordered);
    }
  }
}
