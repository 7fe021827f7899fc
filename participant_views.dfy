/**
 * What a participant sees of the daily reads: the filtered list, one daily
 * read by id, and with each the participant's quiz result.  Paging of the
 * list is done by a paging service that is not part of this model; the list
 * below is the whole ordered query it pages.
 */
module ParticipantViews {
  import opened Common
  import opened DailyReadData
  import opened QuizScoring
  import Sorting

  /** The list request's filters; each is optional. */
  datatype ParticipantRequest = ParticipantRequest(title: Option<string>, category: Option<string>, dateTo: Option<Day>)

  /** One conjunct of the predicate the endpoint builds. */
  datatype Condition =
    | TitleContains(text: string)
    | CategoryContains(text: string)
    | DateAtMost(bound: Day)
    | DateIs(day: Day)

  predicate Holds(c: Condition, dr: DailyRead)
  {
    match c
    case TitleContains(text) => Contains(dr.title, text)
    case CategoryContains(text) => dr.category.Some? && Contains(dr.category.value, text)
    case DateAtMost(bound) => dr.date <= bound
    case DateIs(day) => dr.date == day
  }

  /** `PredicateBuilder.True` extended by `And`: every condition holds. */
  predicate AllHold(conds: seq<Condition>, dr: DailyRead)
  {
    forall i :: 0 <= i < |conds| ==> Holds(conds[i], dr)
  }

  /** A filter string that is present and not blank (`!string.IsNullOrWhiteSpace`). */
  predicate Given(s: Option<string>)
  {
    s.Some? && !IsBlank(s.value)
  }

  /** The rows the request selects on `today` (local clock). */
  predicate Visible(req: ParticipantRequest, today: Day, dr: DailyRead)
  {
    && (Given(req.title) ==> Contains(dr.title, req.title.value))
    && (Given(req.category) ==> dr.category.Some? && Contains(dr.category.value, req.category.value))
    && (if req.dateTo.Some? then dr.date <= req.dateTo.value else dr.date == today)
    && dr.date <= today
  }

  /** The endpoint's predicate, built by successive `And`s: it selects exactly the visible rows. */
  method BuildPredicate(req: ParticipantRequest, today: Day) returns (conds: seq<Condition>)
    ensures forall dr :: AllHold(conds, dr) <==> Visible(req, today, dr)
  {
    conds := [];
    if Given(req.title) {
      conds := conds + [TitleContains(req.title.value)];
    }
    if Given(req.category) {
      conds := conds + [CategoryContains(req.category.value)];
    }
    if req.dateTo.Some? {
      conds := conds + [DateAtMost(req.dateTo.value)];
    } else {
      conds := conds + [DateIs(today)];
    }
    conds := conds + [DateAtMost(today)];
    forall dr ensures AllHold(conds, dr) <==> Visible(req, today, dr) {
      if Visible(req, today, dr) {
        assert forall i :: 0 <= i < |conds| ==> Holds(conds[i], dr);
      }
      if AllHold(conds, dr) {
        var k := 0;
        if Given(req.title) {
          assert Holds(conds[k], dr);
          k := k + 1;
        }
        if Given(req.category) {
          assert Holds(conds[k], dr);
          k := k + 1;
        }
        assert Holds(conds[k], dr);
        assert Holds(conds[k + 1], dr);
      }
    }
  }

  function SelectVisible(dailyReads: seq<DailyRead>, req: ParticipantRequest, today: Day): (r: seq<DailyRead>)
    ensures forall dr :: dr in r <==> dr in dailyReads && Visible(req, today, dr)
    ensures multiset(r) <= multiset(dailyReads)
  {
    if dailyReads == [] then []
    else
      var last := dailyReads[|dailyReads| - 1];
      assert dailyReads == dailyReads[..|dailyReads| - 1] + [last];
      SelectVisible(dailyReads[..|dailyReads| - 1], req, today) + (if Visible(req, today, last) then [last] else [])
  }

  /** The list query: the visible daily reads, latest date first. */
  function ParticipantRows(dailyReads: seq<DailyRead>, req: ParticipantRequest, today: Day): seq<DailyRead>
  {
    Sorting.SortDesc(SelectVisible(dailyReads, req, today), (dr: DailyRead) => dr.date)
  }

  /**
   * The list holds each visible daily read, latest first; no row is dated
   * after today; without `DateTo` only today's row appears; a category
   * filter never matches a daily read without a category.
   */
  lemma ParticipantRowsProperties(dailyReads: seq<DailyRead>, req: ParticipantRequest, today: Day)
    ensures var rows := ParticipantRows(dailyReads, req, today);
      && (forall dr :: dr in rows <==> dr in dailyReads && Visible(req, today, dr))
      && (forall i, j :: 0 <= i < j < |rows| ==> rows[i].date >= rows[j].date)
      && (forall dr :: dr in rows ==> dr.date <= today)
      && (req.dateTo.None? ==> forall dr :: dr in rows ==> dr.date == today)
      && (req.dateTo.Some? ==> forall dr :: dr in rows ==> dr.date <= req.dateTo.value)
      && (Given(req.category) ==> forall dr :: dr in rows ==> dr.category.Some?)
  {
    var selected := SelectVisible(dailyReads, req, today);
    var rows := ParticipantRows(dailyReads, req, today);
    forall dr ensures dr in rows <==> dr in selected {
      assert dr in rows <==> dr in multiset(rows);
      assert dr in selected <==> dr in multiset(selected);
    }
  }

  // ----- the quiz result shown with a daily read -----

  datatype QuizResultInfo = QuizResultInfo(totalQuestions: nat, correctAnswers: nat, hasAttempted: bool, hasPassed: bool)

  /**
   * The participant's result for one daily read: none when the daily read
   * has no questions; otherwise the question count, the number of latest
   * answers that match their question, whether any answer exists, and
   * whether the count reaches the threshold.
   */
  function QuizResultFor(dr: DailyRead, questionTable: seq<QuestionRow>, answerTable: seq<QuizAnswer>, userId: int)
    : (r: Option<QuizResultInfo>)
    ensures r.None? <==> |QuestionsOf(questionTable, dr.id)| == 0
    ensures r.Some? ==> r.value.totalQuestions == |QuestionsOf(questionTable, dr.id)|
    ensures r.Some? ==> r.value.correctAnswers <= |AnsweredSeqs(AnswersOf(answerTable, userId, dr.id))|
    ensures r.Some? ==> (r.value.hasAttempted <==> exists a :: a in answerTable && a.userId == userId && a.dailyReadId == dr.id)
    ensures r.Some? ==> (r.value.hasPassed <==>
      Passes(AnswersOf(answerTable, userId, dr.id), QuestionsOf(questionTable, dr.id), dr.minimalCorrectAnswer))
  {
    var questions := QuestionsOf(questionTable, dr.id);
    var answers := AnswersOf(answerTable, userId, dr.id);
    if |questions| == 0 then None
    else
      var correctCount := CorrectLatestCount(answers, questions);
      assert |answers| > 0 <==> exists a :: a in answerTable && a.userId == userId && a.dailyReadId == dr.id by {
        if |answers| > 0 {
          assert answers[0] in answers;
        }
      }
      Some(QuizResultInfo(|questions|, correctCount, |answers| > 0, correctCount >= dr.minimalCorrectAnswer))
  }

  /**
   * The attempt gate and the view agree: on the day of a daily read with
   * questions, the attempt endpoint answers "already passed" exactly when
   * the view shows the quiz attempted and passed.
   */
  lemma GateAgreesWithView(dailyReads: seq<DailyRead>, questionTable: seq<QuestionRow>, answerTable: seq<QuizAnswer>,
                           userId: int, dr: DailyRead, today: Day)
    requires FindDailyRead(dailyReads, dr.id) == Some(dr) && dr.date == today
    requires |QuestionsOf(questionTable, dr.id)| > 0
    ensures var info := QuizResultFor(dr, questionTable, answerTable, userId).value;
      QuizForAttempt(dailyReads, questionTable, answerTable, userId, dr.id, today) == Err(QuizAlreadyPassed)
      <==> info.hasAttempted && info.hasPassed
  {
    var answers := AnswersOf(answerTable, userId, dr.id);
    if |answers| > 0 {
      assert answers[0] in answers;
    }
  }

  /** A row of either participant view: the daily read's fields and the quiz result. */
  datatype DailyReadWithQuizResult = DailyReadWithQuizResult(dailyRead: DailyRead, quizResult: Option<QuizResultInfo>)

  function WithQuizResult(dr: DailyRead, questionTable: seq<QuestionRow>, answerTable: seq<QuizAnswer>, userId: int)
    : DailyReadWithQuizResult
  {
    DailyReadWithQuizResult(dr, QuizResultFor(dr, questionTable, answerTable, userId))
  }

  /** The list endpoint's rows, each with the participant's result. */
  function ParticipantList(dailyReads: seq<DailyRead>, questionTable: seq<QuestionRow>, answerTable: seq<QuizAnswer>,
                           userId: int, req: ParticipantRequest, today: Day): seq<DailyReadWithQuizResult>
  {
    var rows := ParticipantRows(dailyReads, req, today);
    seq(|rows|, i requires 0 <= i < |rows| => WithQuizResult(rows[i], questionTable, answerTable, userId))
  }

  datatype ViewError = NotFound

  /**
   * `GetDailyReadByIdForParticipantEndpoint`: a missing daily read, or one
   * dated after today, is not found; otherwise its fields echoed with the
   * participant's result.
   */
  function DailyReadForParticipant(dailyReads: seq<DailyRead>, questionTable: seq<QuestionRow>, answerTable: seq<QuizAnswer>,
                                   userId: int, id: int, today: Day): (r: Result<DailyReadWithQuizResult, ViewError>)
    ensures r.Err? <==> FindDailyRead(dailyReads, id).None? || FindDailyRead(dailyReads, id).value.date > today
    ensures r.Err? && FindDailyRead(dailyReads, id).None? ==> forall dr :: dr in dailyReads ==> dr.id != id
    ensures r.Ok? ==> r.value.dailyRead in dailyReads && r.value.dailyRead.id == id && r.value.dailyRead.date <= today
    ensures r.Ok? ==> r.value.quizResult == QuizResultFor(r.value.dailyRead, questionTable, answerTable, userId)
  {
    match FindDailyRead(dailyReads, id)
    case None => Err(NotFound)
    case Some(dailyRead) =>
      if dailyRead.date > today then Err(NotFound)
      else Ok(WithQuizResult(dailyRead, questionTable, answerTable, userId))
  }

  predicate UniqueIds(dailyReads: seq<DailyRead>)
  {
    forall i, j :: 0 <= i < j < |dailyReads| ==> dailyReads[i].id != dailyReads[j].id
  }

  /** With unique ids, every row of the list opens by id to the same row. */
  lemma ListedOpensById(dailyReads: seq<DailyRead>, questionTable: seq<QuestionRow>, answerTable: seq<QuizAnswer>,
                        userId: int, req: ParticipantRequest, today: Day, item: DailyReadWithQuizResult)
    requires UniqueIds(dailyReads)
    requires item in ParticipantList(dailyReads, questionTable, answerTable, userId, req, today)
    ensures DailyReadForParticipant(dailyReads, questionTable, answerTable, userId, item.dailyRead.id, today) == Ok(item)
  {
    ParticipantRowsProperties(dailyReads, req, today);
    var rows := ParticipantRows(dailyReads, req, today);
    var k :| 0 <= k < |rows| && ParticipantList(dailyReads, questionTable, answerTable, userId, req, today)[k] == item;
    var dr := rows[k];
    assert dr in rows;
    var found := FindDailyRead(dailyReads, dr.id);
    assert found.Some? by {
      assert dr in dailyReads;
    }
    var i :| 0 <= i < |dailyReads| && dailyReads[i] == found.value;
    var j :| 0 <= j < |dailyReads| && dailyReads[j] == dr;
    assert i == j;
  }
}
