/**
 * The decisions of the XP accrual handlers: what each handler appends to the
 * event log, if anything, given the tables it reads.  The handlers themselves,
 * which append the decided event, are methods of `XpStore.ExpStore`.
 */
module XpAccrual {
  import opened Common
  import opened XpLedger
  import opened DailyReadData
  import QuizScoring
  import Streaks

  /** The fields of a reading report that the handlers read. */
  datatype ReadingReport = ReadingReport(id: int, userId: UserId, readingResourceId: int, currentPage: int)

  /** A book or journal paper: its page count and ISBN. */
  datatype ReadingResource = ReadingResource(id: int, page: int, isbn: string)

  /** A reading recommendation; `exp` is the integer `exp` column, in whole points. */
  datatype Recommendation = Recommendation(isbn: string, exp: int)

  /** Whether the user already has an event of this name for this reference. */
  predicate AlreadyAwarded(evs: seq<XpEvent>, u: UserId, name: string, refId: int)
  {
    exists i :: 0 <= i < |evs| && evs[i].userId == u && evs[i].eventName == name && evs[i].refId == refId
  }

  // ----- ReadingExpEventHandler -----

  /** Every reading report earns 0.1 XP per page of its current (absolute) page, whatever was reported before. */
  function ReadingAward(report: ReadingReport): (n: NewXpEvent)
    ensures n.entity.userId == report.userId && n.entity.refId == report.id
    ensures n.entity.eventName == TypeName(ReadingExp)
    ensures n.entity.exp * 10 == report.currentPage * 100
  {
    Create(report.userId, report.currentPage * READING_PER_PAGE, TypeName(ReadingExp), report.id)
  }

  // ----- DailyReadsExpEventHandler -----

  /**
   * A user who passes a daily read's quiz earns its XP once: nothing for a
   * missing daily read, a failed quiz, an award already given for this daily
   * read, or a daily read worth 0.
   */
  function DailyReadsAward(evs: seq<XpEvent>, dailyReads: seq<DailyRead>, questionTable: seq<QuestionRow>,
                           answerTable: seq<QuizAnswer>, userId: UserId, dailyReadId: int): (r: Option<NewXpEvent>)
    ensures r.Some? <==>
      && FindDailyRead(dailyReads, dailyReadId).Some?
      && QuizScoring.Passes(AnswersOf(answerTable, userId, dailyReadId), QuestionsOf(questionTable, dailyReadId),
                            FindDailyRead(dailyReads, dailyReadId).value.minimalCorrectAnswer)
      && !AlreadyAwarded(evs, userId, TypeName(DailyReadsExp), dailyReadId)
      && FindDailyRead(dailyReads, dailyReadId).value.exp != 0
    ensures r.Some? ==> r.value == Create(userId, FindDailyRead(dailyReads, dailyReadId).value.exp, TypeName(DailyReadsExp), dailyReadId)
  {
    var latestAnswers := AnswersOf(answerTable, userId, dailyReadId);
    var questions := QuestionsOf(questionTable, dailyReadId);
    match FindDailyRead(dailyReads, dailyReadId)
    case None => None
    case Some(dailyRead) =>
      if !QuizScoring.Passes(latestAnswers, questions, dailyRead.minimalCorrectAnswer) then None
      else if AlreadyAwarded(evs, userId, TypeName(DailyReadsExp), dailyReadId) then None
      else if dailyRead.exp == 0 then None
      else Some(Create(userId, dailyRead.exp, TypeName(DailyReadsExp), dailyReadId))
  }

  /** Once the award is in the log, the handler awards nothing more for that daily read. */
  lemma DailyReadsAwardOnce(evs: seq<XpEvent>, dailyReads: seq<DailyRead>, questionTable: seq<QuestionRow>,
                            answerTable: seq<QuizAnswer>, userId: UserId, dailyReadId: int, stored: XpEvent)
    requires DailyReadsAward(evs, dailyReads, questionTable, answerTable, userId, dailyReadId).Some?
    requires var n := DailyReadsAward(evs, dailyReads, questionTable, answerTable, userId, dailyReadId).value.entity;
      stored.userId == n.userId && stored.eventName == n.eventName && stored.refId == n.refId
    ensures DailyReadsAward(evs + [stored], dailyReads, questionTable, answerTable, userId, dailyReadId).None?
  {
    assert (evs + [stored])[|evs|] == stored;
  }

  /** With a threshold of 0 the award is paid even to a user without answers. */
  lemma ZeroThresholdAwards(evs: seq<XpEvent>, dailyReads: seq<DailyRead>, questionTable: seq<QuestionRow>,
                            userId: UserId, dailyReadId: int)
    requires FindDailyRead(dailyReads, dailyReadId).Some?
    requires FindDailyRead(dailyReads, dailyReadId).value.minimalCorrectAnswer == 0
    requires FindDailyRead(dailyReads, dailyReadId).value.exp != 0
    requires !AlreadyAwarded(evs, userId, TypeName(DailyReadsExp), dailyReadId)
    ensures DailyReadsAward(evs, dailyReads, questionTable, [], userId, dailyReadId).Some?
  {
    QuizScoring.ZeroThresholdPasses(AnswersOf([], userId, dailyReadId), QuestionsOf(questionTable, dailyReadId));
  }

  // ----- StreakExpEventHandler -----

  /** The streak the handler computes for a new log. */
  function StreakCount(logs: seq<Streaks.StreakLog>, log: Streaks.StreakLog): nat
  {
    Streaks.WalkCount(Streaks.WalkedDates(logs, log.userId, log.date), log.date)
  }

  /**
   * A streak log earns the streak bonus when the streak ending at its date
   * is a multiple of 7 days, once per log.
   */
  function StreakBonus(evs: seq<XpEvent>, logs: seq<Streaks.StreakLog>, log: Streaks.StreakLog): (r: Option<NewXpEvent>)
    ensures r.Some? <==>
      StreakCount(logs, log) % STREAK_BONUS_DAYS == 0 && !AlreadyAwarded(evs, log.userId, TypeName(StreakExp), log.id)
    ensures r.Some? ==> r.value == Create(log.userId, STREAK_7_DAYS_BONUS, TypeName(StreakExp), log.id)
  {
    if StreakCount(logs, log) % STREAK_BONUS_DAYS != 0 then None
    else if AlreadyAwarded(evs, log.userId, TypeName(StreakExp), log.id) then None
    else Some(Create(log.userId, STREAK_7_DAYS_BONUS, TypeName(StreakExp), log.id))
  }

  /**
   * For a stored log (at most one per day), a bonus means the user has a run
   * of 7, 14, 21, ... logged days ending at the log's date, and no longer.
   */
  lemma StreakBonusOnlyAtMultiples(evs: seq<XpEvent>, logs: seq<Streaks.StreakLog>, log: Streaks.StreakLog)
    requires Streaks.OnePerDay(logs) && Streaks.HasLog(logs, log.userId, log.date)
    requires StreakBonus(evs, logs, log).Some?
    ensures var k := StreakCount(logs, log);
      && Streaks.RunEndsAt(logs, log.userId, log.date, k)
      && k >= STREAK_BONUS_DAYS && k % STREAK_BONUS_DAYS == 0
  {
    Streaks.StreakIsRun(logs, log.userId, log.date);
    var k := StreakCount(logs, log);
    PositiveMultiple(k);
  }

  lemma PositiveMultiple(k: nat)
    requires k % STREAK_BONUS_DAYS == 0 && k >= 1
    ensures k >= STREAK_BONUS_DAYS
  {
  }

  /**
   * If the handler ran before its log were stored, the walk would find 0
   * days, and 0 is a multiple of 7: every such log would earn the bonus.
   */
  lemma UnstoredLogEarnsBonus(evs: seq<XpEvent>, logs: seq<Streaks.StreakLog>, log: Streaks.StreakLog)
    requires !Streaks.HasLog(logs, log.userId, log.date)
    requires !AlreadyAwarded(evs, log.userId, TypeName(StreakExp), log.id)
    ensures StreakBonus(evs, logs, log).Some?
  {
    Streaks.UnstoredLogWalksZero(logs, log.userId, log.date);
  }

  /** Once the bonus is in the log, the same streak log earns nothing more. */
  lemma StreakBonusOnce(evs: seq<XpEvent>, logs: seq<Streaks.StreakLog>, log: Streaks.StreakLog, stored: XpEvent)
    requires StreakBonus(evs, logs, log).Some?
    requires stored.userId == log.userId && stored.eventName == TypeName(StreakExp) && stored.refId == log.id
    ensures StreakBonus(evs + [stored], logs, log).None?
  {
    assert (evs + [stored])[|evs|] == stored;
  }

  // ----- BookCompletedEventHandler -----

  const SECONDS_PER_DAY: int := 86400

  /** `FirstOrDefault(r => r.Id == id)`. */
  function FindResource(resources: seq<ReadingResource>, id: int): (r: Option<ReadingResource>)
    ensures r.Some? ==> r.value in resources && r.value.id == id
    ensures r.None? <==> forall x :: x in resources ==> x.id != id
  {
    FirstWhere(resources, (x: ReadingResource) => x.id == id)
  }

  /** `FirstOrDefault(r => r.ISBN == isbn)`. */
  function FindRecommendation(recommendations: seq<Recommendation>, isbn: string): (r: Option<Recommendation>)
    ensures r.Some? ==> r.value in recommendations && r.value.isbn == isbn
    ensures r.None? <==> forall x :: x in recommendations ==> x.isbn != isbn
  {
    FirstWhere(recommendations, (x: Recommendation) => x.isbn == isbn)
  }

  /** The creation time of the user's newest `BookCompleted` event, if any. */
  function LatestBookCompletedTime(evs: seq<XpEvent>, u: UserId): (r: Option<int>)
    ensures r.None? <==> forall i :: 0 <= i < |evs| ==> !(evs[i].userId == u && evs[i].eventName == TypeName(BookCompleted))
    ensures r.Some? ==> exists i :: 0 <= i < |evs| && evs[i].userId == u && evs[i].eventName == TypeName(BookCompleted)
                                   && evs[i].createTime == r.value
    ensures r.Some? ==> forall i :: 0 <= i < |evs| && evs[i].userId == u && evs[i].eventName == TypeName(BookCompleted)
                                    ==> evs[i].createTime <= r.value
  {
    if |evs| == 0 then None
    else
      var e := evs[|evs| - 1];
      var p := evs[..|evs| - 1];
      var rest := LatestBookCompletedTime(p, u);
      assert forall i :: 0 <= i < |p| ==> evs[i] == p[i];
      if e.userId != u || e.eventName != TypeName(BookCompleted) then rest
      else if rest.Some? && rest.value >= e.createTime then rest
      else Some(e.createTime)
  }

  /** Whether the book of the report counts as completed: its resource exists, has pages, and the report reached the last one. */
  predicate Completed(resources: seq<ReadingResource>, report: ReadingReport)
  {
    var res := FindResource(resources, report.readingResourceId);
    res.Some? && !(report.currentPage < res.value.page || res.value.page == 0)
  }

  /**
   * A completed book earns its recommendation's XP when its ISBN is
   * recommended (no cooldown, no duplicate check); otherwise the fixed
   * `bookCompletedExp`, only if the user has no `BookCompleted` event or the
   * newest is at least `cooldownDays` old.
   */
  function BookAward(evs: seq<XpEvent>, resources: seq<ReadingResource>, recommendations: seq<Recommendation>,
                     report: ReadingReport, now: int, cooldownDays: int, bookCompletedExp: Hundredths): (r: Option<NewXpEvent>)
    ensures !Completed(resources, report) ==> r.None?
    ensures Completed(resources, report) && FindRecommendation(recommendations, FindResource(resources, report.readingResourceId).value.isbn).Some?
      ==> r == Some(Create(report.userId,
                           FindRecommendation(recommendations, FindResource(resources, report.readingResourceId).value.isbn).value.exp * 100,
                           TypeName(RecommendedBookCompleted), report.id))
    ensures r.Some? && r.value.entity.eventName == TypeName(BookCompleted) ==>
      && r.value == Create(report.userId, bookCompletedExp, TypeName(BookCompleted), report.id)
      && forall i :: 0 <= i < |evs| && evs[i].userId == report.userId && evs[i].eventName == TypeName(BookCompleted)
                     ==> now - evs[i].createTime >= cooldownDays * SECONDS_PER_DAY
    ensures Completed(resources, report) && FindRecommendation(recommendations, FindResource(resources, report.readingResourceId).value.isbn).None?
      && (forall i :: 0 <= i < |evs| && evs[i].userId == report.userId && evs[i].eventName == TypeName(BookCompleted)
                      ==> now - evs[i].createTime >= cooldownDays * SECONDS_PER_DAY)
      ==> r.Some?
  {
    match FindResource(resources, report.readingResourceId)
    case None => None
    case Some(resource) =>
      if report.currentPage < resource.page || resource.page == 0 then None
      else
        match FindRecommendation(recommendations, resource.isbn)
        case Some(recommendation) =>
          Some(Create(report.userId, recommendation.exp * 100, TypeName(RecommendedBookCompleted), report.id))
        case None =>
          var lastBookCompleted := LatestBookCompletedTime(evs, report.userId);
          if lastBookCompleted.None? || now - lastBookCompleted.value >= cooldownDays * SECONDS_PER_DAY then
            Some(Create(report.userId, bookCompletedExp, TypeName(BookCompleted), report.id))
          else None
  }

  /** Recommended completions do not count toward the cooldown: adding one changes no later decision. */
  lemma RecommendedIgnoredByCooldown(evs: seq<XpEvent>, resources: seq<ReadingResource>, recommendations: seq<Recommendation>,
                                     report: ReadingReport, now: int, cooldownDays: int, bookCompletedExp: Hundredths, e: XpEvent)
    requires e.eventName == TypeName(RecommendedBookCompleted)
    ensures BookAward(evs + [e], resources, recommendations, report, now, cooldownDays, bookCompletedExp)
         == BookAward(evs, resources, recommendations, report, now, cooldownDays, bookCompletedExp)
  {
    assert (evs + [e])[..|evs|] == evs;
  }

  /** The cooldown is per user: another user's completions never block this one. */
  lemma CooldownPerUser(evs: seq<XpEvent>, resources: seq<ReadingResource>, recommendations: seq<Recommendation>,
                        report: ReadingReport, now: int, cooldownDays: int, bookCompletedExp: Hundredths, e: XpEvent)
    requires e.userId != report.userId
    ensures BookAward(evs + [e], resources, recommendations, report, now, cooldownDays, bookCompletedExp)
         == BookAward(evs, resources, recommendations, report, now, cooldownDays, bookCompletedExp)
  {
    assert (evs + [e])[..|evs|] == evs;
  }
}
