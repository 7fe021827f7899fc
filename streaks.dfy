/**
 * Streak logs and the consecutive-day walks over them.
 *
 * A streak log records that a user did something on a calendar day.  Days are
 * day numbers (day 0 is 1970-01-01); each handler and endpoint reads "today"
 * from its own clock (server-local, UTC, UTC+8), so "today" is always a
 * parameter here.
 */
module Streaks {
  import opened Common
  import opened DailyReadData
  import QuizScoring
  import Sorting

  /** A row of `streak_logs`. */
  datatype StreakLog = StreakLog(id: int, userId: int, date: Day)

  /** `DateOnly` default value, 0001-01-01, as a day number. */
  const MinDate: Day := -719162

  /** At most one log per (user, day): the unique index on `streak_logs`. */
  predicate OnePerDay(logs: seq<StreakLog>)
  {
    forall i, j :: 0 <= i < j < |logs| && logs[i].userId == logs[j].userId ==> logs[i].date != logs[j].date
  }

  predicate HasLog(logs: seq<StreakLog>, u: int, d: Day)
  {
    exists i :: 0 <= i < |logs| && logs[i].userId == u && logs[i].date == d
  }

  /** `k` is the length of the run of logged days ending at `d`: d, d-1, ..., d-k+1 are logged and d-k is not. */
  predicate RunEndsAt(logs: seq<StreakLog>, u: int, d: Day, k: nat)
  {
    (forall x :: d - k < x <= d ==> HasLog(logs, u, x)) && !HasLog(logs, u, d - k)
  }

  /** The run length ending at a day is unique. */
  lemma RunLengthUnique(logs: seq<StreakLog>, u: int, d: Day, k1: nat, k2: nat)
    requires RunEndsAt(logs, u, d, k1) && RunEndsAt(logs, u, d, k2)
    ensures k1 == k2
  {
  }

  // ----- lists of dates -----

  /** No date occurs twice. */
  predicate NoDup(l: seq<Day>)
  {
    forall x | x in l :: multiset(l)[x] <= 1
  }

  predicate StrictlyDesc(l: seq<Day>)
  {
    forall i, j :: 0 <= i < j < |l| ==> l[i] > l[j]
  }

  /** The user's log dates, in table order. */
  function UserDates(logs: seq<StreakLog>, u: int): (r: seq<Day>)
    ensures forall x :: x in r <==> HasLog(logs, u, x)
    ensures OnePerDay(logs) ==> NoDup(r)
  {
    if |logs| == 0 then []
    else
      var p := logs[..|logs| - 1];
      var g := logs[|logs| - 1];
      HasLogSplit(logs);
      assert OnePerDay(logs) ==> OnePerDay(p) && (g.userId == u ==> !HasLog(p, u, g.date)) by {
        if OnePerDay(logs) {
          OnePerDayPrefix(logs, u);
        }
      }
      UserDates(p, u) + (if g.userId == u then [g.date] else [])
  }

  lemma HasLogSplit(logs: seq<StreakLog>)
    requires |logs| > 0
    ensures var p := logs[..|logs| - 1]; var g := logs[|logs| - 1];
      forall u, x :: HasLog(logs, u, x) <==> HasLog(p, u, x) || (g.userId == u && g.date == x)
  {
    var p := logs[..|logs| - 1];
    var g := logs[|logs| - 1];
    forall u, x | HasLog(logs, u, x) ensures HasLog(p, u, x) || (g.userId == u && g.date == x) {
      var i :| 0 <= i < |logs| && logs[i].userId == u && logs[i].date == x;
      if i < |p| {
        assert p[i] == logs[i];
      }
    }
    forall u, x | HasLog(p, u, x) ensures HasLog(logs, u, x) {
      var i :| 0 <= i < |p| && p[i].userId == u && p[i].date == x;
      assert logs[i] == p[i];
    }
  }

  lemma OnePerDayPrefix(logs: seq<StreakLog>, u: int)
    requires |logs| > 0 && OnePerDay(logs)
    ensures var p := logs[..|logs| - 1]; var g := logs[|logs| - 1];
      OnePerDay(p) && (g.userId == u ==> !HasLog(p, u, g.date))
  {
    var p := logs[..|logs| - 1];
    var g := logs[|logs| - 1];
    forall i, j | 0 <= i < j < |p| && p[i].userId == p[j].userId ensures p[i].date != p[j].date {
      assert logs[i] == p[i] && logs[j] == p[j];
    }
    forall i | 0 <= i < |p| && p[i].userId == g.userId ensures p[i].date != g.date {
      assert logs[i] == p[i];
    }
  }

  /** The dates not after `d`, in the same order (`Where(date <= d)`). */
  function AtMost(l: seq<Day>, d: Day): (r: seq<Day>)
    ensures forall x :: x in r <==> x in l && x <= d
    ensures multiset(r) <= multiset(l)
    ensures Sorting.SortedDesc(l, (x: Day) => x) ==> Sorting.SortedDesc(r, (x: Day) => x)
  {
    if |l| == 0 then []
    else
      var rest := AtMost(l[1..], d);
      assert l == [l[0]] + l[1..];
      assert Sorting.SortedDesc(l, (x: Day) => x) ==> Sorting.SortedDesc([l[0]] + rest, (x: Day) => x) by {
        if Sorting.SortedDesc(l, (x: Day) => x) {
          HeadAboveRest(l, rest);
        }
      }
      if l[0] <= d then [l[0]] + rest else rest
  }

  lemma HeadAboveRest(l: seq<Day>, rest: seq<Day>)
    requires |l| > 0 && Sorting.SortedDesc(l, (x: Day) => x)
    requires forall x :: x in rest ==> x in l[1..]
    requires Sorting.SortedDesc(l[1..], (x: Day) => x) ==> Sorting.SortedDesc(rest, (x: Day) => x)
    ensures Sorting.SortedDesc([l[0]] + rest, (x: Day) => x)
  {
    assert Sorting.SortedDesc(l[1..], (x: Day) => x) by {
      forall i, j | 0 <= i < j < |l[1..]| ensures l[1..][i] >= l[1..][j] {
        assert l[1..][i] == l[i + 1] && l[1..][j] == l[j + 1];
      }
    }
    forall k | 0 <= k < |rest| ensures rest[k] <= l[0] {
      assert rest[k] in rest;
      assert rest[k] in l[1..];
      var m :| 0 <= m < |l[1..]| && l[1..][m] == rest[k];
      assert l[m + 1] == rest[k];
    }
    var r := [l[0]] + rest;
    forall i, j | 0 <= i < j < |r| ensures r[i] >= r[j] {
      if i == 0 {
        assert r[j] == rest[j - 1];
      } else {
        assert r[i] == rest[i - 1] && r[j] == rest[j - 1];
      }
    }
  }

  /** Newest first (`OrderByDescending(StreakDate)`). */
  function Desc(l: seq<Day>): (r: seq<Day>)
    ensures multiset(r) == multiset(l) && |r| == |l|
    ensures Sorting.SortedDesc(r, (x: Day) => x)
  {
    Sorting.SortDesc(l, (x: Day) => x)
  }

  /** A list ordered newest first without repeated dates is strictly descending. */
  lemma StrictWhenNoDup(l: seq<Day>)
    requires Sorting.SortedDesc(l, (x: Day) => x) && NoDup(l)
    ensures StrictlyDesc(l)
  {
    forall i, j | 0 <= i < j < |l|
      ensures l[i] > l[j]
    {
      assert l == l[..j] + l[j..];
      assert l[i] == l[..j][i];
      assert l[j] == l[j..][0];
      assert multiset(l)[l[j]] == multiset(l[..j])[l[j]] + multiset(l[j..])[l[j]];
      assert multiset(l[..j])[l[j]] == 0;
    }
  }

  // ----- the walk of StreakExpEventHandler -----

  /** The handler's loop: count a date while it equals the expected day, moving the expectation back one day; stop at the first other date. */
  function WalkCount(l: seq<Day>, expected: Day): nat
  {
    if |l| == 0 || l[0] != expected then 0 else 1 + WalkCount(l[1..], expected - 1)
  }

  /** On a strictly descending list of dates not after `e`, the walk finds the run of listed days ending at `e`. */
  lemma {:induction false} WalkIsRun(l: seq<Day>, e: Day)
    requires StrictlyDesc(l)
    requires forall i :: 0 <= i < |l| ==> l[i] <= e
    ensures var k := WalkCount(l, e);
      (forall x :: e - k < x <= e ==> x in l) && e - k !in l
  {
    if |l| > 0 && l[0] == e {
      assert forall i :: 0 <= i < |l[1..]| ==> l[1..][i] <= e - 1 by {
        forall i | 0 <= i < |l[1..]| ensures l[1..][i] <= e - 1 {
          assert l[1..][i] == l[i + 1];
        }
      }
      WalkIsRun(l[1..], e - 1);
      assert l == [l[0]] + l[1..];
    } else if |l| > 0 {
      assert forall i :: 0 <= i < |l| ==> l[i] < e by {
        forall i | 0 <= i < |l| ensures l[i] < e {
          if i > 0 {
            assert l[0] > l[i];
          }
        }
      }
    }
  }

  /** The dates the handler walks over: the user's logs up to `d`, newest first. */
  function WalkedDates(logs: seq<StreakLog>, u: int, d: Day): seq<Day>
  {
    Desc(AtMost(UserDates(logs, u), d))
  }

  /**
   * `StreakExpEventHandler`'s loop over the user's logs up to the new log's
   * date, newest first.
   */
  method ConsecutiveStreak(dates: seq<Day>, start: Day) returns (consecutiveStreak: nat)
    ensures consecutiveStreak == WalkCount(dates, start)
  {
    consecutiveStreak := 0;
    var expectedDate := start;
    var i := 0;
    while i < |dates|
      invariant 0 <= i <= |dates|
      invariant expectedDate == start - i && consecutiveStreak == i
      invariant WalkCount(dates, start) == i + WalkCount(dates[i..], expectedDate)
      decreases |dates| - i
    {
      assert dates[i..][1..] == dates[i + 1..];
      if dates[i] == expectedDate {
        consecutiveStreak := consecutiveStreak + 1;
        expectedDate := expectedDate - 1;
      } else {
        break;
      }
      i := i + 1;
    }
  }

  /**
   * The streak the handler computes for a log dated `d` is the length of the
   * user's run of logged days ending at `d`; it is at least 1 when the log is
   * stored.
   */
  lemma StreakIsRun(logs: seq<StreakLog>, u: int, d: Day)
    requires OnePerDay(logs)
    ensures RunEndsAt(logs, u, d, WalkCount(WalkedDates(logs, u, d), d))
    ensures HasLog(logs, u, d) ==> WalkCount(WalkedDates(logs, u, d), d) >= 1
  {
    var all := UserDates(logs, u);
    var below := AtMost(all, d);
    var l := Desc(below);
    NoDupSub(below, all);
    NoDupSub(l, below);
    StrictWhenNoDup(l);
    RunOfList(logs, u, l, d);
    if HasLog(logs, u, d) {
      assert d in below;
      assert d in multiset(l);
    }
  }

  /** When `multiset(a)` is within `multiset(b)`, `a` repeats no more than `b` does. */
  lemma NoDupSub(a: seq<Day>, b: seq<Day>)
    requires multiset(a) <= multiset(b) && NoDup(b)
    ensures NoDup(a)
  {
    forall x | x in a ensures multiset(a)[x] <= 1 {
      assert x in multiset(b);
    }
  }

  /** The walk over a strictly descending list that holds exactly the user's logged days up to `e` measures the run ending at `e`. */
  lemma RunOfList(logs: seq<StreakLog>, u: int, l: seq<Day>, e: Day)
    requires StrictlyDesc(l)
    requires forall x :: x in l <==> HasLog(logs, u, x) && x <= e
    ensures RunEndsAt(logs, u, e, WalkCount(l, e))
  {
    forall i | 0 <= i < |l| ensures l[i] <= e {
      assert l[i] in l;
    }
    WalkIsRun(l, e);
  }

  /** A log that is not stored yet gives a walk of 0. */
  lemma UnstoredLogWalksZero(logs: seq<StreakLog>, u: int, d: Day)
    requires !HasLog(logs, u, d)
    ensures WalkCount(WalkedDates(logs, u, d), d) == 0
  {
    var l := WalkedDates(logs, u, d);
    if |l| > 0 {
      assert l[0] in multiset(AtMost(UserDates(logs, u), d));
    }
  }

  // ----- the log store -----

  /** The `streak_logs` table. */
  class StreakStore {
    var logs: seq<StreakLog>
    var nextId: int

    ghost predicate Valid()
      reads this
    {
      && OnePerDay(logs)
      && nextId >= 1
      && (forall i :: 0 <= i < |logs| ==> 0 < logs[i].id < nextId)
    }

    constructor ()
      ensures Valid() && logs == []
    {
      logs := [];
      nextId := 1;
    }

    /** Adds a log for (user, today) unless one exists; returns the new log, whose creation raises `StreakLogCreatedEvent`. */
    method AddIfAbsent(userId: int, today: Day) returns (created: Option<StreakLog>)
      requires Valid()
      modifies this
      ensures Valid()
      ensures created.None? <==> old(HasLog(logs, userId, today))
      ensures created.None? ==> logs == old(logs)
      ensures created.Some? ==> created.value == StreakLog(old(nextId), userId, today) && logs == old(logs) + [created.value]
      ensures HasLog(logs, userId, today)
    {
      var existsToday := exists i :: 0 <= i < |logs| && logs[i].userId == userId && logs[i].date == today;
      if existsToday {
        return None;
      }
      var streakLog := StreakLog(nextId, userId, today);
      logs := logs + [streakLog];
      nextId := nextId + 1;
      assert logs[|logs| - 1] == streakLog;
      created := Some(streakLog);
    }

    /**
     * `StreakLogFromQuizAnswerEventHandler.Handle`: a user who passes the
     * daily read's quiz gets a log for today (server-local date), once per
     * day; a missing daily read or a failed quiz writes nothing.
     */
    method LogFromQuizAnswer(dailyReads: seq<DailyRead>, questionTable: seq<QuestionRow>, answerTable: seq<QuizAnswer>,
                             userId: int, dailyReadId: int, today: Day)
      returns (created: Option<StreakLog>)
      requires Valid()
      modifies this
      ensures Valid()
      ensures created.Some? <==>
        && FindDailyRead(dailyReads, dailyReadId).Some?
        && QuizScoring.Passes(AnswersOf(answerTable, userId, dailyReadId), QuestionsOf(questionTable, dailyReadId),
                              FindDailyRead(dailyReads, dailyReadId).value.minimalCorrectAnswer)
        && !old(HasLog(logs, userId, today))
      ensures created.None? ==> logs == old(logs)
      ensures created.Some? ==> created.value == StreakLog(old(nextId), userId, today) && logs == old(logs) + [created.value]
    {
      var latestAnswers := AnswersOf(answerTable, userId, dailyReadId);
      var questions := QuestionsOf(questionTable, dailyReadId);
      var dailyRead := FindDailyRead(dailyReads, dailyReadId);
      if dailyRead.None? {
        return None;
      }
      if !QuizScoring.Passes(latestAnswers, questions, dailyRead.value.minimalCorrectAnswer) {
        return None;
      }
      created := AddIfAbsent(userId, today);
    }

    /**
     * `StreakLogFromReadingReportEventHandler.Handle`: every reading report
     * gives its user a log for today (UTC date), once per day.
     */
    method LogFromReadingReport(reportUserId: int, today: Day) returns (created: Option<StreakLog>)
      requires Valid()
      modifies this
      ensures Valid()
      ensures created.Some? <==> !old(HasLog(logs, reportUserId, today))
      ensures created.None? ==> logs == old(logs)
      ensures created.Some? ==> created.value == StreakLog(old(nextId), reportUserId, today) && logs == old(logs) + [created.value]
    {
      created := AddIfAbsent(reportUserId, today);
    }
  }

  /** A second report on the same day changes nothing: the log set after one call is a fixed point. */
  lemma SecondReportSameDay(logs: seq<StreakLog>, u: int, today: Day)
    ensures HasLog(logs + [StreakLog(0, u, today)], u, today)
    ensures HasLog(logs, u, today) ==> forall id :: OnePerDay(logs) ==> !OnePerDay(logs + [StreakLog(id, u, today)])
  {
    var l' := logs + [StreakLog(0, u, today)];
    assert l'[|logs|].userId == u && l'[|logs|].date == today;
    if HasLog(logs, u, today) {
      var i :| 0 <= i < |logs| && logs[i].userId == u && logs[i].date == today;
      forall id | OnePerDay(logs) ensures !OnePerDay(logs + [StreakLog(id, u, today)]) {
        var l := logs + [StreakLog(id, u, today)];
        assert l[i] == logs[i] && l[|logs|] == StreakLog(id, u, today);
      }
    }
  }

  // ----- GET /streaks/me -----

  /** .NET `DayOfWeek` of a day number: Sunday is 0; day 0 (1970-01-01) was a Thursday. */
  function DayOfWeek(d: Day): (r: int)
    ensures 0 <= r < 7
  {
    (d + 4) % 7
  }

  /** The Monday on or before `today`: `(dayOfWeek - 1 + 7) % 7` days back, so 6 on a Sunday. */
  function StartOfWeek(today: Day): (r: Day)
    ensures DayOfWeek(r) == 1
    ensures today - 6 <= r <= today
    ensures DayOfWeek(today) == 0 ==> r == today - 6
  {
    var daysSinceMonday := (DayOfWeek(today) - 1 + 7) % 7;
    MondayAfterShift(today, daysSinceMonday);
    today - daysSinceMonday
  }

  lemma MondayAfterShift(today: Day, k: int)
    requires k == (DayOfWeek(today) - 1 + 7) % 7
    ensures DayOfWeek(today - k) == 1
  {
    var w := (today + 4) % 7;
    var q := (today + 4) / 7;
    assert today + 4 == 7 * q + w;
    if w == 0 {
      assert k == 6;
      assert today - k + 4 == 7 * (q - 1) + 1;
    } else {
      assert k == w - 1;
      assert today - k + 4 == 7 * q + 1;
    }
  }

  /** Proleptic Gregorian (year, month, day) of a day number. */
  datatype Civil = Civil(year: int, month: int, day: int)

  function CivilFromDays(d: Day): (c: Civil)
    ensures 1 <= c.month <= 12 && 1 <= c.day <= 31
  {
    CivilAfter(d, 1)
  }

  /**
   * The day-to-civil arithmetic, reached after `steps` calls: `CivilFromDays`
   * asks for one, so proofs that only carry formatted dates around do not
   * expand the divisions below.
   */
  function CivilAfter(d: Day, steps: nat): (c: Civil)
    ensures 1 <= c.month <= 12 && 1 <= c.day <= 31
  {
    if steps > 0 then CivilAfter(d, steps - 1)
    else
      var z := d + 719468;
      var era := z / 146097;
      var doe := z - era * 146097;
      var yoe := (doe - doe / 1460 + doe / 36524 - doe / 146096) / 365;
      var doy := doe - (365 * yoe + yoe / 4 - yoe / 100);
      var mp := (5 * doy + 2) / 153;
      var dd := doy - (153 * mp + 2) / 5 + 1;
      var m := if mp < 10 then mp + 3 else mp - 9;
      Civil(yoe + era * 400 + (if m <= 2 then 1 else 0), m, dd)
  }

  /** `ToString("yyyy-MM-dd")`. */
  function FormatDate(d: Day): (r: string)
    ensures 0 <= CivilFromDays(d).year < 10000 ==> |r| == 10 && r[4] == '-' && r[7] == '-'
  {
    var c := CivilFromDays(d);
    YearText(c.year) + "-" + Pad2(c.month) + "-" + Pad2(c.day)
  }

  /** A year on at least four digits. */
  function YearText(y: int): (r: string)
    ensures 0 <= y < 10000 ==> |r| == 4
  {
    if 0 <= y < 10000 then Pad2(y / 100) + Pad2(y % 100) else IntToString(y)
  }

  /** One entry of the weekly status: `null` for a day after today. */
  datatype DayStreakStatus = DayStreakStatus(date: string, hasStreak: Option<bool>)

  datatype UserStreakResponse = UserStreakResponse(currentStreakDays: nat, totalExp: int, weeklyStatus: seq<DayStreakStatus>)

  /** The status of one day of the week. */
  function DayStatus(logs: seq<StreakLog>, u: int, date: Day, today: Day): DayStreakStatus
  {
    DayStreakStatus(FormatDate(date), if date > today then None else Some(HasLog(logs, u, date)))
  }

  /** The endpoint's walk: count a date equal to the expected day, skip a later one, stop at an earlier one. */
  function SkipWalk(l: seq<Day>, expected: Day): nat
  {
    if |l| == 0 then 0
    else if l[0] == expected then 1 + SkipWalk(l[1..], expected - 1)
    else if l[0] < expected then 0
    else SkipWalk(l[1..], expected)
  }

  /** On a strictly descending list of dates not after `e`, the endpoint's walk is the handler's walk. */
  lemma {:induction false} SkipWalkIsWalk(l: seq<Day>, e: Day)
    requires StrictlyDesc(l)
    requires forall i :: 0 <= i < |l| ==> l[i] <= e
    ensures SkipWalk(l, e) == WalkCount(l, e)
  {
    if |l| > 0 && l[0] == e {
      forall i | 0 <= i < |l[1..]| ensures l[1..][i] <= e - 1 {
        assert l[1..][i] == l[i + 1];
      }
      SkipWalkIsWalk(l[1..], e - 1);
    }
  }

  /** The head of the user's dates newest first, or 0001-01-01 when there is none (`FirstOrDefault`). */
  function FirstOrDefault(l: seq<Day>): Day
  {
    if |l| == 0 then MinDate else l[0]
  }

  /** Neither today nor yesterday among the dates: the head is not today and the walk from yesterday counts nothing. */
  lemma NoRecentLogWalksNothing(dates: seq<Day>, allDates: seq<Day>, today: Day)
    requires multiset(allDates) == multiset(dates)
    ensures today != MinDate && today !in dates && today - 1 !in dates ==>
      FirstOrDefault(allDates) != today && SkipWalk(AtMost(allDates, today - 1), today - 1) == 0
  {
    if today != MinDate && today !in dates && today - 1 !in dates {
      if |allDates| > 0 {
        assert allDates[0] in multiset(dates);
        assert allDates[0] != today;
      }
      var l := AtMost(allDates, today - 1);
      if |l| > 0 {
        assert l[0] in allDates && l[0] <= today - 1;
        assert l[0] in multiset(dates);
        assert l[0] < today - 1;
      }
    }
  }

  /** The endpoint's current streak: today's log (when it is the newest) plus the walk from yesterday over earlier dates. */
  function CurrentStreak(logs: seq<StreakLog>, u: int, today: Day): (r: nat)
    ensures today != MinDate && !HasLog(logs, u, today) && !HasLog(logs, u, today - 1) ==> r == 0
  {
    var allDates := Desc(UserDates(logs, u));
    NoRecentLogWalksNothing(UserDates(logs, u), allDates, today);
    (if FirstOrDefault(allDates) == today then 1 else 0) + SkipWalk(AtMost(allDates, today - 1), today - 1)
  }

  /**
   * The current streak is (1 if today is logged and no later day is) plus the
   * run of logged days ending yesterday; a day without a log today keeps
   * yesterday's run.
   */
  lemma CurrentStreakIsRun(logs: seq<StreakLog>, u: int, today: Day)
    requires OnePerDay(logs)
    requires today != MinDate
    ensures var top := if HasLog(logs, u, today) && forall x :: HasLog(logs, u, x) ==> x <= today then 1 else 0;
      CurrentStreak(logs, u, today) >= top && RunEndsAt(logs, u, today - 1, CurrentStreak(logs, u, today) - top)
  {
    var all := UserDates(logs, u);
    var allDesc := Desc(all);
    var l := AtMost(allDesc, today - 1);
    EarlierWalk(logs, u, today - 1, all, l);
    HeadIsNewest(all, today);
  }

  /** The endpoint's walk from `e` over the listed days not after `e` measures the run ending at `e`. */
  lemma EarlierWalk(logs: seq<StreakLog>, u: int, e: Day, all: seq<Day>, l: seq<Day>)
    requires OnePerDay(logs) && all == UserDates(logs, u) && l == AtMost(Desc(all), e)
    ensures RunEndsAt(logs, u, e, SkipWalk(l, e))
  {
    var allDesc := Desc(all);
    NoDupSub(allDesc, all);
    NoDupSub(l, allDesc);
    StrictWhenNoDup(l);
    forall x ensures x in l <==> HasLog(logs, u, x) && x <= e {
      assert x in allDesc <==> x in multiset(all);
    }
    RunOfList(logs, u, l, e);
    forall i | 0 <= i < |l| ensures l[i] <= e {
      assert l[i] in l;
    }
    SkipWalkIsWalk(l, e);
  }

  /** The head of a newest-first list is `d` exactly when `d` is listed and nothing later is. */
  lemma HeadIsNewest(all: seq<Day>, d: Day)
    ensures (FirstOrDefault(Desc(all)) == d && |all| > 0) <==> (d in all && forall x :: x in all ==> x <= d)
  {
    var l := Desc(all);
    if d in all {
      assert d in multiset(l);
      var j :| 0 <= j < |l| && l[j] == d;
      assert l[0] >= l[j];
    }
    if |l| > 0 {
      assert l[0] in multiset(all);
      assert l[0] in all;
      assert FirstOrDefault(l) == l[0];
      forall x | x in all ensures x <= l[0] {
        assert x in multiset(l);
        var j :| 0 <= j < |l| && l[j] == x;
      }
    }
  }

  /** The weekly half of `GetUserStreakEndpoint.HandleAsync`: Monday to Sunday of the week holding `today`. */
  method WeeklyStatus(logs: seq<StreakLog>, userId: int, today: Day) returns (weeklyStatus: seq<DayStreakStatus>)
    ensures |weeklyStatus| == 7
    ensures forall i :: 0 <= i < 7 ==> weeklyStatus[i] == DayStatus(logs, userId, StartOfWeek(today) + i, today)
  {
    var startOfWeek := StartOfWeek(today);
    weeklyStatus := [];
    for i := 0 to 7
      invariant |weeklyStatus| == i
      invariant forall j :: 0 <= j < i ==> weeklyStatus[j] == DayStatus(logs, userId, startOfWeek + j, today)
    {
      var date := startOfWeek + i;
      var hasStreak: Option<bool> := if date > today then None else Some(HasLog(logs, userId, date));
      weeklyStatus := weeklyStatus + [DayStreakStatus(FormatDate(date), hasStreak)];
    }
  }

  /** The current-streak half of `GetUserStreakEndpoint.HandleAsync`. */
  method CountCurrentStreak(logs: seq<StreakLog>, userId: int, today: Day) returns (currentStreak: nat)
    ensures currentStreak == CurrentStreak(logs, userId, today)
  {
    var allStreakLogs := Desc(UserDates(logs, userId));
    currentStreak := 0;
    if FirstOrDefault(allStreakLogs) == today {
      currentStreak := 1;
    }
    var earlier := AtMost(allStreakLogs, today - 1);
    var expectedDate := today - 1;
    var counted := 0;
    var i := 0;
    while i < |earlier|
      invariant 0 <= i <= |earlier|
      invariant SkipWalk(earlier, today - 1) == counted + SkipWalk(earlier[i..], expectedDate)
    {
      assert earlier[i..][1..] == earlier[i + 1..];
      var logDate := earlier[i];
      if logDate == expectedDate {
        counted := counted + 1;
        expectedDate := expectedDate - 1;
      } else if logDate < expectedDate {
        break;
      }
      i := i + 1;
    }
    currentStreak := currentStreak + counted;
  }

  /**
   * `GetUserStreakEndpoint.HandleAsync` (today is the UTC+8 date): the
   * weekly status and the current streak; `totalExp` is the user's
   * accumulated XP, read by the caller.
   */
  method GetUserStreak(logs: seq<StreakLog>, userId: int, today: Day, totalExp: int) returns (r: UserStreakResponse)
    ensures |r.weeklyStatus| == 7
    ensures forall i :: 0 <= i < 7 ==> r.weeklyStatus[i] == DayStatus(logs, userId, StartOfWeek(today) + i, today)
    ensures r.currentStreakDays == CurrentStreak(logs, userId, today)
    ensures r.totalExp == totalExp
  {
    var weeklyStatus := WeeklyStatus(logs, userId, today);
    var currentStreak := CountCurrentStreak(logs, userId, today);
    r := UserStreakResponse(currentStreak, totalExp, weeklyStatus);
  }
}
