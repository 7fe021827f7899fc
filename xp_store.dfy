/**
 * The XP tables held by one store object: the event log, the snapshots and
 * the id the database assigns next.  Every accrual handler ends in at most
 * one `Append`; saving an event dispatches its `UserExpCreatedEvent` to the
 * snapshot handler.
 */
module XpStore {
  import opened Common
  import opened XpLedger
  import opened DailyReadData
  import opened XpAccrual
  import Streaks

  /** The event as stored: the database id and the save time filled in. */
  function Stamp(e: XpEvent, id: int, now: int): XpEvent
  {
    e.(id := id, createTime := now)
  }

  /** The awards that are paid once per reference. */
  predicate OncePerRef(name: string)
  {
    name == TypeName(DailyReadsExp) || name == TypeName(StreakExp)
  }

  /** At most one `DailyReadsExp` event per (user, daily read) and one `StreakExp` event per (user, streak log). */
  predicate UniqueAwards(evs: seq<XpEvent>)
  {
    forall i, j ::
      (0 <= i < j < |evs| && evs[i].userId == evs[j].userId && evs[i].refId == evs[j].refId
       && evs[i].eventName == evs[j].eventName) ==> !OncePerRef(evs[i].eventName)
  }

  /** An event that may be appended without breaking `UniqueAwards`. */
  predicate MayAppend(evs: seq<XpEvent>, e: XpEvent)
  {
    OncePerRef(e.eventName) ==> !AlreadyAwarded(evs, e.userId, e.eventName, e.refId)
  }

  function SnapshotList(s: Option<Snapshot>): seq<Snapshot>
  {
    if s.Some? then [s.value] else []
  }

  class ExpStore {
    var events: seq<XpEvent>
    var snapshots: seq<Snapshot>
    var nextId: int

    ghost predicate Valid()
      reads this
    {
      && nextId >= 1
      && PositiveIds(events)
      && (forall i :: 0 <= i < |events| ==> events[i].id < nextId)
      && (forall s :: s in snapshots ==> s.lastEventSeq < nextId)
      && SnapshotsConsistent(events, snapshots)
      && SeqsContiguous(snapshots)
      && UniqueAwards(events)
    }

    constructor ()
      ensures Valid() && events == [] && snapshots == []
    {
      events := [];
      snapshots := [];
      nextId := 1;
    }

    /**
     * `UserExpSnapshotEventHandler.Handle`, dispatched for a stored event
     * whose id is not below the user's latest snapshot boundary: appends the
     * snapshot `Compaction` decides, if any, and leaves every user's total as
     * it was.
     */
    method HandleUserExpCreated(domainEvent: UserExpCreatedEvent)
      requires Valid()
      requires domainEvent.userExpEvent in events
      requires BaselineOf(snapshots, domainEvent.userExpEvent.userId).lastEventSeq <= domainEvent.userExpEvent.id
      modifies this
      ensures Valid()
      ensures events == old(events) && nextId == old(nextId)
      ensures snapshots == old(snapshots) + SnapshotList(Compaction(events, old(snapshots), domainEvent.userExpEvent))
      ensures forall v :: AccumulatedExp(events, snapshots, v) == old(AccumulatedExp(events, snapshots, v))
    {
      var userExpEvent := domainEvent.userExpEvent;
      var newSnapshot := Compaction(events, snapshots, userExpEvent);
      if newSnapshot.None? {
        return;
      }
      CompactionKeepsTotals(events, snapshots, userExpEvent);
      snapshots := snapshots + [newSnapshot.value];
    }

    /**
     * Saves an event created by `UserExpEvent.Create`: the database assigns
     * the next id and the save time, then the raised `UserExpCreatedEvent` is
     * dispatched to the snapshot handler.  The user's total grows by the
     * event's amount; every other total is unchanged.
     */
    method Append(n: NewXpEvent, now: int) returns (stored: XpEvent)
      requires Valid()
      requires n.raised == [UserExpCreatedEvent(n.entity)]
      requires MayAppend(events, n.entity)
      modifies this
      ensures Valid()
      ensures stored == Stamp(n.entity, old(nextId), now)
      ensures events == old(events) + [stored]
      ensures snapshots == old(snapshots) + SnapshotList(Compaction(events, old(snapshots), stored))
      ensures forall v :: AccumulatedExp(events, snapshots, v)
                          == old(AccumulatedExp(events, snapshots, v)) + (if v == stored.userId then stored.exp else 0)
    {
      stored := Stamp(n.entity, nextId, now);
      ghost var evs0 := events;
      AppendKeepsConsistent(events, snapshots, stored);
      events := events + [stored];
      nextId := nextId + 1;
      assert events[|events| - 1] == stored;
      assert UniqueAwards(events) by {
        forall i, j | 0 <= i < j < |events| && events[i].userId == events[j].userId && events[i].refId == events[j].refId
          && events[i].eventName == events[j].eventName
          ensures !OncePerRef(events[i].eventName)
        {
          if j < |evs0| {
            assert events[i] == evs0[i] && events[j] == evs0[j];
          } else {
            assert events[i] == evs0[i];
          }
        }
      }
      if LatestSnapshot(snapshots, stored.userId).Some? {
        assert LatestSnapshot(snapshots, stored.userId).value in snapshots;
      }
      // the raised event refers to the entity, which carries its id once saved
      HandleUserExpCreated(UserExpCreatedEvent(stored));
    }

    /** `ReadingExpEventHandler.Handle`: every report appends one event, even for page 0. */
    method ReadingExpHandler(report: ReadingReport, now: int) returns (stored: XpEvent)
      requires Valid()
      modifies this
      ensures Valid()
      ensures stored == Stamp(ReadingAward(report).entity, old(nextId), now)
      ensures events == old(events) + [stored]
      ensures forall v :: AccumulatedExp(events, snapshots, v)
                          == old(AccumulatedExp(events, snapshots, v)) + (if v == report.userId then stored.exp else 0)
    {
      stored := Append(ReadingAward(report), now);
    }

    /** `DailyReadsExpEventHandler.Handle`: appends the award `DailyReadsAward` decides, if any. */
    method DailyReadsExpHandler(dailyReads: seq<DailyRead>, questionTable: seq<QuestionRow>, answerTable: seq<QuizAnswer>,
                                userId: UserId, dailyReadId: int, now: int)
      requires Valid()
      modifies this
      ensures Valid()
      ensures var award := old(DailyReadsAward(events, dailyReads, questionTable, answerTable, userId, dailyReadId));
        events == old(events) + (if award.Some? then [Stamp(award.value.entity, old(nextId), now)] else [])
      ensures var award := old(DailyReadsAward(events, dailyReads, questionTable, answerTable, userId, dailyReadId));
        forall v :: AccumulatedExp(events, snapshots, v) == old(AccumulatedExp(events, snapshots, v))
                    + (if award.Some? && v == award.value.entity.userId then award.value.entity.exp else 0)
    {
      var award := DailyReadsAward(events, dailyReads, questionTable, answerTable, userId, dailyReadId);
      if award.None? {
        return;
      }
      var _ := Append(award.value, now);
    }

    /**
     * `StreakExpEventHandler.Handle`, dispatched for a stored streak log:
     * walks the user's logs up to the log's date, newest first, and pays the
     * bonus on a multiple of 7 days, once per log.
     */
    method StreakExpHandler(logs: seq<Streaks.StreakLog>, streakLog: Streaks.StreakLog, now: int)
      requires Valid()
      modifies this
      ensures Valid()
      ensures var award := old(StreakBonus(events, logs, streakLog));
        events == old(events) + (if award.Some? then [Stamp(award.value.entity, old(nextId), now)] else [])
      ensures var award := old(StreakBonus(events, logs, streakLog));
        forall v :: AccumulatedExp(events, snapshots, v) == old(AccumulatedExp(events, snapshots, v))
                    + (if award.Some? && v == award.value.entity.userId then award.value.entity.exp else 0)
    {
      var allStreakLogs := Streaks.WalkedDates(logs, streakLog.userId, streakLog.date);
      var consecutiveStreak := Streaks.ConsecutiveStreak(allStreakLogs, streakLog.date);
      if consecutiveStreak % STREAK_BONUS_DAYS != 0 {
        return;
      }
      var alreadyGivenXp := AlreadyAwarded(events, streakLog.userId, TypeName(StreakExp), streakLog.id);
      if alreadyGivenXp {
        return;
      }
      var _ := Append(Create(streakLog.userId, STREAK_7_DAYS_BONUS, TypeName(StreakExp), streakLog.id), now);
    }

    /** `BookCompletedEventHandler.Handle`: appends the award `BookAward` decides, if any. */
    method BookCompletedHandler(resources: seq<ReadingResource>, recommendations: seq<Recommendation>,
                                report: ReadingReport, now: int, cooldownDays: int, bookCompletedExp: Hundredths)
      requires Valid()
      modifies this
      ensures Valid()
      ensures var award := old(BookAward(events, resources, recommendations, report, now, cooldownDays, bookCompletedExp));
        events == old(events) + (if award.Some? then [Stamp(award.value.entity, old(nextId), now)] else [])
      ensures var award := old(BookAward(events, resources, recommendations, report, now, cooldownDays, bookCompletedExp));
        forall v :: AccumulatedExp(events, snapshots, v) == old(AccumulatedExp(events, snapshots, v))
                    + (if award.Some? && v == award.value.entity.userId then award.value.entity.exp else 0)
    {
      var award := BookAward(events, resources, recommendations, report, now, cooldownDays, bookCompletedExp);
      if award.None? {
        return;
      }
      var _ := Append(award.value, now);
    }
  }

  /** A new event with an id above every snapshot boundary leaves every snapshot consistent. */
  lemma AppendKeepsConsistent(evs: seq<XpEvent>, ss: seq<Snapshot>, e: XpEvent)
    requires SnapshotsConsistent(evs, ss)
    requires forall s :: s in ss ==> s.lastEventSeq < e.id
    ensures SnapshotsConsistent(evs + [e], ss)
  {
    forall s | s in ss ensures s.exp == SumUpTo(evs + [e], s.userId, s.lastEventSeq) {
      AppendEvent(evs, e, s.userId, 0, s.lastEventSeq);
    }
  }

  /** In a valid store the total read for a user is the sum of all of the user's events, rounded as the SQL cast does. */
  lemma StoreTotal(evs: seq<XpEvent>, ss: seq<Snapshot>, u: UserId)
    requires PositiveIds(evs) && SnapshotsConsistent(evs, ss)
    ensures GetUserAccumulatedExp(evs, ss, u) == RoundToInteger(Total(evs, u))
  {
    AccumulatedIsTotal(evs, ss, u);
  }
}
