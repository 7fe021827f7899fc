/**
 * The XP ledger as values: the `user_exp_events` and `user_exp_snapshots`
 * rows, the event factory, the event-type parse, and the "latest snapshot plus
 * the events after it" formula by which a user's XP total is read.
 *
 * XP amounts are `numeric(18,2)` in the database; here they are integers
 * counting hundredths of a point, so 0.1 XP is 10 and 10 XP is 1000.
 */
module XpLedger {
  import opened Common

  type UserId = int

  /** An XP amount in hundredths of a point. */
  type Hundredths = int

  /** XP per page of a reading report (0.1). */
  const READING_PER_PAGE: Hundredths := 10
  /** XP of a streak bonus (10). */
  const STREAK_7_DAYS_BONUS: Hundredths := 1000
  /** Length of the streak that earns a bonus. */
  const STREAK_BONUS_DAYS: nat := 7
  /** Number of unsnapshotted events that triggers a snapshot. */
  const SNAPSHOT_EVENT_INTERVAL: nat := 7

  datatype ExpEventType = ReadingExp | DailyReadsExp | StreakExp | BookCompleted | RecommendedBookCompleted

  /** The name under which each event type is stored in `event_name`. */
  function TypeName(t: ExpEventType): string
  {
    match t
    case ReadingExp => "ReadingExp"
    case DailyReadsExp => "DailyReadsExp"
    case StreakExp => "StreakExp"
    case BookCompleted => "BookCompleted"
    case RecommendedBookCompleted => "RecommendedBookCompleted"
  }

  /** `UserExpEvent.EventType`: the stored name parsed back to the enum; `None` where `Enum.Parse` throws. */
  function ParseEventType(name: string): (r: Option<ExpEventType>)
    ensures r.Some? ==> TypeName(r.value) == name
    ensures r.None? ==> forall t: ExpEventType :: TypeName(t) != name
  {
    if name == "ReadingExp" then Some(ReadingExp)
    else if name == "DailyReadsExp" then Some(DailyReadsExp)
    else if name == "StreakExp" then Some(StreakExp)
    else if name == "BookCompleted" then Some(BookCompleted)
    else if name == "RecommendedBookCompleted" then Some(RecommendedBookCompleted)
    else None
  }

  /**
   * A row of `user_exp_events`.  The id is assigned by the database on insert
   * and `createTime` (seconds) by the auditing on save; nothing changes a row
   * afterwards, which is why this is a value.
   */
  datatype XpEvent = XpEvent(id: int, userId: UserId, exp: Hundredths, eventName: string, refId: int, createTime: int)

  /** The domain event raised by `UserExpEvent.Create`. */
  datatype UserExpCreatedEvent = UserExpCreatedEvent(userExpEvent: XpEvent)

  /** A freshly created entity together with the domain events it has raised. */
  datatype NewXpEvent = NewXpEvent(entity: XpEvent, raised: seq<UserExpCreatedEvent>)

  /**
   * `UserExpEvent.Create`: the four arguments are stored as given (no check on
   * the amount), the id is not assigned yet, and exactly one
   * `UserExpCreatedEvent` carrying the entity is raised.
   */
  function Create(userId: UserId, exp: Hundredths, eventName: string, refId: int): (n: NewXpEvent)
    ensures n.entity.userId == userId && n.entity.exp == exp
    ensures n.entity.eventName == eventName && n.entity.refId == refId
    ensures n.entity.id == 0
    ensures n.raised == [UserExpCreatedEvent(n.entity)]
  {
    var e := XpEvent(0, userId, exp, eventName, refId, 0);
    NewXpEvent(e, [UserExpCreatedEvent(e)])
  }

  // ----- sums and counts over a user's events -----

  /** Sum of `u`'s amounts over the events whose id lies in `(lo, hi]`. */
  function SumBetween(evs: seq<XpEvent>, u: UserId, lo: int, hi: int): Hundredths
  {
    if |evs| == 0 then 0
    else
      var e := evs[|evs| - 1];
      SumBetween(evs[..|evs| - 1], u, lo, hi) + (if e.userId == u && lo < e.id <= hi then e.exp else 0)
  }

  /** Sum of `u`'s amounts over the events whose id is greater than `lo`. */
  function SumAbove(evs: seq<XpEvent>, u: UserId, lo: int): Hundredths
  {
    if |evs| == 0 then 0
    else
      var e := evs[|evs| - 1];
      SumAbove(evs[..|evs| - 1], u, lo) + (if e.userId == u && e.id > lo then e.exp else 0)
  }

  /** Sum of `u`'s amounts over the events whose id is at most `hi`. */
  function SumUpTo(evs: seq<XpEvent>, u: UserId, hi: int): Hundredths
  {
    if |evs| == 0 then 0
    else
      var e := evs[|evs| - 1];
      SumUpTo(evs[..|evs| - 1], u, hi) + (if e.userId == u && e.id <= hi then e.exp else 0)
  }

  /** Sum of all of `u`'s amounts: the running total the ledger stands for. */
  function Total(evs: seq<XpEvent>, u: UserId): Hundredths
  {
    if |evs| == 0 then 0
    else
      var e := evs[|evs| - 1];
      Total(evs[..|evs| - 1], u) + (if e.userId == u then e.exp else 0)
  }

  /** Number of `u`'s events whose id is greater than `lo`. */
  function CountAbove(evs: seq<XpEvent>, u: UserId, lo: int): nat
  {
    if |evs| == 0 then 0
    else
      var e := evs[|evs| - 1];
      CountAbove(evs[..|evs| - 1], u, lo) + (if e.userId == u && e.id > lo then 1 else 0)
  }

  /** Every id is positive, as an identity column starting at 1 guarantees. */
  predicate PositiveIds(evs: seq<XpEvent>)
  {
    forall i :: 0 <= i < |evs| ==> evs[i].id >= 1
  }

  /** The part of a user's total at or below a boundary and the part above it make up the whole. */
  lemma {:induction false} SplitAtBoundary(evs: seq<XpEvent>, u: UserId, b: int)
    ensures SumUpTo(evs, u, b) + SumAbove(evs, u, b) == Total(evs, u)
  {
    if |evs| > 0 {
      SplitAtBoundary(evs[..|evs| - 1], u, b);
    }
  }

  /** Moving a boundary from `a` up to `b` adds exactly the events in `(a, b]`. */
  lemma {:induction false} ExtendBoundary(evs: seq<XpEvent>, u: UserId, a: int, b: int)
    requires a <= b
    ensures SumUpTo(evs, u, b) == SumUpTo(evs, u, a) + SumBetween(evs, u, a, b)
  {
    if |evs| > 0 {
      ExtendBoundary(evs[..|evs| - 1], u, a, b);
    }
  }

  /** With no event of `u` above `b`, nothing is summed or counted above `b`. */
  lemma {:induction false} NothingAbove(evs: seq<XpEvent>, u: UserId, b: int)
    requires forall i :: 0 <= i < |evs| && evs[i].userId == u ==> evs[i].id <= b
    ensures SumAbove(evs, u, b) == 0 && CountAbove(evs, u, b) == 0
  {
    if |evs| > 0 {
      NothingAbove(evs[..|evs| - 1], u, b);
    }
  }

  /** With positive ids nothing lies at or below 0. */
  lemma {:induction false} NothingAtOrBelowZero(evs: seq<XpEvent>, u: UserId)
    requires PositiveIds(evs)
    ensures SumUpTo(evs, u, 0) == 0
  {
    if |evs| > 0 {
      NothingAtOrBelowZero(evs[..|evs| - 1], u);
    }
  }

  /** How each sum grows when an event is appended. */
  lemma AppendEvent(evs: seq<XpEvent>, e: XpEvent, u: UserId, lo: int, hi: int)
    ensures SumUpTo(evs + [e], u, hi) == SumUpTo(evs, u, hi) + (if e.userId == u && e.id <= hi then e.exp else 0)
    ensures SumAbove(evs + [e], u, lo) == SumAbove(evs, u, lo) + (if e.userId == u && e.id > lo then e.exp else 0)
    ensures SumBetween(evs + [e], u, lo, hi) == SumBetween(evs, u, lo, hi) + (if e.userId == u && lo < e.id <= hi then e.exp else 0)
    ensures Total(evs + [e], u) == Total(evs, u) + (if e.userId == u then e.exp else 0)
    ensures CountAbove(evs + [e], u, lo) == CountAbove(evs, u, lo) + (if e.userId == u && e.id > lo then 1 else 0)
  {
    assert (evs + [e])[..|evs|] == evs;
  }

  // ----- snapshots -----

  /** A row of `user_exp_snapshots`; `lastEventSeq` holds an event id. */
  datatype Snapshot = Snapshot(userId: UserId, snapshotSeq: int, lastEventSeq: int, exp: Hundredths)

  /** The user's snapshot with the highest `snapshotSeq` (`ORDER BY snapshot_seq DESC LIMIT 1`). */
  function LatestSnapshot(ss: seq<Snapshot>, u: UserId): (r: Option<Snapshot>)
    ensures r.Some? ==> r.value in ss && r.value.userId == u
    ensures r.Some? ==> forall s :: s in ss && s.userId == u ==> s.snapshotSeq <= r.value.snapshotSeq
    ensures r.None? ==> forall s :: s in ss ==> s.userId != u
  {
    if |ss| == 0 then None
    else
      var s := ss[|ss| - 1];
      var rest := LatestSnapshot(ss[..|ss| - 1], u);
      assert ss == ss[..|ss| - 1] + [s];
      if s.userId != u then rest
      else if rest.Some? && rest.value.snapshotSeq > s.snapshotSeq then rest
      else Some(s)
  }

  /** What the readers take from the latest snapshot, each field defaulting to 0 when there is none. */
  datatype Baseline = Baseline(snapshotSeq: int, lastEventSeq: int, exp: Hundredths)

  function BaselineOf(ss: seq<Snapshot>, u: UserId): Baseline
  {
    match LatestSnapshot(ss, u)
    case None => Baseline(0, 0, 0)
    case Some(s) => Baseline(s.snapshotSeq, s.lastEventSeq, s.exp)
  }

  /** The decimal total before the cast: latest snapshot's exp plus the user's events strictly after its boundary. */
  function AccumulatedExp(evs: seq<XpEvent>, ss: seq<Snapshot>, u: UserId): Hundredths
  {
    var b := BaselineOf(ss, u);
    b.exp + SumAbove(evs, u, b.lastEventSeq)
  }

  /**
   * `CAST(x AS INTEGER)` on a numeric: PostgreSQL rounds to the nearest
   * integer, halves away from zero.
   */
  function RoundToInteger(h: Hundredths): (r: int)
    ensures h >= 0 ==> 100 * r - 50 <= h < 100 * r + 50
    ensures h < 0 ==> 100 * r - 50 < h <= 100 * r + 50
  {
    if h >= 0 then (h + 50) / 100 else -((-h + 50) / 100)
  }

  /** `UserExpDomainService.GetUserAccumulatedExp`. */
  function GetUserAccumulatedExp(evs: seq<XpEvent>, ss: seq<Snapshot>, u: UserId): (r: int)
    ensures AccumulatedExp(evs, ss, u) >= 0 ==> 100 * r - 50 <= AccumulatedExp(evs, ss, u) < 100 * r + 50
    ensures AccumulatedExp(evs, ss, u) < 0 ==> 100 * r - 50 < AccumulatedExp(evs, ss, u) <= 100 * r + 50
  {
    RoundToInteger(AccumulatedExp(evs, ss, u))
  }

  /** Every snapshot holds exactly the sum of its user's events up to its boundary. */
  predicate SnapshotsConsistent(evs: seq<XpEvent>, ss: seq<Snapshot>)
  {
    forall s :: s in ss ==> s.exp == SumUpTo(evs, s.userId, s.lastEventSeq)
  }

  /**
   * The reading formula gives the running total: when every snapshot is
   * consistent and ids are positive, snapshot plus tail is the sum of all of
   * the user's events, and the event at the boundary is counted once.
   */
  lemma AccumulatedIsTotal(evs: seq<XpEvent>, ss: seq<Snapshot>, u: UserId)
    requires PositiveIds(evs) && SnapshotsConsistent(evs, ss)
    ensures AccumulatedExp(evs, ss, u) == Total(evs, u)
  {
    var b := BaselineOf(ss, u);
    SplitAtBoundary(evs, u, b.lastEventSeq);
    if LatestSnapshot(ss, u).None? {
      NothingAtOrBelowZero(evs, u);
    }
  }

  /** Without any snapshot the total is the sum of all the user's events; with neither events nor snapshots it is 0. */
  lemma AccumulatedWithoutSnapshot(evs: seq<XpEvent>, ss: seq<Snapshot>, u: UserId)
    requires PositiveIds(evs)
    requires forall s :: s in ss ==> s.userId != u
    ensures AccumulatedExp(evs, ss, u) == Total(evs, u)
    ensures (forall i :: 0 <= i < |evs| ==> evs[i].userId != u) ==> GetUserAccumulatedExp(evs, ss, u) == 0
  {
    SplitAtBoundary(evs, u, 0);
    NothingAtOrBelowZero(evs, u);
    if forall i :: 0 <= i < |evs| ==> evs[i].userId != u {
      NothingAbove(evs, u, 0);
    }
  }

  // ----- compaction -----

  /** The user's snapshots, in insertion order. */
  function UserSnapshots(ss: seq<Snapshot>, u: UserId): (r: seq<Snapshot>)
    ensures forall s :: s in r <==> s in ss && s.userId == u
  {
    if |ss| == 0 then []
    else
      var s := ss[|ss| - 1];
      assert ss == ss[..|ss| - 1] + [s];
      UserSnapshots(ss[..|ss| - 1], u) + (if s.userId == u then [s] else [])
  }

  /** Sequence numbers 1, 2, 3, ... in order, without gaps. */
  predicate Contiguous(us: seq<Snapshot>)
  {
    forall i :: 0 <= i < |us| ==> us[i].snapshotSeq == i + 1
  }

  /** Every user's snapshots are numbered 1, 2, 3, ...; in particular (user, seq) is unique. */
  ghost predicate SeqsContiguous(ss: seq<Snapshot>)
  {
    forall u :: Contiguous(UserSnapshots(ss, u))
  }

  /** With contiguous numbering the latest snapshot's number is the number of snapshots the user has. */
  lemma {:induction false} ContiguousBaseline(ss: seq<Snapshot>, u: UserId)
    requires Contiguous(UserSnapshots(ss, u))
    ensures BaselineOf(ss, u).snapshotSeq == |UserSnapshots(ss, u)|
  {
    if |ss| > 0 {
      var p := ss[..|ss| - 1];
      var s := ss[|ss| - 1];
      assert UserSnapshots(ss, u)[..|UserSnapshots(p, u)|] == UserSnapshots(p, u);
      ContiguousBaseline(p, u);
      if s.userId == u {
        assert UserSnapshots(ss, u)[|UserSnapshots(p, u)|] == s;
      }
    }
  }

  /**
   * `UserExpSnapshotEventHandler.Handle` as a value: below the threshold no
   * snapshot; otherwise the next sequence number, the trigger's id as
   * boundary, and the baseline plus the user's events in (boundary, trigger].
   */
  function Compaction(evs: seq<XpEvent>, ss: seq<Snapshot>, trigger: XpEvent): (r: Option<Snapshot>)
    ensures r.None? <==> CountAbove(evs, trigger.userId, BaselineOf(ss, trigger.userId).lastEventSeq) < SNAPSHOT_EVENT_INTERVAL
    ensures r.Some? ==> && r.value.userId == trigger.userId && r.value.lastEventSeq == trigger.id
                        && r.value.snapshotSeq == BaselineOf(ss, trigger.userId).snapshotSeq + 1
  {
    var u := trigger.userId;
    var b := BaselineOf(ss, u);
    if CountAbove(evs, u, b.lastEventSeq) < SNAPSHOT_EVENT_INTERVAL then None
    else Some(Snapshot(u, b.snapshotSeq + 1, trigger.id, b.exp + SumBetween(evs, u, b.lastEventSeq, trigger.id)))
  }

  /**
   * Compaction is invisible to readers: the new snapshot is consistent, the
   * per-user numbering stays 1, 2, 3, ..., and every user's accumulated total
   * is the same before and after.
   */
  lemma CompactionKeepsTotals(evs: seq<XpEvent>, ss: seq<Snapshot>, trigger: XpEvent)
    requires PositiveIds(evs) && SnapshotsConsistent(evs, ss) && SeqsContiguous(ss)
    requires BaselineOf(ss, trigger.userId).lastEventSeq <= trigger.id
    requires Compaction(evs, ss, trigger).Some?
    ensures var n := Compaction(evs, ss, trigger).value;
      && SnapshotsConsistent(evs, ss + [n])
      && SeqsContiguous(ss + [n])
      && forall v :: AccumulatedExp(evs, ss + [n], v) == AccumulatedExp(evs, ss, v)
  {
    var n := Compaction(evs, ss, trigger).value;
    CompactionExp(evs, ss, trigger);
    assert SnapshotsConsistent(evs, ss + [n]);
    CompactionContiguous(ss, n);
    CompactionSameTotals(evs, ss, n);
  }

  /** The new snapshot holds the sum of the user's events up to the trigger. */
  lemma CompactionExp(evs: seq<XpEvent>, ss: seq<Snapshot>, trigger: XpEvent)
    requires PositiveIds(evs) && SnapshotsConsistent(evs, ss)
    requires BaselineOf(ss, trigger.userId).lastEventSeq <= trigger.id
    requires Compaction(evs, ss, trigger).Some?
    ensures Compaction(evs, ss, trigger).value.exp == SumUpTo(evs, trigger.userId, trigger.id)
  {
    var u := trigger.userId;
    ExtendBoundary(evs, u, BaselineOf(ss, u).lastEventSeq, trigger.id);
    if LatestSnapshot(ss, u).None? {
      NothingAtOrBelowZero(evs, u);
    }
  }

  /** A snapshot numbered one past its user's latest keeps every user's numbering contiguous. */
  lemma CompactionContiguous(ss: seq<Snapshot>, n: Snapshot)
    requires SeqsContiguous(ss)
    requires n.snapshotSeq == BaselineOf(ss, n.userId).snapshotSeq + 1
    ensures SeqsContiguous(ss + [n])
  {
    var u := n.userId;
    var ss' := ss + [n];
    assert ss'[..|ss|] == ss;
    ContiguousBaseline(ss, u);
    forall v
      ensures Contiguous(UserSnapshots(ss', v))
    {
      if v == u {
        assert UserSnapshots(ss', v) == UserSnapshots(ss, v) + [n];
      }
    }
  }

  /** A consistent snapshot past its user's latest leaves every reader's total as it was. */
  lemma CompactionSameTotals(evs: seq<XpEvent>, ss: seq<Snapshot>, n: Snapshot)
    requires PositiveIds(evs) && SnapshotsConsistent(evs, ss)
    requires n.snapshotSeq == BaselineOf(ss, n.userId).snapshotSeq + 1
    requires n.exp == SumUpTo(evs, n.userId, n.lastEventSeq)
    ensures forall v :: AccumulatedExp(evs, ss + [n], v) == AccumulatedExp(evs, ss, v)
  {
    var u := n.userId;
    var ss' := ss + [n];
    assert ss'[..|ss|] == ss;
    forall v
      ensures AccumulatedExp(evs, ss', v) == AccumulatedExp(evs, ss, v)
    {
      if v == u {
        assert LatestSnapshot(ss', u) == Some(n);
        SplitAtBoundary(evs, u, n.lastEventSeq);
        AccumulatedIsTotal(evs, ss, u);
      }
    }
  }

  /** Another user's events change neither the count nor the sum that compaction reads. */
  lemma OtherUsersIgnored(evs: seq<XpEvent>, ss: seq<Snapshot>, trigger: XpEvent, e: XpEvent)
    requires e.userId != trigger.userId
    ensures Compaction(evs + [e], ss, trigger) == Compaction(evs, ss, trigger)
  {
    var b := BaselineOf(ss, trigger.userId);
    AppendEvent(evs, e, trigger.userId, b.lastEventSeq, trigger.id);
  }
}
