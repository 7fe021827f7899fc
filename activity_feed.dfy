/**
 * The activity feed: every XP event of a known user, newest first, with a
 * sentence describing it.  Paging is done by a paging service that is not
 * part of this model; the feed below is the whole ordered query it pages.
 */
module ActivityFeed {
  import opened Common
  import opened XpLedger
  import opened Sorting

  /** The XP shown in a description: the amount rounded down to a whole point (`Math.Floor`). */
  function DisplayedXp(exp: Hundredths): (r: int)
    ensures 100 * r <= exp < 100 * r + 100
  {
    exp / 100
  }

  /** `NaturalizeEventDescription`: the sentence shown for an event of the given name and amount. */
  function Describe(eventName: string, exp: Hundredths): (r: string)
    ensures eventName == "ReadingExp" && DisplayedXp(exp) <= 0 ==> r == "Completed a reading session"
    ensures eventName == "ReadingExp" && DisplayedXp(exp) > 0 ==>
      r == "Completed a reading session and earned " + IntToString(DisplayedXp(exp)) + " XP"
    ensures eventName == "DailyReadsExp" ==>
      r == "Successfully completed the daily read quiz and earned " + IntToString(DisplayedXp(exp)) + " XP"
    ensures eventName == "StreakExp" ==>
      r == "Achieved a " + NatToString(STREAK_BONUS_DAYS) + "-day streak and earned bonus " + IntToString(DisplayedXp(exp)) + " XP"
    ensures eventName !in {"ReadingExp", "DailyReadsExp", "StreakExp"} ==>
      r == "Earned " + IntToString(DisplayedXp(exp)) + " XP from " + eventName
  {
    var roundedExp := exp / 100;
    match eventName
    case "ReadingExp" =>
      if roundedExp > 0 then "Completed a reading session and earned " + IntToString(roundedExp) + " XP"
      else "Completed a reading session"
    case "DailyReadsExp" => "Successfully completed the daily read quiz and earned " + IntToString(roundedExp) + " XP"
    case "StreakExp" =>
      "Achieved a " + NatToString(STREAK_BONUS_DAYS) + "-day streak and earned bonus " + IntToString(roundedExp) + " XP"
    case _ => "Earned " + IntToString(roundedExp) + " XP from " + eventName
  }

  /**
   * Apart from a reading session below one point, the description determines
   * the displayed XP: two events of the same kind whose sentences agree show
   * the same whole number of points.
   */
  lemma DescriptionDeterminesXp(eventName: string, exp1: Hundredths, exp2: Hundredths)
    requires eventName != "ReadingExp" || (DisplayedXp(exp1) > 0 && DisplayedXp(exp2) > 0)
    requires Describe(eventName, exp1) == Describe(eventName, exp2)
    ensures DisplayedXp(exp1) == DisplayedXp(exp2)
  {
    var a, b := IntToString(DisplayedXp(exp1)), IntToString(DisplayedXp(exp2));
    var prefix, suffix: string;
    if eventName == "ReadingExp" {
      prefix, suffix := "Completed a reading session and earned ", " XP";
    } else if eventName == "DailyReadsExp" {
      prefix, suffix := "Successfully completed the daily read quiz and earned ", " XP";
    } else if eventName == "StreakExp" {
      prefix, suffix := "Achieved a " + NatToString(STREAK_BONUS_DAYS) + "-day streak and earned bonus ", " XP";
    } else {
      prefix, suffix := "Earned ", " XP from " + eventName;
    }
    assert Describe(eventName, exp1) == prefix + a + suffix;
    assert Describe(eventName, exp2) == prefix + b + suffix;
    StripAround(prefix, a, b, suffix);
    IntToStringInjective(DisplayedXp(exp1), DisplayedXp(exp2));
  }

  lemma StripAround(prefix: string, a: string, b: string, suffix: string)
    requires prefix + a + suffix == prefix + b + suffix
    ensures a == b
  {
    var s := prefix + a + suffix;
    assert a == s[|prefix|..|prefix| + |a|];
    assert b == s[|prefix|..|prefix| + |b|];
  }

  /** A reading session worth less than one point is described without an amount. */
  lemma SmallReadingHasNoAmount(exp: Hundredths)
    requires exp < 100
    ensures Describe("ReadingExp", exp) == "Completed a reading session"
  {
  }

  /** A row of the feed. */
  datatype ActivityFeedItem = ActivityFeedItem(userId: UserId, activityType: string, activityDate: int, description: string)

  /** The inner join with the users table: events of users that exist. */
  function JoinedEvents(evs: seq<XpEvent>, users: set<UserId>): (r: seq<XpEvent>)
    ensures forall e :: e in r <==> e in evs && e.userId in users
    ensures multiset(r) <= multiset(evs)
  {
    if evs == [] then []
    else
      var rest := JoinedEvents(evs[..|evs| - 1], users);
      assert evs == evs[..|evs| - 1] + [evs[|evs| - 1]];
      if evs[|evs| - 1].userId in users then rest + [evs[|evs| - 1]] else rest
  }

  function ToItem(e: XpEvent): ActivityFeedItem
  {
    ActivityFeedItem(e.userId, e.eventName, e.createTime, Describe(e.eventName, e.exp))
  }

  /** The whole query: joined events ordered by `CreateTime` descending, each turned into a feed row. */
  function Feed(evs: seq<XpEvent>, users: set<UserId>): (r: seq<ActivityFeedItem>)
    ensures |r| == |JoinedEvents(evs, users)|
    ensures forall i, j :: 0 <= i < j < |r| ==> r[i].activityDate >= r[j].activityDate
  {
    var ordered := SortDesc(JoinedEvents(evs, users), (e: XpEvent) => e.createTime);
    seq(|ordered|, i requires 0 <= i < |ordered| => ToItem(ordered[i]))
  }

  /**
   * The feed holds one row per event of a known user, newest first, and each
   * row carries that event's user, name, time and description.
   */
  lemma FeedIsOrderedEvents(evs: seq<XpEvent>, users: set<UserId>)
    ensures var feed := Feed(evs, users);
      && |feed| == |JoinedEvents(evs, users)|
      && (forall i, j :: 0 <= i < j < |feed| ==> feed[i].activityDate >= feed[j].activityDate)
      && (forall i :: 0 <= i < |feed| ==> exists e :: e in evs && e.userId in users && feed[i] == ToItem(e))
      && (forall e :: e in evs && e.userId in users ==> ToItem(e) in feed)
  {
    FeedRowsFromEvents(evs, users);
    FeedCoversEvents(evs, users);
  }

  lemma FeedRowsFromEvents(evs: seq<XpEvent>, users: set<UserId>)
    ensures var feed := Feed(evs, users);
      forall i :: 0 <= i < |feed| ==> exists e :: e in evs && e.userId in users && feed[i] == ToItem(e)
  {
    var joined := JoinedEvents(evs, users);
    var ordered := SortDesc(joined, (e: XpEvent) => e.createTime);
    var feed := Feed(evs, users);
    forall i | 0 <= i < |feed| ensures exists e :: e in evs && e.userId in users && feed[i] == ToItem(e) {
      assert ordered[i] in multiset(joined);
    }
  }

  lemma FeedCoversEvents(evs: seq<XpEvent>, users: set<UserId>)
    ensures forall e :: e in evs && e.userId in users ==> ToItem(e) in Feed(evs, users)
  {
    var joined := JoinedEvents(evs, users);
    var ordered := SortDesc(joined, (e: XpEvent) => e.createTime);
    var feed := Feed(evs, users);
    forall e | e in evs && e.userId in users ensures ToItem(e) in feed {
      assert e in multiset(ordered);
      var k :| 0 <= k < |ordered| && ordered[k] == e;
      assert feed[k] == ToItem(e);
    }
  }
}
