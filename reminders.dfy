/**
 * Daily reading reminders.  Four fixed slots a day; the page keeps the
 * slots already notified today in `localStorage` under "sentRemindersToday"
 * as a date and a list of "H:MM" keys, and the service worker keeps its own
 * copy of that record in a cache and fires every passed, unsent slot when it
 * wakes up.
 */
module Reminders {
  import opened Common
  import opened WebStorage

  /** A reminder slot, on the local clock. */
  datatype Slot = Slot(hour: nat, minute: nat)

  /** `REMINDER_TIMES`, in the order they are checked. */
  const ReminderTimes: seq<Slot> := [Slot(9, 0), Slot(12, 0), Slot(15, 0), Slot(20, 0)]

  const SentRemindersKey: string := "sentRemindersToday"

  /** `minute.toString().padStart(2, '0')`. */
  function PadStart2(n: nat): (r: string)
    ensures |r| >= 2
    ensures forall i :: 0 <= i < |r| ==> '0' <= r[i] <= '9'
  {
    if n < 10 then "0" + NatToString(n) else NatToString(n)
  }

  /** The text of a slot as it is recorded: hour without padding, a colon, the minute on two digits. */
  function SlotKey(hour: nat, minute: nat): string
  {
    NatToString(hour) + ":" + PadStart2(minute)
  }

  function KeyOf(s: Slot): string
  {
    SlotKey(s.hour, s.minute)
  }

  /** The keys of `slots`, in order. */
  function KeysOf(slots: seq<Slot>): (r: seq<string>)
    ensures |r| == |slots|
  {
    if |slots| == 0 then [] else KeysOf(slots[..|slots| - 1]) + [KeyOf(slots[|slots| - 1])]
  }

  /** Rendering a positive number never starts with a zero. */
  lemma {:induction false} NatToStringLeading(n: nat)
    requires n >= 1
    ensures NatToString(n)[0] != '0'
  {
    if n >= 10 {
      NatToStringLeading(n / 10);
      assert NatToString(n)[0] == NatToString(n / 10)[0];
    }
  }

  lemma PadStart2Injective(a: nat, b: nat)
    requires PadStart2(a) == PadStart2(b)
    ensures a == b
  {
    if a < 10 && b >= 10 {
      NatToStringLeading(b);
    } else if a >= 10 && b < 10 {
      NatToStringLeading(a);
    } else if a < 10 {
      assert PadStart2(a)[1..] == NatToString(a);
      assert PadStart2(b)[1..] == NatToString(b);
      NatToStringInjective(a, b);
    } else {
      NatToStringInjective(a, b);
    }
  }

  /** Two slots share a key exactly when they are the same time of day. */
  lemma SlotKeyInjective(h1: nat, m1: nat, h2: nat, m2: nat)
    ensures SlotKey(h1, m1) == SlotKey(h2, m2) <==> h1 == h2 && m1 == m2
  {
    if SlotKey(h1, m1) == SlotKey(h2, m2) {
      var k := SlotKey(h1, m1);
      var a, b := NatToString(h1), NatToString(h2);
      assert k[|a|] == ':';
      assert SlotKey(h2, m2)[|b|] == ':';
      assert |a| == |b|;
      assert k[..|a|] == a && k[..|b|] == b;
      NatToStringInjective(h1, h2);
      assert k[|a| + 1..] == PadStart2(m1);
      assert SlotKey(h2, m2)[|b| + 1..] == PadStart2(m2);
      PadStart2Injective(m1, m2);
    }
  }

  /** The four slots are recorded as "9:00", "12:00", "15:00" and "20:00", all different. */
  lemma ReminderKeys()
    ensures KeysOf(ReminderTimes) == ["9:00", "12:00", "15:00", "20:00"]
    ensures Distinct(KeysOf(ReminderTimes))
  {
    assert NatToString(0) == "0";
    assert PadStart2(0) == "00";
    assert NatToString(9) == "9";
    assert NatToString(12) == NatToString(1) + "2";
    assert NatToString(15) == NatToString(1) + "5";
    assert NatToString(20) == NatToString(2) + "0";
    assert ReminderTimes[..0] == [];
    assert ReminderTimes[..1] == [Slot(9, 0)];
    assert ReminderTimes[..2] == [Slot(9, 0), Slot(12, 0)];
    assert ReminderTimes[..3] == [Slot(9, 0), Slot(12, 0), Slot(15, 0)];
    assert KeyOf(Slot(9, 0)) == "9:00";
    assert KeyOf(Slot(12, 0)) == "12:00";
    assert KeyOf(Slot(15, 0)) == "15:00";
    assert KeyOf(Slot(20, 0)) == "20:00";
    assert KeysOf(ReminderTimes[..1]) == ["9:00"];
    assert KeysOf(ReminderTimes[..2]) == ["9:00", "12:00"];
    assert ReminderTimes[..2][..1] == ReminderTimes[..1];
    assert ReminderTimes[..3][..2] == ReminderTimes[..2];
    assert ReminderTimes[..4][..3] == ReminderTimes[..3];
    assert ReminderTimes[..4] == ReminderTimes;
    assert KeysOf(ReminderTimes[..3]) == ["9:00", "12:00", "15:00"];
  }

  // ---------------------------------------------------------------------
  // The page's record in localStorage

  /**
   * The value under "sentRemindersToday" as `JSON.parse` reads it: a record
   * whose `times` may be missing, or text that does not parse.
   */
  datatype Item = Sent(date: string, times: Option<seq<string>>) | Unparsable(text: string)

  /**
   * `getSentRemindersToday`: nothing stored (or the empty string) and a
   * record from another day both give []; text that does not parse makes
   * `JSON.parse` throw, which is not caught.
   */
  function SentToday(items: map<string, Item>, today: string): (r: Result<seq<string>, string>)
    ensures r.Ok? && r.value != [] ==>
      SentRemindersKey in items && items[SentRemindersKey].Sent? && items[SentRemindersKey].date == today
    ensures r.Err? <==> SentRemindersKey in items && items[SentRemindersKey].Unparsable? && items[SentRemindersKey].text != ""
  {
    if SentRemindersKey !in items then Ok([])
    else match items[SentRemindersKey]
      case Unparsable(text) => if text == "" then Ok([]) else Err("JSON.parse")
      case Sent(date, times) =>
        if date != today then Ok([])
        else if times.None? then Ok([])
        else Ok(times.value)
  }

  /** `isReminderSentForTime`. */
  function IsSentForTime(items: map<string, Item>, today: string, hour: nat, minute: nat): Result<bool, string>
  {
    var sent := SentToday(items, today);
    if sent.Err? then Err(sent.error) else Ok(SlotKey(hour, minute) in sent.value)
  }

  /** A record written on another day counts as no reminder sent. */
  lemma SentTodayOtherDay(items: map<string, Item>, today: string, hour: nat, minute: nat)
    requires SentRemindersKey in items && items[SentRemindersKey].Sent? && items[SentRemindersKey].date != today
    ensures SentToday(items, today) == Ok([])
    ensures IsSentForTime(items, today, hour, minute) == Ok(false)
  {
  }

  /** The sent list with `key` appended unless it is already there. */
  function Marked(times: seq<string>, key: string): (r: seq<string>)
    ensures key in r && |times| <= |r| <= |times| + 1 && r[..|times|] == times
  {
    if key in times then times else times + [key]
  }

  /**
   * Marking adds exactly `key`, keeps the list free of repeats and is
   * idempotent.
   */
  lemma MarkedMeaning(times: seq<string>, key: string)
    ensures forall k :: k in Marked(times, key) <==> k in times || k == key
    ensures Distinct(times) ==> Distinct(Marked(times, key))
    ensures Marked(Marked(times, key), key) == Marked(times, key)
    ensures key in times ==> Marked(times, key) == times
  {
  }

  /**
   * `markReminderAsSent`: today's list plus the slot is written back under
   * today's date.  When the stored record does not parse, the exception
   * leaves storage as it was; the outcome is what was written.
   */
  method MarkReminderAsSent(store: Storage<Item>, today: string, hour: nat, minute: nat)
    returns (outcome: Result<seq<string>, string>)
    requires store.Valid()
    modifies store
    ensures store.Valid()
    ensures SentToday(old(store.items), today).Err? ==>
      outcome.Err? && store.items == old(store.items) && store.keys == old(store.keys)
    ensures SentToday(old(store.items), today).Ok? ==>
      && outcome == Ok(Marked(SentToday(old(store.items), today).value, SlotKey(hour, minute)))
      && store.items == old(store.items)[SentRemindersKey := Sent(today, Some(outcome.value))]
  {
    var timeString := SlotKey(hour, minute);
    var sentTimes := SentToday(store.items, today);
    if sentTimes.Err? {
      return Err(sentTimes.error);
    }
    var times := sentTimes.value;
    if timeString !in times {
      times := times + [timeString];
    }
    store.SetItem(SentRemindersKey, Sent(today, Some(times)));
    outcome := Ok(times);
  }

  /**
   * After marking a slot it reads back as sent today, every other slot
   * reads back as before, and a list without repeats stays without repeats.
   */
  lemma MarkThenSent(items: map<string, Item>, today: string, hour: nat, minute: nat, h: nat, m: nat)
    requires SentToday(items, today).Ok?
    ensures var after := items[SentRemindersKey := Sent(today, Some(Marked(SentToday(items, today).value, SlotKey(hour, minute))))];
      && IsSentForTime(after, today, hour, minute) == Ok(true)
      && ((h, m) != (hour, minute) ==> IsSentForTime(after, today, h, m) == IsSentForTime(items, today, h, m))
      && (Distinct(SentToday(items, today).value) ==> Distinct(SentToday(after, today).value))
  {
    var times := SentToday(items, today).value;
    MarkedMeaning(times, SlotKey(hour, minute));
    SlotKeyInjective(h, m, hour, minute);
  }

  // ---------------------------------------------------------------------
  // shouldSendReminder

  /** The slot's time has come: the current hour is later, or the same hour at or after its minute. */
  predicate Passed(s: Slot, hour: nat, minute: nat)
  {
    hour > s.hour || (hour == s.hour && minute >= s.minute)
  }

  /** On a clock whose minutes stay below 60, "passed" is the comparison of minutes since midnight. */
  lemma PassedMeaning(s: Slot, hour: nat, minute: nat)
    requires minute < 60 && s.minute < 60
    ensures Passed(s, hour, minute) <==> hour * 60 + minute >= s.hour * 60 + s.minute
  {
    if hour > s.hour {
      assert hour * 60 >= s.hour * 60 + 60;
    } else if hour < s.hour {
      assert s.hour * 60 >= hour * 60 + 60;
    }
  }

  /**
   * The loop of `shouldSendReminder` over `slots`: the first passed slot not
   * in the sent list.  The list is read only when a passed slot is met, so a
   * record that does not parse fails the call only then.
   */
  function FirstDue(slots: seq<Slot>, sent: Result<seq<string>, string>, hour: nat, minute: nat): (r: Result<Option<Slot>, string>)
    ensures r.Ok? && r.value.Some? ==>
      r.value.value in slots && Passed(r.value.value, hour, minute) && sent.Ok? && KeyOf(r.value.value) !in sent.value
  {
    if |slots| == 0 then Ok(None)
    else if Passed(slots[0], hour, minute) then
      if sent.Err? then Err(sent.error)
      else if KeyOf(slots[0]) !in sent.value then Ok(Some(slots[0]))
      else FirstDue(slots[1..], sent, hour, minute)
    else FirstDue(slots[1..], sent, hour, minute)
  }

  /** `shouldSendReminder`. */
  method ShouldSendReminder(store: Storage<Item>, today: string, hour: nat, minute: nat)
    returns (r: Result<Option<Slot>, string>)
    ensures r == FirstDue(ReminderTimes, SentToday(store.items, today), hour, minute)
  {
    var i := 0;
    while i < |ReminderTimes|
      invariant i <= |ReminderTimes|
      invariant FirstDue(ReminderTimes, SentToday(store.items, today), hour, minute)
             == FirstDue(ReminderTimes[i..], SentToday(store.items, today), hour, minute)
    {
      var reminderTime := ReminderTimes[i];
      assert ReminderTimes[i..][1..] == ReminderTimes[i + 1..];
      var isPastReminderTime := hour > reminderTime.hour || (hour == reminderTime.hour && minute >= reminderTime.minute);
      if isPastReminderTime {
        var sent := IsSentForTime(store.items, today, reminderTime.hour, reminderTime.minute);
        if sent.Err? {
          return Err(sent.error);
        }
        if !sent.value {
          return Ok(Some(reminderTime));
        }
      }
      i := i + 1;
    }
    r := Ok(None);
  }

  /**
   * The slot returned is the first listed slot that has passed and is not
   * yet sent; none is returned exactly when every passed slot is sent; the
   * call fails exactly when the record does not parse and some slot has
   * passed.
   */
  lemma FirstDueMeaning(slots: seq<Slot>, sent: Result<seq<string>, string>, hour: nat, minute: nat)
    ensures var r := FirstDue(slots, sent, hour, minute);
      && (r.Err? <==> sent.Err? && exists s :: s in slots && Passed(s, hour, minute))
      && (r == Ok(None) <==> forall s :: s in slots && Passed(s, hour, minute) ==> sent.Ok? && KeyOf(s) in sent.value)
      && (r.Ok? && r.value.Some? ==>
            exists i :: 0 <= i < |slots| && slots[i] == r.value.value
              && Passed(slots[i], hour, minute) && sent.Ok? && KeyOf(slots[i]) !in sent.value
              && forall j :: 0 <= j < i ==> !Passed(slots[j], hour, minute) || KeyOf(slots[j]) in sent.value)
  {
    FirstDueFails(slots, sent, hour, minute);
    FirstDueNone(slots, sent, hour, minute);
    FirstDueFirst(slots, sent, hour, minute);
  }

  lemma {:induction false} FirstDueFails(slots: seq<Slot>, sent: Result<seq<string>, string>, hour: nat, minute: nat)
    ensures FirstDue(slots, sent, hour, minute).Err? <==> sent.Err? && exists s :: s in slots && Passed(s, hour, minute)
    decreases |slots|
  {
    if |slots| > 0 {
      FirstDueFails(slots[1..], sent, hour, minute);
      assert forall s :: s in slots <==> s == slots[0] || s in slots[1..];
    }
  }

  lemma {:induction false} FirstDueNone(slots: seq<Slot>, sent: Result<seq<string>, string>, hour: nat, minute: nat)
    ensures FirstDue(slots, sent, hour, minute) == Ok(None) <==>
      forall s :: s in slots && Passed(s, hour, minute) ==> sent.Ok? && KeyOf(s) in sent.value
    decreases |slots|
  {
    if |slots| > 0 {
      FirstDueNone(slots[1..], sent, hour, minute);
      assert forall s :: s in slots <==> s == slots[0] || s in slots[1..];
    }
  }

  lemma {:induction false} FirstDueFirst(slots: seq<Slot>, sent: Result<seq<string>, string>, hour: nat, minute: nat)
    ensures var r := FirstDue(slots, sent, hour, minute);
      r.Ok? && r.value.Some? ==>
        exists i :: 0 <= i < |slots| && slots[i] == r.value.value
          && Passed(slots[i], hour, minute) && sent.Ok? && KeyOf(slots[i]) !in sent.value
          && forall j :: 0 <= j < i ==> !Passed(slots[j], hour, minute) || KeyOf(slots[j]) in sent.value
    decreases |slots|
  {
    if |slots| > 0 {
      FirstDueFirst(slots[1..], sent, hour, minute);
      var r := FirstDue(slots, sent, hour, minute);
      var rest := FirstDue(slots[1..], sent, hour, minute);
      if r.Ok? && r.value.Some? && r == rest && r != Ok(Some(slots[0])) {
        var i :| 0 <= i < |slots[1..]| && slots[1..][i] == rest.value.value
          && Passed(slots[1..][i], hour, minute) && sent.Ok? && KeyOf(slots[1..][i]) !in sent.value
          && forall j :: 0 <= j < i ==> !Passed(slots[1..][j], hour, minute) || KeyOf(slots[1..][j]) in sent.value;
        assert slots[i + 1] == slots[1..][i];
        assert forall j :: 1 <= j < i + 1 ==> slots[j] == slots[1..][j - 1];
      }
    }
  }

  /** Once the slot returned is marked as sent, the next check today does not return it again. */
  lemma MarkedNotDueAgain(slots: seq<Slot>, times: seq<string>, hour: nat, minute: nat)
    requires FirstDue(slots, Ok(times), hour, minute).Ok?
    requires FirstDue(slots, Ok(times), hour, minute).value.Some?
    ensures var s := FirstDue(slots, Ok(times), hour, minute).value.value;
      FirstDue(slots, Ok(Marked(times, KeyOf(s))), hour, minute) != Ok(Some(s))
  {
    var s := FirstDue(slots, Ok(times), hour, minute).value.value;
    var after := Marked(times, KeyOf(s));
    MarkedMeaning(times, KeyOf(s));
    FirstDueMeaning(slots, Ok(after), hour, minute);
  }

  // ---------------------------------------------------------------------
  // getTimeUntilNextReminder

  const DayMs: int := 86_400_000

  /** A slot's time of day in milliseconds since midnight. */
  function SlotMs(s: Slot): int
  {
    s.hour * 3_600_000 + s.minute * 60_000
  }

  /** The slot's next time: today, or tomorrow once today's has passed (a day of 24 hours). */
  function NextOccurrence(s: Slot, now: int): int
  {
    if now > SlotMs(s) then SlotMs(s) + DayMs else SlotMs(s)
  }

  /** The loop of `getTimeUntilNextReminder` over `slots`: the earliest next time, the first listed winning ties. */
  function Closest(slots: seq<Slot>, now: int): int
    requires |slots| > 0
  {
    if |slots| == 1 then NextOccurrence(slots[0], now)
    else
      var closest := Closest(slots[..|slots| - 1], now);
      var target := NextOccurrence(slots[|slots| - 1], now);
      if target < closest then target else closest
  }

  /**
   * `getTimeUntilNextReminder`, with `now` the milliseconds since local
   * midnight; the result is never null.
   */
  method GetTimeUntilNextReminder(now: int) returns (r: Option<int>)
    ensures r == Some(Closest(ReminderTimes, now) - now)
  {
    var closestTime: Option<int> := None;
    var i := 0;
    while i < |ReminderTimes|
      invariant i <= |ReminderTimes|
      invariant i == 0 <==> closestTime.None?
      invariant i > 0 ==> closestTime == Some(Closest(ReminderTimes[..i], now))
    {
      var reminderTime := ReminderTimes[i];
      var targetTime := reminderTime.hour * 3_600_000 + reminderTime.minute * 60_000;
      if now > targetTime {
        targetTime := targetTime + DayMs;
      }
      assert ReminderTimes[..i + 1][..i] == ReminderTimes[..i];
      if closestTime.None? || targetTime < closestTime.value {
        closestTime := Some(targetTime);
      }
      i := i + 1;
    }
    assert ReminderTimes[..i] == ReminderTimes;
    r := Some(closestTime.value - now);
  }

  /** The closest time is one of the slots' next times, and no slot comes sooner. */
  lemma {:induction false} ClosestMeaning(slots: seq<Slot>, now: int)
    requires |slots| > 0
    ensures exists i :: 0 <= i < |slots| && Closest(slots, now) == NextOccurrence(slots[i], now)
    ensures forall i :: 0 <= i < |slots| ==> Closest(slots, now) <= NextOccurrence(slots[i], now)
  {
    if |slots| > 1 {
      var init := slots[..|slots| - 1];
      ClosestMeaning(init, now);
      assert forall i :: 0 <= i < |init| ==> init[i] == slots[i];
      var i :| 0 <= i < |init| && Closest(init, now) == NextOccurrence(init[i], now);
      if Closest(slots, now) == Closest(init, now) {
        assert Closest(slots, now) == NextOccurrence(slots[i], now);
      } else {
        assert Closest(slots, now) == NextOccurrence(slots[|slots| - 1], now);
      }
    } else {
      assert Closest(slots, now) == NextOccurrence(slots[0], now);
    }
  }

  /**
   * The wait returned is the time to the soonest reminder: never negative,
   * under a day, no slot comes sooner, and it is zero exactly when `now` is
   * one of the slots.
   */
  lemma TimeUntilMeaning(now: int)
    requires 0 <= now < DayMs
    ensures var r := Closest(ReminderTimes, now) - now;
      && 0 <= r < DayMs
      && (forall s :: s in ReminderTimes ==> r <= NextOccurrence(s, now) - now)
      && (exists s :: s in ReminderTimes && r == NextOccurrence(s, now) - now)
      && (r == 0 <==> exists s :: s in ReminderTimes && SlotMs(s) == now)
  {
    ClosestMeaning(ReminderTimes, now);
    assert forall s :: s in ReminderTimes ==> 0 <= SlotMs(s) < DayMs;
    forall s | s in ReminderTimes && SlotMs(s) == now
      ensures Closest(ReminderTimes, now) == now
    {
      var i :| 0 <= i < |ReminderTimes| && ReminderTimes[i] == s;
    }
  }

  /** At 09:00 exactly the wait is zero; a minute later it is three hours less a minute. */
  lemma TimeUntilExamples()
    ensures Closest(ReminderTimes, 9 * 3_600_000) == 9 * 3_600_000
    ensures Closest(ReminderTimes, 9 * 3_600_000 + 60_000) - (9 * 3_600_000 + 60_000) == 3 * 3_600_000 - 60_000
  {
    assert ReminderTimes[..1] == [Slot(9, 0)];
    assert ReminderTimes[..2] == [Slot(9, 0), Slot(12, 0)];
    assert ReminderTimes[..3] == [Slot(9, 0), Slot(12, 0), Slot(15, 0)];
    assert ReminderTimes[..2][..1] == ReminderTimes[..1];
    assert ReminderTimes[..3][..2] == ReminderTimes[..2];
    assert ReminderTimes[..4][..3] == ReminderTimes[..3];
    assert ReminderTimes[..4] == ReminderTimes;
    var t0, t1 := 9 * 3_600_000, 9 * 3_600_000 + 60_000;
    assert Closest(ReminderTimes[..2], t0) == t0;
    assert Closest(ReminderTimes[..3], t0) == t0;
    assert Closest(ReminderTimes[..2], t1) == 12 * 3_600_000;
    assert Closest(ReminderTimes[..3], t1) == 12 * 3_600_000;
  }

  // ---------------------------------------------------------------------
  // The service worker's check

  /** The record the service worker keeps in its cache. */
  datatype SentData = SentData(date: string, times: seq<string>)

  /** The "sent-reminders" entry of the service worker's "reminder-cache". */
  class ReminderCache {
    var entry: Option<SentData>

    constructor(entry: Option<SentData>)
      ensures this.entry == entry
    {
      this.entry := entry;
    }
  }

  /** The list the check starts from: the cached one if it is today's, else empty. */
  function StartTimes(entry: Option<SentData>, today: string): seq<string>
  {
    if entry.Some? && entry.value.date == today then entry.value.times else []
  }

  /**
   * The slots the loop of `checkAndSendReminders` notifies, in order: each
   * passed slot whose key is neither in the starting list nor added earlier
   * in the same run.
   */
  function Fired(slots: seq<Slot>, start: seq<string>, hour: nat, minute: nat): (r: seq<Slot>)
    ensures |r| <= |slots|
    ensures forall s :: s in r ==> s in slots && Passed(s, hour, minute) && KeyOf(s) !in start
  {
    if |slots| == 0 then []
    else
      var prev := Fired(slots[..|slots| - 1], start, hour, minute);
      assert forall s :: s in slots[..|slots| - 1] ==> s in slots;
      var s := slots[|slots| - 1];
      if Passed(s, hour, minute) && KeyOf(s) !in start + KeysOf(prev) then prev + [s] else prev
  }

  /**
   * `checkAndSendReminders`: the cached record is reset when it is not
   * today's, every passed unsent slot is notified and appended, and the
   * record is written back once.  The result lists the notifications shown.
   */
  method CheckAndSendReminders(cache: ReminderCache, today: string, hour: nat, minute: nat)
    returns (notified: seq<Slot>)
    modifies cache
    ensures var start := StartTimes(old(cache.entry), today);
      && notified == Fired(ReminderTimes, start, hour, minute)
      && cache.entry == Some(SentData(today, start + KeysOf(notified)))
  {
    var sentData := if cache.entry.Some? then cache.entry.value else SentData("", []);
    if sentData.date != today {
      sentData := SentData(today, []);
    }
    notified, sentData := NotifyPassed(ReminderTimes, sentData, hour, minute);
    cache.entry := Some(sentData);
  }

  /**
   * The loop of `checkAndSendReminders` over `slots`: each passed slot whose
   * key is not yet in the record is notified and its key appended.
   */
  method NotifyPassed(slots: seq<Slot>, sentData: SentData, hour: nat, minute: nat)
    returns (notified: seq<Slot>, updated: SentData)
    ensures notified == Fired(slots, sentData.times, hour, minute)
    ensures updated == sentData.(times := sentData.times + KeysOf(notified))
  {
    notified := [];
    var times := sentData.times;
    var i := 0;
    while i < |slots|
      invariant i <= |slots|
      invariant notified == Fired(slots[..i], sentData.times, hour, minute)
      invariant times == sentData.times + KeysOf(notified)
    {
      var reminderTime := slots[i];
      var timeString := KeyOf(reminderTime);
      FiredStep(slots, i, sentData.times, hour, minute);
      var isPastTime := hour > reminderTime.hour || (hour == reminderTime.hour && minute >= reminderTime.minute);
      if isPastTime && timeString !in times {
        KeysOfAppend(notified, reminderTime);
        AppendAssoc(sentData.times, KeysOf(notified), [timeString]);
        notified := notified + [reminderTime];
        times := times + [timeString];
      }
      i := i + 1;
    }
    assert slots[..i] == slots;
    updated := sentData.(times := times);
  }

  lemma FiredStep(slots: seq<Slot>, i: nat, start: seq<string>, hour: nat, minute: nat)
    requires i < |slots|
    ensures var prev := Fired(slots[..i], start, hour, minute);
      Fired(slots[..i + 1], start, hour, minute)
        == if Passed(slots[i], hour, minute) && KeyOf(slots[i]) !in start + KeysOf(prev) then prev + [slots[i]] else prev
  {
    assert slots[..i + 1][..i] == slots[..i];
  }

  lemma KeysOfAppend(slots: seq<Slot>, s: Slot)
    ensures KeysOf(slots + [s]) == KeysOf(slots) + [KeyOf(s)]
  {
    assert (slots + [s])[..|slots|] == slots;
  }

  lemma {:induction false} KeysOfMembers(slots: seq<Slot>)
    ensures forall k :: k in KeysOf(slots) <==> exists s :: s in slots && KeyOf(s) == k
  {
    if |slots| > 0 {
      KeysOfMembers(slots[..|slots| - 1]);
      assert slots == slots[..|slots| - 1] + [slots[|slots| - 1]];
    }
  }

  lemma DistinctAppend<T>(a: seq<T>, x: T)
    requires Distinct(a) && x !in a
    ensures Distinct(a + [x])
  {
  }

  lemma DistinctInit<T>(s: seq<T>)
    requires |s| > 0 && Distinct(s)
    ensures Distinct(s[..|s| - 1]) && s[|s| - 1] !in s[..|s| - 1]
  {
  }

  /** A slot not in the list has a key not among the list's keys. */
  lemma {:induction false} KeyNotListed(slots: seq<Slot>, s: Slot)
    requires s !in slots
    ensures KeyOf(s) !in KeysOf(slots)
  {
    if |slots| > 0 {
      var last := slots[|slots| - 1];
      assert slots[..|slots| - 1] + [last] == slots;
      KeyNotListed(slots[..|slots| - 1], s);
      SlotKeyInjective(s.hour, s.minute, last.hour, last.minute);
    }
  }

  /**
   * When no slot is listed twice, a run notifies exactly the passed slots
   * whose key was not yet in the list.
   */
  lemma {:induction false} FiredMembers(slots: seq<Slot>, start: seq<string>, hour: nat, minute: nat)
    requires Distinct(slots)
    ensures forall s :: s in Fired(slots, start, hour, minute) <==> s in slots && Passed(s, hour, minute) && KeyOf(s) !in start
  {
    if |slots| > 0 {
      var init := slots[..|slots| - 1];
      var last := slots[|slots| - 1];
      DistinctInit(slots);
      FiredMembers(init, start, hour, minute);
      var prev := Fired(init, start, hour, minute);
      assert last !in prev;
      KeyNotListed(prev, last);
      assert KeyOf(last) in start + KeysOf(prev) <==> KeyOf(last) in start;
      SplitLast(slots);
      FiredMembersStep(slots, init, last, prev, Fired(slots, start, hour, minute), start, hour, minute);
    }
  }

  /** The membership statement of `FiredMembers` carries over from a list to the list with one more slot. */
  lemma FiredMembersStep(slots: seq<Slot>, init: seq<Slot>, last: Slot, prev: seq<Slot>, fired: seq<Slot>,
                         start: seq<string>, hour: nat, minute: nat)
    requires slots == init + [last]
    requires forall s :: s in prev <==> s in init && Passed(s, hour, minute) && KeyOf(s) !in start
    requires fired == if Passed(last, hour, minute) && KeyOf(last) !in start then prev + [last] else prev
    ensures forall s :: s in fired <==> s in slots && Passed(s, hour, minute) && KeyOf(s) !in start
  {
    forall s
      ensures s in fired <==> s in slots && Passed(s, hour, minute) && KeyOf(s) !in start
    {
      assert s in slots <==> s in init || s == last;
    }
  }

  /** A list without repeats stays without repeats. */
  lemma {:induction false} FiredDistinct(slots: seq<Slot>, start: seq<string>, hour: nat, minute: nat)
    requires Distinct(start)
    ensures Distinct(start + KeysOf(Fired(slots, start, hour, minute)))
  {
    if |slots| > 0 {
      var init := slots[..|slots| - 1];
      var last := slots[|slots| - 1];
      FiredDistinct(init, start, hour, minute);
      var prev := Fired(init, start, hour, minute);
      if Passed(last, hour, minute) && KeyOf(last) !in start + KeysOf(prev) {
        KeysOfAppend(prev, last);
        AppendAssoc(start, KeysOf(prev), [KeyOf(last)]);
        DistinctAppend(start + KeysOf(prev), KeyOf(last));
      }
    }
  }

  /**
   * A run of the service worker: a stale or missing record restarts the
   * day; afterwards each passed slot is in the list exactly once, the
   * notified slots are exactly the passed slots not yet sent today, and a
   * second run at the same minute notifies nothing and writes the same
   * record.
   */
  lemma CheckMeaning(entry: Option<SentData>, today: string, hour: nat, minute: nat)
    requires entry.Some? && entry.value.date == today ==> Distinct(entry.value.times)
    ensures var start := StartTimes(entry, today);
      var fired := Fired(ReminderTimes, start, hour, minute);
      var after := start + KeysOf(fired);
      && (entry.None? || entry.value.date != today ==> start == [])
      && (forall s :: s in fired <==> s in ReminderTimes && Passed(s, hour, minute) && KeyOf(s) !in start)
      && Distinct(after)
      && (forall s :: s in ReminderTimes && Passed(s, hour, minute) ==> KeyOf(s) in after)
      && (forall k :: k in after <==> k in start || exists s :: s in ReminderTimes && Passed(s, hour, minute) && KeyOf(s) == k)
      && Fired(ReminderTimes, after, hour, minute) == []
  {
    ReminderKeys();
    var start := StartTimes(entry, today);
    FiredMembers(ReminderTimes, start, hour, minute);
    var fired := Fired(ReminderTimes, start, hour, minute);
    FiredDistinct(ReminderTimes, start, hour, minute);
    var after := start + KeysOf(fired);
    KeysOfMembers(fired);
    FiredMembers(ReminderTimes, after, hour, minute);
    FiredNone(ReminderTimes, after, hour, minute);
  }

  /** A run in which every passed slot is already listed notifies nothing. */
  lemma {:induction false} FiredNone(slots: seq<Slot>, start: seq<string>, hour: nat, minute: nat)
    requires forall s :: s in slots && Passed(s, hour, minute) ==> KeyOf(s) in start
    ensures Fired(slots, start, hour, minute) == []
  {
    if |slots| > 0 {
      var init := slots[..|slots| - 1];
      assert forall s :: s in init ==> s in slots;
      FiredNone(init, start, hour, minute);
      assert start + KeysOf([]) == start;
    }
  }
}
