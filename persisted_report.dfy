/**
 * The reading-report composable's browser-side drafts.  While a participant
 * writes a reading report, the page reached, the time spent and the insight
 * are kept in `localStorage` under "reading-report-" + the reading resource
 * id, so that an unsent report survives a reload.
 */
module PersistedReport {
  import opened Common
  import opened WebStorage
  import Sorting

  /** `PersistedReadingReportState`; `lastUpdated` is the instant of the last write, in milliseconds. */
  datatype ReportState = ReportState(
    readingResourceId: int,
    slug: string,
    title: string,
    currentPage: int,
    maxPage: int,
    latestPageProgress: int,
    timeSpent: int,
    insight: string,
    lastUpdated: int)

  /**
   * A stored value as the composable reads it back: a report draft, or text
   * that is not one (the signed-in user's name, or text that does not parse).
   */
  datatype Item = Report(state: ReportState) | Text(text: string)

  const StoragePrefix: string := "reading-report-"
  const AuthKey: string := "auth-reading-report-user-full-name"

  /** `getStorageKey`. */
  function StorageKey(readingResourceId: int): string
  {
    StoragePrefix + IntToString(readingResourceId)
  }

  /** Every draft key carries the prefix, and different resources get different keys. */
  lemma StorageKeyMeaning(a: int, b: int)
    ensures StartsWith(StorageKey(a), StoragePrefix)
    ensures StorageKey(a) == StorageKey(b) <==> a == b
  {
    if StorageKey(a) == StorageKey(b) {
      assert StorageKey(a)[|StoragePrefix|..] == IntToString(a);
      assert StorageKey(b)[|StoragePrefix|..] == IntToString(b);
      IntToStringInjective(a, b);
    }
  }

  function LastUpdated(s: ReportState): int
  {
    s.lastUpdated
  }

  /** Every stored draft sits under the key of its own resource, where `saveReportState` writes it. */
  ghost predicate WellKeyed(items: map<string, Item>)
  {
    forall k | k in items && items[k].Report? :: k == StorageKey(items[k].state.readingResourceId)
  }

  /** `getReportState`: the draft stored for the resource, if there is one that parses. */
  function GetReportState(items: map<string, Item>, readingResourceId: int): Option<ReportState>
  {
    var key := StorageKey(readingResourceId);
    if key in items && items[key].Report? then Some(items[key].state) else None
  }

  /** `initReportState` as a value: reading resumes at the latest page reported, with no time and no insight. */
  function FreshReport(readingResourceId: int, slug: string, title: string, maxPage: int, latestPageProgress: int, now: int): ReportState
  {
    ReportState(readingResourceId, slug, title, latestPageProgress, maxPage, latestPageProgress, 0, "", now)
  }

  /** `initReportState`: store a fresh draft for the resource and return it. */
  method InitReportState(store: Storage<Item>, readingResourceId: int, slug: string, title: string, maxPage: int, latestPageProgress: int, now: int)
    returns (state: ReportState)
    requires store.Valid() && WellKeyed(store.items)
    modifies store
    ensures store.Valid() && WellKeyed(store.items)
    ensures state == FreshReport(readingResourceId, slug, title, maxPage, latestPageProgress, now)
    ensures store.items == old(store.items)[StorageKey(readingResourceId) := Report(state)]
  {
    state := ReportState(readingResourceId, slug, title, latestPageProgress, maxPage, latestPageProgress, 0, "", now);
    store.SetItem(StorageKey(state.readingResourceId), Report(state));
  }

  /** A draft is worth resuming when it holds an insight or some reading time. */
  predicate HasProgress(s: ReportState)
  {
    |s.insight| > 0 || s.timeSpent > 0
  }

  /** A fresh draft starts at the latest page, reads back from the store and is not yet listed as unfinished. */
  lemma FreshReportFacts(items: map<string, Item>, readingResourceId: int, slug: string, title: string, maxPage: int, latestPageProgress: int, now: int)
    ensures var s := FreshReport(readingResourceId, slug, title, maxPage, latestPageProgress, now);
      && s.currentPage == latestPageProgress && s.timeSpent == 0 && s.insight == ""
      && GetReportState(items[StorageKey(readingResourceId) := Report(s)], readingResourceId) == Some(s)
      && !HasProgress(s)
  {
  }

  /** The fields `updateReportState` may change; an absent field is left alone. */
  datatype ReportUpdates = ReportUpdates(currentPage: Option<int>, timeSpent: Option<int>, insight: Option<string>)

  /** `updateReportState` on a stored draft. */
  function Updated(s: ReportState, updates: ReportUpdates, now: int): ReportState
  {
    var s1 := if updates.currentPage.Some? then s.(currentPage := updates.currentPage.value) else s;
    var s2 := if updates.timeSpent.Some? then s1.(timeSpent := updates.timeSpent.value) else s1;
    var s3 := if updates.insight.Some? then s2.(insight := updates.insight.value) else s2;
    s3.(lastUpdated := now)
  }

  /** `updateReportState`: nothing happens when no draft is stored for the resource. */
  method UpdateReportState(store: Storage<Item>, readingResourceId: int, updates: ReportUpdates, now: int)
    requires store.Valid() && WellKeyed(store.items)
    modifies store
    ensures store.Valid() && WellKeyed(store.items)
    ensures GetReportState(old(store.items), readingResourceId).None? ==> store.items == old(store.items) && store.keys == old(store.keys)
    ensures GetReportState(old(store.items), readingResourceId).Some? ==>
      store.items == old(store.items)[StorageKey(readingResourceId) := Report(Updated(GetReportState(old(store.items), readingResourceId).value, updates, now))]
  {
    var found := GetReportState(store.items, readingResourceId);
    if found.None? {
      return;
    }
    var state := found.value;
    if updates.currentPage.Some? {
      state := state.(currentPage := updates.currentPage.value);
    }
    if updates.timeSpent.Some? {
      state := state.(timeSpent := updates.timeSpent.value);
    }
    if updates.insight.Some? {
      state := state.(insight := updates.insight.value);
    }
    state := state.(lastUpdated := now);
    store.SetItem(StorageKey(state.readingResourceId), Report(state));
  }

  /**
   * An update sets each supplied field to its value, keeps each absent one,
   * stamps the time and touches nothing else; applying it again changes
   * nothing more.
   */
  lemma UpdateMeaning(s: ReportState, updates: ReportUpdates, now: int)
    ensures var r := Updated(s, updates, now);
      && r.currentPage == (if updates.currentPage.Some? then updates.currentPage.value else s.currentPage)
      && r.timeSpent == (if updates.timeSpent.Some? then updates.timeSpent.value else s.timeSpent)
      && r.insight == (if updates.insight.Some? then updates.insight.value else s.insight)
      && r.lastUpdated == now
      && r.readingResourceId == s.readingResourceId && r.slug == s.slug && r.title == s.title
      && r.maxPage == s.maxPage && r.latestPageProgress == s.latestPageProgress
      && Updated(r, updates, now) == r
  {
  }

  /** The drafts with progress under the report keys of `keys`, in enumeration order. */
  function WithProgress(items: map<string, Item>, keys: seq<string>): seq<ReportState>
  {
    if |keys| == 0 then []
    else
      var key := keys[|keys| - 1];
      WithProgress(items, keys[..|keys| - 1])
        + (if StartsWith(key, StoragePrefix) && key in items && items[key].Report? && HasProgress(items[key].state)
           then [items[key].state] else [])
  }

  lemma {:induction false} WithProgressMembers(items: map<string, Item>, keys: seq<string>)
    ensures forall s :: s in WithProgress(items, keys) <==>
      exists k :: k in keys && StartsWith(k, StoragePrefix) && k in items && items[k] == Report(s) && HasProgress(s)
  {
    if |keys| > 0 {
      WithProgressMembers(items, keys[..|keys| - 1]);
      assert keys == keys[..|keys| - 1] + [keys[|keys| - 1]];
    }
  }

  /** `getUnfinishedReports`: the drafts with progress, the most recently updated first. */
  method GetUnfinishedReports(store: Storage<Item>) returns (unfinished: seq<ReportState>)
    ensures unfinished == Sorting.SortDesc(WithProgress(store.items, store.keys), LastUpdated)
  {
    var found := [];
    var i := 0;
    while i < |store.keys|
      invariant i <= |store.keys|
      invariant found == WithProgress(store.items, store.keys[..i])
    {
      assert store.keys[..i + 1][..i] == store.keys[..i];
      var key := store.keys[i];
      if StartsWith(key, StoragePrefix) && key in store.items {
        var stored := store.items[key];
        if stored.Report? && (|stored.state.insight| > 0 || stored.state.timeSpent > 0) {
          found := found + [stored.state];
        }
      }
      i := i + 1;
    }
    assert store.keys[..i] == store.keys;
    unfinished := Sorting.SortDesc(found, LastUpdated);
  }

  /**
   * The list `getUnfinishedReports` returns holds exactly the stored drafts
   * with an insight or reading time, as often as they are stored, newest
   * first.
   */
  lemma UnfinishedReportsMeaning(items: map<string, Item>, keys: seq<string>)
    ensures var r := Sorting.SortDesc(WithProgress(items, keys), LastUpdated);
      && Sorting.SortedDesc(r, LastUpdated)
      && multiset(r) == multiset(WithProgress(items, keys))
      && forall s :: s in r <==>
           exists k :: k in keys && StartsWith(k, StoragePrefix) && k in items && items[k] == Report(s) && HasProgress(s)
  {
    var u := WithProgress(items, keys);
    var r := Sorting.SortDesc(u, LastUpdated);
    WithProgressMembers(items, keys);
    forall s
      ensures s in r <==> s in u
    {
      assert s in r <==> s in multiset(r);
      assert s in u <==> s in multiset(u);
    }
  }

  /** `clearReportState`. */
  method ClearReportState(store: Storage<Item>, readingResourceId: int)
    requires store.Valid() && WellKeyed(store.items)
    modifies store
    ensures store.Valid() && WellKeyed(store.items)
    ensures store.items == old(store.items) - {StorageKey(readingResourceId)}
    ensures GetReportState(store.items, readingResourceId).None?
  {
    store.RemoveItem(StorageKey(readingResourceId));
  }

  /** `clearAllReports`: every report key goes, every other key stays. */
  method ClearAllReports(store: Storage<Item>)
    requires store.Valid() && WellKeyed(store.items)
    modifies store
    ensures store.Valid() && WellKeyed(store.items)
    ensures store.items == map k | k in old(store.items) && !StartsWith(k, StoragePrefix) :: old(store.items)[k]
    ensures store.keys == Unprefixed(old(store.keys), StoragePrefix)
  {
    RemovePrefixed(store, StoragePrefix);
  }

  /** After `clearAllReports` no draft can be read back, for any resource. */
  lemma ClearedHasNoDrafts(items: map<string, Item>, readingResourceId: int)
    ensures GetReportState(map k | k in items && !StartsWith(k, StoragePrefix) :: items[k], readingResourceId).None?
  {
    StorageKeyMeaning(readingResourceId, readingResourceId);
  }


  /**
   * `init`, with the report keys of a previous user removed after they are
   * all collected (the loop as written is `WebStorage.RemovePrefixedAsWritten`).
   */
  method Init(store: Storage<Item>, fullname: string)
    requires store.Valid() && WellKeyed(store.items)
    modifies store
    ensures store.Valid() && WellKeyed(store.items)
    ensures store.items == AfterSignIn(old(store.items), AuthKey, StoragePrefix, fullname, Text(fullname))
  {
    SignInSteps(store.items, fullname);
    if fullname != "" && store.GetItem(AuthKey) != Some(Text(fullname)) {
      RemovePrefixed(store, StoragePrefix);
      store.SetItem(AuthKey, Text(fullname));
    }
    if fullname != "" {
      store.SetItem(AuthKey, Text(fullname));
    }
  }

  /** `init` as written: the previous user's report keys are removed while `localStorage.key(i)` is walked. */
  method InitAsWritten(store: Storage<Item>, fullname: string)
    requires store.Valid() && WellKeyed(store.items)
    modifies store
    ensures store.Valid() && WellKeyed(store.items)
    ensures store.items == AfterSignInAsWritten(old(store.items), old(store.keys), AuthKey, StoragePrefix, fullname, Text(fullname))
  {
    if fullname != "" && store.GetItem(AuthKey) != Some(Text(fullname)) {
      RemovePrefixedAsWritten(store, StoragePrefix);
      store.SetItem(AuthKey, Text(fullname));
    }
    if fullname != "" {
      store.SetItem(AuthKey, Text(fullname));
    }
  }

  /** Two report keys in a row and a new user: the second key survives `init` as written. */
  lemma SignInAsWrittenKeepsKey()
    ensures "reading-report-2" in AfterSignInAsWritten(map["reading-report-1" := Text("a"), "reading-report-2" := Text("b")], ["reading-report-1", "reading-report-2"], AuthKey, StoragePrefix, "new user", Text("new user"))
    ensures StartsWith("reading-report-2", StoragePrefix)
  {
    var keys := ["reading-report-1", "reading-report-2"];
    assert StartsWith(keys[0], StoragePrefix);
    assert keys[..0] + keys[1..] == ["reading-report-2"];
    assert AfterIndexedRemoval(keys, StoragePrefix, 0) == ["reading-report-2"];
  }


  /** The map `init` builds on each path, and the keying it keeps. */
  lemma SignInSteps(items: map<string, Item>, fullname: string)
    requires WellKeyed(items)
    ensures fullname != "" && !(AuthKey in items && items[AuthKey] == Text(fullname)) ==>
      AfterSignIn(items, AuthKey, StoragePrefix, fullname, Text(fullname)) ==
        (map k | k in items && !StartsWith(k, StoragePrefix) :: items[k])[AuthKey := Text(fullname)][AuthKey := Text(fullname)]
    ensures fullname != "" && AuthKey in items && items[AuthKey] == Text(fullname) ==>
      AfterSignIn(items, AuthKey, StoragePrefix, fullname, Text(fullname)) == items[AuthKey := Text(fullname)]
    ensures WellKeyed(AfterSignIn(items, AuthKey, StoragePrefix, fullname, Text(fullname)))
  {
  }

  /**
   * Signing in as a different user leaves no draft and records the new
   * name; every key outside "reading-report-" other than the auth key keeps
   * its value.  Signing in as the recorded user changes nothing.
   */
  lemma SignInMeaning(items: map<string, Item>, fullname: string, readingResourceId: int)
    requires fullname != ""
    ensures var after := AfterSignIn(items, AuthKey, StoragePrefix, fullname, Text(fullname));
      && AuthKey in after && after[AuthKey] == Text(fullname)
      && (forall k | k in items && !StartsWith(k, StoragePrefix) && k != AuthKey :: k in after && after[k] == items[k])
      && (forall k | k in after && k != AuthKey :: k in items)
      && (!(AuthKey in items && items[AuthKey] == Text(fullname)) ==> GetReportState(after, readingResourceId).None?)
      && (AuthKey in items && items[AuthKey] == Text(fullname) ==> after == items)
  {
    assert !StartsWith(AuthKey, StoragePrefix) by {
      assert AuthKey[0] != StoragePrefix[0];
    }
    StorageKeyMeaning(readingResourceId, readingResourceId);
  }
}
