/**
 * The `user_exp_leaderboard` view and the leaderboard query over it.
 *
 * The view is a set of common table expressions over the event and snapshot
 * tables; each becomes a function here, and the view is their join.  Paging
 * itself is done by a paging service that is not part of this model: the
 * query receives the page of view rows it returns.
 */
module Leaderboard {
  import opened Common
  import opened XpLedger

  /** `latest_snapshots`: for each user with a snapshot, the one with the highest `snapshot_seq` (`DISTINCT ON (user_id)`). */
  function LatestSnapshots(ss: seq<Snapshot>): (r: map<UserId, Snapshot>)
    ensures forall u :: u in r <==> exists s :: s in ss && s.userId == u
    ensures forall u :: u in r ==> Some(r[u]) == LatestSnapshot(ss, u)
  {
    map u | u in (set s | s in ss :: s.userId) :: LatestSnapshot(ss, u).value
  }

  /** The boundary of a user's latest snapshot, 0 without one (`COALESCE(ls.last_event_seq, 0)`). */
  function Boundary(ls: map<UserId, Snapshot>, u: UserId): int
  {
    if u in ls then ls[u].lastEventSeq else 0
  }

  /** The users that have an event after their boundary: the groups of `events_since_snapshots`. */
  function UsersWithTail(evs: seq<XpEvent>, ls: map<UserId, Snapshot>): set<UserId>
  {
    set e | e in evs && e.id > Boundary(ls, e.userId) :: e.userId
  }

  /** `events_since_snapshots`: per user with such events, the sum of the user's events after the boundary. */
  function EventsSinceSnapshots(evs: seq<XpEvent>, ls: map<UserId, Snapshot>): map<UserId, Hundredths>
  {
    map u | u in UsersWithTail(evs, ls) :: SumAbove(evs, u, Boundary(ls, u))
  }

  /** `all_users_with_exp`: the users with at least one event. */
  function AllUsersWithExp(evs: seq<XpEvent>): set<UserId>
  {
    set e | e in evs :: e.userId
  }

  /** The view: one row per user with an event, snapshot exp plus tail sum, each `COALESCE`d to 0. */
  function LeaderboardView(evs: seq<XpEvent>, ss: seq<Snapshot>): map<UserId, Hundredths>
  {
    var ls := LatestSnapshots(ss);
    var ess := EventsSinceSnapshots(evs, ls);
    map u | u in AllUsersWithExp(evs) ::
      (if u in ls then ls[u].exp else 0) + (if u in ess then ess[u] else 0)
  }

  /**
   * The view agrees with `GetUserAccumulatedExp` before its cast: exactly the
   * users with events appear, and each total is the latest snapshot's exp
   * plus the user's events strictly after its boundary.
   */
  lemma ViewIsAccumulated(evs: seq<XpEvent>, ss: seq<Snapshot>)
    ensures forall u :: u in LeaderboardView(evs, ss) <==> exists i :: 0 <= i < |evs| && evs[i].userId == u
    ensures forall u :: u in LeaderboardView(evs, ss) ==> LeaderboardView(evs, ss)[u] == AccumulatedExp(evs, ss, u)
  {
    var ls := LatestSnapshots(ss);
    var ess := EventsSinceSnapshots(evs, ls);
    forall u ensures u in LeaderboardView(evs, ss) <==> exists i :: 0 <= i < |evs| && evs[i].userId == u {
      if exists i :: 0 <= i < |evs| && evs[i].userId == u {
        var i :| 0 <= i < |evs| && evs[i].userId == u;
        assert evs[i] in evs;
      }
    }
    forall u | u in LeaderboardView(evs, ss) ensures LeaderboardView(evs, ss)[u] == AccumulatedExp(evs, ss, u) {
      assert Boundary(ls, u) == BaselineOf(ss, u).lastEventSeq;
      if u !in ess {
        forall i | 0 <= i < |evs| && evs[i].userId == u ensures evs[i].id <= Boundary(ls, u) {
          assert evs[i] in evs;
        }
        NothingAbove(evs, u, Boundary(ls, u));
      }
    }
  }

  /** The view's total, rounded as the SQL cast does, is what `GetUserAccumulatedExp` returns. */
  lemma ViewMatchesUserTotal(evs: seq<XpEvent>, ss: seq<Snapshot>, u: UserId)
    requires u in LeaderboardView(evs, ss)
    ensures RoundToInteger(LeaderboardView(evs, ss)[u]) == GetUserAccumulatedExp(evs, ss, u)
  {
    ViewIsAccumulated(evs, ss);
  }

  /** A user whose events all lie at or below the boundary shows the snapshot's exp alone. */
  lemma NoTailShowsSnapshot(evs: seq<XpEvent>, ss: seq<Snapshot>, u: UserId)
    requires u in LeaderboardView(evs, ss)
    requires forall i :: 0 <= i < |evs| && evs[i].userId == u ==> evs[i].id <= BaselineOf(ss, u).lastEventSeq
    ensures LeaderboardView(evs, ss)[u] == BaselineOf(ss, u).exp
  {
    ViewIsAccumulated(evs, ss);
    NothingAbove(evs, u, BaselineOf(ss, u).lastEventSeq);
  }

  // ----- UserExpDomainService.QueryLeaderboard -----

  /** The paging request; `sortBy` names the column, with a leading '-' for descending. */
  datatype PagingQuery = PagingQuery(page: int, rowsPerPage: int, searchText: string, sortBy: string, sortDirection: string)

  /** A row of the paged result: the user's rank and total. */
  datatype UserExp = UserExp(rank: int, exp: Hundredths, userId: UserId)

  datatype PagingResult = PagingResult(
    rows: seq<UserExp>, page: int, rowsPerPage: int, totalRows: int, totalPages: int,
    searchText: string, sortBy: string, sortDirection: string)

  /** Whatever the request asks, the leaderboard sorts by total, descending. */
  function LeaderboardQuery(q: PagingQuery): (r: PagingQuery)
    ensures r.sortBy == "-TotalExp"
    ensures r.page == q.page && r.rowsPerPage == q.rowsPerPage && r.searchText == q.searchText
    ensures r.sortDirection == q.sortDirection
  {
    q.(sortBy := "-TotalExp")
  }

  /** The rank of the row at 0-based `index` on `page`. */
  function RankAt(q: PagingQuery, index: int): int
  {
    (q.page - 1) * q.rowsPerPage + index + 1
  }

  /**
   * `QueryLeaderboard` after paging: each row of the page gets its rank from
   * the page number and its position, and the paging metadata is passed
   * through.
   */
  method QueryLeaderboard(request: PagingQuery, paged: PagingResult) returns (r: PagingResult, used: PagingQuery)
    ensures used == LeaderboardQuery(request)
    ensures |r.rows| == |paged.rows|
    ensures forall i :: 0 <= i < |r.rows| ==> r.rows[i] == paged.rows[i].(rank := RankAt(used, i))
    ensures r.(rows := paged.rows) == paged
  {
    used := LeaderboardQuery(request);
    var rankedItems: seq<UserExp> := [];
    for index := 0 to |paged.rows|
      invariant |rankedItems| == index
      invariant forall i :: 0 <= i < index ==> rankedItems[i] == paged.rows[i].(rank := RankAt(used, i))
    {
      var item := paged.rows[index];
      rankedItems := rankedItems + [item.(rank := (used.page - 1) * used.rowsPerPage + index + 1)];
    }
    r := paged.(rows := rankedItems);
  }

  /** Ranks on a page run on consecutively from the rows of earlier pages. */
  lemma RanksConsecutive(q: PagingQuery, i: int)
    requires q.page >= 1 && q.rowsPerPage >= 0 && i >= 0
    ensures RankAt(q, 0) == (q.page - 1) * q.rowsPerPage + 1
    ensures RankAt(q, i + 1) == RankAt(q, i) + 1
    ensures RankAt(q, i) >= 1
  {
    assert (q.page - 1) * q.rowsPerPage >= 0;
  }

  /**
   * When a page is the slice of the whole ordering that starts after the
   * rows of earlier pages, each ranked row's rank is its position in the
   * whole ordering, counted from 1.
   */
  lemma RankIsPosition(all: seq<UserExp>, q: PagingQuery, rows: seq<UserExp>, ranked: seq<UserExp>)
    requires q.page >= 1 && q.rowsPerPage >= 0
    requires (q.page - 1) * q.rowsPerPage + |rows| <= |all|
    requires rows == all[(q.page - 1) * q.rowsPerPage .. (q.page - 1) * q.rowsPerPage + |rows|]
    requires |ranked| == |rows| && forall i :: 0 <= i < |rows| ==> ranked[i] == rows[i].(rank := RankAt(q, i))
    ensures forall i :: 0 <= i < |ranked| ==>
      1 <= ranked[i].rank <= |all| && all[ranked[i].rank - 1] == ranked[i].(rank := all[ranked[i].rank - 1].rank)
  {
    var off := (q.page - 1) * q.rowsPerPage;
    assert off >= 0;
    forall i | 0 <= i < |ranked|
      ensures 1 <= ranked[i].rank <= |all| && all[ranked[i].rank - 1] == ranked[i].(rank := all[ranked[i].rank - 1].rank)
    {
      assert ranked[i].rank - 1 == off + i;
      assert rows[i] == all[off + i];
    }
  }
}
