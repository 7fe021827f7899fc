/**
 * The upload of the members of many groups at once
 * (`UploadGroupMembersWithGroupNameEndpoint`): a sheet with a "GroupName"
 * and a "NIM" column lists students by group; each named group is found by
 * its exact name or created, its old members are removed, students listed
 * for it who belong to a group the upload does not name are moved out of
 * it, and every registered NIM becomes a membership of its group.
 *
 * The endpoint saves twice: once after creating the groups and removing
 * the old members, once after adding the new ones.  The second save is
 * refused by the unique index on the member's user id when one student is
 * listed under two groups, and the first save is then already committed.
 */
module GroupNameUpload {
  import opened Common
  import opened Excel
  import opened GroupData
  import Groups

  // ---------------------------------------------------------------------
  // Reading the sheet (`ParseTemplateA`)
  // ---------------------------------------------------------------------

  /**
   * The first worksheet: the used cells of its first row, the number of
   * its last used row (absent when nothing is used), and the text of its
   * cells by (row, column).
   */
  datatype Grid = Grid(header: seq<HeaderCell>, lastRowUsed: Option<int>, cells: map<(int, int), string>)

  /** The text of a cell; an unused cell reads as "". */
  function CellText(grid: Grid, row: int, column: int): string
  {
    if (row, column) in grid.cells then grid.cells[(row, column)] else ""
  }

  /** `LastRowUsed()?.RowNumber() ?? 1`. */
  function LastRow(grid: Grid): int
  {
    if grid.lastRowUsed.Some? then grid.lastRowUsed.value else 1
  }

  /** A data row: a group name and a NIM, both trimmed and not empty. */
  datatype NamedRow = NamedRow(groupName: string, nim: string)

  /** Sheet row `r`: both cells trimmed; the row is skipped when either is empty. */
  function ReadRow(grid: Grid, groupNameColumn: int, nimColumn: int, r: int): seq<NamedRow>
  {
    var groupName := Trim(CellText(grid, r, groupNameColumn));
    var nim := Trim(CellText(grid, r, nimColumn));
    if groupName == "" || nim == "" then [] else [NamedRow(groupName, nim)]
  }

  /** The rows read from sheet rows 2 to `last`, in order. */
  function ReadRows(grid: Grid, groupNameColumn: int, nimColumn: int, last: int): seq<NamedRow>
    decreases last
  {
    if last < 2 then []
    else ReadRows(grid, groupNameColumn, nimColumn, last - 1) + ReadRow(grid, groupNameColumn, nimColumn, last)
  }

  /** The header keys of "GroupName" and "NIM": headers are matched ignoring case. */
  const GroupNameKey: string := "GROUPNAME"
  const NimKey: string := "NIM"

  lemma HeaderKeysOfNames()
    ensures HeaderKey("GroupName") == GroupNameKey && HeaderKey("NIM") == NimKey
  {
  }

  /**
   * `ParseTemplateA`: absent when the workbook cannot be read (`grid` is
   * absent) or its first row lacks a "GroupName" or a "NIM" header.  The
   * header dictionary is keyed by trimmed text ignoring case, the last cell
   * winning, as `HeaderIndex` is; it also holds blank texts, but only the
   * two names are looked up.
   */
  function ParseTemplate(grid: Option<Grid>): Option<seq<NamedRow>>
  {
    if grid.None? then None
    else
      var headers := HeaderIndex(grid.value.header);
      if GroupNameKey !in headers || NimKey !in headers then None
      else Some(ReadRows(grid.value, headers[GroupNameKey], headers[NimKey], LastRow(grid.value)))
  }

  /**
   * Every row read is trimmed and not empty and comes from a sheet row
   * between 2 and `last`; every such sheet row with both cells filled is
   * read.
   */
  lemma {:induction false} ReadRowsFacts(grid: Grid, groupNameColumn: int, nimColumn: int, last: int)
    ensures forall row :: row in ReadRows(grid, groupNameColumn, nimColumn, last) ==>
      row.groupName != "" && row.nim != "" && Trim(row.groupName) == row.groupName && Trim(row.nim) == row.nim
    ensures forall row :: row in ReadRows(grid, groupNameColumn, nimColumn, last) ==>
      exists r :: 2 <= r <= last && ReadRow(grid, groupNameColumn, nimColumn, r) == [row]
    ensures forall r :: 2 <= r <= last ==>
      forall row :: row in ReadRow(grid, groupNameColumn, nimColumn, r) ==> row in ReadRows(grid, groupNameColumn, nimColumn, last)
    decreases last
  {
    if last >= 2 {
      ReadRowsFacts(grid, groupNameColumn, nimColumn, last - 1);
      TrimIdempotent(CellText(grid, last, groupNameColumn));
      TrimIdempotent(CellText(grid, last, nimColumn));
    }
  }

  /** The parse as the source writes it, a loop over the sheet rows. */
  method ParseTemplateA(grid: Option<Grid>) returns (rows: Option<seq<NamedRow>>)
    ensures rows == ParseTemplate(grid)
  {
    if grid.None? {
      return None;
    }
    var ws := grid.value;
    var headers := HeaderIndex(ws.header);
    if GroupNameKey !in headers || NimKey !in headers {
      return None;
    }
    var groupNameColumn, nimColumn := headers[GroupNameKey], headers[NimKey];
    var read: seq<NamedRow> := [];
    var lastRow := LastRow(ws);
    var r := 2;
    while r <= lastRow
      invariant 2 <= r && (r <= lastRow + 1 || r == 2)
      invariant read == ReadRows(ws, groupNameColumn, nimColumn, r - 1)
    {
      var groupName := Trim(CellText(ws, r, groupNameColumn));
      var nim := Trim(CellText(ws, r, nimColumn));
      if groupName != "" && nim != "" {
        read := read + [NamedRow(groupName, nim)];
      }
      r := r + 1;
    }
    return Some(read);
  }

  // ---------------------------------------------------------------------
  // Grouping the rows
  // ---------------------------------------------------------------------

  /** One group of the upload: its name as first written and its NIMs, each once, in order. */
  datatype GroupEntry = GroupEntry(name: string, nims: seq<string>)

  /** The position of the entry named `name`, ignoring case. */
  function EntryIndex(entries: seq<GroupEntry>, name: string): (r: Option<nat>)
    ensures r.Some? ==> r.value < |entries| && EqualsIgnoreCase(entries[r.value].name, name)
    ensures r.None? ==> forall k :: 0 <= k < |entries| ==> !EqualsIgnoreCase(entries[k].name, name)
  {
    if entries == [] then None
    else if EqualsIgnoreCase(entries[0].name, name) then Some(0)
    else
      match EntryIndex(entries[1..], name)
      case None => None
      case Some(k) => Some(k + 1)
  }

  /** The entry after one more NIM: added unless already listed. */
  function WithNim(entry: GroupEntry, nim: string): GroupEntry
  {
    entry.(nims := if nim in entry.nims then entry.nims else entry.nims + [nim])
  }

  /**
   * `GroupBy(GroupName, OrdinalIgnoreCase)` then `Distinct()` on each
   * group's NIMs: groups in order of first appearance, NIMs in order of
   * first appearance within the group.  The rows come trimmed from the
   * parser, so the source's second `Trim()` changes nothing.
   */
  function Grouped(rows: seq<NamedRow>): seq<GroupEntry>
  {
    if rows == [] then []
    else
      var entries := Grouped(rows[..|rows| - 1]);
      var row := rows[|rows| - 1];
      match EntryIndex(entries, row.groupName)
      case None => entries + [GroupEntry(row.groupName, [row.nim])]
      case Some(k) => entries[k := WithNim(entries[k], row.nim)]
  }

  /** No two entries have names equal ignoring case. */
  predicate DistinctNames(entries: seq<GroupEntry>)
  {
    forall i, j :: 0 <= i < j < |entries| ==> !EqualsIgnoreCase(entries[i].name, entries[j].name)
  }

  /** No entry lists a NIM twice. */
  predicate DistinctWithin(entries: seq<GroupEntry>)
  {
    forall k, i, j :: 0 <= k < |entries| && 0 <= i < j < |entries[k].nims| ==> entries[k].nims[i] != entries[k].nims[j]
  }

  /** The grouping names each group once and lists each of its NIMs once. */
  lemma {:induction false} GroupedDistinct(rows: seq<NamedRow>)
    ensures DistinctNames(Grouped(rows)) && DistinctWithin(Grouped(rows))
  {
    if rows != [] {
      var init := rows[..|rows| - 1];
      GroupedDistinct(init);
    }
  }

  /** Every row's NIM is listed under the entry whose name equals the row's group name ignoring case. */
  lemma {:induction false} GroupedPlacesEveryRow(rows: seq<NamedRow>)
    ensures forall row :: row in rows ==> Placed(Grouped(rows), row)
  {
    if rows != [] {
      var init := rows[..|rows| - 1];
      var last := rows[|rows| - 1];
      GroupedPlacesEveryRow(init);
      assert rows == init + [last];
      var entries := Grouped(init);
      var r := Grouped(rows);
      forall row | row in init
        ensures Placed(r, row)
      {
        var k :| 0 <= k < |entries| && EqualsIgnoreCase(entries[k].name, row.groupName) && row.nim in entries[k].nims;
        assert EqualsIgnoreCase(r[k].name, row.groupName) && row.nim in r[k].nims;
      }
      var idx := EntryIndex(entries, last.groupName);
      var k := if idx.None? then |entries| else idx.value;
      assert EqualsIgnoreCase(r[k].name, last.groupName) && last.nim in r[k].nims;
    }
  }

  /** The row's NIM is listed under an entry named as the row's group, ignoring case. */
  predicate Placed(entries: seq<GroupEntry>, row: NamedRow)
  {
    exists k :: 0 <= k < |entries| && EqualsIgnoreCase(entries[k].name, row.groupName) && row.nim in entries[k].nims
  }

  /** Every listed NIM comes from a row whose group name equals the entry's name ignoring case. */
  lemma {:induction false} GroupedFromRows(rows: seq<NamedRow>)
    ensures forall k, n :: 0 <= k < |Grouped(rows)| && n in Grouped(rows)[k].nims ==>
      exists row :: row in rows && row.nim == n && EqualsIgnoreCase(row.groupName, Grouped(rows)[k].name)
  {
    if rows != [] {
      var init := rows[..|rows| - 1];
      GroupedFromRows(init);
      var entries := Grouped(init);
      var r := Grouped(rows);
      forall k, n | 0 <= k < |r| && n in r[k].nims
        ensures exists row :: row in rows && row.nim == n && EqualsIgnoreCase(row.groupName, r[k].name)
      {
        if k < |entries| && n in entries[k].nims {
          var row :| row in init && row.nim == n && EqualsIgnoreCase(row.groupName, entries[k].name);
          assert r[k].name == entries[k].name && row in rows;
        } else {
          assert rows[|rows| - 1].nim == n && EqualsIgnoreCase(rows[|rows| - 1].groupName, r[k].name);
        }
      }
    }
  }

  /** Some rows make some entry. */
  lemma GroupedNotEmpty(rows: seq<NamedRow>)
    requires rows != []
    ensures Grouped(rows) != []
  {
  }

  // ---------------------------------------------------------------------
  // Phase 1: finding or creating the groups, removing their old members
  // ---------------------------------------------------------------------

  /** The first group named exactly `name`: the database compares names exactly. */
  function ExactGroup(groups: seq<GroupRow>, name: string): (r: Option<GroupRow>)
    ensures r.Some? ==> r.value in groups && r.value.name == name
    ensures r.None? ==> forall k :: 0 <= k < |groups| ==> groups[k].name != name
  {
    if groups == [] then None
    else if groups[0].name == name then Some(groups[0])
    else ExactGroup(groups[1..], name)
  }

  /**
   * Two stored groups carry the exact name of one entry: loading the named
   * groups into a dictionary keyed by name then throws.
   */
  predicate SharedName(groups: seq<GroupRow>, entries: seq<GroupEntry>)
  {
    exists k, i, j :: 0 <= k < |entries| && 0 <= i < j < |groups| && groups[i].name == entries[k].name && groups[j].name == entries[k].name
  }

  /** The id of each entry's group: the stored group of that exact name, or the next new id. */
  function EntryIds(groups: seq<GroupRow>, entries: seq<GroupEntry>, next: int): (ids: seq<int>)
    ensures |ids| == |entries|
  {
    if entries == [] then []
    else
      match ExactGroup(groups, entries[0].name)
      case Some(g) => [g.id] + EntryIds(groups, entries[1..], next)
      case None => [next] + EntryIds(groups, entries[1..], next + 1)
  }

  /** The groups created for the entries no stored group is named after, with consecutive new ids. */
  function Created(groups: seq<GroupRow>, entries: seq<GroupEntry>, next: int): seq<GroupRow>
  {
    if entries == [] then []
    else
      match ExactGroup(groups, entries[0].name)
      case Some(_) => Created(groups, entries[1..], next)
      case None => [GroupRow(next, entries[0].name)] + Created(groups, entries[1..], next + 1)
  }

  /**
   * An entry named like a stored group keeps that group's id; any other
   * entry gets a group created under its name; created ids are new.
   */
  lemma {:induction false} EntryIdsFacts(groups: seq<GroupRow>, entries: seq<GroupEntry>, next: int)
    ensures forall k :: 0 <= k < |entries| && ExactGroup(groups, entries[k].name).Some? ==>
      EntryIds(groups, entries, next)[k] == ExactGroup(groups, entries[k].name).value.id
    ensures forall k :: 0 <= k < |entries| && ExactGroup(groups, entries[k].name).None? ==>
      GroupRow(EntryIds(groups, entries, next)[k], entries[k].name) in Created(groups, entries, next)
    ensures forall c :: c in Created(groups, entries, next) ==> next <= c.id < next + |Created(groups, entries, next)|
  {
    if entries != [] {
      var step := if ExactGroup(groups, entries[0].name).Some? then 0 else 1;
      EntryIdsFacts(groups, entries[1..], next + step);
      var ids, rest := EntryIds(groups, entries, next), EntryIds(groups, entries[1..], next + step);
      forall k | 1 <= k < |entries|
        ensures ids[k] == rest[k - 1] && entries[k] == entries[1..][k - 1]
      {
      }
    }
  }

  /** The ids of the stored groups the upload names: their members are removed. */
  function AffectedIds(groups: seq<GroupRow>, entries: seq<GroupEntry>): set<int>
  {
    set k | 0 <= k < |entries| && ExactGroup(groups, entries[k].name).Some? :: ExactGroup(groups, entries[k].name).value.id
  }

  /** The groups after the first save. */
  function Phase1Groups(groups: seq<GroupRow>, entries: seq<GroupEntry>, next: int): seq<GroupRow>
  {
    groups + Created(groups, entries, next)
  }

  /** The members after the first save. */
  function Phase1Members(groups: seq<GroupRow>, members: Members, entries: seq<GroupEntry>): Members
  {
    WithoutGroups(members, AffectedIds(groups, entries))
  }

  /** One entry further in the loop of phase 1. */
  lemma Phase1Step(groups: seq<GroupRow>, entries: seq<GroupEntry>, i: nat, next: int)
    requires i < |entries|
    ensures var found := ExactGroup(groups, entries[i].name);
      && EntryIds(groups, entries[i..], next) ==
         (if found.Some? then [found.value.id] + EntryIds(groups, entries[i + 1..], next) else [next] + EntryIds(groups, entries[i + 1..], next + 1))
      && Created(groups, entries[i..], next) ==
         (if found.Some? then Created(groups, entries[i + 1..], next) else [GroupRow(next, entries[i].name)] + Created(groups, entries[i + 1..], next + 1))
  {
    assert entries[i..][1..] == entries[i + 1..];
  }

  /**
   * The loop of phase 1: each entry's group is looked up among the stored
   * groups, or a group is created for it with the next id.
   */
  method FindOrCreate(groups: seq<GroupRow>, entries: seq<GroupEntry>, next0: int)
    returns (ids: seq<int>, created: seq<GroupRow>, next: int)
    ensures ids == EntryIds(groups, entries, next0) && created == Created(groups, entries, next0)
    ensures next == next0 + |created|
  {
    ids, created, next := [], [], next0;
    var i := 0;
    while i < |entries|
      invariant 0 <= i <= |entries|
      invariant ids + EntryIds(groups, entries[i..], next) == EntryIds(groups, entries, next0)
      invariant created + Created(groups, entries[i..], next) == Created(groups, entries, next0)
      invariant next - next0 == |created|
    {
      Phase1Step(groups, entries, i, next);
      var existing := ExactGroup(groups, entries[i].name);
      if existing.Some? {
        AppendAssoc(ids, [existing.value.id], EntryIds(groups, entries[i + 1..], next));
        ids := ids + [existing.value.id];
      } else {
        var g := GroupRow(next, entries[i].name);
        AppendAssoc(ids, [g.id], EntryIds(groups, entries[i + 1..], next + 1));
        AppendAssoc(created, [g], Created(groups, entries[i + 1..], next + 1));
        created := created + [g];
        ids := ids + [g.id];
        next := next + 1;
      }
      i := i + 1;
    }
    assert entries[i..] == [];
  }

  /**
   * Phase 1 up to its save: the groups found or created, and the members
   * of the stored ones removed.
   */
  method Phase1(store: Groups.GroupStore, entries: seq<GroupEntry>) returns (ids: seq<int>)
    requires store.Valid()
    modifies store
    ensures store.Valid()
    ensures ids == EntryIds(old(store.groups), entries, old(store.nextGroupId))
    ensures store.groups == Phase1Groups(old(store.groups), entries, old(store.nextGroupId))
    ensures store.nextGroupId == old(store.nextGroupId) + |Created(old(store.groups), entries, old(store.nextGroupId))|
    ensures store.members == Phase1Members(old(store.groups), old(store.members), entries)
  {
    var groups0 := store.groups;
    var created, next;
    ids, created, next := FindOrCreate(groups0, entries, store.nextGroupId);
    EntryIdsInRange(groups0, entries, store.nextGroupId);
    store.groups := groups0 + created;
    store.nextGroupId := next;
    store.members := WithoutGroups(store.members, AffectedIds(groups0, entries));
  }

  // ---------------------------------------------------------------------
  // Phase 2: moving students out of other groups, adding the members
  // ---------------------------------------------------------------------

  /** The students the upload's NIMs name. */
  function FoundUsers(rows: seq<NamedRow>, users: map<string, int>): set<int>
  {
    set row | row in rows && row.nim in users :: users[row.nim]
  }

  /** The members without the found students who belong to a group the upload does not name. */
  function Kept(members: Members, found: set<int>, ids: seq<int>): (r: Members)
    ensures forall u :: u in r <==> u in members && !(u in found && members[u] !in ids)
    ensures forall u :: u in r ==> r[u] == members[u]
  {
    map u | u in members && !(u in found && members[u] !in ids) :: members[u]
  }

  /** The name of the group with a given id, "" when there is none. */
  function GroupNameOf(groups: seq<GroupRow>, id: int): string
  {
    match Groups.FindGroup(groups, id)
    case Some(g) => g.name
    case None => ""
  }

  /** `$"{nim} moved from '{group}'"`. */
  function MoveNote(nim: string, groupName: string): string
  {
    nim + " moved from '" + groupName + "'"
  }

  /**
   * One note per found student who belongs to a group the upload does not
   * name.  The database returns those memberships in no defined order, so
   * the notes are a set.
   */
  function MovedSummary(groups: seq<GroupRow>, members: Members, rows: seq<NamedRow>, users: map<string, int>, ids: seq<int>): set<string>
  {
    set row | row in rows && row.nim in users && users[row.nim] in members && members[users[row.nim]] !in ids ::
      MoveNote(row.nim, GroupNameOf(groups, members[users[row.nim]]))
  }

  /** The students added to each entry's group, entry after entry. */
  function AllMatched(entries: seq<GroupEntry>, users: map<string, int>): seq<int>
  {
    if entries == [] then []
    else AllMatched(entries[..|entries| - 1], users) + Groups.Matched(entries[|entries| - 1].nims, users)
  }

  /** The NIMs of no registered student, entry after entry. */
  function AllUnmatched(entries: seq<GroupEntry>, users: map<string, int>): seq<string>
  {
    if entries == [] then []
    else AllUnmatched(entries[..|entries| - 1], users) + Groups.Unmatched(entries[|entries| - 1].nims, users)
  }

  /** The number of NIMs the entries list. */
  function TotalNims(entries: seq<GroupEntry>): nat
  {
    if entries == [] then 0 else TotalNims(entries[..|entries| - 1]) + |entries[|entries| - 1].nims|
  }

  /** The members after adding each entry's students to its group, entry after entry. */
  function Imported(members: Members, entries: seq<GroupEntry>, ids: seq<int>, users: map<string, int>): Members
    requires |ids| == |entries|
  {
    if entries == [] then members
    else
      Groups.WithMembers(Imported(members, entries[..|entries| - 1], ids[..|ids| - 1], users),
                         Groups.Matched(entries[|entries| - 1].nims, users), ids[|ids| - 1])
  }

  /** No student is added twice. */
  predicate NoRepeats(s: seq<int>)
  {
    forall i, j :: 0 <= i < j < |s| ==> s[i] != s[j]
  }

  /** Each listed NIM is imported or reported unmatched. */
  lemma {:induction false} TotalsAccount(entries: seq<GroupEntry>, users: map<string, int>)
    ensures |AllMatched(entries, users)| + |AllUnmatched(entries, users)| == TotalNims(entries)
  {
    if entries != [] {
      TotalsAccount(entries[..|entries| - 1], users);
      Groups.MatchedFacts(entries[|entries| - 1].nims, users);
    }
  }

  /** Every entry's students are among all the students added. */
  lemma {:induction false} AllMatchedHas(entries: seq<GroupEntry>, users: map<string, int>)
    ensures forall k, u :: 0 <= k < |entries| && u in Groups.Matched(entries[k].nims, users) ==> u in AllMatched(entries, users)
  {
    if entries != [] {
      var init := entries[..|entries| - 1];
      AllMatchedHas(init, users);
      forall k | 0 <= k < |init| ensures entries[k] == init[k] { }
    }
  }

  /** A sequence without repeats is made of two without repeats that share nothing. */
  lemma NoRepeatsConcat(a: seq<int>, b: seq<int>)
    requires NoRepeats(a + b)
    ensures NoRepeats(a) && forall u :: u in a ==> u !in b
  {
    forall i, j | 0 <= i < j < |a| ensures a[i] != a[j] {
      assert (a + b)[i] == a[i] && (a + b)[j] == a[j];
    }
    forall i, j | 0 <= i < |a| && 0 <= j < |b| ensures a[i] != b[j] {
      assert (a + b)[i] == a[i] && (a + b)[|a| + j] == b[j];
    }
    forall u | u in a ensures u !in b {
      var i :| 0 <= i < |a| && a[i] == u;
      assert forall j :: 0 <= j < |b| ==> b[j] != u;
    }
  }

  /** Importing adds exactly the matched students and leaves everybody else in place. */
  lemma {:induction false} ImportedFacts(members: Members, entries: seq<GroupEntry>, ids: seq<int>, users: map<string, int>)
    requires |ids| == |entries|
    ensures forall u :: u in Imported(members, entries, ids, users) <==> u in members || u in AllMatched(entries, users)
    ensures forall u :: u in Imported(members, entries, ids, users) && u !in AllMatched(entries, users) ==>
      Imported(members, entries, ids, users)[u] == members[u]
  {
    if entries != [] {
      var n := |entries| - 1;
      var before := Imported(members, entries[..n], ids[..n], users);
      ImportedFacts(members, entries[..n], ids[..n], users);
      Groups.WithMembersFacts(before, Groups.Matched(entries[n].nims, users), ids[n]);
    }
  }

  /** When no student is added twice, each matched student ends in the group of the entry that lists them. */
  lemma {:induction false} ImportedPlacement(members: Members, entries: seq<GroupEntry>, ids: seq<int>, users: map<string, int>, k: int, u: int)
    requires |ids| == |entries| && 0 <= k < |entries| && u in Groups.Matched(entries[k].nims, users)
    requires NoRepeats(AllMatched(entries, users))
    ensures u in Imported(members, entries, ids, users) && Imported(members, entries, ids, users)[u] == ids[k]
  {
    var n := |entries| - 1;
    var init, initIds := entries[..n], ids[..n];
    var last := Groups.Matched(entries[n].nims, users);
    Groups.WithMembersFacts(Imported(members, init, initIds, users), last, ids[n]);
    if k < n {
      NoRepeatsConcat(AllMatched(init, users), last);
      assert entries[k] == init[k] && ids[k] == initIds[k];
      AllMatchedHas(init, users);
      ImportedPlacement(members, init, initIds, users, k, u);
    }
  }

  /** Phase 2 adds the memberships of the entries so far, entry after entry. */
  lemma ImportedStep(members: Members, entries: seq<GroupEntry>, ids: seq<int>, users: map<string, int>, k: nat)
    requires |ids| == |entries| && k < |entries|
    ensures Imported(members, entries[..k + 1], ids[..k + 1], users) ==
      Groups.WithMembers(Imported(members, entries[..k], ids[..k], users), Groups.Matched(entries[k].nims, users), ids[k])
    ensures AllMatched(entries[..k + 1], users) == AllMatched(entries[..k], users) + Groups.Matched(entries[k].nims, users)
    ensures AllUnmatched(entries[..k + 1], users) == AllUnmatched(entries[..k], users) + Groups.Unmatched(entries[k].nims, users)
  {
    assert entries[..k + 1][..k] == entries[..k];
    assert ids[..k + 1][..k] == ids[..k];
  }

  /**
   * Phase 2 as the source writes it: the found students' memberships in
   * other groups are noted and removed, then each entry's NIMs are
   * imported into its group with the loop the single-group upload uses.
   */
  method Phase2(store: Groups.GroupStore, rows: seq<NamedRow>, entries: seq<GroupEntry>, ids: seq<int>, users: map<string, int>)
    returns (importedCount: nat, unmatchedNims: seq<string>, movedSummary: set<string>)
    requires store.Valid() && |ids| == |entries|
    requires forall k :: 0 <= k < |ids| ==> 0 < ids[k] < store.nextGroupId
    modifies store
    ensures store.Valid()
    ensures store.groups == old(store.groups) && store.nextGroupId == old(store.nextGroupId)
    ensures store.members == Imported(Kept(old(store.members), FoundUsers(rows, users), ids), entries, ids, users)
    ensures importedCount == |AllMatched(entries, users)| && unmatchedNims == AllUnmatched(entries, users)
    ensures movedSummary == MovedSummary(old(store.groups), old(store.members), rows, users, ids)
  {
    var found := FoundUsers(rows, users);
    movedSummary := MovedSummary(store.groups, store.members, rows, users, ids);
    store.members := Kept(store.members, found, ids);
    ghost var kept := store.members;
    importedCount, unmatchedNims := 0, [];
    for k := 0 to |entries|
      invariant store.Valid()
      invariant store.groups == old(store.groups) && store.nextGroupId == old(store.nextGroupId)
      invariant store.members == Imported(kept, entries[..k], ids[..k], users)
      invariant importedCount == |AllMatched(entries[..k], users)| && unmatchedNims == AllUnmatched(entries[..k], users)
    {
      ImportedStep(kept, entries, ids, users, k);
      var count, unmatched := store.ImportNims(ids[k], entries[k].nims, users);
      importedCount := importedCount + count;
      unmatchedNims := unmatchedNims + unmatched;
    }
    assert entries[..|entries|] == entries && ids[..|ids|] == ids;
  }

  // ---------------------------------------------------------------------
  // The endpoint
  // ---------------------------------------------------------------------

  datatype NameUploadError =
    | FileRequired        // no file, or an empty one
    | InvalidFile         // the workbook cannot be read, or its first row lacks a header
    | EmptyFile           // no data row
    | GroupNameAmbiguous  // two stored groups carry a name of the upload: loading them throws
    | SaveFailed          // the database refuses the second save
    | NimInSeveralGroups  // a student is listed under two groups

  /** What the upload reports on success. */
  datatype NameImportSummary = NameImportSummary(importedCount: nat, unmatchedNims: seq<string>, movedSummary: set<string>)

  /** The checks before any change: a file that is present and not empty, that parses, and has a row. */
  function UploadRows(fileLength: Option<nat>, grid: Option<Grid>): Result<seq<NamedRow>, NameUploadError>
  {
    if fileLength.None? || fileLength.value == 0 then Err(FileRequired)
    else if ParseTemplate(grid).None? then Err(NameUploadError.InvalidFile)
    else if ParseTemplate(grid).value == [] then Err(EmptyFile)
    else Ok(ParseTemplate(grid).value)
  }

  /**
   * The second save is refused by the unique index on the member's user
   * id exactly when some student would be added twice: the students added
   * have no membership left (`NoMatchedStudentKeepsAGroup`).
   */
  predicate SecondSaveRefused(rows: seq<NamedRow>, users: map<string, int>)
  {
    !NoRepeats(AllMatched(Grouped(rows), users))
  }

  /** The members after both saves. */
  function FinalMembers(groups: seq<GroupRow>, members: Members, next: int, rows: seq<NamedRow>, users: map<string, int>): Members
  {
    var entries := Grouped(rows);
    var ids := EntryIds(groups, entries, next);
    Imported(Kept(Phase1Members(groups, members, entries), FoundUsers(rows, users), ids), entries, ids, users)
  }

  /** The summary of a successful upload. */
  function Summary(groups: seq<GroupRow>, members: Members, next: int, rows: seq<NamedRow>, users: map<string, int>): NameImportSummary
  {
    var entries := Grouped(rows);
    var ids := EntryIds(groups, entries, next);
    NameImportSummary(|AllMatched(entries, users)|, AllUnmatched(entries, users),
      MovedSummary(Phase1Groups(groups, entries, next), Phase1Members(groups, members, entries), rows, users, ids))
  }

  /** The ids of the entries' groups are the ids of stored or of created groups, all in range. */
  lemma EntryIdsInRange(groups: seq<GroupRow>, entries: seq<GroupEntry>, next: int)
    requires 0 < next && forall k :: 0 <= k < |groups| ==> 0 < groups[k].id < next
    ensures forall k :: 0 <= k < |entries| ==>
      0 < EntryIds(groups, entries, next)[k] < next + |Created(groups, entries, next)|
    ensures forall c :: c in Created(groups, entries, next) ==> next <= c.id < next + |Created(groups, entries, next)|
  {
    EntryIdsFacts(groups, entries, next);
    var ids := EntryIds(groups, entries, next);
    forall k | 0 <= k < |entries|
      ensures 0 < ids[k] < next + |Created(groups, entries, next)|
    {
      var existing := ExactGroup(groups, entries[k].name);
      if existing.Some? {
        var i :| 0 <= i < |groups| && groups[i] == existing.value;
      } else {
        assert GroupRow(ids[k], entries[k].name) in Created(groups, entries, next);
      }
    }
  }

  /**
   * `UploadGroupMembersWithGroupNameEndpoint` as written.  After the first
   * save the groups are created and the named groups emptied; when the
   * second save is refused that stays so.  The refused changes are
   * discarded, so the model decides the refusal before making them.
   */
  method UploadAsWritten(store: Groups.GroupStore, fileLength: Option<nat>, grid: Option<Grid>, users: map<string, int>)
    returns (r: Result<NameImportSummary, NameUploadError>)
    requires store.Valid()
    modifies store
    ensures store.Valid()
    ensures UploadRows(fileLength, grid).Err? ==> r == Err(UploadRows(fileLength, grid).error) && unchanged(store)
    ensures UploadRows(fileLength, grid).Ok? && SharedName(old(store.groups), Grouped(UploadRows(fileLength, grid).value)) ==>
      r == Err(GroupNameAmbiguous) && unchanged(store)
    ensures UploadRows(fileLength, grid).Ok? && !SharedName(old(store.groups), Grouped(UploadRows(fileLength, grid).value)) ==>
      var rows := UploadRows(fileLength, grid).value;
      var entries := Grouped(rows);
      && store.groups == Phase1Groups(old(store.groups), entries, old(store.nextGroupId))
      && store.nextGroupId == old(store.nextGroupId) + |Created(old(store.groups), entries, old(store.nextGroupId))|
      && (SecondSaveRefused(rows, users) ==>
            r == Err(SaveFailed) && store.members == Phase1Members(old(store.groups), old(store.members), entries))
      && (!SecondSaveRefused(rows, users) ==>
            && r == Ok(Summary(old(store.groups), old(store.members), old(store.nextGroupId), rows, users))
            && store.members == FinalMembers(old(store.groups), old(store.members), old(store.nextGroupId), rows, users))
  {
    if fileLength.None? || fileLength.value == 0 {
      return Err(FileRequired);
    }
    var parsed := ParseTemplateA(grid);
    if parsed.None? {
      return Err(NameUploadError.InvalidFile);
    }
    var rows := parsed.value;
    if rows == [] {
      return Err(EmptyFile);
    }
    var entries := Grouped(rows);
    if SharedName(store.groups, entries) {
      return Err(GroupNameAmbiguous);
    }
    EntryIdsInRange(store.groups, entries, store.nextGroupId);
    var ids := Phase1(store, entries);
    if !NoRepeats(AllMatched(entries, users)) {
      return Err(SaveFailed);
    }
    var importedCount, unmatchedNims, movedSummary := Phase2(store, rows, entries, ids, users);
    return Ok(NameImportSummary(importedCount, unmatchedNims, movedSummary));
  }

  /**
   * The upload with the evidently intended behaviour: a student listed
   * under two groups is reported before anything is saved, and the upload
   * then changes nothing.
   */
  method UploadByGroupName(store: Groups.GroupStore, fileLength: Option<nat>, grid: Option<Grid>, users: map<string, int>)
    returns (r: Result<NameImportSummary, NameUploadError>)
    requires store.Valid()
    modifies store
    ensures store.Valid()
    ensures r.Err? ==> unchanged(store)
    ensures UploadRows(fileLength, grid).Err? ==> r == Err(UploadRows(fileLength, grid).error)
    ensures UploadRows(fileLength, grid).Ok? && SharedName(old(store.groups), Grouped(UploadRows(fileLength, grid).value)) ==>
      r == Err(GroupNameAmbiguous)
    ensures UploadRows(fileLength, grid).Ok? && !SharedName(old(store.groups), Grouped(UploadRows(fileLength, grid).value)) ==>
      var rows := UploadRows(fileLength, grid).value;
      var entries := Grouped(rows);
      && (SecondSaveRefused(rows, users) ==> r == Err(NimInSeveralGroups))
      && (!SecondSaveRefused(rows, users) ==>
            && r == Ok(Summary(old(store.groups), old(store.members), old(store.nextGroupId), rows, users))
            && store.groups == Phase1Groups(old(store.groups), entries, old(store.nextGroupId))
            && store.nextGroupId == old(store.nextGroupId) + |Created(old(store.groups), entries, old(store.nextGroupId))|
            && store.members == FinalMembers(old(store.groups), old(store.members), old(store.nextGroupId), rows, users))
  {
    if fileLength.None? || fileLength.value == 0 {
      return Err(FileRequired);
    }
    var parsed := ParseTemplateA(grid);
    if parsed.None? {
      return Err(NameUploadError.InvalidFile);
    }
    var rows := parsed.value;
    if rows == [] {
      return Err(EmptyFile);
    }
    var entries := Grouped(rows);
    if SharedName(store.groups, entries) {
      return Err(GroupNameAmbiguous);
    }
    if !NoRepeats(AllMatched(entries, users)) {
      return Err(NimInSeveralGroups);
    }
    EntryIdsInRange(store.groups, entries, store.nextGroupId);
    var ids := Phase1(store, entries);
    var importedCount, unmatchedNims, movedSummary := Phase2(store, rows, entries, ids, users);
    return Ok(NameImportSummary(importedCount, unmatchedNims, movedSummary));
  }

  // ---------------------------------------------------------------------
  // What the upload promises
  // ---------------------------------------------------------------------

  /** Every student added is the student of some entry's NIM. */
  lemma {:induction false} AllMatchedFrom(entries: seq<GroupEntry>, users: map<string, int>)
    ensures forall u :: u in AllMatched(entries, users) ==>
      exists k :: 0 <= k < |entries| && u in Groups.Matched(entries[k].nims, users)
  {
    if entries != [] {
      var init := entries[..|entries| - 1];
      AllMatchedFrom(init, users);
      forall u | u in AllMatched(init, users)
        ensures exists k :: 0 <= k < |entries| && u in Groups.Matched(entries[k].nims, users)
      {
        var k :| 0 <= k < |init| && u in Groups.Matched(init[k].nims, users);
        assert entries[k] == init[k];
      }
    }
  }

  /** The students added are students the upload's rows name. */
  lemma AddedAreFound(rows: seq<NamedRow>, users: map<string, int>)
    ensures forall u :: u in AllMatched(Grouped(rows), users) ==> u in FoundUsers(rows, users)
  {
    var entries := Grouped(rows);
    AllMatchedFrom(entries, users);
    GroupedFromRows(rows);
    forall u | u in AllMatched(entries, users)
      ensures u in FoundUsers(rows, users)
    {
      var k :| 0 <= k < |entries| && u in Groups.Matched(entries[k].nims, users);
      Groups.MatchedFacts(entries[k].nims, users);
      var n :| n in entries[k].nims && n in users && users[n] == u;
      var row :| row in rows && row.nim == n && EqualsIgnoreCase(row.groupName, entries[k].name);
    }
  }

  /**
   * Once the groups are found or created and the named ones emptied, and
   * the found students' other memberships removed, no found student has a
   * membership left: the memberships the second save adds can only clash
   * with each other.
   */
  lemma NoMatchedStudentKeepsAGroup(groups: seq<GroupRow>, members: Members, next: int, rows: seq<NamedRow>, users: map<string, int>)
    requires forall u :: u in members ==> members[u] < next
    ensures var entries := Grouped(rows);
      forall u :: u in Kept(Phase1Members(groups, members, entries), FoundUsers(rows, users), EntryIds(groups, entries, next)) ==>
        u !in FoundUsers(rows, users)
  {
    var entries := Grouped(rows);
    var ids := EntryIds(groups, entries, next);
    var members1 := Phase1Members(groups, members, entries);
    EntryIdsFacts(groups, entries, next);
    forall k, u | 0 <= k < |ids| && u in members1
      ensures ids[k] != members1[u]
    {
      if ExactGroup(groups, entries[k].name).Some? {
        assert ids[k] in AffectedIds(groups, entries);
      } else {
        assert GroupRow(ids[k], entries[k].name) in Created(groups, entries, next);
      }
    }
  }

  /** Each entry's group is a group of that exact name after the first save. */
  lemma EntryGroup(groups: seq<GroupRow>, entries: seq<GroupEntry>, next: int, k: int)
    requires 0 <= k < |entries|
    ensures GroupRow(EntryIds(groups, entries, next)[k], entries[k].name) in Phase1Groups(groups, entries, next)
  {
    EntryIdsFacts(groups, entries, next);
  }

  /** Without repeats, a student listed under an entry ends in that entry's group. */
  lemma EntryPlacement(groups: seq<GroupRow>, members: Members, next: int, rows: seq<NamedRow>, users: map<string, int>, k: int, n: string)
    requires 0 <= k < |Grouped(rows)| && n in Grouped(rows)[k].nims && n in users
    requires !SecondSaveRefused(rows, users)
    ensures users[n] in FinalMembers(groups, members, next, rows, users)
    ensures FinalMembers(groups, members, next, rows, users)[users[n]] == EntryIds(groups, Grouped(rows), next)[k]
  {
    var entries := Grouped(rows);
    var ids := EntryIds(groups, entries, next);
    var kept := Kept(Phase1Members(groups, members, entries), FoundUsers(rows, users), ids);
    Groups.MatchedFacts(entries[k].nims, users);
    ImportedPlacement(kept, entries, ids, users, k, users[n]);
  }

  /**
   * A successful upload puts each registered student listed in a row into
   * a group named as the row says, ignoring case.
   */
  lemma UploadPlacesEveryStudent(groups: seq<GroupRow>, members: Members, next: int, rows: seq<NamedRow>, users: map<string, int>)
    requires !SecondSaveRefused(rows, users)
    ensures var final := FinalMembers(groups, members, next, rows, users);
      forall row :: row in rows && row.nim in users ==>
        && users[row.nim] in final
        && exists g :: g in Phase1Groups(groups, Grouped(rows), next) && g.id == final[users[row.nim]] && EqualsIgnoreCase(g.name, row.groupName)
  {
    var entries := Grouped(rows);
    var ids := EntryIds(groups, entries, next);
    GroupedPlacesEveryRow(rows);
    forall row | row in rows && row.nim in users
      ensures users[row.nim] in FinalMembers(groups, members, next, rows, users)
      ensures exists g :: (g in Phase1Groups(groups, entries, next) && g.id == FinalMembers(groups, members, next, rows, users)[users[row.nim]]
        && EqualsIgnoreCase(g.name, row.groupName))
    {
      assert Placed(entries, row);
      var k :| 0 <= k < |entries| && EqualsIgnoreCase(entries[k].name, row.groupName) && row.nim in entries[k].nims;
      EntryPlacement(groups, members, next, rows, users, k, row.nim);
      EntryGroup(groups, entries, next, k);
      var g := GroupRow(ids[k], entries[k].name);
      assert EqualsIgnoreCase(g.name, row.groupName);
    }
  }

  /** A student the upload does not name, in a group it does not name, keeps that group. */
  lemma UploadKeepsOthers(groups: seq<GroupRow>, members: Members, next: int, rows: seq<NamedRow>, users: map<string, int>)
    ensures var final := FinalMembers(groups, members, next, rows, users);
      forall u :: u in members && u !in FoundUsers(rows, users) && members[u] !in AffectedIds(groups, Grouped(rows)) ==>
        u in final && final[u] == members[u]
  {
    var entries := Grouped(rows);
    var ids := EntryIds(groups, entries, next);
    var kept := Kept(Phase1Members(groups, members, entries), FoundUsers(rows, users), ids);
    ImportedFacts(kept, entries, ids, users);
    AddedAreFound(rows, users);
  }

  /**
   * The partial commit.  Student 10 (NIM "n1") is the only member of
   * group A, and the sheet lists "n1" under A and under B.  The second
   * save is refused, yet the first one has already created B and emptied
   * A: the student is left in no group although the upload failed.  The
   * corrected upload answers `NimInSeveralGroups` and changes nothing.
   */
  lemma PartialCommitExample()
    ensures var rows := [NamedRow("A", "n1"), NamedRow("B", "n1")];
      && SecondSaveRefused(rows, map["n1" := 10])
      && !SharedName([GroupRow(1, "A")], Grouped(rows))
      && Phase1Groups([GroupRow(1, "A")], Grouped(rows), 2) == [GroupRow(1, "A"), GroupRow(2, "B")]
      && Phase1Members([GroupRow(1, "A")], map[10 := 1], Grouped(rows)) == map[]
  {
    var rows := [NamedRow("A", "n1"), NamedRow("B", "n1")];
    var users := map["n1" := 10];
    var groups := [GroupRow(1, "A")];
    assert rows[..1] == [NamedRow("A", "n1")];
    assert rows[..1][..0] == [];
    assert Grouped(rows[..1]) == [GroupEntry("A", ["n1"])];
    assert Upper("A")[0] == 'A' && Upper("B")[0] == 'B';
    assert !EqualsIgnoreCase("A", "B");
    var entries := Grouped(rows);
    assert entries == [GroupEntry("A", ["n1"]), GroupEntry("B", ["n1"])];
    assert entries[..1] == [GroupEntry("A", ["n1"])];
    assert entries[..1][..0] == [];
    assert Groups.Matched(["n1"], users) == [10] by {
      assert ["n1"][..0] == [];
    }
    assert AllMatched(entries[..1], users) == [10];
    assert AllMatched(entries, users) == [10] + [10];
    assert AllMatched(entries, users)[0] == AllMatched(entries, users)[1];
    assert ExactGroup(groups, "A") == Some(GroupRow(1, "A"));
    assert ExactGroup(groups, "B") == None;
    assert entries[1..] == [GroupEntry("B", ["n1"])];
    assert entries[1..][1..] == [];
    assert AffectedIds(groups, entries) == {1};
    assert Created(groups, entries[1..], 2) == [GroupRow(2, "B")] + Created(groups, entries[1..][1..], 3);
    assert Created(groups, entries, 2) == [GroupRow(2, "B")];
  }
}
