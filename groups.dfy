/**
 * The groups feature: the `groups` and `group_members` tables, the import
 * of a list of NIMs into a group that both membership uploads share, the
 * upload of one group's members from its downloaded template, and deleting
 * a group.
 *
 * A NIM is a student's registration number.  `users` maps the NIM of each
 * registered student to the student's user id; every student has one NIM,
 * so distinct NIMs map to distinct users.
 */
module Groups {
  import opened Common
  import opened Excel
  import opened GroupData
  import Assignments

  /** Distinct NIMs belong to distinct students. */
  predicate OneUserPerNim(users: map<string, int>)
  {
    forall a, b :: a in users && b in users && a != b ==> users[a] != users[b]
  }

  // ---------------------------------------------------------------------
  // Importing NIMs into a group
  // ---------------------------------------------------------------------

  /** The user ids of the NIMs that name a registered student, in order. */
  function Matched(nims: seq<string>, users: map<string, int>): seq<int>
  {
    if nims == [] then []
    else
      var nim := nims[|nims| - 1];
      Matched(nims[..|nims| - 1], users) + (if nim in users then [users[nim]] else [])
  }

  /** The NIMs that name no registered student, in order. */
  function Unmatched(nims: seq<string>, users: map<string, int>): seq<string>
  {
    if nims == [] then []
    else
      var nim := nims[|nims| - 1];
      Unmatched(nims[..|nims| - 1], users) + (if nim in users then [] else [nim])
  }

  /**
   * A NIM's student is matched exactly when the NIM is registered; every
   * other NIM is listed as unmatched; together they account for every NIM.
   */
  lemma {:induction false} MatchedFacts(nims: seq<string>, users: map<string, int>)
    ensures forall n :: n in nims && n in users ==> users[n] in Matched(nims, users)
    ensures forall u :: u in Matched(nims, users) ==> exists n :: n in nims && n in users && users[n] == u
    ensures forall n :: n in Unmatched(nims, users) <==> n in nims && n !in users
    ensures |Unmatched(nims, users)| + |Matched(nims, users)| == |nims|
  {
    if nims != [] {
      var init := nims[..|nims| - 1];
      assert nims == init + [nims[|nims| - 1]];
      MatchedFacts(init, users);
    }
  }

  /** One NIM more. */
  lemma MatchedStep(nims: seq<string>, i: nat, users: map<string, int>)
    requires i < |nims|
    ensures Matched(nims[..i + 1], users) == Matched(nims[..i], users) + (if nims[i] in users then [users[nims[i]]] else [])
    ensures Unmatched(nims[..i + 1], users) == Unmatched(nims[..i], users) + (if nims[i] in users then [] else [nims[i]])
    ensures nims[i] !in users ==> Matched(nims[..i + 1], users) == Matched(nims[..i], users)
  {
    assert nims[..i + 1][..i] == nims[..i];
    assert Matched(nims[..i], users) + [] == Matched(nims[..i], users);
  }

  /** The members after `GroupMember.Create(groupId, u)` for each listed user, in order. */
  function WithMembers(members: Members, userIds: seq<int>, groupId: int): Members
  {
    if userIds == [] then members
    else WithMembers(members, userIds[..|userIds| - 1], groupId)[userIds[|userIds| - 1] := groupId]
  }

  /** The listed users join the group; everybody else keeps the group they had. */
  lemma {:induction false} WithMembersFacts(members: Members, userIds: seq<int>, groupId: int)
    ensures forall u :: u in WithMembers(members, userIds, groupId) <==> u in members || u in userIds
    ensures forall u :: u in WithMembers(members, userIds, groupId) ==>
      WithMembers(members, userIds, groupId)[u] == if u in userIds then groupId else members[u]
  {
    if userIds != [] {
      var init := userIds[..|userIds| - 1];
      assert userIds == init + [userIds[|userIds| - 1]];
      WithMembersFacts(members, init, groupId);
    }
  }

  /** `FindAsync(id)` on `groups`. */
  function FindGroup(groups: seq<GroupRow>, id: int): (r: Option<GroupRow>)
    ensures r.Some? ==> r.value in groups && r.value.id == id
    ensures r.None? <==> forall k :: 0 <= k < |groups| ==> groups[k].id != id
  {
    if groups == [] then None
    else if groups[0].id == id then Some(groups[0])
    else FindGroup(groups[1..], id)
  }

  /** The groups without the one with a given id. */
  function WithoutGroupRow(groups: seq<GroupRow>, id: int): (r: seq<GroupRow>)
    ensures forall g :: g in r <==> g in groups && g.id != id
  {
    if groups == [] then []
    else (if groups[0].id == id then [] else [groups[0]]) + WithoutGroupRow(groups[1..], id)
  }

  /** One user more. */
  lemma WithMembersSnoc(members: Members, userIds: seq<int>, u: int, groupId: int)
    ensures WithMembers(members, userIds + [u], groupId) == WithMembers(members, userIds, groupId)[u := groupId]
  {
    assert (userIds + [u])[..|userIds|] == userIds;
  }

  // ---------------------------------------------------------------------
  // The upload of one group's members
  // ---------------------------------------------------------------------

  /**
   * A data row of the members template as the parser yields it: the sheet
   * row it was read from and the trimmed text of its NIM cell, absent when
   * the cell is empty.  The parser skips empty sheet rows.
   */
  datatype MemberRow = MemberRow(sheetRow: int, nim: Option<string>)

  /** `[ExcelColumn("A", "NIM")] Nim`: the template's only column. */
  const MemberColumns: seq<ColumnMapping> := [ColumnMapping("Nim", LetterColumn("A", Some("NIM")))]

  /** `ResolveExcelColumn` of the members upload: a property whose lower-cased name contains "nim" is column A. */
  function ResolveMemberColumn(propertyName: Option<string>, rowIndex: int): Cell
  {
    var prop := if propertyName.Some? then Lower(propertyName.value) else "";
    if OccursFrom(prop, "nim", 0) then Cell("A", rowIndex) else Cell("Unknown", rowIndex)
  }

  /** The validator's one failure, on the property `Nim`, is reported in column A. */
  lemma NimResolves(rowIndex: int)
    ensures ResolveMemberColumn(Some("Nim"), rowIndex) == Cell("A", rowIndex)
  {
    assert Lower("Nim") == "nim";
    OccursFromItself("nim");
  }

  /**
   * The row check as written: a row whose NIM is blank (the validator's
   * `NotEmpty`) is reported at a row number counted from 2 for the first
   * parsed row, as if the data started on sheet row 2.
   */
  function MemberErrorsAsWritten(rows: seq<MemberRow>, idx: int): (r: seq<Cell>)
    ensures |r| <= |rows|
    ensures forall c :: c in r ==> idx <= c.row < idx + |rows|
  {
    if rows == [] then []
    else
      (if Blank(rows[0].nim) then [ResolveMemberColumn(Some("Nim"), idx)] else [])
      + MemberErrorsAsWritten(rows[1..], idx + 1)
  }

  /** The row check with each failure reported at the sheet row it was read from. */
  function MemberErrors(rows: seq<MemberRow>): (r: seq<Cell>)
    ensures |r| <= |rows|
  {
    if rows == [] then []
    else
      (if Blank(rows[0].nim) then [ResolveMemberColumn(Some("Nim"), rows[0].sheetRow)] else [])
      + MemberErrors(rows[1..])
  }

  /**
   * There is an error exactly when some NIM is blank, and every error names
   * column A of a row whose NIM is blank.
   */
  lemma {:induction false} MemberErrorsFacts(rows: seq<MemberRow>)
    ensures MemberErrors(rows) == [] <==> forall i :: 0 <= i < |rows| ==> !Blank(rows[i].nim)
    ensures forall c :: c in MemberErrors(rows) ==>
      c.column == "A" && exists i :: 0 <= i < |rows| && rows[i].sheetRow == c.row && Blank(rows[i].nim)
  {
    if rows != [] {
      NimResolves(rows[0].sheetRow);
      MemberErrorsFacts(rows[1..]);
      forall c | c in MemberErrors(rows[1..])
        ensures exists i :: 1 <= i < |rows| && rows[i].sheetRow == c.row && Blank(rows[i].nim)
      {
        var i :| 0 <= i < |rows[1..]| && rows[1..][i].sheetRow == c.row && Blank(rows[1..][i].nim);
        assert rows[i + 1] == rows[1..][i];
      }
      if !Blank(rows[0].nim) {
        forall i | 1 <= i < |rows| ensures rows[i] == rows[1..][i - 1] { }
      }
    }
  }

  /** One step of the row check. */
  lemma MemberErrorsStep(rows: seq<MemberRow>, i: nat)
    requires i < |rows|
    ensures MemberErrors(rows[i..]) ==
      (if Blank(rows[i].nim) then [ResolveMemberColumn(Some("Nim"), rows[i].sheetRow)] else []) + MemberErrors(rows[i + 1..])
  {
    assert rows[i..][1..] == rows[i + 1..];
  }

  /**
   * The template puts the group name in B1, the NIM header in A3 and the
   * first NIM in A4.  A blank first NIM is reported at A2 as written, and
   * at A4 once rows keep their sheet row.
   */
  lemma MemberErrorsNumberedFromTwo()
    ensures MemberErrorsAsWritten([MemberRow(4, Some(" "))], 2) == [Cell("A", 2)]
    ensures MemberErrors([MemberRow(4, Some(" "))]) == [Cell("A", 4)]
  {
    NimResolves(2);
    NimResolves(4);
    assert Blank(Some(" "));
    assert [MemberRow(4, Some(" "))][1..] == [];
  }

  /** `ValidateRows`: every row is checked; the check fails exactly when an error was found, and reports them all. */
  method ValidateMemberRows(rows: seq<MemberRow>) returns (r: Result<(), seq<Cell>>)
    ensures r.Ok? <==> MemberErrors(rows) == []
    ensures r.Err? ==> r.error == MemberErrors(rows)
  {
    var results: seq<Cell> := [];
    for i := 0 to |rows|
      invariant results + MemberErrors(rows[i..]) == MemberErrors(rows)
    {
      MemberErrorsStep(rows, i);
      var here := if Blank(rows[i].nim) then [ResolveMemberColumn(Some("Nim"), rows[i].sheetRow)] else [];
      AppendAssoc(results, here, MemberErrors(rows[i + 1..]));
      results := results + here;
    }
    assert rows[|rows|..] == [];
    if results != [] {
      return Err(results);
    }
    return Ok(());
  }

  /** `ParseExcelData` finds no data when no parsed row has a NIM. */
  predicate NoData(rows: seq<MemberRow>)
  {
    forall i :: 0 <= i < |rows| ==> Blank(rows[i].nim)
  }

  /**
   * `rows.Where(r => !IsNullOrWhiteSpace(r.Nim)).Select(r => r.Nim.Trim()).Distinct()`:
   * each non-blank NIM, trimmed, once, in the order of first occurrence.
   */
  function DistinctNims(rows: seq<MemberRow>): (r: seq<string>)
    ensures forall i, j :: 0 <= i < j < |r| ==> r[i] != r[j]
    ensures forall i :: 0 <= i < |rows| && !Blank(rows[i].nim) ==> Trim(rows[i].nim.value) in r
    ensures forall n :: n in r ==> exists i :: 0 <= i < |rows| && !Blank(rows[i].nim) && Trim(rows[i].nim.value) == n
  {
    if rows == [] then []
    else
      var init := rows[..|rows| - 1];
      var row := rows[|rows| - 1];
      var r := DistinctNims(init);
      assert forall i :: 0 <= i < |init| ==> init[i] == rows[i];
      if Blank(row.nim) || Trim(row.nim.value) in r then r else r + [Trim(row.nim.value)]
  }

  /** The users of the NIMs found among the registered students. */
  function FoundUsers(nims: seq<string>, users: map<string, int>): set<int>
  {
    set n | n in nims && n in users :: users[n]
  }

  /** The memberships of found users in groups other than the target. */
  function Conflicts(members: Members, found: set<int>, groupId: int): set<Membership>
  {
    set u | u in members && u in found && members[u] != groupId :: Membership(u, members[u])
  }

  /** The full replace: the group's old members removed, then one membership per matched NIM. */
  function Replaced(members: Members, groupId: int, nims: seq<string>, users: map<string, int>): Members
  {
    WithMembers(WithoutGroups(members, {groupId}), Matched(nims, users), groupId)
  }

  /**
   * Without conflicts the replace touches only the target group: its
   * members afterwards are exactly the matched students, and every other
   * user keeps the group they had, or stays in none.
   */
  lemma ReplaceTouchesOnlyTheGroup(members: Members, groupId: int, nims: seq<string>, users: map<string, int>)
    requires Conflicts(members, FoundUsers(nims, users), groupId) == {}
    ensures var r := Replaced(members, groupId, nims, users);
      && (forall u :: u in r && r[u] == groupId <==> u in Matched(nims, users))
      && (forall u :: u in members && members[u] != groupId ==> u in r && r[u] == members[u])
      && (forall u :: u in r && r[u] != groupId ==> u in members && members[u] == r[u])
  {
    var matched := Matched(nims, users);
    MatchedFacts(nims, users);
    WithMembersFacts(WithoutGroups(members, {groupId}), matched, groupId);
    forall u | u in members && u in matched
      ensures Membership(u, members[u]) in Conflicts(members, FoundUsers(nims, users), groupId) || members[u] == groupId
    {
      var n :| n in nims && n in users && users[n] == u;
      assert u in FoundUsers(nims, users);
    }
  }

  /** What the members upload reports on success. */
  datatype ImportSummary = ImportSummary(importedCount: nat, unmatchedNims: seq<string>)

  datatype MembersUploadError =
    | GroupNotFound
    | FileRequired
    | FileRejected(fileError: FileError)
    | GroupNameMismatch(templateName: string)
    | StructureInvalid(structureErrors: seq<StructureError>)
    | NoDataFound
    | RowsInvalid(cells: seq<Cell>)
    | EmptyFile
    | MembersInOtherGroups(conflicts: set<Membership>)

  /** Cell B1 of the first worksheet, trimmed; "" when there is no worksheet. */
  function TemplateGroupName(b1: Option<string>): string
  {
    if b1.None? then "" else Trim(b1.value)
  }

  /** The first worksheet as the structure check sees it: without a header row only its presence matters. */
  function MemberSheet(b1: Option<string>): Option<seq<HeaderCell>>
  {
    if b1.None? then None else Some([])
  }

  /**
   * The checks of `UploadGroupMembersEndpoint` that come before the rows,
   * in order: the group, the file, its size and type, the group name in
   * B1, the column structure.  `file` is the uploaded file's bytes, absent
   * when no file was sent; `b1` the text of cell B1 of its first
   * worksheet, absent when it has none.
   */
  function SheetError(groups: seq<GroupRow>, groupId: int, file: Option<seq<bv8>>, contentType: string, b1: Option<string>)
    : Option<MembersUploadError>
  {
    if FindGroup(groups, groupId).None? then Some(GroupNotFound)
    else if file.None? then Some(FileRequired)
    else if ValidateExcelFile(|file.value|, contentType).Err? then Some(FileRejected(ValidateExcelFile(|file.value|, contentType).error))
    else if !EqualsIgnoreCase(TemplateGroupName(b1), FindGroup(groups, groupId).value.name) then Some(GroupNameMismatch(TemplateGroupName(b1)))
    else if StructureErrors(file.value, MemberSheet(b1), MemberColumns, false) != [] then
      Some(StructureInvalid(StructureErrors(file.value, MemberSheet(b1), MemberColumns, false)))
    else None
  }

  /** What the upload answers once the sheet passed its checks: the row checks, then the import. */
  function RowsOutcome(members: Members, groupId: int, rows: seq<MemberRow>, users: map<string, int>)
    : Result<ImportSummary, MembersUploadError>
  {
    if NoData(rows) then Err(NoDataFound)
    else if MemberErrors(rows) != [] then Err(RowsInvalid(MemberErrors(rows)))
    else if DistinctNims(rows) == [] then Err(EmptyFile)
    else if Conflicts(members, FoundUsers(DistinctNims(rows), users), groupId) != {} then
      Err(MembersInOtherGroups(Conflicts(members, FoundUsers(DistinctNims(rows), users), groupId)))
    else Ok(ImportSummary(|Matched(DistinctNims(rows), users)|, Unmatched(DistinctNims(rows), users)))
  }

  /** What `UploadGroupMembersEndpoint` answers, check by check; `rows` are the parsed data rows. */
  function MembersOutcome(groups: seq<GroupRow>, members: Members, groupId: int, file: Option<seq<bv8>>, contentType: string,
                          b1: Option<string>, rows: seq<MemberRow>, users: map<string, int>)
    : Result<ImportSummary, MembersUploadError>
  {
    match SheetError(groups, groupId, file, contentType, b1)
    case Some(e) => Err(e)
    case None => RowsOutcome(members, groupId, rows, users)
  }

  /**
   * The `EmptyFile` answer is never given: the parser needs a row with a
   * NIM, and that NIM survives the filter.
   */
  lemma EmptyFileUnreachable(members: Members, groupId: int, rows: seq<MemberRow>, users: map<string, int>)
    ensures RowsOutcome(members, groupId, rows, users) != Err(EmptyFile)
  {
    if !NoData(rows) {
      var i :| 0 <= i < |rows| && !Blank(rows[i].nim);
      assert Trim(rows[i].nim.value) in DistinctNims(rows);
    }
  }

  /** A sheet error is the answer; without one the rows decide. */
  lemma SheetDecides(groups: seq<GroupRow>, members: Members, groupId: int, file: Option<seq<bv8>>, contentType: string,
                     b1: Option<string>, rows: seq<MemberRow>, users: map<string, int>)
    ensures SheetError(groups, groupId, file, contentType, b1).Some? ==>
      MembersOutcome(groups, members, groupId, file, contentType, b1, rows, users) == Err(SheetError(groups, groupId, file, contentType, b1).value)
    ensures SheetError(groups, groupId, file, contentType, b1).None? ==>
      MembersOutcome(groups, members, groupId, file, contentType, b1, rows, users) == RowsOutcome(members, groupId, rows, users)
  {
  }

  // ---------------------------------------------------------------------
  // The store
  // ---------------------------------------------------------------------

  /** The `groups` and `group_members` tables. */
  class GroupStore {
    var groups: seq<GroupRow>
    var members: Members
    var nextGroupId: int

    /** Group ids, and the groups members belong to, are positive and below the next id the database hands out. */
    predicate Valid()
      reads this
    {
      && 0 < nextGroupId
      && (forall k :: 0 <= k < |groups| ==> 0 < groups[k].id < nextGroupId)
      && (forall u :: u in members ==> 0 < members[u] < nextGroupId)
    }

    constructor ()
      ensures Valid() && groups == [] && members == map[]
    {
      groups := [];
      members := map[];
      nextGroupId := 1;
    }

    /**
     * The import loop both uploads share: each NIM of a registered student
     * becomes a membership of the group and is counted; the others are
     * listed as unmatched, in order.
     */
    method ImportNims(groupId: int, nims: seq<string>, users: map<string, int>)
      returns (importedCount: nat, unmatchedNims: seq<string>)
      requires Valid() && 0 < groupId < nextGroupId
      modifies this
      ensures Valid()
      ensures groups == old(groups) && nextGroupId == old(nextGroupId)
      ensures members == WithMembers(old(members), Matched(nims, users), groupId)
      ensures importedCount == |Matched(nims, users)| && unmatchedNims == Unmatched(nims, users)
    {
      importedCount := 0;
      unmatchedNims := [];
      var i := 0;
      while i < |nims|
        invariant 0 <= i <= |nims|
        invariant members == WithMembers(old(members), Matched(nims[..i], users), groupId)
        invariant importedCount == |Matched(nims[..i], users)| && unmatchedNims == Unmatched(nims[..i], users)
        invariant groups == old(groups) && nextGroupId == old(nextGroupId)
        invariant Valid()
      {
        MatchedStep(nims, i, users);
        var nim := nims[i];
        if nim !in users {
          unmatchedNims := unmatchedNims + [nim];
        } else {
          WithMembersSnoc(old(members), Matched(nims[..i], users), users[nim], groupId);
          members := members[users[nim] := groupId];
          importedCount := importedCount + 1;
        }
        i := i + 1;
      }
      assert nims[..i] == nims;
    }

    /** The checks of the upload before its rows, as the source makes them one after the other. */
    method CheckSheet(groupId: int, fileData: array?<bv8>, contentType: string, b1: Option<string>)
      returns (e: Option<MembersUploadError>)
      ensures e == SheetError(groups, groupId, if fileData == null then None else Some(fileData[..]), contentType, b1)
    {
      var group := FindGroup(groups, groupId);
      if group.None? {
        return Some(GroupNotFound);
      }
      if fileData == null {
        return Some(FileRequired);
      }
      var validateResult := ValidateExcelFile(fileData.Length, contentType);
      if validateResult.Err? {
        return Some(FileRejected(validateResult.error));
      }
      var templateGroupName := TemplateGroupName(b1);
      if !EqualsIgnoreCase(templateGroupName, group.value.name) {
        return Some(GroupNameMismatch(templateGroupName));
      }
      var structureErrors := ValidateColumnStructure(fileData, MemberSheet(b1), MemberColumns, false);
      if structureErrors != [] {
        return Some(StructureInvalid(structureErrors));
      }
      return None;
    }

    /**
     * `UploadGroupMembersEndpoint`: answers as `MembersOutcome` says; on
     * success the group's members are replaced by the matched students,
     * otherwise nothing changes.
     */
    method UploadMembers(groupId: int, fileData: array?<bv8>, contentType: string, b1: Option<string>,
                         rows: seq<MemberRow>, users: map<string, int>)
      returns (r: Result<ImportSummary, MembersUploadError>)
      requires Valid()
      modifies this
      ensures Valid()
      ensures r == MembersOutcome(old(groups), old(members), groupId, if fileData == null then None else Some(fileData[..]),
                                  contentType, b1, rows, users)
      ensures groups == old(groups)
      ensures r.Ok? ==> members == Replaced(old(members), groupId, DistinctNims(rows), users)
      ensures r.Err? ==> members == old(members)
    {
      var sheetError := CheckSheet(groupId, fileData, contentType, b1);
      ghost var file := if fileData == null then None else Some(fileData[..]);
      SheetDecides(groups, members, groupId, file, contentType, b1, rows, users);
      if sheetError.Some? {
        return Err(sheetError.value);
      }
      var group := FindGroup(groups, groupId);
      var k :| 0 <= k < |groups| && groups[k] == group.value;
      r := UploadRows(groupId, rows, users);
    }

    /** The row checks and the import of `UploadGroupMembersEndpoint`, once the sheet passed its checks. */
    method UploadRows(groupId: int, rows: seq<MemberRow>, users: map<string, int>)
      returns (r: Result<ImportSummary, MembersUploadError>)
      requires Valid() && 0 < groupId < nextGroupId
      modifies this
      ensures Valid()
      ensures r == RowsOutcome(old(members), groupId, rows, users)
      ensures groups == old(groups)
      ensures r.Ok? ==> members == Replaced(old(members), groupId, DistinctNims(rows), users)
      ensures r.Err? ==> members == old(members)
    {
      if forall i :: 0 <= i < |rows| ==> Blank(rows[i].nim) {
        return Err(NoDataFound);
      }
      var validation := ValidateMemberRows(rows);
      if validation.Err? {
        return Err(RowsInvalid(validation.error));
      }
      var nims := DistinctNims(rows);
      // `nims` is not empty here, so the source's `EmptyFile` answer is not reached.
      EmptyFileUnreachable(members, groupId, rows, users);
      var conflicts := Conflicts(members, FoundUsers(nims, users), groupId);
      if conflicts != {} {
        return Err(MembersInOtherGroups(conflicts));
      }
      var importedCount, unmatchedNims := ReplaceMembers(groupId, nims, users);
      return Ok(ImportSummary(importedCount, unmatchedNims));
    }

    /** The write of `UploadGroupMembersEndpoint`: the group's old members go, the matched students come in. */
    method ReplaceMembers(groupId: int, nims: seq<string>, users: map<string, int>)
      returns (importedCount: nat, unmatchedNims: seq<string>)
      requires Valid() && 0 < groupId < nextGroupId
      modifies this
      ensures Valid()
      ensures groups == old(groups) && nextGroupId == old(nextGroupId)
      ensures members == Replaced(old(members), groupId, nims, users)
      ensures importedCount == |Matched(nims, users)| && unmatchedNims == Unmatched(nims, users)
    {
      DeleteKeepsGroupIds(groups, members, nextGroupId, groupId);
      members := WithoutGroups(members, {groupId});
      importedCount, unmatchedNims := ImportNims(groupId, nims, users);
    }

    /**
     * `DeleteGroupEndpoint`: an unknown group is not found; a group with a
     * completed or file-carrying submission is kept; otherwise its
     * submissions, its members and the group itself are removed.  None of
     * those submissions has a file, so the file table is untouched.
     */
    method DeleteGroup(store: Assignments.AssignmentStore, id: int) returns (r: Result<(), Assignments.DeleteError>)
      requires Valid() && store.Valid()
      modifies this, store
      ensures Valid() && store.Valid()
      ensures r == Err(Assignments.NotFound) <==> FindGroup(old(groups), id).None?
      ensures r == Err(Assignments.CannotDelete) <==>
        FindGroup(old(groups), id).Some? && GroupBlocked(old(store.submissions), old(store.files), id)
      ensures r.Err? ==> groups == old(groups) && members == old(members) && store.submissions == old(store.submissions)
      ensures r.Ok? ==> groups == WithoutGroupRow(old(groups), id) && members == WithoutGroups(old(members), {id})
      ensures r.Ok? ==> store.submissions == SubmissionsExcept(old(store.submissions), (s: SubmissionRow) => s.groupId == id)
      ensures r.Ok? ==> forall k, j :: 0 <= k < |store.files| && 0 <= j < |old(store.submissions)| && old(store.submissions)[j].groupId == id ==>
        store.files[k].submissionId != old(store.submissions)[j].id
      ensures nextGroupId == old(nextGroupId)
      ensures store.assignments == old(store.assignments) && store.files == old(store.files)
      ensures store.nextSubmissionId == old(store.nextSubmissionId) && store.nextFileId == old(store.nextFileId)
    {
      if FindGroup(groups, id).None? {
        return Err(Assignments.NotFound);
      }
      if exists k :: 0 <= k < |store.submissions| && store.submissions[k].groupId == id && Blocking(store.submissions[k], store.files) {
        return Err(Assignments.CannotDelete);
      }
      NoFileOfUnblocked(store.submissions, store.files, id);
      RemoveGroupRows(store, id);
      r := Ok(());
    }

    /** The removals of `DeleteGroupEndpoint`: the group's submissions, its members and its row. */
    method RemoveGroupRows(store: Assignments.AssignmentStore, id: int)
      requires Valid() && store.Valid()
      modifies this, store
      ensures Valid() && store.Valid()
      ensures groups == WithoutGroupRow(old(groups), id) && members == WithoutGroups(old(members), {id})
      ensures store.submissions == SubmissionsExcept(old(store.submissions), (s: SubmissionRow) => s.groupId == id)
      ensures nextGroupId == old(nextGroupId)
      ensures store.assignments == old(store.assignments) && store.files == old(store.files)
      ensures store.nextSubmissionId == old(store.nextSubmissionId) && store.nextFileId == old(store.nextFileId)
    {
      var kept := SubmissionsExcept(store.submissions, (s: SubmissionRow) => s.groupId == id);
      Assignments.SubmissionsExceptKeepsInvariant(store.submissions, (s: SubmissionRow) => s.groupId == id, store.nextSubmissionId);
      DeleteKeepsGroupIds(groups, members, nextGroupId, id);
      store.submissions := kept;
      members := WithoutGroups(members, {id});
      groups := WithoutGroupRow(groups, id);
    }
  }

  /** No file points at a submission of a group that nothing blocks. */
  lemma NoFileOfUnblocked(submissions: seq<SubmissionRow>, files: seq<FileRow>, id: int)
    requires !GroupBlocked(submissions, files, id)
    ensures forall k, j :: 0 <= k < |files| && 0 <= j < |submissions| && submissions[j].groupId == id ==>
      files[k].submissionId != submissions[j].id
  {
    forall k, j | 0 <= k < |files| && 0 <= j < |submissions| && submissions[j].groupId == id
      ensures files[k].submissionId != submissions[j].id
    {
      assert !Blocking(submissions[j], files);
    }
  }

  /** Removing a group's row and its members keeps every remaining id below the next one. */
  lemma DeleteKeepsGroupIds(groups: seq<GroupRow>, members: Members, nextGroupId: int, id: int)
    requires forall k :: 0 <= k < |groups| ==> 0 < groups[k].id < nextGroupId
    requires forall u :: u in members ==> 0 < members[u] < nextGroupId
    ensures var g := WithoutGroupRow(groups, id); forall k :: 0 <= k < |g| ==> 0 < g[k].id < nextGroupId
    ensures var m := WithoutGroups(members, {id}); forall u :: u in m ==> 0 < m[u] < nextGroupId
  {
    var g := WithoutGroupRow(groups, id);
    forall k | 0 <= k < |g| ensures 0 < g[k].id < nextGroupId {
      assert g[k] in g;
    }
  }

  /** Some submission of the group is completed or has a file. */
  predicate GroupBlocked(submissions: seq<SubmissionRow>, files: seq<FileRow>, id: int)
  {
    exists k :: 0 <= k < |submissions| && submissions[k].groupId == id && Blocking(submissions[k], files)
  }
}
