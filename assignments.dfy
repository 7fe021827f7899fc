/**
 * The assignments feature: a group's submission for an assignment, which is
 * completed and reopened; the endpoint that attaches a file or a link to a
 * submission; the participant's list of assignments, which first creates the
 * submissions still missing; and the admin's delete.
 *
 * The database assigns ids; the store models that with counters above every
 * stored id.  The clock and the object storage are parameters: `now` is the
 * instant `DateTime.UtcNow` reads, `guid` the generated object name and
 * `uploadedUri` what the upload returns.
 */
module Assignments {
  import opened Common
  import opened GroupData
  import Sorting

  /** An `AssignmentSubmission` entity: its fields change only through its methods. */
  class AssignmentSubmission {
    var assignmentId: int
    var groupId: int
    var isCompleted: bool
    var completedAt: Option<int>

    /** A submission is completed exactly when it carries a completion time. */
    predicate Valid()
      reads this
    {
      isCompleted <==> completedAt.Some?
    }

    /** `AssignmentSubmission.Create`: an open submission of one group for one assignment. */
    constructor Create(assignmentId: int, groupId: int)
      ensures Valid()
      ensures this.assignmentId == assignmentId && this.groupId == groupId
      ensures !isCompleted && completedAt == None
    {
      this.assignmentId := assignmentId;
      this.groupId := groupId;
      isCompleted := false;
      completedAt := None;
    }

    /** Completes the submission; completing it again moves the completion time to `now`. */
    method MarkAsComplete(now: int)
      modifies this
      ensures Valid()
      ensures isCompleted && completedAt == Some(now)
      ensures assignmentId == old(assignmentId) && groupId == old(groupId)
    {
      isCompleted := true;
      completedAt := Some(now);
    }

    /** Reopens the submission; the resulting state does not depend on the state before. */
    method MarkAsIncomplete()
      modifies this
      ensures Valid()
      ensures !isCompleted && completedAt == None
      ensures assignmentId == old(assignmentId) && groupId == old(groupId)
    {
      isCompleted := false;
      completedAt := None;
    }

    /** The row the entity is saved as under a given id. */
    function Row(id: int): SubmissionRow
      reads this
    {
      SubmissionRow(id, assignmentId, groupId, isCompleted, completedAt)
    }
  }

  /** Every stored submission pairs completion with a completion time. */
  predicate CompletionsConsistent(submissions: seq<SubmissionRow>)
  {
    forall k :: 0 <= k < |submissions| ==> (submissions[k].isCompleted <==> submissions[k].completedAt.Some?)
  }

  /** Appending one submission of a pair that has none keeps one submission per pair. */
  lemma AppendKeepsOnePerPair(submissions: seq<SubmissionRow>, s: SubmissionRow)
    requires OneSubmissionPerPair(submissions)
    requires NoSubmission(submissions, s.assignmentId, s.groupId)
    ensures OneSubmissionPerPair(submissions + [s])
  {
  }

  /** Removing submissions keeps every submission-side part of the store's invariant. */
  lemma SubmissionsExceptKeepsInvariant(submissions: seq<SubmissionRow>, drop: SubmissionRow -> bool, nextSubmissionId: int)
    requires OneSubmissionPerPair(submissions) && CompletionsConsistent(submissions)
    requires forall k :: 0 <= k < |submissions| ==> submissions[k].id < nextSubmissionId
    ensures var kept := SubmissionsExcept(submissions, drop);
      && OneSubmissionPerPair(kept) && CompletionsConsistent(kept)
      && (forall k :: 0 <= k < |kept| ==> kept[k].id < nextSubmissionId)
  {
    var kept := SubmissionsExcept(submissions, drop);
    SubmissionsExceptKeepsOnePerPair(submissions, drop);
    forall k | 0 <= k < |kept|
      ensures kept[k].id < nextSubmissionId && (kept[k].isCompleted <==> kept[k].completedAt.Some?)
    {
      assert kept[k] in submissions;
    }
  }

  // ---------------------------------------------------------------------
  // Adding a file or a link to the caller's group submission
  // ---------------------------------------------------------------------

  /** An uploaded form file: its client-side name and its length in bytes. */
  datatype FormFile = FormFile(fileName: string, length: nat)

  datatype AddFileRequest = AddFileRequest(
    assignmentId: int,
    fileName: Option<string>,
    file: Option<FormFile>,
    externalLink: Option<string>)

  /** `req.File is { Length: > 0 }`. */
  predicate HasFile(req: AddFileRequest)
  {
    req.file.Some? && req.file.value.length > 0
  }

  /** `!string.IsNullOrWhiteSpace(req.ExternalLink)`. */
  predicate HasLink(req: AddFileRequest)
  {
    !Blank(req.externalLink)
  }

  datatype AddFileError = ExactlyOne | AssignmentNotFound | Forbidden

  predicate HasAssignment(assignments: seq<AssignmentRow>, id: int)
  {
    exists k :: 0 <= k < |assignments| && assignments[k].id == id
  }

  /**
   * The caller's group id as `Select(m => m.GroupId).FirstOrDefaultAsync()`
   * reads it: 0, the default, when the caller belongs to no group.
   */
  function GroupOf(members: Members, userId: int): (g: int)
    ensures userId !in members ==> g == 0
    ensures userId in members ==> g == members[userId]
  {
    if userId in members then members[userId] else 0
  }

  /**
   * `Path.GetExtension` with `/` as the only directory separator: the text
   * from the last dot of the last path segment, or "" when that segment has
   * no dot or ends in one.
   */
  function Extension(path: string): string
  {
    ExtensionBefore(path, |path|)
  }

  /** The extension as found by scanning `path[..i]` from its end. */
  function ExtensionBefore(path: string, i: nat): string
    requires i <= |path|
  {
    if i == 0 then ""
    else if path[i - 1] == '.' then (if i == |path| then "" else path[i - 1..])
    else if path[i - 1] == '/' then ""
    else ExtensionBefore(path, i - 1)
  }

  /** A non-empty extension is a suffix of the path: a dot, then at least one character that is neither a dot nor a slash. */
  lemma {:induction false} ExtensionBeforeFacts(path: string, i: nat)
    requires i <= |path|
    requires forall k :: i <= k < |path| ==> path[k] != '.' && path[k] != '/'
    ensures var e := ExtensionBefore(path, i);
      e == "" || (2 <= |e| <= |path| && e == path[|path| - |e|..] && e[0] == '.'
        && forall k :: 1 <= k < |e| ==> e[k] != '.' && e[k] != '/')
  {
    if i > 0 && path[i - 1] != '.' && path[i - 1] != '/' {
      ExtensionBeforeFacts(path, i - 1);
    }
  }

  /** `Extension` returns "" or a final dot-suffix without further dots or slashes. */
  lemma ExtensionFacts(path: string)
    ensures var e := Extension(path);
      e == "" || (2 <= |e| <= |path| && e == path[|path| - |e|..] && e[0] == '.'
        && forall k :: 1 <= k < |e| ==> e[k] != '.' && e[k] != '/')
  {
    ExtensionBeforeFacts(path, |path|);
  }

  /** The object name of an uploaded submission file: `submissions/{submissionId}/{guid}{ext}`. */
  function ObjectKey(submissionId: int, guid: string, ext: string): string
  {
    "submissions/" + IntToString(submissionId) + "/" + guid + ext
  }

  lemma NoSlashInIntToString(i: int)
    ensures forall k :: 0 <= k < |IntToString(i)| ==> IntToString(i)[k] != '/'
  {
    if i < 0 {
      assert IntToString(i)[1..] == NatToString(-i);
    }
  }

  /** Two texts that end at their first '/' and start two equal strings are equal. */
  lemma SameBeforeSlash(a: string, r1: string, b: string, r2: string)
    requires forall k :: 0 <= k < |a| ==> a[k] != '/'
    requires forall k :: 0 <= k < |b| ==> b[k] != '/'
    requires a + "/" + r1 == b + "/" + r2
    ensures a == b
  {
    var x := a + "/" + r1;
    assert x[|a|] == '/';
    assert (b + "/" + r2)[|b|] == '/';
    assert a == x[..|a|];
    assert b == x[..|b|];
  }

  /** Objects of different submissions never share a key: the key names its submission. */
  lemma ObjectKeyDeterminesSubmission(s1: int, g1: string, e1: string, s2: int, g2: string, e2: string)
    requires ObjectKey(s1, g1, e1) == ObjectKey(s2, g2, e2)
    ensures s1 == s2
  {
    var a, b := IntToString(s1), IntToString(s2);
    NoSlashInIntToString(s1);
    NoSlashInIntToString(s2);
    var k1 := ObjectKey(s1, g1, e1);
    assert k1 == "submissions/" + (a + "/" + (g1 + e1));
    assert k1 == "submissions/" + (b + "/" + (g2 + e2));
    assert k1[12..] == a + "/" + (g1 + e1) == b + "/" + (g2 + e2);
    SameBeforeSlash(a, g1 + e1, b, g2 + e2);
    IntToStringInjective(s1, s2);
  }

  /**
   * The stored file name: the request's name unless it is blank, in which
   * case the uploaded file's own name, or the link.
   */
  function StoredFileName(req: AddFileRequest): string
    requires HasFile(req) != HasLink(req)
  {
    if !Blank(req.fileName) then req.fileName.value
    else if HasFile(req) then req.file.value.fileName
    else req.externalLink.value
  }

  /** A link is never stored under a blank name. */
  lemma LinkNameNotBlank(req: AddFileRequest)
    requires HasLink(req) && !HasFile(req)
    ensures !IsBlank(StoredFileName(req))
  {
  }

  /** The row `AssignmentSubmissionFile.Create` builds. */
  function NewFile(id: int, submissionId: int, userId: int, req: AddFileRequest, uploadedUri: string): (f: FileRow)
    requires HasFile(req) != HasLink(req)
    ensures ExactlyOneTarget(f)
    ensures f.fileUri.Some? <==> HasFile(req)
  {
    FileRow(id, submissionId, userId, StoredFileName(req),
      if HasFile(req) then Some(uploadedUri) else None,
      if HasLink(req) then req.externalLink else None)
  }

  // ---------------------------------------------------------------------
  // The participant's list of assignments
  // ---------------------------------------------------------------------

  /** One entry of the participant's list. */
  datatype MyAssignmentItem = MyAssignmentItem(
    assignmentId: int,
    title: string,
    description: Option<string>,
    dueDate: Option<int>,
    submissionId: int,
    isCompleted: bool,
    completedAt: Option<int>,
    fileCount: nat)

  /** `OrderByDescending(a => a.CreateTime)`. */
  function ByCreateTimeDesc(assignments: seq<AssignmentRow>): (r: seq<AssignmentRow>)
    ensures |r| == |assignments| && multiset(r) == multiset(assignments)
    ensures forall i, j :: 0 <= i < j < |r| ==> r[i].createTime >= r[j].createTime
  {
    Sorting.SortDesc(assignments, (a: AssignmentRow) => a.createTime)
  }

  function Ids(assignments: seq<AssignmentRow>): (r: seq<int>)
    ensures |r| == |assignments|
    ensures forall k :: 0 <= k < |r| ==> r[k] == assignments[k].id
  {
    seq(|assignments|, k requires 0 <= k < |assignments| => assignments[k].id)
  }

  /**
   * `assignmentIds.Except(submissionByAssignment.Keys)`: the ids without a
   * submission of the group, each once, in the order of their first occurrence.
   */
  function MissingIds(ids: seq<int>, submissions: seq<SubmissionRow>, groupId: int): (r: seq<int>)
    ensures forall x :: x in r <==> x in ids && NoSubmission(submissions, x, groupId)
    ensures forall i, j :: 0 <= i < j < |r| ==> r[i] != r[j]
  {
    if ids == [] then []
    else
      var r := MissingIds(ids[..|ids| - 1], submissions, groupId);
      var x := ids[|ids| - 1];
      assert ids == ids[..|ids| - 1] + [x];
      if x in r || !NoSubmission(submissions, x, groupId) then r else r + [x]
  }

  /** The open submissions created for the missing ids, numbered from `firstId` in that order. */
  function Backfill(ids: seq<int>, groupId: int, firstId: int): (r: seq<SubmissionRow>)
    ensures |r| == |ids|
    ensures forall k :: 0 <= k < |r| ==> r[k] == SubmissionRow(firstId + k, ids[k], groupId, false, None)
  {
    seq(|ids|, k requires 0 <= k < |ids| => SubmissionRow(firstId + k, ids[k], groupId, false, None))
  }

  /**
   * The response projection: one item per assignment that has a submission
   * of the group, in the given order, with the submission's file count;
   * assignments without one are skipped.
   */
  function Items(assignments: seq<AssignmentRow>, submissions: seq<SubmissionRow>, groupId: int, files: seq<FileRow>): (r: seq<MyAssignmentItem>)
    ensures |r| <= |assignments|
  {
    if assignments == [] then []
    else
      var a := assignments[0];
      match FindSubmission(submissions, a.id, groupId)
      case None => Items(assignments[1..], submissions, groupId, files)
      case Some(s) =>
        [MyAssignmentItem(a.id, a.title, a.description, a.dueDate, s.id, s.isCompleted, s.completedAt, FileCount(files, s.id))]
        + Items(assignments[1..], submissions, groupId, files)
  }

  /** When every assignment has a submission, no item is skipped: item k is about assignment k and its submission. */
  lemma {:induction false} ItemsComplete(assignments: seq<AssignmentRow>, submissions: seq<SubmissionRow>, groupId: int, files: seq<FileRow>)
    requires forall k :: 0 <= k < |assignments| ==> FindSubmission(submissions, assignments[k].id, groupId).Some?
    ensures var r := Items(assignments, submissions, groupId, files);
      && |r| == |assignments|
      && forall k :: 0 <= k < |r| ==>
        var s := FindSubmission(submissions, assignments[k].id, groupId).value;
        r[k].assignmentId == assignments[k].id && r[k].submissionId == s.id && r[k].fileCount == FileCount(files, s.id)
  {
    if assignments != [] {
      ItemsComplete(assignments[1..], submissions, groupId, files);
    }
  }

  /** After the backfill every listed assignment has a submission of the group. */
  lemma BackfillCoversAll(assignments: seq<AssignmentRow>, submissions: seq<SubmissionRow>, groupId: int, firstId: int)
    ensures var after := submissions + Backfill(MissingIds(Ids(assignments), submissions, groupId), groupId, firstId);
      forall k :: 0 <= k < |assignments| ==> FindSubmission(after, assignments[k].id, groupId).Some?
  {
    var missing := MissingIds(Ids(assignments), submissions, groupId);
    var added := Backfill(missing, groupId, firstId);
    var after := submissions + added;
    forall k | 0 <= k < |assignments|
      ensures FindSubmission(after, assignments[k].id, groupId).Some?
    {
      var id := assignments[k].id;
      assert Ids(assignments)[k] == id;
      if NoSubmission(submissions, id, groupId) {
        var j :| 0 <= j < |missing| && missing[j] == id;
        assert after[|submissions| + j] == added[j];
      } else {
        var j :| 0 <= j < |submissions| && submissions[j].assignmentId == id && submissions[j].groupId == groupId;
        assert after[j] == submissions[j];
      }
    }
  }

  // ---------------------------------------------------------------------
  // The store
  // ---------------------------------------------------------------------

  datatype DeleteError = NotFound | CannotDelete

  /** Some submission of the assignment is completed or has a file. */
  predicate AssignmentBlocked(submissions: seq<SubmissionRow>, files: seq<FileRow>, id: int)
  {
    exists k :: 0 <= k < |submissions| && submissions[k].assignmentId == id && Blocking(submissions[k], files)
  }

  /** The assignments without the one with a given id. */
  function WithoutAssignment(assignments: seq<AssignmentRow>, id: int): (r: seq<AssignmentRow>)
    ensures forall a :: a in r <==> a in assignments && a.id != id
  {
    if assignments == [] then []
    else (if assignments[0].id == id then [] else [assignments[0]]) + WithoutAssignment(assignments[1..], id)
  }

  /** The `assignments`, `assignment_submissions` and `assignment_submission_files` tables. */
  class AssignmentStore {
    var assignments: seq<AssignmentRow>
    var submissions: seq<SubmissionRow>
    var files: seq<FileRow>
    var nextSubmissionId: int
    var nextFileId: int

    predicate Valid()
      reads this
    {
      && OneSubmissionPerPair(submissions)
      && CompletionsConsistent(submissions)
      && (forall k :: 0 <= k < |submissions| ==> submissions[k].id < nextSubmissionId)
      && (forall k :: 0 <= k < |files| ==> files[k].id < nextFileId && ExactlyOneTarget(files[k]))
    }

    constructor (assignments: seq<AssignmentRow>)
      ensures Valid()
      ensures this.assignments == assignments && submissions == [] && files == []
    {
      this.assignments := assignments;
      submissions := [];
      files := [];
      nextSubmissionId := 1;
      nextFileId := 1;
    }

    /**
     * `AddSubmissionFileEndpoint`: exactly one of a non-empty file and a
     * non-blank link is required; the assignment must exist; the caller must
     * be in a group.  The group's submission for the assignment is created
     * when it has none, and the file row is added to it.  `objectKey` is the
     * name the file is uploaded under, when there is a file.
     */
    method AddSubmissionFile(members: Members, userId: int, req: AddFileRequest, guid: string, uploadedUri: string)
      returns (r: Result<FileRow, AddFileError>, objectKey: Option<string>)
      requires Valid()
      modifies this
      ensures Valid()
      ensures assignments == old(assignments)
      ensures r == Err(ExactlyOne) <==> HasFile(req) == HasLink(req)
      ensures r == Err(AssignmentNotFound) <==> HasFile(req) != HasLink(req) && !HasAssignment(old(assignments), req.assignmentId)
      ensures r == Err(Forbidden) <==>
        HasFile(req) != HasLink(req) && HasAssignment(old(assignments), req.assignmentId) && GroupOf(members, userId) == 0
      ensures r.Err? ==> submissions == old(submissions) && files == old(files) && objectKey == None
      ensures r.Ok? ==>
        var g := GroupOf(members, userId);
        var existing := FindSubmission(old(submissions), req.assignmentId, g);
        var sid := if existing.Some? then existing.value.id else old(nextSubmissionId);
        && (existing.Some? ==> submissions == old(submissions))
        && (existing.None? ==> submissions == old(submissions) + [SubmissionRow(sid, req.assignmentId, g, false, None)])
        && FindSubmission(submissions, req.assignmentId, g).Some?
        && FindSubmission(submissions, req.assignmentId, g).value.id == sid
        && r.value == NewFile(old(nextFileId), sid, userId, req, uploadedUri)
        && files == old(files) + [r.value]
        && objectKey == (if HasFile(req) then Some(ObjectKey(sid, guid, Extension(req.file.value.fileName))) else None)
    {
      objectKey := None;
      if HasFile(req) == HasLink(req) {
        return Err(ExactlyOne), objectKey;
      }
      if !exists k :: 0 <= k < |assignments| && assignments[k].id == req.assignmentId {
        return Err(AssignmentNotFound), objectKey;
      }
      var groupId := GroupOf(members, userId);
      if groupId == 0 {
        return Err(Forbidden), objectKey;
      }
      var file;
      file, objectKey := AttachFile(userId, groupId, req, guid, uploadedUri);
      r := Ok(file);
    }

    /** The accepted path of `AddSubmissionFile`: the group's submission is found or opened, and the file row added to it. */
    method AttachFile(userId: int, groupId: int, req: AddFileRequest, guid: string, uploadedUri: string)
      returns (file: FileRow, objectKey: Option<string>)
      requires Valid() && HasFile(req) != HasLink(req)
      modifies this
      ensures Valid()
      ensures assignments == old(assignments)
      ensures var existing := FindSubmission(old(submissions), req.assignmentId, groupId);
        var sid := if existing.Some? then existing.value.id else old(nextSubmissionId);
        && (existing.Some? ==> submissions == old(submissions))
        && (existing.None? ==> submissions == old(submissions) + [SubmissionRow(sid, req.assignmentId, groupId, false, None)])
        && FindSubmission(submissions, req.assignmentId, groupId).Some?
        && FindSubmission(submissions, req.assignmentId, groupId).value.id == sid
        && file == NewFile(old(nextFileId), sid, userId, req, uploadedUri)
        && files == old(files) + [file]
        && objectKey == (if HasFile(req) then Some(ObjectKey(sid, guid, Extension(req.file.value.fileName))) else None)
    {
      var sid := SubmissionFor(req.assignmentId, groupId);
      objectKey := None;
      if HasFile(req) {
        objectKey := Some(ObjectKey(sid, guid, Extension(req.file.value.fileName)));
      }
      file := NewFile(nextFileId, sid, userId, req, uploadedUri);
      files := files + [file];
      nextFileId := nextFileId + 1;
    }

    /**
     * The id of the group's submission for the assignment, creating an open
     * one first when the group has none.
     */
    method SubmissionFor(assignmentId: int, groupId: int) returns (sid: int)
      requires Valid()
      modifies this
      ensures Valid()
      ensures assignments == old(assignments) && files == old(files) && nextFileId == old(nextFileId)
      ensures var existing := FindSubmission(old(submissions), assignmentId, groupId);
        && (existing.Some? ==> sid == existing.value.id && submissions == old(submissions) && nextSubmissionId == old(nextSubmissionId))
        && (existing.None? ==>
              && sid == old(nextSubmissionId) && nextSubmissionId == old(nextSubmissionId) + 1
              && submissions == old(submissions) + [SubmissionRow(sid, assignmentId, groupId, false, None)])
      ensures FindSubmission(submissions, assignmentId, groupId).Some?
      ensures FindSubmission(submissions, assignmentId, groupId).value.id == sid
    {
      var found := FindSubmission(submissions, assignmentId, groupId);
      if found.None? {
        var s := new AssignmentSubmission.Create(assignmentId, groupId);
        sid := nextSubmissionId;
        FindSubmissionAppend(submissions, s.Row(sid));
        AppendKeepsOnePerPair(submissions, s.Row(sid));
        submissions := submissions + [s.Row(sid)];
        nextSubmissionId := nextSubmissionId + 1;
      } else {
        sid := found.value.id;
      }
    }

    /**
     * `GetMyAssignmentsEndpoint`: for a caller in a group, creates an open
     * submission for every assignment the group has none for, then lists the
     * assignments newest first with their submissions.  A caller in no group,
     * or a store without assignments, gets an empty list and nothing changes.
     */
    method GetMyAssignments(members: Members, userId: int) returns (items: seq<MyAssignmentItem>)
      requires Valid()
      modifies this
      ensures Valid()
      ensures assignments == old(assignments) && files == old(files) && nextFileId == old(nextFileId)
      ensures userId !in members || old(assignments) == [] ==>
        items == [] && submissions == old(submissions) && nextSubmissionId == old(nextSubmissionId)
      ensures userId in members && old(assignments) != [] ==>
        var g := members[userId];
        var ordered := ByCreateTimeDesc(old(assignments));
        var missing := MissingIds(Ids(ordered), old(submissions), g);
        && submissions == old(submissions) + Backfill(missing, g, old(nextSubmissionId))
        && nextSubmissionId == old(nextSubmissionId) + |missing|
        && items == Items(ordered, submissions, g, files)
        && |items| == |old(assignments)|
    {
      if userId !in members || assignments == [] {
        return [];
      }
      var groupId := members[userId];
      var ordered := ByCreateTimeDesc(assignments);
      var missing := MissingIds(Ids(ordered), submissions, groupId);
      BackfillCoversAll(ordered, submissions, groupId, nextSubmissionId);
      AddSubmissions(missing, groupId);
      ItemsComplete(ordered, submissions, groupId, files);
      items := Items(ordered, submissions, groupId, files);
    }

    /** `AddRangeAsync(newSubmissions)`: one open submission of the group per id, in order. */
    method AddSubmissions(ids: seq<int>, groupId: int)
      requires Valid()
      requires forall i, j :: 0 <= i < j < |ids| ==> ids[i] != ids[j]
      requires forall j :: 0 <= j < |ids| ==> NoSubmission(submissions, ids[j], groupId)
      modifies this
      ensures Valid()
      ensures submissions == old(submissions) + Backfill(ids, groupId, old(nextSubmissionId))
      ensures nextSubmissionId == old(nextSubmissionId) + |ids|
      ensures assignments == old(assignments) && files == old(files) && nextFileId == old(nextFileId)
    {
      var i := 0;
      while i < |ids|
        invariant 0 <= i <= |ids|
        invariant submissions == old(submissions) + Backfill(ids[..i], groupId, old(nextSubmissionId))
        invariant nextSubmissionId == old(nextSubmissionId) + i
        invariant Valid()
        invariant forall j :: i <= j < |ids| ==> NoSubmission(submissions, ids[j], groupId)
        invariant assignments == old(assignments) && files == old(files) && nextFileId == old(nextFileId)
      {
        var s := new AssignmentSubmission.Create(ids[i], groupId);
        var row := s.Row(nextSubmissionId);
        AppendKeepsOnePerPair(submissions, row);
        assert Backfill(ids[..i + 1], groupId, old(nextSubmissionId)) == Backfill(ids[..i], groupId, old(nextSubmissionId)) + [row];
        submissions := submissions + [row];
        nextSubmissionId := nextSubmissionId + 1;
        i := i + 1;
      }
      assert ids[..i] == ids;
    }

    /**
     * `DeleteAssignmentEndpoint`: an unknown id is not found; an assignment
     * with a completed or file-carrying submission is kept; otherwise the
     * assignment goes and its submissions with it.  None of those submissions
     * has a file, so the file table is untouched.
     */
    method DeleteAssignment(id: int) returns (r: Result<(), DeleteError>)
      requires Valid()
      modifies this
      ensures Valid()
      ensures r == Err(NotFound) <==> !HasAssignment(old(assignments), id)
      ensures r == Err(CannotDelete) <==> HasAssignment(old(assignments), id) && AssignmentBlocked(old(submissions), old(files), id)
      ensures r.Err? ==> assignments == old(assignments) && submissions == old(submissions)
      ensures r.Ok? ==> assignments == WithoutAssignment(old(assignments), id)
      ensures r.Ok? ==> submissions == SubmissionsExcept(old(submissions), (s: SubmissionRow) => s.assignmentId == id)
      ensures r.Ok? ==> forall k, j :: 0 <= k < |files| && 0 <= j < |old(submissions)| && old(submissions)[j].assignmentId == id ==>
        files[k].submissionId != old(submissions)[j].id
      ensures files == old(files) && nextSubmissionId == old(nextSubmissionId) && nextFileId == old(nextFileId)
    {
      if !exists k :: 0 <= k < |assignments| && assignments[k].id == id {
        return Err(NotFound);
      }
      if exists k :: 0 <= k < |submissions| && submissions[k].assignmentId == id && Blocking(submissions[k], files) {
        return Err(CannotDelete);
      }
      var kept := SubmissionsExcept(submissions, (s: SubmissionRow) => s.assignmentId == id);
      SubmissionsExceptKeepsInvariant(submissions, (s: SubmissionRow) => s.assignmentId == id, nextSubmissionId);
      forall k, j | 0 <= k < |files| && 0 <= j < |submissions| && submissions[j].assignmentId == id
        ensures files[k].submissionId != submissions[j].id
      {
        assert !Blocking(submissions[j], files);
      }
      assignments := WithoutAssignment(assignments, id);
      submissions := kept;
      r := Ok(());
    }
  }
}
