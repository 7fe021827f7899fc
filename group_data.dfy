/**
 * Rows of the groups and assignments features: groups and their members,
 * assignments, the submission of each (assignment, group) pair and the
 * files attached to a submission; plus the lookups the endpoints share.
 */
module GroupData {
  import opened Common

  /** A row of `groups`. */
  datatype GroupRow = GroupRow(id: int, name: string)

  /**
   * The `group_members` table.  Its unique index on the user id makes it a
   * map from each member to the one group the member is in.
   */
  type Members = map<int, int>

  /** One membership, as a conflict report names it. */
  datatype Membership = Membership(userId: int, groupId: int)

  /** The users in a group. */
  function MembersOf(members: Members, groupId: int): set<int>
  {
    set u | u in members && members[u] == groupId
  }

  /** `RemoveRange` of the members of the given groups. */
  function WithoutGroups(members: Members, groupIds: set<int>): (r: Members)
    ensures forall u :: u in r <==> u in members && members[u] !in groupIds
    ensures forall u :: u in r ==> r[u] == members[u]
  {
    map u | u in members && members[u] !in groupIds :: members[u]
  }

  /** A row of `assignments`; times are instants in seconds. */
  datatype AssignmentRow = AssignmentRow(id: int, title: string, description: Option<string>, dueDate: Option<int>, createTime: int)

  /** A row of `assignment_submissions`. */
  datatype SubmissionRow = SubmissionRow(id: int, assignmentId: int, groupId: int, isCompleted: bool, completedAt: Option<int>)

  /** A row of `assignment_submission_files`: an uploaded object or an external link. */
  datatype FileRow = FileRow(
    id: int,
    submissionId: int,
    uploadedBy: int,
    fileName: string,
    fileUri: Option<string>,
    externalLink: Option<string>)

  /** The rule the add-file endpoint keeps: exactly one of the object URI and the link is present. */
  predicate ExactlyOneTarget(f: FileRow)
  {
    f.fileUri.Some? != f.externalLink.Some?
  }

  /** `s.Files.Count`: the number of files attached to a submission. */
  function FileCount(files: seq<FileRow>, submissionId: int): (n: nat)
    ensures n <= |files|
    ensures n == 0 <==> forall k :: 0 <= k < |files| ==> files[k].submissionId != submissionId
  {
    if files == [] then 0
    else (if files[0].submissionId == submissionId then 1 else 0) + FileCount(files[1..], submissionId)
  }

  /** A submission that blocks deleting its assignment or its group: completed, or with a file. */
  predicate Blocking(s: SubmissionRow, files: seq<FileRow>)
  {
    s.isCompleted || FileCount(files, s.id) > 0
  }

  /** `FirstOrDefault(s => s.AssignmentId == assignmentId && s.GroupId == groupId)`. */
  function FindSubmission(submissions: seq<SubmissionRow>, assignmentId: int, groupId: int): (r: Option<SubmissionRow>)
    ensures r.Some? ==> r.value in submissions && r.value.assignmentId == assignmentId && r.value.groupId == groupId
    ensures r.None? <==> forall k :: 0 <= k < |submissions| ==>
      submissions[k].assignmentId != assignmentId || submissions[k].groupId != groupId
  {
    if submissions == [] then None
    else if submissions[0].assignmentId == assignmentId && submissions[0].groupId == groupId then Some(submissions[0])
    else FindSubmission(submissions[1..], assignmentId, groupId)
  }

  /** No submission exists yet for an (assignment, group) pair. */
  predicate NoSubmission(submissions: seq<SubmissionRow>, assignmentId: int, groupId: int)
  {
    forall k :: 0 <= k < |submissions| ==>
      submissions[k].assignmentId != assignmentId || submissions[k].groupId != groupId
  }

  /** A submission appended after ones of other pairs is the one the lookup finds. */
  lemma {:induction false} FindSubmissionAppend(submissions: seq<SubmissionRow>, s: SubmissionRow)
    requires NoSubmission(submissions, s.assignmentId, s.groupId)
    ensures FindSubmission(submissions + [s], s.assignmentId, s.groupId) == Some(s)
  {
    if submissions != [] {
      assert (submissions + [s])[1..] == submissions[1..] + [s];
      FindSubmissionAppend(submissions[1..], s);
    }
  }

  /** The unique index on (assignment, group): one submission per pair. */
  predicate OneSubmissionPerPair(submissions: seq<SubmissionRow>)
  {
    forall i, j :: 0 <= i < j < |submissions| ==>
      submissions[i].assignmentId != submissions[j].assignmentId || submissions[i].groupId != submissions[j].groupId
  }

  /** The submissions `drop` does not select, in their order (`RemoveRange` of the others). */
  function SubmissionsExcept(submissions: seq<SubmissionRow>, drop: SubmissionRow -> bool): (r: seq<SubmissionRow>)
    ensures forall s :: s in r <==> s in submissions && !drop(s)
    ensures |r| <= |submissions|
  {
    if submissions == [] then []
    else (if drop(submissions[0]) then [] else [submissions[0]]) + SubmissionsExcept(submissions[1..], drop)
  }

  /** Removing submissions keeps the remaining ones unique per pair. */
  lemma {:induction false} SubmissionsExceptKeepsOnePerPair(submissions: seq<SubmissionRow>, drop: SubmissionRow -> bool)
    requires OneSubmissionPerPair(submissions)
    ensures OneSubmissionPerPair(SubmissionsExcept(submissions, drop))
  {
    if submissions != [] {
      var rest := SubmissionsExcept(submissions[1..], drop);
      SubmissionsExceptKeepsOnePerPair(submissions[1..], drop);
      if !drop(submissions[0]) {
        var r := [submissions[0]] + rest;
        forall i, j | 0 <= i < j < |r|
          ensures r[i].assignmentId != r[j].assignmentId || r[i].groupId != r[j].groupId
        {
          if i == 0 {
            assert r[j] == rest[j - 1] && rest[j - 1] in submissions[1..];
            var k :| 0 <= k < |submissions[1..]| && submissions[1..][k] == r[j];
            assert submissions[k + 1] == r[j];
          }
        }
      }
    }
  }
}
