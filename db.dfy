/**
 * Task records and their reconciliation against Swarming task results
 * (Task.UpdateFromSwarming, UpdateDBFromSwarmingTask, TaskSlice), as the
 * tests in task_scheduler/go/db/task_test.go pin them down.
 *
 * Instants are integers (nanoseconds since the Unix epoch); ZeroTime is Go's
 * zero time.Time, the value of every timestamp field of an empty Task.
 */
module Db {
  import opened Wrappers
  import opened Text
  import Sort

  const ZeroTime: int := -62135596800 * 1000000000

  datatype Patch = Patch(Server: string, Issue: string, Patchset: string)

  datatype RepoState = RepoState(Patch: Patch, Repo: string, Revision: string)

  datatype TaskKey = TaskKey(RepoState: RepoState, Name: string, ForcedJobId: string)

  const NoPatch := Patch("", "", "")

  /** Pending is the zero value of the status string. */
  datatype TaskStatus = Pending | Running | Success | Failure | Mishap

  /** The value of a Task: every field the tests compare with deep equality. */
  datatype TaskRecord = TaskRecord(
    Key: TaskKey,
    Id: string,
    Created: int,
    Started: int,
    Finished: int,
    DbModified: int,
    Commits: seq<string>,
    Status: TaskStatus,
    SwarmingTaskId: string,
    IsolatedOutput: string,
    SwarmingBotId: string,
    ParentTaskIds: seq<string>,
    RetryOf: string)
  {
    predicate Done() {
      Status == Success || Status == Failure || Status == Mishap
    }

    predicate Succeeded() {
      Status == Success
    }
  }

  /** &Task{}: every field at its zero value. */
  const EmptyTask := TaskRecord(TaskKey(RepoState(NoPatch, "", ""), "", ""), "",
                                ZeroTime, ZeroTime, ZeroTime, ZeroTime, [], Pending,
                                "", "", "", [], "")

  // ---------------------------------------------------------------------------
  // Swarming task results

  /** A timestamp field of a task result: empty, readable in Swarming's format, or not. */
  datatype Timestamp = Absent | Parsed(instant: int) | Malformed(text: string)

  datatype SwarmingState =
    | StatePending | StateRunning | StateCompleted
    | StateBotDied | StateCanceled | StateExpired | StateTimedOut
    | StateOther(name: string)
  {
    /** The states in which Swarming gave up on the task: it never ran to completion. */
    predicate Lost() {
      StateBotDied? || StateCanceled? || StateExpired? || StateTimedOut?
    }
  }

  /** SwarmingRpcsTaskResult, reduced to the fields the reconciliation reads (plus ModifiedTs, which it ignores). */
  datatype TaskResult = TaskResult(
    TaskId: string,
    CreatedTs: Timestamp,
    StartedTs: Timestamp,
    CompletedTs: Timestamp,
    AbandonedTs: Timestamp,
    ModifiedTs: Timestamp,
    State: SwarmingState,
    Failure: bool,
    OutputsRef: Option<string>,
    BotId: string,
    Tags: seq<string>)

  /**
   * Tag keys written by the scheduler. Their concrete spellings live in
   * db/task.go, which is not part of this model; any distinct strings without
   * a colon behave the same.
   */
  const TagId := "sk_id"
  const TagName := "sk_name"
  const TagRepo := "sk_repo"
  const TagRevision := "sk_revision"
  const TagServer := "sk_issue_server"
  const TagIssue := "sk_issue"
  const TagPatchset := "sk_patchset"
  const TagForcedJobId := "sk_forced_job_id"
  const TagParentTaskId := "sk_parent_task_id"

  datatype UpdateError =
    | MissingTaskResult                 // "Missing TaskResult"
    | InvalidTag(tag: string)           // "Invalid Swarming task tag"
    | MultipleTagValues(key: string)    // an identity tag given twice
    | Mismatch(field: IdField)           // "<field> does not match"
    | UnparseableCreated                // "Unable to parse task creation time"
    | CreationTimeChanged               // "Creation time has changed"
    | SwarmingTaskIdMismatch            // "Swarming task ID does not match"
    | UnknownState(name: string)        // a Swarming state the scheduler does not know
    | Unparseable(time: TimeField)        // "Unable to parse <field>"

  /** The identity fields, as named in a mismatch error. */
  datatype IdField =
    | FieldId | FieldName | FieldRepo | FieldRevision | FieldServer | FieldIssue | FieldPatchset
    | FieldForcedJobId | FieldParentTaskIds

  /** Splits every tag at its first colon; the first tag without one is an error. */
  function ParseTags(tags: seq<string>): (r: Result<seq<(string, string)>, UpdateError>)
    ensures r.Ok? <==> forall i | 0 <= i < |tags| :: ':' in tags[i]
    ensures r.Ok? ==>
              && |r.value| == |tags|
              && forall i | 0 <= i < |tags| :: r.value[i].0 + ":" + r.value[i].1 == tags[i] && ':' !in r.value[i].0
    ensures r.Err? ==> exists i | 0 <= i < |tags| :: r.error == InvalidTag(tags[i]) && ':' !in tags[i]
  {
    if tags == [] then Ok([])
    else if ':' !in tags[0] then Err(InvalidTag(tags[0]))
    else
      var rest :- ParseTags(tags[1..]);
      Ok([Cut(tags[0], ':')] + rest)
  }

  /** The values of every tag with the given key, in tag order. */
  function TagValues(pairs: seq<(string, string)>, key: string): (vs: seq<string>)
    ensures forall v | v in vs :: (key, v) in pairs
    ensures forall i | 0 <= i < |pairs| && pairs[i].0 == key :: pairs[i].1 in vs
  {
    if pairs == [] then []
    else (if pairs[0].0 == key then [pairs[0].1] else []) + TagValues(pairs[1..], key)
  }

  /** The values of a concatenation are those of each part, in order. */
  lemma {:induction false} TagValuesAppend(a: seq<(string, string)>, b: seq<(string, string)>, key: string)
    ensures TagValues(a + b, key) == TagValues(a, key) + TagValues(b, key)
  {
    if a == [] {
      assert a + b == b;
    } else {
      assert (a + b)[1..] == a[1..] + b;
      TagValuesAppend(a[1..], b, key);
    }
  }

  /** A single tag contributes its value exactly when its key matches. */
  lemma TagValuesSingle(k: string, v: string, key: string)
    ensures TagValues([(k, v)], key) == if k == key then [v] else []
  {
    assert [(k, v)][1..] == [];
  }

  /** An identity field: taken from its tag when unset, otherwise it must equal the tag. */
  function CheckOrSet(field: string, pairs: seq<(string, string)>, key: string, name: IdField): Result<string, UpdateError>
  {
    var vs := TagValues(pairs, key);
    if |vs| == 0 then Ok(field)
    else if |vs| > 1 then Err(MultipleTagValues(key))
    else if field == "" then Ok(vs[0])
    else if field == vs[0] then Ok(field)
    else Err(Mismatch(name))
  }

  /** The parent task ids: taken from the tags when unset, otherwise they must equal them. */
  function CheckOrSetParents(field: seq<string>, pairs: seq<(string, string)>): Result<seq<string>, UpdateError>
  {
    var vs := TagValues(pairs, TagParentTaskId);
    if |vs| == 0 || field == vs then Ok(field)
    else if field == [] then Ok(vs)
    else Err(Mismatch(FieldParentTaskIds))
  }

  function CheckCreated(created: int, ts: Timestamp): Result<int, UpdateError>
  {
    match ts
    case Parsed(c) =>
      if created == ZeroTime then Ok(c)
      else if created == c then Ok(created)
      else Err(CreationTimeChanged)
    case _ => Err(UnparseableCreated)
  }

  function CheckSwarmingId(current: string, reported: string): Result<string, UpdateError>
  {
    if current == "" then Ok(reported)
    else if current == reported then Ok(current)
    else Err(SwarmingTaskIdMismatch)
  }

  /** How a Swarming state (and the failure flag) maps onto a task status. */
  function StatusFor(state: SwarmingState, failure: bool): Result<TaskStatus, UpdateError>
  {
    match state
    case StatePending => Ok(Pending)
    case StateRunning => Ok(Running)
    case StateBotDied => Ok(Mishap)
    case StateCanceled => Ok(Mishap)
    case StateExpired => Ok(Mishap)
    case StateTimedOut => Ok(Mishap)
    case StateCompleted => if failure then Ok(Failure) else Ok(Success)
    case StateOther(name) => Err(UnknownState(name))
  }

  datatype TimeField = StartedTs | CompletedTs | AbandonedTs

  /** An empty timestamp keeps the field; a readable one replaces it. */
  function MaybeUpdateTime(ts: Timestamp, current: int, field: TimeField): Result<int, UpdateError>
  {
    match ts
    case Absent => Ok(current)
    case Parsed(t) => Ok(t)
    case Malformed(_) => Err(Unparseable(field))
  }

  /**
   * The record UpdateFromSwarming leaves in the task, or the error it
   * returns. The checks run in order (tags, identity, creation time, Swarming
   * id, state, timestamps); the first failing one wins and the task is then
   * left as it was.
   */
  function Reconcile(t: TaskRecord, report: Option<TaskResult>): Result<TaskRecord, UpdateError>
  {
    if report.None? then Err(MissingTaskResult)
    else
      var pairs :- ParseTags(report.value.Tags);
      var t1 :- CheckIdentity(t, pairs);
      ApplyRun(t1, report.value)
  }

  /** The patch fields, in the order server, issue, patchset; a field already set is kept. */
  function CheckPatch(p: Patch, pairs: seq<(string, string)>): (r: Result<Patch, UpdateError>)
    ensures r.Ok? ==>
      && (p.Server != "" ==> r.value.Server == p.Server)
      && (p.Issue != "" ==> r.value.Issue == p.Issue)
      && (p.Patchset != "" ==> r.value.Patchset == p.Patchset)
  {
    CheckOrSetKeeps();
    var server :- CheckOrSet(p.Server, pairs, TagServer, FieldServer);
    var issue :- CheckOrSet(p.Issue, pairs, TagIssue, FieldIssue);
    var patchset :- CheckOrSet(p.Patchset, pairs, TagPatchset, FieldPatchset);
    Ok(Patch(server, issue, patchset))
  }

  /** The repo, the revision, then the patch; a field already set is kept. */
  function CheckRepoState(rs: RepoState, pairs: seq<(string, string)>): (r: Result<RepoState, UpdateError>)
    ensures r.Ok? ==>
      && (rs.Repo != "" ==> r.value.Repo == rs.Repo)
      && (rs.Revision != "" ==> r.value.Revision == rs.Revision)
      && (rs.Patch.Server != "" ==> r.value.Patch.Server == rs.Patch.Server)
      && (rs.Patch.Issue != "" ==> r.value.Patch.Issue == rs.Patch.Issue)
      && (rs.Patch.Patchset != "" ==> r.value.Patch.Patchset == rs.Patch.Patchset)
  {
    CheckOrSetKeeps();
    var repo :- CheckOrSet(rs.Repo, pairs, TagRepo, FieldRepo);
    var revision :- CheckOrSet(rs.Revision, pairs, TagRevision, FieldRevision);
    var patch :- CheckPatch(rs.Patch, pairs);
    Ok(RepoState(patch, repo, revision))
  }

  /** The name, the repo state, then the forced job id; a field already set is kept. */
  function CheckKey(k: TaskKey, pairs: seq<(string, string)>): (r: Result<TaskKey, UpdateError>)
    ensures r.Ok? ==>
      && (k.Name != "" ==> r.value.Name == k.Name)
      && (k.RepoState.Repo != "" ==> r.value.RepoState.Repo == k.RepoState.Repo)
      && (k.RepoState.Revision != "" ==> r.value.RepoState.Revision == k.RepoState.Revision)
      && (k.RepoState.Patch.Server != "" ==> r.value.RepoState.Patch.Server == k.RepoState.Patch.Server)
      && (k.RepoState.Patch.Issue != "" ==> r.value.RepoState.Patch.Issue == k.RepoState.Patch.Issue)
      && (k.RepoState.Patch.Patchset != "" ==> r.value.RepoState.Patch.Patchset == k.RepoState.Patch.Patchset)
      && (k.ForcedJobId != "" ==> r.value.ForcedJobId == k.ForcedJobId)
  {
    CheckOrSetKeeps();
    var name :- CheckOrSet(k.Name, pairs, TagName, FieldName);
    var rs :- CheckRepoState(k.RepoState, pairs);
    var forced :- CheckOrSet(k.ForcedJobId, pairs, TagForcedJobId, FieldForcedJobId);
    Ok(TaskKey(rs, name, forced))
  }

  /**
   * The identity fields, each checked against (or taken from) its tag, in the
   * order id, name, repo, revision, server, issue, patchset, forced job id,
   * parent ids.
   */
  function CheckIdentity(t: TaskRecord, pairs: seq<(string, string)>): (r: Result<TaskRecord, UpdateError>)
    ensures r.Ok? ==> r.value == t.(Key := r.value.Key, Id := r.value.Id, ParentTaskIds := r.value.ParentTaskIds)
  {
    var id :- CheckOrSet(t.Id, pairs, TagId, FieldId);
    var key :- CheckKey(t.Key, pairs);
    var parents :- CheckOrSetParents(t.ParentTaskIds, pairs);
    Ok(t.(Key := key, Id := id, ParentTaskIds := parents))
  }

  /** True when two records have the same identity fields. */
  predicate SameIdentity(a: TaskRecord, b: TaskRecord) {
    a.Key == b.Key && a.Id == b.Id && a.ParentTaskIds == b.ParentTaskIds
  }

  /** The run-state fields: creation time, Swarming id, status, timestamps, output and bot. */
  function ApplyRun(t: TaskRecord, s: TaskResult): (r: Result<TaskRecord, UpdateError>)
    ensures r.Ok? ==>
              && SameIdentity(r.value, t) && r.value.Commits == t.Commits
              && r.value.DbModified == t.DbModified && r.value.RetryOf == t.RetryOf
  {
    var created :- CheckCreated(t.Created, s.CreatedTs);
    var swarmingId :- CheckSwarmingId(t.SwarmingTaskId, s.TaskId);
    var status :- StatusFor(s.State, s.Failure);
    var started :- MaybeUpdateTime(s.StartedTs, t.Started, TimeField.StartedTs);
    var completed :- MaybeUpdateTime(s.CompletedTs, t.Finished, TimeField.CompletedTs);
    var finished :- if s.CompletedTs.Absent? && status == Mishap
                    then MaybeUpdateTime(s.AbandonedTs, completed, TimeField.AbandonedTs)
                    else Ok(completed);
    Ok(t.(Created := created,
          SwarmingTaskId := swarmingId,
          Status := status,
          Started := started,
          Finished := finished,
          IsolatedOutput := if s.OutputsRef.Some? then s.OutputsRef.value else "",
          SwarmingBotId := s.BotId))
  }

  /** A Task object: a record whose fields UpdateFromSwarming rewrites in place. */
  class Task {
    var Key: TaskKey
    var Id: string
    var Created: int
    var Started: int
    var Finished: int
    var DbModified: int
    var Commits: seq<string>
    var Status: TaskStatus
    var SwarmingTaskId: string
    var IsolatedOutput: string
    var SwarmingBotId: string
    var ParentTaskIds: seq<string>
    var RetryOf: string

    function Value(): TaskRecord
      reads this
    {
      TaskRecord(Key, Id, Created, Started, Finished, DbModified, Commits, Status,
                 SwarmingTaskId, IsolatedOutput, SwarmingBotId, ParentTaskIds, RetryOf)
    }

    constructor FromRecord(r: TaskRecord)
      ensures Value() == r
    {
      Key, Id, Created, Started, Finished, DbModified := r.Key, r.Id, r.Created, r.Started, r.Finished, r.DbModified;
      Commits, Status, SwarmingTaskId, IsolatedOutput := r.Commits, r.Status, r.SwarmingTaskId, r.IsolatedOutput;
      SwarmingBotId, ParentTaskIds, RetryOf := r.SwarmingBotId, r.ParentTaskIds, r.RetryOf;
    }

    /** *orig = *copy, one group of fields at a time. */
    method Assign(r: TaskRecord)
      modifies this
      ensures Value() == r
    {
      AssignIdentity(r);
      AssignRun(r);
      AssignSwarming(r);
      AssignLineage(r);
    }

    /** The key, id, creation time and blamelist. */
    method AssignIdentity(r: TaskRecord)
      modifies this`Key, this`Id, this`Created, this`Commits
      ensures Key == r.Key && Id == r.Id && Created == r.Created && Commits == r.Commits
    {
      Key, Id, Created, Commits := r.Key, r.Id, r.Created, r.Commits;
    }

    /** The run's timestamps and status. */
    method AssignRun(r: TaskRecord)
      modifies this`Started, this`Finished, this`DbModified, this`Status
      ensures Started == r.Started && Finished == r.Finished && DbModified == r.DbModified && Status == r.Status
    {
      Started, Finished, DbModified, Status := r.Started, r.Finished, r.DbModified, r.Status;
    }

    /** What Swarming reported about the run. */
    method AssignSwarming(r: TaskRecord)
      modifies this`SwarmingTaskId, this`IsolatedOutput, this`SwarmingBotId
      ensures SwarmingTaskId == r.SwarmingTaskId && IsolatedOutput == r.IsolatedOutput
      ensures SwarmingBotId == r.SwarmingBotId
    {
      SwarmingTaskId, IsolatedOutput, SwarmingBotId := r.SwarmingTaskId, r.IsolatedOutput, r.SwarmingBotId;
    }

    /** The parent tasks and the task this one retries. */
    method AssignLineage(r: TaskRecord)
      modifies this`ParentTaskIds, this`RetryOf
      ensures ParentTaskIds == r.ParentTaskIds && RetryOf == r.RetryOf
    {
      ParentTaskIds, RetryOf := r.ParentTaskIds, r.RetryOf;
    }

    /**
     * Updates the task from a Swarming result. On an error the task is left
     * exactly as it was and changed is false; otherwise changed says whether
     * any field now differs from before.
     */
    method UpdateFromSwarming(s: Option<TaskResult>) returns (changed: bool, err: Option<UpdateError>)
      modifies this
      ensures Reconcile(old(Value()), s).Err? ==>
        err == Some(Reconcile(old(Value()), s).error) && !changed && Value() == old(Value())
      ensures Reconcile(old(Value()), s).Ok? ==>
        err == None && Value() == Reconcile(old(Value()), s).value && changed == (Value() != old(Value()))
    {
      var orig := Value();
      var res := Reconcile(orig, s);
      if res.Err? {
        return false, Some(res.error);
      }
      changed := res.value != orig;
      if changed {
        Assign(res.value);
      }
      err := None;
    }
  }

  // ---------------------------------------------------------------------------
  // Properties of the reconciliation

  /** A successful reconciliation is the run-state step applied after the identity step. */
  lemma ReconcileStages(t: TaskRecord, s: TaskResult)
    requires Reconcile(t, Some(s)).Ok?
    ensures ParseTags(s.Tags).Ok? && CheckIdentity(t, ParseTags(s.Tags).value).Ok?
    ensures Reconcile(t, Some(s)) == ApplyRun(CheckIdentity(t, ParseTags(s.Tags).value).value, s)
  {
  }

  /** What a successful run-state step sets each run field to. */
  lemma ApplyRunFacts(t: TaskRecord, s: TaskResult)
    requires ApplyRun(t, s).Ok?
    ensures var u := ApplyRun(t, s).value;
      && CheckCreated(t.Created, s.CreatedTs) == Ok(u.Created)
      && CheckSwarmingId(t.SwarmingTaskId, s.TaskId) == Ok(u.SwarmingTaskId)
      && StatusFor(s.State, s.Failure) == Ok(u.Status)
      && (s.CompletedTs.Parsed? ==> u.Finished == s.CompletedTs.instant)
      && (s.CompletedTs.Absent? && u.Status == Mishap && s.AbandonedTs.Parsed? ==> u.Finished == s.AbandonedTs.instant)
      && (s.CompletedTs.Absent? && (u.Status != Mishap || s.AbandonedTs.Absent?) ==> u.Finished == t.Finished)
      && (s.StartedTs.Parsed? ==> u.Started == s.StartedTs.instant)
      && (s.StartedTs.Absent? ==> u.Started == t.Started)
      && u.IsolatedOutput == (if s.OutputsRef.Some? then s.OutputsRef.value else "")
      && u.SwarmingBotId == s.BotId
  {
  }

  /**
   * A successful update refreshes the run fields from the report, whatever the
   * task held: a reported start or finish time replaces the stored one, an
   * absent one keeps it, and the output and bot are the report's.
   */
  lemma RunFieldsRefreshed(t: TaskRecord, s: TaskResult)
    requires Reconcile(t, Some(s)).Ok?
    ensures var u := Reconcile(t, Some(s)).value;
      && (s.StartedTs.Parsed? ==> u.Started == s.StartedTs.instant)
      && (s.StartedTs.Absent? ==> u.Started == t.Started)
      && (s.CompletedTs.Parsed? ==> u.Finished == s.CompletedTs.instant)
      && (s.CompletedTs.Absent? && u.Status == Mishap && s.AbandonedTs.Parsed? ==> u.Finished == s.AbandonedTs.instant)
      && (s.CompletedTs.Absent? && (u.Status != Mishap || s.AbandonedTs.Absent?) ==> u.Finished == t.Finished)
      && u.IsolatedOutput == (if s.OutputsRef.Some? then s.OutputsRef.value else "")
      && u.SwarmingBotId == s.BotId
  {
    var pairs := ParseTags(s.Tags).value;
    var t1 := CheckIdentity(t, pairs).value;
    assert Reconcile(t, Some(s)) == ApplyRun(t1, s);
    ApplyRunFacts(t1, s);
  }

  /** The identity step keeps every identity field that is already set. */
  lemma CheckIdentityKeeps(t: TaskRecord, pairs: seq<(string, string)>)
    requires CheckIdentity(t, pairs).Ok?
    ensures var u := CheckIdentity(t, pairs).value;
      && (t.Id != "" ==> u.Id == t.Id)
      && (t.Key.Name != "" ==> u.Key.Name == t.Key.Name)
      && (t.Key.RepoState.Repo != "" ==> u.Key.RepoState.Repo == t.Key.RepoState.Repo)
      && (t.Key.RepoState.Revision != "" ==> u.Key.RepoState.Revision == t.Key.RepoState.Revision)
      && (t.Key.RepoState.Patch.Server != "" ==> u.Key.RepoState.Patch.Server == t.Key.RepoState.Patch.Server)
      && (t.Key.RepoState.Patch.Issue != "" ==> u.Key.RepoState.Patch.Issue == t.Key.RepoState.Patch.Issue)
      && (t.Key.RepoState.Patch.Patchset != "" ==> u.Key.RepoState.Patch.Patchset == t.Key.RepoState.Patch.Patchset)
      && (t.Key.ForcedJobId != "" ==> u.Key.ForcedJobId == t.Key.ForcedJobId)
      && (t.ParentTaskIds != [] ==> u.ParentTaskIds == t.ParentTaskIds)
  {
    CheckOrSetKeeps();
  }

  lemma CheckOrSetKeeps()
    ensures forall field, pairs, key, name | CheckOrSet(field, pairs, key, name).Ok? && field != "" ::
      CheckOrSet(field, pairs, key, name).value == field
    ensures forall field, pairs | CheckOrSetParents(field, pairs).Ok? && field != [] ::
      CheckOrSetParents(field, pairs).value == field
  {
  }

  /** On an unset field a single-valued tag is simply taken over. */
  lemma CheckOrSetEmpty(pairs: seq<(string, string)>, key: string, name: IdField)
    requires |TagValues(pairs, key)| <= 1
    ensures var vs := TagValues(pairs, key);
      CheckOrSet("", pairs, key, name) == Ok(if vs == [] then "" else vs[0])
  {
  }

  /** A malformed tag is rejected before anything else is looked at. */
  lemma InvalidTagRejected(t: TaskRecord, s: TaskResult, i: int)
    requires 0 <= i < |s.Tags| && ':' !in s.Tags[i]
    ensures Reconcile(t, Some(s)).Err? && Reconcile(t, Some(s)).error.InvalidTag?
  {
  }

  /** At most one tag carries key k. */
  predicate SingleValued(pairs: seq<(string, string)>, k: string) {
    |TagValues(pairs, k)| <= 1
  }

  /** Tags that are all key:value and carry each identity key at most once. */
  predicate WellTagged(s: TaskResult) {
    && (forall i | 0 <= i < |s.Tags| :: ':' in s.Tags[i])
    && var pairs := ParseTags(s.Tags).value;
       && SingleValued(pairs, TagId) && SingleValued(pairs, TagName)
       && SingleValued(pairs, TagRepo) && SingleValued(pairs, TagRevision)
       && SingleValued(pairs, TagServer) && SingleValued(pairs, TagIssue)
       && SingleValued(pairs, TagPatchset) && SingleValued(pairs, TagForcedJobId)
  }

  /** The value of the tag with key k, or "" when there is none. */
  function Tag(s: TaskResult, k: string): string
    requires WellTagged(s)
  {
    var vs := TagValues(ParseTags(s.Tags).value, k);
    if vs == [] then "" else vs[0]
  }

  /** Whether the tag with key k may be applied to a field holding v. */
  predicate Agrees(s: TaskResult, k: string, v: string)
    requires WellTagged(s)
  {
    TagValues(ParseTags(s.Tags).value, k) == [] || v == "" || v == Tag(s, k)
  }

  /** The identity of t agrees with every identity tag of s. */
  predicate IdentityAgrees(t: TaskRecord, s: TaskResult)
    requires WellTagged(s)
  {
    && Agrees(s, TagId, t.Id)
    && Agrees(s, TagName, t.Key.Name)
    && Agrees(s, TagRepo, t.Key.RepoState.Repo)
    && Agrees(s, TagRevision, t.Key.RepoState.Revision)
    && Agrees(s, TagServer, t.Key.RepoState.Patch.Server)
    && Agrees(s, TagIssue, t.Key.RepoState.Patch.Issue)
    && Agrees(s, TagPatchset, t.Key.RepoState.Patch.Patchset)
    && Agrees(s, TagForcedJobId, t.Key.ForcedJobId)
  }

  /**
   * An identity field that is already set and differs from its tag makes the
   * update fail; so does a changed creation time or Swarming task id.
   */
  lemma IdentityMismatchRejected(t: TaskRecord, s: TaskResult)
    requires WellTagged(s)
    requires !IdentityAgrees(t, s)
          || (s.CreatedTs.Parsed? && t.Created != ZeroTime && t.Created != s.CreatedTs.instant)
          || (t.SwarmingTaskId != "" && t.SwarmingTaskId != s.TaskId)
    ensures Reconcile(t, Some(s)).Err?
  {
    if !IdentityAgrees(t, s) {
      DisagreeingIdentityStops(t, s);
    } else {
      ChangedRunStops(t, s);
    }
  }

  lemma PatchDisagrees(p: Patch, s: TaskResult)
    requires WellTagged(s)
    requires !(Agrees(s, TagServer, p.Server) && Agrees(s, TagIssue, p.Issue) && Agrees(s, TagPatchset, p.Patchset))
    ensures CheckPatch(p, ParseTags(s.Tags).value).Err?
  {
    CheckOrSetRejects();
  }

  lemma RepoStateDisagrees(rs: RepoState, s: TaskResult)
    requires WellTagged(s)
    requires !(&& Agrees(s, TagRepo, rs.Repo) && Agrees(s, TagRevision, rs.Revision)
               && Agrees(s, TagServer, rs.Patch.Server) && Agrees(s, TagIssue, rs.Patch.Issue)
               && Agrees(s, TagPatchset, rs.Patch.Patchset))
    ensures CheckRepoState(rs, ParseTags(s.Tags).value).Err?
  {
    CheckOrSetRejects();
    if Agrees(s, TagRepo, rs.Repo) && Agrees(s, TagRevision, rs.Revision) {
      PatchDisagrees(rs.Patch, s);
    }
  }

  lemma KeyDisagrees(k: TaskKey, s: TaskResult)
    requires WellTagged(s)
    requires !(&& Agrees(s, TagName, k.Name) && Agrees(s, TagRepo, k.RepoState.Repo)
               && Agrees(s, TagRevision, k.RepoState.Revision)
               && Agrees(s, TagServer, k.RepoState.Patch.Server) && Agrees(s, TagIssue, k.RepoState.Patch.Issue)
               && Agrees(s, TagPatchset, k.RepoState.Patch.Patchset) && Agrees(s, TagForcedJobId, k.ForcedJobId))
    ensures CheckKey(k, ParseTags(s.Tags).value).Err?
  {
    CheckOrSetRejects();
    if Agrees(s, TagName, k.Name) && Agrees(s, TagForcedJobId, k.ForcedJobId) {
      RepoStateDisagrees(k.RepoState, s);
    }
  }

  lemma DisagreeingIdentityStops(t: TaskRecord, s: TaskResult)
    requires WellTagged(s) && !IdentityAgrees(t, s)
    ensures CheckIdentity(t, ParseTags(s.Tags).value).Err?
  {
    CheckOrSetRejects();
    if Agrees(s, TagId, t.Id) {
      KeyDisagrees(t.Key, s);
    }
  }

  lemma CheckOrSetRejects()
    ensures forall field, pairs, key, name |
      |TagValues(pairs, key)| == 1 && field != "" && field != TagValues(pairs, key)[0] ::
      CheckOrSet(field, pairs, key, name).Err?
  {
  }

  lemma ChangedRunStops(t: TaskRecord, s: TaskResult)
    requires (s.CreatedTs.Parsed? && t.Created != ZeroTime && t.Created != s.CreatedTs.instant)
          || (t.SwarmingTaskId != "" && t.SwarmingTaskId != s.TaskId)
    ensures forall t1: TaskRecord | t1.Created == t.Created && t1.SwarmingTaskId == t.SwarmingTaskId :: ApplyRun(t1, s).Err?
  {
  }

  /** A successful update never rewrites an identity field that was already set. */
  lemma IdentityPreserved(t: TaskRecord, s: TaskResult)
    requires Reconcile(t, Some(s)).Ok?
    ensures var u := Reconcile(t, Some(s)).value;
      && (t.Id != "" ==> u.Id == t.Id)
      && (t.Key.Name != "" ==> u.Key.Name == t.Key.Name)
      && (t.Key.RepoState.Repo != "" ==> u.Key.RepoState.Repo == t.Key.RepoState.Repo)
      && (t.Key.RepoState.Revision != "" ==> u.Key.RepoState.Revision == t.Key.RepoState.Revision)
      && (t.Key.RepoState.Patch.Server != "" ==> u.Key.RepoState.Patch.Server == t.Key.RepoState.Patch.Server)
      && (t.Key.RepoState.Patch.Issue != "" ==> u.Key.RepoState.Patch.Issue == t.Key.RepoState.Patch.Issue)
      && (t.Key.RepoState.Patch.Patchset != "" ==> u.Key.RepoState.Patch.Patchset == t.Key.RepoState.Patch.Patchset)
      && (t.Key.ForcedJobId != "" ==> u.Key.ForcedJobId == t.Key.ForcedJobId)
      && (t.Created != ZeroTime ==> u.Created == t.Created)
      && (t.SwarmingTaskId != "" ==> u.SwarmingTaskId == t.SwarmingTaskId)
      && (t.ParentTaskIds != [] ==> u.ParentTaskIds == t.ParentTaskIds)
      && u.Commits == t.Commits && u.DbModified == t.DbModified && u.RetryOf == t.RetryOf
  {
    ReconcileStages(t, s);
    var t1 := CheckIdentity(t, ParseTags(s.Tags).value).value;
    CheckIdentityKeeps(t, ParseTags(s.Tags).value);
    ApplyRunFacts(t1, s);
  }

  /** Every timestamp must be readable: an unreadable one is reported by name. */
  lemma MalformedTimestampRejected(t: TaskRecord, s: TaskResult)
    requires s.CreatedTs.Malformed? || s.CreatedTs.Absent? || s.StartedTs.Malformed? || s.CompletedTs.Malformed?
          || (s.AbandonedTs.Malformed? && s.CompletedTs.Absent? && StatusFor(s.State, s.Failure) == Ok(Mishap))
    ensures Reconcile(t, Some(s)).Err?
  {
    MalformedTimestampStops(s);
  }

  lemma MalformedTimestampStops(s: TaskResult)
    requires s.CreatedTs.Malformed? || s.CreatedTs.Absent? || s.StartedTs.Malformed? || s.CompletedTs.Malformed?
          || (s.AbandonedTs.Malformed? && s.CompletedTs.Absent? && StatusFor(s.State, s.Failure) == Ok(Mishap))
    ensures forall t :: ApplyRun(t, s).Err?
  {
  }

  /**
   * A completion time, when present, is the task's Finished time even when an
   * abandonment time is also reported.
   */
  lemma CompletedTakesPrecedence(t: TaskRecord, s: TaskResult)
    requires Reconcile(t, Some(s)).Ok? && s.CompletedTs.Parsed?
    ensures Reconcile(t, Some(s)).value.Finished == s.CompletedTs.instant
  {
    ReconcileStages(t, s);
    ApplyRunFacts(CheckIdentity(t, ParseTags(s.Tags).value).value, s);
  }

  /** Without a completion time an expired (or otherwise lost) task finishes at its abandonment time, as a Mishap. */
  lemma AbandonedGivesMishap(t: TaskRecord, s: TaskResult)
    requires Reconcile(t, Some(s)).Ok? && s.CompletedTs.Absent? && s.AbandonedTs.Parsed?
    requires s.State.Lost()
    ensures Reconcile(t, Some(s)).value.Finished == s.AbandonedTs.instant
    ensures Reconcile(t, Some(s)).value.Status == Mishap
  {
    ReconcileStages(t, s);
    var t1 := CheckIdentity(t, ParseTags(s.Tags).value).value;
    ApplyRunFacts(t1, s);
    StatusForMapping(s.State, s.Failure, ApplyRun(t1, s).value.Status);
  }

  /** The status after an update is the one the reported state maps to. */
  lemma StatusMapping(t: TaskRecord, s: TaskResult)
    requires Reconcile(t, Some(s)).Ok?
    ensures var st := Reconcile(t, Some(s)).value.Status;
      && (s.State == StatePending <==> st == Pending)
      && (s.State == StateRunning <==> st == Running)
      && (s.State.Lost() <==> st == Mishap)
      && (s.State == StateCompleted && s.Failure <==> st == Failure)
      && (s.State == StateCompleted && !s.Failure <==> st == Success)
  {
    ReconcileStages(t, s);
    var t1 := CheckIdentity(t, ParseTags(s.Tags).value).value;
    ApplyRunFacts(t1, s);
    StatusForMapping(s.State, s.Failure, ApplyRun(t1, s).value.Status);
  }

  /** Each known state maps to exactly one status. */
  lemma StatusForMapping(state: SwarmingState, failure: bool, st: TaskStatus)
    requires StatusFor(state, failure) == Ok(st)
    ensures && (state == StatePending <==> st == Pending)
      && (state == StateRunning <==> st == Running)
      && (state.Lost() <==> st == Mishap)
      && (state == StateCompleted && failure <==> st == Failure)
      && (state == StateCompleted && !failure <==> st == Success)
  {
  }

  /** An unknown state is an error, never a status. */
  lemma UnknownStateRejected(t: TaskRecord, s: TaskResult)
    requires s.State.StateOther?
    ensures Reconcile(t, Some(s)).Err?
  {
    UnknownStateStopsRun(s);
  }

  lemma UnknownStateStopsRun(s: TaskResult)
    requires s.State.StateOther?
    ensures forall t :: ApplyRun(t, s).Err?
  {
  }

  /**
   * On an empty task a well-formed report fills in the identity from the tags
   * (parent ids in tag order), the creation time, Swarming id, status, output
   * and bot, and leaves the commit list empty.
   */
  lemma InitFromEmpty(s: TaskResult)
    requires WellTagged(s) && s.CreatedTs.Parsed? && !s.StartedTs.Malformed? && !s.CompletedTs.Malformed?
    requires !s.AbandonedTs.Malformed? && !s.State.StateOther?
    ensures Reconcile(EmptyTask, Some(s)).Ok?
    ensures var u := Reconcile(EmptyTask, Some(s)).value;
      && u.Id == Tag(s, TagId) && u.Key.Name == Tag(s, TagName)
      && u.Key.RepoState.Repo == Tag(s, TagRepo) && u.Key.RepoState.Revision == Tag(s, TagRevision)
      && u.Key.RepoState.Patch == Patch(Tag(s, TagServer), Tag(s, TagIssue), Tag(s, TagPatchset))
      && u.Key.ForcedJobId == Tag(s, TagForcedJobId)
      && u.ParentTaskIds == TagValues(ParseTags(s.Tags).value, TagParentTaskId)
      && u.Created == s.CreatedTs.instant
      && u.SwarmingTaskId == s.TaskId
      && u.Started == (if s.StartedTs.Parsed? then s.StartedTs.instant else ZeroTime)
      && u.IsolatedOutput == (if s.OutputsRef.Some? then s.OutputsRef.value else "")
      && u.SwarmingBotId == s.BotId
      && u.Commits == []
  {
    var pairs := ParseTags(s.Tags).value;
    var t1 := InitIdentity(s);
    ApplyRunSucceeds(t1, s);
    assert Reconcile(EmptyTask, Some(s)) == ApplyRun(t1, s);
    ApplyRunFacts(t1, s);
  }

  /** The identity step on an empty task takes every identity field from its tag. */
  lemma InitIdentity(s: TaskResult) returns (t1: TaskRecord)
    requires WellTagged(s)
    ensures CheckIdentity(EmptyTask, ParseTags(s.Tags).value) == Ok(t1)
    ensures && t1.Id == Tag(s, TagId) && t1.Key.Name == Tag(s, TagName)
      && t1.Key.RepoState.Repo == Tag(s, TagRepo) && t1.Key.RepoState.Revision == Tag(s, TagRevision)
      && t1.Key.RepoState.Patch == Patch(Tag(s, TagServer), Tag(s, TagIssue), Tag(s, TagPatchset))
      && t1.Key.ForcedJobId == Tag(s, TagForcedJobId)
      && t1.ParentTaskIds == TagValues(ParseTags(s.Tags).value, TagParentTaskId)
      && t1.Created == ZeroTime && t1.SwarmingTaskId == "" && t1.Commits == []
  {
    var pairs := ParseTags(s.Tags).value;
    CheckOrSetEmpty(pairs, TagId, FieldId);
    CheckOrSetEmpty(pairs, TagName, FieldName);
    CheckOrSetEmpty(pairs, TagRepo, FieldRepo);
    CheckOrSetEmpty(pairs, TagRevision, FieldRevision);
    CheckOrSetEmpty(pairs, TagServer, FieldServer);
    CheckOrSetEmpty(pairs, TagIssue, FieldIssue);
    CheckOrSetEmpty(pairs, TagPatchset, FieldPatchset);
    CheckOrSetEmpty(pairs, TagForcedJobId, FieldForcedJobId);
    t1 := CheckIdentity(EmptyTask, pairs).value;
  }

  /** The run-state step succeeds on a fresh task whenever every timestamp is readable and the state is known. */
  lemma ApplyRunSucceeds(t: TaskRecord, s: TaskResult)
    requires t.Created == ZeroTime && t.SwarmingTaskId == ""
    requires s.CreatedTs.Parsed? && !s.StartedTs.Malformed? && !s.CompletedTs.Malformed?
    requires !s.AbandonedTs.Malformed? && !s.State.StateOther?
    ensures ApplyRun(t, s).Ok?
    ensures ApplyRun(t, s).value.IsolatedOutput == (if s.OutputsRef.Some? then s.OutputsRef.value else "")
    ensures ApplyRun(t, s).value.SwarmingBotId == s.BotId
  {
  }

  /** Checking an identity field a second time, against the value the first check produced, succeeds with the same value. */
  lemma CheckOrSetStable(field: string, pairs: seq<(string, string)>, key: string, name: IdField)
    requires CheckOrSet(field, pairs, key, name).Ok?
    ensures var v := CheckOrSet(field, pairs, key, name).value;
      CheckOrSet(v, pairs, key, name) == Ok(v)
  {
  }

  /** Once the identity check has passed, any record with the resulting identity passes it unchanged. */
  lemma CheckIdentityStable(t: TaskRecord, pairs: seq<(string, string)>, t': TaskRecord)
    requires CheckIdentity(t, pairs).Ok? && SameIdentity(t', CheckIdentity(t, pairs).value)
    ensures CheckIdentity(t', pairs) == Ok(t')
  {
    CheckOrSetStable(t.Id, pairs, TagId, FieldId);
    CheckOrSetStable(t.Key.Name, pairs, TagName, FieldName);
    CheckOrSetStable(t.Key.RepoState.Repo, pairs, TagRepo, FieldRepo);
    CheckOrSetStable(t.Key.RepoState.Revision, pairs, TagRevision, FieldRevision);
    CheckOrSetStable(t.Key.RepoState.Patch.Server, pairs, TagServer, FieldServer);
    CheckOrSetStable(t.Key.RepoState.Patch.Issue, pairs, TagIssue, FieldIssue);
    CheckOrSetStable(t.Key.RepoState.Patch.Patchset, pairs, TagPatchset, FieldPatchset);
    CheckOrSetStable(t.Key.ForcedJobId, pairs, TagForcedJobId, FieldForcedJobId);
  }

  /** Applying the run state of a report to a record that already carries it is a no-op. */
  lemma ApplyRunStable(t: TaskRecord, s: TaskResult, d: int)
    requires ApplyRun(t, s).Ok?
    ensures var u := ApplyRun(t, s).value.(DbModified := d);
      ApplyRun(u, s) == Ok(u)
  {
  }

  /** ApplyRun neither reads nor writes DbModified. */
  lemma ApplyRunIgnoresDbModified(t: TaskRecord, s: TaskResult, d: int)
    ensures ApplyRun(t.(DbModified := d), s).Ok? == ApplyRun(t, s).Ok?
    ensures ApplyRun(t, s).Ok? ==> ApplyRun(t.(DbModified := d), s).value == ApplyRun(t, s).value.(DbModified := d)
  {
  }

  /** Replaying a report, even after the record's DbModified was restamped, changes nothing. */
  lemma {:induction false} Replay(t: TaskRecord, s: TaskResult, d: int)
    requires Reconcile(t, Some(s)).Ok?
    ensures var u := Reconcile(t, Some(s)).value.(DbModified := d);
      Reconcile(u, Some(s)) == Ok(u)
  {
    var pairs := ParseTags(s.Tags).value;
    var t1 := CheckIdentity(t, pairs).value;
    var u := ApplyRun(t1, s).value.(DbModified := d);
    CheckIdentityStable(t, pairs, u);
    ApplyRunStable(t1, s, d);
  }

  /** Applying the same report again changes nothing. */
  lemma {:induction false} Idempotent(t: TaskRecord, s: TaskResult)
    requires Reconcile(t, Some(s)).Ok?
    ensures Reconcile(Reconcile(t, Some(s)).value, Some(s)) == Reconcile(t, Some(s))
  {
    var u := Reconcile(t, Some(s)).value;
    Replay(t, s, u.DbModified);
    assert u.(DbModified := u.DbModified) == u;
  }

  /** ModifiedTs plays no part: two reports that differ only there update alike. */
  lemma ModifiedTsIgnored(t: TaskRecord, s: TaskResult, m: Timestamp)
    ensures Reconcile(t, Some(s.(ModifiedTs := m))) == Reconcile(t, Some(s))
  {
    RunIgnoresModifiedTs(s, m);
  }

  lemma RunIgnoresModifiedTs(s: TaskResult, m: Timestamp)
    ensures forall t :: ApplyRun(t, s.(ModifiedTs := m)) == ApplyRun(t, s)
  {
  }

  // ---------------------------------------------------------------------------
  // The task store

  datatype StoreError = NoIdTag | TaskNotFound(id: string) | UpdateFailed(e: UpdateError)

  /** The single id tag of a report, if it has exactly one. */
  function IdTag(s: TaskResult): (r: Option<string>)
  {
    match ParseTags(s.Tags)
    case Err(_) => None
    case Ok(pairs) => if |TagValues(pairs, TagId)| == 1 then Some(TagValues(pairs, TagId)[0]) else None
  }

  /** An in-memory task store: tasks by id. PutTask stamps DbModified. */
  class TaskStore {
    var tasks: map<string, TaskRecord>

    constructor ()
      ensures tasks == map[]
    {
      tasks := map[];
    }

    /**
     * Looks the task up by the id in the report's tags, updates it, and
     * writes it back (with DbModified = now) only when the update changed it.
     */
    method UpdateDBFromSwarmingTask(s: TaskResult, now: int) returns (err: Option<StoreError>)
      modifies this
      ensures IdTag(s).None? ==> err == Some(NoIdTag) && tasks == old(tasks)
      ensures IdTag(s).Some? && IdTag(s).value !in old(tasks) ==>
        err == Some(TaskNotFound(IdTag(s).value)) && tasks == old(tasks)
      ensures IdTag(s).Some? && IdTag(s).value in old(tasks) ==>
        var id := IdTag(s).value;
        var res := Reconcile(old(tasks)[id], Some(s));
        && (res.Err? ==> err == Some(UpdateFailed(res.error)) && tasks == old(tasks))
        && (res.Ok? && res.value == old(tasks)[id] ==> err == None && tasks == old(tasks))
        && (res.Ok? && res.value != old(tasks)[id] ==>
              err == None && tasks == old(tasks)[id := res.value.(DbModified := now)])
    {
      var id := IdTag(s);
      if id.None? {
        return Some(NoIdTag);
      }
      if id.value !in tasks {
        return Some(TaskNotFound(id.value));
      }
      var task := new Task.FromRecord(tasks[id.value]);
      var changed, e := task.UpdateFromSwarming(Some(s));
      if e.Some? {
        return Some(UpdateFailed(e.value));
      }
      if changed {
        task.DbModified := now;
        tasks := tasks[id.value := task.Value()];
      }
      err := None;
    }
  }

  // ---------------------------------------------------------------------------
  // TaskSlice: tasks sort by creation time

  /** TaskSlice.Less: a was created before b. */
  predicate TaskLess(a: TaskRecord, b: TaskRecord) {
    a.Created < b.Created
  }

  lemma TaskLessIsStrictWeakOrder()
    ensures Sort.StrictWeakOrder(TaskLess)
  {
  }

  /** sort.Sort(TaskSlice(tasks)): ascending creation time, same tasks. */
  method SortTasks(a: array<TaskRecord>)
    modifies a
    ensures forall i, j | 0 <= i < j < a.Length :: a[i].Created <= a[j].Created
    ensures multiset(a[..]) == multiset(old(a[..]))
  {
    TaskLessIsStrictWeakOrder();
    Sort.SortBy(a, TaskLess);
    forall i, j | 0 <= i < j < a.Length
      ensures a[i].Created <= a[j].Created
    {
      assert !TaskLess(a[..][j], a[..][i]);
    }
  }
}
