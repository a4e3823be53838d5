/**
 * Task candidates (task_scheduler/go/scheduling/task_candidate.go): their
 * string ids, the Task and the Swarming dimensions made from them, the
 * dependency-readiness rule, and their order by score.
 */
module Scheduling {
  import opened Wrappers
  import opened Text
  import Specs
  import Db
  import Sort

  datatype TaskCandidate = TaskCandidate(
    Commits: seq<string>,
    IsolatedInput: string,
    IsolatedHashes: seq<string>,
    Name: string,
    Repo: string,
    Revision: string,
    Score: real,
    StealingFromId: string,
    TaskSpec: Specs.TaskSpec)

  /** taskCandidate.Copy: fresh commit and hash lists and a copied TaskSpec, every value the same. */
  function Copy(c: TaskCandidate): (d: TaskCandidate)
    ensures d == c
  {
    c.(Commits := [] + c.Commits, IsolatedHashes := [] + c.IsolatedHashes,
       TaskSpec := Specs.CopyTaskSpec(c.TaskSpec))
  }

  // ---------------------------------------------------------------------------
  // Ids

  const IdPrefix := "taskCandidate"

  /** MakeId: "taskCandidate|<repo>|<name>|<revision>". */
  function MakeId(c: TaskCandidate): string {
    IdPrefix + "|" + c.Repo + "|" + c.Name + "|" + c.Revision
  }

  datatype IdError = InvalidId(id: string)

  /** parseId: the repo, name and revision of an id, or an error. */
  function ParseId(id: string): Result<(string, string, string), IdError> {
    var split := Split(id, '|');
    if |split| != 4 then Err(InvalidId(id))
    else if split[0] != IdPrefix then Err(InvalidId(id))
    else if split[1] == "" || split[2] == "" || split[3] == "" then Err(InvalidId(id))
    else Ok((split[1], split[2], split[3]))
  }

  /** A field that survives the round trip through an id. */
  predicate IdField(s: string) {
    s != "" && '|' !in s
  }

  lemma MakeIdIsJoin(c: TaskCandidate)
    ensures MakeId(c) == Join([IdPrefix, c.Repo, c.Name, c.Revision], '|')
  {
    var parts := [IdPrefix, c.Repo, c.Name, c.Revision];
    assert parts[1..][1..][1..] == [c.Revision];
    assert Join(parts[1..][1..], '|') == c.Name + "|" + c.Revision;
    assert Join(parts[1..], '|') == c.Repo + "|" + (c.Name + "|" + c.Revision);
  }

  /** parseId undoes MakeId when every field is non-empty and free of '|'. */
  lemma {:induction false} ParseMakeId(c: TaskCandidate)
    requires IdField(c.Repo) && IdField(c.Name) && IdField(c.Revision)
    ensures ParseId(MakeId(c)) == Ok((c.Repo, c.Name, c.Revision))
  {
    MakeIdIsJoin(c);
    SplitJoin([IdPrefix, c.Repo, c.Name, c.Revision], '|');
  }

  /** Conversely, parseId accepts only ids made by MakeId, from non-empty fields free of '|'. */
  lemma {:induction false} ParseIdOnlyIds(id: string)
    requires ParseId(id).Ok?
    ensures var (repo, name, revision) := ParseId(id).value;
      && IdField(repo) && IdField(name) && IdField(revision)
      && id == IdPrefix + "|" + repo + "|" + name + "|" + revision
  {
    var split := Split(id, '|');
    SplitPartsFree(id, '|');
    assert '|' !in split[1] && '|' !in split[2] && '|' !in split[3];
    JoinSplit(id, '|');
    var c := TaskCandidate([], "", [], split[2], split[1], split[3], 0.0, "", Specs.TaskSpec([], [], [], map[], [], "", 0.0));
    MakeIdIsJoin(c);
    assert split == [IdPrefix, split[1], split[2], split[3]];
  }

  // ---------------------------------------------------------------------------
  // MakeTask

  /** MakeTask: a Task with no id yet, the candidate's name, repo and revision, and its commits. */
  function MakeTask(c: TaskCandidate): (t: Db.TaskRecord)
    ensures t.Id == "" && t.Commits == c.Commits
    ensures t.Key == Db.TaskKey(Db.RepoState(Db.NoPatch, c.Repo, c.Revision), c.Name, "")
    ensures t == Db.EmptyTask.(Key := t.Key, Commits := t.Commits)
  {
    Db.EmptyTask.(Key := Db.TaskKey(Db.RepoState(Db.NoPatch, c.Repo, c.Revision), c.Name, ""),
                  Commits := [] + c.Commits)
  }

  /** The task made from a candidate carries the identity its id encodes. */
  lemma MakeTaskMatchesId(c: TaskCandidate)
    requires IdField(c.Repo) && IdField(c.Name) && IdField(c.Revision)
    ensures var t := MakeTask(c);
      ParseId(MakeId(c)) == Ok((t.Key.RepoState.Repo, t.Key.Name, t.Key.RepoState.Revision))
  {
    ParseMakeId(c);
  }

  // ---------------------------------------------------------------------------
  // MakeTaskRequest: dimensions

  /**
   * The dimension loop of MakeTaskRequest: each "key:value" is split at its
   * first colon, giving the pairs in order and a map in which a later
   * duplicate key overrides an earlier one. A dimension without a colon makes
   * the source index past the end of its split; validated specs have none.
   */
  method Dimensions(dims: seq<string>) returns (pairs: seq<(string, string)>, dimsMap: map<string, string>)
    requires forall i | 0 <= i < |dims| :: ':' in dims[i]
    ensures |pairs| == |dims|
    ensures forall i | 0 <= i < |dims| :: pairs[i].0 + ":" + pairs[i].1 == dims[i] && ':' !in pairs[i].0
    ensures forall k :: k in dimsMap <==> exists i | 0 <= i < |pairs| :: pairs[i].0 == k
    ensures forall k | k in dimsMap :: exists i | 0 <= i < |pairs| ::
      pairs[i] == (k, dimsMap[k]) && forall j | i < j < |pairs| :: pairs[j].0 != k
  {
    pairs := [];
    dimsMap := map[];
    for n := 0 to |dims|
      invariant |pairs| == n
      invariant forall i | 0 <= i < n :: pairs[i].0 + ":" + pairs[i].1 == dims[i] && ':' !in pairs[i].0
      invariant forall k :: k in dimsMap <==> exists i | 0 <= i < n :: pairs[i].0 == k
      invariant forall k | k in dimsMap :: exists i | 0 <= i < n ::
        pairs[i] == (k, dimsMap[k]) && forall j | i < j < n :: pairs[j].0 != k
    {
      var kv := Cut(dims[n], ':');
      pairs := pairs + [kv];
      dimsMap := dimsMap[kv.0 := kv.1];
      assert pairs[n] == kv;
    }
  }

  /** Validated task specs are exactly the ones whose dimensions MakeTaskRequest can split. */
  lemma ValidSpecsHaveDimensions(t: Specs.TaskSpec)
    requires Specs.Validate(t).None?
    ensures forall i | 0 <= i < |t.Dimensions| :: ':' in t.Dimensions[i]
  {
  }

  // ---------------------------------------------------------------------------
  // allDepsMet

  /** What the task cache gives for a dependency at the candidate's commit. */
  datatype Lookup = Found(task: Db.TaskRecord) | NotFound | LookupError(msg: string)

  /** A dependency is met by a finished, successful task with an isolated output. */
  predicate Met(l: Lookup) {
    l.Found? && l.task.Done() && l.task.Succeeded() && l.task.IsolatedOutput != ""
  }

  /**
   * allDepsMet: looks up each dependency in declaration order and stops at
   * the first one not met, reporting a lookup error as an error. When all are
   * met it returns their isolated outputs in order.
   */
  method AllDepsMet(c: TaskCandidate, cache: (string, string, string) -> Lookup)
    returns (ok: bool, hashes: seq<string>, err: Option<string>)
    ensures var deps := c.TaskSpec.Dependencies;
      && (ok <==> forall i | 0 <= i < |deps| :: Met(cache(c.Repo, c.Revision, deps[i])))
      && (ok ==> |hashes| == |deps| &&
                 forall i | 0 <= i < |deps| :: hashes[i] == cache(c.Repo, c.Revision, deps[i]).task.IsolatedOutput)
      && (!ok ==> hashes == [])
      && (ok ==> err.None?)
      && (!ok ==> exists i | 0 <= i < |deps| ::
                    && !Met(cache(c.Repo, c.Revision, deps[i]))
                    && (forall j | 0 <= j < i :: Met(cache(c.Repo, c.Revision, deps[j])))
                    && (cache(c.Repo, c.Revision, deps[i]).LookupError? <==> err.Some?)
                    && (err.Some? ==> err.value == cache(c.Repo, c.Revision, deps[i]).msg))
  {
    var deps := c.TaskSpec.Dependencies;
    hashes := [];
    for i := 0 to |deps|
      invariant |hashes| == i
      invariant forall j | 0 <= j < i :: Met(cache(c.Repo, c.Revision, deps[j]))
      invariant forall j | 0 <= j < i :: hashes[j] == cache(c.Repo, c.Revision, deps[j]).task.IsolatedOutput
    {
      var d := cache(c.Repo, c.Revision, deps[i]);
      if d.LookupError? {
        return false, [], Some(d.msg);
      }
      if d.NotFound? {
        return false, [], None;
      }
      if !d.task.Done() || !d.task.Succeeded() || d.task.IsolatedOutput == "" {
        return false, [], None;
      }
      hashes := hashes + [d.task.IsolatedOutput];
    }
    return true, hashes, None;
  }

  // ---------------------------------------------------------------------------
  // taskCandidateSlice

  /** taskCandidateSlice.Less: higher scores first. */
  predicate CandidateLess(a: TaskCandidate, b: TaskCandidate) {
    a.Score > b.Score
  }

  lemma CandidateLessIsStrictWeakOrder()
    ensures Sort.StrictWeakOrder(CandidateLess)
  {
  }

  /** sort.Sort(taskCandidateSlice(..)): non-increasing scores, same candidates. */
  method SortCandidates(a: array<TaskCandidate>)
    modifies a
    ensures forall i, j | 0 <= i < j < a.Length :: a[i].Score >= a[j].Score
    ensures multiset(a[..]) == multiset(old(a[..]))
  {
    CandidateLessIsStrictWeakOrder();
    Sort.SortBy(a, CandidateLess);
    forall i, j | 0 <= i < j < a.Length
      ensures a[i].Score >= a[j].Score
    {
      assert !CandidateLess(a[..][j], a[..][i]);
    }
  }
}
