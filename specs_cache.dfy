/**
 * TaskCfgCache (task_scheduler/go/specs/specs.go): task configurations cached
 * by RepoState, plus the most recent commit time at which each commit, task
 * spec and job spec was seen. The git repositories are oracles; instants are
 * integers and a missing recent-map entry results as Go's zero time.
 */
module SpecsCache {
  import opened Wrappers
  import opened Specs
  import Db
  import Text

  /** What reading infra/bots/tasks.json at a commit can give. */
  datatype FileRead =
    | Contents(cfg: TasksCfg)   // the file, decoded
    | Undecodable               // the file is not valid JSON for a TasksCfg
    | ReadFailed(msg: string)   // the text of the error from git

  /**
   * The repositories: which names check out, what the tasks file holds at a
   * revision, and the commit timestamp of a revision.
   */
  datatype Repos = Repos(
    known: set<string>,
    getFile: (string, string) -> FileRead,
    details: (string, string) -> Result<int, string>)

  datatype CacheError =
    | RepoNotFound(repo: string)
    | ReadError(msg: string)     // the whole error text, as ReadTasksCfg wraps it
    | DecodeError
    | InvalidCfg(e: SpecError)
    | DetailsError(msg: string)
    | NoSuchTaskSpec(name: string, rs: Db.RepoState)
    | NoSuchJobSpec(name: string, rs: Db.RepoState)

  /** The error text ReadTasksCfg gives for a failed file read. */
  function ReadFileMessage(msg: string): string {
    "Failed to read tasks cfg: could not read file: " + msg
  }

  /** The test readTasksCfg applies to an error's text to decide that the tasks file is missing. */
  predicate SaysMissing(text: string) {
    Text.Contains(text, "does not exist in") || Text.Contains(text, "exists on disk, but not in")
  }

  /**
   * The test also fires on validation and findCycles errors whose quoted
   * names contain one of the phrases: such a configuration is cached as empty.
   */
  lemma MissingPhraseInName(d: string)
    requires Text.Contains(d, "does not exist in")
    ensures SaysMissing(Message(DimensionWithoutColon(d)))
  {
    QuoteShows(d, "does not exist in");
    Text.ContainsWithin("Dimension ", Quote(d), " does not contain a colon!", "does not exist in");
  }

  /** A recent-map lookup: Go's zero time when absent. */
  function Get(m: map<string, int>, k: string): int {
    if k in m then m[k] else Db.ZeroTime
  }

  function Max(a: int, b: int): int {
    if a < b then b else a
  }

  /**
   * r is m with each named entry raised to ts where ts is later: no other
   * entry moves, and a name becomes a key exactly when ts is after the zero
   * time.
   */
  ghost predicate Raised(m: map<string, int>, names: set<string>, ts: int, r: map<string, int>) {
    && (forall k | k in names :: Get(r, k) == Max(Get(m, k), ts))
    && (forall k | k !in names :: Get(r, k) == Get(m, k))
    && r.Keys == m.Keys + (if ts > Db.ZeroTime then names else {})
  }

  /** The `for name := range names { if ts.After(m[name]) { m[name] = ts } }` loop. */
  method Raise(m: map<string, int>, names: set<string>, ts: int) returns (r: map<string, int>)
    ensures Raised(m, names, ts, r)
  {
    r := m;
    var todo := names;
    while todo != {}
      invariant todo <= names
      invariant forall k | k in names - todo :: Get(r, k) == Max(Get(m, k), ts)
      invariant forall k | k !in names - todo :: Get(r, k) == Get(m, k)
      invariant r.Keys == m.Keys + (if ts > Db.ZeroTime then names - todo else {})
      decreases todo
    {
      var name :| name in todo;
      if ts > Get(r, name) {
        r := r[name := ts];
      }
      todo := todo - {name};
    }
  }

  /** The single-entry raise applied to recentCommits. */
  function Max1(m: map<string, int>, k: string, ts: int): (r: map<string, int>)
    ensures Raised(m, {k}, ts, r)
  {
    if ts > Get(m, k) then m[k := ts] else m
  }

  /** Raising never lowers an entry nor drops a key. */
  lemma RaisedKeeps(m: map<string, int>, names: set<string>, ts: int, r: map<string, int>)
    requires Raised(m, names, ts, r)
    ensures forall k | k in m :: k in r && r[k] >= m[k]
  {
    forall k | k in m
      ensures k in r && r[k] >= m[k]
    {
      assert Get(r, k) >= Get(m, k);
    }
  }

  /** The entries of m that are not strictly before start. */
  function Recent(m: map<string, int>, start: int): map<string, int> {
    map k | k in m && !(m[k] < start) :: m[k]
  }

  /** The `for k, ts := range m { if ts.Before(start) { delete(m, k) } }` loop. */
  method Prune(m: map<string, int>, start: int) returns (r: map<string, int>)
    ensures r == Recent(m, start)
  {
    r := m;
    var todo := m.Keys;
    while todo != {}
      invariant todo <= m.Keys
      invariant forall k | k in r :: k in m && r[k] == m[k]
      invariant forall k | k in m && k !in todo :: (k in r <==> !(m[k] < start))
      invariant forall k | k in todo :: k in r
      decreases todo
    {
      var k :| k in todo;
      if r[k] < start {
        r := map x | x in r && x != k :: r[x];
      }
      todo := todo - {k};
    }
  }

  /** Pruning keeps exactly the entries at or after start. */
  lemma RecentKeepsExactly(m: map<string, int>, start: int)
    ensures forall k | k in m :: (k in Recent(m, start) <==> m[k] >= start)
    ensures forall k | k in Recent(m, start) :: k in m && Recent(m, start)[k] == m[k]
    ensures Recent(Recent(m, start), start) == Recent(m, start)
  {
  }

  /** Copying every task spec of a map gives back an equal map. */
  lemma CopiedSpecsEqual(tasks: map<string, TaskSpec>)
    ensures (map name | name in tasks :: CopyTaskSpec(tasks[name])) == tasks
  {
  }

  /** stringMapKeys: the keys of m, each once, in map order. */
  method StringMapKeys(m: map<string, int>) returns (keys: seq<string>)
    ensures |keys| == |m|
    ensures forall k :: k in keys <==> k in m
    ensures forall i, j | 0 <= i < j < |keys| :: keys[i] != keys[j]
  {
    keys := [];
    var todo := m.Keys;
    while todo != {}
      invariant todo <= m.Keys
      invariant forall k :: k in keys <==> k in m.Keys - todo
      invariant forall i, j | 0 <= i < j < |keys| :: keys[i] != keys[j]
      invariant |keys| + |todo| == |m.Keys|
      decreases todo
    {
      var k :| k in todo;
      assert k !in keys;
      keys := keys + [k];
      todo := todo - {k};
    }
  }

  /** The cache and the three recent maps of a TaskCfgCache, as a value. */
  datatype CacheState = CacheState(
    cache: map<Db.RepoState, TasksCfg>,
    commits: map<string, int>,
    jobSpecs: map<string, int>,
    taskSpecs: map<string, int>)

  /**
   * The end of a miss that settled on cfg: cfg is cached under rs whatever
   * follows; then either the commit lookup fails and the recent maps stay, or
   * the revision, every task name and every job name of cfg is raised to the
   * commit time.
   */
  ghost predicate Loaded(repos: Repos, s: CacheState, rs: Db.RepoState, cfg: TasksCfg,
                         r: Result<TasksCfg, CacheError>, s': CacheState)
  {
    && s'.cache == s.cache[rs := cfg]
    && match repos.details(rs.Repo, rs.Revision)
       case Err(msg) =>
         && r == Err(DetailsError(msg))
         && s'.commits == s.commits && s'.jobSpecs == s.jobSpecs && s'.taskSpecs == s.taskSpecs
       case Ok(ts) =>
         && r == Ok(cfg)
         && Raised(s.commits, {rs.Revision}, ts, s'.commits)
         && Raised(s.taskSpecs, cfg.Tasks.Keys, ts, s'.taskSpecs)
         && Raised(s.jobSpecs, cfg.Jobs.Keys, ts, s'.jobSpecs)
  }

  /**
   * One readTasksCfg call from state s to state s'. A hit returns the cached
   * entry. An unknown repository fails. A read or validation error whose text
   * says the file is missing loads the empty configuration; any other error
   * fails and leaves s as it was. A file that validates is loaded.
   */
  ghost predicate ReadOutcome(repos: Repos, s: CacheState, rs: Db.RepoState,
                              r: Result<TasksCfg, CacheError>, s': CacheState)
  {
    if rs in s.cache then r == Ok(s.cache[rs]) && s' == s
    else if rs.Repo !in repos.known then r == Err(RepoNotFound(rs.Repo)) && s' == s
    else match repos.getFile(rs.Repo, rs.Revision)
      case ReadFailed(msg) =>
        if SaysMissing(ReadFileMessage(msg)) then Loaded(repos, s, rs, EmptyCfg, r, s')
        else r == Err(ReadError(ReadFileMessage(msg))) && s' == s
      case Undecodable =>
        r == Err(DecodeError) && s' == s
      case Contents(c) =>
        if Accepted(c) then Loaded(repos, s, rs, c, r, s')
        else
          || (&& r.Err? && r.error.InvalidCfg? && PossibleError(c, r.error.e)
              && !SaysMissing(Message(r.error.e)) && s' == s)
          || (&& (exists e :: PossibleError(c, e) && SaysMissing(Message(e)))
              && Loaded(repos, s, rs, EmptyCfg, r, s'))
  }

  /** Loading keeps every other cached entry and never lowers a recent entry. */
  lemma LoadedKeeps(repos: Repos, s: CacheState, rs: Db.RepoState, cfg: TasksCfg,
                    r: Result<TasksCfg, CacheError>, s': CacheState)
    requires Loaded(repos, s, rs, cfg, r, s')
    ensures forall k | k in s.cache && k != rs :: k in s'.cache && s'.cache[k] == s.cache[k]
    ensures forall k | k in s'.cache :: k in s.cache || k == rs
    ensures rs in s'.cache && (r.Ok? ==> s'.cache[rs] == r.value)
    ensures forall k | k in s.commits :: k in s'.commits && s'.commits[k] >= s.commits[k]
    ensures forall k | k in s.taskSpecs :: k in s'.taskSpecs && s'.taskSpecs[k] >= s.taskSpecs[k]
    ensures forall k | k in s.jobSpecs :: k in s'.jobSpecs && s'.jobSpecs[k] >= s.jobSpecs[k]
  {
    var d := repos.details(rs.Repo, rs.Revision);
    if d.Ok? {
      RaisedKeeps(s.commits, {rs.Revision}, d.value, s'.commits);
      RaisedKeeps(s.taskSpecs, cfg.Tasks.Keys, d.value, s'.taskSpecs);
      RaisedKeeps(s.jobSpecs, cfg.Jobs.Keys, d.value, s'.jobSpecs);
    }
  }

  /**
   * A read that misses and is not turned away ends in Loaded for the
   * configuration it settled on.
   */
  lemma MissLoads(repos: Repos, s: CacheState, rs: Db.RepoState,
                  r: Result<TasksCfg, CacheError>, s': CacheState)
    returns (cfg: TasksCfg)
    requires ReadOutcome(repos, s, rs, r, s') && s' != s
    ensures rs !in s.cache && Loaded(repos, s, rs, cfg, r, s')
  {
    match repos.getFile(rs.Repo, rs.Revision)
    case ReadFailed(msg) =>
      cfg := EmptyCfg;
    case Undecodable =>
      assert false;
    case Contents(c) =>
      cfg := if Accepted(c) then c else EmptyCfg;
  }

  /** A read keeps every cached entry, adds at most rs, and caches what it returns. */
  lemma ReadOutcomeCaches(repos: Repos, s: CacheState, rs: Db.RepoState,
                          r: Result<TasksCfg, CacheError>, s': CacheState)
    requires ReadOutcome(repos, s, rs, r, s')
    ensures forall k | k in s.cache :: k in s'.cache && s'.cache[k] == s.cache[k]
    ensures forall k | k in s'.cache :: k in s.cache || k == rs
    ensures r.Ok? ==> rs in s'.cache && s'.cache[rs] == r.value
    ensures rs in s.cache ==> s' == s
  {
    if s' != s {
      var cfg := MissLoads(repos, s, rs, r, s');
      LoadedKeeps(repos, s, rs, cfg, r, s');
    }
  }

  /** After a successful read, reading the same RepoState again returns the same and changes nothing. */
  lemma ReadAgainHits(repos: Repos, s: CacheState, rs: Db.RepoState, r: Result<TasksCfg, CacheError>,
                      s': CacheState, r2: Result<TasksCfg, CacheError>, s'': CacheState)
    requires ReadOutcome(repos, s, rs, r, s') && r.Ok?
    requires ReadOutcome(repos, s', rs, r2, s'')
    ensures r2 == r && s'' == s'
  {
    ReadOutcomeCaches(repos, s, rs, r, s');
  }

  /** A read never lowers a recent entry nor drops a recent key. */
  lemma ReadNeverLowers(repos: Repos, s: CacheState, rs: Db.RepoState,
                        r: Result<TasksCfg, CacheError>, s': CacheState)
    requires ReadOutcome(repos, s, rs, r, s')
    ensures forall k | k in s.commits :: k in s'.commits && s'.commits[k] >= s.commits[k]
    ensures forall k | k in s.taskSpecs :: k in s'.taskSpecs && s'.taskSpecs[k] >= s.taskSpecs[k]
    ensures forall k | k in s.jobSpecs :: k in s'.jobSpecs && s'.jobSpecs[k] >= s.jobSpecs[k]
  {
    if s' != s {
      var cfg := MissLoads(repos, s, rs, r, s');
      LoadedKeeps(repos, s, rs, cfg, r, s');
    }
  }

  /**
   * A miss that succeeds at a commit after the zero time records the revision
   * and every task and job name of what it returns at that time or later.
   */
  lemma ReadRecordsRecent(repos: Repos, s: CacheState, rs: Db.RepoState,
                          r: Result<TasksCfg, CacheError>, s': CacheState)
    requires ReadOutcome(repos, s, rs, r, s') && rs !in s.cache && r.Ok?
    ensures repos.details(rs.Repo, rs.Revision).Ok?
    ensures var ts := repos.details(rs.Repo, rs.Revision).value;
      ts > Db.ZeroTime ==>
        && rs.Revision in s'.commits && s'.commits[rs.Revision] >= ts
        && (forall n | n in r.value.Tasks :: n in s'.taskSpecs && s'.taskSpecs[n] >= ts)
        && (forall n | n in r.value.Jobs :: n in s'.jobSpecs && s'.jobSpecs[n] >= ts)
  {
    var ts := repos.details(rs.Repo, rs.Revision).value;
    var cfg := r.value;
    assert Loaded(repos, s, rs, cfg, r, s');
    if ts > Db.ZeroTime {
      assert Get(s'.commits, rs.Revision) >= ts;
      forall n | n in cfg.Tasks
        ensures n in s'.taskSpecs && s'.taskSpecs[n] >= ts
      {
        assert Get(s'.taskSpecs, n) >= ts;
      }
      forall n | n in cfg.Jobs
        ensures n in s'.jobSpecs && s'.jobSpecs[n] >= ts
      {
        assert Get(s'.jobSpecs, n) >= ts;
      }
    }
  }

  /**
   * results[j] is what reading rss[j] gave, going from states[j] to
   * states[j + 1]; every read but the last succeeded.
   */
  ghost predicate ReadsInOrder(repos: Repos, rss: seq<Db.RepoState>, states: seq<CacheState>,
                               results: seq<Result<TasksCfg, CacheError>>)
  {
    && |results| <= |rss| && |states| == |results| + 1
    && (forall j | 0 <= j < |results| :: ReadOutcome(repos, states[j], rss[j], results[j], states[j + 1]))
    && (forall j | 0 <= j < |results| - 1 :: results[j].Ok?)
  }

  lemma ExtendReads(repos: Repos, rss: seq<Db.RepoState>, states: seq<CacheState>,
                    results: seq<Result<TasksCfg, CacheError>>, read: Result<TasksCfg, CacheError>, s': CacheState)
    requires ReadsInOrder(repos, rss, states, results) && |results| < |rss|
    requires forall j | 0 <= j < |results| :: results[j].Ok?
    requires ReadOutcome(repos, states[|results|], rss[|results|], read, s')
    ensures ReadsInOrder(repos, rss, states + [s'], results + [read])
  {
    var states', results' := states + [s'], results + [read];
    forall j | 0 <= j < |results'|
      ensures ReadOutcome(repos, states'[j], rss[j], results'[j], states'[j + 1])
    {
      if j < |results| {
        assert states'[j] == states[j] && states'[j + 1] == states[j + 1] && results'[j] == results[j];
      }
    }
  }

  /**
   * GetTaskSpecsForRepoStates went from s0 to s reading rss in order up to
   * the first failure: r is that failure's error, or, when every read
   * succeeded, maps each RepoState to the TaskSpecs its read returned.
   */
  ghost predicate Traced(repos: Repos, rss: seq<Db.RepoState>, s0: CacheState,
                         r: Result<map<Db.RepoState, map<string, TaskSpec>>, CacheError>, s: CacheState)
  {
    exists states: seq<CacheState>, results: seq<Result<TasksCfg, CacheError>> ::
      TracedWith(repos, rss, s0, r, s, states, results)
  }

  ghost predicate TracedWith(repos: Repos, rss: seq<Db.RepoState>, s0: CacheState,
                             r: Result<map<Db.RepoState, map<string, TaskSpec>>, CacheError>, s: CacheState,
                             states: seq<CacheState>, results: seq<Result<TasksCfg, CacheError>>)
  {
    && ReadsInOrder(repos, rss, states, results)
    && states[0] == s0 && states[|results|] == s
    && (r.Err? <==> |results| > 0 && results[|results| - 1].Err?)
    && (r.Err? ==> r == Err(results[|results| - 1].error))
    && (r.Ok? ==> Collects(rss, results, r.value))
  }

  lemma TracedBy(repos: Repos, rss: seq<Db.RepoState>, s0: CacheState,
                 r: Result<map<Db.RepoState, map<string, TaskSpec>>, CacheError>, s: CacheState,
                 states: seq<CacheState>, results: seq<Result<TasksCfg, CacheError>>)
    requires TracedWith(repos, rss, s0, r, s, states, results)
    ensures Traced(repos, rss, s0, r, s)
  {
  }

  /** m maps each RepoState of rss, and nothing else, to the TaskSpecs its read returned. */
  ghost predicate Collects(rss: seq<Db.RepoState>, results: seq<Result<TasksCfg, CacheError>>,
                           m: map<Db.RepoState, map<string, TaskSpec>>)
  {
    && |results| == |rss|
    && (forall k :: k in m <==> k in rss)
    && forall j | 0 <= j < |rss| :: results[j].Ok? && m[rss[j]] == results[j].value.Tasks
  }

  /** The loop state of GetTaskSpecsForRepoStates after |results| successful results. */
  ghost predicate CollectedSoFar(rss: seq<Db.RepoState>, results: seq<Result<TasksCfg, CacheError>>,
                                 rv: map<Db.RepoState, map<string, TaskSpec>>, cache: map<Db.RepoState, TasksCfg>)
  {
    && |results| <= |rss|
    && (forall k :: k in rv <==> k in rss[..|results|])
    && forall j | 0 <= j < |results| ::
         && results[j].Ok? && rss[j] in cache && cache[rss[j]] == results[j].value
         && rss[j] in rv && rv[rss[j]] == results[j].value.Tasks
  }

  /** The state of GetTaskSpecsForRepoStates from s0 after |results| successful reads, now at s. */
  ghost predicate Progress(repos: Repos, rss: seq<Db.RepoState>, s0: CacheState, states: seq<CacheState>,
                           results: seq<Result<TasksCfg, CacheError>>,
                           rv: map<Db.RepoState, map<string, TaskSpec>>, s: CacheState)
  {
    && ReadsInOrder(repos, rss, states, results)
    && states[0] == s0 && states[|results|] == s
    && (forall j | 0 <= j < |results| :: results[j].Ok?)
    && CollectedSoFar(rss, results, rv, s.cache)
  }

  lemma CollectStep(rss: seq<Db.RepoState>, results: seq<Result<TasksCfg, CacheError>>, read: Result<TasksCfg, CacheError>,
                    rv: map<Db.RepoState, map<string, TaskSpec>>, c0: map<Db.RepoState, TasksCfg>, c1: map<Db.RepoState, TasksCfg>)
    requires CollectedSoFar(rss, results, rv, c0) && |results| < |rss|
    requires forall k | k in c0 :: k in c1 && c1[k] == c0[k]
    requires read.Ok? && rss[|results|] in c1 && c1[rss[|results|]] == read.value
    ensures CollectedSoFar(rss, results + [read], rv[rss[|results|] := read.value.Tasks], c1)
  {
    var i := |results|;
    var results', rv' := results + [read], rv[rss[i] := read.value.Tasks];
    assert rss[..i + 1] == rss[..i] + [rss[i]];
    forall j | 0 <= j < i + 1
      ensures && results'[j].Ok? && rss[j] in c1 && c1[rss[j]] == results'[j].value
              && rss[j] in rv' && rv'[rss[j]] == results'[j].value.Tasks
    {
      if j < i {
        assert results'[j] == results[j];
      }
    }
  }

  lemma CollectedAll(rss: seq<Db.RepoState>, results: seq<Result<TasksCfg, CacheError>>,
                     rv: map<Db.RepoState, map<string, TaskSpec>>, cache: map<Db.RepoState, TasksCfg>)
    requires CollectedSoFar(rss, results, rv, cache) && |results| == |rss|
    ensures Collects(rss, results, rv)
  {
    assert rss[..|results|] == rss;
  }

  class TaskCfgCache {
    const repos: Repos
    var cache: map<Db.RepoState, TasksCfg>
    var recentCommits: map<string, int>
    var recentJobSpecs: map<string, int>
    var recentTaskSpecs: map<string, int>

    /** NewTaskCfgCache: every map empty. */
    constructor (repos: Repos)
      ensures this.repos == repos
      ensures cache == map[] && recentCommits == map[] && recentJobSpecs == map[] && recentTaskSpecs == map[]
    {
      this.repos := repos;
      cache := map[];
      recentCommits := map[];
      recentJobSpecs := map[];
      recentTaskSpecs := map[];
    }

    /** The three recent maps are unchanged. */
    twostate predicate RecentUnchanged()
      reads this
    {
      recentCommits == old(recentCommits) && recentJobSpecs == old(recentJobSpecs)
        && recentTaskSpecs == old(recentTaskSpecs)
    }

    /** The four maps, as a value. */
    function State(): CacheState
      reads this
    {
      CacheState(cache, recentCommits, recentJobSpecs, recentTaskSpecs)
    }

    /** readTasksCfg: the call goes from the state before to the state after as ReadOutcome allows. */
    method ReadTasksCfg(rs: Db.RepoState) returns (r: Result<TasksCfg, CacheError>)
      modifies this
      ensures ReadOutcome(repos, old(State()), rs, r, State())
    {
      if rs in cache {
        return Ok(cache[rs]);
      }
      if rs.Repo !in repos.known {
        return Err(RepoNotFound(rs.Repo));
      }
      var cfg: TasksCfg;
      match repos.getFile(rs.Repo, rs.Revision) {
        case ReadFailed(msg) =>
          var text := ReadFileMessage(msg);
          if !SaysMissing(text) {
            return Err(ReadError(text));
          }
          cfg := EmptyCfg;
        case Undecodable =>
          return Err(DecodeError);
        case Contents(c) =>
          var parsed := ParseTasksCfg(c);
          if parsed.Ok? {
            cfg := parsed.value;
          } else if SaysMissing(Message(parsed.error)) {
            cfg := EmptyCfg;
          } else {
            return Err(InvalidCfg(parsed.error));
          }
      }
      r := Store(rs, cfg);
    }

    /** The end of readTasksCfg on a miss: cache cfg, then raise the recent entries to the commit time. */
    method Store(rs: Db.RepoState, cfg: TasksCfg) returns (r: Result<TasksCfg, CacheError>)
      modifies this
      ensures Loaded(repos, old(State()), rs, cfg, r, State())
    {
      cache := cache[rs := cfg];
      var d := repos.details(rs.Repo, rs.Revision);
      if d.Err? {
        return Err(DetailsError(d.error));
      }
      var ts := d.value;
      recentCommits := Max1(recentCommits, rs.Revision, ts);
      recentTaskSpecs := Raise(recentTaskSpecs, cfg.Tasks.Keys, ts);
      recentJobSpecs := Raise(recentJobSpecs, cfg.Jobs.Keys, ts);
      r := Ok(cfg);
    }

    /** GetTaskSpec: one read, then the named TaskSpec of its configuration, copied. */
    method GetTaskSpec(rs: Db.RepoState, name: string) returns (r: Result<TaskSpec, CacheError>)
      modifies this
      ensures exists read ::
        && ReadOutcome(repos, old(State()), rs, read, State())
        && (read.Err? ==> r == Err(read.error))
        && (read.Ok? && name in read.value.Tasks ==> r == Ok(read.value.Tasks[name]))
        && (read.Ok? && name !in read.value.Tasks ==> r == Err(NoSuchTaskSpec(name, rs)))
    {
      var cfg := ReadTasksCfg(rs);
      if cfg.Err? {
        return Err(cfg.error);
      }
      if name !in cfg.value.Tasks {
        return Err(NoSuchTaskSpec(name, rs));
      }
      r := Ok(CopyTaskSpec(cfg.value.Tasks[name]));
    }

    /** GetJobSpec: one read, then the named JobSpec, copied, and so with a zero priority. */
    method GetJobSpec(rs: Db.RepoState, name: string) returns (r: Result<JobSpec, CacheError>)
      modifies this
      ensures exists read ::
        && ReadOutcome(repos, old(State()), rs, read, State())
        && (read.Err? ==> r == Err(read.error))
        && (read.Ok? && name in read.value.Jobs ==> r == Ok(read.value.Jobs[name].(Priority := 0.0)))
        && (read.Ok? && name !in read.value.Jobs ==> r == Err(NoSuchJobSpec(name, rs)))
    {
      var cfg := ReadTasksCfg(rs);
      if cfg.Err? {
        return Err(cfg.error);
      }
      if name !in cfg.value.Jobs {
        return Err(NoSuchJobSpec(name, rs));
      }
      r := Ok(CopyJobSpec(cfg.value.Jobs[name]));
    }

    /** One step of GetTaskSpecsForRepoStates: one read, then a copy of its TaskSpecs. */
    method TaskSpecsAt(rs: Db.RepoState) returns (r: Result<map<string, TaskSpec>, CacheError>, ghost read: Result<TasksCfg, CacheError>)
      modifies this
      ensures ReadOutcome(repos, old(State()), rs, read, State())
      ensures read.Err? ==> r == Err(read.error)
      ensures read.Ok? ==> r == Ok(read.value.Tasks)
    {
      var cfg := ReadTasksCfg(rs);
      read := cfg;
      if cfg.Err? {
        return Err(cfg.error), read;
      }
      var tasks := cfg.value.Tasks;
      var subMap := map name | name in tasks :: CopyTaskSpec(tasks[name]);
      CopiedSpecsEqual(tasks);
      r := Ok(subMap);
    }

    /**
     * GetTaskSpecsForRepoStates: the RepoStates are read in order, the first
     * failing read aborting with its error; otherwise each RepoState maps to
     * the TaskSpecs its read returned.
     */
    method GetTaskSpecsForRepoStates(rss: seq<Db.RepoState>) returns (r: Result<map<Db.RepoState, map<string, TaskSpec>>, CacheError>)
      modifies this
      ensures Traced(repos, rss, old(State()), r, State())
    {
      var rv: map<Db.RepoState, map<string, TaskSpec>> := map[];
      ghost var states := [State()];
      ghost var results: seq<Result<TasksCfg, CacheError>> := [];
      var i := 0;
      while i < |rss|
        invariant 0 <= i <= |rss| && |results| == i
        invariant Progress(repos, rss, old(State()), states, results, rv, State())
      {
        var err;
        err, rv, states, results := CollectNext(rss, i, rv, old(State()), states, results);
        if err.Some? {
          r := Err(err.value);
          TracedBy(repos, rss, old(State()), r, State(), states, results);
          return;
        }
        i := i + 1;
      }
      CollectedAll(rss, results, rv, cache);
      r := Ok(rv);
      TracedBy(repos, rss, old(State()), r, State(), states, results);
    }

    /** The body of the GetTaskSpecsForRepoStates loop: read rss[i] and record its TaskSpecs. */
    method CollectNext(rss: seq<Db.RepoState>, i: nat, rv: map<Db.RepoState, map<string, TaskSpec>>,
                       ghost s0: CacheState, ghost states: seq<CacheState>, ghost results: seq<Result<TasksCfg, CacheError>>)
      returns (err: Option<CacheError>, rv': map<Db.RepoState, map<string, TaskSpec>>,
               ghost states': seq<CacheState>, ghost results': seq<Result<TasksCfg, CacheError>>)
      requires i == |results| < |rss| && Progress(repos, rss, s0, states, results, rv, State())
      modifies this
      ensures ReadsInOrder(repos, rss, states', results') && |results'| == |results| + 1
      ensures states'[0] == s0 && states'[|results'|] == State()
      ensures err.Some? ==> results'[|results|].Err? && err.value == results'[|results|].error
      ensures err.None? ==> Progress(repos, rss, s0, states', results', rv', State())
    {
      ghost var before := State();
      var subMap, read := TaskSpecsAt(rss[i]);
      ExtendReads(repos, rss, states, results, read, State());
      states', results' := states + [State()], results + [read];
      if subMap.Err? {
        return Some(subMap.error), rv, states', results';
      }
      ReadOutcomeCaches(repos, before, rss[i], read, State());
      CollectStep(rss, results, read, rv, before.cache, cache);
      err, rv' := None, rv[rss[i] := subMap.value];
    }

    /** Whether Cleanup can look up the commit time of rs. */
    predicate Resolves(rs: Db.RepoState) {
      rs.Repo in repos.known && repos.details(rs.Repo, rs.Revision).Ok?
    }

    /** An entry whose commit is strictly older than start. */
    predicate Stale(rs: Db.RepoState, start: int) {
      Resolves(rs) && repos.details(rs.Repo, rs.Revision).value < start
    }

    /**
     * Cleanup: drops every cache entry whose commit is strictly before
     * now - period and every recent entry strictly before it. The first
     * failed lookup aborts the sweep with the entries pruned so far removed
     * and the recent maps untouched.
     */
    method Cleanup(period: int, now: int) returns (err: Option<CacheError>)
      modifies this
      ensures err.None? <==> forall k | k in old(cache) :: Resolves(k)
      ensures err.None? ==>
        && cache == (map k | k in old(cache) && !Stale(k, now - period) :: old(cache)[k])
        && recentCommits == Recent(old(recentCommits), now - period)
        && recentTaskSpecs == Recent(old(recentTaskSpecs), now - period)
        && recentJobSpecs == Recent(old(recentJobSpecs), now - period)
      ensures err.Some? ==>
        && (forall k | k in cache :: k in old(cache) && cache[k] == old(cache)[k])
        && (forall k | k in old(cache) && k !in cache :: Stale(k, now - period))
        && RecentUnchanged()
    {
      var start := now - period;
      err := SweepCache(start);
      if err.Some? {
        return;
      }
      recentCommits := Prune(recentCommits, start);
      recentTaskSpecs := Prune(recentTaskSpecs, start);
      recentJobSpecs := Prune(recentJobSpecs, start);
    }

    /** The cache loop of Cleanup: stale entries go, the first failed lookup aborts. */
    method SweepCache(start: int) returns (err: Option<CacheError>)
      modifies this
      ensures err.None? <==> forall k | k in old(cache) :: Resolves(k)
      ensures err.None? ==> cache == (map k | k in old(cache) && !Stale(k, start) :: old(cache)[k])
      ensures forall k | k in cache :: k in old(cache) && cache[k] == old(cache)[k]
      ensures forall k | k in old(cache) && k !in cache :: Stale(k, start)
      ensures RecentUnchanged()
    {
      var todo := cache.Keys;
      while todo != {}
        invariant todo <= old(cache).Keys
        invariant forall k | k in cache :: k in old(cache) && cache[k] == old(cache)[k]
        invariant forall k | k in old(cache) :: (k in cache <==> k in todo || !Stale(k, start))
        invariant forall k | k in old(cache) && k !in todo :: Resolves(k)
        invariant RecentUnchanged()
        decreases todo
      {
        var rs :| rs in todo;
        if rs.Repo !in repos.known {
          return Some(RepoNotFound(rs.Repo));
        }
        var details := repos.details(rs.Repo, rs.Revision);
        if details.Err? {
          return Some(DetailsError(details.error));
        }
        if details.value < start {
          cache := map k | k in cache && k != rs :: cache[k];
        }
        todo := todo - {rs};
      }
      err := None;
    }

    /** RecentSpecsAndCommits: the names in each recent map, each once. */
    method RecentSpecsAndCommits() returns (jobs: seq<string>, tasks: seq<string>, commits: seq<string>)
      ensures forall k :: k in jobs <==> k in recentJobSpecs
      ensures forall k :: k in tasks <==> k in recentTaskSpecs
      ensures forall k :: k in commits <==> k in recentCommits
      ensures |jobs| == |recentJobSpecs| && |tasks| == |recentTaskSpecs| && |commits| == |recentCommits|
    {
      jobs := StringMapKeys(recentJobSpecs);
      tasks := StringMapKeys(recentTaskSpecs);
      commits := StringMapKeys(recentCommits);
    }

  }

}
