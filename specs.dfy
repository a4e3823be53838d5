/**
 * The task configuration of a repository (task_scheduler/go/specs/specs.go):
 * TaskSpecs and JobSpecs, their validation and copying, and the depth-first
 * search that rejects unknown, cyclic or unreachable task dependencies.
 * The configuration is taken as already decoded from JSON.
 */
module Specs {
  import opened Wrappers
  import Text

  datatype CipdPackage = CipdPackage(Name: string, Path: string, Version: string)

  datatype TaskSpec = TaskSpec(
    CipdPackages: seq<CipdPackage>,
    Dependencies: seq<string>,
    Dimensions: seq<string>,
    Environment: map<string, string>,
    ExtraArgs: seq<string>,
    Isolate: string,
    Priority: real)

  datatype JobSpec = JobSpec(Priority: real, TaskSpecs: seq<string>)

  datatype TasksCfg = TasksCfg(Jobs: map<string, JobSpec>, Tasks: map<string, TaskSpec>)

  /** The configuration used for a commit that has no tasks file. */
  const EmptyCfg := TasksCfg(map[], map[])

  datatype SpecError =
    | InvalidCipdPackage                          // "CIPD packages must have a name, path, and version."
    | DimensionWithoutColon(dim: string)          // "Dimension %q does not contain a colon!"
    | MissingIsolate                              // "Isolate file is required."
    | UnknownJobTask(job: string, task: string)   // "Job %q has unknown task %q as a dependency."
    | UnknownDependency(task: string, dep: string)// "Task %q has unknown task %q as a dependency."
    | Cycle(from: string, to: string)             // "Found a circular dependency involving %q and %q"
    | Unreachable(task: string)                   // "Task %q is not reachable by any Job!"

  /** The text of each error, as fmt.Errorf formats it. */
  function Message(e: SpecError): string {
    match e
    case InvalidCipdPackage => "CIPD packages must have a name, path, and version."
    case DimensionWithoutColon(d) => "Dimension " + Quote(d) + " does not contain a colon!"
    case MissingIsolate => "Isolate file is required."
    case UnknownJobTask(j, t) => "Job " + Quote(j) + " has unknown task " + Quote(t) + " as a dependency."
    case UnknownDependency(t, d) => "Task " + Quote(t) + " has unknown task " + Quote(d) + " as a dependency."
    case Cycle(a, b) => "Found a circular dependency involving " + Quote(a) + " and " + Quote(b)
    case Unreachable(t) => "Task " + Quote(t) + " is not reachable by any Job!"
  }

  /** %q: the string in double quotes, with quotes and backslashes escaped. */
  function Quote(s: string): string {
    "\"" + Escape(s) + "\""
  }

  function Escape(s: string): string
    decreases |s|
  {
    if s == [] then []
    else (if s[0] == '"' || s[0] == '\\' then ['\\', s[0]] else [s[0]]) + Escape(s[1..])
  }

  lemma {:induction false} EscapeAppend(a: string, b: string)
    ensures Escape(a + b) == Escape(a) + Escape(b)
    decreases |a|
  {
    if a != [] {
      var h := if a[0] == '"' || a[0] == '\\' then ['\\', a[0]] else [a[0]];
      assert (a + b)[0] == a[0] && (a + b)[1..] == a[1..] + b;
      EscapeAppend(a[1..], b);
      calc {
        Escape(a + b);
        h + Escape(a[1..] + b);
        h + (Escape(a[1..]) + Escape(b));
        (h + Escape(a[1..])) + Escape(b);
        Escape(a) + Escape(b);
      }
    } else {
      assert a + b == b;
    }
  }

  lemma {:induction false} EscapePlain(s: string)
    requires '"' !in s && '\\' !in s
    ensures Escape(s) == s
    decreases |s|
  {
    if s != [] {
      EscapePlain(s[1..]);
      assert [s[0]] + s[1..] == s;
    }
  }

  /** Text without quotes or backslashes that occurs in a name occurs in the name's %q form. */
  lemma QuoteShows(name: string, sub: string)
    requires Text.Contains(name, sub) && '"' !in sub && '\\' !in sub
    ensures Text.Contains(Quote(name), sub)
  {
    var i :| 0 <= i <= |name| - |sub| && Text.OccursAt(name, sub, i);
    assert name[i..i + |sub|] == sub;
    var a, c := name[..i], name[i + |sub|..];
    assert name == a + sub + c;
    EscapeAppend(a + sub, c);
    EscapeAppend(a, sub);
    EscapePlain(sub);
    assert Text.Contains(sub, sub) by {
      assert Text.OccursAt(sub, sub, 0);
    }
    Text.ContainsWithin(Escape(a), sub, Escape(c), sub);
    Text.ContainsWithin("\"", Escape(name), "\"", sub);
  }

  // ---------------------------------------------------------------------------
  // Validate

  /** What a well-formed TaskSpec is: named and placed packages, key:value dimensions, an isolate file. */
  predicate WellFormed(t: TaskSpec) {
    && (forall i | 0 <= i < |t.CipdPackages| :: t.CipdPackages[i].Name != "" && t.CipdPackages[i].Path != "")
    && (forall i | 0 <= i < |t.Dimensions| :: ':' in t.Dimensions[i])
    && t.Isolate != ""
  }

  /** The first package without a name or path, scanning in order. */
  function FirstBadPackage(ps: seq<CipdPackage>): (r: Option<nat>)
    ensures r.None? <==> forall i | 0 <= i < |ps| :: ps[i].Name != "" && ps[i].Path != ""
    ensures r.Some? ==> r.value < |ps| && (ps[r.value].Name == "" || ps[r.value].Path == "")
  {
    if ps == [] then None
    else if ps[0].Name == "" || ps[0].Path == "" then Some(0)
    else match FirstBadPackage(ps[1..])
         case None => None
         case Some(i) => Some(i + 1)
  }

  /**
   * The first dimension that strings.SplitN(d, ":", 2) does not split in two,
   * i.e. the first without a colon.
   */
  function FirstWithoutColon(ds: seq<string>): (r: Option<nat>)
    ensures r.None? <==> forall i | 0 <= i < |ds| :: ':' in ds[i]
    ensures r.Some? ==> r.value < |ds| && ':' !in ds[r.value] && forall j | 0 <= j < r.value :: ':' in ds[j]
  {
    if ds == [] then None
    else if ':' !in ds[0] then Some(0)
    else match FirstWithoutColon(ds[1..])
         case None => None
         case Some(i) => Some(i + 1)
  }

  /** TaskSpec.Validate: packages first, then dimensions, then the isolate file. */
  function Validate(t: TaskSpec): (r: Option<SpecError>)
    ensures r.None? <==> WellFormed(t)
    ensures r == Some(InvalidCipdPackage) <==>
      exists i | 0 <= i < |t.CipdPackages| :: t.CipdPackages[i].Name == "" || t.CipdPackages[i].Path == ""
    ensures r.Some? && r.value.DimensionWithoutColon? ==>
      exists i | 0 <= i < |t.Dimensions| :: t.Dimensions[i] == r.value.dim && ':' !in r.value.dim
    ensures r == Some(MissingIsolate) ==> t.Isolate == ""
    ensures r.Some? ==> r.value.InvalidCipdPackage? || r.value.DimensionWithoutColon? || r.value.MissingIsolate?
    ensures (r.Some? && r.value.DimensionWithoutColon?) <==>
      FirstBadPackage(t.CipdPackages).None? && FirstWithoutColon(t.Dimensions).Some?
    ensures r.Some? && r.value.DimensionWithoutColon? ==>
      r.value.dim == t.Dimensions[FirstWithoutColon(t.Dimensions).value]
    ensures r == Some(MissingIsolate) <==>
      FirstBadPackage(t.CipdPackages).None? && FirstWithoutColon(t.Dimensions).None? && t.Isolate == ""
  {
    if FirstBadPackage(t.CipdPackages).Some? then Some(InvalidCipdPackage)
    else match FirstWithoutColon(t.Dimensions)
         case Some(i) => Some(DimensionWithoutColon(t.Dimensions[i]))
         case None => if t.Isolate == "" then Some(MissingIsolate) else None
  }

  /** A package's Version is never looked at, whatever the error message says. */
  lemma VersionIgnored(t: TaskSpec, i: int, v: string)
    requires 0 <= i < |t.CipdPackages|
    ensures var t' := t.(CipdPackages := t.CipdPackages[i := t.CipdPackages[i].(Version := v)]);
      Validate(t') == Validate(t)
  {
    var t' := t.(CipdPackages := t.CipdPackages[i := t.CipdPackages[i].(Version := v)]);
    assert forall k | 0 <= k < |t.CipdPackages| ::
      t'.CipdPackages[k].Name == t.CipdPackages[k].Name && t'.CipdPackages[k].Path == t.CipdPackages[k].Path;
  }

  // ---------------------------------------------------------------------------
  // Copy

  /** TaskSpec.Copy: a field-by-field deep copy. */
  function CopyTaskSpec(t: TaskSpec): (c: TaskSpec)
    ensures c == t
  {
    TaskSpec([] + t.CipdPackages, [] + t.Dependencies, [] + t.Dimensions,
             map k | k in t.Environment :: t.Environment[k],
             [] + t.ExtraArgs, t.Isolate, t.Priority)
  }

  /** JobSpec.Copy copies the task list but not the priority, which starts at zero. */
  function CopyJobSpec(j: JobSpec): (c: JobSpec)
    ensures c.TaskSpecs == j.TaskSpecs
    ensures c.Priority == 0.0
    ensures c == j <==> j.Priority == 0.0
  {
    JobSpec(0.0, [] + j.TaskSpecs)
  }

  // ---------------------------------------------------------------------------
  // The dependency graph

  /** a depends on b. b may or may not name a task. */
  predicate Edge(tasks: map<string, TaskSpec>, a: string, b: string) {
    a in tasks && b in tasks[a].Dependencies
  }

  /** p follows dependency edges. */
  predicate IsPath(tasks: map<string, TaskSpec>, p: seq<string>) {
    |p| >= 1 && forall i, j | 0 <= i < |p| && 0 <= j < |p| && j == i + 1 :: Edge(tasks, p[i], p[j])
  }

  /** Some job lists t among its tasks. */
  predicate IsRoot(jobs: map<string, JobSpec>, t: string) {
    exists j | j in jobs :: t in jobs[j].TaskSpecs
  }

  predicate RootPath(tasks: map<string, TaskSpec>, jobs: map<string, JobSpec>, p: seq<string>) {
    IsPath(tasks, p) && IsRoot(jobs, p[0])
  }

  /** v can be reached by following dependencies from some job's task. */
  ghost predicate Reachable(tasks: map<string, TaskSpec>, jobs: map<string, JobSpec>, v: string) {
    exists p :: RootPath(tasks, jobs, p) && p[|p| - 1] == v
  }

  /** No dependency path leads from a task back to itself. */
  ghost predicate Acyclic(tasks: map<string, TaskSpec>) {
    forall p :: IsPath(tasks, p) && |p| >= 2 ==> p[0] != p[|p| - 1]
  }

  predicate JobsKnown(tasks: map<string, TaskSpec>, jobs: map<string, JobSpec>) {
    forall j, t | j in jobs && t in jobs[j].TaskSpecs :: t in tasks
  }

  predicate DepsKnown(tasks: map<string, TaskSpec>) {
    forall t, d | t in tasks && d in tasks[t].Dependencies :: d in tasks
  }

  /** Every dependency of a member of s is a member of s. */
  predicate Closed(tasks: map<string, TaskSpec>, s: set<string>) {
    s <= tasks.Keys && forall x, d | x in s && d in tasks[x].Dependencies :: d in s
  }

  /** What findCycles accepts. */
  ghost predicate ConfigSound(tasks: map<string, TaskSpec>, jobs: map<string, JobSpec>) {
    && JobsKnown(tasks, jobs)
    && DepsKnown(tasks)
    && (forall t | t in tasks :: Reachable(tasks, jobs, t))
    && Acyclic(tasks)
  }

  /** The fact about the configuration that each findCycles error reports. */
  ghost predicate Explains(tasks: map<string, TaskSpec>, jobs: map<string, JobSpec>, e: SpecError) {
    match e
    case UnknownJobTask(j, t) => j in jobs && t in jobs[j].TaskSpecs && t !in tasks
    case UnknownDependency(t, d) => Edge(tasks, t, d) && d !in tasks
    case Cycle(a, b) => Edge(tasks, a, b) && exists p :: IsPath(tasks, p) && p[0] == b && p[|p| - 1] == a
    case Unreachable(t) => t in tasks && !Reachable(tasks, jobs, t)
    case _ => false
  }

  lemma PathExtend(tasks: map<string, TaskSpec>, p: seq<string>, b: string)
    requires IsPath(tasks, p) && Edge(tasks, p[|p| - 1], b)
    ensures IsPath(tasks, p + [b])
  {
    var q := p + [b];
    forall i | 0 <= i < |q| - 1
      ensures Edge(tasks, q[i], q[i + 1])
    {
      if i < |p| - 1 {
        assert q[i] == p[i] && q[i + 1] == p[i + 1];
      }
    }
  }

  lemma PathSuffix(tasks: map<string, TaskSpec>, p: seq<string>, k: int)
    requires IsPath(tasks, p) && 0 <= k < |p|
    ensures IsPath(tasks, p[k..])
  {
    var q := p[k..];
    forall i | 0 <= i < |q| - 1
      ensures Edge(tasks, q[i], q[i + 1])
    {
      assert q[i] == p[k + i] && q[i + 1] == p[k + i + 1];
    }
  }

  /** Every error findCycles can report is a reason the configuration is unsound. */
  lemma ExplainedIsUnsound(tasks: map<string, TaskSpec>, jobs: map<string, JobSpec>, e: SpecError)
    requires Explains(tasks, jobs, e)
    ensures !ConfigSound(tasks, jobs)
  {
    match e
    case UnknownJobTask(j, t) =>
      assert !JobsKnown(tasks, jobs);
    case UnknownDependency(t, d) =>
      assert !DepsKnown(tasks);
    case Cycle(a, b) =>
      CycleFromBackEdge(tasks, a, b);
    case Unreachable(t) =>
  }

  /** An edge a -> b together with a path b ~> a closes a cycle. */
  lemma CycleFromBackEdge(tasks: map<string, TaskSpec>, a: string, b: string)
    requires Edge(tasks, a, b) && exists p :: IsPath(tasks, p) && p[0] == b && p[|p| - 1] == a
    ensures !Acyclic(tasks)
  {
    var p :| IsPath(tasks, p) && p[0] == b && p[|p| - 1] == a;
    PathExtend(tasks, p, b);
    var q := p + [b];
    assert IsPath(tasks, q) && |q| >= 2 && q[0] == q[|q| - 1];
  }

  /** A set holding every job task and closed under dependencies holds every reachable task. */
  lemma {:induction false} ClosedContainsReachable(tasks: map<string, TaskSpec>, jobs: map<string, JobSpec>,
                                                   s: set<string>, p: seq<string>)
    requires forall j, t | j in jobs && t in jobs[j].TaskSpecs :: t in s
    requires Closed(tasks, s)
    requires RootPath(tasks, jobs, p)
    ensures p[|p| - 1] in s
  {
    if |p| == 1 {
      var j :| j in jobs && p[0] in jobs[j].TaskSpecs;
    } else {
      var q := p[..|p| - 1];
      assert IsPath(tasks, q) by {
        forall i | 0 <= i < |q| - 1
          ensures Edge(tasks, q[i], q[i + 1])
        {
          assert Edge(tasks, p[i], p[i + 1]);
        }
      }
      ClosedContainsReachable(tasks, jobs, s, q);
      assert Edge(tasks, q[|q| - 1], p[|p| - 1]);
    }
  }

  /** A ranking in which every dependency ranks below its dependent. */
  ghost predicate RankedBelow(tasks: map<string, TaskSpec>, rank: map<string, nat>) {
    && rank.Keys <= tasks.Keys
    && forall x, d | x in rank && d in tasks[x].Dependencies :: d in rank && rank[d] < rank[x]
  }

  /** Along a path starting at a ranked task the rank strictly falls. */
  lemma {:induction false} RankFalls(tasks: map<string, TaskSpec>, rank: map<string, nat>, p: seq<string>)
    requires RankedBelow(tasks, rank) && IsPath(tasks, p) && p[0] in rank
    ensures p[|p| - 1] in rank
    ensures |p| >= 2 ==> rank[p[|p| - 1]] < rank[p[0]]
  {
    if |p| >= 2 {
      assert Edge(tasks, p[0], p[1]);
      PathSuffix(tasks, p, 1);
      RankFalls(tasks, rank, p[1..]);
    }
  }

  /** A ranking of every task as above rules out cycles. */
  lemma RankAcyclic(tasks: map<string, TaskSpec>, rank: map<string, nat>)
    requires RankedBelow(tasks, rank) && tasks.Keys <= rank.Keys
    ensures Acyclic(tasks)
  {
    forall p | IsPath(tasks, p) && |p| >= 2
      ensures p[0] != p[|p| - 1]
    {
      assert Edge(tasks, p[0], p[1]);
      RankFalls(tasks, rank, p);
    }
  }

  // ---------------------------------------------------------------------------
  // findCycles

  /**
   * The invariant of the depth-first search. The ghost stack lists the active
   * vertices in the order they were entered and is a path from a job task;
   * every visited vertex is reachable; the vertices that have finished are
   * exactly the visited ones no longer active, and each is ranked above all
   * its dependencies.
   */
  ghost predicate DfsInv(tasks: map<string, TaskSpec>, jobs: map<string, JobSpec>,
                         visited: set<string>, active: set<string>, stack: seq<string>,
                         rank: map<string, nat>, counter: nat)
  {
    && visited <= tasks.Keys
    && active <= visited
    && StackInv(tasks, jobs, active, stack)
    && (forall x | x in visited :: Reachable(tasks, jobs, x))
    && rank.Keys == visited - active
    && RankedBelow(tasks, rank)
    && (forall x | x in rank :: rank[x] < counter)
  }

  /** The ghost stack lists the active vertices once each, and is a path from a job task. */
  ghost predicate StackInv(tasks: map<string, TaskSpec>, jobs: map<string, JobSpec>,
                           active: set<string>, stack: seq<string>)
  {
    && (forall i | 0 <= i < |stack| :: stack[i] in active)
    && (forall x | x in active :: x in stack)
    && (forall i, j | 0 <= i < j < |stack| :: stack[i] != stack[j])
    && (stack != [] ==> RootPath(tasks, jobs, stack))
  }

  /** Pushing a new vertex reached by an edge (or a job task on an empty stack) keeps the stack invariant. */
  lemma StackPush(tasks: map<string, TaskSpec>, jobs: map<string, JobSpec>,
                  active: set<string>, stack: seq<string>, v: string)
    requires StackInv(tasks, jobs, active, stack) && v !in active
    requires if stack == [] then IsRoot(jobs, v) else Edge(tasks, stack[|stack| - 1], v)
    ensures StackInv(tasks, jobs, active + {v}, stack + [v])
    ensures Reachable(tasks, jobs, v)
  {
    var p := stack + [v];
    assert forall i | 0 <= i < |stack| :: p[i] == stack[i];
    if stack == [] {
      assert p == [v];
    } else {
      PathExtend(tasks, stack, v);
    }
    assert RootPath(tasks, jobs, p);
    assert p[|p| - 1] == v;
    forall i, j | 0 <= i < j < |p|
      ensures p[i] != p[j]
    {
      if j == |stack| {
        assert stack[i] in active;
      }
    }
  }

  /** Entering v keeps the invariant. */
  lemma DfsEnter(tasks: map<string, TaskSpec>, jobs: map<string, JobSpec>,
                 visited: set<string>, active: set<string>, stack: seq<string>,
                 rank: map<string, nat>, counter: nat, v: string)
    requires DfsInv(tasks, jobs, visited, active, stack, rank, counter)
    requires v in tasks && v !in visited
    requires if stack == [] then IsRoot(jobs, v) else Edge(tasks, stack[|stack| - 1], v)
    ensures DfsInv(tasks, jobs, visited + {v}, active + {v}, stack + [v], rank, counter)
  {
    StackPush(tasks, jobs, active, stack, v);
    assert visited + {v} - (active + {v}) == visited - active;
  }

  /** Popping the top vertex v, no longer active, keeps the stack invariant. */
  lemma StackPop(tasks: map<string, TaskSpec>, jobs: map<string, JobSpec>,
                 active: set<string>, stack: seq<string>, v: string)
    requires StackInv(tasks, jobs, active + {v}, stack + [v]) && v !in active
    ensures StackInv(tasks, jobs, active, stack)
  {
    var p := stack + [v];
    assert forall i | 0 <= i < |stack| :: stack[i] == p[i];
    assert forall i | 0 <= i < |stack| :: p[i] != p[|stack|];
    forall x | x in active
      ensures x in stack
    {
      var i :| 0 <= i < |p| && p[i] == x;
      assert i < |stack|;
    }
    if stack != [] {
      assert IsPath(tasks, stack) by {
        forall i | 0 <= i < |stack| - 1
          ensures Edge(tasks, stack[i], stack[i + 1])
        {
          assert Edge(tasks, p[i], p[i + 1]);
        }
      }
    }
  }

  /** Leaving v once all its dependencies have finished keeps the invariant. */
  lemma DfsFinish(tasks: map<string, TaskSpec>, jobs: map<string, JobSpec>,
                  visited: set<string>, active: set<string>, stack: seq<string>,
                  rank: map<string, nat>, counter: nat, v: string)
    requires DfsInv(tasks, jobs, visited + {v}, active + {v}, stack + [v], rank, counter)
    requires v !in active && v in tasks
    requires forall d | d in tasks[v].Dependencies :: d in rank && rank[d] < counter
    ensures DfsInv(tasks, jobs, visited + {v}, active, stack, rank[v := counter], counter + 1)
  {
    StackPop(tasks, jobs, active, stack, v);
    var r' := rank[v := counter];
    assert r'.Keys == visited + {v} - active;
    assert RankedBelow(tasks, r');
  }

  /** With nothing active, the visited set is closed under dependencies. */
  lemma DfsDoneClosed(tasks: map<string, TaskSpec>, jobs: map<string, JobSpec>,
                      visited: set<string>, stack: seq<string>, rank: map<string, nat>, counter: nat)
    requires DfsInv(tasks, jobs, visited, {}, stack, rank, counter)
    ensures Closed(tasks, visited) && rank.Keys == visited
  {
    assert visited - {} == visited;
  }

  /** Every vertex ranked in r keeps its rank in r'. */
  ghost predicate RankExtends(r: map<string, nat>, r': map<string, nat>) {
    forall x | x in r :: x in r' && r'[x] == r[x]
  }

  /** Every dependency in deps has finished, below the counter. */
  ghost predicate DepsRanked(deps: seq<string>, rank: map<string, nat>, counter: nat) {
    forall d | d in deps :: d in rank && rank[d] < counter
  }

  /** One more dependency finished keeps the earlier ones ranked, and ranks extend transitively. */
  lemma DepsRankedStep(rank0: map<string, nat>, deps: seq<string>, i: nat,
                       rank: map<string, nat>, counter: nat, rank': map<string, nat>, counter': nat)
    requires i < |deps| && DepsRanked(deps[..i], rank, counter)
    requires RankExtends(rank0, rank) && RankExtends(rank, rank')
    requires deps[i] in rank' && forall x | x in rank' :: rank'[x] < counter'
    ensures DepsRanked(deps[..i + 1], rank', counter') && RankExtends(rank0, rank')
  {
    assert deps[..i + 1] == deps[..i] + [deps[i]];
  }

  /** Leaving v at the end of visit(v): v finishes with the next rank, and earlier ranks stay. */
  lemma VisitDone(tasks: map<string, TaskSpec>, jobs: map<string, JobSpec>, v: string,
                  active: set<string>, stack: seq<string>, rank: map<string, nat>,
                  vis: set<string>, rk: map<string, nat>, cnt: nat)
    requires DfsInv(tasks, jobs, vis, active + {v}, stack + [v], rk, cnt)
    requires v in tasks && v in vis && v !in active && v !in rank
    requires RankExtends(rank, rk) && DepsRanked(tasks[v].Dependencies, rk, cnt)
    ensures DfsInv(tasks, jobs, vis, active, stack, rk[v := cnt], cnt + 1)
    ensures RankExtends(rank, rk[v := cnt])
  {
    assert vis - {v} + {v} == vis;
    DfsFinish(tasks, jobs, vis - {v}, active, stack, rk, cnt, v);
  }

  /**
   * visit(v): marks v active and visited and explores its dependencies in
   * order. The visited and active flags of all vertices are the sets visited
   * and active; the ghost stack, rank and counter only serve the proof. On
   * success v has finished: it is visited, no longer active, and ranks above
   * every dependency.
   */
  method Visit(tasks: map<string, TaskSpec>, jobs: map<string, JobSpec>, v: string,
               visited: set<string>, active: set<string>,
               ghost stack: seq<string>, ghost rank: map<string, nat>, ghost counter: nat)
    returns (err: Option<SpecError>, visited': set<string>, ghost rank': map<string, nat>, ghost counter': nat)
    requires DfsInv(tasks, jobs, visited, active, stack, rank, counter) && v in tasks && v !in visited
    requires if stack == [] then IsRoot(jobs, v) else Edge(tasks, stack[|stack| - 1], v)
    decreases tasks.Keys - visited, 0
    ensures err.Some? ==> Explains(tasks, jobs, err.value)
    ensures err.None? ==>
      && DfsInv(tasks, jobs, visited', active, stack, rank', counter')
      && visited + {v} <= visited'
      && RankExtends(rank, rank')
  {
    DfsEnter(tasks, jobs, visited, active, stack, rank, counter, v);
    var vis := visited + {v};
    ghost var stk := stack + [v];
    ghost var rk := rank;
    ghost var cnt := counter;
    var deps := tasks[v].Dependencies;
    var i := 0;
    while i < |deps|
      invariant 0 <= i <= |deps|
      invariant DfsInv(tasks, jobs, vis, active + {v}, stk, rk, cnt)
      invariant visited + {v} <= vis && RankExtends(rank, rk)
      invariant DepsRanked(deps[..i], rk, cnt)
    {
      ghost var rk0, cnt0 := rk, cnt;
      err, vis, rk, cnt := VisitDep(tasks, jobs, v, deps[i], vis, active + {v}, stk, rk, cnt);
      if err.Some? {
        return err, vis, rk, cnt;
      }
      DepsRankedStep(rank, deps, i, rk0, cnt0, rk, cnt);
      i := i + 1;
    }
    assert deps[..i] == deps;
    VisitDone(tasks, jobs, v, active, stack, rank, vis, rk, cnt);
    return None, vis, rk[v := cnt], cnt + 1;
  }

  /**
   * One dependency dep of the vertex v on top of the stack: unknown is an
   * error, unvisited is visited, still active closes a cycle.
   */
  method VisitDep(tasks: map<string, TaskSpec>, jobs: map<string, JobSpec>, v: string, dep: string,
                  visited: set<string>, active: set<string>,
                  ghost stack: seq<string>, ghost rank: map<string, nat>, ghost counter: nat)
    returns (err: Option<SpecError>, visited': set<string>, ghost rank': map<string, nat>, ghost counter': nat)
    requires DfsInv(tasks, jobs, visited, active, stack, rank, counter)
    requires stack != [] && stack[|stack| - 1] == v && Edge(tasks, v, dep)
    decreases tasks.Keys - visited, 1
    ensures err.Some? ==> Explains(tasks, jobs, err.value)
    ensures err.None? ==>
      && DfsInv(tasks, jobs, visited', active, stack, rank', counter')
      && visited <= visited' && RankExtends(rank, rank')
      && dep in rank' && (forall x | x in rank' :: rank'[x] < counter')
  {
    if dep !in tasks {
      return Some(UnknownDependency(v, dep)), visited, rank, counter;
    }
    if dep !in visited {
      err, visited', rank', counter' := Visit(tasks, jobs, dep, visited, active, stack, rank, counter);
    } else if dep in active {
      ghost var k :| 0 <= k < |stack| && stack[k] == dep;
      PathSuffix(tasks, stack, k);
      return Some(Cycle(v, dep)), visited, rank, counter;
    } else {
      err, visited', rank', counter' := None, visited, rank, counter;
    }
  }

  /** The search started from each task of one job, in the job's order. */
  method VisitJob(tasks: map<string, TaskSpec>, jobs: map<string, JobSpec>, jobName: string,
                  visited: set<string>, ghost rank: map<string, nat>, ghost counter: nat)
    returns (err: Option<SpecError>, visited': set<string>, ghost rank': map<string, nat>, ghost counter': nat)
    requires DfsInv(tasks, jobs, visited, {}, [], rank, counter) && jobName in jobs
    ensures err.Some? ==> Explains(tasks, jobs, err.value)
    ensures err.None? ==>
      && DfsInv(tasks, jobs, visited', {}, [], rank', counter')
      && visited <= visited'
      && forall t | t in jobs[jobName].TaskSpecs :: t in visited'
  {
    visited', rank', counter' := visited, rank, counter;
    var ts := jobs[jobName].TaskSpecs;
    var i := 0;
    while i < |ts|
      invariant 0 <= i <= |ts|
      invariant DfsInv(tasks, jobs, visited', {}, [], rank', counter')
      invariant visited <= visited'
      invariant forall t | t in ts[..i] :: t in visited'
    {
      var d := ts[i];
      if d !in tasks {
        return Some(UnknownJobTask(jobName, d)), visited', rank', counter';
      }
      if d !in visited' {
        err, visited', rank', counter' := Visit(tasks, jobs, d, visited', {}, [], rank', counter');
        if err.Some? {
          return;
        }
      }
      assert ts[..i + 1] == ts[..i] + [d];
      i := i + 1;
    }
    assert ts[..i] == ts;
    err := None;
  }

  /** A finished search that visited every task and every job task proves the configuration sound. */
  lemma SearchCompleteIsSound(tasks: map<string, TaskSpec>, jobs: map<string, JobSpec>,
                              visited: set<string>, rank: map<string, nat>, counter: nat)
    requires DfsInv(tasks, jobs, visited, {}, [], rank, counter)
    requires forall j, t | j in jobs && t in jobs[j].TaskSpecs :: t in visited
    requires tasks.Keys <= visited
    ensures ConfigSound(tasks, jobs)
  {
    DfsDoneClosed(tasks, jobs, visited, [], rank, counter);
    RankAcyclic(tasks, rank);
  }

  /**
   * findCycles: a depth-first search from every job's tasks, jobs taken in
   * map order, then a sweep for vertices the search never reached. It
   * succeeds exactly when the configuration is sound, and each error names a
   * fact that makes it unsound.
   */
  method FindCycles(tasks: map<string, TaskSpec>, jobs: map<string, JobSpec>) returns (err: Option<SpecError>)
    ensures err.None? <==> ConfigSound(tasks, jobs)
    ensures err.Some? ==> Explains(tasks, jobs, err.value)
  {
    var visited: set<string> := {};
    ghost var rank: map<string, nat> := map[];
    ghost var counter: nat := 0;
    var remaining := jobs.Keys;
    while remaining != {}
      invariant remaining <= jobs.Keys
      invariant DfsInv(tasks, jobs, visited, {}, [], rank, counter)
      invariant forall j, t | j in jobs.Keys - remaining && t in jobs[j].TaskSpecs :: t in visited
      decreases remaining
    {
      var jobName :| jobName in remaining;
      err, visited, rank, counter := VisitJob(tasks, jobs, jobName, visited, rank, counter);
      if err.Some? {
        ExplainedIsUnsound(tasks, jobs, err.value);
        return;
      }
      remaining := remaining - {jobName};
    }
    // Every job task is visited, and with nothing active every visited vertex has finished.
    DfsDoneClosed(tasks, jobs, visited, [], rank, counter);
    var unswept := tasks.Keys;
    while unswept != {}
      invariant unswept <= tasks.Keys
      invariant forall t | t in tasks.Keys - unswept :: t in visited
      decreases unswept
    {
      var name :| name in unswept;
      if name !in visited {
        assert !Reachable(tasks, jobs, name) by {
          if Reachable(tasks, jobs, name) {
            var p :| RootPath(tasks, jobs, p) && p[|p| - 1] == name;
            ClosedContainsReachable(tasks, jobs, visited, p);
          }
        }
        err := Some(Unreachable(name));
        ExplainedIsUnsound(tasks, jobs, err.value);
        return;
      }
      unswept := unswept - {name};
    }
    SearchCompleteIsSound(tasks, jobs, visited, rank, counter);
    err := None;
  }

  /** A configuration ParseTasksCfg accepts: every TaskSpec valid and the graph sound. */
  ghost predicate Accepted(cfg: TasksCfg) {
    (forall n | n in cfg.Tasks :: WellFormed(cfg.Tasks[n])) && ConfigSound(cfg.Tasks, cfg.Jobs)
  }

  /**
   * An error ParseTasksCfg may report for cfg, whichever task Go's map order
   * validates first: some task's validation error, or, when every task is
   * well formed, an error of findCycles that the configuration justifies.
   */
  ghost predicate PossibleError(cfg: TasksCfg, e: SpecError) {
    || (exists n | n in cfg.Tasks :: Validate(cfg.Tasks[n]) == Some(e))
    || ((forall n | n in cfg.Tasks :: WellFormed(cfg.Tasks[n])) && Explains(cfg.Tasks, cfg.Jobs, e))
  }

  /** The configuration used for a commit without a tasks file is accepted. */
  lemma EmptyCfgAccepted()
    ensures Accepted(EmptyCfg)
  {
    RankAcyclic(EmptyCfg.Tasks, map[]);
  }

  /**
   * ParseTasksCfg after decoding: every TaskSpec is validated (in map order,
   * the first failure returned), then the dependency graph is checked.
   */
  method ParseTasksCfg(cfg: TasksCfg) returns (r: Result<TasksCfg, SpecError>)
    ensures r.Ok? <==> Accepted(cfg)
    ensures r.Ok? ==> r.value == cfg
    ensures r.Err? ==> PossibleError(cfg, r.error)
  {
    var remaining := cfg.Tasks.Keys;
    while remaining != {}
      invariant remaining <= cfg.Tasks.Keys
      invariant forall n | n in cfg.Tasks.Keys - remaining :: WellFormed(cfg.Tasks[n])
      decreases remaining
    {
      var name :| name in remaining;
      var e := Validate(cfg.Tasks[name]);
      if e.Some? {
        return Err(e.value);
      }
      remaining := remaining - {name};
    }
    var e := FindCycles(cfg.Tasks, cfg.Jobs);
    if e.Some? {
      ExplainedIsUnsound(cfg.Tasks, cfg.Jobs, e.value);
      return Err(e.value);
    }
    r := Ok(cfg);
  }
}
