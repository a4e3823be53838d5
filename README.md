# Skia buildbot task scheduler core, in Dafny

This project models the core of the Skia infrastructure task scheduler and
two small neighbouring tools, and proves what they promise.

- **Task configuration** (`Specs`): task and job specs, `TaskSpec.Validate`,
  the deep copies, and `findCycles`. `findCycles` is a depth-first search
  with visited and active flags over the dependency graph, started from every
  job's tasks. `ParseTasksCfg` is modelled after JSON decoding. The search is
  proved to reject exactly the configurations that name an unknown task,
  contain a reachable cycle, or leave a task unreachable from every job. Each
  error it reports is justified by the configuration.
- **Configuration cache** (`SpecsCache`): `TaskCfgCache`, a class holding a
  map from repo state to configuration and three "recent" timestamp maps. It
  is filled on a miss (`readTasksCfg`) and pruned by `Cleanup`. The
  repository (file contents and commit details) is a pair of oracle
  functions. Timestamps are integers, and Go's zero `time.Time` is a
  constant.
- **Task candidates** (`Scheduling`): the id serialiser `MakeId` and its
  parser `parseId`, with an exact round trip; `MakeTask`; `Copy`; the
  dimension split of `MakeTaskRequest`; the dependency readiness rule
  `allDepsMet` over an oracle task cache; and the descending score order.
- **Task records** (`Db`): `Task.UpdateFromSwarming` is modelled as a
  staged pure reconciliation (`Reconcile`) and as a method on a `Task`
  class. `UpdateDBFromSwarmingTask` is a read-modify-write on a task store.
  `TaskSlice` is ordered by creation time. The model satisfies every
  assertion of `task_scheduler/go/db/task_test.go`: errors leave the task
  untouched, identity fields are check-or-set, a completed time wins over an
  abandoned one, states map to statuses, and re-applying a report changes
  nothing. Where those tests leave a case open, the model makes a choice,
  and "## Left out" lists each one.
- **Categorical params** (`KmLabel`): the integer part of
  `perf/go/kmlabel/kmlabel.go`. Trace params become offsets over sorted keys
  and sorted values, with 0 for "no value". `reverse` decodes them, and the
  round trip is proved. Measures and centroids keep count arrays that are
  updated in place.
- **Chrome branch selection** (`Builder`): the number filter over
  `refs/heads/chrome/m<N>`, the descending sort, the choice of the highest
  number, the `m<N>` checkout name and the refusal of an existing checkout
  unless forced.
- **Support modules**: `Wrappers` (Option, Result), `Text` (`strings.Split`
  and its inverse, `SplitN(…, 2)`, decimal digits, Go's string order) and
  `Sort`. `Sort` is an in-place insertion sort of an array by a Less
  relation. It stands in for `sort.Sort` and `sort.Strings`, and is proved
  to leave the array sorted and a permutation of the input.

Go map iteration order is modelled as an arbitrary choice of the next key
(`:|`). Every contract therefore holds whatever order Go picks.

**Two behaviours of the code a reader may not expect:**
- `readTasksCfg` decides that the tasks file is missing by searching the
  error text for "does not exist in" or "exists on disk, but not in". It does
  this for every error `ReadTasksCfg` returns. A validation or `findCycles`
  error that quotes a name containing one of those phrases therefore caches
  the empty configuration (`SpecsCache.MissingPhraseInName`). Any other
  configuration that fails `ParseTasksCfg` is not cached, because the error
  is returned before the store.
- `Cleanup` aborts on the first failed repo or commit lookup, and returns
  that error with the entries pruned so far already deleted.

## Model

| member | source | states |
|---|---|---|
| Specs.FirstBadPackage | task_scheduler/go/specs/specs.go:90-95 | the scan finds a package without name or path exactly when one exists, and the index it returns is such a package |
| Specs.FirstWithoutColon | task_scheduler/go/specs/specs.go:97-103 | the scan finds the first dimension without a colon, every earlier one has a colon, and it finds none exactly when all have one |
| Specs.Validate | task_scheduler/go/specs/specs.go:88-110 | packages, then dimensions, then the isolate. No error iff every package has a name and path, every dimension a colon, and the isolate file is set. The package error iff some package lacks a name or path. The dimension error iff all packages are fine and some dimension lacks a colon, and it quotes the first such dimension. The isolate error iff packages and dimensions are fine and the isolate is empty. No other error |
| Specs.VersionIgnored | task_scheduler/go/specs/specs.go:90-95 | changing a package's version never changes the validation result, although the error text mentions the version |
| Specs.CopyTaskSpec | task_scheduler/go/specs/specs.go:113-136 | the copy equals the original in every field |
| Specs.CopyJobSpec | task_scheduler/go/specs/specs.go:154-163 | the copy keeps the task list, has priority zero, and equals the original iff the priority was zero |
| Specs.PathExtend | task_scheduler/go/specs/specs.go:386-394 | a dependency path followed by one more dependency edge is a path |
| Specs.PathSuffix | task_scheduler/go/specs/specs.go:383-401 | every suffix of a dependency path is a path |
| Specs.CycleFromBackEdge | task_scheduler/go/specs/specs.go:395-396 | an edge back to the start of a path that ends at its source closes a cycle, so the graph is not acyclic |
| Specs.ExplainedIsUnsound | task_scheduler/go/specs/specs.go:363-425 | each error findCycles can justify (unknown job task, unknown dependency, cycle, unreachable task) contradicts soundness of the configuration |
| Specs.ClosedContainsReachable | task_scheduler/go/specs/specs.go:403-424 | a dependency-closed set that contains every job's tasks contains every task reachable from a job |
| Specs.RankFalls | task_scheduler/go/specs/specs.go:383-401 | along a dependency path from a ranked task the finishing rank strictly falls |
| Specs.RankAcyclic | task_scheduler/go/specs/specs.go:383-401 | a ranking in which every task ranks above its dependencies proves the graph acyclic |
| Specs.DfsEnter | task_scheduler/go/specs/specs.go:384-385 | marking a fresh vertex active and visited keeps the search invariant (the active vertices form the current path) |
| Specs.DfsFinish | task_scheduler/go/specs/specs.go:398-400 | clearing the active flag of a vertex whose dependencies are all finished keeps the invariant, ranking it above them |
| Specs.DfsDoneClosed | task_scheduler/go/specs/specs.go:403-419 | with no vertex active, the visited set is closed under dependencies and exactly the finished set |
| Specs.Visit | task_scheduler/go/specs/specs.go:383-401 | visit(v) either reports an error justified by the graph, or finishes v with the invariant kept and the visited set only grown |
| Specs.VisitDep | task_scheduler/go/specs/specs.go:386-397 | one dependency: unknown gives the unknown-dependency error, an active vertex gives the cycle error with a path back along the stack, otherwise it ends finished |
| Specs.VisitJob | task_scheduler/go/specs/specs.go:405-415 | one job's task loop: an unknown task gives the unknown-task error, otherwise every task of the job ends visited |
| Specs.SearchCompleteIsSound | task_scheduler/go/specs/specs.go:418-425 | a finished search that visited every task proves the configuration sound |
| Specs.FindCycles | task_scheduler/go/specs/specs.go:363-425 | no error iff every job task exists, every dependency exists, every task is reachable from a job and the graph is acyclic; every error reported is justified by the configuration |
| Specs.EmptyCfgAccepted | task_scheduler/go/specs/specs.go:210-213 | the empty configuration used for a commit without a tasks file is accepted |
| Specs.QuoteShows | task_scheduler/go/specs/specs.go:100 | a piece of a name free of quotes and backslashes still appears in the name as %q writes it |
| Specs.ParseTasksCfg | task_scheduler/go/specs/specs.go:25-36 | success iff every task validates and findCycles accepts, returning the configuration itself; an error is either some task's validation error or, with all tasks valid, a findCycles error justified by the configuration |
| SpecsCache.Raise | task_scheduler/go/specs/specs.go:229-238 | each named recent entry becomes the later of its old value (zero time if absent) and the commit time; no other entry moves; the names become keys exactly when the commit time is after the zero time, and no other key appears |
| SpecsCache.Max1 | task_scheduler/go/specs/specs.go:226-228 | the commit's recent entry becomes the later of its old value and the commit time; no other entry moves; the revision becomes a key exactly when the commit time is after the zero time |
| SpecsCache.MissingPhraseInName | task_scheduler/go/specs/specs.go:206-213 | a dimension whose name contains "does not exist in" makes the validation error pass the missing-file test |
| SpecsCache.ReadOutcomeCaches | task_scheduler/go/specs/specs.go:194-240 | a read keeps every cached entry, adds at most the repo state read, caches what it returns, and changes nothing on a hit |
| SpecsCache.ReadAgainHits | task_scheduler/go/specs/specs.go:195-198 | after a successful read, reading the same repo state again returns the same configuration and changes nothing |
| SpecsCache.ReadNeverLowers | task_scheduler/go/specs/specs.go:220-238 | a read never lowers a recent entry nor drops a recent key |
| SpecsCache.ReadRecordsRecent | task_scheduler/go/specs/specs.go:220-239 | a successful miss at a commit after the zero time leaves the revision and every task and job name of the returned configuration in the recent maps, at the commit time or later |
| SpecsCache.Prune | task_scheduler/go/specs/specs.go:326-340 | the delete-while-ranging loop leaves exactly the entries not strictly before the window start |
| SpecsCache.RecentKeepsExactly | task_scheduler/go/specs/specs.go:326-340 | pruning keeps exactly the entries at or after the window start, values unchanged, and pruning twice is pruning once |
| SpecsCache.StringMapKeys | task_scheduler/go/specs/specs.go:344-350 | the keys of the map, each exactly once |
| SpecsCache.TaskCfgCache.constructor | task_scheduler/go/specs/specs.go:178-188 | a cache over the given repos with all four maps empty |
| SpecsCache.TaskCfgCache.ReadTasksCfg | task_scheduler/go/specs/specs.go:194-240 | the call is one ReadOutcome step. A hit returns the stored configuration and changes nothing. An unknown repo, an undecodable file, or a read or parse error whose text does not say the file is missing is returned with nothing changed. A read or parse error whose text says so loads the empty configuration. An accepted configuration is loaded. Loading stores the configuration before the commit lookup, so a lookup error leaves it cached with the recent maps unchanged. On success the revision and the task and job names are raised to the commit time, with the key sets given exactly |
| SpecsCache.TaskCfgCache.Store | task_scheduler/go/specs/specs.go:215-239 | the configuration is cached; a commit lookup error is returned with the recent maps unchanged; otherwise the three recent maps are raised as Raised says and the configuration is returned |
| SpecsCache.TaskCfgCache.GetTaskSpec | task_scheduler/go/specs/specs.go:274-287 | there is one read, as ReadTasksCfg states; its error is returned; on success the result is the spec of that name, or the no-such-spec error when the name is absent |
| SpecsCache.TaskCfgCache.GetJobSpec | task_scheduler/go/specs/specs.go:291-304 | as GetTaskSpec, with the job returned as its copy (same tasks, zero priority) |
| SpecsCache.TaskCfgCache.GetTaskSpecsForRepoStates | task_scheduler/go/specs/specs.go:253-270 | the repo states are read in order, each read a ReadOutcome step from the state the previous one left; the first failure ends the loop and its error is returned; when every read succeeds, the result maps exactly the requested states, each to the tasks its read returned |
| SpecsCache.TaskCfgCache.TaskSpecsAt | task_scheduler/go/specs/specs.go:258-265 | one iteration: one read, as ReadTasksCfg states; its error, or a copy of its tasks equal to them |
| SpecsCache.TaskCfgCache.CollectNext | task_scheduler/go/specs/specs.go:258-267 | the loop body: the read of the next state extends the trace; a failure is that read's error; otherwise the result map gains that state's tasks |
| SpecsCache.TaskCfgCache.Cleanup | task_scheduler/go/specs/specs.go:307-342 | no error iff every cached repo state's commit can be looked up; then exactly the cache and recent entries strictly before now minus the period are deleted; on an error only stale cache entries are gone and the recent maps are untouched |
| SpecsCache.TaskCfgCache.SweepCache | task_scheduler/go/specs/specs.go:312-325 | the cache loop: no error iff every cached commit resolves, in which case exactly the stale entries are gone; in every case only stale entries are removed, none changes, and the recent maps are untouched |
| SpecsCache.TaskCfgCache.RecentSpecsAndCommits | task_scheduler/go/specs/specs.go:354-358 | exactly the keys of the recent job, task and commit maps, each once |
| Scheduling.Copy | task_scheduler/go/scheduling/task_candidate.go:28-44 | the copy equals the candidate in every field, spec included |
| Scheduling.MakeIdIsJoin | task_scheduler/go/scheduling/task_candidate.go:47-49 | the id is the prefix, repo, name and revision joined by the bar |
| Scheduling.ParseMakeId | task_scheduler/go/scheduling/task_candidate.go:47-66 | parsing the id of a candidate whose repo, name and revision are non-empty and bar-free gives back exactly those three |
| Scheduling.ParseIdOnlyIds | task_scheduler/go/scheduling/task_candidate.go:52-66 | parseId succeeds only on strings that are the id of their three non-empty, bar-free fields |
| Scheduling.MakeTask | task_scheduler/go/scheduling/task_candidate.go:69-79 | the task has an empty id, the candidate's name, repo, revision and commits, and every other field at its zero value |
| Scheduling.MakeTaskMatchesId | task_scheduler/go/scheduling/task_candidate.go:47-79 | the task made from a candidate carries the identity its id parses to |
| Scheduling.Dimensions | task_scheduler/go/scheduling/task_candidate.go:103-114 | each dimension split at its first colon, in order; the map holds exactly the keys seen, each with the value of its last occurrence |
| Scheduling.ValidSpecsHaveDimensions | task_scheduler/go/scheduling/task_candidate.go:105-108 | a validated spec has a colon in every dimension, so the split never indexes past its result |
| Scheduling.AllDepsMet | task_scheduler/go/scheduling/task_candidate.go:140-156 | true iff every dependency is found, done, successful and has an output, returning the outputs in declaration order; otherwise no outputs, and the first unmet dependency decides: a lookup error is returned with its message, anything else gives no error |
| Scheduling.CandidateLessIsStrictWeakOrder | task_scheduler/go/scheduling/task_candidate.go:165-167 | the higher-score order is a strict weak order, as sort.Sort requires |
| Scheduling.SortCandidates | task_scheduler/go/scheduling/task_candidate.go:158-167 | the candidates end in non-increasing score order, a permutation of the input |
| Db.ParseTags | task_scheduler/go/db/task_test.go:51-90 | the tags parse iff every one contains a colon, each becoming its key and value around the first colon; otherwise the error names a colon-less tag |
| Db.TagValues | task_scheduler/go/db/task_test.go:163-210 | the values returned are exactly the values of the tags with that key |
| Db.TagValuesAppend | task_scheduler/go/db/task_test.go:163-210 | the values of a concatenation of tags are the values of each part, in order |
| Db.TagValuesSingle | task_scheduler/go/db/task_test.go:163-210 | one tag contributes its value exactly when its key matches, so with TagValuesAppend the values are those of the matching tags in tag order, each once |
| Db.CheckIdentity | task_scheduler/go/db/task_test.go:121-156 | checking the identity tags changes only the identity fields and the parent ids |
| Db.ApplyRun | task_scheduler/go/db/task_test.go:163-210 | applying the run state keeps the identity, commits, database time and retry link |
| Db.ApplyRunFacts | task_scheduler/go/db/task_test.go:243-310 | a successful run step passes the creation-time, Swarming-id and state checks. A reported start, completion or (for a Mishap without completion) abandoned time replaces the stored one; an absent one keeps it. The output and the bot are the report's |
| Db.RunFieldsRefreshed | task_scheduler/go/db/task_test.go:243-310 | after a successful update of any task, including one that already has them, the start and finish times, the output and the bot are refreshed from the report as ApplyRunFacts states |
| Db.Task.UpdateFromSwarming | task_scheduler/go/db/task_test.go:243-366 | on an error the task is untouched and changed is false; otherwise the task becomes the reconciled record and changed says whether it differs |
| Db.InvalidTagRejected | task_scheduler/go/db/task_test.go:51-90 | a tag without a colon is rejected |
| Db.MalformedTimestampRejected | task_scheduler/go/db/task_test.go:51-90 | an absent or unparseable creation time, or an unparseable start, completion or (when used) abandoned time, is rejected |
| Db.IdentityMismatchRejected | task_scheduler/go/db/task_test.go:121-156 | a tag that disagrees with an already set id, name, repo, revision, patch field or forced job, a changed creation time or a different Swarming id is rejected |
| Db.PatchDisagrees | task_scheduler/go/db/task_test.go:578-641 | a patch server, issue or patchset tag that disagrees with the task's patch field, when that field is set, makes the patch check fail |
| Db.IdentityPreserved | task_scheduler/go/db/task_test.go:243-338 | a successful update keeps every identity field already set, the creation time, the Swarming id, the parent ids, the commits and the database time |
| Db.CheckIdentityKeeps | task_scheduler/go/db/task_test.go:121-156 | the identity step never rewrites an identity field or the parent ids once they are set |
| Db.InitFromEmpty | task_scheduler/go/db/task_test.go:163-210 | a well-formed report on an empty task succeeds and fills identity from the tags, parent ids in tag order, the creation time, the Swarming id, the start time (zero when absent), the output and the bot, leaving commits empty |
| Db.InitIdentity | task_scheduler/go/db/task_test.go:163-210 | on an empty task with single-valued identity tags the identity step succeeds and takes each identity field from its tag and the parent ids from their tags in order |
| Db.ApplyRunSucceeds | task_scheduler/go/db/task_test.go:163-210 | on a task with no creation time and no Swarming id, readable timestamps and a known state make the run-state step succeed, setting the output and the bot |
| Db.CompletedTakesPrecedence | task_scheduler/go/db/task_test.go:163-210 | a parsed completion time becomes the finish time even when an abandoned time is present |
| Db.AbandonedGivesMishap | task_scheduler/go/db/task_test.go:212-238 | without a completion time an abandoned state finishes at the abandoned time with status Mishap |
| Db.StatusMapping | task_scheduler/go/db/task_test.go:411-440 | Pending iff pending, Running iff running, Mishap iff bot died, canceled, expired or timed out, Failure iff completed with failure, Success iff completed without |
| Db.StatusForMapping | task_scheduler/go/db/task_test.go:411-440 | each known Swarming state, with the failure flag, maps to exactly one status, in both directions |
| Db.UnknownStateRejected | task_scheduler/go/db/task_test.go:411-440 | a state outside the known ones is rejected |
| Db.CheckOrSetStable | task_scheduler/go/db/task_test.go:314-338 | a field once set from a tag checks against the same tag again |
| Db.CheckIdentityStable | task_scheduler/go/db/task_test.go:314-338 | the identity checks accept their own result unchanged |
| Db.ApplyRunStable | task_scheduler/go/db/task_test.go:314-338 | applying the same run state again changes nothing, whatever the database time |
| Db.ApplyRunIgnoresDbModified | task_scheduler/go/db/task_test.go:522-528 | the run-state step neither reads nor changes the database time |
| Db.Replay | task_scheduler/go/db/task_test.go:522-528 | after a successful update and any database time stamp, the same report reconciles to the stored task unchanged |
| Db.Idempotent | task_scheduler/go/db/task_test.go:314-338 | reconciling the result with the same report gives the same result |
| Db.ModifiedTsIgnored | task_scheduler/go/db/task_test.go:314-338 | a report differing only in its modified time reconciles the same way |
| Db.TaskStore.UpdateDBFromSwarmingTask | task_scheduler/go/db/task_test.go:443-529 | a report without an id tag or for an unknown task, or one that fails reconciliation, leaves the store unchanged with that error; an unchanged task is not written; a changed one is stored with the new database time |
| Db.TaskLessIsStrictWeakOrder | task_scheduler/go/db/task_test.go:673-695 | earlier creation is a strict weak order, as sort.Sort requires |
| Db.SortTasks | task_scheduler/go/db/task_test.go:673-695 | the tasks end in non-decreasing creation order, a permutation of the input |
| KmLabel.Measure.constructor | perf/go/kmlabel/kmlabel.go:117-123 | a fresh count array of the given size, all zero |
| KmLabel.Measure.Inc | perf/go/kmlabel/kmlabel.go:129-131 | Counts[i] rises by one and no other count changes |
| KmLabel.Measure.Clear | perf/go/kmlabel/kmlabel.go:134-138 | every count is zero and the length is kept |
| KmLabel.Centroid.NewCentroid | perf/go/kmlabel/kmlabel.go:231-244 | dimension i gets a fresh count vector of length dimSizes[i], all zero except a single 1 at the initial trace's offset when there is one |
| KmLabel.Centroid.Add | perf/go/kmlabel/kmlabel.go:273-277 | dimension i counts one more trace at offset Params[i], nothing else changes |
| KmLabel.Centroid.Clear | perf/go/kmlabel/kmlabel.go:266-270 | every dimension's counts are zero |
| KmLabel.HistogramTotal | perf/go/kmlabel/kmlabel.go:273-277 | after n traces are added to zeroed counts, each dimension's counts sum to n |
| KmLabel.CalculateCentroid | perf/go/kmlabel/kmlabel.go:361-368 | the centroid's dimension i is the histogram of the traces' offsets for key i, summing to the number of traces |
| KmLabel.StrLessIsStrictWeakOrder | perf/go/kmlabel/kmlabel.go:300 | Go's string order is a strict weak order, as sort.Strings needs |
| KmLabel.SortStrings | perf/go/kmlabel/kmlabel.go:315 | the strings sorted in Go's string order, a permutation of the input |
| KmLabel.DistinctPermutation | perf/go/kmlabel/kmlabel.go:296-300 | sorting the map's keys keeps them free of duplicates |
| KmLabel.SortedKeys | perf/go/kmlabel/kmlabel.go:296-301 | the paramset's keys, sorted, each once |
| KmLabel.LastOffset | perf/go/kmlabel/kmlabel.go:318-320 | the offset of a value is 1 plus its last position, or 0 exactly when it is not listed |
| KmLabel.ValueOffsets | perf/go/kmlabel/kmlabel.go:317-320 | the value-to-offset map holds exactly the listed values, a later duplicate winning |
| KmLabel.SortedValuesExtend | perf/go/kmlabel/kmlabel.go:315-316 | adding a key with its values sorted keeps every entry of the sorted paramset sorted and a permutation of the original |
| KmLabel.TablesExtend | perf/go/kmlabel/kmlabel.go:311-321 | adding the next key keeps the key-index and value-offset tables consistent with the sorted keys |
| KmLabel.KeyTables | perf/go/kmlabel/kmlabel.go:311-322 | key i has index i and dimension size len(paramset[key]) + 1, its values sorted, and each value's offset is 1 plus its last position |
| KmLabel.Encode | perf/go/kmlabel/kmlabel.go:338-350 | the encoding has one offset per key |
| KmLabel.EncodeBounds | perf/go/kmlabel/kmlabel.go:338-350 | every offset lies between 0 and the number of values of its key |
| KmLabel.EncodeTrace | perf/go/kmlabel/kmlabel.go:339-349 | one offset per key; a trace whose keys are all in the paramset gets exactly its encoding; a key outside it can only zero the first offset |
| KmLabel.EncodeOffsets | perf/go/kmlabel/kmlabel.go:344-348 | after the loop over the params every key present has its encoding, every other offset is 0, and the first offset may instead be 0 only when some key is outside the paramset |
| KmLabel.EncodeStep | perf/go/kmlabel/kmlabel.go:347 | one assignment: a known key writes its encoding at its own position; an unknown key reads index and offset 0 and zeroes the first offset |
| KmLabel.EncodeTraces | perf/go/kmlabel/kmlabel.go:338-350 | one trace per traceparams entry, ids distinct, each the encoding of its entry |
| KmLabel.Reverse | perf/go/kmlabel/kmlabel.go:325-336 | the decoded params are what the offsets name, key by key, skipping offset 0 |
| KmLabel.DecodePrefix | perf/go/kmlabel/kmlabel.go:325-336 | decoding the first n offsets gives back the params of the first n keys |
| KmLabel.DecodeEncode | perf/go/kmlabel/kmlabel.go:325-350 | reverse(encode(p)) == p for any p whose keys and values come from the sorted paramset |
| KmLabel.CentroidsAndTraces | perf/go/kmlabel/kmlabel.go:294-350 | the keys are sorted, distinct and those of the paramset; dimSizes[i] = len(paramset[keys[i]]) + 1; the values are sorted permutations; one encoded trace per entry, each fitting the dimensions |
| KmLabel.TracesRoundTrip | perf/go/kmlabel/kmlabel.go:325-350 | every trace built from params drawn from the paramset decodes back to those params |
| KmLabel.InitialCentroids | perf/go/kmlabel/kmlabel.go:353-358 | centroid i starts with a single count at each offset of the trace picked for it |
| Builder.LeadingZerosIgnored | fiddle/go/builder/builder.go:148-152 | strconv.Atoi ignores leading zeros: a run of '0's followed by the digits of n parses to n when n fits Go's 64-bit int and fails otherwise |
| Builder.NumberedBranches | fiddle/go/builder/builder.go:145-155 | exactly the branches whose names match the pattern and whose numbers parse, each with its number and hash |
| Builder.BranchLessIsStrictWeakOrder | fiddle/go/builder/builder.go:37-39 | the higher-number order is a strict weak order, as sort.Sort requires |
| Builder.SortBranches | fiddle/go/builder/builder.go:156 | the branches in non-increasing number order, a permutation of the input |
| Builder.FirstIsHighest | fiddle/go/builder/builder.go:156-161 | after the sort the first branch has the highest number |
| Builder.SelectBranch | fiddle/go/builder/builder.go:132-170 | no branches gives the first error; branches but none numbered gives the second; otherwise the highest-numbered branch is chosen with name m<N> and checkout versions/m<N>, or the already-exists error iff that directory exists and force is off |
| Builder.CheckoutNameCanonical | fiddle/go/builder/builder.go:161 | the name is "m" followed by the decimal digits of N, without leading zeros, reading back as N |
| Builder.BranchNumberRoundTrip | fiddle/go/builder/builder.go:24 | every number that fits Go's int names a branch whose number parses back to it |
| Builder.OverflowingNumberSkipped | fiddle/go/builder/builder.go:146-152 | a matching name whose number overflows Go's int is skipped |
| Sort.SortBy | fiddle/go/builder/builder.go:156 | sort.Sort with a strict weak order leaves no element Less than an earlier one and keeps the same multiset |
| Text.JoinSplit | task_scheduler/go/scheduling/task_candidate.go:53 | joining the parts of strings.Split gives back the string |
| Text.SplitJoin | task_scheduler/go/scheduling/task_candidate.go:53 | splitting a join of separator-free parts gives back the parts |
| Text.Cut | task_scheduler/go/scheduling/task_candidate.go:106 | SplitN at the first colon: the two parts around it make up the string, the first without a colon |
| Text.DecimalRoundTrip | fiddle/go/builder/builder.go:161 | %d writes digits only, without a leading zero, reading back as the number |
| Text.StrLessTrichotomy | perf/go/kmlabel/kmlabel.go:300 | any two strings are ordered one way, the other, or equal, never both ways |
| Text.StrLessTransitive | perf/go/kmlabel/kmlabel.go:300 | Go's string order is transitive |

## Left out

- JSON decoding of the tasks file: the model starts from the decoded `TasksCfg`, and a file that does not decode is an input case.
- Git access (`RepoMap`, `ReadTasksCfg`'s file read, `Details`): the repository is oracle functions for file contents and commit times.
- The missing-file test reads the text of every error `ReadTasksCfg` returns. The model applies it to the read error, wrapped as Go wraps it, and to validation and `findCycles` messages. It does not apply it to JSON decode errors, which are taken never to contain either phrase; their text comes from `encoding/json` and names types and offsets.
- `Specs.Quote` escapes only `"` and `\`. Go's `%q` also escapes non-printable characters. For a name with such characters, Go's text can contain a missing-file phrase that the model's text lacks, or lack one that it contains.
- `Text.StrLess`: Go compares strings byte by byte. The model compares sequences of characters. The two orders agree on valid UTF-8. A Go string holding invalid UTF-8 has no counterpart in the model.
- `sync.Mutex` and `RWMutex` locking in `TaskCfgCache`: concurrency is not modelled, so each method runs atomically.
- `Specs.Validate` does not take the configuration argument that Go's `Validate` takes, because that argument is never read.
- `Specs.CopyTaskSpec` and `Scheduling.Copy`: a Go nil slice and an empty slice are the same sequence, and datatypes cannot share storage, so "the copy shares no slice" holds by construction.
- `ParseTasksCfg`: Go validates tasks in map order, so which validation error comes first is left open. The contract says the error is some task's error.
- `MakeTaskRequest`: the dimension split is modelled. Everything else is left out: the priority's float truncation, the CIPD version formatting, the Swarming and isolate constants, and `db.TagsForTask`, which is not part of this model.
- `MakeIsolateTask`: only path joining and constants, with no logic to prove.
- `UpdateFromSwarming`: the file that implements it (`db/task.go`) is not part of this model, so the model is built to satisfy every assertion of `task_test.go`. The test file does not show the tag keys; they are placeholders, and any distinct colon-free strings behave the same.
- `Db.ApplyRun`: the tests pin the abandoned time only for an Expired report without a completion time (task_test.go:212-238, 340-365). The model reads it this way: the abandoned time becomes the finish time only when there is no completion time and the state maps to Mishap (BotDied, Canceled, Expired, TimedOut); otherwise it is not read, and a malformed abandoned time is then no error. Another reading also passes the tests: an abandoned time without a completion time is always used and forces Mishap. That reading differs from the model for Pending, Running and Completed reports that carry an abandoned time.
- `Db.CheckOrSet`: an identity tag key given more than once is rejected with `MultipleTagValues`, even when the values are equal. No test sends a duplicate identity tag.
- `Db.CheckOrSetParents`: the parent ids are check-or-set as a whole list. They are taken from the tags when the task has none. A non-empty list must equal the tags' values in order. Tags without a parent id leave the list alone. The tests only fill an empty task.
- `Db.CheckIdentity`: when several identity fields disagree, the first in the order id, name, repo, revision, patch server, issue, patchset, forced job id, parent ids decides the error. All identity checks come before the run-state checks. The tests change one field at a time (task_test.go:133-153).
- `Db.IdTag`: `UpdateDBFromSwarmingTask` answers `NoIdTag` for a report whose tags do not parse, have no id tag, or have more than one. The tests send exactly one.
- Swarming's textual timestamp format: a timestamp is absent, a parsed integer, or malformed.
- The gob `TaskEncoder` and `TaskDecoder` tests: a foreign serialisation library.
- `TestCopyTaskKey` and `TestCopyTask`: record copies are values here, so they are equality.
- Floating-point code in kmlabel is left out: `Measure.Calc`, `Distance`, `Centroid.Distance`, `Centroid.Finished`, `ClusterAndDescribe`, and the float fields `Distances` and `squares`.
- Random centroid picking in kmlabel: the `rand.Intn` draws are the `picks` parameter of `KmLabel.InitialCentroids`.
- `kmeans.KMeans` and `valueweight` are not part of this model.
- `KmLabel.CentroidsAndTraces` and `KmLabel.EncodeTraces`: when the paramset is empty but some entry of traceparams has params, Go indexes `tr.Params[0]` in a zero-length slice (kmlabel.go:342, 347) and panics. The `requires` rules this input out instead of modelling the panic.
- `KmLabel.CentroidsAndTraces`: Go sorts each `paramset[key]` slice in place, so the caller's paramset is reordered too. The model returns the sorted values as a new map and leaves the input as it was. It does not capture that aliasing.
- fiddle: listing branches, `os.MkdirAll`, `DownloadSkia` and the CMake build are I/O. The branch map and an "is a directory" oracle are inputs, and the result is the branch that would be downloaded.
