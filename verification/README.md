# concourse-blockers: the gating graph and build correlation, in Dafny

concourse-blockers answers one question about a Concourse pipeline: which
upstream jobs must pass before a job can take a new version of a resource, and
which of those jobs are currently blocking it. This project models the pure
logic under the Concourse API calls and proves properties of it:

- **Job-keyed resolver** (`deps/deps.go`). For each resource the target job
  takes, a depth-first walk follows the `passed` lists of the inputs on that
  resource. It records each job once, keyed by name, and reverses each list at
  the end. Modelled in `job_deps.dfy` (module `JobDeps`).
- **Edge-keyed resolver** (`demo/deps.go`). The same walk emits
  `Edge{Resource, From, To, Trigger}` values and deduplicates on the whole
  edge. Modelled in `edge_deps.dfy` (module `EdgeDeps`).
- **Path enumeration and prerequisite colour** (`main.go`). `clearPaths`
  lists every chain of passed edges that ends at a job, with no
  deduplication. `triggersOnResource` and the error/info/warn decision
  classify each prerequisite. Modelled in `paths.dfy` (module `Paths`).
- **Build correlators.**
  - `findLatestAndPendingJobs` (`demo/main.go`): one status cell per expected
    edge. Modelled in `cells.dfy` (module `Cells`).
  - `matchBuildsToPrereqs` and the per-job reduction of
    `LatestBuildsForVersion` (`deps/concourse_deps.go`). Modelled in
    `concourse_deps.dfy` (module `ConcourseDeps`).

Shared records are in `pipeline.dfy` (module `Pipeline`): `Input`, `Job`,
`Edge`, `Build`, the `jobsByName` map and the candidate edges into a job. The
reversal helper is in `seqs.dfy` (module `Seqs`). `diamond.dfy` (module
`Diamond`) works one pipeline through every resolver. In that pipeline
`deploy` passed [`unit`, `lint`], and each of those passed [`build`].

How the model is built:

- A Go map lookup of a missing job name yields the zero job: empty name, no
  inputs. `Pipeline.Lookup` does the same. An unknown passed name therefore
  walks the zero job, which has nothing to walk.
- The Go callback style becomes explicit state. The walk state is a `Walk`
  datatype holding the accepted list and the seen set, and it is threaded
  through the mutually recursive `Recurse` and `Visit`.
- Both resolvers terminate because each recursion follows an element that is
  new to the seen set. The seen set only grows inside a finite universe, so
  the measure `|Universe - seen|` decreases, even on cyclic `passed` graphs.
- `clearPaths` has no guard and diverges on a cycle it can reach.
  `Paths.ClearPaths` therefore takes a ghost rank function that strictly
  decreases along every passed edge reachable from the job
  (`Paths.RankedBelow`). That is a witness that the graph below the job is
  acyclic. A cycle elsewhere in the map does not matter: `CycleElsewhere`
  shows a pipeline with no rank for the whole map in which job `c`, which
  passed [`s`], still has its one path, the edge from `s`.
- Go map iteration order is nondeterministic. Results built from it are
  specified without an order. `ConcourseDeps.Values` chooses keys with `:|`,
  and its contract lists each value once, in any order.

The model follows the code in these places:

- `HasNewInputs` is read from the prerequisite job itself (main.go:80).
- `triggersOnResource` compares each input's `Name` with the resource name
  (main.go:97). An input whose name differs from the resource it fetches
  is therefore not matched.
- Ties go to the first build in list order, because both reductions use
  strict comparisons (demo/main.go:137, deps/concourse_deps.go:70). A
  later build with the same end time does not replace an earlier one.
- The edge-keyed resolver resets `seen` for each target input but appends
  into one shared map (demo/deps.go:27-40). A target with two inputs on the
  same resource therefore gets that resource's edge list twice.
  `EdgeDeps.FindDependencies` states this exactly: the list is the
  reversed traversal repeated once per input on that resource. The
  job-keyed resolver overwrites its entry instead (deps/deps.go:34).
- Each resolved list is the depth-first discovery order reversed
  (deps/deps.go:38-40). That order is not ancestor-first: a job can be
  listed before a job it takes versions from. `Diamond.NotAncestorFirst`
  shows `lint` listed before `build`, although `lint` passed [`build`].
- The job-keyed walk does not put the target itself into `seen` before it
  starts (deps/deps.go:22-33). On a passed cycle through the target, the
  target is therefore listed among its own prerequisites.

## Model

| member | source | states |
|---|---|---|
| Seqs.Reverse | deps/deps.go:44-48 | the result has the input's length, and position i holds the element at position len-1-i |
| Seqs.ReverseSwap | demo/deps.go:50-54 | the two-index swap loop, run until the indices meet, computes exactly the reversal |
| Seqs.ReverseInvolution | demo/deps.go:50-54 | reversing twice gives back the original list |
| Seqs.ReverseKeepsContents | demo/deps.go:50-54 | reversal keeps every element with its multiplicity |
| Seqs.ReverseAppend | demo/deps.go:44-46 | the reversal of a concatenation is the concatenation of the reversals, swapped |
| Seqs.Repeat | demo/deps.go:26-42 | n copies of a list have n times its length |
| Seqs.RepeatShift | demo/deps.go:26-42 | one more copy can be added at either end |
| Seqs.ReverseRepeat | demo/deps.go:44-46 | reversing n copies of a list gives n copies of its reversal |
| Seqs.ReverseKeepsDistinct | deps/deps.go:38-40 | reversal keeps a duplicate-free list duplicate-free |
| Pipeline.JobsByName | deps/deps.go:13-16 | every listed job's name is a key, every key is some listed job's name, each job is stored under its own name, and a later job with the same name replaces an earlier one |
| Pipeline.Lookup | deps/deps.go:51 | a stored name yields its job; any other name yields a job with an empty name, no inputs and no new inputs |
| Pipeline.EdgesInto | demo/deps.go:59-72 | an edge is a candidate exactly when it goes into the job on the given resource, comes from a name in the passed list of an input on that resource, and carries that input's trigger |
| Pipeline.Candidates | demo/deps.go:59-69 | every candidate edge the walk examines at a job goes into that job's name and is on the walked resource |
| Pipeline.CandidateIsStep | deps/deps.go:53-58 | each candidate edge into a job is a passed step on that resource, with that job as `to` and that resource |
| Pipeline.StepIsCandidate | deps/deps.go:53-58 | each passed name of an input on the resource is the `from` of some candidate edge |
| Pipeline.ReachedSelf | deps/deps.go:23 | the walk's starting job counts as reached |
| Pipeline.ReachedByStep | deps/deps.go:58-60 | a passed name of a reached job is itself reached |
| Pipeline.ReachedPrepend | deps/deps.go:57-59 | a job with a passed step to a job that reaches `x` reaches `x` too |
| Pipeline.FirstLatestUnique | demo/main.go:137 | at most one build is the first build with the latest end time for a job |
| JobDeps.Recurse | deps/deps.go:50-63 | the seen set and the job list only grow; the recursion terminates because each nested call follows a name new to the seen set |
| JobDeps.Visit | deps/deps.go:23-33 | the callback appends a looked-up job whose name is unseen, marks it, and only then recurses; seen set and list only grow |
| JobDeps.Assign | deps/deps.go:19-36 | after the loop over the target's inputs, the keys are exactly their resources and each value is that resource's traversal; a repeated resource is overwritten with the same list |
| JobDeps.FindDependencies | deps/deps.go:18-41 | every resource the target's inputs name gets an entry, possibly empty, and nothing else does; each entry is the reversed discovery list |
| JobDeps.RecurseConsistent | deps/deps.go:22-33 | the list holds distinct names, and they are exactly the seen names, before and after a walk |
| JobDeps.VisitConsistent | deps/deps.go:22-33 | as RecurseConsistent, for the callback over a candidate list |
| JobDeps.Discover | deps/deps.go:21-33 | one traversal never lists a job name twice, and every job it lists was reached from the target through passed lists on that resource |
| JobDeps.RecurseSound | deps/deps.go:50-62 | every listed job was looked up for a passed name of a job reachable from the target |
| JobDeps.VisitSound | deps/deps.go:57-60 | as RecurseSound, for the callback over a candidate list |
| JobDeps.RecurseCovers | deps/deps.go:50-62 | when jobs are stored under their own non-empty names, after a walk from a job, every name that job passes to has its looked-up name seen, and so does every newly seen name |
| JobDeps.VisitCovers | deps/deps.go:57-60 | when jobs are stored under their own non-empty names, as RecurseCovers, for the callback over a candidate list |
| JobDeps.ChainCovered | deps/deps.go:50-62 | when jobs are stored under their own non-empty names, along any chain of passed steps from the target, the final seen set covers each job's passed names |
| JobDeps.DiscoverComplete | deps/deps.go:50-62 | when jobs are stored under their own non-empty names, every job looked up for a passed name reached from the target is listed |
| JobDeps.FindDependenciesDistinct | deps/deps.go:22-40 | within one resource's final list no job name appears twice |
| JobDeps.ReverseKeepsNamesDistinct | deps/deps.go:38-40 | reversing a list of jobs with distinct names keeps the names distinct |
| JobDeps.FindDependenciesReached | deps/deps.go:50-62 | a job is in a resource's final list only when it was reached from the target on that resource; with jobs stored under their own non-empty names, that is also sufficient |
| JobDeps.UnknownPassedListedOnce | deps/deps.go:24-28 | when jobs are stored under their own non-empty names, an unknown passed name met on the way puts the zero job in the list, and at exactly one position |
| JobDeps.UnknownTargetEmpty | deps/deps.go:19-34 | an unknown target resolves to the empty map |
| EdgeDeps.Recurse | demo/deps.go:56-74 | the seen set and edge list only grow; the recursion terminates because each nested call follows an edge new to the seen set |
| EdgeDeps.Visit | demo/deps.go:30-40 | the callback appends an unseen edge, marks it, and only then walks its `from` job; seen set and list only grow |
| EdgeDeps.Count | demo/deps.go:27 | the count of target inputs on a resource is positive exactly when some input is on it |
| EdgeDeps.RecurseConsistent | demo/deps.go:29-39 | the edge list is duplicate-free and equal, as a set, to the seen set, before and after a walk |
| EdgeDeps.VisitConsistent | demo/deps.go:29-39 | as RecurseConsistent, for the callback over a candidate list |
| EdgeDeps.Discover | demo/deps.go:29-40 | one traversal appends each distinct edge, keyed on all four fields, at most once; it appends an edge exactly when that edge is a candidate edge into a job reachable from the target on the resource; every edge is on that resource |
| EdgeDeps.RecurseSound | demo/deps.go:59-71 | every appended edge is a candidate edge into a job reachable from the target |
| EdgeDeps.VisitSound | demo/deps.go:64-71 | as RecurseSound, for the callback over a candidate list |
| EdgeDeps.RecurseCovers | demo/deps.go:56-74 | after a walk from a job, all its candidate edges are seen, and so are those of the `from` job of every newly seen edge |
| EdgeDeps.VisitCovers | demo/deps.go:63-72 | as RecurseCovers, for the callback over a candidate list |
| EdgeDeps.ChainCovered | demo/deps.go:56-74 | along any chain of passed steps from the target, the final seen set holds each job's candidate edges |
| EdgeDeps.TraversalExact | demo/deps.go:56-74 | the walk from the target with nothing seen yields a duplicate-free list holding exactly the gating edges reachable from the target, all on the walked resource |
| EdgeDeps.AppendEach | demo/deps.go:35 | replaying the callback's appends for a list of edges extends each resource's entry by exactly the edges on that resource, in order; a resource has a key afterwards exactly when it had one or some edge is on it |
| EdgeDeps.EdgesOnOne | demo/deps.go:35 | when every edge of a traversal is on one resource, only that resource's entry grows, and by the whole traversal |
| EdgeDeps.Collect | demo/deps.go:26-42 | after the loop over the target's inputs, a resource has a key exactly when it had one or some input is on it and its traversal appends an edge; each entry is what it held followed by that traversal once per input on the resource |
| EdgeDeps.FindDependencies | demo/deps.go:16-48 | keys are exactly the target's resources whose traversal is non-empty; each value is the reversed traversal, repeated once per target input on that resource |
| EdgeDeps.FindDependenciesSingleInput | demo/deps.go:26-47 | with one target input on the resource, the list is exactly the reversed traversal: duplicate-free, and holding exactly the gating edges reachable from the target |
| EdgeDeps.UnknownTargetEmpty | demo/deps.go:26-27 | an unknown target resolves to the empty map |
| Paths.ClearPaths | main.go:104-128 | every path is non-empty, on the resource, chained edge to edge, ends at the job, and every edge after the first leaves a job that has passed names on the resource; at least one path per candidate edge, and no path at all when the job has no passed names on the resource |
| Paths.ClearPathsSound | main.go:104-128 | every path is a maximal chain into the job: its last edge is the one a candidate of the job induces, from the looked-up job's name and with that input's trigger, and what precedes it is a maximal chain into that passed job, or nothing when that job has no passed names on the resource |
| Paths.PathsVia | main.go:106-125 | every result has the path shape above and ends at the job; at least one result per candidate, none when there are no candidates |
| Paths.PathsViaSound | main.go:106-125 | every result is a maximal chain whose last edge one of the given candidates induces |
| Paths.PathsFrom | main.go:111-123 | at least one path, each with the path shape above and ending at the job |
| Paths.PathsFromSound | main.go:111-123 | every path ends with the edge this passed name induces; what precedes it is nothing when the passed job has no passed names on the resource, and otherwise a maximal chain into the passed job, which by ClearPathsExact is one of that job's paths |
| Paths.PathsFromEnds | main.go:111-123 | each path ends with the edge from the looked-up passed job's name, with the input's trigger; before it comes nothing when that job has no passed names on the resource, and otherwise one of that job's own paths; every one of that job's paths is continued this way |
| Paths.ExtendKeepsPaths | main.go:118-120 | appending an edge out of a job with passed names to paths into that job gives paths into the edge's target |
| Paths.ExtendKeepsVia | main.go:118-120 | appending a candidate's edge to maximal chains into its passed job gives maximal chains via that candidate |
| Paths.ClearPathsComplete | main.go:104-128 | every maximal chain into the job is one of its paths |
| Paths.PathsViaComplete | main.go:106-125 | every maximal chain via one of the candidates is among the results |
| Paths.PathsFromComplete | main.go:111-123 | every maximal chain via the candidate is among its paths |
| Paths.ClearPathsExact | main.go:104-128 | a list of edges is a path of the job exactly when it is a maximal chain into the job |
| Paths.RankedBelowOfRanked | main.go:116 | a rank that decreases along every passed edge of the map meets the requirement for every job |
| Paths.RankedBelowNext | main.go:112-116 | the recursive call on the job behind a passed name meets the rank requirement again |
| Paths.PathCount | main.go:111-124 | the number of paths is the sum, over candidate edges, of max(1, number of paths into the passed job), with no deduplication |
| Paths.UnknownPassedEndsPath | main.go:112-122 | an unknown passed name gives the one-edge path from the empty name |
| Paths.UnknownPassedInVia | main.go:112-122 | as UnknownPassedEndsPath, for any candidate list holding that edge |
| Paths.EmptyNameOpensPath | main.go:112-122 | when no stored job is named "", an edge from "" only ever opens a path |
| Paths.TriggerOf | main.go:96-101 | the result is the trigger flag of the first input with that name, and false when there is none |
| Paths.TriggersOnResource | main.go:95-102 | true exactly when the first input named after the resource triggers; false when no input has that name |
| Paths.Classify | main.go:80-86 | error exactly when the job has new inputs; otherwise info exactly when it triggers on the resource; otherwise warn |
| Cells.LatestBuild | demo/main.go:130-140 | the "missing" placeholder when no build of the job has a positive end time; otherwise the first build of the job with the greatest end time |
| Cells.FindLatestAndPendingJobs | demo/main.go:127-148 | one cell per expected edge, in order, naming the edge's `from` job, with status "missing" or the status of that job's first latest build; edges with the same `from` get equal cells |
| Cells.OtherJobIgnored | demo/main.go:133-136 | inserting a build of another job anywhere changes neither "missing" nor which build of the job is latest |
| Cells.NoneEndedInserted | demo/main.go:133-136 | inserting a build of another job leaves "no build of the job has ended" unchanged, in both directions |
| Cells.FirstLatestInsertedKeeps | demo/main.go:133-139 | the first latest build of the job stays first latest, at its shifted position, after a build of another job is inserted |
| Cells.FirstLatestInsertedReflects | demo/main.go:133-139 | conversely, a build first latest after the insertion was first latest before it |
| ConcourseDeps.FirstBuildOf | deps/concourse_deps.go:104-113 | the index of the first build of the job, or -1 exactly when there is none |
| ConcourseDeps.MatchBuildsToPrereqs | deps/concourse_deps.go:99-124 | one result per prerequisite, in order, each carrying the resource and version; the first build of that job in list order (not the latest), or a "not running" build with the job's name when none exists |
| ConcourseDeps.FirstLatestStep | deps/concourse_deps.go:68-75 | one more build replaces the current latest of its job only when it ended strictly later |
| ConcourseDeps.ReduceStep | deps/concourse_deps.go:68-75 | one more loop step keeps the map keyed by the job names seen so far, each holding that job's first latest build: a new job is added, a strictly later build replaces, anything else leaves the map alone |
| ConcourseDeps.BuildsByJob | deps/concourse_deps.go:67-76 | the keys are exactly the job names in the builds, and each value is that job's first build with the greatest end time |
| ConcourseDeps.Values | deps/concourse_deps.go:78-80 | the values of the map, each once, under distinct job names, in no particular order |
| ConcourseDeps.ListStep | deps/concourse_deps.go:78-80 | taking one more key out of the unlisted ones and appending its value keeps every listed value once and under its own key |
| ConcourseDeps.ReducedValuesOnePerJob | deps/concourse_deps.go:67-80 | listing the reduced map gives the latest build of every job exactly once |
| ConcourseDeps.Zeros | deps/concourse_deps.go:77 | a fresh slice of length n holds n zero builds |
| ConcourseDeps.Padded | deps/concourse_deps.go:77-80 | appending the per-job builds to n zero builds gives 2n entries, the per-job builds after the zeros |
| ConcourseDeps.LatestBuildsForVersion | deps/concourse_deps.go:67-81 | as written: twice as many entries as jobs, the first half zero builds, the second half the latest build of every job once |
| ConcourseDeps.LatestBuildsPerJob | deps/concourse_deps.go:60-81 | corrected: the latest build of every job exactly once, and nothing else |
| ConcourseDeps.PaddingExample | deps/concourse_deps.go:77-81 | a single ended build of `unit` comes back behind one zero build |
| ConcourseDeps.PaddingHidden | deps/concourse_deps.go:104-105 | for a prerequisite with a non-empty name, the padding changes neither whether a build matches nor which one |
| ConcourseDeps.PaddingMatchesUnnamed | deps/concourse_deps.go:104-111 | a prerequisite named "" matches the first zero build of the padding |
| Diamond.JobDiscoverDiamond | deps/deps.go:21-33 | the job walk of the diamond discovers unit, build, lint in that order |
| Diamond.JobKeyedDiamond | deps/deps.go:19-62 | the diamond resolves to [lint, build, unit]: discovery order unit, build, lint reversed, with build once |
| Diamond.NotAncestorFirst | deps/deps.go:38-40 | the final list puts `lint` before `build`, although `lint` passed [`build`] |
| Diamond.EdgeDiscoverDiamond | demo/deps.go:56-74 | the edge walk of the diamond appends unit→deploy, build→unit, lint→deploy, build→lint |
| Diamond.EdgeKeyedDiamond | demo/deps.go:26-47 | the diamond resolves to [build→lint, lint→deploy, build→unit, unit→deploy], with build as `from` twice |
| Diamond.ClearPathsMiddle | main.go:104-128 | `unit` and `lint` each have the single path from `build` |
| Diamond.PathsFromUnit | main.go:111-123 | through its passed name `unit`, `deploy` gets the one path [build→unit, unit→deploy] |
| Diamond.PathsFromLint | main.go:111-123 | through its passed name `lint`, `deploy` gets the one path [build→lint, lint→deploy] |
| Diamond.ClearPathsDiamond | main.go:104-128 | the diamond has exactly two paths, [build→unit, unit→deploy] and [build→lint, lint→deploy] |
| CycleElsewhere.NoRankForWholeMap | main.go:104-128 | with `a` and `b` passing to each other, no rank decreases along every passed edge of the map |
| CycleElsewhere.TopRanksC | main.go:111-116 | the rank with `c` above every other job meets the requirement for `c` and for its candidate from `s` |
| CycleElsewhere.ClearPathsBesideCycle | main.go:104-128 | yet job `c`, which passed [`s`], meets the rank requirement for the jobs it can reach, and its paths are exactly the one edge from `s` |

## Left out

- The Concourse API calls are not modelled, because they are network I/O: `rc.LoadTarget`, `ListPipelines`, `ListJobs`, `ResourceVersions`, `BuildsWithVersionAsInput`, `team.Resource` and `PipelineConfig`. The job map and the build list are parameters instead, and the error returns of the fetches are left out with them.
- `extractVersion` (demo/main.go:113-125) is not modelled. It depends on Go's regular-expression library and on type assertions and indexing that can panic.
- The `CI` methods and `getDependentBuildResults` are not modelled. They only sequence the fetches. Their `c.err = err` writes go to a value receiver and are lost, so there are no error semantics to model.
- Flag parsing, `fmt`/`color` printing, the HTML template, the `tick` timer and the final `sort.Slice` of demo `processPipeline` are not modelled. They are output plumbing around I/O. The colour choice itself is `Paths.Classify`.
- The order in which Go iterates a map is not modelled, because it is nondeterministic (deps/concourse_deps.go:78, main.go:71, demo/main.go:80). The resolvers return maps, and `ConcourseDeps.Values` allows any order.
- Paths.ClearPaths: stated only when the passed graph reachable from the job is acyclic, witnessed by a rank function on the jobs it can reach. The rank is on job names, so a stored job named "" shares its rank with the zero job an unknown passed name looks up, and a chain through both counts as a cycle even where the Go recursion stops; Concourse job names are never empty. On a reachable cycle the Go recursion does not terminate, and that non-termination is not modelled.
- Paths.PathsVia: carries the same requirement for the job behind each candidate, for the same reason.
- Paths.PathsFrom: carries the same requirement for the job behind its candidate, for the same reason.
- JobDeps.FindDependenciesReached: completeness holds only when every job is stored under its own name and no job is named "". The first holds for `jobsByName` by `Pipeline.JobsByName`. Soundness needs neither.
- JobDeps.DiscoverComplete: assumes the same two conditions, for the same reason.
- JobDeps.RecurseCovers: assumes the same two conditions, for the same reason. A stored job named "" seen first shares the zero job's name, so the walk skips the zero job.
- JobDeps.VisitCovers: assumes the same two conditions, for the same reason. A stored job named "" seen first shares the zero job's name, so the walk skips the zero job.
- JobDeps.ChainCovered: assumes the same two conditions, for the same reason. A stored job named "" seen first shares the zero job's name, so the walk skips the zero job.
- JobDeps.UnknownPassedListedOnce: assumes the same two conditions, for the same reason. A stored job named "" seen first shares the zero job's name, so the walk skips the zero job.

## Findings

| source | as written | input that shows it | evidently intended | confidence | as-written member | corrected member |
|---|---|---|---|---|---|---|
| deps/concourse_deps.go:77-80 | `results := make([]atc.Build, len(buildsByJob))` creates that many zero builds, and the loop then appends the per-job builds after them | one build of job `unit` with end time 10 gives `[zero build, unit build]` | `make([]atc.Build, 0, len(buildsByJob))`: one entry per job and no zero builds | high; not executed | ConcourseDeps.LatestBuildsForVersion | ConcourseDeps.LatestBuildsPerJob |

`ConcourseDeps.PaddingExample` exhibits the padding on that concrete input. Its one caller, `getDependentBuildResults` (deps/concourse_deps.go:92), passes the padded list straight to `matchBuildsToPrereqs` (deps/concourse_deps.go:93). That function ignores the padding for a named prerequisite (`ConcourseDeps.PaddingHidden`). A prerequisite named "" is different: it is the zero job an unknown passed name resolves to, and it matches the first zero build instead of getting "not running" (`ConcourseDeps.PaddingMatchesUnnamed`).
