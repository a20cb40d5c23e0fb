/** The build correlators of deps/concourse_deps.go: matching builds to a
    resolved prerequisite list, and reducing builds to the latest per job. */
module ConcourseDeps {
  import opened Pipeline

  datatype Resource = Resource(name: string, typ: string)

  /** A resource version's opaque key/value payload. */
  type Version = map<string, string>

  datatype ResourceVersion = ResourceVersion(id: int, version: Version)

  /** A build reported against the resource version it was correlated with. */
  datatype BuildResult = BuildResult(build: Build, resource: Resource, version: Version)

  const NotRunning := "not running"

  /** Build `k` is the first build of `job` in list order. */
  predicate FirstOf(builds: seq<Build>, job: string, k: int) {
    0 <= k < |builds| && builds[k].jobName == job && forall i :: 0 <= i < k ==> builds[i].jobName != job
  }

  predicate NoBuildOf(builds: seq<Build>, job: string) {
    forall i :: 0 <= i < |builds| ==> builds[i].jobName != job
  }

  /** The inner scan of `matchBuildsToPrereqs`: the index of the first build
      of `job`, or -1 when there is none. */
  method FirstBuildOf(builds: seq<Build>, job: string) returns (k: int)
    ensures k == -1 <==> NoBuildOf(builds, job)
    ensures k != -1 ==> FirstOf(builds, job, k)
  {
    for n := 0 to |builds|
      invariant forall i :: 0 <= i < n ==> builds[i].jobName != job
    {
      if builds[n].jobName == job {
        return n;
      }
    }
    return -1;
  }

  /** `matchBuildsToPrereqs(resource, version, prereqs, builds)`: per
      prerequisite, the first build of that job, or a placeholder build that
      is "not running". */
  method MatchBuildsToPrereqs(resource: Resource, version: ResourceVersion, prereqs: seq<Job>, builds: seq<Build>)
    returns (results: seq<BuildResult>)
    ensures |results| == |prereqs|
    ensures forall i :: 0 <= i < |results| ==> results[i].resource == resource && results[i].version == version.version
    ensures forall i :: 0 <= i < |results| ==> results[i].build.jobName == prereqs[i].name
    ensures forall i :: 0 <= i < |results| && !NoBuildOf(builds, prereqs[i].name) ==>
      exists k :: FirstOf(builds, prereqs[i].name, k) && results[i].build == builds[k]
    ensures forall i :: 0 <= i < |results| && NoBuildOf(builds, prereqs[i].name) ==>
      results[i].build == Build(prereqs[i].name, NotRunning, 0)
  {
    results := [];
    for n := 0 to |prereqs|
      invariant |results| == n
      invariant forall i :: 0 <= i < n ==> results[i].resource == resource && results[i].version == version.version
      invariant forall i :: 0 <= i < n ==> results[i].build.jobName == prereqs[i].name
      invariant forall i :: 0 <= i < n && !NoBuildOf(builds, prereqs[i].name) ==>
        exists k :: FirstOf(builds, prereqs[i].name, k) && results[i].build == builds[k]
      invariant forall i :: 0 <= i < n && NoBuildOf(builds, prereqs[i].name) ==>
        results[i].build == Build(prereqs[i].name, NotRunning, 0)
    {
      var job := prereqs[n];
      var k := FirstBuildOf(builds, job.name);
      if k != -1 {
        results := results + [BuildResult(builds[k], resource, version.version)];
      } else {
        results := results + [BuildResult(Build(job.name, NotRunning, 0), resource, version.version)];
      }
    }
  }

  /** The job names occurring in `builds`. */
  function JobNames(builds: seq<Build>): set<string> {
    set i | 0 <= i < |builds| :: builds[i].jobName
  }

  lemma KeysAreJobNames(builds: seq<Build>, keys: set<string>)
    requires forall i :: 0 <= i < |builds| ==> builds[i].jobName in keys
    requires forall name :: name in keys ==> exists i :: 0 <= i < |builds| && builds[i].jobName == name
    ensures keys == JobNames(builds)
  {
  }

  /** How one more build moves the first latest build of `name`. */
  lemma FirstLatestStep(builds: seq<Build>, name: string, n: int, k: int)
    requires FirstLatestBefore(builds, name, n, k) && n < |builds|
    ensures builds[n].jobName != name || builds[n].endTime <= builds[k].endTime ==> FirstLatestBefore(builds, name, n + 1, k)
    ensures builds[n].jobName == name && builds[k].endTime < builds[n].endTime ==> FirstLatestBefore(builds, name, n + 1, n)
  {
  }

  /** After the first `n` builds, `m` holds for each job met so far its first
      build with the greatest end time, found at index `at[name]`. */
  ghost predicate ReducedUpTo(builds: seq<Build>, n: int, m: map<string, Build>, at: map<string, int>) {
    && m.Keys == at.Keys
    && (forall i :: 0 <= i < n && i < |builds| ==> builds[i].jobName in m)
    && (forall name :: name in m ==> FirstLatestBefore(builds, name, n, at[name]) && m[name] == builds[at[name]])
  }

  /** One iteration of the reduction loop keeps `ReducedUpTo`. */
  lemma ReduceStep(builds: seq<Build>, n: int, m: map<string, Build>, at: map<string, int>)
    requires 0 <= n < |builds| && ReducedUpTo(builds, n, m, at)
    ensures var b := builds[n];
      if b.jobName !in m || m[b.jobName].endTime < b.endTime
      then ReducedUpTo(builds, n + 1, m[b.jobName := b], at[b.jobName := n])
      else ReducedUpTo(builds, n + 1, m, at)
  {
    var b := builds[n];
    forall name | name in m
      ensures name != b.jobName ==> FirstLatestBefore(builds, name, n + 1, at[name])
      ensures name == b.jobName && m[name].endTime < b.endTime ==> FirstLatestBefore(builds, name, n + 1, n)
      ensures name == b.jobName && b.endTime <= m[name].endTime ==> FirstLatestBefore(builds, name, n + 1, at[name])
    {
      FirstLatestStep(builds, name, n, at[name]);
    }
    if b.jobName !in m {
      assert FirstLatestBefore(builds, b.jobName, n + 1, n);
    }
  }

  /** The `buildsByJob` reduction of `LatestBuildsForVersion`: per job, the
      build with the greatest end time, the first such on ties. */
  method BuildsByJob(builds: seq<Build>) returns (m: map<string, Build>)
    ensures m.Keys == JobNames(builds)
    ensures forall name :: name in m ==> exists k :: FirstLatest(builds, name, k) && m[name] == builds[k]
  {
    m := map[];
    ghost var at: map<string, int> := map[];
    for n := 0 to |builds|
      invariant ReducedUpTo(builds, n, m, at)
    {
      var b := builds[n];
      ReduceStep(builds, n, m, at);
      if b.jobName in m {
        if m[b.jobName].endTime < b.endTime {
          m := m[b.jobName := b];
          at := at[b.jobName := n];
        }
      } else {
        m := m[b.jobName := b];
        at := at[b.jobName := n];
      }
    }
    KeysAreJobNames(builds, m.Keys);
  }

  /** `results` lists the latest build of every job in `builds` exactly once,
      in no particular order. */
  ghost predicate OnePerJob(builds: seq<Build>, results: seq<Build>) {
    && |results| == |JobNames(builds)|
    && (forall i :: 0 <= i < |results| ==> exists k :: FirstLatest(builds, results[i].jobName, k) && results[i] == builds[k])
    && (forall i, j :: 0 <= i < j < |results| ==> results[i].jobName != results[j].jobName)
    && (forall name :: name in JobNames(builds) ==> exists i :: 0 <= i < |results| && results[i].jobName == name)
  }

  /** `vs` holds each value of `m` once, under distinct job names. */
  predicate ListsValues(m: map<string, Build>, vs: seq<Build>) {
    && |vs| == |m|
    && (forall i :: 0 <= i < |vs| ==> vs[i].jobName in m && vs[i] == m[vs[i].jobName])
    && (forall i, j :: 0 <= i < j < |vs| ==> vs[i].jobName != vs[j].jobName)
    && (forall name :: name in m ==> exists i :: 0 <= i < |vs| && vs[i].jobName == name)
  }

  /** The loop state of `Values`: `vs` lists, once each, the values of `m`
      whose keys are no longer `left`. */
  predicate ListedBut(m: map<string, Build>, left: set<string>, vs: seq<Build>) {
    && left <= m.Keys
    && |vs| + |left| == |m.Keys|
    && (forall i :: 0 <= i < |vs| ==> vs[i].jobName in m.Keys - left && vs[i] == m[vs[i].jobName])
    && (forall i, j :: 0 <= i < j < |vs| ==> vs[i].jobName != vs[j].jobName)
    && (forall name :: name in m.Keys - left ==> exists i :: 0 <= i < |vs| && vs[i].jobName == name)
  }

  lemma ListStep(m: map<string, Build>, left: set<string>, vs: seq<Build>, name: string)
    requires forall name :: name in m ==> m[name].jobName == name
    requires ListedBut(m, left, vs) && name in left
    ensures ListedBut(m, left - {name}, vs + [m[name]])
  {
    var vs', left' := vs + [m[name]], left - {name};
    assert |left'| == |left| - 1;
    assert forall i :: 0 <= i < |vs| ==> vs'[i] == vs[i];
    assert vs'[|vs|] == m[name];
    forall other | other in m.Keys - left'
      ensures exists i :: 0 <= i < |vs'| && vs'[i].jobName == other
    {
      if other == name {
        assert vs'[|vs|].jobName == other;
      } else {
        assert other in m.Keys - left;
        var i :| 0 <= i < |vs| && vs[i].jobName == other;
        assert vs'[i] == vs[i];
      }
    }
  }

  /** The loop over the reduced map's values: each value listed once, in
      whatever order the map is iterated. */
  method Values(m: map<string, Build>) returns (vs: seq<Build>)
    requires forall name :: name in m ==> m[name].jobName == name
    ensures ListsValues(m, vs)
  {
    vs := [];
    var left := m.Keys;
    while left != {}
      invariant ListedBut(m, left, vs)
      decreases |left|
    {
      var name :| name in left;
      ListStep(m, left, vs, name);
      vs := vs + [m[name]];
      left := left - {name};
    }
    assert m.Keys - left == m.Keys;
    assert |m| == |m.Keys|;
  }

  lemma ReducedValuesOnePerJob(builds: seq<Build>, m: map<string, Build>, vs: seq<Build>)
    requires m.Keys == JobNames(builds)
    requires forall name :: name in m ==> exists k :: FirstLatest(builds, name, k) && m[name] == builds[k]
    requires ListsValues(m, vs)
    ensures OnePerJob(builds, vs)
  {
    assert |m| == |m.Keys|;
  }

  lemma ReducedKeyed(builds: seq<Build>, m: map<string, Build>)
    requires forall name :: name in m ==> exists k :: FirstLatest(builds, name, k) && m[name] == builds[k]
    ensures forall name :: name in m ==> m[name].jobName == name
  {
  }

  /** What a fresh slice of `n` builds holds: `n` zero builds. */
  function Zeros(n: nat): (r: seq<Build>)
    ensures |r| == n && forall i :: 0 <= i < n ==> r[i] == ZeroBuild
  {
    seq(n, _ => ZeroBuild)
  }

  lemma Padded(builds: seq<Build>, zeros: seq<Build>, vs: seq<Build>)
    requires OnePerJob(builds, vs) && |zeros| == |vs|
    requires forall i :: 0 <= i < |zeros| ==> zeros[i] == ZeroBuild
    ensures |zeros + vs| == 2 * |JobNames(builds)|
    ensures forall i :: 0 <= i < |JobNames(builds)| ==> (zeros + vs)[i] == ZeroBuild
    ensures OnePerJob(builds, (zeros + vs)[|JobNames(builds)|..])
  {
    assert (zeros + vs)[|zeros|..] == vs;
  }

  /** `LatestBuildsForVersion` after the fetch, as written: the result slice
      is created with length (not capacity) equal to the number of jobs, so
      that many zero builds precede the latest build of each job. */
  method LatestBuildsForVersion(builds: seq<Build>) returns (results: seq<Build>)
    ensures |results| == 2 * |JobNames(builds)|
    ensures forall i :: 0 <= i < |JobNames(builds)| ==> results[i] == ZeroBuild
    ensures OnePerJob(builds, results[|JobNames(builds)|..])
  {
    var m := BuildsByJob(builds);
    ReducedKeyed(builds, m);
    var vs := Values(m);
    ReducedValuesOnePerJob(builds, m, vs);
    var zeros := Zeros(|m|);
    results := zeros + vs;
    Padded(builds, zeros, vs);
  }

  /** The padding is invisible to `matchBuildsToPrereqs` for a prerequisite
      with a name: its first matching build is the same one. */
  lemma PaddingHidden(zeros: seq<Build>, vs: seq<Build>, job: string)
    requires forall i :: 0 <= i < |zeros| ==> zeros[i] == ZeroBuild
    requires job != ""
    ensures NoBuildOf(zeros + vs, job) <==> NoBuildOf(vs, job)
    ensures forall k :: 0 <= k < |vs| ==> (FirstOf(zeros + vs, job, |zeros| + k) <==> FirstOf(vs, job, k))
    ensures forall k :: 0 <= k < |zeros| ==> !FirstOf(zeros + vs, job, k)
  {
    var s := zeros + vs;
    assert forall i :: 0 <= i < |zeros| ==> s[i].jobName == "";
    assert forall i :: 0 <= i < |vs| ==> s[|zeros| + i] == vs[i];
    if !NoBuildOf(vs, job) {
      var i :| 0 <= i < |vs| && vs[i].jobName == job;
      assert s[|zeros| + i].jobName == job;
    }
  }

  /** A prerequisite named "" (the zero job an unknown passed name resolves
      to) matches the padding: it gets a zero build, with an empty status,
      instead of the "not running" placeholder. */
  lemma PaddingMatchesUnnamed(zeros: seq<Build>, vs: seq<Build>)
    requires |zeros| > 0 && forall i :: 0 <= i < |zeros| ==> zeros[i] == ZeroBuild
    ensures FirstOf(zeros + vs, "", 0) && (zeros + vs)[0] == ZeroBuild
    ensures !NoBuildOf(zeros + vs, "")
  {
    assert (zeros + vs)[0] == zeros[0];
  }

  /** `LatestBuildsForVersion` as evidently intended: the latest build of
      each job, once, and nothing else. */
  method LatestBuildsPerJob(builds: seq<Build>) returns (results: seq<Build>)
    ensures OnePerJob(builds, results)
  {
    var m := BuildsByJob(builds);
    ReducedKeyed(builds, m);
    results := Values(m);
    ReducedValuesOnePerJob(builds, m, results);
  }

  /** One finished build of one job comes back behind a zero build. */
  method PaddingExample() returns (results: seq<Build>)
    ensures results == [ZeroBuild, Build("unit", "succeeded", 10)]
  {
    var b := Build("unit", "succeeded", 10);
    assert JobNames([b]) == {"unit"};
    results := LatestBuildsForVersion([b]);
    assert OnePerJob([b], results[1..]);
    assert exists k :: FirstLatest([b], results[1].jobName, k) && results[1] == [b][k];
  }
}
