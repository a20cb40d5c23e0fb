/** The records the resolvers and correlators work on: the parts of a
    Concourse job, build and gating edge that the core reads. */
module Pipeline {

  /** One input of a job: its name, the resource it fetches, whether a new
      version of that resource triggers the job, and the jobs that must have
      passed with that version first. */
  datatype Input = Input(name: string, resource: string, trigger: bool, passed: seq<string>)

  datatype Job = Job(name: string, inputs: seq<Input>, hasNewInputs: bool)

  /** One gating relationship: `from` must pass before `to` takes `resource`. */
  datatype Edge = Edge(resource: string, from: string, to: string, trigger: bool)

  /** A build; `endTime` is a Unix timestamp, 0 while the build has not ended. */
  datatype Build = Build(jobName: string, status: string, endTime: int)

  type Jobs = map<string, Job>

  /** The zero value a Go map lookup yields for a job name it does not hold. */
  const ZeroJob := Job("", [], false)

  /** The zero value of a build. */
  const ZeroBuild := Build("", "", 0)

  /** `jobsByName[name]`: the stored job, or the zero job for a name the map
      does not hold. */
  function Lookup(jobs: Jobs, name: string): (j: Job)
    ensures name in jobs ==> j == jobs[name]
    ensures name !in jobs ==> j.name == "" && j.inputs == [] && !j.hasNewInputs
  {
    if name in jobs then jobs[name] else ZeroJob
  }

  /** Every job is stored under its own name. */
  predicate WellKeyed(jobs: Jobs) {
    forall k :: k in jobs ==> jobs[k].name == k
  }

  /** No later job in `list` has the name of `list[i]`. */
  predicate LastNamed(list: seq<Job>, i: int)
    requires 0 <= i < |list|
  {
    forall j :: i < j < |list| ==> list[j].name != list[i].name
  }

  /** The `jobsByName` map both resolvers build from the job listing: a later
      job with a name already stored replaces the earlier one. */
  method JobsByName(list: seq<Job>) returns (m: Jobs)
    ensures forall i :: 0 <= i < |list| ==> list[i].name in m
    ensures forall k :: k in m ==> exists i :: 0 <= i < |list| && list[i].name == k
    ensures WellKeyed(m)
    ensures forall i :: 0 <= i < |list| && LastNamed(list, i) ==> m[list[i].name] == list[i]
  {
    m := map[];
    for n := 0 to |list|
      invariant forall i :: 0 <= i < n ==> list[i].name in m
      invariant forall k :: k in m ==> exists i :: 0 <= i < n && list[i].name == k
      invariant WellKeyed(m)
      invariant forall i :: 0 <= i < n && (forall j :: i < j < n ==> list[j].name != list[i].name)
                  ==> m[list[i].name] == list[i]
    {
      m := m[list[n].name := list[n]];
    }
  }

  /** The resources a list of inputs names. */
  function Resources(inputs: seq<Input>): set<string> {
    set i | 0 <= i < |inputs| :: inputs[i].resource
  }

  lemma ResourcesCons(inputs: seq<Input>)
    requires |inputs| > 0
    ensures Resources(inputs) == {inputs[0].resource} + Resources(inputs[1..])
  {
    assert forall i :: 0 < i < |inputs| ==> inputs[i] == inputs[1..][i - 1];
    assert forall i :: 0 <= i < |inputs[1..]| ==> inputs[1..][i] == inputs[i + 1];
  }

  /** Input `k` of `inputs` is on resource `res`. */
  predicate OnResource(inputs: seq<Input>, k: int, res: string)
    requires 0 <= k < |inputs|
  {
    inputs[k].resource == res
  }

  /** `e` is the edge an input of the job named `to` on resource `res`
      induces for one of its passed names. */
  predicate IsEdgeInto(to: string, inputs: seq<Input>, res: string, e: Edge) {
    && e.to == to
    && e.resource == res
    && exists k :: 0 <= k < |inputs| && OnResource(inputs, k, res)
         && e.from in inputs[k].passed && e.trigger == inputs[k].trigger
  }

  function EdgesOfInput(to: string, input: Input): (es: seq<Edge>)
    ensures |es| == |input.passed|
    ensures forall i :: 0 <= i < |es| ==> es[i] == Edge(input.resource, input.passed[i], to, input.trigger)
  {
    seq(|input.passed|, i requires 0 <= i < |input.passed| => Edge(input.resource, input.passed[i], to, input.trigger))
  }

  /** The candidate edges into the job named `to` on resource `res`, in the
      order the Go loops meet them: inputs in order, skipping inputs on other
      resources, and each input's passed names in order. */
  function EdgesInto(to: string, inputs: seq<Input>, res: string): (es: seq<Edge>)
    ensures forall e :: e in es <==> IsEdgeInto(to, inputs, res, e)
  {
    if |inputs| == 0 then []
    else
      var here := if inputs[0].resource == res then EdgesOfInput(to, inputs[0]) else [];
      var rest := EdgesInto(to, inputs[1..], res);
      assert forall e :: IsEdgeInto(to, inputs[1..], res, e) ==> IsEdgeInto(to, inputs, res, e) by {
        forall e | IsEdgeInto(to, inputs[1..], res, e)
          ensures IsEdgeInto(to, inputs, res, e)
        {
          var k :| 0 <= k < |inputs[1..]| && OnResource(inputs[1..], k, res)
            && e.from in inputs[1..][k].passed && e.trigger == inputs[1..][k].trigger;
          assert OnResource(inputs, k + 1, res);
        }
      }
      assert forall e :: e in here ==> IsEdgeInto(to, inputs, res, e) by {
        forall e | e in here
          ensures IsEdgeInto(to, inputs, res, e)
        {
          var i :| 0 <= i < |here| && here[i] == e;
          assert OnResource(inputs, 0, res);
        }
      }
      assert forall e :: IsEdgeInto(to, inputs, res, e) ==> e in here + rest by {
        forall e | IsEdgeInto(to, inputs, res, e)
          ensures e in here + rest
        {
          var k :| 0 <= k < |inputs| && OnResource(inputs, k, res)
            && e.from in inputs[k].passed && e.trigger == inputs[k].trigger;
          if k == 0 {
            var i :| 0 <= i < |inputs[0].passed| && inputs[0].passed[i] == e.from;
            assert here[i] == e;
          } else {
            assert OnResource(inputs[1..], k - 1, res);
            assert IsEdgeInto(to, inputs[1..], res, e);
          }
        }
      }
      here + rest
  }

  /** The candidates the resolvers examine at the job named `name`. */
  function Candidates(jobs: Jobs, res: string, name: string): (es: seq<Edge>)
    ensures forall e :: e in es ==> e.to == name && e.resource == res
  {
    EdgesInto(name, Lookup(jobs, name).inputs, res)
  }

  /** `j` is in the passed list of an input on `res` of the job named `x`. */
  ghost predicate Step(jobs: Jobs, res: string, x: string, j: string) {
    exists k :: 0 <= k < |Lookup(jobs, x).inputs| && OnResource(Lookup(jobs, x).inputs, k, res)
      && j in Lookup(jobs, x).inputs[k].passed
  }

  lemma CandidateIsStep(jobs: Jobs, res: string, x: string, e: Edge)
    requires e in Candidates(jobs, res, x)
    ensures Step(jobs, res, x, e.from) && e.to == x && e.resource == res
  {
  }

  lemma StepIsCandidate(jobs: Jobs, res: string, x: string, j: string)
    requires Step(jobs, res, x, j)
    ensures exists e :: e in Candidates(jobs, res, x) && e.from == j
  {
    var inputs := Lookup(jobs, x).inputs;
    var k :| 0 <= k < |inputs| && OnResource(inputs, k, res) && j in inputs[k].passed;
    assert IsEdgeInto(x, inputs, res, Edge(res, j, x, inputs[k].trigger));
  }

  /** `path` starts at `target` and each next name is a step from the one before. */
  ghost predicate Chain(jobs: Jobs, res: string, target: string, path: seq<string>) {
    && |path| >= 1
    && path[0] == target
    && forall i :: 0 <= i < |path| - 1 ==> Step(jobs, res, path[i], path[i + 1])
  }

  /** `x` is `target` or reachable from it through passed lists on `res`. */
  ghost predicate ReachedFrom(jobs: Jobs, res: string, target: string, x: string) {
    exists path :: Chain(jobs, res, target, path) && path[|path| - 1] == x
  }

  lemma ReachedSelf(jobs: Jobs, res: string, target: string)
    ensures ReachedFrom(jobs, res, target, target)
  {
    assert Chain(jobs, res, target, [target]);
  }

  lemma ReachedByStep(jobs: Jobs, res: string, target: string, x: string, j: string)
    requires ReachedFrom(jobs, res, target, x) && Step(jobs, res, x, j)
    ensures ReachedFrom(jobs, res, target, j)
  {
    var path :| Chain(jobs, res, target, path) && path[|path| - 1] == x;
    var longer := path + [j];
    assert forall i :: 0 <= i < |path| ==> longer[i] == path[i];
    assert Chain(jobs, res, target, longer);
  }

  /** A step in front of a chain is a chain. */
  lemma ReachedPrepend(jobs: Jobs, res: string, a: string, b: string, x: string)
    requires Step(jobs, res, a, b) && ReachedFrom(jobs, res, b, x)
    ensures ReachedFrom(jobs, res, a, x)
  {
    var path :| Chain(jobs, res, b, path) && path[|path| - 1] == x;
    var longer := [a] + path;
    assert forall i :: 0 <= i < |path| ==> longer[i + 1] == path[i];
    assert Chain(jobs, res, a, longer);
  }

  /** Build `k` is the first, in list order, of the builds of `job` among the
      first `n` with the greatest end time. */
  predicate FirstLatestBefore(builds: seq<Build>, job: string, n: int, k: int) {
    && 0 <= k < n <= |builds|
    && builds[k].jobName == job
    && (forall i :: 0 <= i < n && builds[i].jobName == job ==> builds[i].endTime <= builds[k].endTime)
    && (forall i :: 0 <= i < k && builds[i].jobName == job ==> builds[i].endTime < builds[k].endTime)
  }

  predicate FirstLatest(builds: seq<Build>, job: string, k: int) {
    FirstLatestBefore(builds, job, |builds|, k)
  }

  lemma FirstLatestUnique(builds: seq<Build>, job: string, k1: int, k2: int)
    requires FirstLatest(builds, job, k1) && FirstLatest(builds, job, k2)
    ensures k1 == k2
  {
  }
}
