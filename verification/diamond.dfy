/** A diamond pipeline on one resource "repo": `deploy` takes versions that
    passed both `unit` and `lint`, and each of those takes versions that
    passed `build`. It shows how the two resolvers and the path enumeration
    order and deduplicate the same gating graph. */
module Diamond {
  import opened Seqs
  import opened Pipeline
  import JobDeps
  import EdgeDeps
  import Paths

  const BuildJob := Job("build", [Input("repo", "repo", true, [])], false)
  const UnitJob := Job("unit", [Input("repo", "repo", true, ["build"])], false)
  const LintJob := Job("lint", [Input("repo", "repo", true, ["build"])], false)
  const DeployJob := Job("deploy", [Input("repo", "repo", false, ["unit", "lint"])], false)

  const Pipe: Jobs := map["build" := BuildJob, "unit" := UnitJob, "lint" := LintJob, "deploy" := DeployJob]

  const BuildToUnit := Edge("repo", "build", "unit", true)
  const BuildToLint := Edge("repo", "build", "lint", true)
  const UnitToDeploy := Edge("repo", "unit", "deploy", false)
  const LintToDeploy := Edge("repo", "lint", "deploy", false)

  lemma DiamondEdges()
    ensures EdgesInto("deploy", DeployJob.inputs, "repo") == [UnitToDeploy, LintToDeploy]
    ensures EdgesInto("unit", UnitJob.inputs, "repo") == [BuildToUnit]
    ensures EdgesInto("lint", LintJob.inputs, "repo") == [BuildToLint]
    ensures EdgesInto("build", BuildJob.inputs, "repo") == []
  {
    assert EdgesInto("deploy", DeployJob.inputs[1..], "repo") == [];
    assert EdgesOfInput("deploy", DeployJob.inputs[0]) == [UnitToDeploy, LintToDeploy];
    assert EdgesInto("unit", UnitJob.inputs[1..], "repo") == [];
    assert EdgesOfInput("unit", UnitJob.inputs[0]) == [BuildToUnit];
    assert EdgesInto("lint", LintJob.inputs[1..], "repo") == [];
    assert EdgesOfInput("lint", LintJob.inputs[0]) == [BuildToLint];
    assert EdgesInto("build", BuildJob.inputs[1..], "repo") == [];
    assert EdgesOfInput("build", BuildJob.inputs[0]) == [];
  }

  lemma DiamondLookups()
    ensures Lookup(Pipe, "deploy") == DeployJob && Lookup(Pipe, "unit") == UnitJob
    ensures Lookup(Pipe, "lint") == LintJob && Lookup(Pipe, "build") == BuildJob
  {
  }

  lemma DiamondCandidates()
    ensures Candidates(Pipe, "repo", "deploy") == [UnitToDeploy, LintToDeploy]
    ensures Candidates(Pipe, "repo", "unit") == [BuildToUnit]
    ensures Candidates(Pipe, "repo", "lint") == [BuildToLint]
    ensures Candidates(Pipe, "repo", "build") == []
  {
    DiamondEdges();
    DiamondLookups();
  }

  // The job walk's states: after unit, build, lint.
  const JobWalk0 := JobDeps.Walk([UnitJob], {"unit"})
  const JobWalk1 := JobDeps.Walk([UnitJob, BuildJob], {"unit", "build"})
  const JobWalk2 := JobDeps.Walk([UnitJob, BuildJob, LintJob], {"unit", "build", "lint"})

  /** Below `unit` the walk lists `build`, which passes nothing. */
  lemma JobUnitBranch()
    ensures JobDeps.Recurse(Pipe, "unit", "repo", JobWalk0) == JobWalk1
  {
    DiamondCandidates();
    DiamondLookups();
    assert JobWalk0.graph + [BuildJob] == JobWalk1.graph && JobWalk0.seen + {"build"} == JobWalk1.seen;
    assert JobDeps.Recurse(Pipe, "build", "repo", JobWalk1) == JobWalk1;
    assert JobDeps.Visit(Pipe, [BuildToUnit], "repo", JobWalk0) == JobDeps.Visit(Pipe, [], "repo", JobWalk1);
  }

  /** Below `lint` the walk lists `lint` and finds `build` already seen. */
  lemma JobLintBranch()
    ensures JobDeps.Visit(Pipe, [LintToDeploy], "repo", JobWalk1) == JobWalk2
  {
    DiamondCandidates();
    DiamondLookups();
    assert JobWalk1.graph + [LintJob] == JobWalk2.graph && JobWalk1.seen + {"lint"} == JobWalk2.seen;
    assert JobDeps.Visit(Pipe, [BuildToLint], "repo", JobWalk2) == JobDeps.Visit(Pipe, [], "repo", JobWalk2);
    assert JobDeps.Recurse(Pipe, "lint", "repo", JobWalk2) == JobWalk2;
  }

  lemma DeployResources()
    ensures Lookup(Pipe, "deploy").inputs == DeployJob.inputs
    ensures Resources(DeployJob.inputs) == {"repo"}
  {
    DiamondLookups();
    assert DeployJob.inputs[0].resource == "repo";
  }

  lemma ReverseThree<T>(a: T, b: T, c: T)
    ensures Reverse([a, b, c]) == [c, b, a]
  {
  }

  /** The job walk of the diamond, in discovery order. */
  lemma JobDiscoverDiamond()
    ensures JobDeps.Discover(Pipe, "deploy", "repo") == [UnitJob, BuildJob, LintJob]
  {
    DiamondCandidates();
    JobUnitBranch();
    JobLintBranch();
    assert [UnitJob] == JobDeps.Start.graph + [UnitJob] && {"unit"} == JobDeps.Start.seen + {"unit"};
    assert JobDeps.Visit(Pipe, [UnitToDeploy, LintToDeploy], "repo", JobDeps.Start) == JobDeps.Visit(Pipe, [LintToDeploy], "repo", JobWalk1);
  }

  /** The job-keyed resolver lists `build` once, ahead of the job it was first
      reached through: reversed discovery order. */
  lemma JobKeyedDiamond()
    ensures JobDeps.FindDependencies(Pipe, "deploy") == map["repo" := [LintJob, BuildJob, UnitJob]]
  {
    JobDiscoverDiamond();
    DeployResources();
    var r := JobDeps.FindDependencies(Pipe, "deploy");
    assert r.Keys == {"repo"};
    ReverseThree(UnitJob, BuildJob, LintJob);
  }

  /** Reversed discovery order is not ancestor-first: `lint` is listed before
      `build`, although `lint` takes only versions that passed `build`. */
  lemma NotAncestorFirst()
    ensures var g := JobDeps.FindDependencies(Pipe, "deploy")["repo"];
      && |g| == 3 && g[0] == LintJob && g[1] == BuildJob
      && "build" in LintJob.inputs[0].passed
  {
    JobKeyedDiamond();
  }

  // The edge walk's states: after unit→deploy, build→unit, lint→deploy, build→lint.
  const EdgeWalk0 := EdgeDeps.Walk([UnitToDeploy], {UnitToDeploy})
  const EdgeWalk1 := EdgeDeps.Walk([UnitToDeploy, BuildToUnit], {UnitToDeploy, BuildToUnit})
  const EdgeWalk2 := EdgeDeps.Walk([UnitToDeploy, BuildToUnit, LintToDeploy], {UnitToDeploy, BuildToUnit, LintToDeploy})
  const EdgeWalk3 := EdgeDeps.Walk([UnitToDeploy, BuildToUnit, LintToDeploy, BuildToLint], {UnitToDeploy, BuildToUnit, LintToDeploy, BuildToLint})

  /** The walk below `unit` appends build→unit, and `build` adds nothing. */
  lemma EdgeUnitBranch()
    ensures EdgeDeps.Recurse(Pipe, "unit", "repo", EdgeWalk0) == EdgeWalk1
  {
    DiamondCandidates();
    EdgeDeps.CandidatesInUniverse(Pipe, "repo", "unit");
    assert EdgeWalk0.edges + [BuildToUnit] == EdgeWalk1.edges && EdgeWalk0.seen + {BuildToUnit} == EdgeWalk1.seen;
    assert EdgeDeps.Recurse(Pipe, "build", "repo", EdgeWalk1) == EdgeWalk1;
    assert EdgeDeps.Visit(Pipe, [BuildToUnit], "repo", EdgeWalk0) == EdgeDeps.Visit(Pipe, [], "repo", EdgeWalk1);
  }

  /** The walk from `lint` appends build→lint, and `build` adds nothing. */
  lemma EdgeLintRecurse()
    ensures EdgeDeps.Recurse(Pipe, "lint", "repo", EdgeWalk2) == EdgeWalk3
  {
    DiamondCandidates();
    EdgeDeps.CandidatesInUniverse(Pipe, "repo", "lint");
    assert EdgeWalk2.edges + [BuildToLint] == EdgeWalk3.edges && EdgeWalk2.seen + {BuildToLint} == EdgeWalk3.seen;
    assert EdgeDeps.Recurse(Pipe, "build", "repo", EdgeWalk3) == EdgeWalk3;
    assert EdgeDeps.Visit(Pipe, [BuildToLint], "repo", EdgeWalk2) == EdgeDeps.Visit(Pipe, [], "repo", EdgeWalk3);
  }

  lemma DeployEdgesInUniverse()
    ensures UnitToDeploy in EdgeDeps.Universe(Pipe, "repo") && LintToDeploy in EdgeDeps.Universe(Pipe, "repo")
  {
    DiamondCandidates();
    EdgeDeps.CandidatesInUniverse(Pipe, "repo", "deploy");
    assert Candidates(Pipe, "repo", "deploy")[1] == LintToDeploy;
  }

  /** The walk below `lint` appends lint→deploy and build→lint, and stops at
      `build`, whose edges are none. */
  lemma EdgeLintBranch()
    ensures LintToDeploy in EdgeDeps.Universe(Pipe, "repo")
    ensures EdgeDeps.Visit(Pipe, [LintToDeploy], "repo", EdgeWalk1) == EdgeWalk3
  {
    DeployEdgesInUniverse();
    assert LintToDeploy !in EdgeWalk1.seen;
    assert EdgeWalk1.edges + [LintToDeploy] == EdgeWalk2.edges && EdgeWalk1.seen + {LintToDeploy} == EdgeWalk2.seen;
    EdgeLintRecurse();
    assert EdgeDeps.Visit(Pipe, [LintToDeploy], "repo", EdgeWalk1)
        == EdgeDeps.Visit(Pipe, [], "repo", EdgeDeps.Recurse(Pipe, "lint", "repo", EdgeWalk2));
  }

  /** The edge walk of the diamond, in the order edges are accepted. */
  lemma EdgeDiscoverDiamond()
    ensures EdgeDeps.Discover(Pipe, "deploy", "repo") == [UnitToDeploy, BuildToUnit, LintToDeploy, BuildToLint]
  {
    DiamondCandidates();
    DeployEdgesInUniverse();
    EdgeUnitBranch();
    EdgeLintBranch();
    assert [UnitToDeploy] == EdgeDeps.Start.edges + [UnitToDeploy] && {UnitToDeploy} == EdgeDeps.Start.seen + {UnitToDeploy};
    assert EdgeDeps.Visit(Pipe, [UnitToDeploy, LintToDeploy], "repo", EdgeDeps.Start) == EdgeDeps.Visit(Pipe, [LintToDeploy], "repo", EdgeWalk1);
  }

  /** The edge-keyed resolver lists every gating edge once, `build` appearing
      on two of them: reversed discovery order. */
  lemma EdgeKeyedDiamond()
    ensures EdgeDeps.FindDependencies(Pipe, "deploy") == map["repo" := [BuildToLint, LintToDeploy, BuildToUnit, UnitToDeploy]]
  {
    EdgeDiscoverDiamond();
    DeployResources();
    var r := EdgeDeps.FindDependencies(Pipe, "deploy");
    assert EdgeDeps.Count(DeployJob.inputs, "repo") == 1;
    assert r.Keys == {"repo"};
    EdgeDeps.FindDependenciesSingleInput(Pipe, "deploy", "repo");
    ReverseFour(UnitToDeploy, BuildToUnit, LintToDeploy, BuildToLint);
  }

  lemma ReverseFour<T>(a: T, b: T, c: T, d: T)
    ensures Reverse([a, b, c, d]) == [d, c, b, a]
  {
  }

  /** Strictly decreasing from `deploy` down to `build`: the diamond is acyclic. */
  function Depth(name: string): nat {
    if name == "deploy" then 3 else if name == "unit" || name == "lint" then 2 else if name == "build" then 1 else 0
  }

  lemma DiamondRanked()
    ensures Paths.Ranked(Pipe, "repo", Depth) && Paths.RankedJob(Pipe, "repo", Depth, DeployJob)
  {
    RankedOne(BuildJob, []);
    RankedOne(UnitJob, [BuildToUnit]);
    RankedOne(LintJob, [BuildToLint]);
    RankedOne(DeployJob, [UnitToDeploy, LintToDeploy]);
    forall k | k in Pipe
      ensures Paths.RankedJob(Pipe, "repo", Depth, Pipe[k])
    {
      assert k == "build" || k == "unit" || k == "lint" || k == "deploy";
    }
  }

  /** A job of the diamond, given its candidate edges, is ranked. */
  lemma RankedOne(job: Job, es: seq<Edge>)
    requires job in {BuildJob, UnitJob, LintJob, DeployJob}
    requires EdgesInto(job.name, job.inputs, "repo") == es
    ensures Paths.RankedJob(Pipe, "repo", Depth, job)
  {
    DiamondLookups();
    forall c | c in es
      ensures Depth(Lookup(Pipe, c.from).name) < Depth(job.name)
    {
      assert c.to == job.name && c.from in {"build", "unit", "lint"};
    }
  }

  /** The rank requirement at each job of the diamond and at each edge into
      `deploy`. */
  lemma DiamondRankedBelow()
    ensures Paths.RankedBelow(Pipe, "repo", Depth, BuildJob)
    ensures Paths.RankedBelow(Pipe, "repo", Depth, UnitJob)
    ensures Paths.RankedBelow(Pipe, "repo", Depth, LintJob)
    ensures Paths.RankedBelow(Pipe, "repo", Depth, DeployJob)
    ensures Paths.CandidateRanked(Pipe, "repo", Depth, "deploy", UnitToDeploy)
    ensures Paths.CandidateRanked(Pipe, "repo", Depth, "deploy", LintToDeploy)
  {
    DiamondRanked();
    DiamondLookups();
    assert Pipe["build"] == BuildJob && Pipe["unit"] == UnitJob && Pipe["lint"] == LintJob;
    Paths.RankedBelowOfRanked(Pipe, "repo", Depth, BuildJob);
    Paths.RankedBelowOfRanked(Pipe, "repo", Depth, UnitJob);
    Paths.RankedBelowOfRanked(Pipe, "repo", Depth, LintJob);
    Paths.RankedBelowOfRanked(Pipe, "repo", Depth, DeployJob);
  }

  lemma ClearPathsBuild()
    ensures Paths.RankedBelow(Pipe, "repo", Depth, BuildJob)
    ensures Paths.ClearPaths(Pipe, "repo", BuildJob, Depth) == []
  {
    DiamondRankedBelow();
    DiamondEdges();
  }

  /** `unit` and `lint` each have the one path from `build`. */
  lemma ClearPathsMiddle()
    ensures Paths.RankedBelow(Pipe, "repo", Depth, UnitJob) && Paths.RankedBelow(Pipe, "repo", Depth, LintJob)
    ensures Paths.ClearPaths(Pipe, "repo", UnitJob, Depth) == [[BuildToUnit]]
    ensures Paths.ClearPaths(Pipe, "repo", LintJob, Depth) == [[BuildToLint]]
  {
    DiamondRankedBelow();
    DiamondEdges();
    DiamondLookups();
    ClearPathsBuild();
    var toUnit := Paths.PathsFrom(Pipe, "repo", "unit", BuildToUnit, Depth);
    var toLint := Paths.PathsFrom(Pipe, "repo", "lint", BuildToLint, Depth);
    assert toUnit == [[BuildToUnit]];
    assert toLint == [[BuildToLint]];
    assert [BuildToUnit][1..] == [] && [BuildToLint][1..] == [];
    assert Paths.ClearPaths(Pipe, "repo", UnitJob, Depth)
        == toUnit + Paths.PathsVia(Pipe, "repo", "unit", [], Depth);
    assert Paths.ClearPaths(Pipe, "repo", LintJob, Depth)
        == toLint + Paths.PathsVia(Pipe, "repo", "lint", [], Depth);
  }

  lemma ExtendOne(p: seq<Edge>, e: Edge)
    ensures Paths.Extend([p], e) == [p + [e]]
  {
    var x := Paths.Extend([p], e);
    assert |x| == 1 && x[0] == p + [e];
  }

  /** The paths `deploy` gets through its passed name `unit`. */
  lemma PathsFromUnit()
    ensures Paths.CandidateRanked(Pipe, "repo", Depth, "deploy", UnitToDeploy)
    ensures Paths.PathsFrom(Pipe, "repo", "deploy", UnitToDeploy, Depth) == [[BuildToUnit, UnitToDeploy]]
  {
    DiamondRankedBelow();
    DiamondLookups();
    DiamondEdges();
    Paths.PathsFromUnfold(Pipe, "repo", "deploy", UnitToDeploy, Depth);
    ClearPathsMiddle();
    ExtendOne([BuildToUnit], UnitToDeploy);
    assert [BuildToUnit] + [UnitToDeploy] == [BuildToUnit, UnitToDeploy];
  }

  /** The paths `deploy` gets through its passed name `lint`. */
  lemma PathsFromLint()
    ensures Paths.CandidateRanked(Pipe, "repo", Depth, "deploy", LintToDeploy)
    ensures Paths.PathsFrom(Pipe, "repo", "deploy", LintToDeploy, Depth) == [[BuildToLint, LintToDeploy]]
  {
    DiamondRankedBelow();
    DiamondLookups();
    DiamondEdges();
    Paths.PathsFromUnfold(Pipe, "repo", "deploy", LintToDeploy, Depth);
    ClearPathsMiddle();
    ExtendOne([BuildToLint], LintToDeploy);
    assert [BuildToLint] + [LintToDeploy] == [BuildToLint, LintToDeploy];
  }

  lemma PathsViaBoth()
    ensures Paths.CandidateRanked(Pipe, "repo", Depth, "deploy", UnitToDeploy)
    ensures Paths.CandidateRanked(Pipe, "repo", Depth, "deploy", LintToDeploy)
    ensures Paths.PathsVia(Pipe, "repo", "deploy", [UnitToDeploy, LintToDeploy], Depth)
         == [[BuildToUnit, UnitToDeploy], [BuildToLint, LintToDeploy]]
  {
    PathsFromUnit();
    PathsFromLint();
    Paths.PathsViaPair(Pipe, "repo", "deploy", UnitToDeploy, LintToDeploy, Depth);
    Pair(Paths.PathsVia(Pipe, "repo", "deploy", [UnitToDeploy, LintToDeploy], Depth),
         Paths.PathsFrom(Pipe, "repo", "deploy", UnitToDeploy, Depth),
         Paths.PathsFrom(Pipe, "repo", "deploy", LintToDeploy, Depth),
         [BuildToUnit, UnitToDeploy], [BuildToLint, LintToDeploy]);
  }

  lemma Pair(z: seq<seq<Edge>>, x: seq<seq<Edge>>, y: seq<seq<Edge>>, a: seq<Edge>, b: seq<Edge>)
    requires z == x + y && x == [a] && y == [b]
    ensures z == [a, b]
  {
  }

  /** Both paths through the diamond, `build` once on each. */
  lemma ClearPathsDiamond()
    ensures Paths.RankedBelow(Pipe, "repo", Depth, DeployJob)
    ensures Paths.ClearPaths(Pipe, "repo", DeployJob, Depth) == [[BuildToUnit, UnitToDeploy], [BuildToLint, LintToDeploy]]
  {
    DiamondRankedBelow();
    DiamondEdges();
    PathsViaBoth();
  }
}
