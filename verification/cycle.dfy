/** A pipeline whose passed graph has a cycle away from the job asked
    about: `a` passed [`b`] and `b` passed [`a`], while `c` passed [`s`] and
    `s` takes the resource straight from the source. `clearPaths` on `c`
    never meets the cycle, so only the jobs reachable from `c` need a rank. */
module CycleElsewhere {
  import opened Pipeline
  import Paths

  const AJob := Job("a", [Input("repo", "repo", true, ["b"])], false)
  const BJob := Job("b", [Input("repo", "repo", true, ["a"])], false)
  const CJob := Job("c", [Input("repo", "repo", true, ["s"])], false)
  const SJob := Job("s", [Input("repo", "repo", true, [])], false)

  const Pipe: Jobs := map["a" := AJob, "b" := BJob, "c" := CJob, "s" := SJob]

  /** `c` above everything else; enough for the part `c` reaches. */
  function Top(name: string): nat {
    if name == "c" then 1 else 0
  }

  const SToC := Edge("repo", "s", "c", true)

  lemma CycleEdges()
    ensures EdgesInto("a", AJob.inputs, "repo") == [Edge("repo", "b", "a", true)]
    ensures EdgesInto("b", BJob.inputs, "repo") == [Edge("repo", "a", "b", true)]
    ensures EdgesInto("c", CJob.inputs, "repo") == [SToC]
    ensures EdgesInto("s", SJob.inputs, "repo") == []
  {
    assert EdgesInto("a", AJob.inputs[1..], "repo") == [];
    assert EdgesOfInput("a", AJob.inputs[0]) == [Edge("repo", "b", "a", true)];
    assert EdgesInto("b", BJob.inputs[1..], "repo") == [];
    assert EdgesOfInput("b", BJob.inputs[0]) == [Edge("repo", "a", "b", true)];
    assert EdgesInto("c", CJob.inputs[1..], "repo") == [];
    assert EdgesOfInput("c", CJob.inputs[0]) == [SToC];
    assert EdgesInto("s", SJob.inputs[1..], "repo") == [];
    assert EdgesOfInput("s", SJob.inputs[0]) == [];
  }

  /** No rank decreases along both `a`→`b` and `b`→`a`. */
  lemma NoRankForWholeMap(rank: string -> nat)
    ensures !Paths.Ranked(Pipe, "repo", rank)
  {
    CycleEdges();
    assert Lookup(Pipe, "a") == AJob && Lookup(Pipe, "b") == BJob;
    assert !(Paths.RankedJob(Pipe, "repo", rank, AJob) && Paths.RankedJob(Pipe, "repo", rank, BJob));
  }

  /** `s` has no passed names, so every rank meets its requirement. */
  lemma SourceRanked(rank: string -> nat)
    ensures Paths.RankedBelow(Pipe, "repo", rank, SJob)
  {
    CycleEdges();
  }

  lemma NoStepFromSource(j: string)
    ensures !Step(Pipe, "repo", "s", j)
  {
    assert Lookup(Pipe, "s") == SJob;
  }

  /** Nothing lies beyond `s`. */
  lemma OnlySourceReached(x: string)
    requires ReachedFrom(Pipe, "repo", "s", x)
    ensures x == "s"
  {
    var path :| Chain(Pipe, "repo", "s", path) && path[|path| - 1] == x;
    if |path| > 1 {
      NoStepFromSource(path[1]);
      assert false;
    }
  }

  /** `c` meets the requirement under `Top`, beside the cycle. */
  lemma TopRanksC()
    ensures Paths.RankedBelow(Pipe, "repo", Top, CJob)
    ensures Paths.CandidateRanked(Pipe, "repo", Top, "c", SToC)
  {
    CycleEdges();
    assert Lookup(Pipe, "s") == SJob;
    SourceRanked(Top);
    forall x | ReachedFrom(Pipe, "repo", "s", x)
      ensures Paths.RankedJob(Pipe, "repo", Top, Lookup(Pipe, x))
    {
      OnlySourceReached(x);
    }
  }

  /** Yet `c` has its one path, the edge from `s`. */
  lemma ClearPathsBesideCycle()
    ensures Paths.RankedBelow(Pipe, "repo", Top, CJob)
    ensures Paths.ClearPaths(Pipe, "repo", CJob, Top) == [[SToC]]
  {
    CycleEdges();
    TopRanksC();
    assert Lookup(Pipe, "s") == SJob;
    Paths.PathsFromUnfold(Pipe, "repo", "c", SToC, Top);
    Paths.PathsViaUnfold(Pipe, "repo", "c", [SToC], Top);
    assert [SToC][1..] == [];
  }
}
