/** The path enumeration and prerequisite classification of main.go. */
module Paths {
  import opened Pipeline

  /** `rank` strictly decreases from `job` to the job behind each of its
      passed names on `res`. */
  ghost predicate RankedJob(jobs: Jobs, res: string, rank: string -> nat, job: Job) {
    forall c :: c in EdgesInto(job.name, job.inputs, res) ==> rank(Lookup(jobs, c.from).name) < rank(job.name)
  }

  /** The passed graph on `res` is acyclic, witnessed by `rank`. */
  ghost predicate Ranked(jobs: Jobs, res: string, rank: string -> nat) {
    forall k :: k in jobs ==> RankedJob(jobs, res, rank, jobs[k])
  }

  /** `rank` strictly decreases along every passed edge on `res` that can be
      met from `job`: at `job` itself and at every job reachable from one of
      its passed names. Jobs the recursion never visits are unconstrained. */
  ghost predicate RankedBelow(jobs: Jobs, res: string, rank: string -> nat, job: Job) {
    && RankedJob(jobs, res, rank, job)
    && forall c, x :: c in EdgesInto(job.name, job.inputs, res) && ReachedFrom(jobs, res, c.from, x)
         ==> RankedJob(jobs, res, rank, Lookup(jobs, x))
  }

  lemma LookupRanked(jobs: Jobs, res: string, rank: string -> nat, name: string)
    requires Ranked(jobs, res, rank)
    ensures RankedJob(jobs, res, rank, Lookup(jobs, name))
  {
    if name !in jobs {
      assert EdgesInto("", [], res) == [];
    }
  }

  /** A rank for the whole map is a rank below every job. */
  lemma RankedBelowOfRanked(jobs: Jobs, res: string, rank: string -> nat, job: Job)
    requires Ranked(jobs, res, rank) && RankedJob(jobs, res, rank, job)
    ensures RankedBelow(jobs, res, rank, job)
  {
    forall c, x | c in EdgesInto(job.name, job.inputs, res) && ReachedFrom(jobs, res, c.from, x)
      ensures RankedJob(jobs, res, rank, Lookup(jobs, x))
    {
      LookupRanked(jobs, res, rank, x);
    }
  }

  /** An edge into the job stored under `x` is a step from `x`. */
  lemma EdgeIntoIsStep(jobs: Jobs, res: string, x: string, c: Edge)
    requires c in EdgesInto(Lookup(jobs, x).name, Lookup(jobs, x).inputs, res)
    ensures Step(jobs, res, x, c.from)
  {
    var inputs := Lookup(jobs, x).inputs;
    var k :| 0 <= k < |inputs| && OnResource(inputs, k, res) && c.from in inputs[k].passed && c.trigger == inputs[k].trigger;
  }

  /** The recursion into a passed name keeps the rank condition. */
  lemma RankedBelowNext(jobs: Jobs, res: string, rank: string -> nat, job: Job, c: Edge)
    requires RankedBelow(jobs, res, rank, job) && c in EdgesInto(job.name, job.inputs, res)
    ensures RankedBelow(jobs, res, rank, Lookup(jobs, c.from))
  {
    var next := Lookup(jobs, c.from);
    ReachedSelf(jobs, res, c.from);
    forall c', x | c' in EdgesInto(next.name, next.inputs, res) && ReachedFrom(jobs, res, c'.from, x)
      ensures RankedJob(jobs, res, rank, Lookup(jobs, x))
    {
      EdgeIntoIsStep(jobs, res, c.from, c');
      ReachedPrepend(jobs, res, c.from, c'.from, x);
    }
  }

  /** The requirement on each candidate of a job: on `res`, ranked below the
      job, and its passed job ranked below in turn. */
  ghost predicate CandidateRanked(jobs: Jobs, res: string, rank: string -> nat, to: string, c: Edge) {
    && c.resource == res
    && rank(Lookup(jobs, c.from).name) < rank(to)
    && RankedBelow(jobs, res, rank, Lookup(jobs, c.from))
  }

  lemma CandidatesRanked(jobs: Jobs, res: string, rank: string -> nat, job: Job)
    requires RankedBelow(jobs, res, rank, job)
    ensures forall c :: c in EdgesInto(job.name, job.inputs, res) ==> CandidateRanked(jobs, res, rank, job.name, c)
  {
    forall c | c in EdgesInto(job.name, job.inputs, res)
      ensures CandidateRanked(jobs, res, rank, job.name, c)
    {
      RankedBelowNext(jobs, res, rank, job, c);
    }
  }

  /** Names of stored jobs that have at least one passed name on `res`. */
  function Feeding(jobs: Jobs, res: string): set<string> {
    set k | k in jobs && EdgesInto(jobs[k].name, jobs[k].inputs, res) != [] :: jobs[k].name
  }

  /** The shape of a gating path ending at a job named `to`: non-empty, every
      edge on `res`, consecutive edges joined, the last edge into `to`, and
      every edge after the first leaving a job that has passed names on `res`. */
  ghost predicate PathInto(jobs: Jobs, res: string, to: string, p: seq<Edge>) {
    && |p| > 0
    && p[|p| - 1].to == to
    && (forall i :: 0 <= i < |p| ==> p[i].resource == res)
    && (forall i :: 0 <= i < |p| - 1 ==> p[i].to == p[i + 1].from)
    && (forall i :: 0 < i < |p| ==> p[i].from in Feeding(jobs, res))
  }

  /** A maximal chain of passed edges into `job`: its last edge is the one
      some candidate `c` of `job` induces, and what comes before it is a
      maximal chain into the job behind `c`'s passed name, or nothing when
      that job has no passed names on `res`. */
  ghost predicate GatingPath(jobs: Jobs, res: string, job: Job, p: seq<Edge>)
    decreases |p|, 1
  {
    exists c :: c in EdgesInto(job.name, job.inputs, res) && PathVia(jobs, res, job.name, c, p)
  }

  /** `p` is a maximal chain via one of `cands`. */
  ghost predicate ViaSome(jobs: Jobs, res: string, to: string, cands: seq<Edge>, p: seq<Edge>) {
    exists c :: c in cands && PathVia(jobs, res, to, c, p)
  }

  /** `p` is a maximal chain whose last edge is the one the candidate `c`
      induces into the job named `to`: from the looked-up job's own name,
      with `c`'s trigger flag. */
  ghost predicate PathVia(jobs: Jobs, res: string, to: string, c: Edge, p: seq<Edge>)
    decreases |p|, 0
  {
    var next := Lookup(jobs, c.from);
    && |p| > 0
    && p[|p| - 1] == Edge(c.resource, next.name, to, c.trigger)
    && (if EdgesInto(next.name, next.inputs, res) == [] then |p| == 1
        else GatingPath(jobs, res, next, p[..|p| - 1]))
  }

  /** `clearPaths(jobsByName, resource, job)`: every maximal chain of passed
      edges on `res` that ends at `job`, with no deduplication. The Go code
      has no cycle guard, so the passed graph below `job` must be acyclic. */
  function ClearPaths(jobs: Jobs, res: string, job: Job, ghost rank: string -> nat): (r: seq<seq<Edge>>)
    requires RankedBelow(jobs, res, rank, job)
    ensures forall i :: 0 <= i < |r| ==> PathInto(jobs, res, job.name, r[i])
    ensures |r| >= |EdgesInto(job.name, job.inputs, res)|
    ensures EdgesInto(job.name, job.inputs, res) == [] ==> r == []
    decreases rank(job.name), 1
  {
    CandidatesRanked(jobs, res, rank, job);
    PathsVia(jobs, res, job.name, EdgesInto(job.name, job.inputs, res), rank)
  }

  /** Each passed name `p` met in order: its paths, then those of the
      passed names after it. */
  function PathsVia(jobs: Jobs, res: string, to: string, cands: seq<Edge>, ghost rank: string -> nat): (r: seq<seq<Edge>>)
    requires forall c :: c in cands ==> CandidateRanked(jobs, res, rank, to, c)
    ensures forall i :: 0 <= i < |r| ==> PathInto(jobs, res, to, r[i])
    ensures |r| >= |cands|
    ensures cands == [] ==> r == []
    decreases rank(to), 0, |cands|
  {
    if |cands| == 0 then []
    else PathsFrom(jobs, res, to, cands[0], rank) + PathsVia(jobs, res, to, cands[1..], rank)
  }

  /** The paths one passed name contributes: the edge from `jobsByName[p]` is
      appended to every path into that job, or stands alone when there is none. */
  function PathsFrom(jobs: Jobs, res: string, to: string, c: Edge, ghost rank: string -> nat): (r: seq<seq<Edge>>)
    requires CandidateRanked(jobs, res, rank, to, c)
    ensures |r| >= 1
    ensures forall i :: 0 <= i < |r| ==> PathInto(jobs, res, to, r[i])
    decreases rank(to), 0, 0
  {
    var next := Lookup(jobs, c.from);
    var edge := Edge(c.resource, next.name, to, c.trigger);
    var sub := ClearPaths(jobs, res, next, rank);
    if |sub| == 0 then [[edge]]
    else
      assert next.name in Feeding(jobs, res) by {
        assert c.from in jobs;
      }
      ExtendKeepsPaths(jobs, res, sub, edge);
      Extend(sub, edge)
  }

  /** Appending an edge out of a feeding job to paths into that job gives
      paths into the edge's target. */
  lemma ExtendKeepsPaths(jobs: Jobs, res: string, sub: seq<seq<Edge>>, edge: Edge)
    requires forall i :: 0 <= i < |sub| ==> PathInto(jobs, res, edge.from, sub[i])
    requires edge.resource == res && edge.from in Feeding(jobs, res)
    ensures forall i :: 0 <= i < |sub| ==> PathInto(jobs, res, edge.to, Extend(sub, edge)[i])
  {
    var r := Extend(sub, edge);
    forall i | 0 <= i < |r|
      ensures PathInto(jobs, res, edge.to, r[i])
    {
      var p := sub[i];
      assert PathInto(jobs, res, edge.from, p);
      assert r[i] == p + [edge];
      assert forall k :: 0 <= k < |p| ==> r[i][k] == p[k];
    }
  }

  /** Appending `c`'s edge to maximal chains into the job behind `c` gives
      maximal chains via `c`. */
  lemma ExtendKeepsVia(jobs: Jobs, res: string, to: string, c: Edge, sub: seq<seq<Edge>>)
    requires var next := Lookup(jobs, c.from);
      EdgesInto(next.name, next.inputs, res) != [] && forall i :: 0 <= i < |sub| ==> GatingPath(jobs, res, next, sub[i])
    ensures var next := Lookup(jobs, c.from);
      forall i :: 0 <= i < |sub| ==> PathVia(jobs, res, to, c, Extend(sub, Edge(c.resource, next.name, to, c.trigger))[i])
  {
    var next := Lookup(jobs, c.from);
    var edge := Edge(c.resource, next.name, to, c.trigger);
    var r := Extend(sub, edge);
    forall i | 0 <= i < |r|
      ensures PathVia(jobs, res, to, c, r[i])
    {
      assert r[i] == sub[i] + [edge];
      assert r[i][..|r[i]| - 1] == sub[i];
    }
  }

  /** Each path with `edge` appended. */
  function Extend(paths: seq<seq<Edge>>, edge: Edge): (r: seq<seq<Edge>>)
    ensures |r| == |paths|
    ensures forall i :: 0 <= i < |r| ==> r[i] == paths[i] + [edge]
  {
    seq(|paths|, i requires 0 <= i < |paths| => paths[i] + [edge])
  }

  // ----- Soundness: every enumerated path is a maximal chain -----

  lemma {:induction false} ClearPathsSound(jobs: Jobs, res: string, job: Job, rank: string -> nat)
    requires RankedBelow(jobs, res, rank, job)
    ensures var r := ClearPaths(jobs, res, job, rank);
      forall i :: 0 <= i < |r| ==> GatingPath(jobs, res, job, r[i])
    decreases rank(job.name), 1
  {
    var cands := EdgesInto(job.name, job.inputs, res);
    CandidatesRanked(jobs, res, rank, job);
    PathsViaSound(jobs, res, job.name, cands, rank);
    var r := ClearPaths(jobs, res, job, rank);
    assert r == PathsVia(jobs, res, job.name, cands, rank);
    forall i | 0 <= i < |r|
      ensures GatingPath(jobs, res, job, r[i])
    {
      assert ViaSome(jobs, res, job.name, cands, r[i]);
      var c :| c in cands && PathVia(jobs, res, job.name, c, r[i]);
    }
  }

  lemma {:induction false} PathsViaSound(jobs: Jobs, res: string, to: string, cands: seq<Edge>, rank: string -> nat)
    requires forall c :: c in cands ==> CandidateRanked(jobs, res, rank, to, c)
    ensures var r := PathsVia(jobs, res, to, cands, rank);
      forall i :: 0 <= i < |r| ==> ViaSome(jobs, res, to, cands, r[i])
    decreases rank(to), 0, |cands|
  {
    if |cands| > 0 {
      var first := PathsFrom(jobs, res, to, cands[0], rank);
      var rest := PathsVia(jobs, res, to, cands[1..], rank);
      PathsFromSound(jobs, res, to, cands[0], rank);
      PathsViaSound(jobs, res, to, cands[1..], rank);
      PathsViaUnfold(jobs, res, to, cands, rank);
      ViaConcat(jobs, res, to, cands, first, rest);
    }
  }

  /** The first candidate's chains followed by the rest's are chains via
      some candidate. */
  lemma ViaConcat(jobs: Jobs, res: string, to: string, cands: seq<Edge>, first: seq<seq<Edge>>, rest: seq<seq<Edge>>)
    requires |cands| > 0
    requires forall i :: 0 <= i < |first| ==> PathVia(jobs, res, to, cands[0], first[i])
    requires forall i :: 0 <= i < |rest| ==> ViaSome(jobs, res, to, cands[1..], rest[i])
    ensures forall i :: 0 <= i < |first + rest| ==> ViaSome(jobs, res, to, cands, (first + rest)[i])
  {
    var r := first + rest;
    forall i | 0 <= i < |r|
      ensures ViaSome(jobs, res, to, cands, r[i])
    {
      if i < |first| {
        assert r[i] == first[i];
        assert cands[0] in cands;
      } else {
        assert r[i] == rest[i - |first|];
        var c :| c in cands[1..] && PathVia(jobs, res, to, c, rest[i - |first|]);
        assert c in cands;
      }
    }
  }

  lemma {:induction false} PathsFromSound(jobs: Jobs, res: string, to: string, c: Edge, rank: string -> nat)
    requires CandidateRanked(jobs, res, rank, to, c)
    ensures var r := PathsFrom(jobs, res, to, c, rank);
      forall i :: 0 <= i < |r| ==> PathVia(jobs, res, to, c, r[i])
    decreases rank(to), 0, 0
  {
    var next := Lookup(jobs, c.from);
    var edge := Edge(c.resource, next.name, to, c.trigger);
    PathsFromUnfold(jobs, res, to, c, rank);
    if EdgesInto(next.name, next.inputs, res) == [] {
      assert PathVia(jobs, res, to, c, [edge]);
    } else {
      ClearPathsSound(jobs, res, next, rank);
      ExtendKeepsVia(jobs, res, to, c, ClearPaths(jobs, res, next, rank));
    }
  }

  /** The paths a passed name contributes, in terms of the passed job's own
      paths: each ends with the edge the name induces, after nothing when the
      passed job has no passed names on `res` and after one of its paths
      otherwise; and every path of the passed job is continued that way. */
  lemma PathsFromEnds(jobs: Jobs, res: string, to: string, c: Edge, rank: string -> nat)
    requires CandidateRanked(jobs, res, rank, to, c)
    ensures var next := Lookup(jobs, c.from);
      var edge := Edge(c.resource, next.name, to, c.trigger);
      var r := PathsFrom(jobs, res, to, c, rank);
      && (forall i :: 0 <= i < |r| ==>
            && |r[i]| > 0 && r[i][|r[i]| - 1] == edge
            && (if EdgesInto(next.name, next.inputs, res) == [] then |r[i]| == 1
                else r[i][..|r[i]| - 1] in ClearPaths(jobs, res, next, rank)))
      && (forall q :: q in ClearPaths(jobs, res, next, rank) ==> q + [edge] in r)
  {
    var next := Lookup(jobs, c.from);
    var edge := Edge(c.resource, next.name, to, c.trigger);
    var r := PathsFrom(jobs, res, to, c, rank);
    PathsFromUnfold(jobs, res, to, c, rank);
    if EdgesInto(next.name, next.inputs, res) != [] {
      var sub := ClearPaths(jobs, res, next, rank);
      forall i | 0 <= i < |r|
        ensures r[i][..|r[i]| - 1] in sub
      {
        assert r[i] == sub[i] + [edge];
        assert r[i][..|r[i]| - 1] == sub[i];
      }
      forall q | q in sub
        ensures q + [edge] in r
      {
        ExtendHas(sub, q, edge);
      }
    }
  }

  // ----- Completeness: every maximal chain is enumerated -----

  lemma {:induction false} ClearPathsComplete(jobs: Jobs, res: string, job: Job, rank: string -> nat, p: seq<Edge>)
    requires RankedBelow(jobs, res, rank, job)
    requires GatingPath(jobs, res, job, p)
    ensures p in ClearPaths(jobs, res, job, rank)
    decreases rank(job.name), 1
  {
    var cands := EdgesInto(job.name, job.inputs, res);
    var c :| c in cands && PathVia(jobs, res, job.name, c, p);
    CandidatesRanked(jobs, res, rank, job);
    PathsViaComplete(jobs, res, job.name, cands, rank, c, p);
  }

  lemma {:induction false} PathsViaComplete(jobs: Jobs, res: string, to: string, cands: seq<Edge>, rank: string -> nat, c: Edge, p: seq<Edge>)
    requires forall c :: c in cands ==> CandidateRanked(jobs, res, rank, to, c)
    requires c in cands && PathVia(jobs, res, to, c, p)
    ensures p in PathsVia(jobs, res, to, cands, rank)
    decreases rank(to), 0, |cands|
  {
    var first := PathsFrom(jobs, res, to, cands[0], rank);
    var rest := PathsVia(jobs, res, to, cands[1..], rank);
    assert PathsVia(jobs, res, to, cands, rank) == first + rest;
    if cands[0] == c {
      PathsFromComplete(jobs, res, to, c, rank, p);
    } else {
      assert c in cands[1..];
      PathsViaComplete(jobs, res, to, cands[1..], rank, c, p);
    }
  }

  lemma {:induction false} PathsFromComplete(jobs: Jobs, res: string, to: string, c: Edge, rank: string -> nat, p: seq<Edge>)
    requires CandidateRanked(jobs, res, rank, to, c)
    requires PathVia(jobs, res, to, c, p)
    ensures p in PathsFrom(jobs, res, to, c, rank)
    decreases rank(to), 0, 0
  {
    var next := Lookup(jobs, c.from);
    if EdgesInto(next.name, next.inputs, res) == [] {
      PathsFromLeaf(jobs, res, to, c, rank, p);
    } else {
      var front := p[..|p| - 1];
      PathViaFront(jobs, res, to, c, p);
      ClearPathsComplete(jobs, res, next, rank, front);
      PathsFromInner(jobs, res, to, c, rank, p);
    }
  }

  lemma PathsFromLeaf(jobs: Jobs, res: string, to: string, c: Edge, rank: string -> nat, p: seq<Edge>)
    requires CandidateRanked(jobs, res, rank, to, c)
    requires PathVia(jobs, res, to, c, p)
    requires EdgesInto(Lookup(jobs, c.from).name, Lookup(jobs, c.from).inputs, res) == []
    ensures p in PathsFrom(jobs, res, to, c, rank)
  {
    var next := Lookup(jobs, c.from);
    var edge := Edge(c.resource, next.name, to, c.trigger);
    PathsFromUnfold(jobs, res, to, c, rank);
    assert |p| == 1 && p[0] == edge;
    assert p == [edge];
  }

  lemma PathViaFront(jobs: Jobs, res: string, to: string, c: Edge, p: seq<Edge>)
    requires PathVia(jobs, res, to, c, p)
    requires EdgesInto(Lookup(jobs, c.from).name, Lookup(jobs, c.from).inputs, res) != []
    ensures |p| > 1 && GatingPath(jobs, res, Lookup(jobs, c.from), p[..|p| - 1])
    ensures p == p[..|p| - 1] + [Edge(c.resource, Lookup(jobs, c.from).name, to, c.trigger)]
  {
    var front := p[..|p| - 1];
    assert p == front + [p[|p| - 1]];
  }

  lemma PathsFromInner(jobs: Jobs, res: string, to: string, c: Edge, rank: string -> nat, p: seq<Edge>)
    requires CandidateRanked(jobs, res, rank, to, c)
    requires EdgesInto(Lookup(jobs, c.from).name, Lookup(jobs, c.from).inputs, res) != []
    requires |p| > 0 && p[..|p| - 1] in ClearPaths(jobs, res, Lookup(jobs, c.from), rank)
    requires p == p[..|p| - 1] + [Edge(c.resource, Lookup(jobs, c.from).name, to, c.trigger)]
    ensures p in PathsFrom(jobs, res, to, c, rank)
  {
    var next := Lookup(jobs, c.from);
    var edge := Edge(c.resource, next.name, to, c.trigger);
    PathsFromUnfold(jobs, res, to, c, rank);
    ExtendHas(ClearPaths(jobs, res, next, rank), p[..|p| - 1], edge);
  }

  /** The two shapes of `PathsFrom`, by whether the passed job has candidates. */
  lemma PathsFromUnfold(jobs: Jobs, res: string, to: string, c: Edge, rank: string -> nat)
    requires CandidateRanked(jobs, res, rank, to, c)
    ensures var next := Lookup(jobs, c.from);
      var edge := Edge(c.resource, next.name, to, c.trigger);
      && (EdgesInto(next.name, next.inputs, res) == [] ==> PathsFrom(jobs, res, to, c, rank) == [[edge]])
      && (EdgesInto(next.name, next.inputs, res) != [] ==> PathsFrom(jobs, res, to, c, rank) == Extend(ClearPaths(jobs, res, next, rank), edge))
  {
  }

  /** `PathsVia` on a non-empty candidate list: the first candidate's paths,
      then the rest's. */
  lemma PathsViaUnfold(jobs: Jobs, res: string, to: string, cands: seq<Edge>, rank: string -> nat)
    requires forall c :: c in cands ==> CandidateRanked(jobs, res, rank, to, c)
    requires |cands| > 0
    ensures PathsVia(jobs, res, to, cands, rank) == PathsFrom(jobs, res, to, cands[0], rank) + PathsVia(jobs, res, to, cands[1..], rank)
  {
  }

  /** `PathsVia` on two candidates: the first's paths, then the second's. */
  lemma PathsViaPair(jobs: Jobs, res: string, to: string, c1: Edge, c2: Edge, rank: string -> nat)
    requires CandidateRanked(jobs, res, rank, to, c1) && CandidateRanked(jobs, res, rank, to, c2)
    ensures PathsVia(jobs, res, to, [c1, c2], rank) == PathsFrom(jobs, res, to, c1, rank) + PathsFrom(jobs, res, to, c2, rank)
  {
    var cands := [c1, c2];
    assert cands[1..] == [c2] && [c2][1..] == [];
    PathsViaUnfold(jobs, res, to, cands, rank);
    PathsViaUnfold(jobs, res, to, [c2], rank);
    assert PathsFrom(jobs, res, to, c2, rank) + [] == PathsFrom(jobs, res, to, c2, rank);
  }

  lemma ExtendHas(paths: seq<seq<Edge>>, p: seq<Edge>, edge: Edge)
    requires p in paths
    ensures p + [edge] in Extend(paths, edge)
  {
    var i :| 0 <= i < |paths| && paths[i] == p;
    assert Extend(paths, edge)[i] == p + [edge];
  }

  /** `clearPaths` returns exactly the maximal chains into `job`. */
  lemma ClearPathsExact(jobs: Jobs, res: string, job: Job, rank: string -> nat)
    requires RankedBelow(jobs, res, rank, job)
    ensures forall p :: p in ClearPaths(jobs, res, job, rank) <==> GatingPath(jobs, res, job, p)
  {
    ClearPathsSound(jobs, res, job, rank);
    forall p | GatingPath(jobs, res, job, p)
      ensures p in ClearPaths(jobs, res, job, rank)
    {
      ClearPathsComplete(jobs, res, job, rank, p);
    }
  }

  /** The number of paths each candidate contributes, summed: one per path
      into the job behind its passed name, and at least one. */
  function Width(jobs: Jobs, res: string, to: string, cands: seq<Edge>, ghost rank: string -> nat): nat
    requires forall c :: c in cands ==> CandidateRanked(jobs, res, rank, to, c)
    decreases |cands|
  {
    if |cands| == 0 then 0
    else
      var c := cands[0];
      assert c in cands && CandidateRanked(jobs, res, rank, to, c);
      assert forall c :: c in cands[1..] ==> c in cands;
      var n := |ClearPaths(jobs, res, Lookup(jobs, c.from), rank)|;
      (if n == 0 then 1 else n) + Width(jobs, res, to, cands[1..], rank)
  }

  lemma {:induction false} PathCount(jobs: Jobs, res: string, to: string, cands: seq<Edge>, rank: string -> nat)
    requires forall c :: c in cands ==> CandidateRanked(jobs, res, rank, to, c)
    ensures |PathsVia(jobs, res, to, cands, rank)| == Width(jobs, res, to, cands, rank)
    decreases |cands|
  {
    if |cands| > 0 {
      PathCount(jobs, res, to, cands[1..], rank);
    }
  }

  /** A passed name with no stored job yields one path: the single edge from
      the zero job's empty name. */
  lemma UnknownPassedEndsPath(jobs: Jobs, res: string, job: Job, rank: string -> nat, c: Edge)
    requires RankedBelow(jobs, res, rank, job)
    requires c in EdgesInto(job.name, job.inputs, res) && c.from !in jobs
    ensures [Edge(res, "", job.name, c.trigger)] in ClearPaths(jobs, res, job, rank)
  {
    CandidatesRanked(jobs, res, rank, job);
    UnknownPassedInVia(jobs, res, job.name, EdgesInto(job.name, job.inputs, res), rank, c);
  }

  lemma {:induction false} UnknownPassedInVia(jobs: Jobs, res: string, to: string, cands: seq<Edge>, rank: string -> nat, c: Edge)
    requires forall c :: c in cands ==> CandidateRanked(jobs, res, rank, to, c)
    requires c in cands && c.from !in jobs
    ensures [Edge(res, "", to, c.trigger)] in PathsVia(jobs, res, to, cands, rank)
    decreases |cands|
  {
    var r := PathsVia(jobs, res, to, cands, rank);
    if cands[0] == c {
      assert ClearPaths(jobs, res, ZeroJob, rank) == [];
      assert PathsFrom(jobs, res, to, c, rank) == [[Edge(res, "", to, c.trigger)]];
      assert r[0] == [Edge(res, "", to, c.trigger)];
    } else {
      UnknownPassedInVia(jobs, res, to, cands[1..], rank, c);
      var rest := PathsVia(jobs, res, to, cands[1..], rank);
      assert r[|r| - |rest|..] == rest;
    }
  }

  /** When no stored job is named "", an edge from "" can only open a path. */
  lemma EmptyNameOpensPath(jobs: Jobs, res: string, job: Job, rank: string -> nat)
    requires RankedBelow(jobs, res, rank, job)
    requires forall k :: k in jobs ==> jobs[k].name != ""
    ensures forall p: seq<Edge>, i :: p in ClearPaths(jobs, res, job, rank) && 0 < i < |p| ==> p[i].from != ""
  {
    forall p: seq<Edge>, i | p in ClearPaths(jobs, res, job, rank) && 0 < i < |p|
      ensures p[i].from != ""
    {
      assert PathInto(jobs, res, job.name, p);
      assert p[i].from in Feeding(jobs, res);
    }
  }

  // ----- Classification -----

  /** Input `i` is the first input of `inputs` named `name`. */
  predicate FirstNamed(inputs: seq<Input>, name: string, i: int) {
    0 <= i < |inputs| && inputs[i].name == name && forall j :: 0 <= j < i ==> inputs[j].name != name
  }

  /** The scan of `triggersOnResource`: the trigger flag of the first input
      whose name is `name`, or false when there is none. */
  function TriggerOf(inputs: seq<Input>, name: string): (r: bool)
    ensures r <==> exists i :: FirstNamed(inputs, name, i) && inputs[i].trigger
  {
    if |inputs| == 0 then false
    else if inputs[0].name == name then
      assert FirstNamed(inputs, name, 0);
      inputs[0].trigger
    else
      var r := TriggerOf(inputs[1..], name);
      assert forall i :: FirstNamed(inputs[1..], name, i) <==> FirstNamed(inputs, name, i + 1);
      assert forall i :: FirstNamed(inputs, name, i) ==> i > 0 && FirstNamed(inputs[1..], name, i - 1);
      r
  }

  /** `triggersOnResource(job, resource)`; it compares input names, not the
      resources the inputs fetch. */
  function TriggersOnResource(job: Job, resource: string): (r: bool)
    ensures r <==> exists i :: FirstNamed(job.inputs, resource, i) && job.inputs[i].trigger
    ensures (forall i :: 0 <= i < |job.inputs| ==> job.inputs[i].name != resource) ==> !r
  {
    TriggerOf(job.inputs, resource)
  }

  /** The three colours a prerequisite is printed in. */
  datatype Colour = Error | Info | Warn

  /** The colour decision for one prerequisite of `resource`. */
  function Classify(job: Job, resource: string): (c: Colour)
    ensures c == Error <==> job.hasNewInputs
    ensures c == Info <==> !job.hasNewInputs && exists i :: FirstNamed(job.inputs, resource, i) && job.inputs[i].trigger
    ensures c == Warn <==> !job.hasNewInputs && !exists i :: FirstNamed(job.inputs, resource, i) && job.inputs[i].trigger
  {
    if job.hasNewInputs then Error
    else if TriggersOnResource(job, resource) then Info
    else Warn
  }
}
