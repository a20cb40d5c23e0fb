/** The job-keyed resolver of deps/deps.go: per input resource of the target
    job, a depth-first walk along passed lists that records each job once. */
module JobDeps {
  import opened Seqs
  import opened Pipeline

  /** What the Go callback closes over: the jobs discovered so far, in
      discovery order, and the names already seen. */
  datatype Walk = Walk(graph: seq<Job>, seen: set<string>)

  const Start := Walk([], {})

  /** Every name a looked-up job can carry; `seen` only ever gains these. */
  function Universe(jobs: Jobs): set<string> {
    (set k | k in jobs :: jobs[k].name) + {""}
  }

  lemma LookupInUniverse(jobs: Jobs, j: string)
    ensures Lookup(jobs, j).name in Universe(jobs)
  {
    if j in jobs {
      assert jobs[j].name in (set k | k in jobs :: jobs[k].name);
    }
  }

  /** Marking the looked-up job of a new name shrinks the unseen names. */
  lemma NewNameShrinks(jobs: Jobs, j: string, seen: set<string>)
    requires Lookup(jobs, j).name !in seen
    ensures |Universe(jobs) - (seen + {Lookup(jobs, j).name})| < |Universe(jobs) - seen|
  {
    LookupInUniverse(jobs, j);
    SeenGrows(Universe(jobs), seen, Lookup(jobs, j).name);
  }

  /** The names in `w.graph` are distinct and are exactly `w.seen`. */
  predicate Consistent(w: Walk) {
    && (forall i, j :: 0 <= i < j < |w.graph| ==> w.graph[i].name != w.graph[j].name)
    && (forall i :: 0 <= i < |w.graph| ==> w.graph[i].name in w.seen)
    && (forall n :: n in w.seen ==> exists i :: 0 <= i < |w.graph| && w.graph[i].name == n)
  }

  /** `recurse(jobs, name, res, callback)`: examine every candidate of the
      job named `name`. */
  function Recurse(jobs: Jobs, name: string, res: string, w: Walk): (w': Walk)
    ensures w.seen <= w'.seen
    ensures w.graph <= w'.graph
    decreases |Universe(jobs) - w.seen|, 1
  {
    Visit(jobs, Candidates(jobs, res, name), res, w)
  }

  /** The callback on `jobs[j]` for each candidate's passed name `j`: a job
      whose name is unseen is appended and marked, and only then is `j`
      walked in turn. */
  function Visit(jobs: Jobs, cands: seq<Edge>, res: string, w: Walk): (w': Walk)
    ensures w.seen <= w'.seen
    ensures w.graph <= w'.graph
    decreases |Universe(jobs) - w.seen|, 0, |cands|
  {
    if |cands| == 0 then w
    else
      var j := cands[0].from;
      var e := Lookup(jobs, j);
      var w1 :=
        if e.name in w.seen then w
        else (
          NewNameShrinks(jobs, j, w.seen);
          Recurse(jobs, j, res, Walk(w.graph + [e], w.seen + {e.name})));
      UnseenShrinks(Universe(jobs), w.seen, w1.seen);
      Visit(jobs, cands[1..], res, w1)
  }

  /** The discovery-order list one traversal of `res` from `target` builds:
      no job name twice, and every job looked up for a passed name met on
      the way from the target. */
  function Discover(jobs: Jobs, target: string, res: string): (g: seq<Job>)
    ensures forall i, j :: 0 <= i < j < |g| ==> g[i].name != g[j].name
    ensures AllReached(jobs, res, target, g)
  {
    RecurseConsistent(jobs, res, target, Start);
    ReachedSelf(jobs, res, target);
    RecurseSound(jobs, res, target, target, Start);
    Recurse(jobs, target, res, Start).graph
  }

  /** The loop over the target's inputs: each input's resource gets a fresh
      traversal, overwriting any earlier entry. */
  function Assign(jobs: Jobs, target: string, inputs: seq<Input>, m: map<string, seq<Job>>): (r: map<string, seq<Job>>)
    ensures r.Keys == m.Keys + Resources(inputs)
    ensures forall res :: res in Resources(inputs) ==> r[res] == Discover(jobs, target, res)
    ensures forall res :: res in m && res !in Resources(inputs) ==> r[res] == m[res]
  {
    if |inputs| == 0 then m
    else
      var res := inputs[0].resource;
      assert Resources(inputs) == {res} + Resources(inputs[1..]) by {
        ResourcesCons(inputs);
      }
      Assign(jobs, target, inputs[1..], m[res := Discover(jobs, target, res)])
  }

  /** `findDependencies` from the `jobsByName` map on: every resource the
      target job takes gets the reversed discovery list of its traversal. */
  function FindDependencies(jobs: Jobs, target: string): (r: map<string, seq<Job>>)
    ensures r.Keys == Resources(Lookup(jobs, target).inputs)
    ensures forall res :: res in r ==> r[res] == Reverse(Discover(jobs, target, res))
  {
    var graphs := Assign(jobs, target, Lookup(jobs, target).inputs, map[]);
    map res | res in graphs :: Reverse(graphs[res])
  }

  // ----- Properties of one traversal -----

  lemma AcceptKeepsConsistent(w: Walk, e: Job)
    requires Consistent(w) && e.name !in w.seen
    ensures Consistent(Walk(w.graph + [e], w.seen + {e.name}))
  {
    var g := w.graph + [e];
    assert forall i :: 0 <= i < |w.graph| ==> g[i] == w.graph[i];
    forall n | n in w.seen + {e.name}
      ensures exists i :: 0 <= i < |g| && g[i].name == n
    {
      if n == e.name {
        assert g[|w.graph|].name == n;
      } else {
        var i :| 0 <= i < |w.graph| && w.graph[i].name == n;
        assert g[i].name == n;
      }
    }
  }

  lemma {:induction false} RecurseConsistent(jobs: Jobs, res: string, name: string, w: Walk)
    requires Consistent(w)
    ensures Consistent(Recurse(jobs, name, res, w))
    decreases |Universe(jobs) - w.seen|, 1
  {
    VisitConsistent(jobs, res, Candidates(jobs, res, name), w);
  }

  lemma {:induction false} VisitConsistent(jobs: Jobs, res: string, cands: seq<Edge>, w: Walk)
    requires Consistent(w)
    ensures Consistent(Visit(jobs, cands, res, w))
    decreases |Universe(jobs) - w.seen|, 0, |cands|
  {
    if |cands| > 0 {
      var j := cands[0].from;
      var e := Lookup(jobs, j);
      var w1 := w;
      if e.name !in w.seen {
        var w0 := Walk(w.graph + [e], w.seen + {e.name});
        AcceptKeepsConsistent(w, e);
        LookupInUniverse(jobs, j);
        SeenGrows(Universe(jobs), w.seen, e.name);
        RecurseConsistent(jobs, res, j, w0);
        w1 := Recurse(jobs, j, res, w0);
      }
      assert w1 == (if e.name in w.seen then w else Recurse(jobs, j, res, Walk(w.graph + [e], w.seen + {e.name})));
      UnseenShrinks(Universe(jobs), w.seen, w1.seen);
      VisitConsistent(jobs, res, cands[1..], w1);
    }
  }

  /** `e` was reached as `jobs[j]` for a passed name `j` of a job reachable
      from `target` on `res`. */
  ghost predicate ReachedJob(jobs: Jobs, res: string, target: string, e: Job) {
    exists x, j :: ReachedFrom(jobs, res, target, x) && Step(jobs, res, x, j) && e == Lookup(jobs, j)
  }

  ghost predicate AllReached(jobs: Jobs, res: string, target: string, g: seq<Job>) {
    forall i :: 0 <= i < |g| ==> ReachedJob(jobs, res, target, g[i])
  }

  lemma {:induction false} RecurseSound(jobs: Jobs, res: string, target: string, name: string, w: Walk)
    requires ReachedFrom(jobs, res, target, name)
    requires AllReached(jobs, res, target, w.graph)
    ensures AllReached(jobs, res, target, Recurse(jobs, name, res, w).graph)
    decreases |Universe(jobs) - w.seen|, 1
  {
    forall c | c in Candidates(jobs, res, name)
      ensures Step(jobs, res, name, c.from)
    {
      CandidateIsStep(jobs, res, name, c);
    }
    VisitSound(jobs, res, target, name, Candidates(jobs, res, name), w);
  }

  lemma {:induction false} VisitSound(jobs: Jobs, res: string, target: string, name: string, cands: seq<Edge>, w: Walk)
    requires ReachedFrom(jobs, res, target, name)
    requires forall c :: c in cands ==> Step(jobs, res, name, c.from)
    requires AllReached(jobs, res, target, w.graph)
    ensures AllReached(jobs, res, target, Visit(jobs, cands, res, w).graph)
    decreases |Universe(jobs) - w.seen|, 0, |cands|
  {
    if |cands| > 0 {
      var j := cands[0].from;
      var e := Lookup(jobs, j);
      var w1 := w;
      if e.name !in w.seen {
        assert Step(jobs, res, name, j);
        assert ReachedJob(jobs, res, target, e);
        ReachedByStep(jobs, res, target, name, j);
        var w0 := Walk(w.graph + [e], w.seen + {e.name});
        assert AllReached(jobs, res, target, w0.graph);
        LookupInUniverse(jobs, j);
        SeenGrows(Universe(jobs), w.seen, e.name);
        RecurseSound(jobs, res, target, j, w0);
        w1 := Recurse(jobs, j, res, w0);
      }
      assert w1 == (if e.name in w.seen then w else Recurse(jobs, j, res, Walk(w.graph + [e], w.seen + {e.name})));
      UnseenShrinks(Universe(jobs), w.seen, w1.seen);
      VisitSound(jobs, res, target, name, cands[1..], w1);
    }
  }

  /** Every candidate of the job named `x` has its looked-up name in `s`. */
  ghost predicate Covered(jobs: Jobs, res: string, x: string, s: set<string>) {
    forall c :: c in Candidates(jobs, res, x) ==> Lookup(jobs, c.from).name in s
  }

  /** With jobs stored under their own non-empty names, the name a looked-up
      job carries was walked in its own right. */
  lemma CoveredByName(jobs: Jobs, res: string, j: string, s: set<string>)
    requires WellKeyed(jobs) && "" !in jobs
    requires Covered(jobs, res, j, s)
    ensures Covered(jobs, res, Lookup(jobs, j).name, s)
  {
    if j !in jobs {
      assert Candidates(jobs, res, "") == [];
    }
  }

  lemma {:induction false} RecurseCovers(jobs: Jobs, res: string, name: string, w: Walk)
    requires WellKeyed(jobs) && "" !in jobs
    ensures var w' := Recurse(jobs, name, res, w);
      && Covered(jobs, res, name, w'.seen)
      && forall y :: y in w'.seen && y !in w.seen ==> Covered(jobs, res, y, w'.seen)
    decreases |Universe(jobs) - w.seen|, 1
  {
    VisitCovers(jobs, res, Candidates(jobs, res, name), w);
  }

  lemma {:induction false} VisitCovers(jobs: Jobs, res: string, cands: seq<Edge>, w: Walk)
    requires WellKeyed(jobs) && "" !in jobs
    ensures var w' := Visit(jobs, cands, res, w);
      && (forall c :: c in cands ==> Lookup(jobs, c.from).name in w'.seen)
      && forall y :: y in w'.seen && y !in w.seen ==> Covered(jobs, res, y, w'.seen)
    decreases |Universe(jobs) - w.seen|, 0, |cands|
  {
    if |cands| > 0 {
      var j := cands[0].from;
      var e := Lookup(jobs, j);
      var w0 := Walk(w.graph + [e], w.seen + {e.name});
      var w1 := if e.name in w.seen then w else Recurse(jobs, j, res, w0);
      if e.name !in w.seen {
        NewNameShrinks(jobs, j, w.seen);
        RecurseCovers(jobs, res, j, w0);
        CoveredByName(jobs, res, j, w1.seen);
      }
      UnseenShrinks(Universe(jobs), w.seen, w1.seen);
      VisitCovers(jobs, res, cands[1..], w1);
      var w' := Visit(jobs, cands[1..], res, w1);
      assert w' == Visit(jobs, cands, res, w);
      CoveredGrows(jobs, res, w1.seen, w'.seen);
      assert forall c :: c in cands ==> c == cands[0] || c in cands[1..];
    }
  }

  lemma CoveredGrows(jobs: Jobs, res: string, s: set<string>, s': set<string>)
    requires s <= s'
    ensures forall x :: Covered(jobs, res, x, s) ==> Covered(jobs, res, x, s')
  {
  }

  /** Every name reachable from the target is covered by the final seen set. */
  lemma {:induction false} ChainCovered(jobs: Jobs, res: string, target: string, path: seq<string>, s: set<string>)
    requires WellKeyed(jobs) && "" !in jobs
    requires Chain(jobs, res, target, path)
    requires Covered(jobs, res, target, s)
    requires forall y :: y in s ==> Covered(jobs, res, y, s)
    ensures Covered(jobs, res, path[|path| - 1], s)
    decreases |path|
  {
    if |path| > 1 {
      var front := path[..|path| - 1];
      assert forall i :: 0 <= i < |front| ==> front[i] == path[i];
      assert Chain(jobs, res, target, front);
      ChainCovered(jobs, res, target, front, s);
      var x, j := path[|path| - 2], path[|path| - 1];
      assert Step(jobs, res, x, j);
      CoveredStep(jobs, res, x, j, s);
    }
  }

  /** A covered job's passed name is covered once every seen name is. */
  lemma CoveredStep(jobs: Jobs, res: string, x: string, j: string, s: set<string>)
    requires WellKeyed(jobs) && "" !in jobs
    requires Covered(jobs, res, x, s) && Step(jobs, res, x, j)
    requires forall y :: y in s ==> Covered(jobs, res, y, s)
    ensures Covered(jobs, res, j, s)
  {
    StepIsCandidate(jobs, res, x, j);
    var c :| c in Candidates(jobs, res, x) && c.from == j;
    assert Lookup(jobs, j).name in s;
    if j in jobs {
      assert Lookup(jobs, j).name == j;
    } else {
      assert Candidates(jobs, res, j) == [];
    }
  }

  /** With jobs stored under their own non-empty names, a looked-up job is
      determined by its name. */
  lemma LookupByName(jobs: Jobs, a: string, b: string)
    requires WellKeyed(jobs) && "" !in jobs
    requires Lookup(jobs, a).name == Lookup(jobs, b).name
    ensures Lookup(jobs, a) == Lookup(jobs, b)
  {
  }

  /** Completeness: each passed name met on the way from the target has its
      job listed, given jobs stored under their own non-empty names. */
  lemma DiscoverComplete(jobs: Jobs, target: string, res: string, x: string, j: string)
    requires WellKeyed(jobs) && "" !in jobs
    requires ReachedFrom(jobs, res, target, x) && Step(jobs, res, x, j)
    ensures Lookup(jobs, j) in Discover(jobs, target, res)
  {
    var w := Recurse(jobs, target, res, Start);
    assert w.graph == Discover(jobs, target, res);
    RecurseCovers(jobs, res, target, Start);
    var path :| Chain(jobs, res, target, path) && path[|path| - 1] == x;
    ChainCovered(jobs, res, target, path, w.seen);
    StepIsCandidate(jobs, res, x, j);
    var name := Lookup(jobs, j).name;
    assert name in w.seen;
    RecurseConsistent(jobs, res, target, Start);
    var i :| 0 <= i < |w.graph| && w.graph[i].name == name;
    assert ReachedJob(jobs, res, target, w.graph[i]);
    var x', j' :| ReachedFrom(jobs, res, target, x') && Step(jobs, res, x', j') && w.graph[i] == Lookup(jobs, j');
    LookupByName(jobs, j, j');
  }

  // ----- Properties of the assembled map -----

  /** Within one resource's list no job name appears twice. */
  lemma FindDependenciesDistinct(jobs: Jobs, target: string, res: string)
    requires res in FindDependencies(jobs, target)
    ensures var g := FindDependencies(jobs, target)[res];
      forall i, j :: 0 <= i < j < |g| ==> g[i].name != g[j].name
  {
    var d := Discover(jobs, target, res);
    assert FindDependencies(jobs, target)[res] == Reverse(d);
    ReverseKeepsNamesDistinct(d);
  }

  lemma ReverseKeepsNamesDistinct(d: seq<Job>)
    requires forall i, j :: 0 <= i < j < |d| ==> d[i].name != d[j].name
    ensures var g := Reverse(d);
      forall i, j :: 0 <= i < j < |g| ==> g[i].name != g[j].name
  {
    var g := Reverse(d);
    forall i, j | 0 <= i < j < |g|
      ensures g[i].name != g[j].name
    {
      var a, b := |d| - 1 - j, |d| - 1 - i;
      assert g[i] == d[b] && g[j] == d[a] && 0 <= a < b < |d|;
    }
  }

  /** Every listed job was reached as `jobs[j]` for a passed name `j` met on
      the way from the target on that resource; with jobs stored under their
      own non-empty names, every such job is listed. */
  lemma FindDependenciesReached(jobs: Jobs, target: string, res: string, e: Job)
    requires res in FindDependencies(jobs, target)
    ensures e in FindDependencies(jobs, target)[res] ==> ReachedJob(jobs, res, target, e)
    ensures WellKeyed(jobs) && "" !in jobs && ReachedJob(jobs, res, target, e) ==> e in FindDependencies(jobs, target)[res]
  {
    var d := Discover(jobs, target, res);
    InReverse(d, e);
    if WellKeyed(jobs) && "" !in jobs && ReachedJob(jobs, res, target, e) {
      var x, j :| ReachedFrom(jobs, res, target, x) && Step(jobs, res, x, j) && e == Lookup(jobs, j);
      DiscoverComplete(jobs, target, res, x, j);
    }
  }

  /** An unknown passed name met on the way contributes the zero job, listed
      exactly once however many unknown names there are. */
  lemma UnknownPassedListedOnce(jobs: Jobs, target: string, res: string, x: string, j: string)
    requires WellKeyed(jobs) && "" !in jobs
    requires res in FindDependencies(jobs, target)
    requires ReachedFrom(jobs, res, target, x) && Step(jobs, res, x, j) && j !in jobs
    ensures var g := FindDependencies(jobs, target)[res];
      && ZeroJob in g
      && forall i, i' :: 0 <= i < |g| && 0 <= i' < |g| && g[i] == ZeroJob && g[i'] == ZeroJob ==> i == i'
  {
    assert ReachedJob(jobs, res, target, ZeroJob);
    FindDependenciesReached(jobs, target, res, ZeroJob);
    FindDependenciesDistinct(jobs, target, res);
  }

  /** An unknown target job is the zero job, with no inputs: nothing is resolved. */
  lemma UnknownTargetEmpty(jobs: Jobs, target: string)
    requires target !in jobs
    ensures FindDependencies(jobs, target) == map[]
  {
  }
}
