/** The edge-keyed resolver of demo/deps.go: the same depth-first walk as the
    job-keyed one, but it records gating edges and deduplicates whole edges. */
module EdgeDeps {
  import opened Seqs
  import opened Pipeline

  /** One traversal's state: the edges accepted so far, in discovery order,
      and the edges seen. */
  datatype Walk = Walk(edges: seq<Edge>, seen: set<Edge>)

  const Start := Walk([], {})

  /** Every candidate edge of any stored job; `seen` only ever gains these. */
  function Universe(jobs: Jobs, res: string): set<Edge> {
    set k, i | k in jobs && 0 <= i < |Candidates(jobs, res, k)| :: Candidates(jobs, res, k)[i]
  }

  lemma CandidatesInUniverse(jobs: Jobs, res: string, name: string)
    ensures forall c :: c in Candidates(jobs, res, name) ==> c in Universe(jobs, res)
  {
    if name !in jobs {
      assert Candidates(jobs, res, name) == [];
    }
  }

  /** The accepted edges are distinct and are exactly the seen ones. */
  predicate Consistent(w: Walk) {
    Distinct(w.edges) && w.seen == set i | 0 <= i < |w.edges| :: w.edges[i]
  }

  /** `recurse(jobs, name, res, callback)` of demo/deps.go. */
  function Recurse(jobs: Jobs, name: string, res: string, w: Walk): (w': Walk)
    ensures w.seen <= w'.seen
    ensures w.edges <= w'.edges
    decreases |Universe(jobs, res) - w.seen|, 1
  {
    CandidatesInUniverse(jobs, res, name);
    Visit(jobs, Candidates(jobs, res, name), res, w)
  }

  /** The callback on each candidate edge: an unseen edge is appended and
      marked, and only then is its `from` job walked in turn. */
  function Visit(jobs: Jobs, cands: seq<Edge>, res: string, w: Walk): (w': Walk)
    requires forall c :: c in cands ==> c in Universe(jobs, res)
    ensures w.seen <= w'.seen
    ensures w.edges <= w'.edges
    decreases |Universe(jobs, res) - w.seen|, 0, |cands|
  {
    if |cands| == 0 then w
    else
      var c := cands[0];
      var w1 :=
        if c in w.seen then w
        else (
          assert |Universe(jobs, res) - (w.seen + {c})| < |Universe(jobs, res) - w.seen| by {
            SeenGrows(Universe(jobs, res), w.seen, c);
          }
          Recurse(jobs, c.from, res, Walk(w.edges + [c], w.seen + {c})));
      assert |Universe(jobs, res) - w1.seen| <= |Universe(jobs, res) - w.seen| by {
        UnseenShrinks(Universe(jobs, res), w.seen, w1.seen);
      }
      Visit(jobs, cands[1..], res, w1)
  }

  /** The edges one traversal of `res` from `target` appends, in order: each
      at most once, and exactly the gating edges into jobs reachable from
      the target. */
  function Discover(jobs: Jobs, target: string, res: string): (es: seq<Edge>)
    ensures Distinct(es)
    ensures forall e :: e in es <==> Gating(jobs, res, target, e)
    ensures forall e :: e in es ==> e.resource == res
  {
    TraversalExact(jobs, target, res);
    Recurse(jobs, target, res, Start).edges
  }

  function Get(m: map<string, seq<Edge>>, res: string): seq<Edge> {
    if res in m then m[res] else []
  }

  /** The callback's map update: each accepted edge is appended to the entry
      of its own resource, replayed for the edges of one traversal in the
      order they were accepted. */
  function AppendEach(m: map<string, seq<Edge>>, es: seq<Edge>): (r: map<string, seq<Edge>>)
    ensures forall k :: k in r <==> k in m || EdgesOn(es, k) != []
    ensures forall k :: Get(r, k) == Get(m, k) + EdgesOn(es, k)
    decreases |es|
  {
    if |es| == 0 then m
    else
      var e := es[0];
      var m' := m[e.resource := Get(m, e.resource) + [e]];
      var r := AppendEach(m', es[1..]);
      AppendedOnce(m, es, m', r);
      r
  }

  /** The edges of `es` on resource `res`, in order. */
  function EdgesOn(es: seq<Edge>, res: string): seq<Edge>
    decreases |es|
  {
    if |es| == 0 then []
    else (if es[0].resource == res then [es[0]] else []) + EdgesOn(es[1..], res)
  }

  /** The first append, followed by the appends of the rest. */
  lemma AppendedOnce(m: map<string, seq<Edge>>, es: seq<Edge>, m': map<string, seq<Edge>>, r: map<string, seq<Edge>>)
    requires |es| > 0 && m' == m[es[0].resource := Get(m, es[0].resource) + [es[0]]]
    requires forall k :: k in r <==> k in m' || EdgesOn(es[1..], k) != []
    requires forall k :: Get(r, k) == Get(m', k) + EdgesOn(es[1..], k)
    ensures forall k :: k in r <==> k in m || EdgesOn(es, k) != []
    ensures forall k :: Get(r, k) == Get(m, k) + EdgesOn(es, k)
  {
    forall k
      ensures (k in r <==> k in m || EdgesOn(es, k) != []) && Get(r, k) == Get(m, k) + EdgesOn(es, k)
    {
      AppendedOnceAt(m, es, m', k);
    }
  }

  lemma AppendedOnceAt(m: map<string, seq<Edge>>, es: seq<Edge>, m': map<string, seq<Edge>>, k: string)
    requires |es| > 0 && m' == m[es[0].resource := Get(m, es[0].resource) + [es[0]]]
    ensures (k in m' || EdgesOn(es[1..], k) != []) <==> (k in m || EdgesOn(es, k) != [])
    ensures Get(m', k) + EdgesOn(es[1..], k) == Get(m, k) + EdgesOn(es, k)
  {
    var e := es[0];
    var here := if e.resource == k then [e] else [];
    EdgesOnCons(es, k);
    AppendedEntry(m, e, m', k);
    Shift(Get(m, k), Get(m', k), here, EdgesOn(es[1..], k), EdgesOn(es, k), k in m, k in m');
  }

  lemma EdgesOnCons(es: seq<Edge>, k: string)
    requires |es| > 0
    ensures es[0].resource == k ==> EdgesOn(es, k) == [es[0]] + EdgesOn(es[1..], k)
    ensures es[0].resource != k ==> EdgesOn(es, k) == EdgesOn(es[1..], k)
  {
  }

  /** One append touches only the entry of the edge's own resource. */
  lemma AppendedEntry(m: map<string, seq<Edge>>, e: Edge, m': map<string, seq<Edge>>, k: string)
    requires m' == m[e.resource := Get(m, e.resource) + [e]]
    ensures e.resource == k ==> k in m' && Get(m', k) == Get(m, k) + [e]
    ensures e.resource != k ==> (k in m' <==> k in m) && Get(m', k) == Get(m, k)
  {
  }

  /** Moving `here` from the front of `full` onto the end of the entry. */
  lemma Shift(g0: seq<Edge>, g1: seq<Edge>, here: seq<Edge>, rest: seq<Edge>, full: seq<Edge>, b0: bool, b1: bool)
    requires full == here + rest && g1 == g0 + here && (b1 <==> b0 || here != [])
    ensures (b1 || rest != []) <==> (b0 || full != [])
    ensures g1 + rest == g0 + full
  {
    assert |full| == |here| + |rest|;
  }

  /** When every edge is on `res`, the edges on `k` are all of them or none. */
  lemma {:induction false} EdgesOnOne(es: seq<Edge>, res: string, k: string)
    requires forall e :: e in es ==> e.resource == res
    ensures EdgesOn(es, k) == if k == res then es else []
    decreases |es|
  {
    if |es| > 0 {
      assert es[0] in es;
      assert forall e :: e in es[1..] ==> e in es;
      EdgesOnOne(es[1..], res, k);
      assert es == [es[0]] + es[1..];
    }
  }

  /** Number of inputs on resource `res`. */
  function Count(inputs: seq<Input>, res: string): (n: nat)
    ensures n > 0 <==> exists i :: 0 <= i < |inputs| && inputs[i].resource == res
  {
    if |inputs| == 0 then 0
    else
      assert forall i :: 0 < i < |inputs| ==> inputs[i] == inputs[1..][i - 1];
      (if inputs[0].resource == res then 1 else 0) + Count(inputs[1..], res)
  }

  /** The loop over the target's inputs: each input gets a traversal with a
      fresh seen set, and its edges are added to the shared map. */
  function Collect(jobs: Jobs, target: string, inputs: seq<Input>, m: map<string, seq<Edge>>): (r: map<string, seq<Edge>>)
    ensures forall res :: res in r <==> res in m || (res in Resources(inputs) && Discover(jobs, target, res) != [])
    ensures forall res :: res in r ==> r[res] == Get(m, res) + Repeat(Discover(jobs, target, res), Count(inputs, res))
    decreases |inputs|
  {
    if |inputs| == 0 then
      assert Resources(inputs) == {};
      assert forall res :: res in m ==> m[res] == Get(m, res) + Repeat(Discover(jobs, target, res), 0);
      m
    else
      var m1 := AppendEach(m, Discover(jobs, target, inputs[0].resource));
      var r := Collect(jobs, target, inputs[1..], m1);
      CollectedOnce(jobs, target, inputs, m, m1, r);
      r
  }

  /** The first input's traversal, followed by the traversals of the rest. */
  lemma CollectedOnce(jobs: Jobs, target: string, inputs: seq<Input>, m: map<string, seq<Edge>>,
                      m1: map<string, seq<Edge>>, r: map<string, seq<Edge>>)
    requires |inputs| > 0 && m1 == AppendEach(m, Discover(jobs, target, inputs[0].resource))
    requires forall res :: res in r <==> res in m1 || (res in Resources(inputs[1..]) && Discover(jobs, target, res) != [])
    requires forall res :: res in r ==> r[res] == Get(m1, res) + Repeat(Discover(jobs, target, res), Count(inputs[1..], res))
    ensures forall res :: res in r <==> res in m || (res in Resources(inputs) && Discover(jobs, target, res) != [])
    ensures forall res :: res in r ==> r[res] == Get(m, res) + Repeat(Discover(jobs, target, res), Count(inputs, res))
  {
    var res0 := inputs[0].resource;
    var d0 := Discover(jobs, target, res0);
    ResourcesCons(inputs);
    forall res
      ensures res in m1 <==> res in m || (res == res0 && d0 != [])
      ensures Get(m1, res) == Get(m, res) + (if res == res0 then d0 else [])
    {
      EdgesOnOne(d0, res0, res);
    }
    forall res | res in r
      ensures r[res] == Get(m, res) + Repeat(Discover(jobs, target, res), Count(inputs, res))
    {
      var first := res == res0;
      assert Count(inputs, res) == (if first then 1 else 0) + Count(inputs[1..], res);
      CollectedOnceAt(Get(m, res), Get(m1, res), Discover(jobs, target, res), first,
                      Count(inputs[1..], res), Count(inputs, res), r[res]);
    }
  }

  /** One more copy of `d` in front of `k` copies. */
  lemma CollectedOnceAt(g: seq<Edge>, g1: seq<Edge>, d: seq<Edge>, first: bool, k: nat, n: nat, v: seq<Edge>)
    requires g1 == g + (if first then d else [])
    requires n == (if first then 1 else 0) + k
    requires v == g1 + Repeat(d, k)
    ensures v == g + Repeat(d, n)
  {
    if first {
      assert Repeat(d, n) == d + Repeat(d, k);
      assert g + d + Repeat(d, k) == g + (d + Repeat(d, k));
    } else {
      assert g + [] == g;
    }
  }

  /** `findDependencies` of demo/deps.go from the `jobsByName` map on: a
      resource of the target gets a key exactly when its traversal accepts an
      edge, and its list is the reversed traversal, once per target input on
      that resource. */
  function FindDependencies(jobs: Jobs, target: string): (r: map<string, seq<Edge>>)
    ensures var inputs := Lookup(jobs, target).inputs;
      forall res :: res in r <==> res in Resources(inputs) && Discover(jobs, target, res) != []
    ensures var inputs := Lookup(jobs, target).inputs;
      forall res :: res in r ==> r[res] == Repeat(Reverse(Discover(jobs, target, res)), Count(inputs, res))
  {
    var inputs := Lookup(jobs, target).inputs;
    var graphs := Collect(jobs, target, inputs, map[]);
    assert forall res :: res in graphs ==> Reverse(graphs[res]) == Repeat(Reverse(Discover(jobs, target, res)), Count(inputs, res)) by {
      forall res | res in graphs
        ensures Reverse(graphs[res]) == Repeat(Reverse(Discover(jobs, target, res)), Count(inputs, res))
      {
        assert graphs[res] == Repeat(Discover(jobs, target, res), Count(inputs, res));
        ReverseRepeat(Discover(jobs, target, res), Count(inputs, res));
      }
    }
    map res | res in graphs :: Reverse(graphs[res])
  }

  // ----- Properties of one traversal -----

  lemma AcceptKeepsConsistent(w: Walk, c: Edge)
    requires Consistent(w) && c !in w.seen
    ensures Consistent(Walk(w.edges + [c], w.seen + {c}))
  {
    var g := w.edges + [c];
    assert forall i :: 0 <= i < |w.edges| ==> g[i] == w.edges[i];
    assert g[|w.edges|] == c;
    assert (set i | 0 <= i < |g| :: g[i]) == w.seen + {c};
  }

  lemma {:induction false} RecurseConsistent(jobs: Jobs, res: string, name: string, w: Walk)
    requires Consistent(w)
    ensures Consistent(Recurse(jobs, name, res, w))
    decreases |Universe(jobs, res) - w.seen|, 1
  {
    CandidatesInUniverse(jobs, res, name);
    VisitConsistent(jobs, res, Candidates(jobs, res, name), w);
  }

  lemma {:induction false} VisitConsistent(jobs: Jobs, res: string, cands: seq<Edge>, w: Walk)
    requires forall c :: c in cands ==> c in Universe(jobs, res)
    requires Consistent(w)
    ensures Consistent(Visit(jobs, cands, res, w))
    decreases |Universe(jobs, res) - w.seen|, 0, |cands|
  {
    if |cands| > 0 {
      var c := cands[0];
      var w1 := w;
      if c !in w.seen {
        var w0 := Walk(w.edges + [c], w.seen + {c});
        AcceptKeepsConsistent(w, c);
        SeenGrows(Universe(jobs, res), w.seen, c);
        RecurseConsistent(jobs, res, c.from, w0);
        w1 := Recurse(jobs, c.from, res, w0);
      }
      assert w1 == (if c in w.seen then w else Recurse(jobs, c.from, res, Walk(w.edges + [c], w.seen + {c})));
      UnseenShrinks(Universe(jobs, res), w.seen, w1.seen);
      VisitConsistent(jobs, res, cands[1..], w1);
    }
  }

  /** `e` is an edge into a job reachable from `target`, induced by one of
      that job's inputs on `res`. */
  ghost predicate Gating(jobs: Jobs, res: string, target: string, e: Edge) {
    ReachedFrom(jobs, res, target, e.to) && e in Candidates(jobs, res, e.to)
  }

  ghost predicate AllGating(jobs: Jobs, res: string, target: string, es: seq<Edge>) {
    forall i :: 0 <= i < |es| ==> Gating(jobs, res, target, es[i])
  }

  lemma {:induction false} RecurseSound(jobs: Jobs, res: string, target: string, name: string, w: Walk)
    requires ReachedFrom(jobs, res, target, name)
    requires AllGating(jobs, res, target, w.edges)
    ensures AllGating(jobs, res, target, Recurse(jobs, name, res, w).edges)
    decreases |Universe(jobs, res) - w.seen|, 1
  {
    CandidatesInUniverse(jobs, res, name);
    VisitSound(jobs, res, target, name, Candidates(jobs, res, name), w);
  }

  lemma {:induction false} VisitSound(jobs: Jobs, res: string, target: string, name: string, cands: seq<Edge>, w: Walk)
    requires forall c :: c in cands ==> c in Universe(jobs, res)
    requires ReachedFrom(jobs, res, target, name)
    requires forall c :: c in cands ==> c in Candidates(jobs, res, name)
    requires AllGating(jobs, res, target, w.edges)
    ensures AllGating(jobs, res, target, Visit(jobs, cands, res, w).edges)
    decreases |Universe(jobs, res) - w.seen|, 0, |cands|
  {
    if |cands| > 0 {
      var c := cands[0];
      var w1 := w;
      if c !in w.seen {
        CandidateIsStep(jobs, res, name, c);
        ReachedByStep(jobs, res, target, name, c.from);
        var w0 := Walk(w.edges + [c], w.seen + {c});
        assert AllGating(jobs, res, target, w0.edges);
        SeenGrows(Universe(jobs, res), w.seen, c);
        RecurseSound(jobs, res, target, c.from, w0);
        w1 := Recurse(jobs, c.from, res, w0);
      }
      assert w1 == (if c in w.seen then w else Recurse(jobs, c.from, res, Walk(w.edges + [c], w.seen + {c})));
      UnseenShrinks(Universe(jobs, res), w.seen, w1.seen);
      VisitSound(jobs, res, target, name, cands[1..], w1);
    }
  }

  /** Every candidate of the job named `x` is in `s`. */
  ghost predicate Covered(jobs: Jobs, res: string, x: string, s: set<Edge>) {
    forall c :: c in Candidates(jobs, res, x) ==> c in s
  }

  lemma {:induction false} RecurseCovers(jobs: Jobs, res: string, name: string, w: Walk)
    ensures var w' := Recurse(jobs, name, res, w);
      && Covered(jobs, res, name, w'.seen)
      && forall e :: e in w'.seen && e !in w.seen ==> Covered(jobs, res, e.from, w'.seen)
    decreases |Universe(jobs, res) - w.seen|, 1
  {
    CandidatesInUniverse(jobs, res, name);
    VisitCovers(jobs, res, Candidates(jobs, res, name), w);
  }

  lemma {:induction false} VisitCovers(jobs: Jobs, res: string, cands: seq<Edge>, w: Walk)
    requires forall c :: c in cands ==> c in Universe(jobs, res)
    ensures var w' := Visit(jobs, cands, res, w);
      && (forall c :: c in cands ==> c in w'.seen)
      && forall e :: e in w'.seen && e !in w.seen ==> Covered(jobs, res, e.from, w'.seen)
    decreases |Universe(jobs, res) - w.seen|, 0, |cands|
  {
    if |cands| > 0 {
      var c := cands[0];
      var w1 := if c in w.seen then w else Recurse(jobs, c.from, res, Walk(w.edges + [c], w.seen + {c}));
      if c !in w.seen {
        SeenGrows(Universe(jobs, res), w.seen, c);
        RecurseCovers(jobs, res, c.from, Walk(w.edges + [c], w.seen + {c}));
      }
      UnseenShrinks(Universe(jobs, res), w.seen, w1.seen);
      VisitCovers(jobs, res, cands[1..], w1);
      var w' := Visit(jobs, cands[1..], res, w1);
      assert w' == Visit(jobs, cands, res, w);
      CoveredGrows(jobs, res, w1.seen, w'.seen);
      assert c in w1.seen && w1.seen <= w'.seen;
      forall c' | c' in cands
        ensures c' in w'.seen
      {
        if c' != c {
          assert c' in cands[1..];
        }
      }
      forall e | e in w'.seen && e !in w.seen
        ensures Covered(jobs, res, e.from, w'.seen)
      {
        if e in w1.seen {
          assert Covered(jobs, res, e.from, w1.seen);
        }
      }
    }
  }

  lemma CoveredGrows(jobs: Jobs, res: string, s: set<Edge>, s': set<Edge>)
    requires s <= s'
    ensures forall x :: Covered(jobs, res, x, s) ==> Covered(jobs, res, x, s')
  {
  }

  lemma {:induction false} ChainCovered(jobs: Jobs, res: string, target: string, path: seq<string>, s: set<Edge>)
    requires Chain(jobs, res, target, path)
    requires Covered(jobs, res, target, s)
    requires forall e :: e in s ==> Covered(jobs, res, e.from, s)
    ensures Covered(jobs, res, path[|path| - 1], s)
    decreases |path|
  {
    if |path| > 1 {
      var front := path[..|path| - 1];
      assert forall i :: 0 <= i < |front| ==> front[i] == path[i];
      assert Chain(jobs, res, target, front);
      ChainCovered(jobs, res, target, front, s);
      var x, j := path[|path| - 2], path[|path| - 1];
      assert Step(jobs, res, x, j);
      CoveredStep(jobs, res, x, j, s);
    }
  }

  /** A covered job's passed name is covered once every seen edge's source is. */
  lemma CoveredStep(jobs: Jobs, res: string, x: string, j: string, s: set<Edge>)
    requires Covered(jobs, res, x, s) && Step(jobs, res, x, j)
    requires forall e :: e in s ==> Covered(jobs, res, e.from, s)
    ensures Covered(jobs, res, j, s)
  {
    StepIsCandidate(jobs, res, x, j);
    var c :| c in Candidates(jobs, res, x) && c.from == j;
    assert c in s;
  }

  /** One traversal lists each edge once, and exactly the candidate edges of
      the jobs reachable from the target on that resource. */
  lemma TraversalExact(jobs: Jobs, target: string, res: string)
    ensures var es := Recurse(jobs, target, res, Start).edges;
      && Distinct(es)
      && (forall e :: e in es <==> Gating(jobs, res, target, e))
      && (forall e :: e in es ==> e.resource == res)
  {
    var w := Recurse(jobs, target, res, Start);
    RecurseConsistent(jobs, res, target, Start);
    ReachedSelf(jobs, res, target);
    RecurseSound(jobs, res, target, target, Start);
    RecurseCovers(jobs, res, target, Start);
    forall e
      ensures e in w.edges <==> Gating(jobs, res, target, e)
    {
      if Gating(jobs, res, target, e) {
        var path :| Chain(jobs, res, target, path) && path[|path| - 1] == e.to;
        ChainCovered(jobs, res, target, path, w.seen);
        assert e in w.seen;
      }
    }
    forall e | e in w.edges
      ensures e.resource == res
    {
      CandidateIsStep(jobs, res, e.to, e);
    }
  }

  // ----- Properties of the assembled map -----

  /** With a single target input on a resource, its list is exactly the
      reversed traversal: distinct edges, each a gating edge reachable from the
      target. */
  lemma FindDependenciesSingleInput(jobs: Jobs, target: string, res: string)
    requires Count(Lookup(jobs, target).inputs, res) == 1
    requires res in FindDependencies(jobs, target)
    ensures var g := FindDependencies(jobs, target)[res];
      && g == Reverse(Discover(jobs, target, res))
      && Distinct(g)
      && forall e :: e in g <==> Gating(jobs, res, target, e)
  {
    var d := Discover(jobs, target, res);
    assert Repeat(Reverse(d), 1) == Reverse(d);
    ReverseKeepsDistinct(d);
    forall e
      ensures e in Reverse(d) <==> Gating(jobs, res, target, e)
    {
      InReverse(d, e);
    }
  }

  /** An unknown target job has no inputs, so nothing is resolved. */
  lemma UnknownTargetEmpty(jobs: Jobs, target: string)
    requires target !in jobs
    ensures FindDependencies(jobs, target) == map[]
  {
    assert Resources(Lookup(jobs, target).inputs) == {};
  }
}
