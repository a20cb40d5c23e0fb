/** The build correlator of demo/main.go: one status cell per expected edge. */
module Cells {
  import opened Pipeline

  /** One cell of the rendered table: the upstream job and its latest status. */
  datatype Cell = Cell(job: string, status: string)

  const Missing := "missing"

  /** The placeholder a cell starts from: a zero build whose status is "missing". */
  const MissingBuild := Build("", Missing, 0)

  /** No build of `job` has ended, that is, has a positive end time. */
  predicate NoneEnded(builds: seq<Build>, job: string) {
    forall i :: 0 <= i < |builds| && builds[i].jobName == job ==> builds[i].endTime <= 0
  }

  /** The inner loop of `findLatestAndPendingJobs`: the build of `job` with
      the greatest end time, the first such on ties, or the placeholder when
      no build of `job` has ended. */
  method LatestBuild(builds: seq<Build>, job: string) returns (latest: Build)
    ensures NoneEnded(builds, job) ==> latest == MissingBuild
    ensures !NoneEnded(builds, job) ==> exists k :: FirstLatest(builds, job, k) && latest == builds[k]
  {
    latest := MissingBuild;
    ghost var k := -1;
    for n := 0 to |builds|
      invariant k == -1 <==> NoneEnded(builds[..n], job)
      invariant k == -1 ==> latest == MissingBuild
      invariant k != -1 ==> FirstLatestBefore(builds, job, n, k) && latest == builds[k] && latest.endTime > 0
    {
      if builds[n].jobName != job {
        continue;
      }
      if builds[n].endTime > latest.endTime {
        latest := builds[n];
        k := n;
      }
    }
    assert builds[..|builds|] == builds;
  }

  /** `findLatestAndPendingJobs(expectedJobs, actualBuilds)`. */
  method FindLatestAndPendingJobs(expected: seq<Edge>, builds: seq<Build>) returns (cells: seq<Cell>)
    ensures |cells| == |expected|
    ensures forall i :: 0 <= i < |cells| ==> cells[i].job == expected[i].from
    ensures forall i :: 0 <= i < |cells| && NoneEnded(builds, expected[i].from) ==> cells[i].status == Missing
    ensures forall i :: 0 <= i < |cells| && !NoneEnded(builds, expected[i].from) ==>
      exists k :: FirstLatest(builds, expected[i].from, k) && cells[i].status == builds[k].status
    ensures forall i, j :: 0 <= i < |cells| && 0 <= j < |cells| && expected[i].from == expected[j].from ==> cells[i] == cells[j]
  {
    cells := [];
    for n := 0 to |expected|
      invariant |cells| == n
      invariant forall i :: 0 <= i < n ==> cells[i].job == expected[i].from
      invariant forall i :: 0 <= i < n && NoneEnded(builds, expected[i].from) ==> cells[i].status == Missing
      invariant forall i :: 0 <= i < n && !NoneEnded(builds, expected[i].from) ==>
        exists k :: FirstLatest(builds, expected[i].from, k) && cells[i].status == builds[k].status
    {
      var latest := LatestBuild(builds, expected[n].from);
      cells := cells + [Cell(expected[n].from, latest.status)];
    }
    forall i, j | 0 <= i < |cells| && 0 <= j < |cells| && expected[i].from == expected[j].from
      ensures cells[i] == cells[j]
    {
      if !NoneEnded(builds, expected[i].from) {
        var ki :| FirstLatest(builds, expected[i].from, ki) && cells[i].status == builds[ki].status;
        var kj :| FirstLatest(builds, expected[j].from, kj) && cells[j].status == builds[kj].status;
        FirstLatestUnique(builds, expected[i].from, ki, kj);
      }
    }
  }

  /** `builds` with `b` inserted at position `i`. */
  function Insert(builds: seq<Build>, i: int, b: Build): seq<Build>
    requires 0 <= i <= |builds|
  {
    builds[..i] + [b] + builds[i..]
  }

  /** Where position `j` of a sequence moves once something is inserted at `i`. */
  function Shift(j: int, i: int): int {
    if j < i then j else j + 1
  }

  lemma InsertedAt(builds: seq<Build>, i: int, b: Build)
    requires 0 <= i <= |builds|
    ensures var s := Insert(builds, i, b);
      && |s| == |builds| + 1
      && s[i] == b
      && (forall j :: 0 <= j < |builds| ==> s[Shift(j, i)] == builds[j])
  {
  }

  lemma NoneEndedInserted(builds: seq<Build>, i: int, b: Build, job: string)
    requires 0 <= i <= |builds| && b.jobName != job
    ensures NoneEnded(Insert(builds, i, b), job) <==> NoneEnded(builds, job)
  {
    var s := Insert(builds, i, b);
    InsertedAt(builds, i, b);
    if NoneEnded(builds, job) {
      forall j | 0 <= j < |s| && s[j].jobName == job
        ensures s[j].endTime <= 0
      {
        var j' := if j < i then j else j - 1;
        assert s[j] == builds[j'];
      }
    }
  }

  lemma FirstLatestInsertedKeeps(builds: seq<Build>, i: int, b: Build, job: string, k: int)
    requires 0 <= i <= |builds| && b.jobName != job
    requires FirstLatest(builds, job, k)
    ensures FirstLatest(Insert(builds, i, b), job, Shift(k, i))
  {
    var s := Insert(builds, i, b);
    InsertedAt(builds, i, b);
    var k' := Shift(k, i);
    assert s[k'] == builds[k];
    forall j | 0 <= j < |s| && s[j].jobName == job
      ensures s[j].endTime <= s[k'].endTime && (j < k' ==> s[j].endTime < s[k'].endTime)
    {
      assert j != i;
      var j' := if j < i then j else j - 1;
      assert 0 <= j' < |builds| && Shift(j', i) == j;
      assert s[j] == builds[j'];
      assert j < k' ==> j' < k;
    }
  }

  lemma FirstLatestInsertedReflects(builds: seq<Build>, i: int, b: Build, job: string, k: int)
    requires 0 <= i <= |builds| && b.jobName != job && 0 <= k < |builds|
    requires FirstLatest(Insert(builds, i, b), job, Shift(k, i))
    ensures FirstLatest(builds, job, k)
  {
    var s := Insert(builds, i, b);
    InsertedAt(builds, i, b);
    var k' := Shift(k, i);
    assert s[k'] == builds[k];
    forall j | 0 <= j < |builds| && builds[j].jobName == job
      ensures builds[j].endTime <= builds[k].endTime && (j < k ==> builds[j].endTime < builds[k].endTime)
    {
      assert s[Shift(j, i)] == builds[j];
    }
  }

  /** A build of another job, inserted anywhere, changes neither whether
      `job` has an ended build nor which of its builds is the first latest. */
  lemma OtherJobIgnored(builds: seq<Build>, i: int, b: Build, job: string)
    requires 0 <= i <= |builds| && b.jobName != job
    ensures NoneEnded(Insert(builds, i, b), job) <==> NoneEnded(builds, job)
    ensures forall k :: 0 <= k < |builds| ==> (FirstLatest(Insert(builds, i, b), job, Shift(k, i)) <==> FirstLatest(builds, job, k))
  {
    NoneEndedInserted(builds, i, b, job);
    forall k | 0 <= k < |builds|
      ensures FirstLatest(Insert(builds, i, b), job, Shift(k, i)) <==> FirstLatest(builds, job, k)
    {
      if FirstLatest(builds, job, k) {
        FirstLatestInsertedKeeps(builds, i, b, job, k);
      }
      if FirstLatest(Insert(builds, i, b), job, Shift(k, i)) {
        FirstLatestInsertedReflects(builds, i, b, job, k);
      }
    }
  }
}
