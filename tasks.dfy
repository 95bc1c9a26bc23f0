/** Jobs and the objective of the search: total weighted tardiness, computed
    from scratch and, for one adjacent swap, in constant time. */
module Tasks {
  import opened Schedules

  /** A job: processing time Pj, due date Dj, weight Wj and identifier. */
  datatype Task = Task(pj: int, dj: int, wj: int, id: int)

  /** Weighted tardiness of job `t` when it completes at time `completion`:
      `wj * max(0, completion - dj)`. */
  function Penalty(t: Task, completion: int): int
  {
    if completion - t.dj > 0 then (completion - t.dj) * t.wj else 0
  }

  /** Sum of the processing times of `ts`, the completion time of its last job
      when the machine starts at time 0. */
  function Elapsed(ts: seq<Task>): int
  {
    if ts == [] then 0 else Elapsed(ts[..|ts| - 1]) + ts[|ts| - 1].pj
  }

  /** Total weighted tardiness of processing `ts` in order from time 0: the sum
      over positions k of `Penalty(ts[k], Cj)` where `Cj = Elapsed(ts[..k + 1])`
      is the inclusive prefix sum of processing times. */
  function TotalTardiness(ts: seq<Task>): int
  {
    if ts == [] then 0
    else TotalTardiness(ts[..|ts| - 1]) + Penalty(ts[|ts| - 1], Elapsed(ts))
  }

  /** Weighted tardiness of `a` followed directly by `b`, the machine becoming
      free for `a` at time `start`. */
  function PairCost(a: Task, b: Task, start: int): int
  {
    Penalty(a, start + a.pj) + Penalty(b, start + a.pj + b.pj)
  }

  /** Every index of `s` names a job of the table. */
  predicate InTable(jobs: seq<Task>, s: seq<nat>)
  {
    forall k :: 0 <= k < |s| ==> s[k] < |jobs|
  }

  /** The jobs of schedule `s` in processing order. */
  function Resolve(jobs: seq<Task>, s: seq<nat>): (r: seq<Task>)
    requires InTable(jobs, s)
    ensures |r| == |s|
    ensures forall k :: 0 <= k < |s| ==> r[k] == jobs[s[k]]
  {
    seq(|s|, k requires 0 <= k < |s| => jobs[s[k]])
  }

  /** The fitness of schedule `s`: its total weighted tardiness. */
  function Fitness(jobs: seq<Task>, s: seq<nat>): int
    requires InTable(jobs, s)
  {
    TotalTardiness(Resolve(jobs, s))
  }

  /** Full fitness: one left-to-right scan of the job table with a running
      completion time. */
  method ComputeInitialFitness(jobs: seq<Task>) returns (fitness: int)
    ensures fitness == TotalTardiness(jobs)
  {
    var time := 0;
    fitness := 0;
    var i := 0;
    while i < |jobs|
      invariant 0 <= i <= |jobs|
      invariant time == Elapsed(jobs[..i])
      invariant fitness == TotalTardiness(jobs[..i])
    {
      var task := jobs[i];
      assert jobs[..i + 1][..i] == jobs[..i];
      time := time + task.pj;
      var tj := time - task.dj;
      if tj > 0 {
        fitness := fitness + tj * task.wj;
      }
      i := i + 1;
    }
    assert jobs[..i] == jobs;
  }

  /** Swap-delta fitness: given the fitness `fitnessPrev` of a schedule in which
      `a` is directly followed by `b` and the machine becomes free for `a` at
      `time`, the fitness after exchanging the two. It takes away the pair's
      cost in the order a, b and adds its cost in the order b, a, both entering
      at `time`; nothing else of the schedule is looked at. */
  method ComputeFitness(a: Task, b: Task, fitnessPrev: int, time: int) returns (fitness: int)
    ensures fitness == fitnessPrev - PairCost(a, b, time) + PairCost(b, a, time)
  {
    var t := time;
    fitness := fitnessPrev;
    var tj;

    t := t + a.pj;
    tj := t - a.dj;
    if tj > 0 {
      fitness := fitness - tj * a.wj;
    }

    t := t + b.pj;
    tj := t - b.dj;
    if tj > 0 {
      fitness := fitness - tj * b.wj;
    }

    t := t - a.pj;
    tj := t - b.dj;
    if tj > 0 {
      fitness := fitness + tj * b.wj;
    }

    t := t + a.pj;
    tj := t - a.dj;
    if tj > 0 {
      fitness := fitness + tj * a.wj;
    }
  }

  /** An adjacent swap leaves the total processing time unchanged: every job
      after the pair completes when it did before. */
  lemma {:induction false} ElapsedSwapped(ts: seq<Task>, j: nat)
    requires j + 1 < |ts|
    ensures Elapsed(Swapped(ts, j)) == Elapsed(ts)
  {
    var n := |ts|;
    var r := Swapped(ts, j);
    if n == j + 2 {
      var p := ts[..j];
      assert ts[..n - 1][..j] == p;
      assert r[..n - 1][..j] == p;
      assert r[..n - 1][..n - 2] == p;
      assert ts[..n - 1][..n - 2] == p;
    } else {
      ElapsedSwapped(ts[..n - 1], j);
      assert r[..n - 1] == Swapped(ts[..n - 1], j);
    }
  }

  /** The swap delta for the last two jobs: both complete within the pair,
      which enters when the jobs before it are done. */
  lemma {:induction false} SwapDeltaAtEnd(ts: seq<Task>, j: nat)
    requires j + 2 == |ts|
    ensures TotalTardiness(Swapped(ts, j))
         == TotalTardiness(ts) - PairCost(ts[j], ts[j + 1], Elapsed(ts[..j]))
                               + PairCost(ts[j + 1], ts[j], Elapsed(ts[..j]))
  {
    var n := |ts|;
    var r := Swapped(ts, j);
    var p := ts[..j];
    var a, b := ts[j], ts[j + 1];
    assert ts[..n - 1][..j] == p;
    assert r[..n - 1][..j] == p;
    assert r[..n - 1][..n - 2] == p;
    assert ts[..n - 1][..n - 2] == p;
    assert Elapsed(ts[..n - 1]) == Elapsed(p) + a.pj;
    assert Elapsed(r[..n - 1]) == Elapsed(p) + b.pj;
    assert TotalTardiness(ts[..n - 1]) == TotalTardiness(p) + Penalty(a, Elapsed(p) + a.pj);
    assert TotalTardiness(r[..n - 1]) == TotalTardiness(p) + Penalty(b, Elapsed(p) + b.pj);
    assert TotalTardiness(ts) == TotalTardiness(p) + PairCost(a, b, Elapsed(p));
    assert TotalTardiness(r) == TotalTardiness(p) + PairCost(b, a, Elapsed(p));
  }

  /** Delta correctness: the fitness after swapping positions `j` and `j + 1`
      differs from the fitness before by exactly the change in the pair's cost,
      with the pair entering at the completion time of the jobs before `j`. */
  lemma {:induction false} SwapDelta(ts: seq<Task>, j: nat)
    requires j + 1 < |ts|
    ensures TotalTardiness(Swapped(ts, j))
         == TotalTardiness(ts) - PairCost(ts[j], ts[j + 1], Elapsed(ts[..j]))
                               + PairCost(ts[j + 1], ts[j], Elapsed(ts[..j]))
  {
    var n := |ts|;
    if n == j + 2 {
      SwapDeltaAtEnd(ts, j);
    } else {
      var r := Swapped(ts, j);
      var q := ts[..n - 1];
      SwapDelta(q, j);
      ElapsedSwapped(ts, j);
      assert r[..n - 1] == Swapped(q, j);
      assert q[..j] == ts[..j] && q[j] == ts[j] && q[j + 1] == ts[j + 1];
      assert TotalTardiness(ts) == TotalTardiness(q) + Penalty(ts[n - 1], Elapsed(ts));
      assert TotalTardiness(r) == TotalTardiness(Swapped(q, j)) + Penalty(ts[n - 1], Elapsed(ts));
    }
  }

  /** Resolving the jobs of a swapped schedule swaps the resolved jobs. */
  lemma {:induction false} ResolveSwapped(jobs: seq<Task>, s: seq<nat>, j: nat)
    requires InTable(jobs, s) && j + 1 < |s|
    ensures InTable(jobs, Swapped(s, j))
    ensures Resolve(jobs, Swapped(s, j)) == Swapped(Resolve(jobs, s), j)
  {
  }

  /** Delta correctness on schedules: when `fitnessPrev` is the fitness of `s`
      and `time` the completion time of the jobs before position `j`, the swap
      delta of the pair at `j`, `j + 1` is the full fitness of `s` with that
      pair swapped. */
  lemma {:induction false} FitnessAfterSwap(jobs: seq<Task>, s: seq<nat>, j: nat, fitnessPrev: int, time: int)
    requires InTable(jobs, s) && j + 1 < |s|
    requires fitnessPrev == Fitness(jobs, s)
    requires time == Elapsed(Resolve(jobs, s)[..j])
    ensures InTable(jobs, Swapped(s, j))
    ensures Fitness(jobs, Swapped(s, j))
         == fitnessPrev - PairCost(jobs[s[j]], jobs[s[j + 1]], time)
                        + PairCost(jobs[s[j + 1]], jobs[s[j]], time)
  {
    ResolveSwapped(jobs, s, j);
    SwapDelta(Resolve(jobs, s), j);
  }

  /** The job table in its own order is the identity schedule. */
  lemma {:induction false} ResolveIdentity(jobs: seq<Task>)
    ensures InTable(jobs, Identity(|jobs|))
    ensures Resolve(jobs, Identity(|jobs|)) == jobs
  {
  }
}
