/** The best schedule as the Java version of the search reports it. There the
    working schedule and the best one start out as the same array, and only the
    first strict improvement replaces the best one by a copy of its own. */
module AliasedSnapshot {
  import opened Schedules
  import opened Tasks
  import opened TabuMemory
  import opened Search

  /** The schedule reported as best after the run `schedules` whose best pass
      is `pass`: while no pass improved (`pass == 0`) the best array still is
      the working array and shows the last schedule; after that it is the
      copy taken at `pass`. */
  function AliasedBest(schedules: seq<seq<nat>>, pass: nat): seq<nat>
    requires pass < |schedules|
  {
    if pass == 0 then schedules[|schedules| - 1] else schedules[pass]
  }

  /** Once some pass improved, the reported best schedule is the best one of
      the run and has the reported best fitness. */
  lemma {:induction false} AliasedBestAfterImprovement(jobs: seq<Task>, length: nat, schedules: seq<seq<nat>>,
                                                       fitnesses: seq<int>, moves: seq<nat>, recorded: seq<Pair>,
                                                       pass: nat)
    requires Progress(jobs, length, schedules, fitnesses, moves, recorded, pass) && pass > 0
    ensures IsPermutation(AliasedBest(schedules, pass), |jobs|)
    ensures InTable(jobs, AliasedBest(schedules, pass))
    ensures Fitness(jobs, AliasedBest(schedules, pass)) == fitnesses[pass]
  {
    TraceSchedules(jobs, length, schedules, fitnesses, moves, recorded, pass);
  }

  /** Total weighted tardiness of three jobs in the order `x`, `y`, `z`. */
  lemma {:induction false} TardinessOfThree(x: Task, y: Task, z: Task)
    ensures TotalTardiness([x, y, z])
         == Penalty(x, x.pj) + Penalty(y, x.pj + y.pj) + Penalty(z, x.pj + y.pj + z.pj)
  {
    var xy := [x, y, z][..2];
    assert xy == [x, y];
    assert xy[..1] == [x];
    assert [x][..0] == [];
    assert Elapsed([x]) == x.pj && TotalTardiness([x]) == Penalty(x, x.pj);
    assert Elapsed(xy) == x.pj + y.pj;
    assert TotalTardiness(xy) == Penalty(x, x.pj) + Penalty(y, x.pj + y.pj);
    assert Elapsed([x, y, z]) == x.pj + y.pj + z.pj;
  }

  /** The jobs of the counterexample: unit processing times, unit weights and
      due dates 1, 2 and 3, so that their own order has no tardiness. */
  function UnitJobs(): (jobs: seq<Task>)
    ensures |jobs| == 3 && TotalTardiness(jobs) == 0
  {
    TardinessOfThree(Task(1, 1, 1, 1), Task(1, 2, 1, 2), Task(1, 3, 1, 3));
    [Task(1, 1, 1, 1), Task(1, 2, 1, 2), Task(1, 3, 1, 3)]
  }

  /** Both adjacent swaps of the unit jobs' own order make one job one unit
      late. */
  lemma {:induction false} UnitJobsSwaps()
    ensures InTable(UnitJobs(), [1, 0, 2]) && Fitness(UnitJobs(), [1, 0, 2]) == 1
    ensures InTable(UnitJobs(), [0, 2, 1]) && Fitness(UnitJobs(), [0, 2, 1]) == 1
  {
    var jobs := UnitJobs();
    assert Resolve(jobs, [1, 0, 2]) == [jobs[1], jobs[0], jobs[2]];
    assert Resolve(jobs, [0, 2, 1]) == [jobs[0], jobs[2], jobs[1]];
    TardinessOfThree(jobs[1], jobs[0], jobs[2]);
    TardinessOfThree(jobs[0], jobs[2], jobs[1]);
  }

  /** With nothing recorded and one tabu slot, the first pass over the unit
      jobs swaps the first two: both swaps give fitness 1 and the first wins. */
  lemma {:induction false} UnitJobsFirstPass()
    ensures InTable(UnitJobs(), [0, 1, 2])
    ensures BestMove(UnitJobs(), [0, 1, 2], [], 1, 0, 1)
  {
    var jobs, s := UnitJobs(), [0, 1, 2];
    assert InTable(jobs, s) by {
      assert |jobs| == 3;
    }
    UnitJobsSwaps();
    forall j | 0 <= j < 2
      ensures InTable(jobs, Swapped(s, j)) && Fitness(jobs, Swapped(s, j)) == 1
    {
      if j == 0 {
        assert Swapped(s, j) == [1, 0, 2];
      } else {
        assert Swapped(s, j) == [0, 2, 1];
      }
    }
    var none: seq<Pair> := [];
    assert Recent(none, 1) == [];
    assert !Forbidden(s, 0, [], 1) && !Forbidden(s, 1, [], 1);
  }

  /** Three unit jobs already in an order with no tardiness and a tabu list of
      one slot: the first pass must swap, makes the schedule worse and so does
      not improve, and the schedule then reported as best has fitness 1 while
      the best fitness reported beside it is 0. */
  lemma {:induction false} AliasedBestMismatch()
    ensures var schedules, fitnesses := [[0, 1, 2], [1, 0, 2]], [0, 1];
            && 1 < PairCount(|UnitJobs()|)
            && Progress(UnitJobs(), 1, schedules, fitnesses, [0], [Pair(1, 0)], 0)
            && InTable(UnitJobs(), AliasedBest(schedules, 0))
            && Fitness(UnitJobs(), AliasedBest(schedules, 0)) == 1
            && fitnesses[0] == 0
  {
    var jobs := UnitJobs();
    var s, t := [0, 1, 2], [1, 0, 2];
    assert PairCount(3) == 3;
    assert Identity(3) == s;
    UnitJobsFirstPass();
    assert Swapped(s, 0) == t;
    assert [Pair(1, 0)][..0] == [];
    assert StepAt(jobs, 1, [s, t], [0, 1], [0], [Pair(1, 0)], 0);
  }
}
