# Tabu search for single-machine total weighted tardiness

This project models the tabu search of `Tabu.java` and `tabu.c`. Both files are
the same program: a schedule of N jobs, each with a processing time Pj, a due
date Dj and a weight Wj, is improved by adjacent swaps for a fixed number of
passes. The objective is the total weighted tardiness, the sum over jobs of
`Wj * max(0, Cj - Dj)`, where Cj is the job's completion time when the machine
starts at 0.

Each pass works as follows:
- It scans the N - 1 adjacent positions left to right.
- It skips every position whose ordered pair of jobs is in the tabu list.
- It computes the fitness of each remaining swap in constant time from the
  current fitness and the completion time of the jobs before the pair.
- By strict `<`, it takes the first position of least resulting fitness.
- It swaps that position in place and records the swapped pair, in its new
  order, in a cyclic tabu list of L slots.
- When the pass strictly improves on the best fitness so far, it copies the
  schedule into the best snapshot.

At start-up the search refuses a tabu list with `L >= N * (N - 1) / 2`.

The Dafny modules follow the program's parts:

- `Schedules`: schedules as sequences or arrays of indices into the job table,
  and the adjacent swap.
- `Tasks`: the objective (`Penalty`, `Elapsed`, `TotalTardiness`, `Fitness`).
  It holds the full-fitness scan `ComputeInitialFitness` and the swap delta
  `ComputeFitness`, with the lemma that the delta is exact (`SwapDelta`,
  `FitnessAfterSwap`).
- `TabuMemory`: the tabu list as a class over a fixed `array<Slot>` with a
  cursor, abstracted by the ghost history of added pairs. It proves that the
  slots hold exactly the last `min(|history|, L)` pairs.
- `Search`: the scan loop, the pass and the search loop, proved against a
  declarative specification.
  - `BestMove` is the move a pass must take: admissible, of least fitness,
    and the first such.
  - `AllForbidden` says that every move is tabu.
  - `Trace` and `Progress` describe a whole run.
- `AliasedSnapshot`: the best schedule as the Java version reports it (see
  "## Findings").

Jobs are identified by their index in the table. Both sources compare job
references, so index equality is the same test. An empty slot, `null` in the
source, is `Slot.Empty` and matches no pair.

Where the design description and the code differ, the model follows the code:
- **Aspiration.** The description asks for an aspiration criterion: a tabu
  move may be taken when every move is tabu, or when it beats the best ever.
  The code has no such rule. The model has none either; a pass in which every
  move is tabu ends the run with the outcome `NoAdmissibleMove`.
  `AdmissibleMoveExists` proves that this cannot happen when `L < N - 1`.
- **Pair order.** The description records the swapped pair in its pre-swap
  order. The code records it after the swap, as `(B, A)`, and so does the
  model. `RecordedIsForbidden` proves this is what makes swapping straight
  back tabu.
- **Configuration error.** The description names a configuration error. The
  code exits, or in C fails to compile. The model returns the outcome
  `TabuListTooLong`. For N < 2 the bound is 0, so every L is refused, as in
  the code.

## Model

| member | source | states |
|---|---|---|
| Schedules.Swap | tabu.c:74-79 | the array afterwards is the old one with positions i and i + 1 exchanged and nothing else changed |
| Schedules.SwappedPermutes | Tabu.java:82-87 | an adjacent swap keeps the multiset of jobs |
| Schedules.SwappedTwice | Tabu.java:82-87 | swapping the same neighbours twice restores the schedule |
| Schedules.IdentityIsPermutation | tabu.c:145 | the initial order lists every job exactly once |
| Schedules.SwappedIsPermutation | tabu.c:169 | an adjacent swap keeps the schedule a permutation of the job indices |
| Tasks.ComputeInitialFitness | tabu.c:105-117 | the running scan returns the total weighted tardiness of the job table in its own order |
| Tasks.ComputeFitness | tabu.c:119-139 | the result is the previous fitness minus the pair's cost in order a, b plus its cost in order b, a, both starting at `time` |
| Tasks.ElapsedSwapped | tabu.c:154-155 | an adjacent swap leaves the total processing time unchanged, so the later jobs complete as before |
| Tasks.SwapDeltaAtEnd | tabu.c:119-139 | delta exactness when the pair is the last two jobs |
| Tasks.SwapDelta | tabu.c:119-139 | the total tardiness after swapping j, j + 1 differs from the total before by exactly the pair's change of cost, entering at the completion time of the jobs before j |
| Tasks.ResolveSwapped | tabu.c:169 | swapping two index slots swaps the jobs they name |
| Tasks.FitnessAfterSwap | tabu.c:161 | the swap delta of the pair at j, computed from the schedule's fitness and the completion time before j, is the full fitness of the swapped schedule |
| Tasks.ResolveIdentity | tabu.c:145-147 | the identity schedule resolves to the job table, whose tardiness is the initial fitness |
| TabuMemory.CursorAdvance | tabu.c:98-99 | d <= n steps of the wrapping cursor move it d slots on, wrapping at most once |
| TabuMemory.RingWindow | tabu.c:92-103 | each of the last n pairs added sits in the slot the cursor had when it was added |
| TabuMemory.RingUnused | tabu.c:44-46 | slots the cursor has not reached yet are still empty |
| TabuMemory.RingFull | tabu.c:92-103 | every full slot holds one of the last n pairs added |
| TabuMemory.RingInRecent | tabu.c:92-103 | a pair found in a slot is one of the last n added |
| TabuMemory.RecentInRing | tabu.c:92-103 | each of the last n pairs added is found in a slot |
| TabuMemory.RingHoldsRecent | tabu.c:81-103 | a pair is in some slot if and only if it is among the last n added |
| TabuMemory.HoldsLastPairs | Tabu.java:89-102 | the list holds a pair exactly when it occurs among the last min(added, n) additions |
| TabuMemory.TabuList.constructor | tabu.c:44-46 | a list of L slots, all empty, cursor on slot 0, nothing added |
| TabuMemory.TabuList.SlotsHoldRecent | tabu.c:81-90 | the slots hold the ordered pair (a, b) if and only if it is among the last L pairs added |
| TabuMemory.TabuList.Contains | Tabu.java:89-94 | the linear search answers whether some slot holds (a, b), which is exactly whether (a, b) is among the last L pairs added |
| TabuMemory.TabuList.Add | tabu.c:92-103 | the pair goes to the slot under the cursor, the cursor moves one on and wraps from the last slot to the first, the history grows by the pair and the invariant is kept; with L = 0 nothing is stored |
| TabuMemory.Pigeonhole | tabu.c:151-169 | distinct values all found in a sequence are at most as many as its length |
| TabuMemory.AdmissiblePairExists | tabu.c:151-169 | the adjacent pairs of a schedule of distinct jobs are distinct, so fewer stored pairs cannot cover every position |
| Search.PairCountFormula | tabu.c:18-20 | the number of unordered job pairs is N * (N - 1) / 2, the bound of the configuration check |
| Search.RecordedIsForbidden | tabu.c:169-170 | recording the swapped pair makes swapping it straight back tabu, exactly when the list has a slot |
| Search.AdmissibleMoveExists | tabu.c:151-169 | with L < N - 1 a permutation schedule always has an admissible move, so the selected position is always set |
| Search.ScanPrefix | tabu.c:154-167 | the selection after the first j positions depends on nothing after them |
| Search.ScanAppend | tabu.c:163-166 | one more position replaces the selection exactly when it is admissible and strictly better |
| Search.ScanBest | tabu.c:154-167 | the scan selects an admissible position of least fitness and the first such, or none when none is admissible |
| Search.BestMoveUnique | tabu.c:163-166 | the strict comparison makes the selected move unique |
| Search.ExaminedExtend | tabu.c:154-161 | examining one more position keeps the scan's record of admissibility and swapped fitness |
| Search.ScanFindsBest | Tabu.java:148-158 | the scan's selection is the best move of the schedule, and it selects none exactly when every move is tabu |
| Search.Examine | tabu.c:158-161 | a position is admissible exactly when its pair is not among the last L recorded, and then its delta is the swapped schedule's full fitness |
| Search.ScanStep | tabu.c:156-166 | one loop iteration keeps what the scan knows and advances the selection by one position |
| Search.ScanPositions | tabu.c:151-167 | the loop with its running completion time examines every adjacent position and yields the scan of them |
| Search.SelectMove | Tabu.java:148-158 | the move selected is the best admissible move (least fitness, first such), and none is selected exactly when every move is tabu |
| Search.Pass | tabu.c:151-171 | one pass selects the best move, swaps it in place and records the swapped pair; when every move is tabu nothing changes |
| Search.Snapshot | tabu.c:175 | the best array becomes a copy of the current one |
| Search.Round | tabu.c:150-179 | one loop iteration extends the run by the pass, and the best pass moves to it exactly when its fitness is strictly below the best so far |
| Search.BestSoFarExtend | tabu.c:173-177 | a new fitness either improves strictly and becomes the best or leaves the best unchanged, which never increases |
| Search.TraceLast | tabu.c:171 | the fitness carried into the next pass is the true fitness of the current schedule |
| Search.TraceStep | tabu.c:150-171 | every pass of a run took the best admissible move under the pairs recorded before it |
| Search.TraceSchedules | tabu.c:145-177 | every schedule of a run is a permutation of the jobs and every reported fitness is its total weighted tardiness |
| Search.TraceCanMove | tabu.c:151-169 | with L < N - 1 the run's current schedule always has an admissible move |
| Search.TraceExtend | tabu.c:150-180 | a run extended by one more pass is again a run |
| Search.ProgressExtend | tabu.c:171-177 | one more pass keeps the loop state, and the best becomes the new pass exactly on strict improvement |
| Search.Passes | tabu.c:150-180 | the loop performs the passes, stops early only when every move is tabu, and keeps the best array equal to the best schedule of the run |
| Search.TabuSearch | tabu.c:141-185 | refuses exactly the tabu lengths >= N * (N - 1) / 2; otherwise runs at most `passes` passes (all of them unless every move becomes tabu, which L < N - 1 rules out), and returns a best schedule that is a permutation whose true fitness is the best fitness of the run |
| AliasedSnapshot.AliasedBestAfterImprovement | Tabu.java:164-168 | once a pass has improved, the Java best snapshot is a permutation whose fitness is the reported best fitness |
| AliasedSnapshot.AliasedBestMismatch | Tabu.java:142 | on three unit jobs with one tabu slot, after one non-improving pass the Java best schedule has fitness 1 while the reported best fitness is 0 |

## Left out

- Printing: `printout`, `iter_printout`, `Task.toString` and the `log10` column widths. The schedules and fitnesses the search prints after every pass are the returned sequences `schedules` and `fitnesses`.
- The hard-coded 15-job instance and the constants `TABU_LENGTH`, `PASSES` and `NUM_CYCLES` become the parameters `jobs`, `tabuLength` and `passes` of `Search.TabuSearch`.
- Process exit and C's compile-time `#error` are modelled as the outcome `TabuListTooLong`.
- Search.Pass: when every move is tabu, the source has no defined behaviour. Java calls `swap` with `perm == -1` and throws; C dereferences an uninitialised `perm`. The model stops the run with `NoAdmissibleMove`. This cannot happen with `L < N - 1`, and the configured instance (L = 11, N = 15) meets that bound.
- TabuMemory.TabuList.Add: with L = 0 the model follows C, where adding does nothing. Java allocates an array of length 0 and throws on the first add.
- Search.Passes: the model keeps separate arrays for the current and best schedules, as C does. In Java they are one array until the first improvement (see "## Findings").
- Tasks.ComputeFitness: 32-bit `int` arithmetic is not modelled; integers are unbounded, so overflow is not captured. The same holds for Tasks.ComputeInitialFitness and the running completion time in Search.ScanPositions.
- Search.SelectMove: the source starts each pass from the sentinel `INT_MAX` (`Integer.MAX_VALUE`), so it would never take a candidate whose fitness is exactly that value. The model uses `Selection.NoMove` as its starting value. It takes the first admissible candidate whatever its fitness.
- The job `id` field takes part in no computation; it is kept in `Task` only as data.

## Findings

| source | as written | input that shows it | evidently intended | confidence | as-written member | corrected member |
|---|---|---|---|---|---|---|
| Tabu.java:142 | `tasks_best` is the same array as `tasks_prev_it` until the first strict improvement clones it, so when no pass improves, the schedule printed as best is the last current schedule, next to the initial fitness | jobs (Pj, Dj, Wj) = (1, 1, 1), (1, 2, 1), (1, 3, 1), tabu length 1, one pass: the printed best schedule is 2, 1, 3 with fitness 1, but the printed fitness is 0 | the best schedule is the one of best fitness, a separate copy from the start as in tabu.c:143-145 | high; not executed | AliasedSnapshot.AliasedBestMismatch | Search.TabuSearch |
