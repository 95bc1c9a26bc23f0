/** The tabu search: each pass scans the adjacent swaps of the current schedule
    left to right, skips those the tabu list forbids, takes the first one of
    least resulting fitness, records the swapped pair and keeps a snapshot of
    the best schedule seen. */
module Search {
  import opened Schedules
  import opened Tasks
  import opened TabuMemory

  /** What one scan of the adjacent positions found. */
  datatype Selection = NoMove | Move(position: nat, fitness: int)

  /** `0 + 1 + ... + (n - 1)`: the number of unordered pairs of `n` jobs, the
      bound the tabu list length must stay below. */
  function PairCount(n: nat): nat
  {
    if n == 0 then 0 else PairCount(n - 1) + (n - 1)
  }

  /** The bound is the configuration check's `N * (N - 1) / 2`. */
  lemma {:induction false} PairCountFormula(n: nat)
    ensures PairCount(n) == n * (n - 1) / 2
  {
    if n > 0 {
      PairCountFormula(n - 1);
      assert n * (n - 1) == (n - 1) * (n - 2) + 2 * (n - 1);
    }
  }

  /** How a run of the search ends. */
  datatype Outcome =
    | TabuListTooLong          // the configuration check failed
    | NoAdmissibleMove(pass: nat)  // in this pass every position was tabu
    | Completed

  /** Swapping positions `j`, `j + 1` of `s` is tabu while the last `length`
      recorded pairs include the pair standing there. */
  predicate Forbidden(s: seq<nat>, j: nat, recorded: seq<Pair>, length: nat)
    requires j + 1 < |s|
  {
    Pair(s[j], s[j + 1]) in Recent(recorded, length)
  }

  /** `p` is the move a pass takes from `s`: an admissible position whose swap
      gives the least fitness `fitness`, and the lowest one of those. */
  predicate BestMove(jobs: seq<Task>, s: seq<nat>, recorded: seq<Pair>, length: nat, p: nat, fitness: int)
    requires InTable(jobs, s)
  {
    && p + 1 < |s|
    && !Forbidden(s, p, recorded, length)
    && fitness == Fitness(jobs, Swapped(s, p))
    && (forall j :: 0 <= j < |s| - 1 && !Forbidden(s, j, recorded, length) ==>
          fitness <= Fitness(jobs, Swapped(s, j)))
    && (forall j :: 0 <= j < p && !Forbidden(s, j, recorded, length) ==>
          fitness < Fitness(jobs, Swapped(s, j)))
  }

  /** `c` is the fitness of `s` with positions `k` and `k + 1` swapped. */
  ghost predicate SwapCost(jobs: seq<Task>, s: seq<nat>, k: nat, c: int)
  {
    && k + 1 < |s|
    && InTable(jobs, Swapped(s, k))
    && c == Fitness(jobs, Swapped(s, k))
  }

  /** Recording the pair standing at `p`, `p + 1` makes swapping it tabu,
      as long as the list has a slot at all: a pass cannot undo its own move
      straight away. */
  lemma {:induction false} RecordedIsForbidden(s: seq<nat>, p: nat, recorded: seq<Pair>, length: nat)
    requires p + 1 < |s|
    ensures length > 0 <==> Forbidden(s, p, recorded + [Pair(s[p], s[p + 1])], length)
  {
    var h := recorded + [Pair(s[p], s[p + 1])];
    if length > 0 {
      assert Recent(h, length)[|Recent(h, length)| - 1] == Pair(s[p], s[p + 1]);
    }
  }

  /** Every adjacent swap of `s` is tabu. */
  predicate AllForbidden(s: seq<nat>, recorded: seq<Pair>, length: nat)
  {
    forall j :: 0 <= j < |s| - 1 ==> Forbidden(s, j, recorded, length)
  }

  /** With fewer tabu slots than adjacent positions, a permutation schedule
      always has an admissible move. */
  lemma {:induction false} AdmissibleMoveExists(s: seq<nat>, n: nat, recorded: seq<Pair>, length: nat)
    requires IsPermutation(s, n) && length < n - 1
    ensures !AllForbidden(s, recorded, length)
  {
    AdmissiblePairExists(Recent(recorded, length), s);
    var j :| 0 <= j < |s| - 1 && Pair(s[j], s[j + 1]) !in Recent(recorded, length);
    assert !Forbidden(s, j, recorded, length);
  }

  /** The move a scan of the positions before `j` selects, position `k` being
      admissible when `allowed[k]` and of fitness `costs[k]`: each admissible
      position in turn, left to right, replaces the selection when there is
      none yet or its fitness is strictly below the selected one, so the first
      position of least fitness wins. */
  function Scan(costs: seq<int>, allowed: seq<bool>, j: nat): (sel: Selection)
    requires j <= |costs| && j <= |allowed|
    ensures sel.Move? ==> sel.position < j
  {
    if j == 0 then NoMove
    else
      var sel := Scan(costs, allowed, j - 1);
      var k := j - 1;
      if allowed[k] && (sel.NoMove? || costs[k] < sel.fitness) then Move(k, costs[k]) else sel
  }

  /** The scan of the positions before `j` looks at nothing after them. */
  lemma {:induction false} ScanPrefix(costs: seq<int>, allowed: seq<bool>, costs': seq<int>, allowed': seq<bool>, j: nat)
    requires j <= |costs| && j <= |allowed| && j <= |costs'| && j <= |allowed'|
    requires costs[..j] == costs'[..j] && allowed[..j] == allowed'[..j]
    ensures Scan(costs, allowed, j) == Scan(costs', allowed', j)
  {
    if j > 0 {
      assert costs[..j - 1] == costs[..j][..j - 1] && costs'[..j - 1] == costs'[..j][..j - 1];
      assert allowed[..j - 1] == allowed[..j][..j - 1] && allowed'[..j - 1] == allowed'[..j][..j - 1];
      assert costs[j - 1] == costs[..j][j - 1] && costs'[j - 1] == costs'[..j][j - 1];
      assert allowed[j - 1] == allowed[..j][j - 1] && allowed'[j - 1] == allowed'[..j][j - 1];
      ScanPrefix(costs, allowed, costs', allowed', j - 1);
    }
  }

  /** Scanning one more position, appended at the end, is one more step of
      the scan: it selects that position exactly when it is admissible and
      strictly better than the selection so far. */
  lemma {:induction false} ScanAppend(costs: seq<int>, allowed: seq<bool>, c: int, a: bool)
    requires |costs| == |allowed|
    ensures Scan(costs + [c], allowed + [a], |costs| + 1)
         == var sel := Scan(costs, allowed, |costs|);
            if a && (sel.NoMove? || c < sel.fitness) then Move(|costs|, c) else sel
  {
    var j := |costs|;
    var costs', allowed' := costs + [c], allowed + [a];
    assert costs'[..j] == costs[..j] && allowed'[..j] == allowed[..j];
    assert costs'[j] == c && allowed'[j] == a;
    ScanPrefix(costs, allowed, costs', allowed', j);
  }

  /** What a scan knows after the positions before `j`: `sel` is an
      admissible position of least fitness among them, the first such, or
      there was none and none of them was admissible. */
  ghost predicate Scanned(costs: seq<int>, allowed: seq<bool>, j: nat, sel: Selection)
    requires j <= |costs| && j <= |allowed|
  {
    && (sel.NoMove? ==> forall k :: 0 <= k < j ==> !allowed[k])
    && (sel.Move? ==>
          && sel.position < j
          && allowed[sel.position]
          && sel.fitness == costs[sel.position]
          && (forall k :: 0 <= k < j && allowed[k] ==> sel.fitness <= costs[k])
          && (forall k :: 0 <= k < sel.position && allowed[k] ==> sel.fitness < costs[k]))
  }

  /** The scan of the positions before `j` finds their best admissible one. */
  lemma {:induction false} ScanBest(costs: seq<int>, allowed: seq<bool>, j: nat)
    requires j <= |costs| && j <= |allowed|
    ensures Scanned(costs, allowed, j, Scan(costs, allowed, j))
  {
    if j > 0 {
      ScanBest(costs, allowed, j - 1);
    }
  }

  /** At most one move is the best one. */
  lemma {:induction false} BestMoveUnique(jobs: seq<Task>, s: seq<nat>, recorded: seq<Pair>, length: nat,
                       p: nat, fitness: int, q: nat, fitness': int)
    requires InTable(jobs, s)
    requires BestMove(jobs, s, recorded, length, p, fitness)
    requires BestMove(jobs, s, recorded, length, q, fitness')
    ensures p == q && fitness == fitness'
  {
  }

  /** What a scan of `s` knows after the positions before `j = |costs|`:
      which of them are admissible, and the swapped fitness of each
      admissible one. */
  ghost predicate Examined(jobs: seq<Task>, s: seq<nat>, recorded: seq<Pair>, length: nat,
                           costs: seq<int>, allowed: seq<bool>)
  {
    && |costs| == |allowed| < |s|
    && (forall k {:trigger Forbidden(s, k, recorded, length)} ::
          0 <= k < |allowed| ==> allowed[k] == !Forbidden(s, k, recorded, length))
    && (forall k {:trigger SwapCost(jobs, s, k, costs[k])} ::
          0 <= k < |costs| && allowed[k] ==> SwapCost(jobs, s, k, costs[k]))
  }

  /** Examining one more position keeps what the scan knows. */
  lemma {:induction false} ExaminedExtend(jobs: seq<Task>, s: seq<nat>, recorded: seq<Pair>, length: nat,
                                          costs: seq<int>, allowed: seq<bool>, c: int, a: bool)
    requires Examined(jobs, s, recorded, length, costs, allowed)
    requires |costs| + 1 < |s|
    requires a == !Forbidden(s, |costs|, recorded, length)
    requires a ==> SwapCost(jobs, s, |costs|, c)
    ensures Examined(jobs, s, recorded, length, costs + [c], allowed + [a])
  {
    var j := |costs|;
    var costs', allowed' := costs + [c], allowed + [a];
    forall k | 0 <= k < j + 1
      ensures allowed'[k] == !Forbidden(s, k, recorded, length)
    {
      if k < j {
        assert allowed'[k] == allowed[k];
      }
    }
    forall k | 0 <= k < j + 1 && allowed'[k]
      ensures SwapCost(jobs, s, k, costs'[k])
    {
      if k < j {
        assert costs'[k] == costs[k] && allowed'[k] == allowed[k];
      }
    }
  }

  /** A scan of the adjacent positions of `s`, told which are admissible and
      the swapped fitness of each admissible one, selects the best move of
      `s`, and selects none exactly when every position is tabu. */
  lemma {:induction false} ScanFindsBest(jobs: seq<Task>, s: seq<nat>, recorded: seq<Pair>, length: nat,
                      costs: seq<int>, allowed: seq<bool>, sel: Selection)
    requires InTable(jobs, s)
    requires Examined(jobs, s, recorded, length, costs, allowed) && |costs| == |s| - 1
    requires sel == Scan(costs, allowed, |s| - 1)
    ensures sel.NoMove? <==> AllForbidden(s, recorded, length)
    ensures sel.Move? ==> BestMove(jobs, s, recorded, length, sel.position, sel.fitness)
  {
    ScanBest(costs, allowed, |s| - 1);
    if sel.Move? {
      assert !Forbidden(s, sel.position, recorded, length);
      assert SwapCost(jobs, s, sel.position, costs[sel.position]);
      forall j | 0 <= j < |s| - 1 && !Forbidden(s, j, recorded, length)
        ensures InTable(jobs, Swapped(s, j)) && sel.fitness <= Fitness(jobs, Swapped(s, j))
      {
        assert allowed[j] && SwapCost(jobs, s, j, costs[j]);
      }
      forall j | 0 <= j < sel.position && !Forbidden(s, j, recorded, length)
        ensures InTable(jobs, Swapped(s, j)) && sel.fitness < Fitness(jobs, Swapped(s, j))
      {
        assert allowed[j] && SwapCost(jobs, s, j, costs[j]);
      }
    } else {
      forall j | 0 <= j < |s| - 1
        ensures Forbidden(s, j, recorded, length)
      {
        assert !allowed[j];
      }
    }
  }

  /** One position `j` of a scan: a lookup of the pair standing at `j`,
      `j + 1` in the tabu list and, when it is not there, the swap delta of
      the pair, entering at `time`, the completion time of the jobs before. */
  method Examine(jobs: seq<Task>, ghost s: seq<nat>, a: nat, b: nat, tabu: TabuList,
                 fitnessPrev: int, j: nat, time: int)
    returns (admissible: bool, fitness: int)
    requires tabu.Valid()
    requires InTable(jobs, s)
    requires fitnessPrev == Fitness(jobs, s)
    requires j + 1 < |s| && s[j] == a && s[j + 1] == b
    requires time == Elapsed(Resolve(jobs, s)[..j])
    ensures admissible == !Forbidden(s, j, tabu.History, tabu.slots.Length)
    ensures admissible ==> SwapCost(jobs, s, j, fitness)
  {
    var tabu_ := tabu.Contains(a, b);
    admissible := !tabu_;
    fitness := fitnessPrev;
    if admissible {
      fitness := ComputeFitness(jobs[a], jobs[b], fitnessPrev, time);
      FitnessAfterSwap(jobs, s, j, fitnessPrev, time);
    }
  }

  /** One iteration of the scan loop: examine position `j` and keep it as the
      selection when it is admissible and strictly better than the selection
      so far. */
  method ScanStep(jobs: seq<Task>, ghost s: seq<nat>, a: nat, b: nat, tabu: TabuList,
                  fitnessPrev: int, j: nat, time: int,
                  sel: Selection, ghost costs: seq<int>, ghost allowed: seq<bool>)
    returns (sel': Selection, admissible: bool, fitness: int)
    requires tabu.Valid()
    requires InTable(jobs, s)
    requires fitnessPrev == Fitness(jobs, s)
    requires j + 1 < |s| && s[j] == a && s[j + 1] == b
    requires time == Elapsed(Resolve(jobs, s)[..j])
    requires |costs| == j && Examined(jobs, s, tabu.History, tabu.slots.Length, costs, allowed)
    requires sel == Scan(costs, allowed, j)
    ensures Examined(jobs, s, tabu.History, tabu.slots.Length, costs + [fitness], allowed + [admissible])
    ensures sel' == Scan(costs + [fitness], allowed + [admissible], j + 1)
  {
    admissible, fitness := Examine(jobs, s, a, b, tabu, fitnessPrev, j, time);
    sel' := sel;
    if admissible && (sel.NoMove? || fitness < sel.fitness) {
      sel' := Move(j, fitness);
    }
    ExaminedExtend(jobs, s, tabu.History, tabu.slots.Length, costs, allowed, fitness, admissible);
    ScanAppend(costs, allowed, fitness, admissible);
  }

  /** The loop of one scan: the adjacent positions left to right with the
      completion time of the jobs before each, the tabu ones skipped, the
      swap delta of the others compared by strict `<` so that the first least
      candidate wins. Beside the selection it yields, as ghosts, what it
      examined: which positions were admissible and their swapped fitness. */
  method ScanPositions(jobs: seq<Task>, cur: array<nat>, tabu: TabuList, fitnessPrev: int)
    returns (sel: Selection, ghost costs: seq<int>, ghost allowed: seq<bool>)
    requires tabu.Valid()
    requires InTable(jobs, cur[..])
    requires fitnessPrev == Fitness(jobs, cur[..])
    requires cur.Length > 0
    ensures |costs| == cur.Length - 1
    ensures Examined(jobs, cur[..], tabu.History, tabu.slots.Length, costs, allowed)
    ensures sel == Scan(costs, allowed, |costs|)
  {
    ghost var s := cur[..];
    ghost var ts := Resolve(jobs, s);
    ghost var recorded, length := tabu.History, tabu.slots.Length;
    sel := NoMove;
    var j, time := 0, 0;
    costs, allowed := [], [];
    while j + 1 < cur.Length
      invariant j < cur.Length
      invariant time == Elapsed(ts[..j])
      invariant |costs| == j
      invariant Examined(jobs, s, recorded, length, costs, allowed)
      invariant sel == Scan(costs, allowed, j)
    {
      var admissible, fitnessTemp;
      sel, admissible, fitnessTemp := ScanStep(jobs, s, cur[j], cur[j + 1], tabu, fitnessPrev, j, time, sel, costs, allowed);
      costs, allowed := costs + [fitnessTemp], allowed + [admissible];
      assert ts[..j + 1][..j] == ts[..j];
      time := time + jobs[cur[j]].pj;
      j := j + 1;
    }
    assert cur[..] == s;
  }

  /** One scan of a pass selects the best move of the current schedule, and
      none exactly when every adjacent swap is tabu. */
  method SelectMove(jobs: seq<Task>, cur: array<nat>, tabu: TabuList, fitnessPrev: int)
    returns (sel: Selection)
    requires tabu.Valid()
    requires InTable(jobs, cur[..])
    requires fitnessPrev == Fitness(jobs, cur[..])
    ensures sel.NoMove? <==> AllForbidden(cur[..], tabu.History, tabu.slots.Length)
    ensures sel.Move? ==> BestMove(jobs, cur[..], tabu.History, tabu.slots.Length, sel.position, sel.fitness)
  {
    if cur.Length == 0 {
      return NoMove;
    }
    ghost var costs, allowed;
    sel, costs, allowed := ScanPositions(jobs, cur, tabu, fitnessPrev);
    ScanFindsBest(jobs, cur[..], tabu.History, tabu.slots.Length, costs, allowed, sel);
  }

  /** One pass from the schedule `s` under the pairs `recorded`: select the
      move, swap it in place and record the two jobs of the swap in their new
      order, which forbids swapping them straight back. When every position
      is tabu nothing is changed. */
  method Pass(jobs: seq<Task>, cur: array<nat>, tabu: TabuList, fitnessPrev: int,
              ghost s: seq<nat>, ghost recorded: seq<Pair>)
    returns (sel: Selection)
    requires tabu.Valid()
    requires cur[..] == s && tabu.History == recorded
    requires InTable(jobs, s)
    requires fitnessPrev == Fitness(jobs, s)
    modifies cur, tabu, tabu.slots
    ensures tabu.Valid()
    ensures sel.NoMove? <==> AllForbidden(s, recorded, tabu.slots.Length)
    ensures sel.Move? ==> BestMove(jobs, s, recorded, tabu.slots.Length, sel.position, sel.fitness)
    ensures sel.NoMove? ==> cur[..] == s && tabu.History == recorded
    ensures sel.Move? ==>
              && cur[..] == Swapped(s, sel.position)
              && tabu.History == recorded + [Pair(cur[sel.position], cur[sel.position + 1])]
  {
    sel := SelectMove(jobs, cur, tabu, fitnessPrev);
    if sel.Move? {
      var perm := sel.position;
      Swap(cur, perm);
      tabu.Add(cur[perm], cur[perm + 1]);
      assert tabu.History[|tabu.History| - 1] == Pair(cur[perm], cur[perm + 1]);
    }
  }

  /** Copies the whole schedule `src` over `dst`. */
  method Snapshot(src: array<nat>, dst: array<nat>)
    requires src.Length == dst.Length && src != dst
    modifies dst
    ensures dst[..] == src[..]
  {
    forall m | 0 <= m < src.Length {
      dst[m] := src[m];
    }
    assert dst[..] == src[..];
  }

  /** One iteration of the search loop without its snapshot of the best: a
      pass over the current schedule, the last of `schedules`, with the
      schedule and fitness reported for it appended to `schedules` and
      `fitnesses`, and `pass'` the pass with the best fitness so far. When
      every move is tabu nothing changes. */
  method Round(jobs: seq<Task>, cur: array<nat>, tabu: TabuList, fitnessPrev: int, pass: nat,
               schedules: seq<seq<nat>>, fitnesses: seq<int>, ghost moves: seq<nat>, ghost recorded: seq<Pair>)
    returns (sel: Selection, pass': nat,
             schedules': seq<seq<nat>>, fitnesses': seq<int>, ghost moves': seq<nat>, ghost recorded': seq<Pair>)
    requires tabu.Valid() && tabu.History == recorded
    requires Progress(jobs, tabu.slots.Length, schedules, fitnesses, moves, recorded, pass)
    requires cur.Length == |jobs|
    requires cur[..] == schedules[|schedules| - 1] && fitnessPrev == fitnesses[|fitnesses| - 1]
    modifies cur, tabu, tabu.slots
    ensures tabu.Valid() && tabu.History == recorded'
    ensures Progress(jobs, tabu.slots.Length, schedules', fitnesses', moves', recorded', pass')
    ensures cur[..] == schedules'[|schedules'| - 1]
    ensures tabu.slots.Length < cur.Length - 1 ==> sel.Move?
    ensures sel.NoMove? ==>
              && schedules' == schedules && fitnesses' == fitnesses && recorded' == recorded && pass' == pass
              && AllForbidden(cur[..], recorded, tabu.slots.Length)
    ensures sel.Move? ==> |schedules'| == |schedules| + 1 && sel.fitness == fitnesses'[|fitnesses'| - 1]
    ensures sel.Move? ==> pass' == if sel.fitness < fitnesses[pass] then |schedules| else pass
    ensures sel.Move? ==>
              && schedules'[pass'] == (if sel.fitness < fitnesses[pass] then cur[..] else schedules[pass])
              && fitnesses'[pass'] == (if sel.fitness < fitnesses[pass] then sel.fitness else fitnesses[pass])
  {
    var length := tabu.slots.Length;
    ghost var last := schedules[|schedules| - 1];
    TraceLast(jobs, length, schedules, fitnesses, moves, recorded);
    if length < cur.Length - 1 {
      TraceCanMove(jobs, length, schedules, fitnesses, moves, recorded);
    }
    sel := Pass(jobs, cur, tabu, fitnessPrev, last, recorded);
    pass', schedules', fitnesses', moves', recorded' := pass, schedules, fitnesses, moves, recorded;
    if sel.Move? {
      var next := cur[..];
      assert next == Swapped(last, sel.position);
      schedules', fitnesses', moves' := schedules + [next], fitnesses + [sel.fitness], moves + [sel.position];
      recorded' := tabu.History;
      assert recorded' == recorded + [Pair(next[sel.position], next[sel.position + 1])];
      pass' := if sel.fitness < fitnesses[pass] then |schedules| else pass;
      ProgressExtend(jobs, length, schedules, fitnesses, moves, recorded, pass, sel.position, sel.fitness,
                     next, schedules', fitnesses', moves', recorded', pass');
      assert schedules'[|schedules'| - 1] == next;
    } else {
      assert cur[..] == last;
    }
  }

  /** The fitness of `best` is the least of `fitnesses`, reached first at
      `best`: the last pass that strictly improved on all before it. */
  predicate BestSoFar(fitnesses: seq<int>, best: nat)
  {
    && best < |fitnesses|
    && (forall k :: 0 <= k < |fitnesses| ==> fitnesses[best] <= fitnesses[k])
    && (forall k :: 0 <= k < best ==> fitnesses[best] < fitnesses[k])
  }

  /** A new fitness either improves strictly on all before it and becomes the
      best, or leaves the best where it was; the best never increases. */
  lemma {:induction false} BestSoFarExtend(fitnesses: seq<int>, best: nat, fitness: int)
    requires BestSoFar(fitnesses, best)
    ensures fitness < fitnesses[best] ==> BestSoFar(fitnesses + [fitness], |fitnesses|)
    ensures fitness >= fitnesses[best] ==> BestSoFar(fitnesses + [fitness], best)
  {
  }

  /** Pass from `s` to `next`: it selected the move `p`, of fitness
      `fitness`, under the pairs `recorded` before it, swapped it and recorded
      the swapped `pair`. */
  ghost predicate Step(jobs: seq<Task>, length: nat, s: seq<nat>, recorded: seq<Pair>,
                       p: nat, fitness: int, next: seq<nat>, pair: Pair)
    requires InTable(jobs, s)
  {
    && BestMove(jobs, s, recorded, length, p, fitness)
    && next == Swapped(s, p)
    && pair == Pair(next[p], next[p + 1])
  }

  /** Pass `k + 1` of a run: a `Step` from `schedules[k]` under the pairs
      recorded before it to `schedules[k + 1]`, recording `recorded[k]`. */
  ghost predicate StepAt(jobs: seq<Task>, length: nat, schedules: seq<seq<nat>>, fitnesses: seq<int>,
                         moves: seq<nat>, recorded: seq<Pair>, k: nat)
    requires |schedules| == |fitnesses| == |moves| + 1 == |recorded| + 1 && k < |moves|
  {
    && InTable(jobs, schedules[k])
    && Step(jobs, length, schedules[k], recorded[..k], moves[k], fitnesses[k + 1], schedules[k + 1], recorded[k])
  }

  /** The rounds of a run: `schedules[k]` and `fitnesses[k]` after pass `k`
      (0 is the job table's own order with its total weighted tardiness), `moves[k]` the position pass
      `k + 1` swapped and `recorded[k]` the pair it added to the tabu list of
      `length` slots. */
  ghost predicate Trace(jobs: seq<Task>, length: nat, schedules: seq<seq<nat>>, fitnesses: seq<int>,
                        moves: seq<nat>, recorded: seq<Pair>)
  {
    && |schedules| == |fitnesses| == |moves| + 1 == |recorded| + 1
    && schedules[0] == Identity(|jobs|)
    && fitnesses[0] == TotalTardiness(jobs)
    && forall k :: 0 <= k < |moves| ==> StepAt(jobs, length, schedules, fitnesses, moves, recorded, k)
  }

  /** The last schedule of a run names jobs of the table and its fitness is
      the one reported for it. */
  lemma {:induction false} TraceLast(jobs: seq<Task>, length: nat, schedules: seq<seq<nat>>, fitnesses: seq<int>,
                  moves: seq<nat>, recorded: seq<Pair>)
    requires Trace(jobs, length, schedules, fitnesses, moves, recorded)
    ensures InTable(jobs, schedules[|moves|])
    ensures fitnesses[|moves|] == Fitness(jobs, schedules[|moves|])
  {
    if moves != [] {
      TraceStep(jobs, length, schedules, fitnesses, moves, recorded, |moves| - 1);
    } else {
      ResolveIdentity(jobs);
    }
  }

  /** Every pass of a run: pass `k + 1` took the best admissible move of
      `schedules[k]` under the pairs recorded before it, reported the true
      fitness of the swapped schedule and recorded the swapped pair. */
  lemma {:induction false} TraceStep(jobs: seq<Task>, length: nat, schedules: seq<seq<nat>>, fitnesses: seq<int>,
                  moves: seq<nat>, recorded: seq<Pair>, k: nat)
    requires Trace(jobs, length, schedules, fitnesses, moves, recorded) && k < |moves|
    ensures InTable(jobs, schedules[k])
    ensures Step(jobs, length, schedules[k], recorded[..k], moves[k], fitnesses[k + 1], schedules[k + 1], recorded[k])
    ensures BestMove(jobs, schedules[k], recorded[..k], length, moves[k], fitnesses[k + 1])
  {
    assert StepAt(jobs, length, schedules, fitnesses, moves, recorded, k);
  }

  /** Every schedule of a run is a permutation of the jobs and every reported
      fitness is the total weighted tardiness of its schedule. */
  lemma {:induction false} TraceSchedules(jobs: seq<Task>, length: nat, schedules: seq<seq<nat>>,
                                          fitnesses: seq<int>, moves: seq<nat>, recorded: seq<Pair>, k: nat)
    requires Trace(jobs, length, schedules, fitnesses, moves, recorded) && k < |schedules|
    ensures IsPermutation(schedules[k], |jobs|)
    ensures fitnesses[k] == Fitness(jobs, schedules[k])
  {
    if k == 0 {
      IdentityIsPermutation(|jobs|);
      ResolveIdentity(jobs);
    } else {
      TraceSchedules(jobs, length, schedules, fitnesses, moves, recorded, k - 1);
      TraceStep(jobs, length, schedules, fitnesses, moves, recorded, k - 1);
      SwappedIsPermutation(schedules[k - 1], |jobs|, moves[k - 1]);
    }
  }

  /** With fewer tabu slots than adjacent positions a run can always go on:
      its last schedule has a move. */
  lemma {:induction false} TraceCanMove(jobs: seq<Task>, length: nat, schedules: seq<seq<nat>>, fitnesses: seq<int>,
                     moves: seq<nat>, recorded: seq<Pair>)
    requires Trace(jobs, length, schedules, fitnesses, moves, recorded) && length < |jobs| - 1
    ensures !AllForbidden(schedules[|moves|], recorded, length)
  {
    TraceSchedules(jobs, length, schedules, fitnesses, moves, recorded, |moves|);
    AdmissibleMoveExists(schedules[|moves|], |jobs|, recorded, length);
  }

  /** A run extended by one more pass is again a run. */
  lemma {:induction false} TraceExtend(jobs: seq<Task>, length: nat, schedules: seq<seq<nat>>, fitnesses: seq<int>,
                    moves: seq<nat>, recorded: seq<Pair>, p: nat, fitness: int, next: seq<nat>)
    requires Trace(jobs, length, schedules, fitnesses, moves, recorded)
    requires InTable(jobs, schedules[|schedules| - 1])
    requires BestMove(jobs, schedules[|schedules| - 1], recorded, length, p, fitness)
    requires next == Swapped(schedules[|schedules| - 1], p)
    ensures Trace(jobs, length, schedules + [next], fitnesses + [fitness], moves + [p],
                  recorded + [Pair(next[p], next[p + 1])])
  {
    var m := |moves|;
    var pair := Pair(next[p], next[p + 1]);
    var schedules', fitnesses', moves', recorded' := schedules + [next], fitnesses + [fitness], moves + [p], recorded + [pair];
    forall k | 0 <= k < m + 1
      ensures StepAt(jobs, length, schedules', fitnesses', moves', recorded', k)
    {
      assert schedules'[k] == schedules[k] && recorded'[..k] == recorded[..k];
      if k < m {
        assert StepAt(jobs, length, schedules, fitnesses, moves, recorded, k);
        assert schedules'[k + 1] == schedules[k + 1] && fitnesses'[k + 1] == fitnesses[k + 1];
        assert moves'[k] == moves[k] && recorded'[k] == recorded[k];
      }
    }
  }

  /** The state of the search loop after the passes recorded so far: a run
      from the initial schedule, `pass` the pass that found the best. */
  ghost predicate Progress(jobs: seq<Task>, length: nat, schedules: seq<seq<nat>>, fitnesses: seq<int>,
                           moves: seq<nat>, recorded: seq<Pair>, pass: nat)
  {
    && Trace(jobs, length, schedules, fitnesses, moves, recorded)
    && BestSoFar(fitnesses, pass)
  }

  /** One more pass keeps the loop state; the best moves to the new pass
      exactly when the new fitness is strictly below the best so far. */
  lemma {:induction false} ProgressExtend(jobs: seq<Task>, length: nat, schedules: seq<seq<nat>>, fitnesses: seq<int>,
                       moves: seq<nat>, recorded: seq<Pair>, pass: nat, p: nat, fitness: int, next: seq<nat>,
                       schedules': seq<seq<nat>>, fitnesses': seq<int>, moves': seq<nat>, recorded': seq<Pair>,
                       pass': nat)
    requires Progress(jobs, length, schedules, fitnesses, moves, recorded, pass)
    requires InTable(jobs, schedules[|schedules| - 1])
    requires BestMove(jobs, schedules[|schedules| - 1], recorded, length, p, fitness)
    requires next == Swapped(schedules[|schedules| - 1], p)
    requires schedules' == schedules + [next] && fitnesses' == fitnesses + [fitness]
    requires moves' == moves + [p] && recorded' == recorded + [Pair(next[p], next[p + 1])]
    requires pass' == if fitness < fitnesses[pass] then |schedules| else pass
    ensures Progress(jobs, length, schedules', fitnesses', moves', recorded', pass')
    ensures schedules'[pass'] == if fitness < fitnesses[pass] then next else schedules[pass]
    ensures fitnesses'[pass'] == if fitness < fitnesses[pass] then fitness else fitnesses[pass]
  {
    TraceExtend(jobs, length, schedules, fitnesses, moves, recorded, p, fitness, next);
    BestSoFarExtend(fitnesses, pass, fitness);
  }

  /** The search over the jobs `jobs`, in their given order at the start, with a
      tabu list of `tabuLength` slots, for `passes` passes. It gives up at once
      when the tabu list is not shorter than `N * (N - 1) / 2`, and stops in a
      pass where every move is tabu. `schedules` and `fitnesses` are the
      schedule and fitness reported after each pass; `best`, `fitnessBest` and
      `pass` the best schedule, its fitness and the pass that found it. */
  method TabuSearch(jobs: seq<Task>, tabuLength: nat, passes: nat)
    returns (outcome: Outcome, best: array<nat>, fitnessBest: int, pass: nat,
             schedules: seq<seq<nat>>, fitnesses: seq<int>, ghost moves: seq<nat>, ghost recorded: seq<Pair>)
    ensures outcome == TabuListTooLong <==> tabuLength >= PairCount(|jobs|)
    ensures outcome != TabuListTooLong ==>
              && Progress(jobs, tabuLength, schedules, fitnesses, moves, recorded, pass)
              && |schedules| <= passes + 1
              && (outcome == Completed ==> |schedules| == passes + 1)
              && (outcome.NoAdmissibleMove? ==>
                    && outcome.pass == |schedules|
                    && AllForbidden(schedules[|schedules| - 1], recorded, tabuLength))
              && best[..] == schedules[pass]
              && fitnessBest == fitnesses[pass]
              && IsPermutation(best[..], |jobs|)
              && InTable(jobs, best[..]) && fitnessBest == Fitness(jobs, best[..])
    ensures tabuLength < |jobs| - 1 ==> !outcome.NoAdmissibleMove?
  {
    var n := |jobs|;
    PairCountFormula(n);
    if tabuLength >= n * (n - 1) / 2 {
      outcome := TabuListTooLong;
      best := new nat[0];
      fitnessBest, pass, schedules, fitnesses, moves, recorded := 0, 0, [], [], [], [];
      return;
    }

    var cur := new nat[n](k => k);
    best := new nat[n](k => k);
    var tabu := new TabuList(tabuLength);
    assert cur[..] == Identity(n) && best[..] == Identity(n);
    var fitnessPrev := ComputeInitialFitness(jobs);
    outcome, fitnessBest, pass, schedules, fitnesses, moves, recorded :=
      Passes(jobs, cur, best, tabu, fitnessPrev, passes);
    TraceSchedules(jobs, tabuLength, schedules, fitnesses, moves, recorded, pass);
  }

  /** The passes of the search, from the job table's own order on `cur` and
      `best` and an empty tabu list, the initial fitness being `fitness0`. */
  method Passes(jobs: seq<Task>, cur: array<nat>, best: array<nat>, tabu: TabuList, fitness0: int, passes: nat)
    returns (outcome: Outcome, fitnessBest: int, pass: nat,
             schedules: seq<seq<nat>>, fitnesses: seq<int>, ghost moves: seq<nat>, ghost recorded: seq<Pair>)
    requires tabu.Valid() && tabu.History == []
    requires cur != best && cur.Length == best.Length == |jobs|
    requires cur[..] == Identity(|jobs|) && best[..] == cur[..]
    requires fitness0 == TotalTardiness(jobs)
    modifies cur, best, tabu, tabu.slots
    ensures outcome != TabuListTooLong
    ensures Progress(jobs, tabu.slots.Length, schedules, fitnesses, moves, recorded, pass)
    ensures |schedules| <= passes + 1
    ensures outcome == Completed ==> |schedules| == passes + 1
    ensures outcome.NoAdmissibleMove? ==>
              && outcome.pass == |schedules|
              && AllForbidden(schedules[|schedules| - 1], recorded, tabu.slots.Length)
    ensures best[..] == schedules[pass] && fitnessBest == fitnesses[pass]
    ensures tabu.slots.Length < |jobs| - 1 ==> !outcome.NoAdmissibleMove?
  {
    var n := |jobs|;
    var tabuLength := tabu.slots.Length;
    var fitnessPrev := fitness0;
    fitnessBest, pass := fitnessPrev, 0;
    schedules, fitnesses, moves, recorded := [cur[..]], [fitnessPrev], [], [];

    var i := 1;
    while i <= passes
      invariant 1 <= i <= passes + 1 && |schedules| == i
      invariant tabu.Valid() && tabu.slots.Length == tabuLength && tabu.History == recorded
      invariant cur != best && best.Length == cur.Length
      invariant Progress(jobs, tabuLength, schedules, fitnesses, moves, recorded, pass)
      invariant cur[..] == schedules[i - 1] && fitnessPrev == fitnesses[i - 1]
      invariant best[..] == schedules[pass] && fitnessBest == fitnesses[pass]
    {
      var sel;
      ghost var best0 := best[..];
      sel, pass, schedules, fitnesses, moves, recorded :=
        Round(jobs, cur, tabu, fitnessPrev, pass, schedules, fitnesses, moves, recorded);
      if sel.NoMove? {
        outcome := NoAdmissibleMove(i);
        return;
      }
      assert best[..] == best0;
      if sel.fitness < fitnessBest {
        fitnessBest := sel.fitness;
        Snapshot(cur, best);
      }
      fitnessPrev := sel.fitness;
      i := i + 1;
    }
    outcome := Completed;
  }
}
