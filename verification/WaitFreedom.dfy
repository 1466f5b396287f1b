/**
 Each publication is over after a fixed number of moves of its own goroutine, whatever the machine
 and all other goroutines do meanwhile.
 */
module WaitFreedom {
  import opened Wrappers
  import opened Assignments
  import opened SyncMachine
  import opened SyncSteps
  import opened SyncRuns
  import opened Driver

  // ---------------------------------------------------------------------------
  // Failing swaps
  // ---------------------------------------------------------------------------

  lemma {:induction false} AscendingIsAtLeast(s: seq<nat>, r: nat)
    requires Ascending(s) && r < |s|
    ensures s[r] >= r
  {
    if r > 0 {
      AscendingIsAtLeast(s, r - 1);
      assert s[r - 1] < s[r];
    }
  }

  /** A swap of p that fails has seen an older pointer than p, or none. */
  lemma FailureSawOlder(cfg: Config, w: World, w': World, tid: nat, p: nat, failures: nat)
    requires Inv(cfg, w) && tid in w.tasks && Works(w, w', tid) && FailsToSwap(w, w', Work(tid), p)
    requires Paid(w, w.tasks[tid], failures)
    ensures failures <= p
  {
    hide Inv, IsRun, IsOlder, Published, FailsToSwap;
    var task := w.tasks[tid];
    assert task.Swapping? && task.p == p && w'.tasks[tid].Loading? by { SwapFailed(w, w', tid, p); }
    TaskOf(cfg, w, tid);
    SeenIsOld(w, |Published(w)|, task);
    OlderIsLower(cfg, w, p, task.seen);
    if failures > 0 {
      var r :| failures - 1 <= r < |w.installs| && w.installs[r] == task.seen.value;
      AscendingIsAtLeast(w.installs, r);
    }
  }

  lemma SwapFailed(w: World, w': World, tid: nat, p: nat)
    requires FailsToSwap(w, w', Work(tid), p)
    ensures tid in w.tasks && w.tasks[tid].Swapping? && w.tasks[tid].p == p && tid in w'.tasks && w'.tasks[tid].Loading?
  {
  }

  /** Pointer p fails to be swapped in at most p + 1 times, over any interleaving: only the pointers
      published before it, and one published after it, can get in its way. */
  lemma {:induction false} FailuresAreFew(cfg: Config, defaultAddress: string, worlds: seq<World>, moves: seq<Move>,
                                          p: nat, k: nat)
    requires IsExecution(cfg, defaultAddress, worlds, moves) && k <= |moves|
    ensures Failures(worlds, moves, p, k) <= p + 1
    decreases k
  {
    hide Inv, Makes, FailsToSwap, Paid, FailuresInv;
    if k > 0 {
      FailuresAreFew(cfg, defaultAddress, worlds, moves, p, k - 1);
      var w, w', move := worlds[k - 1], worlds[k], moves[k - 1];
      if FailsToSwap(w, w', move, p) {
        assert Makes(cfg, defaultAddress, worlds[k - 1], worlds[k - 1 + 1], moves[k - 1]);
        InvHolds(cfg, defaultAddress, worlds, moves, k - 1);
        FailedSwapsArePaidFor(cfg, defaultAddress, worlds, moves, p, k - 1);
        FailureIsPaid(cfg, defaultAddress, w, w', move, p, Failures(worlds, moves, p, k - 1));
      }
    }
  }

  lemma FailureIsPaid(cfg: Config, defaultAddress: string, w: World, w': World, move: Move, p: nat, failures: nat)
    requires Inv(cfg, w) && Makes(cfg, defaultAddress, w, w', move) && FailsToSwap(w, w', move, p)
    requires FailuresInv(w, p, failures)
    ensures failures <= p
  {
    hide Inv, Paid, Works;
    FailureSawOlder(cfg, w, w', move.tid, p, failures);
  }

  // ---------------------------------------------------------------------------
  // All moves of a publication
  // ---------------------------------------------------------------------------

  /** This is a move of the task that has pointer p to publish. */
  predicate Advances(w: World, move: Move, p: nat)
  {
    move.Work? && move.tid in w.tasks && Pending(w.tasks[move.tid]) == Some(p)
  }

  /** Such moves among the first k. */
  ghost function PublicationMoves(worlds: seq<World>, moves: seq<Move>, p: nat, k: nat): nat
    requires k <= |moves| && |worlds| == |moves| + 1
  {
    if k == 0 then 0
    else PublicationMoves(worlds, moves, p, k - 1) + if Advances(worlds[k - 1], moves[k - 1], p) then 1 else 0
  }

  /** Each failing swap costs a load and a swap; what has been spent otherwise shows in the stage. */
  predicate Stage(task: Task, spent: nat, failures: nat)
  {
    match task
    case Handling(_, _) => spent == 0
    case Loading(_, _) => spent == 2 * failures + 1
    case Swapping(_, _, _) => spent == 2 * failures + 2
    case _ => true
  }

  ghost predicate StageInv(w: World, p: nat, spent: nat, failures: nat)
  {
    && spent <= 2 * failures + 3
    && (p >= |Published(w)| ==> spent == 0)
    && forall tid :: tid in w.tasks && Pending(w.tasks[tid]) == Some(p) ==> Stage(w.tasks[tid], spent, failures)
  }

  lemma StepKeepsStages(cfg: Config, w: World, w': World, tid: nat, r: Record, after: Task, p: nat, spent: nat,
                        failures: nat)
    requires IsRun(cfg, w.history) && tid in w.tasks && StepsMachine(cfg, w, w', tid, r, after)
    requires after == Taken(w, r) || after == Finished
    requires StageInv(w, p, spent, failures)
    ensures StageInv(w', p, spent, failures)
  {
    hide IsRun, IsStep, Uses, UsesOf, SendsOf, StateAfter;
    AppendStep(cfg, w.history, r);
  }

  lemma WorkKeepsStages(w: World, w': World, tid: nat, p: nat, spent: nat, failures: nat)
    requires tid in w.tasks && Works(w, w', tid) && TasksInv(w, |Published(w)|)
    requires StageInv(w, p, spent, failures)
             && (w.tasks[tid].Handling? && w.tasks[tid].use == Some(p) ==> failures == 0)
    ensures StageInv(w', p, spent + (if Advances(w, Work(tid), p) then 1 else 0),
                     failures + (if FailsToSwap(w, w', Work(tid), p) then 1 else 0))
  {
    hide Published, IsOlder;
    assert TaskInv(w, |Published(w)|, w.tasks[tid]);
    assert w'.history == w.history && Published(w') == Published(w) by { SamePointers(w, w', tid); }
    forall other | other in w'.tasks && other != tid && Pending(w'.tasks[other]) == Some(p)
      ensures !Advances(w, Work(tid), p) && !FailsToSwap(w, w', Work(tid), p)
      ensures Stage(w'.tasks[other], spent, failures)
    {
      assert other in w.tasks && Apart(w.tasks[tid], w.tasks[other]);
    }
  }

  lemma SamePointers(w: World, w': World, tid: nat)
    requires tid in w.tasks && Works(w, w', tid)
    ensures w'.history == w.history && Published(w') == Published(w)
  {
    hide Uses, IsOlder;
  }

  lemma SpawnKeepsStages(defaultAddress: string, w: World, w': World, tid: nat, child: nat, p: nat, spent: nat,
                         failures: nat)
    requires tid in w.tasks && Spawns(defaultAddress, w, w', tid, child) && StageInv(w, p, spent, failures)
    ensures StageInv(w', p, spent, failures)
  {
    hide Uses, Target;
  }

  lemma MoveKeepsStages(cfg: Config, defaultAddress: string, w: World, w': World, move: Move, p: nat, spent: nat,
                        failures: nat)
    requires Inv(cfg, w) && Makes(cfg, defaultAddress, w, w', move)
    requires StageInv(w, p, spent, failures) && FailuresInv(w, p, failures)
    ensures StageInv(w', p, spent + (if Advances(w, move, p) then 1 else 0),
                     failures + (if FailsToSwap(w, w', move, p) then 1 else 0))
  {
    hide IsRun, Published, StageInv, PointersInv, NotesInv, TasksInv, CellInv, Works, Spawns, Taken, IsStep;
    hide StateAfter;
    match move
    case Tick(r) => StepKeepsStages(cfg, w, w', LOOP, r, Taken(w, r), p, spent, failures);
    case Shutdown(r) => StepKeepsStages(cfg, w, w', LOOP, r, Finished, p, spent, failures);
    case Return(tid, r) => StepKeepsStages(cfg, w, w', tid, r, Taken(w, r), p, spent, failures);
    case Work(tid) => WorkKeepsStages(w, w', tid, p, spent, failures);
    case Spawn(tid, child) => SpawnKeepsStages(defaultAddress, w, w', tid, child, p, spent, failures);
  }

  lemma {:induction false} StagesHold(cfg: Config, defaultAddress: string, worlds: seq<World>, moves: seq<Move>, p: nat,
                                      k: nat)
    requires IsExecution(cfg, defaultAddress, worlds, moves) && k <= |moves|
    ensures StageInv(worlds[k], p, PublicationMoves(worlds, moves, p, k), Failures(worlds, moves, p, k))
    decreases k
  {
    hide Inv, Makes, FailsToSwap, Advances, FailuresInv;
    if k > 0 {
      hide StageInv;
      StagesHold(cfg, defaultAddress, worlds, moves, p, k - 1);
      InvHolds(cfg, defaultAddress, worlds, moves, k - 1);
      FailedSwapsArePaidFor(cfg, defaultAddress, worlds, moves, p, k - 1);
      assert Makes(cfg, defaultAddress, worlds[k - 1], worlds[k - 1 + 1], moves[k - 1]);
      MoveKeepsStages(cfg, defaultAddress, worlds[k - 1], worlds[k], moves[k - 1], p,
                      PublicationMoves(worlds, moves, p, k - 1), Failures(worlds, moves, p, k - 1));
    }
  }

  /** Over any interleaving, with the machine stepping as it likes: the goroutine that publishes
      pointer p makes at most 2p + 5 moves for it. While the pointer is pending there are moves left,
      and once it is not the cell holds p or a newer one. */
  lemma PublicationIsWaitFree(cfg: Config, defaultAddress: string, worlds: seq<World>, moves: seq<Move>, p: nat, k: nat)
    requires IsExecution(cfg, defaultAddress, worlds, moves) && k <= |moves|
    ensures PublicationMoves(worlds, moves, p, k) <= 2 * p + 5
    ensures IsPending(worlds[k], p) ==> PublicationMoves(worlds, moves, p, k) < 2 * p + 5
    ensures p < |Published(worlds[k])| && !IsPending(worlds[k], p) ==> worlds[k].cell.Some? && worlds[k].cell.value >= p
  {
    hide IsRun, Uses, Makes, CellInv, TasksInv, NotesInv, FailsToSwap;
    StagesHold(cfg, defaultAddress, worlds, moves, p, k);
    FailuresAreFew(cfg, defaultAddress, worlds, moves, p, k);
    InvHolds(cfg, defaultAddress, worlds, moves, k);
    if IsPending(worlds[k], p) {
      var tid :| tid in worlds[k].tasks && Pending(worlds[k].tasks[tid]) == Some(p);
      assert Stage(worlds[k].tasks[tid], PublicationMoves(worlds, moves, p, k), Failures(worlds, moves, p, k));
    }
  }
}
