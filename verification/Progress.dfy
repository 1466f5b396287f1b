/**
 The driver's goroutines finish what they have begun. Between two steps of the machine only so many
 moves are possible, however they are scheduled, and when none is left the cell is up to date.
 */
module Progress {
  import opened Wrappers
  import opened Assignments
  import opened SyncMachine
  import opened SyncSteps
  import opened SyncRuns
  import opened Driver

  // ---------------------------------------------------------------------------
  // Effort left
  // ---------------------------------------------------------------------------

  /** Two ways to weigh a task: whether it has a pointer to publish, and how far it has to go given
      what the cell holds. A swap that is bound to fail costs another round. */
  datatype Scale = Pendings | Steps(cell: Option<nat>) {

    function Weigh(task: Task): nat
    {
      match this
      case Pendings => if Pending(task).Some? then 1 else 0
      case Steps(cell) =>
        match task
        case Handling(Some(_), _) => 8
        case Loading(_, _) => 6
        case Swapping(_, seen, _) => if seen == cell then 5 else 7
        case Notifying(_, _) => 4
        case Opening(_) => 3
        case Handling(None, Some(_)) => 2
        case Handling(None, None) => 1
        case _ => 0
    }
  }

  ghost function Total(tasks: map<nat, Task>, scale: Scale): nat
    decreases |tasks|
  {
    if tasks == map[] then 0
    else
      var tid :| tid in tasks;
      scale.Weigh(tasks[tid]) + Total(tasks - {tid}, scale)
  }

  /** It does not matter in which order the tasks are weighed. */
  lemma {:induction false} TotalSplits(tasks: map<nat, Task>, scale: Scale, tid: nat)
    requires tid in tasks
    ensures Total(tasks, scale) == scale.Weigh(tasks[tid]) + Total(tasks - {tid}, scale)
    decreases |tasks|
  {
    var first :| first in tasks && Total(tasks, scale) == scale.Weigh(tasks[first]) + Total(tasks - {first}, scale);
    if first != tid {
      TotalSplits(tasks - {first}, scale, tid);
      TotalSplits(tasks - {tid}, scale, first);
      assert tasks - {first} - {tid} == tasks - {tid} - {first};
    }
  }

  lemma TotalChanges(tasks: map<nat, Task>, scale: Scale, tid: nat, task: Task)
    ensures Total(tasks[tid := task], scale)
         == Total(tasks, scale) + scale.Weigh(task) - if tid in tasks then scale.Weigh(tasks[tid]) else 0
  {
    var after := tasks[tid := task];
    TotalSplits(after, scale, tid);
    if tid in tasks {
      TotalSplits(tasks, scale, tid);
      assert after - {tid} == tasks - {tid};
    } else {
      assert after - {tid} == tasks;
    }
  }

  /** When the cell changes, only tasks with a pointer to publish are set back, each by two. */
  lemma {:induction false} SetBack(tasks: map<nat, Task>, before: Option<nat>, after: Option<nat>)
    ensures Total(tasks, Steps(after)) <= Total(tasks, Steps(before)) + 2 * Total(tasks, Pendings)
    decreases |tasks|
  {
    if tasks != map[] {
      var tid :| tid in tasks;
      TotalSplits(tasks, Steps(after), tid);
      TotalSplits(tasks, Steps(before), tid);
      TotalSplits(tasks, Pendings, tid);
      SetBack(tasks - {tid}, before, after);
    }
  }

  /** The moves that can still be made without a step of the machine. */
  ghost function Effort(w: World): nat
  {
    var pending := Total(w.tasks, Pendings);
    Total(w.tasks, Steps(w.cell)) + 2 * (pending * pending)
  }

  lemma PendingSquare(p: nat, p': nat)
    requires p' <= p
    ensures p' * p' <= p * p
    ensures p' == p - 1 ==> p * p == p' * p' + 2 * p' + 1
  {
    if p' == p - 1 {
      assert p * p == (p' + 1) * (p' + 1);
    } else {
      assert p * p - p' * p' == (p - p') * (p + p');
    }
  }

  lemma WorkTakesEffort(w: World, w': World, tid: nat)
    requires tid in w.tasks && Works(w, w', tid)
    ensures Effort(w') < Effort(w)
  {
    hide Total, IsOlder;
    var task := w'.tasks[tid];
    TotalChanges(w.tasks, Pendings, tid, task);
    TotalChanges(w.tasks, Steps(w.cell), tid, task);
    PendingSquare(Total(w.tasks, Pendings), Total(w'.tasks, Pendings));
    if w'.cell != w.cell {
      SetBack(w'.tasks, w.cell, w'.cell);
    }
  }

  lemma SpawnTakesEffort(defaultAddress: string, w: World, w': World, tid: nat, child: nat)
    requires tid in w.tasks && Spawns(defaultAddress, w, w', tid, child)
    ensures Effort(w') < Effort(w)
  {
    hide Total, Target;
    var half := w.tasks[tid := w'.tasks[tid]];
    TotalChanges(w.tasks, Pendings, tid, w'.tasks[tid]);
    TotalChanges(w.tasks, Steps(w.cell), tid, w'.tasks[tid]);
    TotalChanges(half, Pendings, child, w'.tasks[child]);
    TotalChanges(half, Steps(w.cell), child, w'.tasks[child]);
  }

  // ---------------------------------------------------------------------------
  // The ready channel
  // ---------------------------------------------------------------------------

  /** The task is past its swap and on its way to close the ready channel. */
  predicate Opens(task: Task)
  {
    task.Notifying? || task.Opening?
  }

  /** Once the cell has been set, the ready channel is closed or a task is about to close it. */
  ghost predicate ReadyInv(w: World)
  {
    w.cell.Some? ==> w.ready || exists tid :: tid in w.tasks && Opens(w.tasks[tid])
  }

  lemma MoveKeepsReadyInv(cfg: Config, defaultAddress: string, w: World, w': World, move: Move)
    requires ReadyInv(w) && Makes(cfg, defaultAddress, w, w', move)
    ensures ReadyInv(w')
  {
    hide IsStep, Taken, IsOlder, Target, StateAfter;
    if w.cell.Some? && !w.ready {
      var opener :| opener in w.tasks && Opens(w.tasks[opener]);
      assert w'.ready || Opens(w'.tasks[opener]);
    } else if move.Work? && w'.cell.Some? && !w'.ready {
      assert Opens(w'.tasks[move.tid]);
    }
  }

  lemma {:induction false} ReadyInvHolds(cfg: Config, defaultAddress: string, worlds: seq<World>, moves: seq<Move>,
                                         i: nat)
    requires IsExecution(cfg, defaultAddress, worlds, moves) && i < |worlds|
    ensures ReadyInv(worlds[i])
    decreases i
  {
    hide Makes;
    if i > 0 {
      ReadyInvHolds(cfg, defaultAddress, worlds, moves, i - 1);
      assert Makes(cfg, defaultAddress, worlds[i - 1], worlds[i - 1 + 1], moves[i - 1]);
      MoveKeepsReadyInv(cfg, defaultAddress, worlds[i - 1], worlds[i], moves[i - 1]);
    }
  }

  // ---------------------------------------------------------------------------
  // Main results
  // ---------------------------------------------------------------------------

  /** The machine does not step in moves i up to j. */
  ghost predicate MachineRests(moves: seq<Move>, i: nat, j: nat)
    requires i <= j <= |moves|
  {
    forall k :: i <= k < j ==> moves[k].Work? || moves[k].Spawn?
  }

  /** However the goroutines are scheduled, failed swaps included: while the machine rests there are
      no more moves than the effort left at the start. */
  lemma {:induction false} WorkIsBounded(cfg: Config, defaultAddress: string, worlds: seq<World>, moves: seq<Move>,
                                         i: nat, j: nat)
    requires IsExecution(cfg, defaultAddress, worlds, moves) && i <= j < |worlds| && MachineRests(moves, i, j)
    ensures j - i <= Effort(worlds[i]) - Effort(worlds[j])
    decreases j
  {
    hide Effort, Works, Spawns, StepsMachine;
    if i < j {
      WorkIsBounded(cfg, defaultAddress, worlds, moves, i, j - 1);
      var w, w', move := worlds[j - 1], worlds[j], moves[j - 1];
      assert Makes(cfg, defaultAddress, worlds[j - 1], worlds[j - 1 + 1], moves[j - 1]);
      match move
      case Work(tid) => WorkTakesEffort(w, w', tid);
      case Spawn(tid, child) => SpawnTakesEffort(defaultAddress, w, w', tid, child);
    }
  }

  /** No goroutine has anything left to publish, to announce or to open, for want of a move. */
  ghost predicate AtRest(w: World)
  {
    forall tid, w' :: tid in w.tasks ==> !Works(w, w', tid)
  }

  /** The task has a pointer to publish or to announce, or the ready channel to close. */
  predicate Busy(task: Task)
  {
    Pending(task).Some? || Unannounced(task).Some? || Opens(task)
  }

  /** A busy task can always move: there is no deadlock. */
  lemma BusyTaskCanMove(w: World, tid: nat) returns (w': World)
    requires tid in w.tasks && Busy(w.tasks[tid])
    ensures Works(w, w', tid)
  {
    hide IsOlder;
    match w.tasks[tid]
    case Handling(use, send) => w' := w.(tasks := w.tasks[tid := Loading(use.value, send)]);
    case Loading(p, send) => w' := w.(tasks := w.tasks[tid := Swapping(p, w.cell, send)]);
    case Swapping(p, seen, send) =>
      if IsOlder(w, p, seen) {
        w' := w.(tasks := w.tasks[tid := Opening(send)]);
      } else if w.cell == seen {
        w' := w.(cell := Some(p), installs := w.installs + [p], tasks := w.tasks[tid := Notifying(p, send)]);
      } else {
        w' := w.(tasks := w.tasks[tid := Loading(p, send)]);
      }
    case Notifying(p, send) => w' := w.(notes := w.notes + [p], tasks := w.tasks[tid := Opening(send)]);
    case Opening(send) => w' := w.(ready := true, tasks := w.tasks[tid := Handling(None, send)]);
  }

  /** When the goroutines have run out of moves, the cell holds exactly the machine's current
      assignment, every assignment ever installed has been announced, and if there is an assignment
      the ready channel is closed. */
  lemma RestMeansUpToDate(cfg: Config, defaultAddress: string, worlds: seq<World>, moves: seq<Move>, i: nat)
    requires IsExecution(cfg, defaultAddress, worlds, moves) && i < |worlds| && AtRest(worlds[i])
    ensures Current(worlds[i]) == StateAfter(cfg, worlds[i].history).assignment
    ensures forall p :: p in worlds[i].notes <==> p in worlds[i].installs
    ensures worlds[i].ready <==> StateAfter(cfg, worlds[i].history).assignment.Some?
  {
    hide IsExecution, Works, StateAfter, Published;
    var w := worlds[i];
    forall tid | tid in w.tasks
      ensures !Busy(w.tasks[tid])
    {
      if Busy(w.tasks[tid]) {
        var w' := BusyTaskCanMove(w, tid);
      }
    }
    SettledCellIsCurrent(cfg, defaultAddress, worlds, moves, i);
    InstallsAreAnnouncedOnce(cfg, defaultAddress, worlds, moves, i);
    ReadyInvHolds(cfg, defaultAddress, worlds, moves, i);
    if w.ready {
      ReadyMeansLoaded(cfg, defaultAddress, worlds, moves, i, i);
    }
  }
}
