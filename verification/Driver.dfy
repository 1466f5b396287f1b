/**
 The concurrent driver: one loop and any number of request goroutines. Each steps the sync state
 machine under its mutex, then handles the resulting actions outside it, so that publications
 overtake each other. Every load, compare-and-swap, notification and closing of the ready channel
 is a move of its own, and moves of different tasks interleave in any order.

 A published assignment is a pointer; pointers are numbered in the order in which the machine
 created them, so two of them are the same pointer exactly if their numbers are equal.
 */
module Driver {
  import opened Wrappers
  import opened Generations
  import opened Assignments
  import opened SyncMachine
  import opened SyncSteps
  import opened SyncRuns

  /** Where a task stands. `send` is the request it still has to dispatch. */
  datatype Task =
    | Idle
    | Handling(use: Option<nat>, send: Option<Action>)
    | Loading(p: nat, send: Option<Action>)
    | Swapping(p: nat, seen: Option<nat>, send: Option<Action>)
    | Notifying(p: nat, send: Option<Action>)
    | Opening(send: Option<Action>)
    | Awaiting(opID: int, address: string)
    | Finished

  /** `history` is everything the machine has done; `installs` the successful swaps, `notes` the
      rounds of notification, in order. */
  datatype World = World(
    history: Trace,
    cell: Option<nat>,
    ready: bool,
    tasks: map<nat, Task>,
    installs: seq<nat>,
    notes: seq<nat>)

  const LOOP: nat := 0

  /** The pointers created so far. */
  ghost function Published(w: World): seq<Assignment>
  {
    Uses(w.history)
  }

  ghost predicate Initial(w: World)
  {
    w == World([], None, false, map[LOOP := Idle], [], [])
  }

  // ---------------------------------------------------------------------------
  // Moves
  // ---------------------------------------------------------------------------

  /** The ticker fires; the context is cancelled; a call returns; a task goes on with its actions;
      a task starts a goroutine for a request. */
  datatype Move =
    | Tick(step: Record)
    | Shutdown(step: Record)
    | Return(tid: nat, step: Record)
    | Work(tid: nat)
    | Spawn(tid: nat, child: nat)

  /** Task `tid` steps the machine and then stands at `after`. */
  ghost predicate StepsMachine(cfg: Config, w: World, w': World, tid: nat, r: Record, after: Task)
  {
    && r.pre == StateAfter(cfg, w.history) && IsStep(cfg, r)
    && w' == w.(history := w.history + [r], tasks := w.tasks[tid := after])
  }

  /** What a task has to do after a machine step: publish the new assignment, if any, and then
      dispatch the request, if any. */
  ghost function Taken(w: World, r: Record): Task
  {
    Handling(if UsesOf(r.actions) == [] then None else Some(|Published(w)|),
             if SendsOf(r.actions) == [] then None else Some(SendsOf(r.actions)[0]))
  }

  /** A call comes back with whatever response or failure. */
  predicate AnswerTo(event: Option<Event>, call: Task)
  {
    call.Awaiting? &&
    match event
    case Some(ReadSuccess(address, opID, _)) => address == Some(call.address) && opID == call.opID
    case Some(ReadFailure(opID)) => opID == call.opID
    case _ => false
  }

  /** A request goes to the redirect's address if it has a non-empty one, else to the default. */
  function Target(redirect: Redirect, defaultAddress: string): string
  {
    if redirect.address.None? || redirect.address.value == "" then defaultAddress else redirect.address.value
  }

  /** The monotonicity check: is p older than the assignment seen in the cell? */
  ghost predicate IsOlder(w: World, p: nat, seen: Option<nat>)
  {
    seen.Some? && p < |Published(w)| && seen.value < |Published(w)|
    && Published(w)[p].generation.Compare(Published(w)[seen.value].generation) < 0
  }

  ghost predicate Works(w: World, w': World, tid: nat)
    requires tid in w.tasks
  {
    match w.tasks[tid]
    case Handling(Some(p), send) => w' == w.(tasks := w.tasks[tid := Loading(p, send)])
    case Handling(None, None) => w' == w.(tasks := w.tasks[tid := if tid == LOOP then Idle else Finished])
    case Loading(p, send) => w' == w.(tasks := w.tasks[tid := Swapping(p, w.cell, send)])
    case Swapping(p, seen, send) =>
      if IsOlder(w, p, seen) then w' == w.(tasks := w.tasks[tid := Opening(send)])
      else if w.cell == seen then
        w' == w.(cell := Some(p), installs := w.installs + [p], tasks := w.tasks[tid := Notifying(p, send)])
      else w' == w.(tasks := w.tasks[tid := Loading(p, send)])
    case Notifying(p, send) => w' == w.(notes := w.notes + [p], tasks := w.tasks[tid := Opening(send)])
    case Opening(send) => w' == w.(ready := true, tasks := w.tasks[tid := Handling(None, send)])
    case _ => false
  }

  ghost predicate Spawns(defaultAddress: string, w: World, w': World, tid: nat, child: nat)
    requires tid in w.tasks
  {
    match w.tasks[tid]
    case Handling(None, Some(SendRequest(redirect, opID, _, _))) =>
      && child !in w.tasks
      && var call := Awaiting(opID, Target(redirect, defaultAddress));
         w' == w.(tasks := w.tasks[tid := Handling(None, None)][child := call])
    case _ => false
  }

  ghost predicate Makes(cfg: Config, defaultAddress: string, w: World, w': World, move: Move)
  {
    match move
    case Tick(r) =>
      LOOP in w.tasks && w.tasks[LOOP] == Idle && r.input.event == None
        && StepsMachine(cfg, w, w', LOOP, r, Taken(w, r))
    case Shutdown(r) =>
      LOOP in w.tasks && w.tasks[LOOP] == Idle && r.input.event == Some(Cancel)
        && StepsMachine(cfg, w, w', LOOP, r, Finished)
    case Return(tid, r) =>
      tid in w.tasks && AnswerTo(r.input.event, w.tasks[tid]) && StepsMachine(cfg, w, w', tid, r, Taken(w, r))
    case Work(tid) => tid in w.tasks && Works(w, w', tid)
    case Spawn(tid, child) => tid in w.tasks && Spawns(defaultAddress, w, w', tid, child)
  }

  /** An execution: worlds[0] is the initial world, and moves[i] leads from worlds[i] to the next. */
  ghost predicate IsExecution(cfg: Config, defaultAddress: string, worlds: seq<World>, moves: seq<Move>)
  {
    && cfg.Positive() && |worlds| == |moves| + 1 && Initial(worlds[0])
    && forall i :: 0 <= i < |moves| ==> Makes(cfg, defaultAddress, worlds[i], worlds[i + 1], moves[i])
  }

  // ---------------------------------------------------------------------------
  // The invariant
  // ---------------------------------------------------------------------------

  /** The pointer a task has yet to put to the cell. */
  function Pending(task: Task): Option<nat>
  {
    match task
    case Handling(use, _) => use
    case Loading(p, _) => Some(p)
    case Swapping(p, _, _) => Some(p)
    case _ => None
  }

  /** The pointer a task has installed but not announced. */
  function Unannounced(task: Task): Option<nat>
  {
    if task.Notifying? then Some(task.p) else None
  }

  ghost predicate Ascending(s: seq<nat>)
  {
    forall i, j :: 0 <= i < j < |s| ==> s[i] < s[j]
  }

  /** The cell holds the last installed pointer, and was only ever moved to newer ones. */
  ghost predicate CellInv(w: World, n: nat)
  {
    && Ascending(w.installs)
    && (forall i :: 0 <= i < |w.installs| ==> w.installs[i] < n)
    && w.cell == (if w.installs == [] then None else Some(w.installs[|w.installs| - 1]))
    && (w.ready ==> w.cell.Some?)
  }

  ghost predicate TaskInv(w: World, n: nat, task: Task)
  {
    && (Pending(task).Some? ==> Pending(task).value < n && Pending(task).value !in w.installs)
    && (task.Swapping? && task.seen.Some? ==> task.seen.value in w.installs)
    && (task.Notifying? || task.Opening? ==> w.cell.Some?)
    && (Unannounced(task).Some? ==> Unannounced(task).value in w.installs && Unannounced(task).value !in w.notes)
  }

  /** No two tasks are responsible for the same pointer. */
  predicate Apart(a: Task, b: Task)
  {
    && (Pending(a).Some? ==> Pending(a) != Pending(b))
    && (Unannounced(a).Some? ==> Unannounced(a) != Unannounced(b))
  }

  ghost predicate TasksInv(w: World, n: nat)
  {
    && (forall tid :: tid in w.tasks ==> TaskInv(w, n, w.tasks[tid]))
    && (forall a, b :: a in w.tasks && b in w.tasks && a != b ==> Apart(w.tasks[a], w.tasks[b]))
  }

  ghost predicate IsPending(w: World, p: nat)
  {
    exists tid :: tid in w.tasks && Pending(w.tasks[tid]) == Some(p)
  }

  ghost predicate IsUnannounced(w: World, p: nat)
  {
    exists tid :: tid in w.tasks && Unannounced(w.tasks[tid]) == Some(p)
  }

  /** Every pointer is either still on its way to the cell or no newer than what the cell holds. */
  ghost predicate PointersInv(w: World, n: nat)
  {
    forall p: nat :: p < n ==> (w.cell.Some? && p <= w.cell.value) || IsPending(w, p)
  }

  /** Every installed pointer has been announced once, or a task is about to announce it. */
  ghost predicate NotesInv(w: World)
  {
    && NoDuplicates(w.notes)
    && (forall p :: p in w.notes ==> p in w.installs)
    && (forall p :: p in w.installs ==> p in w.notes || IsUnannounced(w, p))
  }

  ghost predicate Inv(cfg: Config, w: World)
  {
    var n := |Published(w)|;
    IsRun(cfg, w.history) && CellInv(w, n) && TasksInv(w, n) && PointersInv(w, n) && NotesInv(w)
  }

  // ---------------------------------------------------------------------------
  // Every move keeps it
  // ---------------------------------------------------------------------------

  lemma AtMostOneUse(cfg: Config, r: Record)
    requires IsStep(cfg, r)
    ensures |UsesOf(r.actions)| <= 1
  {
    hide IsStep, UsesOf, DataStep, TimingStep;
    StepSplits(cfg, r);
    AssignmentStepOf(r);
  }

  lemma AppendStep(cfg: Config, t: Trace, r: Record)
    requires IsRun(cfg, t) && IsStep(cfg, r) && r.pre == StateAfter(cfg, t)
    ensures IsRun(cfg, t + [r])
    ensures Uses(t + [r]) == Uses(t) + UsesOf(r.actions) && |UsesOf(r.actions)| <= 1
  {
    hide IsRun, IsStep, UsesOf, StateAfter;
    RunGrows(cfg, t, r);
    AtMostOneUse(cfg, r);
    assert Before(t + [r]) == t;
  }

  /** A pointer is older than another exactly if its number is lower. */
  lemma OlderIsLower(cfg: Config, w: World, p: nat, seen: Option<nat>)
    requires IsRun(cfg, w.history)
    requires p < |Published(w)| && (seen.Some? ==> seen.value < |Published(w)|)
    ensures IsOlder(w, p, seen) <==> seen.Some? && p < seen.value
  {
    hide IsRun, EachBuilt, Uses, LastUse;
    UsesIncrease(cfg, w.history);
  }

  /** Only task `tid` moves; others may begin. */
  ghost predicate OthersStay(w: World, w': World, tid: nat)
  {
    && tid in w.tasks && tid in w'.tasks && w.tasks.Keys <= w'.tasks.Keys
    && forall other :: other in w'.tasks && other != tid ==>
         if other in w.tasks then w'.tasks[other] == w.tasks[other] else w'.tasks[other].Awaiting?
  }

  /** What a move may do, seen from the moving task: it takes on a new pointer, installs or gives up
      the one it has, or announces the one it installed. */
  ghost predicate LocalMove(w: World, w': World, n: nat, n': nat, tid: nat)
  {
    && OthersStay(w, w', tid)
    && var task, task' := w.tasks[tid], w'.tasks[tid];
       var installed := Pending(task).Some? && Unannounced(task') == Pending(task);
       var announced := Unannounced(task).Some? && Unannounced(task').None?;
    && (n' == n || (n' == n + 1 && Pending(task') == Some(n)))
    && w'.installs == (if installed then w.installs + [Pending(task).value] else w.installs)
    && w'.cell == (if installed then Pending(task) else w.cell)
    && w'.notes == (if announced then w.notes + [Unannounced(task).value] else w.notes)
    && (installed && w.cell.Some? ==> w.cell.value < Pending(task).value)
    && (Pending(task').Some? ==> Pending(task') == Pending(task) || (n' == n + 1 && Pending(task') == Some(n)))
    && (Pending(task).Some? ==>
      Pending(task') == Pending(task) || (w'.cell.Some? && Pending(task).value <= w'.cell.value))
    && (Unannounced(task').Some? ==> Unannounced(task') == Unannounced(task) || installed)
    && (task'.Swapping? && task'.seen.Some? ==> task'.seen == w.cell || task'.seen.value in w.installs)
    && (task'.Notifying? || task'.Opening? || w'.ready ==> w'.cell.Some?)
  }

  lemma LocalMoveKeepsCell(w: World, w': World, n: nat, n': nat, tid: nat)
    requires LocalMove(w, w', n, n', tid) && CellInv(w, n) && TaskInv(w, n, w.tasks[tid])
    ensures CellInv(w', n')
  {
    hide OthersStay;
  }

  lemma LocalMoveKeepsTask(w: World, w': World, n: nat, n': nat, tid: nat)
    requires LocalMove(w, w', n, n', tid) && CellInv(w, n) && NotesInv(w) && TaskInv(w, n, w.tasks[tid])
    ensures TaskInv(w', n', w'.tasks[tid])
  {
    hide OthersStay, IsUnannounced, Ascending;
  }

  lemma LocalMoveKeepsOther(w: World, w': World, n: nat, n': nat, tid: nat, other: Task)
    requires LocalMove(w, w', n, n', tid) && TaskInv(w, n, w.tasks[tid]) && TaskInv(w, n, other)
    requires Apart(w.tasks[tid], other) && Apart(other, w.tasks[tid])
    ensures TaskInv(w', n', other) && Apart(w'.tasks[tid], other) && Apart(other, w'.tasks[tid])
  {
    hide OthersStay;
  }

  lemma LocalMoveKeepsTasks(w: World, w': World, n: nat, n': nat, tid: nat)
    requires LocalMove(w, w', n, n', tid) && CellInv(w, n) && NotesInv(w) && TasksInv(w, n)
    ensures TasksInv(w', n')
  {
    hide LocalMove, CellInv, NotesInv, TaskInv, Apart;
    assert OthersStay(w, w', tid) by { OnlyOneMoves(w, w', n, n', tid); }
    LocalMoveKeepsTask(w, w', n, n', tid);
    forall other | other in w'.tasks && other != tid
      ensures TaskInv(w', n', w'.tasks[other])
      ensures Apart(w'.tasks[tid], w'.tasks[other]) && Apart(w'.tasks[other], w'.tasks[tid])
    {
      if other !in w.tasks {
        IdleHands(w, n, w.tasks[tid], w'.tasks[other]);
      }
      LocalMoveKeepsOther(w, w', n, n', tid, w'.tasks[other]);
    }
    forall a, b | a in w'.tasks && b in w'.tasks && a != b && a != tid && b != tid
      ensures Apart(w'.tasks[a], w'.tasks[b])
    {
      if a !in w.tasks {
        IdleHands(w, n, w'.tasks[b], w'.tasks[a]);
      } else if b !in w.tasks {
        IdleHands(w, n, w'.tasks[a], w'.tasks[b]);
      }
    }
  }

  lemma OnlyOneMoves(w: World, w': World, n: nat, n': nat, tid: nat)
    requires LocalMove(w, w', n, n', tid)
    ensures OthersStay(w, w', tid)
  {
  }

  /** A task that is only waiting for a call is responsible for nothing. */
  lemma IdleHands(w: World, n: nat, a: Task, waiting: Task)
    requires waiting.Awaiting?
    ensures TaskInv(w, n, waiting) && Apart(a, waiting) && Apart(waiting, a)
  {
  }

  lemma LocalMoveKeepsPointers(w: World, w': World, n: nat, n': nat, tid: nat)
    requires LocalMove(w, w', n, n', tid) && PointersInv(w, n)
    ensures PointersInv(w', n')
  {
    forall p: nat | p < n'
      ensures (w'.cell.Some? && p <= w'.cell.value) || IsPending(w', p)
    {
      if p == n {
        assert Pending(w'.tasks[tid]) == Some(p);
      } else if IsPending(w, p) {
        var holder :| holder in w.tasks && Pending(w.tasks[holder]) == Some(p);
        assert holder in w'.tasks;
        assert Pending(w'.tasks[holder]) == Some(p) || (w'.cell.Some? && p <= w'.cell.value);
      }
    }
  }

  lemma LocalMoveKeepsNotes(w: World, w': World, n: nat, n': nat, tid: nat)
    requires LocalMove(w, w', n, n', tid) && NotesInv(w) && TaskInv(w, n, w.tasks[tid])
    ensures NotesInv(w')
  {
    forall p | p in w'.installs
      ensures p in w'.notes || IsUnannounced(w', p)
    {
      if p !in w.installs {
        assert Unannounced(w'.tasks[tid]) == Some(p);
      } else if p !in w.notes {
        var holder :| holder in w.tasks && Unannounced(w.tasks[holder]) == Some(p);
        assert holder in w'.tasks;
        assert Unannounced(w'.tasks[holder]) == Some(p) || p in w'.notes;
      }
    }
  }

  lemma LocalMoveKeepsInv(cfg: Config, w: World, w': World, tid: nat)
    requires Inv(cfg, w) && IsRun(cfg, w'.history)
    requires LocalMove(w, w', |Published(w)|, |Published(w')|, tid)
    ensures Inv(cfg, w')
  {
    hide IsRun, Published, CellInv, TaskInv, PointersInv, NotesInv, LocalMove, Apart;
    var n, n' := |Published(w)|, |Published(w')|;
    OnlyOneMoves(w, w', n, n', tid);
    LocalMoveKeepsCell(w, w', n, n', tid);
    LocalMoveKeepsTasks(w, w', n, n', tid);
    LocalMoveKeepsPointers(w, w', n, n', tid);
    LocalMoveKeepsNotes(w, w', n, n', tid);
  }

  lemma TaskOf(cfg: Config, w: World, tid: nat)
    requires Inv(cfg, w) && tid in w.tasks
    ensures IsRun(cfg, w.history) && CellInv(w, |Published(w)|) && TaskInv(w, |Published(w)|, w.tasks[tid])
  {
    hide IsRun, Published, CellInv, TaskInv, PointersInv, NotesInv, Apart;
  }

  lemma MachineStepKeepsInv(cfg: Config, w: World, w': World, tid: nat, r: Record, after: Task)
    requires Inv(cfg, w) && tid in w.tasks && (w.tasks[tid].Idle? || w.tasks[tid].Awaiting?)
    requires StepsMachine(cfg, w, w', tid, r, after)
    requires after == Taken(w, r) || (after == Finished && UsesOf(r.actions) == [])
    ensures Inv(cfg, w')
  {
    hide Inv, IsRun, IsStep, UsesOf, SendsOf, Uses, StateAfter;
    TaskOf(cfg, w, tid);
    AppendStep(cfg, w.history, r);
    LocalMoveKeepsInv(cfg, w, w', tid);
  }

  lemma SpawnKeepsInv(cfg: Config, defaultAddress: string, w: World, w': World, tid: nat, child: nat)
    requires Inv(cfg, w) && tid in w.tasks && Spawns(defaultAddress, w, w', tid, child)
    ensures Inv(cfg, w')
  {
    hide Inv, IsRun, Uses, Target;
    TaskOf(cfg, w, tid);
    LocalMoveKeepsInv(cfg, w, w', tid);
  }

  lemma WorkKeepsInv(cfg: Config, w: World, w': World, tid: nat)
    requires Inv(cfg, w) && tid in w.tasks && Works(w, w', tid)
    ensures Inv(cfg, w')
  {
    hide Inv, IsRun, Uses, IsOlder;
    TaskOf(cfg, w, tid);
    if w.tasks[tid].Swapping? {
      OlderIsLower(cfg, w, w.tasks[tid].p, w.tasks[tid].seen);
      SeenIsOld(w, |Published(w)|, w.tasks[tid]);
    }
    LocalMoveKeepsInv(cfg, w, w', tid);
  }

  /** What a task has seen in the cell is no newer than what is there now. */
  lemma SeenIsOld(w: World, n: nat, task: Task)
    requires CellInv(w, n) && TaskInv(w, n, task) && task.Swapping?
    ensures task.p < n && task.p !in w.installs
    ensures task.seen.Some? ==>
              w.cell.Some? && task.seen.value <= w.cell.value && task.seen.value != task.p && task.seen.value < n
    ensures w.cell.Some? ==> w.cell.value != task.p
  {
  }

  lemma InitialInv(cfg: Config, w: World)
    requires cfg.Positive() && Initial(w)
    ensures Inv(cfg, w)
  {
  }

  lemma MoveKeepsInv(cfg: Config, defaultAddress: string, w: World, w': World, move: Move)
    requires Inv(cfg, w) && Makes(cfg, defaultAddress, w, w', move)
    ensures Inv(cfg, w')
  {
    hide Inv, Works, Spawns, Taken, IsStep;
    match move
    case Tick(r) => MachineStepKeepsInv(cfg, w, w', LOOP, r, Taken(w, r));
    case Shutdown(r) =>
      CancelledStep(cfg, r);
      MachineStepKeepsInv(cfg, w, w', LOOP, r, Finished);
    case Return(tid, r) => MachineStepKeepsInv(cfg, w, w', tid, r, Taken(w, r));
    case Work(tid) => WorkKeepsInv(cfg, w, w', tid);
    case Spawn(tid, child) => SpawnKeepsInv(cfg, defaultAddress, w, w', tid, child);
  }

  lemma {:induction false} InvHolds(cfg: Config, defaultAddress: string, worlds: seq<World>, moves: seq<Move>, i: nat)
    requires IsExecution(cfg, defaultAddress, worlds, moves) && i < |worlds|
    ensures Inv(cfg, worlds[i])
    decreases i
  {
    hide Inv, Makes;
    if i == 0 {
      InitialInv(cfg, worlds[0]);
    } else {
      InvHolds(cfg, defaultAddress, worlds, moves, i - 1);
      assert Makes(cfg, defaultAddress, worlds[i - 1], worlds[i - 1 + 1], moves[i - 1]);
      MoveKeepsInv(cfg, defaultAddress, worlds[i - 1], worlds[i], moves[i - 1]);
    }
  }

  // ---------------------------------------------------------------------------
  // What readers can rely on
  // ---------------------------------------------------------------------------

  /** What a reader loads. */
  ghost function Current(w: World): Option<Assignment>
  {
    if w.cell.Some? && w.cell.value < |Published(w)| then Some(Published(w)[w.cell.value]) else None
  }

  /** Nothing is taken back. */
  ghost predicate Forward(w: World, w': World)
  {
    Published(w) <= Published(w') && w.installs <= w'.installs && w.notes <= w'.notes && (w.ready ==> w'.ready)
  }

  lemma MoveIsForward(cfg: Config, defaultAddress: string, w: World, w': World, move: Move)
    requires IsRun(cfg, w.history) && Makes(cfg, defaultAddress, w, w', move)
    ensures Forward(w, w')
  {
    hide IsRun, IsStep, Uses, UsesOf, SendsOf, StateAfter, IsOlder, Target;
    if move.Tick? || move.Shutdown? || move.Return? {
      AppendStep(cfg, w.history, move.step);
    }
  }

  lemma {:induction false} ExecutionIsForward(cfg: Config, defaultAddress: string, worlds: seq<World>,
                                              moves: seq<Move>, i: nat, j: nat)
    requires IsExecution(cfg, defaultAddress, worlds, moves) && i <= j < |worlds|
    ensures Forward(worlds[i], worlds[j])
    decreases j
  {
    hide Inv, Makes, Published;
    if i < j {
      ExecutionIsForward(cfg, defaultAddress, worlds, moves, i, j - 1);
      InvHolds(cfg, defaultAddress, worlds, moves, j - 1);
      HistoryIsRun(cfg, worlds[j - 1]);
      assert Makes(cfg, defaultAddress, worlds[j - 1], worlds[j - 1 + 1], moves[j - 1]);
      MoveIsForward(cfg, defaultAddress, worlds[j - 1], worlds[j], moves[j - 1]);
    }
  }

  lemma HistoryIsRun(cfg: Config, w: World)
    requires Inv(cfg, w)
    ensures IsRun(cfg, w.history) && CellInv(w, |Published(w)|) && Increasing(Published(w))
  {
    hide IsRun, CellInv, TasksInv, PointersInv, NotesInv, Increasing, EachBuilt;
    UsesIncrease(cfg, w.history);
  }

  /** Over any interleaving, a reader who looks twice sees the same assignment or a newer one, never
      an older one and never none after some. */
  lemma CellNeverGoesBack(cfg: Config, defaultAddress: string, worlds: seq<World>, moves: seq<Move>, i: nat, j: nat)
    requires IsExecution(cfg, defaultAddress, worlds, moves) && i <= j < |worlds|
    requires Current(worlds[i]).Some?
    ensures var a, b := Current(worlds[i]), Current(worlds[j]);
            b.Some? && (b == a || a.value.generation.Before(b.value.generation))
  {
    hide IsExecution, Inv, IsRun, Published;
    InvHolds(cfg, defaultAddress, worlds, moves, i);
    InvHolds(cfg, defaultAddress, worlds, moves, j);
    HistoryIsRun(cfg, worlds[i]);
    HistoryIsRun(cfg, worlds[j]);
    ExecutionIsForward(cfg, defaultAddress, worlds, moves, i, j);
  }

  /** Every swap that succeeds puts a newer assignment in place: no two installs are the same, and
      none is older than one before it. */
  lemma InstallsIncrease(cfg: Config, defaultAddress: string, worlds: seq<World>, moves: seq<Move>, k: nat, i: nat,
                         j: nat)
    requires IsExecution(cfg, defaultAddress, worlds, moves) && k < |worlds| && i < j < |worlds[k].installs|
    ensures var w := worlds[k];
            && w.installs[i] < |Published(w)| && w.installs[j] < |Published(w)|
            && Published(w)[w.installs[i]].generation.Before(Published(w)[w.installs[j]].generation)
  {
    hide IsExecution, Inv, IsRun, Published;
    InvHolds(cfg, defaultAddress, worlds, moves, k);
    HistoryIsRun(cfg, worlds[k]);
  }

  /** Once no task has a pointer on its way to the cell, the cell holds exactly the machine's current
      assignment: late and overtaken publications have done no harm. */
  lemma SettledCellIsCurrent(cfg: Config, defaultAddress: string, worlds: seq<World>, moves: seq<Move>, i: nat)
    requires IsExecution(cfg, defaultAddress, worlds, moves) && i < |worlds|
    requires forall p: nat :: !IsPending(worlds[i], p)
    ensures Current(worlds[i]) == StateAfter(cfg, worlds[i].history).assignment
  {
    hide IsExecution, IsRun, IsPending, TasksInv, NotesInv, Uses, StateAfter, EachBuilt, Increasing;
    InvHolds(cfg, defaultAddress, worlds, moves, i);
    UsesIncrease(cfg, worlds[i].history);
    var n := |Published(worlds[i])|;
    if n > 0 {
      assert !IsPending(worlds[i], n - 1);
    }
  }

  /** Once the ready channel is closed, every reader finds an assignment, forever. */
  lemma ReadyMeansLoaded(cfg: Config, defaultAddress: string, worlds: seq<World>, moves: seq<Move>, i: nat, j: nat)
    requires IsExecution(cfg, defaultAddress, worlds, moves) && i <= j < |worlds|
    requires worlds[i].ready
    ensures worlds[j].ready && Current(worlds[j]).Some?
  {
    hide IsExecution, Inv, IsRun, Published;
    InvHolds(cfg, defaultAddress, worlds, moves, j);
    HistoryIsRun(cfg, worlds[j]);
    ExecutionIsForward(cfg, defaultAddress, worlds, moves, i, j);
  }

  /** Each install is announced exactly once, by the task that made it, and nothing else is. */
  lemma InstallsAreAnnouncedOnce(cfg: Config, defaultAddress: string, worlds: seq<World>, moves: seq<Move>, i: nat)
    requires IsExecution(cfg, defaultAddress, worlds, moves) && i < |worlds|
    ensures NoDuplicates(worlds[i].notes)
    ensures forall p :: p in worlds[i].notes ==> p in worlds[i].installs
    ensures forall p :: p in worlds[i].installs ==> p in worlds[i].notes || IsUnannounced(worlds[i], p)
  {
    hide IsExecution, IsRun, IsUnannounced, TasksInv, PointersInv, CellInv;
    InvHolds(cfg, defaultAddress, worlds, moves, i);
  }

  // ---------------------------------------------------------------------------
  // Swaps that fail
  // ---------------------------------------------------------------------------

  /** This move is the failing swap of pointer p. */
  ghost predicate FailsToSwap(w: World, w': World, move: Move, p: nat)
  {
    && move.Work? && move.tid in w.tasks && w.tasks[move.tid].Swapping? && w.tasks[move.tid].p == p
    && move.tid in w'.tasks && w'.tasks[move.tid].Loading?
  }

  /** The failing swaps of pointer p among the first k moves. */
  ghost function Failures(worlds: seq<World>, moves: seq<Move>, p: nat, k: nat): nat
    requires k <= |moves| && |worlds| == |moves| + 1
  {
    if k == 0 then 0
    else Failures(worlds, moves, p, k - 1) + if FailsToSwap(worlds[k - 1], worlds[k], moves[k - 1], p) then 1 else 0
  }

  /** A task that has loaded the cell has failed no more often than the cell had been set by then. */
  ghost predicate Paid(w: World, task: Task, failures: nat)
  {
    match task
    case Handling(_, _) => failures == 0
    case Swapping(_, seen, _) =>
      failures <= |w.installs|
        && (failures > 0 ==> seen.Some? && exists r :: failures - 1 <= r < |w.installs| && w.installs[r] == seen.value)
    case _ => failures <= |w.installs|
  }

  ghost predicate FailuresInv(w: World, p: nat, failures: nat)
  {
    && failures <= |w.installs|
    && (p >= |Published(w)| ==> failures == 0)
    && forall tid :: tid in w.tasks && Pending(w.tasks[tid]) == Some(p) ==> Paid(w, w.tasks[tid], failures)
  }

  /** A pointer is published with no failure, and only its own task's failing swap adds one. */
  lemma StepKeepsFailuresInv(cfg: Config, w: World, w': World, tid: nat, r: Record, after: Task, p: nat, failures: nat)
    requires IsRun(cfg, w.history) && tid in w.tasks && StepsMachine(cfg, w, w', tid, r, after)
    requires after == Taken(w, r) || after == Finished
    requires FailuresInv(w, p, failures)
    ensures FailuresInv(w', p, failures)
  {
    hide IsRun, IsStep, Uses, UsesOf, SendsOf, StateAfter;
    AppendStep(cfg, w.history, r);
  }

  /** A swap that fails after r installs had been seen means there are more than r by now. */
  lemma SwapIsPaidFor(w: World, n: nat, task: Task, failures: nat)
    requires CellInv(w, n) && TaskInv(w, n, task) && task.Swapping? && Paid(w, task, failures) && w.cell != task.seen
    ensures failures + 1 <= |w.installs|
  {
  }

  lemma StillPaid(w: World, w': World, task: Task, failures: nat)
    requires Paid(w, task, failures) && w.installs <= w'.installs
    ensures Paid(w', task, failures)
  {
    if task.Swapping? && failures > 0 {
      var r :| failures - 1 <= r < |w.installs| && w.installs[r] == task.seen.value;
      assert w'.installs[r] == task.seen.value;
    }
  }

  lemma LoadIsPaid(w: World, n: nat, p: nat, send: Option<Action>, failures: nat)
    requires CellInv(w, n) && failures <= |w.installs|
    ensures Paid(w, Swapping(p, w.cell, send), failures)
  {
    if failures > 0 {
      assert w.installs[|w.installs| - 1] == w.cell.value;
    }
  }

  lemma WorkKeepsFailuresInv(w: World, w': World, tid: nat, p: nat, failures: nat)
    requires tid in w.tasks && Works(w, w', tid) && CellInv(w, |Published(w)|) && TasksInv(w, |Published(w)|)
    requires FailuresInv(w, p, failures)
    ensures FailuresInv(w', p, failures + if FailsToSwap(w, w', Work(tid), p) then 1 else 0)
  {
    hide Uses, IsOlder, Ascending;
    var task := w.tasks[tid];
    assert TaskInv(w, |Published(w)|, task);
    if FailsToSwap(w, w', Work(tid), p) {
      SwapIsPaidFor(w, |Published(w)|, task, failures);
    } else if task.Loading? {
      LoadIsPaid(w, |Published(w)|, task.p, task.send, failures);
    }
    forall other | other in w'.tasks && other != tid && Pending(w'.tasks[other]) == Some(p)
      ensures Paid(w', w'.tasks[other], failures) && !FailsToSwap(w, w', Work(tid), p)
    {
      assert other in w.tasks && Apart(w.tasks[tid], w.tasks[other]);
      StillPaid(w, w', w.tasks[other], failures);
    }
  }

  lemma SpawnKeepsFailuresInv(defaultAddress: string, w: World, w': World, tid: nat, child: nat, p: nat, failures: nat)
    requires tid in w.tasks && Spawns(defaultAddress, w, w', tid, child) && FailuresInv(w, p, failures)
    ensures FailuresInv(w', p, failures)
  {
    hide Uses, Target;
    forall other | other in w'.tasks && Pending(w'.tasks[other]) == Some(p)
      ensures Paid(w', w'.tasks[other], failures)
    {
      StillPaid(w, w', w.tasks[other], failures);
    }
  }

  lemma MoveKeepsFailuresInv(cfg: Config, defaultAddress: string, w: World, w': World, move: Move, p: nat,
                             failures: nat)
    requires Inv(cfg, w) && Makes(cfg, defaultAddress, w, w', move) && FailuresInv(w, p, failures)
    ensures FailuresInv(w', p, failures + if FailsToSwap(w, w', move, p) then 1 else 0)
  {
    hide IsRun, Published, FailuresInv, PointersInv, NotesInv, TasksInv, CellInv, Works, Spawns, Taken, IsStep;
    hide StateAfter;
    match move
    case Tick(r) => StepKeepsFailuresInv(cfg, w, w', LOOP, r, Taken(w, r), p, failures);
    case Shutdown(r) => StepKeepsFailuresInv(cfg, w, w', LOOP, r, Finished, p, failures);
    case Return(tid, r) => StepKeepsFailuresInv(cfg, w, w', tid, r, Taken(w, r), p, failures);
    case Work(tid) => WorkKeepsFailuresInv(w, w', tid, p, failures);
    case Spawn(tid, child) => SpawnKeepsFailuresInv(defaultAddress, w, w', tid, child, p, failures);
  }

  /** Publication is lock-free: a task's swap fails only because another one succeeded since it
      loaded the cell, so no pointer fails more often than assignments have been installed. */
  lemma {:induction false} FailedSwapsArePaidFor(cfg: Config, defaultAddress: string, worlds: seq<World>,
                                                 moves: seq<Move>, p: nat, k: nat)
    requires IsExecution(cfg, defaultAddress, worlds, moves) && k <= |moves|
    ensures FailuresInv(worlds[k], p, Failures(worlds, moves, p, k))
    ensures Failures(worlds, moves, p, k) <= |worlds[k].installs|
    decreases k
  {
    hide Inv, Makes, FailsToSwap;
    if k > 0 {
      FailedSwapsArePaidFor(cfg, defaultAddress, worlds, moves, p, k - 1);
      InvHolds(cfg, defaultAddress, worlds, moves, k - 1);
      assert Makes(cfg, defaultAddress, worlds[k - 1], worlds[k - 1 + 1], moves[k - 1]);
      MoveKeepsFailuresInv(cfg, defaultAddress, worlds[k - 1], worlds[k], moves[k - 1], p,
                           Failures(worlds, moves, p, k - 1));
    }
  }
}
