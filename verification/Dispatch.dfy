/**
 Operations and goroutines. Every operation the machine sends is carried by one task until it is
 answered, and is answered at most once.
 */
module Dispatch {
  import opened Wrappers
  import opened Assignments
  import opened SyncMachine
  import opened SyncSteps
  import opened SyncRuns
  import opened Driver

  /** The operation a step answers, stale or not, cancelled or not. */
  function AnsweredBy(r: Record): Option<int>
  {
    match r.input.event
    case Some(ReadSuccess(_, opID, _)) => Some(opID)
    case Some(ReadFailure(opID)) => Some(opID)
    case _ => None
  }

  /** The operations answered, in order. */
  ghost function Answered(t: Trace): seq<int>
  {
    if t == [] then []
    else
      var op := AnsweredBy(Last(t));
      Answered(Before(t)) + if op.Some? then [op.value] else []
  }

  function OperationOf(send: Option<Action>): Option<int>
  {
    if send.Some? && send.value.SendRequest? then Some(send.value.opID) else None
  }

  /** The operation a task has still to dispatch, or is waiting for. */
  function Carries(task: Task): Option<int>
  {
    match task
    case Handling(_, send) => OperationOf(send)
    case Loading(_, send) => OperationOf(send)
    case Swapping(_, _, send) => OperationOf(send)
    case Notifying(_, send) => OperationOf(send)
    case Opening(send) => OperationOf(send)
    case Awaiting(opID, _) => Some(opID)
    case _ => None
  }

  ghost predicate IsCarried(w: World, op: int)
  {
    exists tid :: tid in w.tasks && Carries(w.tasks[tid]) == Some(op)
  }

  /** No two tasks carry the same operation. */
  ghost predicate CarriedOnce(w: World)
  {
    forall a, b :: a in w.tasks && b in w.tasks && a != b && Carries(w.tasks[a]).Some? ==>
      Carries(w.tasks[a]) != Carries(w.tasks[b])
  }

  /** The operations up to `last` are those carried and those answered, and none is both. */
  ghost predicate Accounted(w: World, answered: seq<int>, last: int)
  {
    && NoDuplicates(answered)
    && (forall op :: op in answered ==> 1 <= op <= last && !IsCarried(w, op))
    && (forall op :: IsCarried(w, op) ==> 1 <= op <= last)
    && (forall op :: 1 <= op <= last ==> op in answered || IsCarried(w, op))
  }

  ghost predicate OperationsInv(cfg: Config, w: World)
  {
    CarriedOnce(w) && Accounted(w, Answered(w.history), StateAfter(cfg, w.history).lastOpID)
  }

  // ---------------------------------------------------------------------------
  // Every move keeps it
  // ---------------------------------------------------------------------------

  lemma SendsNextOperation(cfg: Config, r: Record)
    requires IsStep(cfg, r)
    ensures SendsOf(r.actions) == [] ==> r.post.lastOpID == r.pre.lastOpID
    ensures SendsOf(r.actions) != [] ==>
              SendsOf(r.actions)[0].SendRequest?
              && SendsOf(r.actions)[0].opID == r.post.lastOpID == r.pre.lastOpID + 1
  {
    hide IsStep, DataStep, SendsOf, JitteredDelay, NextWait;
    StepSplits(cfg, r);
  }

  lemma AnswersAppend(t: Trace, r: Record)
    ensures Answered(t + [r]) == Answered(t) + if AnsweredBy(r).Some? then [AnsweredBy(r).value] else []
  {
    assert Before(t + [r]) == t;
  }

  /** One task hands on what it carries: it answers its operation and takes on the next one, if any. */
  ghost predicate HandsOn(w: World, w': World, tid: nat, answered: seq<int>, answered': seq<int>, last: int, last': int)
  {
    && tid in w.tasks && tid in w'.tasks && w'.tasks == w.tasks[tid := w'.tasks[tid]]
    && var op, next := Carries(w.tasks[tid]), Carries(w'.tasks[tid]);
       answered' == answered + (if op.Some? then [op.value] else [])
       && ((last' == last && next.None?) || (last' == last + 1 && next == Some(last')))
  }

  /** Afterwards the operations carried are those carried before, less the one answered, and the next. */
  lemma CarriedAfterwards(w: World, w': World, tid: nat, answered: seq<int>, answered': seq<int>, last: int, last': int)
    requires CarriedOnce(w) && HandsOn(w, w', tid, answered, answered', last, last')
    ensures forall p :: IsCarried(w', p) <==>
              Some(p) == Carries(w'.tasks[tid]) || (IsCarried(w, p) && Some(p) != Carries(w.tasks[tid]))
  {
    hide Carries;
    var op := Carries(w.tasks[tid]);
    forall p
      ensures IsCarried(w, p) && Some(p) != op ==> IsCarried(w', p)
      ensures IsCarried(w', p) ==> Some(p) == Carries(w'.tasks[tid]) || (IsCarried(w, p) && Some(p) != op)
    {
      if IsCarried(w, p) && Some(p) != op {
        var holder :| holder in w.tasks && Carries(w.tasks[holder]) == Some(p);
        assert holder in w'.tasks && Carries(w'.tasks[holder]) == Some(p);
      }
      if IsCarried(w', p) {
        var holder :| holder in w'.tasks && Carries(w'.tasks[holder]) == Some(p);
        assert holder != tid ==> holder in w.tasks && Carries(w.tasks[holder]) == Some(p);
      }
    }
  }

  lemma HandingOnKeepsAccount(w: World, w': World, tid: nat, answered: seq<int>, answered': seq<int>,
                              last: int, last': int)
    requires CarriedOnce(w) && Accounted(w, answered, last) && last >= 0
    requires HandsOn(w, w', tid, answered, answered', last, last')
    ensures Accounted(w', answered', last')
  {
    hide Carries, IsCarried, CarriedOnce;
    CarriedAfterwards(w, w', tid, answered, answered', last, last');
    OwnIsCarried(w, tid);
  }

  lemma OwnIsCarried(w: World, tid: nat)
    requires tid in w.tasks
    ensures Carries(w.tasks[tid]).Some? ==> IsCarried(w, Carries(w.tasks[tid]).value)
  {
  }

  lemma HandingOnKeepsOwners(w: World, w': World, tid: nat, answered: seq<int>, answered': seq<int>,
                              last: int, last': int)
    requires CarriedOnce(w) && Accounted(w, answered, last)
    requires HandsOn(w, w', tid, answered, answered', last, last')
    ensures CarriedOnce(w')
  {
    hide Carries;
    forall other | other in w.tasks && other != tid && Carries(w.tasks[other]).Some?
      ensures Carries(w.tasks[other]).value <= last
    {
      OwnIsCarried(w, other);
    }
  }

  /** A move that changes who carries an operation, but not which are carried. */
  lemma CarriedAlike(w: World, w': World, answered: seq<int>, last: int)
    requires Accounted(w, answered, last) && forall op :: IsCarried(w, op) <==> IsCarried(w', op)
    ensures Accounted(w', answered, last)
  {
  }

  lemma MachineStepKeepsOperations(cfg: Config, w: World, w': World, tid: nat, r: Record, after: Task)
    requires OperationsInv(cfg, w) && StateAfter(cfg, w.history).lastOpID >= 0 && tid in w.tasks
    requires StepsMachine(cfg, w, w', tid, r, after) && AnsweredBy(r) == Carries(w.tasks[tid])
    requires after == Taken(w, r) || (after == Finished && SendsOf(r.actions) == [])
    ensures OperationsInv(cfg, w')
  {
    hide IsStep, SendsOf, UsesOf, Uses, CarriedOnce, Accounted;
    SendsNextOperation(cfg, r);
    AnswersAppend(w.history, r);
    HandingOnKeepsAccount(w, w', tid, Answered(w.history), Answered(w'.history), r.pre.lastOpID, r.post.lastOpID);
    HandingOnKeepsOwners(w, w', tid, Answered(w.history), Answered(w'.history), r.pre.lastOpID, r.post.lastOpID);
  }

  lemma WorkKeepsOperations(cfg: Config, w: World, w': World, tid: nat)
    requires OperationsInv(cfg, w) && tid in w.tasks && Works(w, w', tid)
    ensures OperationsInv(cfg, w')
  {
    hide IsOlder, Answered, StateAfter, Accounted;
    assert w'.history == w.history && w'.tasks.Keys == w.tasks.Keys;
    assert forall any :: any in w.tasks ==> Carries(w'.tasks[any]) == Carries(w.tasks[any]);
    CarriedAlike(w, w', Answered(w.history), StateAfter(cfg, w.history).lastOpID);
  }

  lemma SpawnKeepsOperations(cfg: Config, defaultAddress: string, w: World, w': World, tid: nat, child: nat)
    requires OperationsInv(cfg, w) && tid in w.tasks && Spawns(defaultAddress, w, w', tid, child)
    ensures OperationsInv(cfg, w')
  {
    hide Target, Answered, StateAfter, Accounted;
    assert Carries(w'.tasks[child]) == Carries(w.tasks[tid]) && Carries(w'.tasks[tid]).None?;
    forall op
      ensures IsCarried(w, op) <==> IsCarried(w', op)
    {
      if IsCarried(w, op) {
        var holder :| holder in w.tasks && Carries(w.tasks[holder]) == Some(op);
        var holder' := if holder == tid then child else holder;
        assert Carries(w'.tasks[holder']) == Some(op);
      }
      if IsCarried(w', op) {
        var holder :| holder in w'.tasks && Carries(w'.tasks[holder]) == Some(op);
        var before := if holder == child then tid else holder;
        assert Carries(w.tasks[before]) == Some(op);
      }
    }
    CarriedAlike(w, w', Answered(w.history), StateAfter(cfg, w.history).lastOpID);
  }

  lemma MoveKeepsOperations(cfg: Config, defaultAddress: string, w: World, w': World, move: Move)
    requires OperationsInv(cfg, w) && IsRun(cfg, w.history) && Makes(cfg, defaultAddress, w, w', move)
    ensures OperationsInv(cfg, w')
  {
    hide OperationsInv, IsRun, IsStep, Works, Spawns, Taken, StateAfter;
    PhasesHold(cfg, w.history);
    match move
    case Tick(r) => MachineStepKeepsOperations(cfg, w, w', LOOP, r, Taken(w, r));
    case Shutdown(r) =>
      CancelledStep(cfg, r);
      MachineStepKeepsOperations(cfg, w, w', LOOP, r, Finished);
    case Return(tid, r) => MachineStepKeepsOperations(cfg, w, w', tid, r, Taken(w, r));
    case Work(tid) => WorkKeepsOperations(cfg, w, w', tid);
    case Spawn(tid, child) => SpawnKeepsOperations(cfg, defaultAddress, w, w', tid, child);
  }

  lemma {:induction false} OperationsAreAccounted(cfg: Config, defaultAddress: string, worlds: seq<World>,
                                                  moves: seq<Move>, i: nat)
    requires IsExecution(cfg, defaultAddress, worlds, moves) && i < |worlds|
    ensures OperationsInv(cfg, worlds[i])
    decreases i
  {
    hide *;
    if i == 0 {
      NothingCarried(cfg, defaultAddress, worlds, moves);
    } else {
      OperationsAreAccounted(cfg, defaultAddress, worlds, moves, i - 1);
      InvHolds(cfg, defaultAddress, worlds, moves, i - 1);
      HistoryIsRun(cfg, worlds[i - 1]);
      MoveIsMade(cfg, defaultAddress, worlds, moves, i);
      MoveKeepsOperations(cfg, defaultAddress, worlds[i - 1], worlds[i], moves[i - 1]);
    }
  }

  lemma NothingCarried(cfg: Config, defaultAddress: string, worlds: seq<World>, moves: seq<Move>)
    requires IsExecution(cfg, defaultAddress, worlds, moves)
    ensures OperationsInv(cfg, worlds[0])
  {
    hide Makes;
  }

  lemma MoveIsMade(cfg: Config, defaultAddress: string, worlds: seq<World>, moves: seq<Move>, i: nat)
    requires IsExecution(cfg, defaultAddress, worlds, moves) && 0 < i < |worlds|
    ensures |worlds| == |moves| + 1 && Makes(cfg, defaultAddress, worlds[i - 1], worlds[i], moves[i - 1])
  {
    assert Makes(cfg, defaultAddress, worlds[i - 1], worlds[i - 1 + 1], moves[i - 1]);
  }

  /** Over every interleaving: the operations requested so far are those one goroutine is to dispatch
      or is waiting for, and those answered; none is both, none is with two goroutines, and none is
      answered twice. */
  lemma EachOperationHasOneGoroutine(cfg: Config, defaultAddress: string, worlds: seq<World>, moves: seq<Move>, i: nat)
    requires IsExecution(cfg, defaultAddress, worlds, moves) && i < |worlds|
    ensures var w := worlds[i];
            && CarriedOnce(w) && NoDuplicates(Answered(w.history))
            && forall op :: (1 <= op <= |Requests(w.history)| <==> op in Answered(w.history) || IsCarried(w, op))
                            && !(op in Answered(w.history) && IsCarried(w, op))
  {
    hide IsExecution, Inv, IsRun, CarriedOnce, StateAfter, Requests;
    OperationsAreAccounted(cfg, defaultAddress, worlds, moves, i);
    InvHolds(cfg, defaultAddress, worlds, moves, i);
    HistoryIsRun(cfg, worlds[i]);
    OperationsAreConserved(cfg, worlds[i].history);
  }

  // ---------------------------------------------------------------------------
  // Where requests go
  // ---------------------------------------------------------------------------

  /** The request that a task has still to dispatch. */
  function Undispatched(task: Task): Option<Action>
  {
    match task
    case Handling(_, send) => send
    case Loading(_, send) => send
    case Swapping(_, _, send) => send
    case Notifying(_, send) => send
    case Opening(send) => send
    case _ => None
  }

  /** Where a request goes: to the address its redirect names, else to the default address. */
  predicate GoesTo(send: Action, opID: int, address: string, defaultAddress: string)
  {
    && send.SendRequest? && send.opID == opID
    && var named := send.redirect.address;
       address == if named == None || named == Some("") then defaultAddress else named.value
  }

  /** Whatever a task has to dispatch was requested, and whatever it waits for went where it should. */
  ghost predicate TaskDials(requests: seq<Action>, task: Task, defaultAddress: string)
  {
    && (Undispatched(task).Some? ==> Undispatched(task).value in requests)
    && (task.Awaiting? ==> exists send :: send in requests && GoesTo(send, task.opID, task.address, defaultAddress))
  }

  ghost predicate TasksDial(w: World, defaultAddress: string)
  {
    forall tid :: tid in w.tasks ==> TaskDials(Requests(w.history), w.tasks[tid], defaultAddress)
  }

  lemma TaskStillDials(requests: seq<Action>, more: seq<Action>, task: Task, defaultAddress: string)
    requires TaskDials(requests, task, defaultAddress)
    ensures TaskDials(requests + more, task, defaultAddress)
  {
    if task.Awaiting? {
      var send :| send in requests && GoesTo(send, task.opID, task.address, defaultAddress);
      assert send in requests + more;
    }
  }

  lemma MachineStepKeepsDials(cfg: Config, defaultAddress: string, w: World, w': World, tid: nat, r: Record,
                              after: Task)
    requires StepsMachine(cfg, w, w', tid, r, after) && TasksDial(w, defaultAddress)
    requires after == Taken(w, r) || after == Finished
    ensures TasksDial(w', defaultAddress)
  {
    hide IsStep, SendsOf, UsesOf, Uses, StateAfter, GoesTo, TaskDials;
    assert Before(w'.history) == w.history;
    forall any | any in w'.tasks
      ensures TaskDials(Requests(w'.history), w'.tasks[any], defaultAddress)
    {
      if any == tid {
        OwnSendIsRequested(w.history, SendsOf(r.actions), after, defaultAddress);
      } else {
        TaskStillDials(Requests(w.history), SendsOf(r.actions), w.tasks[any], defaultAddress);
      }
    }
  }

  lemma OwnSendIsRequested(t: Trace, sends: seq<Action>, after: Task, defaultAddress: string)
    requires !after.Awaiting? && (Undispatched(after).Some? ==> sends != [] && Undispatched(after).value == sends[0])
    ensures TaskDials(Requests(t) + sends, after, defaultAddress)
  {
    hide Requests;
  }

  lemma WorkKeepsDials(defaultAddress: string, w: World, w': World, tid: nat)
    requires tid in w.tasks && Works(w, w', tid) && TasksDial(w, defaultAddress)
    ensures TasksDial(w', defaultAddress)
  {
    hide IsOlder, Requests, GoesTo;
  }

  lemma SpawnKeepsDials(defaultAddress: string, w: World, w': World, tid: nat, child: nat)
    requires tid in w.tasks && Spawns(defaultAddress, w, w', tid, child) && TasksDial(w, defaultAddress)
    ensures TasksDial(w', defaultAddress)
  {
    hide Requests;
    var send := w.tasks[tid].send.value;
    assert TaskDials(Requests(w.history), w.tasks[tid], defaultAddress);
    assert GoesTo(send, send.opID, w'.tasks[child].address, defaultAddress);
  }

  lemma MoveKeepsDials(cfg: Config, defaultAddress: string, w: World, w': World, move: Move)
    requires Makes(cfg, defaultAddress, w, w', move) && TasksDial(w, defaultAddress)
    ensures TasksDial(w', defaultAddress)
  {
    hide TasksDial, StepsMachine, Works, Spawns, Taken;
    match move
    case Tick(r) => MachineStepKeepsDials(cfg, defaultAddress, w, w', LOOP, r, Taken(w, r));
    case Shutdown(r) => MachineStepKeepsDials(cfg, defaultAddress, w, w', LOOP, r, Finished);
    case Return(tid, r) => MachineStepKeepsDials(cfg, defaultAddress, w, w', tid, r, Taken(w, r));
    case Work(tid) => WorkKeepsDials(defaultAddress, w, w', tid);
    case Spawn(tid, child) => SpawnKeepsDials(defaultAddress, w, w', tid, child);
  }

  lemma {:induction false} TasksAlwaysDial(cfg: Config, defaultAddress: string, worlds: seq<World>, moves: seq<Move>,
                                           i: nat)
    requires IsExecution(cfg, defaultAddress, worlds, moves) && i < |worlds|
    ensures TasksDial(worlds[i], defaultAddress)
    decreases i
  {
    hide *;
    if i == 0 {
      NothingDialled(cfg, defaultAddress, worlds, moves);
    } else {
      TasksAlwaysDial(cfg, defaultAddress, worlds, moves, i - 1);
      MoveIsMade(cfg, defaultAddress, worlds, moves, i);
      MoveKeepsDials(cfg, defaultAddress, worlds[i - 1], worlds[i], moves[i - 1]);
    }
  }

  lemma NothingDialled(cfg: Config, defaultAddress: string, worlds: seq<World>, moves: seq<Move>)
    requires IsExecution(cfg, defaultAddress, worlds, moves)
    ensures TasksDial(worlds[0], defaultAddress)
  {
    hide Makes;
  }

  /** The requests so far, by their numbers. */
  lemma RequestNumber(cfg: Config, t: Trace, send: Action)
    requires IsRun(cfg, t) && send in Requests(t)
    ensures send.SendRequest? && 1 <= send.opID <= |Requests(t)| && Requests(t)[send.opID - 1] == send
  {
    hide IsRun, StateAfter, Requests, Retired;
    OperationsAreConserved(cfg, t);
    var i :| 0 <= i < |Requests(t)| && Requests(t)[i] == send;
    assert OpIDs(Requests(t))[i] == i + 1;
  }

  /** In every execution a goroutine that waits for operation n has dialled the address that the
      redirect of the n-th request names, and the default address if that is missing or blank. */
  lemma RequestsGoWhereRedirected(cfg: Config, defaultAddress: string, worlds: seq<World>, moves: seq<Move>,
                                  i: nat, tid: nat)
    requires IsExecution(cfg, defaultAddress, worlds, moves) && i < |worlds|
    requires tid in worlds[i].tasks && worlds[i].tasks[tid].Awaiting?
    ensures var call, requests := worlds[i].tasks[tid], Requests(worlds[i].history);
            && 1 <= call.opID <= |requests|
            && var request := requests[call.opID - 1];
               request.SendRequest?
               && var named := request.redirect.address;
                  call.address == if named == None || named == Some("") then defaultAddress else named.value
  {
    hide IsExecution, Inv, IsRun, Requests;
    var w := worlds[i];
    TasksAlwaysDial(cfg, defaultAddress, worlds, moves, i);
    InvHolds(cfg, defaultAddress, worlds, moves, i);
    HistoryIsRun(cfg, w);
    assert TaskDials(Requests(w.history), w.tasks[tid], defaultAddress);
    var send :| send in Requests(w.history) && GoesTo(send, w.tasks[tid].opID, w.tasks[tid].address, defaultAddress);
    RequestNumber(cfg, w.history, send);
  }
}
