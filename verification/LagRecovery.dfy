/**
 Feeding a server that lags. A request carries the whole assignment only if the redirect in force
 names the server it goes to; the driver's executions say when that is, and that being behind is
 not enough.
 */
module LagRecovery {
  import opened Wrappers
  import opened SliceKeys
  import opened Slices
  import opened Partitions
  import opened SliceMaps
  import opened Generations
  import opened Assignments
  import opened Wire
  import opened Decoding
  import opened Encoding
  import opened RoundTrips
  import opened SyncMachine
  import opened SyncSteps
  import opened SyncRuns
  import opened Driver

  // ---------------------------------------------------------------------------
  // Where answers come from
  // ---------------------------------------------------------------------------

  /** An address that was dialled: blank only if the default address is. */
  predicate Dialled(address: Option<string>, defaultAddress: string)
  {
    address.Some? && (address.value == "" ==> defaultAddress == "")
  }

  /** Every response comes with an address that was dialled. */
  ghost predicate AnswersAreDialled(t: Trace, defaultAddress: string)
  {
    forall i :: 0 <= i < |t| && Response(t[i]).Some? ==> Dialled(t[i].input.event.value.address, defaultAddress)
  }

  ghost predicate CallsAreDialled(w: World, defaultAddress: string)
  {
    forall tid :: tid in w.tasks && w.tasks[tid].Awaiting? ==> Dialled(Some(w.tasks[tid].address), defaultAddress)
  }

  lemma MoveKeepsDialled(cfg: Config, defaultAddress: string, w: World, w': World, move: Move)
    requires Makes(cfg, defaultAddress, w, w', move)
    requires AnswersAreDialled(w.history, defaultAddress) && CallsAreDialled(w, defaultAddress)
    ensures AnswersAreDialled(w'.history, defaultAddress) && CallsAreDialled(w', defaultAddress)
  {
    hide IsStep, UsesOf, SendsOf, Uses, IsOlder, StateAfter;
  }

  /** In every execution every answer comes with the address its call dialled. */
  lemma {:induction false} AnswersComeFromCalls(cfg: Config, defaultAddress: string, worlds: seq<World>,
                                                moves: seq<Move>, i: nat)
    requires IsExecution(cfg, defaultAddress, worlds, moves) && i < |worlds|
    ensures AnswersAreDialled(worlds[i].history, defaultAddress) && CallsAreDialled(worlds[i], defaultAddress)
    decreases i
  {
    hide Makes;
    if i > 0 {
      AnswersComeFromCalls(cfg, defaultAddress, worlds, moves, i - 1);
      assert Makes(cfg, defaultAddress, worlds[i - 1], worlds[i - 1 + 1], moves[i - 1]);
      MoveKeepsDialled(cfg, defaultAddress, worlds[i - 1], worlds[i], moves[i - 1]);
    }
  }

  lemma NewsIsDialled(r: Record, defaultAddress: string)
    requires DataStep(r) && (Response(r).Some? ==> Dialled(r.input.event.value.address, defaultAddress))
    requires r.pre.assignment.Some? ==> Dialled(r.pre.remoteAddress, defaultAddress)
    ensures r.post.assignment.Some? ==> Dialled(r.post.remoteAddress, defaultAddress)
  {
    hide AssignmentStep, SendsOf, UsesOf, GenerationOf, RedirectOf, Retried, RequestState, Dialled;
    AssignmentStepOf(r);
    NoUseNoChange(r);
  }

  lemma NoUseNoChange(r: Record)
    requires DataStep(r)
    ensures UsesOf(r.actions) == [] ==> r.post.assignment == r.pre.assignment
  {
  }

  /** A machine that holds an assignment has heard from some dialled address. */
  lemma {:induction false} PeerIsDialled(cfg: Config, t: Trace, defaultAddress: string)
    requires IsRun(cfg, t) && AnswersAreDialled(t, defaultAddress)
    ensures StateAfter(cfg, t).assignment.Some? ==> Dialled(StateAfter(cfg, t).remoteAddress, defaultAddress)
  {
    hide IsRun, TimingStep, DataStep, Dialled;
    if t != [] {
      LastStep(cfg, t);
      assert Response(t[|t| - 1]).Some? ==> Dialled(t[|t| - 1].input.event.value.address, defaultAddress);
      PeerIsDialled(cfg, Before(t), defaultAddress);
      NewsIsDialled(Last(t), defaultAddress);
    }
  }

  // ---------------------------------------------------------------------------
  // When a server is fed
  // ---------------------------------------------------------------------------

  /** The step of the machine that a move makes, if it makes one. */
  function StepOf(move: Move): Option<Record>
  {
    match move
    case Tick(r) => Some(r)
    case Shutdown(r) => Some(r)
    case Return(_, r) => Some(r)
    case _ => None
  }

  /** The peer last heard from reported an older assignment than the one last put to use. */
  ghost predicate PeerLags(t: Trace)
  {
    LastUse(t).Some? && PeerGeneration(t).Before(LastUse(t).value.generation)
  }

  lemma HistoryGrows(cfg: Config, defaultAddress: string, worlds: seq<World>, moves: seq<Move>, k: nat)
    requires IsExecution(cfg, defaultAddress, worlds, moves) && k < |moves| && StepOf(moves[k]).Some?
    ensures worlds[k + 1].history != [] && Last(worlds[k + 1].history) == StepOf(moves[k]).value
    ensures IsRun(cfg, worlds[k + 1].history) && AnswersAreDialled(worlds[k + 1].history, defaultAddress)
  {
    hide Inv, IsRun, IsStep, StateAfter, Taken, AnswersAreDialled, AnswerTo;
    assert Makes(cfg, defaultAddress, worlds[k], worlds[k + 1], moves[k]);
    InvHolds(cfg, defaultAddress, worlds, moves, k + 1);
    HistoryIsRun(cfg, worlds[k + 1]);
    AnswersComeFromCalls(cfg, defaultAddress, worlds, moves, k + 1);
  }

  /** In every run whose answers come from dialled addresses. */
  lemma RunFeedsIffRedirectNamesIt(cfg: Config, t: Trace, defaultAddress: string, i: nat)
    requires IsRun(cfg, t) && AnswersAreDialled(t, defaultAddress) && t != [] && i < |SendsOf(Last(t).actions)|
    ensures var send := SendsOf(Last(t).actions)[i];
            && send.SendRequest?
            && var server := Some(Target(send.redirect, defaultAddress));
               send.syncState.SendAssignment? <==>
               PeerAddress(t) == server && PeerLags(t) && send.redirect.address == server
  {
    hide IsRun, AnswersAreDialled, Increasing, EachBuilt, RedirectInForce, LastUse, SendsOf;
    hide PeerAddress, PeerGeneration;
    RequestsSpeakForHistory(cfg, t, i);
    PeerIsDialled(cfg, t, defaultAddress);
    HistoryIsInState(cfg, t);
    UsesIncrease(cfg, t);
  }

  /** Whatever comes before, in any interleaving: a request carries the whole assignment exactly if
      the server it goes to is the peer last heard from, that peer lags, and the redirect in force
      names it. For the server at the default address this says that it is fed if and only if a
      redirect names the default address; a blank redirect, which leads there too, is not enough. */
  lemma ServerIsFedIffRedirectNamesIt(cfg: Config, defaultAddress: string, worlds: seq<World>, moves: seq<Move>,
                                      k: nat, i: nat)
    requires IsExecution(cfg, defaultAddress, worlds, moves) && k < |moves|
    requires StepOf(moves[k]).Some? && i < |SendsOf(StepOf(moves[k]).value.actions)|
    ensures var t, send := worlds[k + 1].history, SendsOf(StepOf(moves[k]).value.actions)[i];
            && send.SendRequest?
            && var server := Some(Target(send.redirect, defaultAddress));
               send.syncState.SendAssignment? <==>
               PeerAddress(t) == server && PeerLags(t) && send.redirect.address == server
  {
    var t := worlds[k + 1].history;
    HistoryGrows(cfg, defaultAddress, worlds, moves, k);
    hide IsExecution, IsRun, AnswersAreDialled, SendsOf, PeerAddress, PeerLags;
    RunFeedsIffRedirectNamesIt(cfg, t, defaultAddress, i);
  }

  /** A request that goes to the default server for want of a redirect to it is never fed. */
  lemma UnredirectedServerIsNotFed(cfg: Config, defaultAddress: string, worlds: seq<World>, moves: seq<Move>, k: nat,
                                   i: nat)
    requires IsExecution(cfg, defaultAddress, worlds, moves) && k < |moves|
    requires StepOf(moves[k]).Some? && i < |SendsOf(StepOf(moves[k]).value.actions)|
    requires var send := SendsOf(StepOf(moves[k]).value.actions)[i];
             send.SendRequest? && Target(send.redirect, defaultAddress) == defaultAddress
             && send.redirect.address != Some(defaultAddress)
    ensures var send := SendsOf(StepOf(moves[k]).value.actions)[i]; send.SendRequest? && send.syncState.SendGeneration?
  {
    hide IsExecution, SendsOf, PeerAddress, PeerLags;
    ServerIsFedIffRedirectNamesIt(cfg, defaultAddress, worlds, moves, k, i);
  }

  /** What a server is fed is what the machine holds: in every run, whatever message encodes the
      assignment that a request carries decodes, at the other end, to that assignment. */
  lemma FedAssignmentArrives(cfg: Config, t: Trace, i: nat, a: Assignment, p: DiffAssignmentP)
    requires IsRun(cfg, t) && t != [] && i < |SendsOf(Last(t).actions)|
    requires SendsOf(Last(t).actions)[i].SendRequest? && SendsOf(Last(t).actions)[i].syncState == SendAssignment(a)
    requires IsEncoding(p, a)
    ensures LastUse(t) == Some(a) && Decode(Some(p)) == Done(a)
  {
    hide IsRun, BuiltAssignment, Decode, SendsOf, Uses, IsEncoding, WasDecoded, Increasing;
    hide PeerAddress, PeerGeneration, RedirectInForce;
    RequestsSpeakForHistory(cfg, t, i);
    UsesIncrease(cfg, t);
    DecodedGoesBack(p, a);
  }

  // ---------------------------------------------------------------------------
  // Both happen
  // ---------------------------------------------------------------------------

  /** The answer of a server that has no assignment yet. */
  function EmptyHanded(redirect: Option<RedirectP>): ClientResponseP
  {
    ClientResponseP(KnownGeneration(None), 0, redirect)
  }

  function AnswerInput(now: int, address: string, opID: int, response: ClientResponseP): Input
  {
    Input(now, Some(ReadSuccess(Some(address), opID, Some(response))), 0.0)
  }

  /** The outstanding read is answered by a server without an assignment; a new read goes out. */
  lemma EmptyHandedAnswer(cfg: Config, s: State, now: nat, server: string, redirect: Option<RedirectP>)
    returns (r: Record)
    requires !s.isCancelled && s.latestReadState.Some? && s.assignment.Some? && !s.assignment.value.generation.IsEmpty()
    ensures r.pre == s && r.input == AnswerInput(now, server, s.latestReadState.value.opID, EmptyHanded(redirect))
    ensures IsStep(cfg, r) && r.post.assignment == s.assignment && Succeeded(r) && !Retried(r)
    ensures |SendsOf(r.actions)| == 1 && SendsOf(r.actions)[0].SendRequest?
    ensures var send := SendsOf(r.actions)[0];
            && send.redirect == RedirectFrom(redirect)
            && (send.syncState.SendAssignment? <==> send.redirect.address == Some(server))
  {
    var input := AnswerInput(now, server, s.latestReadState.value.opID, EmptyHanded(redirect));
    var (post, actions) := Step(cfg, s, input.now, input.event, input.random);
    r := Record(s, input, post, actions);
    SplitActions([], actions);
  }

  lemma ExecutionGrows(cfg: Config, defaultAddress: string, worlds: seq<World>, moves: seq<Move>, w: World, move: Move)
    requires IsExecution(cfg, defaultAddress, worlds, moves) && Makes(cfg, defaultAddress, worlds[|moves|], w, move)
    ensures IsExecution(cfg, defaultAddress, worlds + [w], moves + [move])
  {
    hide Makes;
    forall i | 0 <= i < |moves + [move]|
      ensures Makes(cfg, defaultAddress, (worlds + [w])[i], (worlds + [w])[i + 1], (moves + [move])[i])
    {
      assert i < |moves| ==> Makes(cfg, defaultAddress, worlds[i], worlds[i + 1], moves[i]);
    }
  }

  /** A call to the default server answers the outstanding read of a live machine that holds an
      assignment. */
  ghost predicate DefaultServerIsAsked(cfg: Config, defaultAddress: string, w: World, tid: nat)
  {
    var s := StateAfter(cfg, w.history);
    && !s.isCancelled && s.assignment.Some? && s.latestReadState.Some?
    && tid in w.tasks && w.tasks[tid] == Awaiting(s.latestReadState.value.opID, defaultAddress)
  }

  /** Whenever the default server is asked, it can turn out to lag, whatever the clock shows; then the
      next request goes to it, and is fed if the answer redirects to the default address and not if it
      does not redirect. */
  lemma LaggingDefaultServer(cfg: Config, defaultAddress: string, worlds: seq<World>, moves: seq<Move>, tid: nat,
                             now: nat, named: bool)
    returns (w: World, r: Record)
    requires IsExecution(cfg, defaultAddress, worlds, moves)
    requires DefaultServerIsAsked(cfg, defaultAddress, worlds[|moves|], tid)
    ensures IsExecution(cfg, defaultAddress, worlds + [w], moves + [Return(tid, r)]) && r.input.now == now
    ensures PeerAddress(w.history) == Some(defaultAddress) && PeerLags(w.history)
    ensures |SendsOf(r.actions)| == 1 && SendsOf(r.actions)[0].SendRequest?
    ensures var send := SendsOf(r.actions)[0];
            && Target(send.redirect, defaultAddress) == defaultAddress
            && (send.syncState.SendAssignment? <==> named)
  {
    var before := worlds[|moves|];
    var s := StateAfter(cfg, before.history);
    assert |worlds| == |moves| + 1;
    InvHolds(cfg, defaultAddress, worlds, moves, |moves|);
    HistoryIsRun(cfg, before);
    HeldIsNotEmpty(cfg, before.history);
    r := EmptyHandedAnswer(cfg, s, now, defaultAddress, if named then Some(RedirectP(defaultAddress, [])) else None);
    w := before.(history := before.history + [r], tasks := before.tasks[tid := Taken(before, r)]);
    hide IsExecution, IsStep, Taken, SendsOf, StateAfter, Inv, Succeeded, Retried, Step;
    CallReturns(cfg, defaultAddress, before, w, tid, r);
    hide Makes;
    ExecutionGrows(cfg, defaultAddress, worlds, moves, w, Return(tid, r));
    EmptyHandedPeerLags(cfg, before.history, r, defaultAddress);
  }

  lemma CallReturns(cfg: Config, defaultAddress: string, w: World, w': World, tid: nat, r: Record)
    requires tid in w.tasks && AnswerTo(r.input.event, w.tasks[tid])
    requires r.pre == StateAfter(cfg, w.history) && IsStep(cfg, r)
    requires w' == w.(history := w.history + [r], tasks := w.tasks[tid := Taken(w, r)])
    ensures Makes(cfg, defaultAddress, w, w', Return(tid, r))
  {
    hide IsStep, Taken, StateAfter, AnswerTo;
  }

  lemma HeldIsNotEmpty(cfg: Config, t: Trace)
    requires IsRun(cfg, t) && StateAfter(cfg, t).assignment.Some?
    ensures !StateAfter(cfg, t).assignment.value.generation.IsEmpty()
  {
    hide IsRun, StateAfter, Uses;
    UsesIncrease(cfg, t);
    assert BuiltAssignment(Uses(t)[|Uses(t)| - 1]);
  }

  lemma EmptyHandedPeerLags(cfg: Config, t: Trace, r: Record, server: string)
    requires IsRun(cfg, t) && IsStep(cfg, r) && r.pre == StateAfter(cfg, t)
    requires r.post.assignment == r.pre.assignment && r.pre.assignment.Some? && Succeeded(r)
    requires exists redirect :: r.input.event.value.response == Some(EmptyHanded(redirect))
    requires r.input.event.value.address == Some(server)
    requires !r.pre.assignment.value.generation.IsEmpty()
    ensures PeerAddress(t + [r]) == Some(server) && PeerLags(t + [r])
  {
    hide IsRun, IsStep, Uses;
    RunGrows(cfg, t, r);
    UsesIncrease(cfg, t + [r]);
    assert Last(t + [r]) == r && Heard(r);
  }

  // ---------------------------------------------------------------------------
  // An execution in which the default server is asked
  // ---------------------------------------------------------------------------

  /** One server for all keys, at generation 1. */
  const FIRST_MESSAGE := DiffAssignmentP(
    Some(GenerationP(0, 1)),
    [SliceAssignmentP(Some(SliceP([], None, true)), Some(GenerationP(0, 1)), [0], [], None)],
    [Some(SquidP("server", 0, 0, 0))],
    false)

  lemma FirstMessageDecodes()
    ensures Decode(Some(FIRST_MESSAGE)).Done?
  {
    var squid := FIRST_MESSAGE.resources[0];
    var sap := FIRST_MESSAGE.sliceAssignments[0];
    var pool := [SquidFromProto(squid).value];
    assert DecodePool([], [squid]) == Done([] + pool);
    assert DecodeIndices([], sap.resourceIndices, pool) == Done([] + pool);
    var sa := DecodeSliceAssignment(sap, pool);
    assert sa.Done?;
    assert DecodeSlices([], [sap], pool) == Done([sa.value]) by {
      assert [sap][1..] == [] && [] + [sa.value] == [sa.value];
    }
    var slices := SlicesOf([sa.value], SliceOf);
    assert Complete(slices) by {
      assert slices[0] == Slice([], Infinity) && CompleteFrom(Infinity, slices[1..]);
    }
    assert FIRST_MESSAGE.resources == [squid] && FIRST_MESSAGE.sliceAssignments == [sap];
    assert AcceptableAssignment(Generation(0, 1), [sa.value]);
  }

  /** The first read goes out to the default server. */
  lemma FirstRead(cfg: Config) returns (r: Record)
    ensures r.pre == Init(cfg) && r.input.event == None && IsStep(cfg, r) && r.actions == SendsOf(r.actions)
    ensures UsesOf(r.actions) == [] && |r.actions| == 1 && r.actions[0].SendRequest?
    ensures r.actions[0].redirect == EMPTY_REDIRECT && r.actions[0].opID == 1
    ensures !r.post.isCancelled && r.post.assignment.None? && r.post.lastOpID == 1
    ensures r.post.latestReadState.Some? && r.post.latestReadState.value.opID == 1
  {
    var (post, actions) := Step(cfg, Init(cfg), 0, None, 0.0);
    r := Record(Init(cfg), Input(0, None, 0.0), post, actions);
    SplitActions([], actions);
  }

  /** It is answered with the assignment, and a second one goes out. */
  lemma FirstAnswer(cfg: Config, s: State, server: string) returns (r: Record)
    requires !s.isCancelled && s.assignment.None? && s.lastOpID == 1
    requires s.latestReadState.Some? && s.latestReadState.value.opID == 1
    ensures r.pre == s && IsStep(cfg, r) && AnswerTo(r.input.event, Awaiting(1, server))
    ensures |UsesOf(r.actions)| == 1 && |SendsOf(r.actions)| == 1 && SendsOf(r.actions)[0].SendRequest?
    ensures SendsOf(r.actions)[0].redirect == EMPTY_REDIRECT && SendsOf(r.actions)[0].opID == 2
    ensures !r.post.isCancelled && r.post.assignment.Some?
    ensures r.post.latestReadState.Some? && r.post.latestReadState.value.opID == 2
  {
    FirstMessageDecodes();
    hide Decode;
    var input := AnswerInput(0, server, 1, ClientResponseP(KnownAssignment(Some(FIRST_MESSAGE)), 0, None));
    var (s1, first) := Absorb(cfg, s, input.now, input.event.value, input.random);
    var (s2, second) := Advance(cfg, s1, input.now, input.random);
    r := Record(s, input, s2, first + second);
    SplitActions(first, second);
  }

  /** One more move at the end of an execution. */
  lemma Then(cfg: Config, defaultAddress: string, worlds: seq<World>, moves: seq<Move>, w: World, move: Move)
    returns (worlds': seq<World>, moves': seq<Move>)
    requires IsExecution(cfg, defaultAddress, worlds, moves) && Makes(cfg, defaultAddress, worlds[|moves|], w, move)
    ensures IsExecution(cfg, defaultAddress, worlds', moves') && worlds'[|moves'|] == w
  {
    ExecutionGrows(cfg, defaultAddress, worlds, moves, w, move);
    worlds', moves' := worlds + [w], moves + [move];
  }

  /** The loop sends the first read, and its goroutine starts. */
  lemma ExecutionBegins(cfg: Config, defaultAddress: string)
    returns (worlds: seq<World>, moves: seq<Move>, r: Record)
    requires cfg.Positive()
    ensures IsExecution(cfg, defaultAddress, worlds, moves)
    ensures worlds[|moves|]
            == World([r], None, false, map[LOOP := Handling(None, None), 1 := Awaiting(1, defaultAddress)], [], [])
    ensures Uses([r]) == []
    ensures !r.post.isCancelled && r.post.assignment.None? && r.post.lastOpID == 1
    ensures r.post.latestReadState.Some? && r.post.latestReadState.value.opID == 1
  {
    r := FirstRead(cfg);
    assert Before([r]) == [] && Uses([]) == [];
    var w0 := World([], None, false, map[LOOP := Idle], [], []);
    worlds, moves := [w0], [];
    assert Taken(w0, r) == Handling(None, Some(r.actions[0]));
    assert IsExecution(cfg, defaultAddress, worlds, moves) && StateAfter(cfg, []) == Init(cfg);
    hide IsStep, Init, UsesOf, SendsOf, IsExecution, Uses, Taken, StateAfter;
    var w1 := w0.(history := [] + [r], tasks := w0.tasks[LOOP := Handling(None, Some(r.actions[0]))]);
    worlds, moves := Then(cfg, defaultAddress, worlds, moves, w1, Tick(r));
    var w2 := w1.(tasks := w1.tasks[LOOP := Handling(None, None)][1 := Awaiting(1, defaultAddress)]);
    worlds, moves := Then(cfg, defaultAddress, worlds, moves, w2, Spawn(LOOP, 1));
    assert [] + [r] == [r];
    assert w2.tasks == map[LOOP := Handling(None, None), 1 := Awaiting(1, defaultAddress)];
  }

  /** A goroutine publishes the first pointer, undisturbed. */
  lemma Publishes(cfg: Config, defaultAddress: string, worlds0: seq<World>, moves0: seq<Move>, tid: nat,
                  send: Option<Action>)
    returns (worlds: seq<World>, moves: seq<Move>)
    requires IsExecution(cfg, defaultAddress, worlds0, moves0)
    requires var w := worlds0[|moves0|]; w.cell.None? && tid in w.tasks && w.tasks[tid] == Handling(Some(0), send)
    ensures IsExecution(cfg, defaultAddress, worlds, moves)
    ensures var w, w' := worlds0[|moves0|], worlds[|moves|];
            w'.history == w.history && w'.tasks == w.tasks[tid := Handling(None, send)]
  {
    var w := worlds0[|moves0|];
    hide IsExecution;
    var w1 := w.(tasks := w.tasks[tid := Loading(0, send)]);
    worlds, moves := Then(cfg, defaultAddress, worlds0, moves0, w1, Work(tid));
    var w2 := w1.(tasks := w1.tasks[tid := Swapping(0, None, send)]);
    worlds, moves := Then(cfg, defaultAddress, worlds, moves, w2, Work(tid));
    var w3 := w2.(cell := Some(0), installs := w2.installs + [0], tasks := w2.tasks[tid := Notifying(0, send)]);
    worlds, moves := Then(cfg, defaultAddress, worlds, moves, w3, Work(tid));
    var w4 := w3.(notes := w3.notes + [0], tasks := w3.tasks[tid := Opening(send)]);
    worlds, moves := Then(cfg, defaultAddress, worlds, moves, w4, Work(tid));
    var w5 := w4.(ready := true, tasks := w4.tasks[tid := Handling(None, send)]);
    worlds, moves := Then(cfg, defaultAddress, worlds, moves, w5, Work(tid));
    assert w5.tasks == w.tasks[tid := Handling(None, send)];
  }

  /** The first call comes back with the assignment. */
  lemma ExecutionAnswers(cfg: Config, defaultAddress: string)
    returns (worlds: seq<World>, moves: seq<Move>, r: Record, send: Action)
    requires cfg.Positive()
    ensures IsExecution(cfg, defaultAddress, worlds, moves)
    ensures var w := worlds[|moves|];
            && StateAfter(cfg, w.history) == r.post && w.cell.None?
            && w.tasks == map[LOOP := Handling(None, None), 1 := Handling(Some(0), Some(send))]
    ensures send.SendRequest? && send.redirect == EMPTY_REDIRECT && send.opID == 2
    ensures !r.post.isCancelled && r.post.assignment.Some?
    ensures r.post.latestReadState.Some? && r.post.latestReadState.value.opID == 2
  {
    var r1;
    worlds, moves, r1 := ExecutionBegins(cfg, defaultAddress);
    r := FirstAnswer(cfg, r1.post, defaultAddress);
    send := SendsOf(r.actions)[0];
    var w := worlds[|moves|];
    assert w.history == [r1] && StateAfter(cfg, w.history) == r1.post && Published(w) == [];
    hide Uses, StateAfter, UsesOf, SendsOf, IsExecution, IsStep, AnswerTo;
    LastState(cfg, w.history, r);
    assert Taken(w, r) == Handling(Some(0), Some(send));
    hide IsExecution, IsStep, UsesOf, SendsOf, Uses, StateAfter, Taken, Published;
    var w' := w.(history := w.history + [r], tasks := w.tasks[1 := Handling(Some(0), Some(send))]);
    CallReturns(cfg, defaultAddress, w, w', 1, r);
    hide Makes;
    worlds, moves := Then(cfg, defaultAddress, worlds, moves, w', Return(1, r));
    assert w'.tasks == map[LOOP := Handling(None, None), 1 := Handling(Some(0), Some(send))];
  }

  /** With every configuration and every default address there is an execution in which the default
      server is asked, so both cases above occur. */
  lemma DefaultServerCanBeAsked(cfg: Config, defaultAddress: string) returns (worlds: seq<World>, moves: seq<Move>)
    requires cfg.Positive()
    ensures IsExecution(cfg, defaultAddress, worlds, moves)
    ensures DefaultServerIsAsked(cfg, defaultAddress, worlds[|moves|], 2)
  {
    var r, send;
    worlds, moves, r, send := ExecutionAnswers(cfg, defaultAddress);
    hide IsExecution, StateAfter;
    worlds, moves := Publishes(cfg, defaultAddress, worlds, moves, 1, Some(send));
    var w := worlds[|moves|];
    var w' := w.(tasks := w.tasks[1 := Handling(None, None)][2 := Awaiting(2, defaultAddress)]);
    worlds, moves := Then(cfg, defaultAddress, worlds, moves, w', Spawn(1, 2));
  }

  lemma LastState(cfg: Config, t: Trace, r: Record)
    ensures StateAfter(cfg, t + [r]) == r.post
  {
  }
}
