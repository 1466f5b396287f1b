/**
 What one step of the sync state machine does, split into its timing and its data. The run
 theorems rest on these two relations and never look into the step function again.
 */
module SyncSteps {
  import opened Wrappers
  import opened Generations
  import opened Assignments
  import opened Wire
  import opened Decoding
  import opened SyncMachine

  /** One input: an event or the passing of time, when it comes, and what the generator returns. */
  datatype Input = Input(now: int, event: Option<Event>, random: real)

  datatype Record = Record(pre: State, input: Input, post: State, actions: seq<Action>)

  ghost predicate ValidInput(i: Input)
  {
    i.now >= 0 && ValidRandom(i.random)
  }

  ghost predicate IsStep(cfg: Config, r: Record)
  {
    ValidInput(r.input) && (r.post, r.actions) == Step(cfg, r.pre, r.input.now, r.input.event, r.input.random)
  }

  // ---------------------------------------------------------------------------
  // Reading a step off its input and the state before it
  // ---------------------------------------------------------------------------

  /** The machine is not cancelled before or by this step. */
  predicate Live(r: Record)
  {
    !r.pre.isCancelled && r.input.event != Some(Cancel)
  }

  /** The response this step processes, latest or stale. */
  function Response(r: Record): Option<ClientResponseP>
  {
    if Live(r) && r.input.event.Some? && r.input.event.value.ReadSuccess? then r.input.event.value.response else None
  }

  /** This is the operation of the read that is waited for. */
  predicate Outstanding(s: State, opID: int)
  {
    s.latestReadState.Some? && s.latestReadState.value.opID == opID
  }

  /** The outstanding read is answered. */
  predicate Succeeded(r: Record)
  {
    Response(r).Some? && Outstanding(r.pre, r.input.event.value.opID)
  }

  /** The outstanding read is reported to have failed. */
  predicate Failed(r: Record)
  {
    Live(r) && r.input.event.Some? && r.input.event.value.ReadFailure? && Outstanding(r.pre, r.input.event.value.opID)
  }

  /** The outstanding read fails, or is still unanswered at its deadline. */
  predicate Retried(r: Record)
  {
    Failed(r)
      || (Live(r) && !Succeeded(r) && r.pre.latestReadState.Some?
        && r.input.now >= r.pre.latestReadState.value.deadline)
  }

  function SendsOf(actions: seq<Action>): seq<Action>
  {
    if actions == [] then []
    else (if actions[0].SendRequest? then [actions[0]] else []) + SendsOf(actions[1..])
  }

  function UsesOf(actions: seq<Action>): seq<Assignment>
  {
    if actions == [] then []
    else (if actions[0].UseAssignment? then [actions[0].assignment] else []) + UsesOf(actions[1..])
  }

  // ---------------------------------------------------------------------------
  // Timing
  // ---------------------------------------------------------------------------

  function NextWait(cfg: Config, wait: int): int
  {
    if wait * 2 > cfg.maxRetryDelay then cfg.maxRetryDelay else wait * 2
  }

  datatype Timing = Timing(outstanding: Option<ReadState>, inBackoff: bool, wait: int, scheduled: int)

  function TimingOf(s: State): Timing
  {
    Timing(s.latestReadState, s.inBackoff, s.currentBackoffWait, s.scheduledReadTime)
  }

  /** Timing once the outstanding read has been dealt with, before a new one is considered. */
  function Settled(cfg: Config, r: Record): Timing
  {
    var s := r.pre;
    if Succeeded(r) then Timing(None, false, cfg.minRetryDelay, r.input.now)
    else if Retried(r) then
      Timing(None, true, NextWait(cfg, s.currentBackoffWait),
             r.input.now + JitteredDelay(s.currentBackoffWait, r.input.random))
    else TimingOf(s)
  }

  /** A new read goes out as soon as none is outstanding and its time has come. */
  predicate Due(cfg: Config, r: Record)
  {
    Live(r) && Settled(cfg, r).outstanding.None? && r.input.now >= Settled(cfg, r).scheduled
  }

  ghost predicate TimingStep(cfg: Config, r: Record)
  {
    var s, z := r.pre, r.post;
    var read := ReadState(z.lastOpID, r.input.now + z.watchRPCTimeout);
    && ValidInput(r.input)
    && (z.isCancelled <==> !Live(r))
    && (s.watchRPCTimeout > 0 ==> z.watchRPCTimeout > 0)
    && (!Live(r) ==> TimingOf(z) == TimingOf(s) && z.lastOpID == s.lastOpID && SendsOf(r.actions) == [])
    && (Live(r) && !Due(cfg, r) ==>
          TimingOf(z) == Settled(cfg, r) && z.lastOpID == s.lastOpID && SendsOf(r.actions) == [])
    && (Due(cfg, r) ==>
          && z.lastOpID == s.lastOpID + 1
          && TimingOf(z) == Settled(cfg, r).(outstanding := Some(read), inBackoff := false)
          && |SendsOf(r.actions)| == 1 && SendsOf(r.actions)[0].SendRequest?
          && SendsOf(r.actions)[0].opID == z.lastOpID && SendsOf(r.actions)[0].timeout == z.watchRPCTimeout)
  }

  // ---------------------------------------------------------------------------
  // Data
  // ---------------------------------------------------------------------------

  /** The assignment that a processed response carries, if it can be decoded. */
  ghost function Offered(r: Record): Option<Assignment>
  {
    if Response(r).Some? && Response(r).value.syncAssignmentState.KnownAssignment?
       && Decode(Response(r).value.syncAssignmentState.assignment).Done?
    then Some(Decode(Response(r).value.syncAssignmentState.assignment).value) else None
  }

  /** The assignments a step is to put to use: the one offered, if it is newer than the one held. */
  ghost function Adoptable(r: Record): seq<Assignment>
  {
    var offer := Offered(r);
    if offer.Some? && (r.pre.assignment.Some? ==> r.pre.assignment.value.generation.Before(offer.value.generation))
    then [offer.value] else []
  }

  /** The redirect that a response carries, its token included. */
  function RedirectOf(resp: ClientResponseP): Redirect
  {
    if resp.redirect.None? then Redirect(None, None)
    else Redirect(Some(resp.redirect.value.address), Some(resp.redirect.value.redirectToken))
  }

  /** The generation that a response reports: its own, or that of the assignment it carries. */
  function GenerationOf(resp: ClientResponseP): Generation
  {
    var g :=
      match resp.syncAssignmentState
      case KnownGeneration(p) => p
      case KnownAssignment(Some(a)) => a.generation
      case _ => None;
    if GenerationFromProto(g).Done? then GenerationFromProto(g).value else EMPTY_GENERATION
  }

  /** The step brought news from a peer: an answer to the outstanding read, or a newer assignment. */
  predicate Heard(r: Record)
  {
    Response(r).Some? && (Succeeded(r) || UsesOf(r.actions) != [])
  }

  /** The timeout from now on: what the news suggests, if that is positive, else what it was. */
  function NextTimeout(r: Record): int
  {
    if Heard(r) && Response(r).value.suggestedRpcTimeoutMillis > 0
    then Response(r).value.suggestedRpcTimeoutMillis * 1_000_000 else r.pre.watchRPCTimeout
  }

  ghost predicate AssignmentStep(before: Option<Assignment>, uses: seq<Assignment>, after: Option<Assignment>)
  {
    || (uses == [] && after == before)
    || (|uses| == 1 && after == Some(uses[0]) && BuiltAssignment(uses[0]) && WasDecoded(uses[0])
        && (before.Some? ==> before.value.generation.Before(uses[0].generation)))
  }

  /** A request says what the state after the step makes it say. */
  predicate Says(send: Action, s: State)
  {
    && send.SendRequest? && send.redirect == s.redirect
    && send.syncState == RequestState(s) && send.timeout == s.watchRPCTimeout
  }

  ghost predicate DataStep(r: Record)
  {
    var s, z := r.pre, r.post;
    && AssignmentStep(s.assignment, UsesOf(r.actions), z.assignment)
    && UsesOf(r.actions) == Adoptable(r)
    && z.redirect == (if Retried(r) then Redirect(None, None)
                      else if Response(r).Some? then RedirectOf(Response(r).value) else s.redirect)
    && z.remoteAddress == (if Heard(r) then r.input.event.value.address else s.remoteAddress)
    && z.remoteGeneration == (if Heard(r) then GenerationOf(Response(r).value) else s.remoteGeneration)
    && z.watchRPCTimeout == NextTimeout(r)
    && forall i :: 0 <= i < |SendsOf(r.actions)| ==> Says(SendsOf(r.actions)[i], z)
  }

  // ---------------------------------------------------------------------------
  // Every step is of this kind
  // ---------------------------------------------------------------------------

  lemma SplitActions(first: seq<Action>, second: seq<Action>)
    requires first == [] || (|first| == 1 && first[0].UseAssignment?)
    requires second == [] || (|second| == 1 && second[0].SendRequest?)
    ensures SendsOf(first + second) == second
    ensures UsesOf(first + second) == if first == [] then [] else [first[0].assignment]
  {
    SingleAction(second);
    if first == [] {
      assert first + second == second;
    } else {
      ConsAction(first[0], second);
      assert first + second == [first[0]] + second;
    }
  }

  lemma ConsAction(x: Action, rest: seq<Action>)
    ensures SendsOf([x] + rest) == (if x.SendRequest? then [x] else []) + SendsOf(rest)
    ensures UsesOf([x] + rest) == (if x.UseAssignment? then [x.assignment] else []) + UsesOf(rest)
  {
    assert ([x] + rest)[1..] == rest;
  }

  lemma SingleAction(second: seq<Action>)
    requires second == [] || (|second| == 1 && second[0].SendRequest?)
    ensures SendsOf(second) == second && UsesOf(second) == []
  {
    if second != [] {
      ConsAction(second[0], []);
      assert second == [second[0]] + [];
    }
  }

  lemma NewerIsNewer(current: Option<Assignment>, sync: SyncStateP)
    ensures var newer := NewerAssignment(current, sync);
            newer.Some? ==>
              && BuiltAssignment(newer.value) && WasDecoded(newer.value)
              && (current.Some? ==> current.value.generation.Before(newer.value.generation))
  {
    hide Decode, BuiltAssignment;
    if NewerAssignment(current, sync).Some? {
      DecodedIsBuilt(sync.assignment);
    }
  }

  /** What absorbing the event makes of the state, in the terms of this module. */
  ghost predicate Absorbed(cfg: Config, r: Record, s1: State, first: seq<Action>)
  {
    var s := r.pre;
    && !s1.isCancelled && s1.lastOpID == s.lastOpID
    && (s.watchRPCTimeout > 0 ==> s1.watchRPCTimeout > 0)
    && (first == [] || (|first| == 1 && first[0].UseAssignment?))
    && Adoptable(r) == (if first == [] then [] else [first[0].assignment])
    && AssignmentStep(s.assignment, if first == [] then [] else [first[0].assignment], s1.assignment)
    && TimingOf(s1) == (if Succeeded(r) || Failed(r) then Settled(cfg, r) else TimingOf(s))
    && s1.redirect == (if Failed(r) then EMPTY_REDIRECT
                       else if Response(r).Some? then RedirectOf(Response(r).value) else s.redirect)
    && (var heard := Response(r).Some? && (Succeeded(r) || first != []);
        && s1.remoteAddress == (if heard then r.input.event.value.address else s.remoteAddress)
        && s1.remoteGeneration ==
           (if heard then GenerationOf(Response(r).value) else s.remoteGeneration)
        && s1.watchRPCTimeout ==
           (if heard && Response(r).value.suggestedRpcTimeoutMillis > 0
            then Response(r).value.suggestedRpcTimeoutMillis * 1_000_000 else s.watchRPCTimeout))
  }

  lemma AbsorbIsAbsorbed(cfg: Config, r: Record)
    requires Live(r) && r.input.event.Some?
    ensures var (s1, first) := Absorb(cfg, r.pre, r.input.now, r.input.event.value, r.input.random);
            Absorbed(cfg, r, s1, first)
  {
    hide Decode, JitteredDelay, BuiltAssignment, WasDecoded;
    match r.input.event.value
    case ReadSuccess(address, opID, response) =>
      if response.Some? {
        OnlyMessagesDecode(None);
        NewerIsNewer(r.pre.assignment, response.value.syncAssignmentState);
      }
    case ReadFailure(opID) =>
  }

  /** After a read has been dealt with, its deadline cannot strike in the same step. */
  lemma AdvanceCompletes(cfg: Config, r: Record, s1: State, first: seq<Action>)
    requires Live(r) && ValidInput(r.input) && Absorbed(cfg, r, s1, first)
    requires var (s2, second) := Advance(cfg, s1, r.input.now, r.input.random);
             r.post == s2 && r.actions == first + second
    ensures TimingStep(cfg, r) && DataStep(r)
  {
    var (s2, second) := Advance(cfg, s1, r.input.now, r.input.random);
    SplitActions(first, second);
    AdvanceTimes(cfg, r, s1, first);
    AdvanceCarries(cfg, r, s1, first);
  }

  lemma AdvanceTimes(cfg: Config, r: Record, s1: State, first: seq<Action>)
    requires Live(r) && ValidInput(r.input) && Absorbed(cfg, r, s1, first)
    requires var (s2, second) := Advance(cfg, s1, r.input.now, r.input.random);
             r.post == s2 && SendsOf(r.actions) == second
    ensures TimingStep(cfg, r)
  {
    hide JitteredDelay, RequestState, AssignmentStep, RedirectOf, GenerationOf, Adoptable, SendsOf;
  }

  lemma AdvanceCarries(cfg: Config, r: Record, s1: State, first: seq<Action>)
    requires Live(r) && ValidInput(r.input) && Absorbed(cfg, r, s1, first)
    requires var (s2, second) := Advance(cfg, s1, r.input.now, r.input.random);
             r.post == s2 && SendsOf(r.actions) == second
    requires UsesOf(r.actions) == if first == [] then [] else [first[0].assignment]
    ensures DataStep(r)
  {
    hide JitteredDelay, AssignmentStep, RedirectOf, GenerationOf, Adoptable, SendsOf, UsesOf, NextWait;
  }

  lemma StepSplits(cfg: Config, r: Record)
    requires IsStep(cfg, r)
    ensures TimingStep(cfg, r) && DataStep(r)
  {
    if Live(r) {
      var (s1, first) :=
        if r.input.event.None? then (r.pre, [])
        else Absorb(cfg, r.pre, r.input.now, r.input.event.value, r.input.random);
      if r.input.event.Some? {
        AbsorbIsAbsorbed(cfg, r);
      }
      AdvanceCompletes(cfg, r, s1, first);
    }
  }
}
