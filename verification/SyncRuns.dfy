/** What holds over every run of the sync state machine, whatever events come and however late. */
module SyncRuns {
  import opened Wrappers
  import opened Generations
  import opened Assignments
  import opened Wire
  import opened Decoding
  import opened Encoding
  import opened SyncMachine
  import opened SyncSteps

  type Trace = seq<Record>

  /** Step i starts where the step before it ended, or from the initial state. */
  ghost predicate Follows(cfg: Config, t: Trace, i: nat)
    requires i < |t|
  {
    t[i].pre == if i == 0 then Init(cfg) else t[i - 1].post
  }

  ghost predicate IsRun(cfg: Config, t: Trace)
  {
    cfg.Positive() && forall i :: 0 <= i < |t| ==> IsStep(cfg, t[i]) && Follows(cfg, t, i)
  }

  ghost function StateAfter(cfg: Config, t: Trace): State
  {
    if t == [] then Init(cfg) else t[|t| - 1].post
  }

  function Before(t: Trace): Trace
    requires t != []
  {
    t[..|t| - 1]
  }

  function Last(t: Trace): Record
    requires t != []
  {
    t[|t| - 1]
  }

  lemma PrefixIsRun(cfg: Config, t: Trace, n: nat)
    requires IsRun(cfg, t) && n <= |t|
    ensures IsRun(cfg, t[..n])
  {
    hide IsStep;
    forall i | 0 <= i < n
      ensures IsStep(cfg, t[..n][i]) && Follows(cfg, t[..n], i)
    {
      assert IsStep(cfg, t[i]) && Follows(cfg, t, i);
    }
  }

  lemma LastStep(cfg: Config, t: Trace)
    requires IsRun(cfg, t) && t != []
    ensures cfg.Positive() && IsRun(cfg, Before(t)) && Last(t).pre == StateAfter(cfg, Before(t))
    ensures TimingStep(cfg, Last(t)) && DataStep(Last(t))
  {
    hide IsStep, TimingStep, DataStep;
    PrefixIsRun(cfg, t, |t| - 1);
    assert Follows(cfg, t, |t| - 1);
    StepSplits(cfg, Last(t));
  }

  lemma RunGrows(cfg: Config, t: Trace, r: Record)
    requires IsRun(cfg, t) && IsStep(cfg, r) && r.pre == StateAfter(cfg, t)
    ensures IsRun(cfg, t + [r])
  {
    hide IsStep, Init;
    var next := t + [r];
    forall i | 0 <= i < |next|
      ensures IsStep(cfg, next[i]) && Follows(cfg, next, i)
    {
      if i < |t| {
        assert IsStep(cfg, t[i]) && Follows(cfg, t, i);
        assert next[i] == t[i] && (i > 0 ==> next[i - 1] == t[i - 1]);
      } else {
        assert next[i] == r && (i > 0 ==> next[i - 1] == t[i - 1]);
      }
    }
  }

  /** Whatever comes next, the run goes on: no state refuses an input. */
  lemma RunsGoOn(cfg: Config, t: Trace, input: Input) returns (r: Record)
    requires IsRun(cfg, t) && ValidInput(input)
    ensures r.input == input && IsRun(cfg, t + [r])
  {
    hide IsRun, Step;
    var (post, actions) := Step(cfg, StateAfter(cfg, t), input.now, input.event, input.random);
    r := Record(StateAfter(cfg, t), input, post, actions);
    RunGrows(cfg, t, r);
  }

  // ---------------------------------------------------------------------------
  // What an observer records
  // ---------------------------------------------------------------------------

  /** The requests sent, in order. */
  ghost function Requests(t: Trace): seq<Action>
  {
    if t == [] then [] else Requests(Before(t)) + SendsOf(Last(t).actions)
  }

  /** The assignments put to use, in order. */
  ghost function Uses(t: Trace): seq<Assignment>
  {
    if t == [] then [] else Uses(Before(t)) + UsesOf(Last(t).actions)
  }

  predicate Retires(r: Record)
  {
    Succeeded(r) || Retried(r)
  }

  /** The operations that ended, by an answer or by a retry, in order. */
  ghost function Retired(t: Trace): seq<int>
  {
    if t == [] then []
    else if Retires(Last(t)) then Retired(Before(t)) + [Last(t).pre.latestReadState.value.opID]
    else Retired(Before(t))
  }

  ghost predicate CountsUp(ops: seq<int>)
  {
    forall i :: 0 <= i < |ops| ==> ops[i] == i + 1
  }

  // ---------------------------------------------------------------------------
  // Conservation of operations
  // ---------------------------------------------------------------------------

  ghost predicate AllRequests(actions: seq<Action>)
  {
    forall i :: 0 <= i < |actions| ==> actions[i].SendRequest?
  }

  ghost function OpIDs(requests: seq<Action>): seq<int>
    requires AllRequests(requests)
  {
    seq(|requests|, i requires 0 <= i < |requests| => requests[i].opID)
  }

  /** Waiting for a read, waiting out a backoff, or not yet begun. */
  ghost predicate Phased(s: State)
  {
    && (s.lastOpID > 0 ==> (s.latestReadState.Some? <==> !s.inBackoff))
    && (s.lastOpID == 0 ==> s.latestReadState.None? && !s.inBackoff && s.scheduledReadTime == 0)
  }

  lemma {:induction false} PhasesHold(cfg: Config, t: Trace)
    requires IsRun(cfg, t)
    ensures Phased(StateAfter(cfg, t)) && StateAfter(cfg, t).lastOpID >= 0
    ensures t != [] && Live(Last(t)) ==> StateAfter(cfg, t).lastOpID > 0
  {
    hide IsRun, DataStep, JitteredDelay, NextWait, SendsOf;
    if t != [] {
      LastStep(cfg, t);
      PhasesHold(cfg, Before(t));
    }
  }

  /** One step retires the outstanding read or not, and sends the next read or not; a read goes out
      only when none is left outstanding. */
  lemma OperationStep(cfg: Config, r: Record)
    requires TimingStep(cfg, r)
    requires r.pre.latestReadState.Some? ==> r.pre.latestReadState.value.opID == r.pre.lastOpID
    ensures Retires(r) ==> r.pre.latestReadState.Some?
    ensures SendsOf(r.actions) == [] ==>
              && r.post.lastOpID == r.pre.lastOpID
              && r.post.latestReadState == if Retires(r) then None else r.pre.latestReadState
    ensures SendsOf(r.actions) != [] ==>
              && |SendsOf(r.actions)| == 1 && SendsOf(r.actions)[0].SendRequest?
              && (r.pre.latestReadState.Some? ==> Retires(r))
              && SendsOf(r.actions)[0].opID == r.post.lastOpID == r.pre.lastOpID + 1
              && r.post.latestReadState.Some? && r.post.latestReadState.value.opID == r.post.lastOpID
  {
    hide JitteredDelay, NextWait, SendsOf;
  }

  lemma RequestsAppend(t: Trace)
    requires t != [] && AllRequests(Requests(Before(t))) && CountsUp(OpIDs(Requests(Before(t))))
    requires var sends := SendsOf(Last(t).actions);
             sends == [] || (|sends| == 1 && sends[0].SendRequest? && sends[0].opID == |Requests(Before(t))| + 1)
    ensures AllRequests(Requests(t)) && CountsUp(OpIDs(Requests(t)))
    ensures |Requests(t)| == |Requests(Before(t))| + |SendsOf(Last(t).actions)|
  {
    hide SendsOf, OpIDs, AllRequests, CountsUp;
    var sends := SendsOf(Last(t).actions);
    if sends == [] {
      assert Requests(t) == Requests(Before(t));
    } else {
      assert sends == [sends[0]];
      assert Requests(t) == Requests(Before(t)) + [sends[0]];
      CountOneMore(Requests(Before(t)), sends[0]);
    }
  }

  lemma CountOneMore(requests: seq<Action>, send: Action)
    requires AllRequests(requests) && CountsUp(OpIDs(requests))
    requires send.SendRequest? && send.opID == |requests| + 1
    ensures AllRequests(requests + [send]) && CountsUp(OpIDs(requests + [send]))
  {
    assert OpIDs(requests + [send]) == OpIDs(requests) + [send.opID];
  }

  lemma NothingYet(cfg: Config)
    ensures OpIDs([]) == []
    ensures var s := Init(cfg); s.lastOpID == 0 && s.latestReadState.None? && s.scheduledReadTime == 0
    ensures Init(cfg).currentBackoffWait == WaitAfter(cfg, 0) == cfg.minRetryDelay
  {
  }

  /** Operation IDs are sent as 1, 2, 3 and so on and retired as 1, 2, 3 and so on: none is skipped
      and none ends twice. All that were sent have ended except the outstanding one, which is the
      last. */
  lemma {:induction false} OperationsAreConserved(cfg: Config, t: Trace)
    requires IsRun(cfg, t)
    ensures AllRequests(Requests(t)) && CountsUp(OpIDs(Requests(t))) && CountsUp(Retired(t))
    ensures var s := StateAfter(cfg, t);
            && s.lastOpID == |Requests(t)|
            && |Retired(t)| + (if s.latestReadState.Some? then 1 else 0) == |Requests(t)|
            && (s.latestReadState.Some? ==> s.latestReadState.value.opID == s.lastOpID)
  {
    hide IsRun, TimingStep, DataStep, SendsOf, OpIDs, Succeeded, Retried, Init;
    if t == [] {
      NothingYet(cfg);
    } else {
      LastStep(cfg, t);
      OperationsAreConserved(cfg, Before(t));
      OperationStep(cfg, Last(t));
      RequestsAppend(t);
    }
  }

  /** The first step of a machine that is not cancelled sends the first request, whatever the step. */
  lemma FirstStepSends(cfg: Config, t: Trace)
    requires IsRun(cfg, t) && |t| == 1 && Live(t[0])
    ensures Requests(t) == SendsOf(t[0].actions) && |Requests(t)| == 1
    ensures Requests(t)[0].SendRequest? && Requests(t)[0].opID == 1
  {
    hide SendsOf, DataStep, JitteredDelay, NextWait;
    LastStep(cfg, t);
    assert Requests(Before(t)) == [];
  }

  /** After every step of a machine that has not been cancelled, exactly one of "a read is
      outstanding" and "in backoff" holds. */
  lemma OutstandingOrBackoff(cfg: Config, t: Trace)
    requires IsRun(cfg, t) && t != [] && Live(Last(t))
    ensures var s := StateAfter(cfg, t); s.latestReadState.Some? <==> !s.inBackoff
  {
    PhasesHold(cfg, t);
  }

  // ---------------------------------------------------------------------------
  // Assignments
  // ---------------------------------------------------------------------------

  ghost predicate Increasing(uses: seq<Assignment>)
  {
    forall i, j :: 0 <= i < j < |uses| ==> uses[i].generation.Before(uses[j].generation)
  }

  ghost predicate EachBuilt(uses: seq<Assignment>)
  {
    forall i :: 0 <= i < |uses| ==> BuiltAssignment(uses[i]) && WasDecoded(uses[i])
  }

  ghost function LastOf(uses: seq<Assignment>): Option<Assignment>
  {
    if uses == [] then None else Some(uses[|uses| - 1])
  }

  ghost function LastUse(t: Trace): Option<Assignment>
  {
    LastOf(Uses(t))
  }

  lemma IncreasingAppend(uses: seq<Assignment>, new_: seq<Assignment>, after: Option<Assignment>)
    requires Increasing(uses) && EachBuilt(uses) && AssignmentStep(LastOf(uses), new_, after)
    ensures Increasing(uses + new_) && EachBuilt(uses + new_) && LastOf(uses + new_) == after
  {
    hide BuiltAssignment, WasDecoded;
    if new_ == [] {
      assert uses + new_ == uses;
    } else {
      forall i | 0 <= i < |uses|
        ensures uses[i].generation.Before(new_[0].generation)
      {
        assert i < |uses| - 1 ==> uses[i].generation.Before(uses[|uses| - 1].generation);
      }
    }
  }

  lemma AssignmentStepOf(r: Record)
    requires DataStep(r)
    ensures AssignmentStep(r.pre.assignment, UsesOf(r.actions), r.post.assignment)
  {
  }

  /** Every assignment put to use is newer than all before it and came off the wire through all
      its constructors; the machine holds the last one. */
  lemma {:induction false} UsesIncrease(cfg: Config, t: Trace)
    requires IsRun(cfg, t)
    ensures Increasing(Uses(t)) && EachBuilt(Uses(t))
    ensures StateAfter(cfg, t).assignment == LastUse(t)
  {
    hide IsRun, TimingStep, DataStep, UsesOf, AssignmentStep, Increasing, EachBuilt;
    if t == [] {
      assert Increasing([]) && EachBuilt([]) by { EmptyIncreases(); }
    } else {
      LastStep(cfg, t);
      AssignmentStepOf(Last(t));
      UsesIncrease(cfg, Before(t));
      IncreasingAppend(Uses(Before(t)), UsesOf(Last(t).actions), Last(t).post.assignment);
    }
  }

  lemma EmptyIncreases()
    ensures Increasing([]) && EachBuilt([])
  {
  }

  // ---------------------------------------------------------------------------
  // What requests say
  // ---------------------------------------------------------------------------

  /** The redirect in force: that of the last response, latest or stale, unless a retry has
      happened since. */
  ghost function RedirectInForce(t: Trace): Redirect
  {
    if t == [] || Retried(Last(t)) then Redirect(None, None)
    else if Response(Last(t)).Some? then RedirectOf(Response(Last(t)).value)
    else RedirectInForce(Before(t))
  }

  /** The last step that brought news from a peer, if any. */
  ghost function LastNews(t: Trace): Option<Record>
  {
    if t == [] then None else if Heard(Last(t)) then Some(Last(t)) else LastNews(Before(t))
  }

  ghost function PeerAddress(t: Trace): Option<string>
  {
    var news := LastNews(t);
    if news.Some? && news.value.input.event.Some? && news.value.input.event.value.ReadSuccess?
    then news.value.input.event.value.address else None
  }

  ghost function PeerGeneration(t: Trace): Generation
  {
    var news := LastNews(t);
    if news.Some? && Response(news.value).Some? then GenerationOf(Response(news.value).value)
    else EMPTY_GENERATION
  }

  /** The timeout in force: the last positive one that news suggested, or the configured one. */
  ghost function TimeoutInForce(cfg: Config, t: Trace): int
  {
    if t == [] then cfg.watchRPCTimeout
    else if Heard(Last(t)) && Response(Last(t)).value.suggestedRpcTimeoutMillis > 0
    then Response(Last(t)).value.suggestedRpcTimeoutMillis * 1_000_000
    else TimeoutInForce(cfg, Before(t))
  }

  lemma {:induction false} HistoryIsInState(cfg: Config, t: Trace)
    requires IsRun(cfg, t)
    ensures var s := StateAfter(cfg, t);
            && s.redirect == RedirectInForce(t)
            && s.watchRPCTimeout == TimeoutInForce(cfg, t)
            && s.remoteAddress == PeerAddress(t)
            && s.remoteGeneration == PeerGeneration(t)
  {
    hide IsRun, TimingStep, AssignmentStep, RequestState, SendsOf, UsesOf, GenerationOf, RedirectOf, Adoptable;
    hide Settled, Retried;
    if t != [] {
      LastStep(cfg, t);
      HistoryIsInState(cfg, Before(t));
    }
  }

  /** Every request names the generation of the assignment last put to use, or the empty one. It
      carries the whole assignment exactly when the peer last heard from reported an older one and
      the redirect in force names the address that peer answered at. */
  ghost predicate SpeaksFor(sync: SyncState, last: Option<Assignment>, peerAddress: Option<string>,
                            peerGeneration: Generation, redirect: Redirect)
  {
    match sync
    case SendAssignment(a) =>
      last == Some(a) && peerGeneration.Before(a.generation) && redirect.address == peerAddress
    case SendGeneration(g) =>
      && g == GenerationToProto(if last.Some? then last.value.generation else EMPTY_GENERATION)
      && !(last.Some? && peerGeneration.Before(last.value.generation) && redirect.address == peerAddress)
  }

  /** A request sent in the last step of a run is a function of what was observed up to then. */
  lemma RequestsSpeakForHistory(cfg: Config, t: Trace, i: nat)
    requires IsRun(cfg, t) && t != []
    requires i < |SendsOf(Last(t).actions)|
    ensures var send := SendsOf(Last(t).actions)[i];
            && send.SendRequest?
            && send.redirect == RedirectInForce(t)
            && send.timeout == TimeoutInForce(cfg, t)
            && SpeaksFor(send.syncState, LastUse(t), PeerAddress(t), PeerGeneration(t), RedirectInForce(t))
  {
    hide IsRun, TimingStep, AssignmentStep, Increasing, EachBuilt, PeerAddress, PeerGeneration, RedirectInForce;
    hide LastUse, SendsOf;
    LastStep(cfg, t);
    HistoryIsInState(cfg, t);
    UsesIncrease(cfg, t);
  }

  // ---------------------------------------------------------------------------
  // Backoff
  // ---------------------------------------------------------------------------

  ghost function Power2(k: nat): nat
  {
    if k == 0 then 1 else 2 * Power2(k - 1)
  }

  /** The wait after k retries in a row: doubled each time up to the maximum. */
  ghost function WaitAfter(cfg: Config, k: nat): int
  {
    if k == 0 then cfg.minRetryDelay
    else if cfg.minRetryDelay * Power2(k) < cfg.maxRetryDelay then cfg.minRetryDelay * Power2(k)
    else cfg.maxRetryDelay
  }

  ghost function LongestWait(cfg: Config): int
  {
    if cfg.minRetryDelay < cfg.maxRetryDelay then cfg.maxRetryDelay else cfg.minRetryDelay
  }

  /** Retries since the outstanding read was last answered. */
  ghost function RetriesInARow(t: Trace): nat
  {
    if t == [] || Succeeded(Last(t)) then 0
    else if Retried(Last(t)) then RetriesInARow(Before(t)) + 1
    else RetriesInARow(Before(t))
  }

  /** The time before which nothing may be sent. */
  ghost function NotBefore(cfg: Config, t: Trace): int
  {
    if t == [] then 0
    else if Succeeded(Last(t)) then Last(t).input.now
    else if Retried(Last(t)) then
      Last(t).input.now + JitteredDelay(WaitAfter(cfg, RetriesInARow(Before(t))), Last(t).input.random)
    else NotBefore(cfg, Before(t))
  }

  lemma WaitDoubles(cfg: Config, k: nat)
    requires cfg.Positive()
    ensures NextWait(cfg, WaitAfter(cfg, k)) == WaitAfter(cfg, k + 1)
    ensures 0 < WaitAfter(cfg, k) <= LongestWait(cfg)
  {
    assert cfg.minRetryDelay * Power2(k + 1) == 2 * (cfg.minRetryDelay * Power2(k));
    PowerPositive(k);
    assert cfg.minRetryDelay * Power2(k) > 0;
  }

  lemma {:induction false} PowerPositive(k: nat)
    ensures Power2(k) > 0
  {
    if k > 0 { PowerPositive(k - 1); }
  }

  lemma BackoffStep(cfg: Config, r: Record)
    requires TimingStep(cfg, r)
    ensures r.post.currentBackoffWait ==
            if Succeeded(r) then cfg.minRetryDelay
            else if Retried(r) then NextWait(cfg, r.pre.currentBackoffWait) else r.pre.currentBackoffWait
    ensures r.post.scheduledReadTime ==
            if Succeeded(r) then r.input.now
            else if Retried(r) then r.input.now + JitteredDelay(r.pre.currentBackoffWait, r.input.random)
            else r.pre.scheduledReadTime
  {
    hide JitteredDelay, NextWait, SendsOf;
  }

  lemma {:induction false} BackoffClosedForm(cfg: Config, t: Trace)
    requires IsRun(cfg, t)
    ensures StateAfter(cfg, t).currentBackoffWait == WaitAfter(cfg, RetriesInARow(t))
    ensures StateAfter(cfg, t).scheduledReadTime == NotBefore(cfg, t)
  {
    hide IsRun, TimingStep, DataStep, JitteredDelay, NextWait, WaitAfter, SendsOf, Succeeded, Retried, Init;
    NothingYet(cfg);
    if t != [] {
      LastStep(cfg, t);
      BackoffClosedForm(cfg, Before(t));
      BackoffStep(cfg, Last(t));
      WaitDoubles(cfg, RetriesInARow(Before(t)));
    }
  }

  /** A retry schedules the next read half to one and a half times the wait from now, where the wait
      is the minimum doubled once per retry since the last answer, up to the maximum. */
  lemma RetryIsScheduled(cfg: Config, t: Trace)
    requires IsRun(cfg, t) && t != [] && Retried(Last(t))
    ensures var wait := WaitAfter(cfg, RetriesInARow(Before(t)));
            var delay := StateAfter(cfg, t).scheduledReadTime - Last(t).input.now;
            && wait - 1 <= 2 * delay <= 3 * wait
            && 0 < wait <= LongestWait(cfg)
  {
    LastStep(cfg, t);
    BackoffClosedForm(cfg, Before(t));
    BackoffStep(cfg, Last(t));
    WaitDoubles(cfg, RetriesInARow(Before(t)));
    JitterBounds(WaitAfter(cfg, RetriesInARow(Before(t))), Last(t).input.random);
    hide IsRun, DataStep, TimingStep, JitteredDelay, NextWait, WaitAfter, SendsOf;
  }

  /** Nothing is sent before the scheduled time, whatever arrives; after a retry that time stands
      until the next read has gone out. */
  lemma NothingIsSentEarly(cfg: Config, t: Trace)
    requires IsRun(cfg, t) && t != []
    requires SendsOf(Last(t).actions) != []
    ensures Last(t).input.now >= NotBefore(cfg, t)
  {
    LastStep(cfg, t);
    BackoffClosedForm(cfg, t);
    hide IsRun, DataStep, JitteredDelay, NextWait, SendsOf, NotBefore;
  }

  /** No send from step i on, up to and including step j. */
  ghost predicate SilentFrom(t: Trace, i: nat, j: nat)
    requires j < |t|
  {
    forall k :: i <= k <= j ==> SendsOf(t[k].actions) == []
  }

  lemma SilentStep(cfg: Config, r: Record)
    requires TimingStep(cfg, r) && SendsOf(r.actions) == []
    ensures Retried(r) && !Succeeded(r) ==> r.post.latestReadState.None?
    ensures r.pre.latestReadState.None? ==>
              r.post.latestReadState.None? && r.post.scheduledReadTime == r.pre.scheduledReadTime
  {
    hide JitteredDelay, NextWait, SendsOf;
  }

  lemma {:induction false} BackoffStands(cfg: Config, t: Trace, i: nat, j: nat)
    requires IsRun(cfg, t) && i <= j < |t| && Retried(t[i]) && SilentFrom(t, i, j)
    ensures t[j].post.latestReadState.None? && t[j].post.scheduledReadTime == t[i].post.scheduledReadTime
    decreases j
  {
    hide IsRun, TimingStep, SendsOf, Succeeded, Retried;
    StateBefore(cfg, t, j);
    SilentStep(cfg, t[j]);
    if j > i {
      BackoffStands(cfg, t, i, j - 1);
    } else {
      RetryIsNoSuccess(t[j]);
    }
  }

  lemma RetryIsNoSuccess(r: Record)
    requires Retried(r)
    ensures !Succeeded(r)
  {
  }

  lemma SendIsDue(cfg: Config, r: Record)
    requires TimingStep(cfg, r) && SendsOf(r.actions) != []
    ensures r.pre.latestReadState.None? ==> r.input.now >= r.pre.scheduledReadTime
    ensures r.input.now >= r.post.scheduledReadTime
  {
    hide JitteredDelay, NextWait, SendsOf;
  }

  /** A backoff is waited out: the first request after a retry, at step i, comes at least half the
      wait later, whatever events come between, late answers to abandoned reads included. */
  lemma BackoffIsHonoured(cfg: Config, t: Trace, i: nat, j: nat)
    requires IsRun(cfg, t) && i <= j < |t| && Retried(t[i]) && SendsOf(t[j].actions) != []
    requires i < j ==> SilentFrom(t, i, j - 1)
    ensures 2 * (t[j].input.now - t[i].input.now) >= WaitAfter(cfg, RetriesInARow(t[..i])) - 1
  {
    hide IsRun, TimingStep, SendsOf, Succeeded, Retried, WaitAfter;
    PrefixIsRun(cfg, t, i + 1);
    assert Before(t[..i + 1]) == t[..i] && Last(t[..i + 1]) == t[i];
    RetryIsScheduled(cfg, t[..i + 1]);
    StateBefore(cfg, t, j);
    SendIsDue(cfg, t[j]);
    if i < j {
      BackoffStands(cfg, t, i, j - 1);
    }
  }

  /** The wait never leaves the configured range, so its doubling stays within twice the range. */
  lemma WaitStaysInRange(cfg: Config, t: Trace)
    requires IsRun(cfg, t)
    ensures 0 < StateAfter(cfg, t).currentBackoffWait <= LongestWait(cfg)
  {
    BackoffClosedForm(cfg, t);
    WaitDoubles(cfg, RetriesInARow(t));
  }

  // ---------------------------------------------------------------------------
  // Stale responses
  // ---------------------------------------------------------------------------

  /** A response to any operation but the outstanding one acts on timing like the mere passing of
      time: with the same clock and generator the schedule, the wait and the backoff come out as
      they would without it, a send happens in the one case exactly if in the other, and a read
      that is still waiting keeps its deadline. */
  lemma StaleResponsesDoNotDisturb(cfg: Config, stale: Record, tick: Record)
    requires IsStep(cfg, stale) && IsStep(cfg, tick)
    requires stale.pre == tick.pre && stale.input.now == tick.input.now && stale.input.random == tick.input.random
    requires tick.input.event == None
    requires stale.input.event.Some? && stale.input.event.value.ReadSuccess?
    requires !Outstanding(stale.pre, stale.input.event.value.opID)
    ensures var a, b := stale.post, tick.post;
            && a.scheduledReadTime == b.scheduledReadTime && a.currentBackoffWait == b.currentBackoffWait
            && a.inBackoff == b.inBackoff && a.lastOpID == b.lastOpID
            && (a.latestReadState.Some? <==> b.latestReadState.Some?)
            && |SendsOf(stale.actions)| == |SendsOf(tick.actions)|
            && (SendsOf(tick.actions) == [] ==> a.latestReadState == b.latestReadState)
  {
    hide IsStep, DataStep, JitteredDelay, NextWait, SendsOf;
    StepSplits(cfg, stale);
    StepSplits(cfg, tick);
  }

  lemma CancelledStep(cfg: Config, r: Record)
    requires IsStep(cfg, r) && !Live(r)
    ensures r.actions == [] && r.post == r.pre.(isCancelled := true)
  {
  }

  /** Cancelling is final: no action after it, and no change of state. */
  lemma {:induction false} CancelledIsSilent(cfg: Config, t: Trace, i: nat, j: nat)
    requires IsRun(cfg, t) && i <= j < |t|
    requires t[i].input.event == Some(Cancel)
    ensures t[j].actions == [] && t[j].post.isCancelled && t[j].post == t[i].post
    decreases j
  {
    hide IsStep, Init;
    assert IsStep(cfg, t[j]) && Follows(cfg, t, j);
    if j > i {
      CancelledIsSilent(cfg, t, i, j - 1);
    }
    CancelledStep(cfg, t[j]);
  }

  // ---------------------------------------------------------------------------
  // Bounded silence
  // ---------------------------------------------------------------------------

  /** The clock does not run backwards, and a step comes at least every d. */
  ghost predicate SteadyClock(t: Trace, d: int)
  {
    forall i :: 0 < i < |t| ==> t[i - 1].input.now <= t[i].input.now <= t[i - 1].input.now + d
  }

  ghost predicate NeverCancelled(t: Trace)
  {
    forall i :: 0 <= i < |t| ==> Live(t[i])
  }

  /** While nothing has been sent since the request at `start`: the read is waiting for its deadline,
      or it has been given up, soon after its deadline at the latest, and the backoff is running. */
  ghost predicate Waiting(cfg: Config, s: State, now: int, start: int, timeout: int, d: int)
  {
    || (s.latestReadState.Some? && s.latestReadState.value.deadline == start + timeout && now < start + timeout)
    || (s.latestReadState.None? && now < s.scheduledReadTime
        && 2 * s.scheduledReadTime <= 2 * (start + timeout + d) + 3 * LongestWait(cfg))
  }

  lemma WaitingStarts(cfg: Config, r: Record, d: int)
    requires TimingStep(cfg, r) && r.pre.watchRPCTimeout > 0 && SendsOf(r.actions) != []
    ensures SendsOf(r.actions)[0].SendRequest?
    ensures Waiting(cfg, r.post, r.input.now, r.input.now, SendsOf(r.actions)[0].timeout, d)
  {
    hide JitteredDelay, NextWait, SendsOf;
  }

  lemma WaitingGoesOn(cfg: Config, r: Record, then_: int, start: int, timeout: int, d: int)
    requires cfg.Positive() && TimingStep(cfg, r) && Live(r) && SendsOf(r.actions) == []
    requires 0 < r.pre.currentBackoffWait <= LongestWait(cfg)
    requires Waiting(cfg, r.pre, then_, start, timeout, d)
    requires then_ <= r.input.now <= then_ + d
    ensures Waiting(cfg, r.post, r.input.now, start, timeout, d)
  {
    JitterBounds(r.pre.currentBackoffWait, r.input.random);
    hide JitteredDelay, NextWait, SendsOf;
  }

  lemma {:induction false} TimeoutStaysPositive(cfg: Config, t: Trace)
    requires IsRun(cfg, t)
    ensures StateAfter(cfg, t).watchRPCTimeout > 0
  {
    if t != [] {
      LastStep(cfg, t);
      TimeoutStaysPositive(cfg, Before(t));
    }
  }

  lemma StateBefore(cfg: Config, t: Trace, i: nat)
    requires IsRun(cfg, t) && i < |t|
    ensures cfg.Positive() && TimingStep(cfg, t[i]) && t[i].pre.watchRPCTimeout > 0
    ensures 0 < t[i].pre.currentBackoffWait <= LongestWait(cfg)
    ensures i > 0 ==> t[i].pre == t[i - 1].post
  {
    hide IsStep, TimingStep, DataStep;
    PrefixIsRun(cfg, t, i);
    TimeoutStaysPositive(cfg, t[..i]);
    WaitStaysInRange(cfg, t[..i]);
    assert IsStep(cfg, t[i]) && Follows(cfg, t, i);
    StepSplits(cfg, t[i]);
  }

  ghost predicate SilentBetween(t: Trace, i: nat, j: nat)
    requires j < |t|
  {
    forall k :: i < k <= j ==> SendsOf(t[k].actions) == []
  }

  lemma {:induction false} SilenceIsWaiting(cfg: Config, t: Trace, d: int, i: nat, j: nat)
    requires IsRun(cfg, t) && SteadyClock(t, d) && NeverCancelled(t)
    requires i <= j < |t| && SendsOf(t[i].actions) != [] && SilentBetween(t, i, j)
    ensures SendsOf(t[i].actions)[0].SendRequest?
    ensures Waiting(cfg, t[j].post, t[j].input.now, t[i].input.now, SendsOf(t[i].actions)[0].timeout, d)
    decreases j
  {
    hide IsRun, TimingStep, Waiting, SendsOf, LongestWait;
    StateBefore(cfg, t, i);
    WaitingStarts(cfg, t[i], d);
    if j > i {
      StateBefore(cfg, t, j);
      assert Live(t[j]);
      SilenceIsWaiting(cfg, t, d, i, j - 1);
      WaitingGoesOn(cfg, t[j], t[j - 1].input.now, t[i].input.now, SendsOf(t[i].actions)[0].timeout, d);
    }
  }

  /** With a steady clock and no cancellation, silence after a request lasts less than the
      request's timeout, plus one and a half times the longest wait, plus one step interval,
      whatever stale, repeated or failed responses arrive meanwhile. */
  lemma SilenceIsBounded(cfg: Config, t: Trace, d: int, i: nat, j: nat)
    requires IsRun(cfg, t) && SteadyClock(t, d) && NeverCancelled(t) && d >= 0
    requires i <= j < |t| && SendsOf(t[i].actions) != [] && SilentBetween(t, i, j)
    ensures SendsOf(t[i].actions)[0].SendRequest?
    ensures 2 * (t[j].input.now - t[i].input.now) < 2 * SendsOf(t[i].actions)[0].timeout + 3 * LongestWait(cfg) + 2 * d
  {
    SilenceIsWaiting(cfg, t, d, i, j);
    hide IsRun, SendsOf;
  }

  /** Two consecutive requests are at most the first one's timeout, one and a half longest waits and
      two step intervals apart. */
  lemma ConsecutiveRequestsAreClose(cfg: Config, t: Trace, d: int, i: nat, j: nat)
    requires IsRun(cfg, t) && SteadyClock(t, d) && NeverCancelled(t) && d >= 0
    requires i < j < |t| && SendsOf(t[i].actions) != [] && SendsOf(t[j].actions) != [] && SilentBetween(t, i, j - 1)
    ensures SendsOf(t[i].actions)[0].SendRequest?
    ensures 2 * (t[j].input.now - t[i].input.now) <= 2 * SendsOf(t[i].actions)[0].timeout + 3 * LongestWait(cfg) + 4 * d
  {
    SilenceIsBounded(cfg, t, d, i, j - 1);
    hide IsRun, SendsOf;
  }
}
