/**
 What the sync state machine owes its environment, in terms of messages, requests and the clock:
 newer assignments are taken over, reads are waited for until their deadline and no longer, and the
 last redirect is followed.
 */
module SyncPromises {
  import opened Wrappers
  import opened Words
  import opened Generations
  import opened Assignments
  import opened Wire
  import opened Decoding
  import opened SyncMachine
  import opened SyncSteps
  import opened SyncRuns

  // ---------------------------------------------------------------------------
  // Assignments
  // ---------------------------------------------------------------------------

  /** The message of the assignment that a processed response carries. */
  function Carried(r: Record): Option<Option<DiffAssignmentP>>
  {
    if Response(r).Some? && Response(r).value.syncAssignmentState.KnownAssignment?
    then Some(Response(r).value.syncAssignmentState.assignment) else None
  }

  /** An assignment is put to use exactly if the response of this step decodes to it and it is newer
      than the one held, if one is held. No other step puts any to use. */
  lemma NewerAssignmentsAreAdopted(cfg: Config, r: Record, a: Assignment)
    requires IsStep(cfg, r)
    ensures UsesOf(r.actions) == [a] <==>
            && Carried(r).Some? && Decode(Carried(r).value) == Done(a)
            && (r.pre.assignment.None? || r.pre.assignment.value.generation.Before(a.generation))
    ensures Carried(r).None? ==> UsesOf(r.actions) == []
    ensures UsesOf(r.actions) == [a] ==> r.post.assignment == Some(a)
    ensures UsesOf(r.actions) == [] ==> r.post.assignment == r.pre.assignment
  {
    hide IsStep, TimingStep, UsesOf, SendsOf, Decode, BuiltAssignment, WasDecoded;
    StepSplits(cfg, r);
    UsesAreAdoptable(r);
  }

  lemma UsesAreAdoptable(r: Record)
    requires DataStep(r)
    ensures UsesOf(r.actions) == Adoptable(r) && AssignmentStep(r.pre.assignment, UsesOf(r.actions), r.post.assignment)
  {
    hide AssignmentStep, Adoptable, UsesOf, SendsOf;
  }

  lemma HeldNeverOlder(r: Record)
    requires AssignmentStep(r.pre.assignment, UsesOf(r.actions), r.post.assignment) && r.pre.assignment.Some?
    ensures r.post.assignment.Some? && !r.post.assignment.value.generation.Before(r.pre.assignment.value.generation)
  {
    hide UsesOf, BuiltAssignment, WasDecoded;
  }

  /** The step in which an assignment is offered leaves the machine with it or with none older. */
  lemma OfferIsMet(r: Record, a: Assignment)
    requires AssignmentStep(r.pre.assignment, UsesOf(r.actions), r.post.assignment) && UsesOf(r.actions) == Adoptable(r)
    requires Carried(r).Some? && Decode(Carried(r).value) == Done(a)
    ensures r.post.assignment.Some? && !r.post.assignment.value.generation.Before(a.generation)
  {
    hide UsesOf, Decode, BuiltAssignment, WasDecoded;
  }

  lemma {:induction false} HoldsWhatWasOffered(cfg: Config, t: Trace, i: nat, a: Assignment)
    requires IsRun(cfg, t) && i < |t| && Carried(t[i]).Some? && Decode(Carried(t[i]).value) == Done(a)
    ensures StateAfter(cfg, t).assignment.Some?
    ensures !StateAfter(cfg, t).assignment.value.generation.Before(a.generation)
    decreases |t|
  {
    hide IsRun, TimingStep, DataStep, AssignmentStep, Adoptable, UsesOf, Carried, Decode;
    LastStep(cfg, t);
    UsesAreAdoptable(Last(t));
    if i == |t| - 1 {
      OfferIsMet(Last(t), a);
    } else {
      HoldsWhatWasOffered(cfg, Before(t), i, a);
      HeldNeverOlder(Last(t));
      NotBeforeIsTransitive(a.generation, Last(t).pre.assignment.value.generation,
                            Last(t).post.assignment.value.generation);
    }
  }

  lemma NotBeforeIsTransitive(a: Generation, b: Generation, c: Generation)
    requires !b.Before(a) && !c.Before(b)
    ensures !c.Before(a)
  {
  }

  /** Nothing newer is missed: after every run the assignment last put to use is not older than any
      that a processed response decoded to, whether that response was the latest or stale. */
  lemma NothingNewerIsMissed(cfg: Config, t: Trace, i: nat, a: Assignment)
    requires IsRun(cfg, t) && i < |t| && Carried(t[i]).Some? && Decode(Carried(t[i]).value) == Done(a)
    ensures LastUse(t).Some? && !LastUse(t).value.generation.Before(a.generation)
  {
    hide IsRun, StateAfter, LastUse, Carried, Decode, EachBuilt, Increasing;
    HoldsWhatWasOffered(cfg, t, i, a);
    UsesIncrease(cfg, t);
  }

  /** A step first puts an assignment to use and then sends a request. */
  lemma UsesComeBeforeSends(cfg: Config, r: Record)
    requires IsStep(cfg, r)
    ensures |UsesOf(r.actions)| <= 1 && |SendsOf(r.actions)| <= 1
    ensures r.actions
            == (if UsesOf(r.actions) == [] then [] else [UseAssignment(UsesOf(r.actions)[0])]) + SendsOf(r.actions)
  {
    hide SendsOf, UsesOf, NewerAssignment, ReadSucceeds, SetupRetry, RequestState;
    if Live(r) {
      var (s1, first) :=
        if r.input.event.None? then (r.pre, [])
        else Absorb(cfg, r.pre, r.input.now, r.input.event.value, r.input.random);
      var (s2, second) := Advance(cfg, s1, r.input.now, r.input.random);
      SplitActions(first, second);
      assert r.actions == first + second;
    } else {
      SplitActions([], []);
      assert [] + [] == r.actions;
    }
  }

  // ---------------------------------------------------------------------------
  // Deadlines
  // ---------------------------------------------------------------------------

  /** The input is an answer to this operation, or the report that it failed. */
  predicate Settles(input: Input, opID: int)
  {
    match input.event
    case Some(ReadSuccess(_, op, response)) => op == opID && response.Some?
    case Some(ReadFailure(op)) => op == opID
    case _ => false
  }

  /** Before its deadline a read is waited for: whatever comes that is neither its answer, nor its
      failure, nor a cancellation leaves read, backoff, wait and schedule as they are. */
  lemma ReadIsWaitedFor(cfg: Config, r: Record)
    requires IsStep(cfg, r) && r.input.event != Some(Cancel)
    requires r.pre.latestReadState.Some? && r.input.now < r.pre.latestReadState.value.deadline
    requires !Settles(r.input, r.pre.latestReadState.value.opID)
    ensures r.post.latestReadState == r.pre.latestReadState && r.post.inBackoff == r.pre.inBackoff
    ensures r.post.currentBackoffWait == r.pre.currentBackoffWait && r.post.scheduledReadTime == r.pre.scheduledReadTime
    ensures r.post.lastOpID == r.pre.lastOpID && SendsOf(r.actions) == []
    ensures r.input.event.None? ==> r.post.redirect == r.pre.redirect
  {
    hide IsStep, SendsOf, UsesOf, JitteredDelay, NextWait, AssignmentStep, Adoptable;
    StepSplits(cfg, r);
    if r.pre.isCancelled {
      CancelledStep(cfg, r);
    }
  }

  /** From its deadline on, any input but its answer makes a live machine give the read up: the
      redirect is dropped, the wait doubles, and at most a new read is outstanding. */
  lemma ReadIsGivenUp(cfg: Config, r: Record)
    requires IsStep(cfg, r) && r.input.event != Some(Cancel) && !r.pre.isCancelled
    requires r.pre.latestReadState.Some? && r.input.now >= r.pre.latestReadState.value.deadline
    requires !Settles(r.input, r.pre.latestReadState.value.opID)
    ensures r.post.latestReadState.Some? ==>
              r.post.latestReadState.value.opID == r.post.lastOpID == r.pre.lastOpID + 1
    ensures r.post.redirect == Redirect(None, None)
    ensures r.post.currentBackoffWait == NextWait(cfg, r.pre.currentBackoffWait)
    ensures r.post.scheduledReadTime == r.input.now + JitteredDelay(r.pre.currentBackoffWait, r.input.random)
  {
    hide IsStep, SendsOf, UsesOf, JitteredDelay, NextWait, AssignmentStep, Adoptable;
    StepSplits(cfg, r);
  }

  /** Step i of a run sends a request. */
  ghost predicate SendsAt(t: Trace, i: nat)
  {
    i < |t| && |SendsOf(t[i].actions)| == 1 && SendsOf(t[i].actions)[0].SendRequest?
  }

  ghost function RequestAt(t: Trace, i: nat): (send: Action)
    requires SendsAt(t, i)
    ensures send.SendRequest?
  {
    SendsOf(t[i].actions)[0]
  }

  lemma SendSetsDeadline(cfg: Config, r: Record)
    requires TimingStep(cfg, r)
    requires r.pre.latestReadState.Some? ==> r.pre.latestReadState.value.opID == r.pre.lastOpID
    ensures r.pre.lastOpID <= r.post.lastOpID
    ensures SendsOf(r.actions) == [] ==> r.post.lastOpID == r.pre.lastOpID
    ensures SendsOf(r.actions) == [] && r.post.latestReadState.Some? ==> r.post.latestReadState == r.pre.latestReadState
    ensures SendsOf(r.actions) != [] ==>
              && SendsOf(r.actions)[0].SendRequest? && r.post.lastOpID == r.pre.lastOpID + 1
              && SendsOf(r.actions)[0].opID == r.post.lastOpID
              && r.post.latestReadState == Some(ReadState(r.post.lastOpID, r.input.now + SendsOf(r.actions)[0].timeout))
  {
    hide SendsOf, JitteredDelay, NextWait;
  }

  lemma {:induction false} RequestsAreNumbered(cfg: Config, t: Trace, i: nat)
    requires IsRun(cfg, t) && SendsAt(t, i)
    ensures RequestAt(t, i).opID <= StateAfter(cfg, t).lastOpID
    decreases |t|
  {
    hide IsRun, TimingStep, DataStep, SendsOf, OpIDs, AllRequests, CountsUp, Retired, Requests;
    LastStep(cfg, t);
    OperationsAreConserved(cfg, Before(t));
    SendSetsDeadline(cfg, Last(t));
    if i < |t| - 1 {
      assert Before(t)[i] == t[i];
      RequestsAreNumbered(cfg, Before(t), i);
    }
  }

  /** As long as a read is outstanding, its deadline is the time of its request plus the timeout that
      the request carried. */
  lemma {:induction false} DeadlineIsKept(cfg: Config, t: Trace, i: nat)
    requires IsRun(cfg, t) && SendsAt(t, i)
    requires var read := StateAfter(cfg, t).latestReadState; read.Some? && read.value.opID == RequestAt(t, i).opID
    ensures StateAfter(cfg, t).latestReadState.value.deadline == t[i].input.now + RequestAt(t, i).timeout
    decreases |t|
  {
    hide IsRun, TimingStep, DataStep, SendsOf, OpIDs, AllRequests, CountsUp, Retired, Requests;
    LastStep(cfg, t);
    OperationsAreConserved(cfg, Before(t));
    SendSetsDeadline(cfg, Last(t));
    if i < |t| - 1 {
      assert Before(t)[i] == t[i];
      RequestsAreNumbered(cfg, Before(t), i);
      if SendsOf(Last(t).actions) == [] {
        DeadlineIsKept(cfg, Before(t), i);
      }
    }
  }

  /** The read of the request at step i is outstanding when step j begins. */
  ghost predicate OutstandingAt(t: Trace, i: nat, j: nat)
  {
    SendsAt(t, i) && i < j < |t| && Outstanding(t[j].pre, RequestAt(t, i).opID)
  }

  lemma DeadlineAt(cfg: Config, t: Trace, i: nat, j: nat)
    requires IsRun(cfg, t) && OutstandingAt(t, i, j)
    ensures IsStep(cfg, t[j])
    ensures t[j].pre.latestReadState.value.deadline == t[i].input.now + RequestAt(t, i).timeout
    ensures t[j].pre.latestReadState.value.opID == t[j].pre.lastOpID
  {
    hide IsStep, SendsOf, Requests, OpIDs, AllRequests, CountsUp, Retired;
    assert IsStep(cfg, t[j]) && Follows(cfg, t, j);
    PrefixIsRun(cfg, t, j);
    assert t[..j][i] == t[i];
    DeadlineIsKept(cfg, t[..j], i);
    OperationsAreConserved(cfg, t[..j]);
  }

  /** Of its own accord a live machine ends a read exactly from its deadline on: an input that is
      neither its answer, nor its failure, nor a cancellation ends it if and only if the clock shows
      at least the time of the request plus the timeout that the request carried. */
  lemma ReadsEndAtTheirDeadline(cfg: Config, t: Trace, i: nat, j: nat)
    requires IsRun(cfg, t) && OutstandingAt(t, i, j)
    requires !t[j].pre.isCancelled && t[j].input.event != Some(Cancel) && !Settles(t[j].input, RequestAt(t, i).opID)
    ensures t[j].post.latestReadState != t[j].pre.latestReadState <==>
            t[j].input.now >= t[i].input.now + RequestAt(t, i).timeout
  {
    hide IsRun, IsStep, SendsOf, Settles, JitteredDelay, NextWait;
    DeadlineAt(cfg, t, i, j);
    if t[j].input.now < t[j].pre.latestReadState.value.deadline {
      ReadIsWaitedFor(cfg, t[j]);
    } else {
      ReadIsGivenUp(cfg, t[j]);
    }
  }

  // ---------------------------------------------------------------------------
  // Redirects
  // ---------------------------------------------------------------------------

  /** No response is processed after step k up to step j, and no retry happens from step k on. */
  ghost predicate LastWord(t: Trace, k: nat, j: nat)
  {
    && k <= j < |t| && Response(t[k]).Some? && !Retried(t[k])
    && forall m :: k < m <= j ==> Response(t[m]).None? && !Retried(t[m])
  }

  lemma {:induction false} LastWordIsInForce(t: Trace, k: nat, j: nat)
    requires LastWord(t, k, j)
    ensures RedirectInForce(t[..j + 1]) == RedirectOf(Response(t[k]).value)
    decreases j
  {
    hide Response, Retried, RedirectOf;
    assert Last(t[..j + 1]) == t[j] && Before(t[..j + 1]) == t[..j];
    if k < j {
      LastWordIsInForce(t, k, j - 1);
    }
  }

  /** A request follows the redirect of the last processed response, with its address and its token,
      unless a retry came after it; if that response had no redirect, neither has the request. */
  lemma LastRedirectIsFollowed(cfg: Config, t: Trace, k: nat, j: nat)
    requires IsRun(cfg, t) && LastWord(t, k, j) && SendsAt(t, j)
    ensures var heard, sent := Response(t[k]).value.redirect, RequestAt(t, j).redirect;
            && sent.address == (if heard.Some? then Some(heard.value.address) else None)
            && sent.token == (if heard.Some? then Some(heard.value.redirectToken) else None)
  {
    hide IsRun, SendsOf, RedirectInForce, LastWord, SpeaksFor, PeerAddress, PeerGeneration, LastUse, TimeoutInForce;
    assert k <= j < |t| && Response(t[k]).Some? by { LastWordExists(t, k, j); }
    PrefixIsRun(cfg, t, j + 1);
    assert Last(t[..j + 1]) == t[j];
    LastWordIsInForce(t, k, j);
    RequestsSpeakForHistory(cfg, t[..j + 1], 0);
  }

  lemma LastWordExists(t: Trace, k: nat, j: nat)
    requires LastWord(t, k, j)
    ensures k <= j < |t| && Response(t[k]).Some?
  {
  }
}
