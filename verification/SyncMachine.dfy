/**
 The state machine that keeps a client's assignment in sync. The class does what the program
 does, field by field; the functions before it say what each step makes of a state, and the
 modules on top of this one prove what runs of steps keep.

 Times and durations are integers in nanoseconds, times counted from the zero time. What the
 random generator returns during a step is an argument of the step.
 */
module SyncMachine {
  import opened Wrappers
  import opened Words
  import opened Generations
  import opened Assignments
  import opened Wire
  import opened Decoding
  import opened Encoding

  const MILLISECOND := 1_000_000

  datatype Config = Config(watchRPCTimeout: int, minRetryDelay: int, maxRetryDelay: int) {

    /** The constructor replaces what is not positive by a default. */
    function Normalized(): (c: Config)
      ensures c.Positive()
      ensures c.watchRPCTimeout == if watchRPCTimeout > 0 then watchRPCTimeout else 30_000_000_000
      ensures c.minRetryDelay == if minRetryDelay > 0 then minRetryDelay else 50_000_000
      ensures c.maxRetryDelay == if maxRetryDelay > 0 then maxRetryDelay else 2_000_000_000
    {
      Config(
        if watchRPCTimeout <= 0 then 30_000 * MILLISECOND else watchRPCTimeout,
        if minRetryDelay <= 0 then 50 * MILLISECOND else minRetryDelay,
        if maxRetryDelay <= 0 then 2_000 * MILLISECOND else maxRetryDelay)
    }

    predicate Positive()
    {
      watchRPCTimeout > 0 && minRetryDelay > 0 && maxRetryDelay > 0
    }
  }

  datatype Redirect = Redirect(address: Option<string>, token: Option<seq<byte>>)

  const EMPTY_REDIRECT := Redirect(None, None)

  datatype Event =
    | ReadSuccess(address: Option<string>, opID: int, response: Option<ClientResponseP>)
    | ReadFailure(opID: int)
    | Cancel

  /** What a request tells the peer. An assignment is handed to the encoder as it is. */
  datatype SyncState = SendGeneration(generation: GenerationP) | SendAssignment(assignment: Assignment)

  datatype Action =
    | UseAssignment(assignment: Assignment)
    | SendRequest(redirect: Redirect, opID: int, syncState: SyncState, timeout: int)

  datatype ReadState = ReadState(opID: int, deadline: int)

  datatype State = State(
    isCancelled: bool,
    assignment: Option<Assignment>,
    lastOpID: int,
    latestReadState: Option<ReadState>,
    redirect: Redirect,
    remoteAddress: Option<string>,
    remoteGeneration: Generation,
    watchRPCTimeout: int,
    inBackoff: bool,
    currentBackoffWait: int,
    scheduledReadTime: int)

  function Init(cfg: Config): State
  {
    State(false, None, 0, None, EMPTY_REDIRECT, None, EMPTY_GENERATION,
          cfg.watchRPCTimeout, false, cfg.minRetryDelay, 0)
  }

  // ---------------------------------------------------------------------------
  // Inputs
  // ---------------------------------------------------------------------------

  /** Decoding this response does not panic. Nothing in the program recovers from such a panic. */
  ghost predicate Survivable(resp: ClientResponseP)
  {
    match resp.syncAssignmentState
    case KnownGeneration(g) => !GenerationFromProto(g).Panicked?
    case KnownAssignment(a) => !Decode(a).Panicked?
    case _ => true
  }

  ghost predicate SurvivableEvent(ev: Event)
  {
    ev.ReadSuccess? && ev.response.Some? ==> Survivable(ev.response.value)
  }

  /** The generation is decoded first. */
  lemma SurvivableGeneration(p: DiffAssignmentP)
    requires !Decode(Some(p)).Panicked?
    ensures !GenerationFromProto(p.generation).Panicked?
  {
    hide DecodePool, DecodeSlices, AcceptableAssignment;
  }

  /** The generator returns numbers in [0,1). */
  predicate ValidRandom(random: real)
  {
    0.0 <= random < 1.0
  }

  /** The wait times the jitter factor. */
  function Jittered(wait: int, random: real): real
  {
    wait as real * (0.5 + random)
  }

  /** The jittered delay for a wait, truncated to whole nanoseconds. */
  function JitteredDelay(wait: int, random: real): int
  {
    Jittered(wait, random).Floor
  }

  lemma JitterBounds(wait: int, random: real)
    requires wait >= 0 && ValidRandom(random)
    ensures wait - 1 <= 2 * JitteredDelay(wait, random) <= 3 * wait
    ensures JitteredDelay(wait, random) >= 0
  {
    hide Jittered;
    JitteredRange(wait, random);
    FloorBounds(wait, Jittered(wait, random));
  }

  lemma JitteredRange(wait: int, random: real)
    requires wait >= 0 && ValidRandom(random)
    ensures wait as real * 0.5 <= Jittered(wait, random) <= wait as real * 1.5
  {
    Scaled(wait as real, random);
    Distributes(wait as real, random);
  }

  /** The jitter spreads over the whole range: every delay from half the wait up to, but not
      including, one and a half waits comes of some random number. */
  lemma JitterSpreads(wait: int, delay: int) returns (random: real)
    requires wait > 0 && wait <= 2 * delay < 3 * wait
    ensures ValidRandom(random) && JitteredDelay(wait, random) == delay
  {
    var w, d := wait as real, delay as real;
    random := d / w - 0.5;
    QuotientInRange(w, d);
    assert w * (0.5 + random) == d by { QuotientTimes(w, d); }
  }

  lemma QuotientTimes(w: real, d: real)
    requires w > 0.0
    ensures w * (d / w) == d
  {
  }

  lemma QuotientInRange(w: real, d: real)
    requires w > 0.0 && w * 0.5 <= d < w * 1.5
    ensures 0.5 <= d / w < 1.5
  {
    var q := d / w;
    QuotientTimes(w, d);
    ProductOrder(w, q, 0.5);
    ProductOrder(w, q, 1.5);
  }

  lemma ProductOrder(w: real, x: real, y: real)
    requires w > 0.0
    ensures w * x < w * y <==> x < y
  {
    assert w * x - w * y == w * (x - y);
    SignOfProduct(w, x - y);
  }

  lemma SignOfProduct(w: real, d: real)
    requires w > 0.0
    ensures w * d < 0.0 <==> d < 0.0
  {
  }

  lemma Distributes(w: real, random: real)
    ensures w * (0.5 + random) == w * 0.5 + w * random
  {
  }

  lemma FloorBounds(wait: int, delay: real)
    requires 0.0 <= wait as real * 0.5 <= delay <= wait as real * 1.5
    ensures wait - 1 <= 2 * delay.Floor <= 3 * wait && delay.Floor >= 0
  {
    assert 2.0 * delay.Floor as real <= 2.0 * delay < 2.0 * delay.Floor as real + 2.0;
  }

  lemma Scaled(w: real, random: real)
    requires w >= 0.0 && ValidRandom(random)
    ensures 0.0 <= w * random <= w
    ensures w > 0.0 ==> w * random < w
  {
    if w > 0.0 {
      var gap := 1.0 - random;
      assert w * gap > 0.0;
      assert w * random == w - w * gap;
    }
  }

  // ---------------------------------------------------------------------------
  // Steps
  // ---------------------------------------------------------------------------

  function SetupRetry(cfg: Config, s: State, now: int, random: real): State
  {
    var next := s.currentBackoffWait * 2;
    s.(latestReadState := None,
       redirect := EMPTY_REDIRECT,
       inBackoff := true,
       scheduledReadTime := now + JitteredDelay(s.currentBackoffWait, random),
       currentBackoffWait := if next > cfg.maxRetryDelay then cfg.maxRetryDelay else next)
  }

  /** The assignment a response carries, if it can be decoded and is newer than the current one. */
  ghost function NewerAssignment(current: Option<Assignment>, sync: SyncStateP): Option<Assignment>
  {
    if !sync.KnownAssignment? || sync.assignment.None? then None
    else
      var a := Decode(sync.assignment);
      if a.Done? && (current.None? || a.value.generation.Compare(current.value.generation) > 0)
      then Some(a.value) else None
  }

  /** The generation a response reports. */
  function ReportedGeneration(sync: SyncStateP): Generation
  {
    var g :=
      match sync
      case KnownGeneration(p) => GenerationFromProto(p)
      case KnownAssignment(Some(a)) => GenerationFromProto(a.generation)
      case _ => Done(EMPTY_GENERATION);
    if g.Done? then g.value else EMPTY_GENERATION
  }

  function RedirectFrom(r: Option<RedirectP>): Redirect
  {
    if r.Some? then Redirect(Some(r.value.address), Some(r.value.redirectToken)) else EMPTY_REDIRECT
  }

  predicate IsLatest(s: State, opID: int)
  {
    s.latestReadState.Some? && opID == s.latestReadState.value.opID
  }

  /** A response to an operation is noted: if it is the outstanding one, the read is over. */
  function Recorded(cfg: Config, s: State, now: int, address: Option<string>, opID: int, isNew: bool,
                    reported: Generation, suggested: int): State
  {
    var timeout := if suggested > 0 then suggested * MILLISECOND else s.watchRPCTimeout;
    if IsLatest(s, opID) then
      s.(latestReadState := None, inBackoff := false, currentBackoffWait := cfg.minRetryDelay,
         watchRPCTimeout := timeout,
         remoteAddress := address, remoteGeneration := reported, scheduledReadTime := now)
    else if isNew then
      s.(remoteAddress := address, remoteGeneration := reported, watchRPCTimeout := timeout)
    else s
  }

  /** A response has come, with or without a newer assignment. */
  function ReadSucceeds(cfg: Config, s: State, now: int, address: Option<string>, opID: int, resp: ClientResponseP,
                        newer: Option<Assignment>): State
  {
    var s1 := s.(assignment := if newer.Some? then newer else s.assignment, redirect := RedirectFrom(resp.redirect));
    Recorded(cfg, s1, now, address, opID, newer.Some?, ReportedGeneration(resp.syncAssignmentState),
             resp.suggestedRpcTimeoutMillis)
  }

  /** The deadline of an outstanding read has come. */
  predicate Expired(s: State, now: int)
  {
    s.latestReadState.Some? && now >= s.latestReadState.value.deadline
  }

  /** What a request says: the whole assignment if the peer last heard from is behind and the redirect
      in force names its address, else just the generation. */
  function RequestState(s: State): SyncState
  {
    if s.assignment.Some? && s.assignment.value.generation.Compare(s.remoteGeneration) > 0
      && s.redirect.address == s.remoteAddress
    then SendAssignment(s.assignment.value)
    else
      SendGeneration(GenerationToProto(if s.assignment.Some? then s.assignment.value.generation else EMPTY_GENERATION))
  }

  function Sends(s: State, now: int): (State, Action)
  {
    (s.(inBackoff := false, lastOpID := s.lastOpID + 1,
        latestReadState := Some(ReadState(s.lastOpID + 1, now + s.watchRPCTimeout))),
     SendRequest(s.redirect, s.lastOpID + 1, RequestState(s), s.watchRPCTimeout))
  }

  function Advance(cfg: Config, s: State, now: int, random: real): (State, seq<Action>)
  {
    var s1 := if Expired(s, now) then SetupRetry(cfg, s, now, random) else s;
    if s1.latestReadState.Some? || now < s1.scheduledReadTime then (s1, [])
    else
      var (s2, send) := Sends(s1, now);
      (s2, [send])
  }

  /** What an event does before time is looked at. */
  ghost function Absorb(cfg: Config, s: State, now: int, ev: Event, random: real): (State, seq<Action>)
  {
    match ev
    case ReadSuccess(address, opID, response) =>
      if response.None? then (s, [])
      else
        var newer := NewerAssignment(s.assignment, response.value.syncAssignmentState);
        (ReadSucceeds(cfg, s, now, address, opID, response.value, newer),
         if newer.Some? then [UseAssignment(newer.value)] else [])
    case ReadFailure(opID) => (if IsLatest(s, opID) then SetupRetry(cfg, s, now, random) else s, [])
    case Cancel => (s.(isCancelled := true), [])
  }

  /** One step: an event, or (None) the passing of time. */
  ghost function Step(cfg: Config, s: State, now: int, ev: Option<Event>, random: real): (State, seq<Action>)
  {
    if s.isCancelled then (s, [])
    else if ev == Some(Cancel) then (s.(isCancelled := true), [])
    else
      var (s1, first) := if ev.Some? then Absorb(cfg, s, now, ev.value, random) else (s, []);
      var (s2, second) := Advance(cfg, s1, now, random);
      (s2, first + second)
  }

  // ---------------------------------------------------------------------------
  // The machine
  // ---------------------------------------------------------------------------

  class AssignmentSyncStateMachine {
    const config: Config
    var isCancelled: bool
    var assignment: Option<Assignment>
    var lastOpID: int
    var latestReadState: Option<ReadState>
    var redirect: Redirect
    var remoteAddress: Option<string>
    var remoteGeneration: Generation
    var watchRPCTimeout: int
    var inBackoff: bool
    var currentBackoffWait: int
    var scheduledReadTime: int

    ghost function Snapshot(): State
      reads this
    {
      State(isCancelled, assignment, lastOpID, latestReadState, redirect, remoteAddress, remoteGeneration,
            watchRPCTimeout, inBackoff, currentBackoffWait, scheduledReadTime)
    }

    constructor (cfg: Config)
      ensures config == cfg.Normalized() && Snapshot() == Init(config)
    {
      config := cfg.Normalized();
      isCancelled := false;
      assignment := None;
      lastOpID := 0;
      latestReadState := None;
      redirect := EMPTY_REDIRECT;
      remoteAddress := None;
      remoteGeneration := EMPTY_GENERATION;
      watchRPCTimeout := cfg.Normalized().watchRPCTimeout;
      inBackoff := false;
      currentBackoffWait := cfg.Normalized().minRetryDelay;
      scheduledReadTime := 0;
    }

    method OnEvent(now: int, event: Event, random: real) returns (actions: seq<Action>)
      requires SurvivableEvent(event)
      modifies this
      ensures (Snapshot(), actions) == Step(config, old(Snapshot()), now, Some(event), random)
    {
      if isCancelled {
        return [];
      }
      actions := [];
      match event {
        case ReadSuccess(address, opID, response) =>
          actions := OnReadSuccess(now, address, opID, response);
        case ReadFailure(opID) =>
          OnReadFailure(now, opID, random);
        case Cancel =>
          isCancelled := true;
          return [];
      }
      var more := OnAdvanceInternal(now, random);
      actions := actions + more;
    }

    method OnAdvance(now: int, random: real) returns (actions: seq<Action>)
      modifies this
      ensures (Snapshot(), actions) == Step(config, old(Snapshot()), now, None, random)
    {
      if isCancelled {
        return [];
      }
      actions := OnAdvanceInternal(now, random);
      assert [] + actions == actions;
    }

    method OnReadSuccess(now: int, address: Option<string>, opID: int, response: Option<ClientResponseP>)
      returns (actions: seq<Action>)
      requires response.Some? ==> Survivable(response.value)
      modifies this
      ensures response.None? ==> Snapshot() == old(Snapshot()) && actions == []
      ensures response.Some? ==>
                var newer := NewerAssignment(old(assignment), response.value.syncAssignmentState);
                && Snapshot() == ReadSucceeds(config, old(Snapshot()), now, address, opID, response.value, newer)
                && actions == if newer.Some? then [UseAssignment(newer.value)] else []
    {
      actions := [];
      if response.None? {
        return;
      }
      var resp := response.value;

      var isNew;
      isNew, actions := IncorporateSyncState(resp.syncAssignmentState);

      if resp.redirect.Some? {
        redirect := Redirect(Some(resp.redirect.value.address), Some(resp.redirect.value.redirectToken));
      } else {
        redirect := EMPTY_REDIRECT;
      }

      var respGen := ResponseGeneration(resp.syncAssignmentState);
      RecordRead(now, address, opID, isNew, respGen, resp.suggestedRpcTimeoutMillis);
    }

    /** The last part of handling a response: a stale one only updates what is known of the peer,
        and that only if it brought something new; the latest one ends its read. */
    method RecordRead(now: int, address: Option<string>, opID: int, isNew: bool, respGen: Generation, suggested: int)
      modifies this
      ensures Snapshot() == Recorded(config, old(Snapshot()), now, address, opID, isNew, respGen, suggested)
    {
      var isLatest := latestReadState.Some? && opID == latestReadState.value.opID;
      if !isLatest {
        if isNew {
          remoteAddress, remoteGeneration := address, respGen;
          if suggested > 0 {
            watchRPCTimeout := suggested * MILLISECOND;
          }
        }
      } else {
        latestReadState := None;
        ResetBackoff();
        if suggested > 0 {
          watchRPCTimeout := suggested * MILLISECOND;
        }
        remoteAddress, remoteGeneration := address, respGen;
        scheduledReadTime := now;
      }
    }

    method ResponseGeneration(sync: SyncStateP) returns (respGen: Generation)
      requires sync.KnownGeneration? ==> !GenerationFromProto(sync.generation).Panicked?
      requires sync.KnownAssignment? ==> !Decode(sync.assignment).Panicked?
      ensures respGen == ReportedGeneration(sync)
    {
      respGen := EMPTY_GENERATION;
      match sync {
        case KnownGeneration(g) =>
          respGen := GenerationFromProto(g).value;
        case KnownAssignment(a) =>
          if a.Some? {
            SurvivableGeneration(a.value);
            respGen := GenerationFromProto(a.value.generation).value;
          }
        case _ =>
      }
    }

    method OnReadFailure(now: int, opID: int, random: real)
      modifies this
      ensures (Snapshot(), []) == Absorb(config, old(Snapshot()), now, ReadFailure(opID), random)
    {
      if latestReadState.None? || opID != latestReadState.value.opID {
        return;
      }
      DoSetupRetry(now, random);
    }

    method IncorporateSyncState(syncState: SyncStateP) returns (isNew: bool, actions: seq<Action>)
      requires syncState.KnownAssignment? ==> !Decode(syncState.assignment).Panicked?
      modifies this`assignment
      ensures var newer := NewerAssignment(old(assignment), syncState);
              && isNew == newer.Some?
              && assignment == (if newer.Some? then newer else old(assignment))
              && actions == (if newer.Some? then [UseAssignment(newer.value)] else [])
    {
      if !syncState.KnownAssignment? || syncState.assignment.None? {
        return false, [];
      }
      var decoded := AssignmentFromProto(syncState.assignment);
      if decoded.Rejected? {
        return false, [];
      }
      var newAssignment := decoded.value;
      if assignment.None? || newAssignment.generation.Compare(assignment.value.generation) > 0 {
        assignment := Some(newAssignment);
        return true, [UseAssignment(newAssignment)];
      }
      return false, [];
    }

    method DoSetupRetry(now: int, random: real)
      modifies this
      ensures Snapshot() == SetupRetry(config, old(Snapshot()), now, random)
    {
      latestReadState := None;
      redirect := EMPTY_REDIRECT;
      inBackoff := true;
      var delay := currentBackoffWait;
      var jitterFactor := 0.5 + random;
      var actualDelay := (delay as real * jitterFactor).Floor;
      scheduledReadTime := now + actualDelay;
      var nextWait := currentBackoffWait * 2;
      if nextWait > config.maxRetryDelay {
        nextWait := config.maxRetryDelay;
      }
      currentBackoffWait := nextWait;
    }

    method ResetBackoff()
      modifies this
      ensures Snapshot() == old(Snapshot()).(inBackoff := false, currentBackoffWait := config.minRetryDelay)
    {
      inBackoff := false;
      currentBackoffWait := config.minRetryDelay;
    }

    method OnAdvanceInternal(now: int, random: real) returns (actions: seq<Action>)
      modifies this
      ensures (Snapshot(), actions) == Advance(config, old(Snapshot()), now, random)
    {
      actions := [];
      if latestReadState.Some? {
        if !(now < latestReadState.value.deadline) {
          DoSetupRetry(now, random);
        }
      }
      if latestReadState.Some? {
        return;
      }
      if !(now < scheduledReadTime) {
        inBackoff := false;
        lastOpID := lastOpID + 1;
        var opID := lastOpID;
        var deadline := now + watchRPCTimeout;
        latestReadState := Some(ReadState(opID, deadline));
        var syncState: SyncState;
        if assignment.Some? && assignment.value.generation.Compare(remoteGeneration) > 0
          && redirect.address == remoteAddress {
          syncState := SendAssignment(assignment.value);
        } else {
          var knownGen := EMPTY_GENERATION;
          if assignment.Some? {
            knownGen := assignment.value.generation;
          }
          syncState := SendGeneration(GenerationToProto(knownGen));
        }
        actions := [SendRequest(redirect, opID, syncState, watchRPCTimeout)];
      }
    }
  }
}
