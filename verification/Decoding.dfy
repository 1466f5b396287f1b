/** From the wire to validated values. */
module Decoding {
  import opened Wrappers
  import opened Words
  import opened Slices
  import opened Partitions
  import opened SliceMaps
  import opened Generations
  import opened Squids
  import opened UuidWords
  import opened Assignments
  import opened Wire

  datatype DecodeError =
    | MissingMessage
    | BadSlice
    | IndexOutOfBounds
    | EmptyResources
    | BadSliceAssignment
    | NotAPartition
    | BadAssignment

  type Decoded<+T> = Outcome<T, DecodeError>

  // ---------------------------------------------------------------------------
  // Scalars
  // ---------------------------------------------------------------------------

  /** An absent generation reads as the empty one; an incarnation at or above the guardrail
      (which includes every negative one) panics. */
  function GenerationFromProto(p: Option<GenerationP>): Decoded<Generation>
  {
    if p.None? then Done(EMPTY_GENERATION)
    else
      var inc := NewIncarnation(ToUint64(p.value.incarnation));
      if inc.None? then Panicked else Done(Generation(inc.value, ToUint64(p.value.number)))
  }

  function SliceFromProto(p: Option<SliceP>): Decoded<Slice>
  {
    if p.None? then Rejected(MissingMessage)
    else
      var high := if p.value.isHighInfinity || p.value.highExclusive.None? then Infinity
        else Finite(p.value.highExclusive.value);
      var s := NewSlice(p.value.lowInclusive, high);
      if s.Failure? then Rejected(BadSlice) else Done(s.value)
  }

  function SquidFromProto(p: Option<SquidP>): Decoded<Squid>
  {
    if p.None? then Rejected(MissingMessage)
    else
      var u := FromWords(p.value.resourceUuidHigh, p.value.resourceUuidLow);
      Done(Squid(p.value.resourceAddress, p.value.creationTimeMillis, FormatUuid(u)))
  }

  /** Only the upper bound is checked before indexing, so a negative index panics. */
  function PoolAt(pool: seq<Squid>, idx: int32): Decoded<Squid>
  {
    if idx >= |pool| then Rejected(IndexOutOfBounds)
    else if idx < 0 then Panicked
    else Done(pool[idx])
  }

  // ---------------------------------------------------------------------------
  // Messages
  // ---------------------------------------------------------------------------

  function DecodePool(done: seq<Squid>, ps: seq<Option<SquidP>>): Decoded<seq<Squid>>
    decreases ps
  {
    if ps == [] then Done(done)
    else
      var sq :- SquidFromProto(ps[0]);
      DecodePool(done + [sq], ps[1..])
  }

  function DecodeIndices(done: seq<Squid>, indices: seq<int32>, pool: seq<Squid>): Decoded<seq<Squid>>
    decreases indices
  {
    if indices == [] then Done(done)
    else
      var sq :- PoolAt(pool, indices[0]);
      DecodeIndices(done + [sq], indices[1..], pool)
  }

  function TransferFromProto(p: Option<TransferP>, pool: seq<Squid>): Decoded<Option<Transfer>>
  {
    if p.None? then Done(None)
    else
      var from :- PoolAt(pool, p.value.fromResourceId);
      Done(Some(Transfer(from)))
  }

  function AnnotationFromProto(ap: SubsliceAnnotationP, pool: seq<Squid>): Decoded<(Squid, SubsliceAnnotation)>
  {
    var sq :- PoolAt(pool, ap.resourceId);
    var subslice :- SliceFromProto(ap.subslice);
    var transfer :- TransferFromProto(ap.stateTransfer, pool);
    Done((sq, SubsliceAnnotation(subslice, ToUint64(ap.generationNumber), transfer)))
  }

  type Annotations = map<Squid, seq<SubsliceAnnotation>>

  function ListOf(m: Annotations, r: Squid): seq<SubsliceAnnotation>
  {
    if r in m then m[r] else []
  }

  function Added(m: Annotations, r: Squid, ann: SubsliceAnnotation): Annotations
  {
    m[r := ListOf(m, r) + [ann]]
  }

  function DecodeAnnotations(done: Annotations, aps: seq<SubsliceAnnotationP>, pool: seq<Squid>): Decoded<Annotations>
    decreases aps
  {
    if aps == [] then Done(done)
    else
      var x :- AnnotationFromProto(aps[0], pool);
      DecodeAnnotations(Added(done, x.0, x.1), aps[1..], pool)
  }

  ghost function DecodeSliceAssignment(sap: SliceAssignmentP, pool: seq<Squid>): Decoded<SliceAssignment>
  {
    var slice :- SliceFromProto(sap.slice);
    var gen :- GenerationFromProto(sap.generation);
    var resources :- DecodeIndices([], sap.resourceIndices, pool);
    if resources == [] then Rejected(EmptyResources)
    else
      var annotations :- DecodeAnnotations(map[], sap.subsliceAnnotations, pool);
      var sa := SliceAssignment(SliceWithResources(slice, resources), gen, annotations, sap.primaryRateLoad);
      if AcceptableSliceAssignment(sa) then Done(sa) else Rejected(BadSliceAssignment)
  }

  ghost function DecodeSlices(done: seq<SliceAssignment>, saps: seq<SliceAssignmentP>,
                              pool: seq<Squid>): Decoded<seq<SliceAssignment>>
    decreases saps
  {
    if saps == [] then Done(done)
    else
      var sa :- DecodeSliceAssignment(saps[0], pool);
      DecodeSlices(done + [sa], saps[1..], pool)
  }

  /** The specification of decoding. */
  ghost function Decode(p: Option<DiffAssignmentP>): Decoded<Assignment>
  {
    if p.None? then Rejected(MissingMessage)
    else
      var gen :- GenerationFromProto(p.value.generation);
      var pool :- DecodePool([], p.value.resources);
      var entries :- DecodeSlices([], p.value.sliceAssignments, pool);
      if !Complete(SlicesOf(entries, SliceOf)) then Rejected(NotAPartition)
      else if !AcceptableAssignment(gen, entries) then Rejected(BadAssignment)
      else Done(Assignment(gen, p.value.isFrozen, Eventual, SliceMap(entries)))
  }

  // ---------------------------------------------------------------------------
  // The decoder
  // ---------------------------------------------------------------------------

  method SliceAssignmentFromProto(sap: SliceAssignmentP, pool: seq<Squid>) returns (r: Decoded<SliceAssignment>)
    ensures r == DecodeSliceAssignment(sap, pool)
  {
    var slice :- SliceFromProto(sap.slice);
    var gen :- GenerationFromProto(sap.generation);

    var assignedResources: seq<Squid> := [];
    for i := 0 to |sap.resourceIndices|
      invariant DecodeIndices([], sap.resourceIndices, pool)
                == DecodeIndices(assignedResources, sap.resourceIndices[i..], pool)
    {
      assert sap.resourceIndices[i..][1..] == sap.resourceIndices[i + 1..];
      var sq :- PoolAt(pool, sap.resourceIndices[i]);
      assignedResources := assignedResources + [sq];
    }
    var swr := NewSliceWithResources(slice, assignedResources);
    if swr.Failure? {
      return Rejected(EmptyResources);
    }

    var annotations: Annotations := map[];
    for i := 0 to |sap.subsliceAnnotations|
      invariant DecodeAnnotations(map[], sap.subsliceAnnotations, pool)
             == DecodeAnnotations(annotations, sap.subsliceAnnotations[i..], pool)
    {
      assert sap.subsliceAnnotations[i..][1..] == sap.subsliceAnnotations[i + 1..];
      var x :- AnnotationFromProto(sap.subsliceAnnotations[i], pool);
      annotations := Added(annotations, x.0, x.1);
    }
    var sa := NewSliceAssignment(swr.value, gen, annotations, sap.primaryRateLoad);
    if sa.Failure? {
      return Rejected(BadSliceAssignment);
    }
    return Done(sa.value);
  }

  method AssignmentFromProto(p: Option<DiffAssignmentP>) returns (r: Decoded<Assignment>)
    ensures r == Decode(p)
  {
    if p.None? {
      return Rejected(MissingMessage);
    }
    var gen :- GenerationFromProto(p.value.generation);
    var resources: seq<Squid> := [];
    for i := 0 to |p.value.resources|
      invariant DecodePool([], p.value.resources) == DecodePool(resources, p.value.resources[i..])
    {
      assert p.value.resources[i..][1..] == p.value.resources[i + 1..];
      var sq :- SquidFromProto(p.value.resources[i]);
      resources := resources + [sq];
    }
    var saps := p.value.sliceAssignments;
    var sliceAssignments: seq<SliceAssignment> := [];
    for i := 0 to |saps|
      invariant DecodeSlices([], saps, resources) == DecodeSlices(sliceAssignments, saps[i..], resources)
    {
      assert saps[i..][1..] == saps[i + 1..];
      var sa :- SliceAssignmentFromProto(saps[i], resources);
      sliceAssignments := sliceAssignments + [sa];
    }
    var sliceMap := NewSliceMap(sliceAssignments, SliceOf);
    if sliceMap.Failure? {
      return Rejected(NotAPartition);
    }
    var a := NewAssignment(gen, p.value.isFrozen, Eventual, Some(sliceMap.value));
    if a.Failure? {
      return Rejected(BadAssignment);
    }
    return Done(a.value);
  }

  // ---------------------------------------------------------------------------
  // What decoding guarantees, whatever was received
  // ---------------------------------------------------------------------------

  ghost predicate CanonicalSquids(s: seq<Squid>)
  {
    forall r :: r in s ==> r.resourceUuid.Canonical?
  }

  ghost predicate CanonicalAnnotations(m: Annotations)
  {
    forall r :: r in m ==> r.resourceUuid.Canonical? && CanonicalTransfers(m[r])
  }

  ghost predicate CanonicalTransfers(list: seq<SubsliceAnnotation>)
  {
    forall i :: 0 <= i < |list| && list[i].stateTransfer.Some? ==>
      list[i].stateTransfer.value.fromResource.resourceUuid.Canonical?
  }

  ghost predicate CanonicalSliceAssignment(sa: SliceAssignment)
  {
    CanonicalSquids(ResourcesOf(sa)) && CanonicalAnnotations(sa.annotations)
  }

  /** Every UUID the assignment mentions is in the canonical spelling. */
  ghost predicate CanonicalAssignment(a: Assignment)
  {
    forall i :: 0 <= i < |a.sliceMap.entries| ==> CanonicalSliceAssignment(a.sliceMap.entries[i])
  }

  lemma {:induction false} DecodedPool(done: seq<Squid>, ps: seq<Option<SquidP>>)
    requires CanonicalSquids(done) && DecodePool(done, ps).Done?
    ensures CanonicalSquids(DecodePool(done, ps).value)
    decreases ps
  {
    if ps != [] {
      DecodedPool(done + [SquidFromProto(ps[0]).value], ps[1..]);
    }
  }

  lemma {:induction false} DecodedIndices(done: seq<Squid>, indices: seq<int32>, pool: seq<Squid>)
    requires CanonicalSquids(done) && CanonicalSquids(pool) && DecodeIndices(done, indices, pool).Done?
    ensures CanonicalSquids(DecodeIndices(done, indices, pool).value)
    decreases indices
  {
    if indices != [] {
      DecodedIndices(done + [pool[indices[0]]], indices[1..], pool);
    }
  }

  ghost predicate SoundAnnotations(m: Annotations)
  {
    CanonicalAnnotations(m) && forall r :: r in m ==> SubslicesWellFormed(m[r])
  }

  lemma AddedIsSound(m: Annotations, r: Squid, ann: SubsliceAnnotation)
    requires SoundAnnotations(m) && r.resourceUuid.Canonical? && CanonicalTransfers([ann]) && ann.subslice.WellFormed()
    ensures SoundAnnotations(Added(m, r, ann))
  {
    var list := ListOf(m, r);
    assert [ann][0] == ann;
    assert CanonicalTransfers(list + [ann]) && SubslicesWellFormed(list + [ann]);
  }

  lemma {:induction false} DecodedAnnotations(done: Annotations, aps: seq<SubsliceAnnotationP>, pool: seq<Squid>)
    requires SoundAnnotations(done) && CanonicalSquids(pool) && DecodeAnnotations(done, aps, pool).Done?
    ensures SoundAnnotations(DecodeAnnotations(done, aps, pool).value)
    decreases aps
  {
    if aps != [] {
      var x := AnnotationFromProto(aps[0], pool).value;
      AddedIsSound(done, x.0, x.1);
      DecodedAnnotations(Added(done, x.0, x.1), aps[1..], pool);
    }
  }

  lemma DecodedSliceAssignment(sap: SliceAssignmentP, pool: seq<Squid>)
    requires CanonicalSquids(pool) && DecodeSliceAssignment(sap, pool).Done?
    ensures var sa := DecodeSliceAssignment(sap, pool).value; BuiltSliceAssignment(sa) && CanonicalSliceAssignment(sa)
  {
    DecodedIndices([], sap.resourceIndices, pool);
    DecodedAnnotations(map[], sap.subsliceAnnotations, pool);
  }

  ghost predicate SoundSlices(entries: seq<SliceAssignment>)
  {
    forall i :: 0 <= i < |entries| ==> BuiltSliceAssignment(entries[i]) && CanonicalSliceAssignment(entries[i])
  }

  lemma {:induction false} DecodedSlices(done: seq<SliceAssignment>, saps: seq<SliceAssignmentP>, pool: seq<Squid>)
    requires SoundSlices(done) && CanonicalSquids(pool) && DecodeSlices(done, saps, pool).Done?
    ensures SoundSlices(DecodeSlices(done, saps, pool).value)
    decreases saps
  {
    if saps != [] {
      DecodedSliceAssignment(saps[0], pool);
      DecodedSlices(done + [DecodeSliceAssignment(saps[0], pool).value], saps[1..], pool);
    }
  }

  /** Whatever message arrives, an assignment that comes out satisfies every constructor's checks,
      is in eventual mode, and names only canonical UUIDs. */
  lemma DecodedIsBuilt(p: Option<DiffAssignmentP>)
    requires Decode(p).Done?
    ensures BuiltAssignment(Decode(p).value) && CanonicalAssignment(Decode(p).value) && Decode(p).value.mode == Eventual
  {
    DecodedPool([], p.value.resources);
    DecodedSlices([], p.value.sliceAssignments, DecodePool([], p.value.resources).value);
  }

  lemma OnlyMessagesDecode(p: Option<DiffAssignmentP>)
    ensures Decode(p).Done? ==> p.Some?
  {
  }

  /** The assignment came off the wire. */
  ghost predicate WasDecoded(a: Assignment)
  {
    exists p :: Decode(p) == Done(a)
  }

  // ---------------------------------------------------------------------------
  // When decoding cannot panic
  // ---------------------------------------------------------------------------

  predicate GenerationInRange(p: Option<GenerationP>)
  {
    p.Some? ==> 0 <= p.value.incarnation < INCARNATION_GUARDRAIL
  }

  predicate AnnotationInRange(ap: SubsliceAnnotationP)
  {
    ap.resourceId >= 0 && (ap.stateTransfer.Some? ==> ap.stateTransfer.value.fromResourceId >= 0)
  }

  predicate SliceAssignmentInRange(sap: SliceAssignmentP)
  {
    && GenerationInRange(sap.generation)
    && (forall i :: 0 <= i < |sap.resourceIndices| ==> sap.resourceIndices[i] >= 0)
    && (forall i :: 0 <= i < |sap.subsliceAnnotations| ==> AnnotationInRange(sap.subsliceAnnotations[i]))
  }

  /** Incarnations below the guardrail and no negative index. */
  predicate InRange(p: DiffAssignmentP)
  {
    && GenerationInRange(p.generation)
    && forall i :: 0 <= i < |p.sliceAssignments| ==> SliceAssignmentInRange(p.sliceAssignments[i])
  }

  lemma GenerationPanicsIffOutOfRange(p: Option<GenerationP>)
    ensures GenerationFromProto(p).Panicked? <==> !GenerationInRange(p)
    ensures GenerationFromProto(p).Done? <==> GenerationInRange(p)
    ensures p.None? ==> GenerationFromProto(p) == Done(Generation(0, 0))
  {
  }

  lemma {:induction false} PoolNeverPanics(done: seq<Squid>, ps: seq<Option<SquidP>>)
    ensures !DecodePool(done, ps).Panicked?
    decreases ps
  {
    if ps != [] && SquidFromProto(ps[0]).Done? {
      PoolNeverPanics(done + [SquidFromProto(ps[0]).value], ps[1..]);
    }
  }

  lemma {:induction false} IndicesDoNotPanic(done: seq<Squid>, indices: seq<int32>, pool: seq<Squid>)
    requires forall i :: 0 <= i < |indices| ==> indices[i] >= 0
    ensures !DecodeIndices(done, indices, pool).Panicked?
    decreases indices
  {
    if indices != [] && PoolAt(pool, indices[0]).Done? {
      IndicesDoNotPanic(done + [pool[indices[0]]], indices[1..], pool);
    }
  }

  lemma {:induction false} AnnotationsDoNotPanic(done: Annotations, aps: seq<SubsliceAnnotationP>, pool: seq<Squid>)
    requires forall i :: 0 <= i < |aps| ==> AnnotationInRange(aps[i])
    ensures !DecodeAnnotations(done, aps, pool).Panicked?
    decreases aps
  {
    if aps != [] {
      assert AnnotationInRange(aps[0]);
      var x := AnnotationFromProto(aps[0], pool);
      if x.Done? {
        AnnotationsDoNotPanic(Added(done, x.value.0, x.value.1), aps[1..], pool);
      }
    }
  }

  lemma {:induction false} SlicesDoNotPanic(done: seq<SliceAssignment>, saps: seq<SliceAssignmentP>, pool: seq<Squid>)
    requires forall i :: 0 <= i < |saps| ==> SliceAssignmentInRange(saps[i])
    ensures !DecodeSlices(done, saps, pool).Panicked?
    decreases saps
  {
    if saps != [] {
      assert SliceAssignmentInRange(saps[0]);
      IndicesDoNotPanic([], saps[0].resourceIndices, pool);
      AnnotationsDoNotPanic(map[], saps[0].subsliceAnnotations, pool);
      var sa := DecodeSliceAssignment(saps[0], pool);
      if sa.Done? {
        SlicesDoNotPanic(done + [sa.value], saps[1..], pool);
      }
    }
  }

  /** A malformed message that stays in range is rejected with an error; it never panics. */
  lemma InRangeDoesNotPanic(p: DiffAssignmentP)
    requires InRange(p)
    ensures !Decode(Some(p)).Panicked?
  {
    PoolNeverPanics([], p.resources);
    var pool := DecodePool([], p.resources);
    if pool.Done? {
      SlicesDoNotPanic([], p.sliceAssignments, pool.value);
    }
  }

  lemma {:induction false} DecodedIndicesInRange(done: seq<Squid>, indices: seq<int32>, pool: seq<Squid>)
    requires DecodeIndices(done, indices, pool).Done?
    ensures forall i :: 0 <= i < |indices| ==> indices[i] >= 0
    decreases indices
  {
    if indices != [] {
      DecodedIndicesInRange(done + [pool[indices[0]]], indices[1..], pool);
      assert forall i :: 0 < i < |indices| ==> indices[i] == indices[1..][i - 1];
    }
  }

  lemma {:induction false} DecodedAnnotationsInRange(done: Annotations, aps: seq<SubsliceAnnotationP>, pool: seq<Squid>)
    requires DecodeAnnotations(done, aps, pool).Done?
    ensures forall i :: 0 <= i < |aps| ==> AnnotationInRange(aps[i])
    decreases aps
  {
    if aps != [] {
      var x := AnnotationFromProto(aps[0], pool).value;
      DecodedAnnotationsInRange(Added(done, x.0, x.1), aps[1..], pool);
      assert forall i :: 0 < i < |aps| ==> aps[i] == aps[1..][i - 1];
    }
  }

  lemma DecodedSliceInRange(sap: SliceAssignmentP, pool: seq<Squid>)
    requires DecodeSliceAssignment(sap, pool).Done?
    ensures SliceAssignmentInRange(sap)
  {
    hide DecodeIndices, DecodeAnnotations, AcceptableSliceAssignment;
    GenerationPanicsIffOutOfRange(sap.generation);
    DecodedIndicesInRange([], sap.resourceIndices, pool);
    DecodedAnnotationsInRange(map[], sap.subsliceAnnotations, pool);
  }

  lemma {:induction false} DecodedSlicesInRange(done: seq<SliceAssignment>, saps: seq<SliceAssignmentP>,
                                                pool: seq<Squid>)
    requires DecodeSlices(done, saps, pool).Done?
    ensures forall i :: 0 <= i < |saps| ==> SliceAssignmentInRange(saps[i])
    decreases saps
  {
    hide DecodeSliceAssignment, SliceAssignmentInRange;
    if saps != [] {
      DecodedSliceInRange(saps[0], pool);
      DecodedSlicesInRange(done + [DecodeSliceAssignment(saps[0], pool).value], saps[1..], pool);
      assert forall i :: 0 < i < |saps| ==> saps[i] == saps[1..][i - 1];
    }
  }

  /** Only messages in range are decoded. */
  lemma DecodedIsInRange(p: DiffAssignmentP)
    requires Decode(Some(p)).Done?
    ensures InRange(p)
  {
    hide DecodePool, DecodeSlices, Complete, AcceptableAssignment;
    GenerationPanicsIffOutOfRange(p.generation);
    DecodedSlicesInRange([], p.sliceAssignments, DecodePool([], p.resources).value);
  }

  // ---------------------------------------------------------------------------
  // When decoding panics
  // ---------------------------------------------------------------------------

  predicate IndexInPool(idx: int32, n: nat)
  {
    0 <= idx < n
  }

  /** Some index is negative and those before it are in the pool. */
  ghost predicate NegativeFirst(indices: seq<int32>, n: nat)
  {
    exists j :: 0 <= j < |indices| && indices[j] < 0 && forall k :: 0 <= k < j ==> IndexInPool(indices[k], n)
  }

  predicate AnnotationDecodes(ap: SubsliceAnnotationP, n: nat)
  {
    && IndexInPool(ap.resourceId, n) && SliceFromProto(ap.subslice).Done?
    && (ap.stateTransfer.Some? ==> IndexInPool(ap.stateTransfer.value.fromResourceId, n))
  }

  predicate AnnotationPanics(ap: SubsliceAnnotationP, n: nat)
  {
    || ap.resourceId < 0
    || (ap.resourceId < n && SliceFromProto(ap.subslice).Done?
        && ap.stateTransfer.Some? && ap.stateTransfer.value.fromResourceId < 0)
  }

  /** Some annotation panics and those before it decode. */
  ghost predicate AnnotationPanicsFirst(aps: seq<SubsliceAnnotationP>, n: nat)
  {
    exists j :: 0 <= j < |aps| && AnnotationPanics(aps[j], n) && forall k :: 0 <= k < j ==> AnnotationDecodes(aps[k], n)
  }

  /** A slice message panics for its generation or for a negative index, unless it is rejected
      before for its range, an index beyond the pool, or the lack of resources. */
  ghost predicate SlicePanics(sap: SliceAssignmentP, n: nat)
  {
    && SliceFromProto(sap.slice).Done?
    && (|| !GenerationInRange(sap.generation)
        || NegativeFirst(sap.resourceIndices, n)
        || ((forall k :: 0 <= k < |sap.resourceIndices| ==> IndexInPool(sap.resourceIndices[k], n))
            && sap.resourceIndices != [] && AnnotationPanicsFirst(sap.subsliceAnnotations, n)))
  }

  lemma NegativeFirstCons(indices: seq<int32>, n: nat)
    requires indices != []
    ensures NegativeFirst(indices, n) <==>
            indices[0] < 0 || (IndexInPool(indices[0], n) && NegativeFirst(indices[1..], n))
  {
    if NegativeFirst(indices, n) && indices[0] >= 0 {
      var j :| 0 <= j < |indices| && indices[j] < 0 && forall k :: 0 <= k < j ==> IndexInPool(indices[k], n);
      assert indices[1..][j - 1] < 0 && forall k :: 0 <= k < j - 1 ==> IndexInPool(indices[1..][k], n);
    }
    if IndexInPool(indices[0], n) && NegativeFirst(indices[1..], n) {
      var rest := indices[1..];
      var j :| 0 <= j < |rest| && rest[j] < 0 && forall k :: 0 <= k < j ==> IndexInPool(rest[k], n);
      assert forall k :: 0 < k < j + 1 ==> indices[k] == rest[k - 1];
      assert indices[j + 1] < 0 && forall k :: 0 <= k < j + 1 ==> IndexInPool(indices[k], n);
    }
  }

  lemma {:induction false} IndicesPanicIff(done: seq<Squid>, indices: seq<int32>, pool: seq<Squid>)
    ensures DecodeIndices(done, indices, pool).Panicked? <==> NegativeFirst(indices, |pool|)
    ensures DecodeIndices(done, indices, pool).Done? <==>
            forall k :: 0 <= k < |indices| ==> IndexInPool(indices[k], |pool|)
    ensures DecodeIndices(done, indices, pool).Done? ==>
            |DecodeIndices(done, indices, pool).value| == |done| + |indices|
    decreases indices
  {
    hide NegativeFirst;
    if indices != [] {
      NegativeFirstCons(indices, |pool|);
      assert forall k :: 0 < k < |indices| ==> indices[k] == indices[1..][k - 1];
      if IndexInPool(indices[0], |pool|) {
        IndicesPanicIff(done + [pool[indices[0]]], indices[1..], pool);
      }
    } else {
      assert !NegativeFirst([], |pool|) by { NothingNegative(|pool|); }
    }
  }

  lemma NothingNegative(n: nat)
    ensures !NegativeFirst([], n) && !AnnotationPanicsFirst([], n)
  {
  }

  lemma AnnotationPanicsIff(ap: SubsliceAnnotationP, pool: seq<Squid>)
    ensures AnnotationFromProto(ap, pool).Panicked? <==> AnnotationPanics(ap, |pool|)
    ensures AnnotationFromProto(ap, pool).Done? <==> AnnotationDecodes(ap, |pool|)
  {
    hide NewSlice;
  }

  lemma AnnotationPanicsCons(aps: seq<SubsliceAnnotationP>, n: nat)
    requires aps != []
    ensures AnnotationPanicsFirst(aps, n) <==>
            AnnotationPanics(aps[0], n) || (AnnotationDecodes(aps[0], n) && AnnotationPanicsFirst(aps[1..], n))
  {
    hide AnnotationPanics, AnnotationDecodes;
    if AnnotationPanicsFirst(aps, n) && !AnnotationPanics(aps[0], n) {
      var j :| 0 <= j < |aps| && AnnotationPanics(aps[j], n) && forall k :: 0 <= k < j ==> AnnotationDecodes(aps[k], n);
      assert aps[1..][j - 1] == aps[j];
      assert forall k :: 0 <= k < j - 1 ==> AnnotationDecodes(aps[1..][k], n);
    }
    if AnnotationDecodes(aps[0], n) && AnnotationPanicsFirst(aps[1..], n) {
      var rest := aps[1..];
      var j :| 0 <= j < |rest| && AnnotationPanics(rest[j], n)
               && forall k :: 0 <= k < j ==> AnnotationDecodes(rest[k], n);
      assert forall k :: 0 < k < j + 1 ==> aps[k] == rest[k - 1];
      assert AnnotationPanics(aps[j + 1], n) && forall k :: 0 <= k < j + 1 ==> AnnotationDecodes(aps[k], n);
    }
  }

  lemma {:induction false} AnnotationsPanicIff(done: Annotations, aps: seq<SubsliceAnnotationP>, pool: seq<Squid>)
    ensures DecodeAnnotations(done, aps, pool).Panicked? <==> AnnotationPanicsFirst(aps, |pool|)
    decreases aps
  {
    hide AnnotationPanicsFirst, AnnotationPanics, AnnotationDecodes, AnnotationFromProto;
    if aps != [] {
      AnnotationPanicsCons(aps, |pool|);
      AnnotationPanicsIff(aps[0], pool);
      var x := AnnotationFromProto(aps[0], pool);
      if x.Done? {
        AnnotationsPanicIff(Added(done, x.value.0, x.value.1), aps[1..], pool);
      }
    } else {
      NothingNegative(|pool|);
    }
  }

  lemma SliceNeverPanics(p: Option<SliceP>)
    ensures !SliceFromProto(p).Panicked?
  {
  }

  lemma SlicePanicsIff(sap: SliceAssignmentP, pool: seq<Squid>)
    ensures DecodeSliceAssignment(sap, pool).Panicked? <==> SlicePanics(sap, |pool|)
  {
    hide DecodeIndices, DecodeAnnotations, NegativeFirst, AnnotationPanicsFirst, AcceptableSliceAssignment;
    hide SliceFromProto, GenerationFromProto, GenerationInRange, IndexInPool;
    SliceNeverPanics(sap.slice);
    GenerationPanicsIffOutOfRange(sap.generation);
    IndicesPanicIff([], sap.resourceIndices, pool);
    AnnotationsPanicIff(map[], sap.subsliceAnnotations, pool);
  }

  /** Some slice message panics and those before it decode. */
  ghost predicate SlicePanicsFirst(saps: seq<SliceAssignmentP>, pool: seq<Squid>)
  {
    exists j :: 0 <= j < |saps| && SlicePanics(saps[j], |pool|)
                && forall k :: 0 <= k < j ==> DecodeSliceAssignment(saps[k], pool).Done?
  }

  lemma SlicePanicsCons(saps: seq<SliceAssignmentP>, pool: seq<Squid>)
    requires saps != []
    ensures SlicePanicsFirst(saps, pool) <==>
            || SlicePanics(saps[0], |pool|)
            || (DecodeSliceAssignment(saps[0], pool).Done? && SlicePanicsFirst(saps[1..], pool))
  {
    hide SlicePanics, DecodeSliceAssignment;
    if SlicePanicsFirst(saps, pool) && !SlicePanics(saps[0], |pool|) {
      var j :| 0 <= j < |saps| && SlicePanics(saps[j], |pool|)
               && forall k :: 0 <= k < j ==> DecodeSliceAssignment(saps[k], pool).Done?;
      assert saps[1..][j - 1] == saps[j];
      assert forall k :: 0 <= k < j - 1 ==> DecodeSliceAssignment(saps[1..][k], pool).Done?;
    }
    if DecodeSliceAssignment(saps[0], pool).Done? && SlicePanicsFirst(saps[1..], pool) {
      var rest := saps[1..];
      var j :| 0 <= j < |rest| && SlicePanics(rest[j], |pool|)
               && forall k :: 0 <= k < j ==> DecodeSliceAssignment(rest[k], pool).Done?;
      assert forall k :: 0 < k < j + 1 ==> saps[k] == rest[k - 1];
      assert SlicePanics(saps[j + 1], |pool|);
      assert forall k :: 0 <= k < j + 1 ==> DecodeSliceAssignment(saps[k], pool).Done?;
    }
  }

  lemma {:induction false} SlicesPanicIff(done: seq<SliceAssignment>, saps: seq<SliceAssignmentP>, pool: seq<Squid>)
    ensures DecodeSlices(done, saps, pool).Panicked? <==> SlicePanicsFirst(saps, pool)
    decreases saps
  {
    hide SlicePanics, SlicePanicsFirst, DecodeSliceAssignment;
    if saps != [] {
      SlicePanicsCons(saps, pool);
      SlicePanicsIff(saps[0], pool);
      var sa := DecodeSliceAssignment(saps[0], pool);
      if sa.Done? {
        SlicesPanicIff(done + [sa.value], saps[1..], pool);
      }
    } else {
      assert !SlicePanicsFirst([], pool) by { NoSlicePanics(pool); }
    }
  }

  lemma NoSlicePanics(pool: seq<Squid>)
    ensures !SlicePanicsFirst([], pool)
  {
  }

  /** A message panics exactly if its own generation is out of range, or its squids are all there and
      one of its slices panics before any slice is rejected. */
  lemma DecodePanicsIff(p: DiffAssignmentP)
    ensures Decode(Some(p)).Panicked? <==>
            || !GenerationInRange(p.generation)
            || (DecodePool([], p.resources).Done?
                && SlicePanicsFirst(p.sliceAssignments, DecodePool([], p.resources).value))
  {
    hide DecodePool, DecodeSlices, SlicePanicsFirst, Complete, AcceptableAssignment;
    GenerationPanicsIffOutOfRange(p.generation);
    PoolNeverPanics([], p.resources);
    var pool := DecodePool([], p.resources);
    if pool.Done? {
      SlicesPanicIff([], p.sliceAssignments, pool.value);
    }
  }

  /** Out of range, yet rejected before the negative index is used. */
  lemma OutOfRangeCanBeRejected()
    ensures var p := DiffAssignmentP(None, [SliceAssignmentP(None, None, [-1], [], None)], [], false);
            !InRange(p) && Decode(Some(p)).Rejected?
  {
    var p := DiffAssignmentP(None, [SliceAssignmentP(None, None, [-1], [], None)], [], false);
    assert p.sliceAssignments[0].resourceIndices[0] == -1;
    assert !SliceAssignmentInRange(p.sliceAssignments[0]);
    assert DecodeSliceAssignment(p.sliceAssignments[0], []).Rejected?;
    assert p.sliceAssignments == [p.sliceAssignments[0]];
  }
}
