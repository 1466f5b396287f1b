/** To the wire, with the server incarnations pooled and referred to by index. */
module Encoding {
  import opened Wrappers
  import opened Words
  import opened Slices
  import opened SliceMaps
  import opened Generations
  import opened Squids
  import opened UuidWords
  import opened Assignments
  import opened Wire
  import opened Decoding

  // ---------------------------------------------------------------------------
  // Scalars
  // ---------------------------------------------------------------------------

  function GenerationToProto(g: Generation): GenerationP
  {
    GenerationP(WrapInt64(g.incarnation), WrapInt64(g.number))
  }

  function SliceToProto(s: Slice): SliceP
  {
    SliceP(s.low, if s.high.Finite? then Some(s.high.key) else None, s.high.Infinity?)
  }

  /** A UUID text that cannot be parsed is sent as zeros. */
  function SquidToProto(sq: Squid): SquidP
  {
    match ParseUuid(sq.resourceUuid)
    case Some(u) => SquidP(sq.resourceAddress, sq.creationTimeMillis, HighWord(u), LowWord(u))
    case None => SquidP(sq.resourceAddress, sq.creationTimeMillis, 0, 0)
  }

  lemma GenerationRoundTrip(g: Generation)
    ensures GenerationFromProto(Some(GenerationToProto(g))) == Done(g)
  {
    Uint64RoundTrip(g.number);
  }

  /** Whatever generation message decodes is the one that encoding writes. */
  lemma GenerationComesBack(p: GenerationP)
    ensures GenerationFromProto(Some(p)).Done? ==> GenerationToProto(GenerationFromProto(Some(p)).value) == p
  {
  }

  lemma SliceRoundTrip(s: Slice)
    ensures SliceFromProto(Some(SliceToProto(s))) == if s.WellFormed() then Done(s) else Rejected(BadSlice)
    ensures SliceToProto(s).isHighInfinity <==> SliceToProto(s).highExclusive.None?
  {
  }

  /** Whatever slice message decodes is the one that encoding writes, but for the two spellings of
      an infinite bound that encoding does not use. */
  lemma SliceComesBack(p: SliceP)
    requires SliceFromProto(Some(p)).Done?
    ensures var back := SliceToProto(SliceFromProto(Some(p)).value);
            && back.lowInclusive == p.lowInclusive
            && (back == p <==> (p.isHighInfinity <==> p.highExclusive.None?))
            && (back.isHighInfinity <==> p.isHighInfinity || p.highExclusive.None?)
  {
  }

  /** A squid comes back with its UUID in the canonical spelling, and with the zero UUID if its own
      cannot be parsed; so it comes back unchanged exactly if the spelling was canonical. */
  lemma SquidRoundTrip(sq: Squid)
    ensures SquidFromProto(Some(SquidToProto(sq))) == Done(sq) <==> sq.resourceUuid.Canonical?
    ensures var parsed := ParseUuid(sq.resourceUuid);
            SquidFromProto(Some(SquidToProto(sq))) ==
              Done(sq.(resourceUuid := Canonical(if parsed.Some? then parsed.value else seq(16, _ => 0))))
  {
    var parsed := ParseUuid(sq.resourceUuid);
    if parsed.Some? {
      WordsRoundTripUuid(parsed.value);
    } else {
      ZeroWords();
    }
  }

  /** Any two words are some squid's: whatever squid message comes in is the one that encoding its
      squid writes. */
  lemma SquidComesBack(p: SquidP)
    ensures SquidFromProto(Some(p)).Done? && SquidToProto(SquidFromProto(Some(p)).value) == p
  {
    UuidRoundTripWords(p.resourceUuidHigh, p.resourceUuidLow);
  }

  // ---------------------------------------------------------------------------
  // What it means for a message to encode an assignment
  // ---------------------------------------------------------------------------

  /** The squid stands in the pool at a position whose low 32 bits are the index. */
  ghost predicate IndexResolves(idx: int32, sq: Squid, pool: seq<Squid>)
  {
    exists k :: StandsAt(sq, k, pool) && idx == WrapInt32(k)
  }

  predicate StandsAt(sq: Squid, k: int, pool: seq<Squid>)
  {
    0 <= k < |pool| && pool[k] == sq
  }

  ghost predicate IndicesResolve(indices: seq<int32>, resources: seq<Squid>, pool: seq<Squid>)
  {
    |indices| == |resources| && forall i :: 0 <= i < |indices| ==> IndexResolves(indices[i], resources[i], pool)
  }

  ghost predicate EncodesTransfer(tp: Option<TransferP>, t: Option<Transfer>, pool: seq<Squid>)
  {
    && (tp.Some? <==> t.Some?)
    && (t.Some? && tp.Some? ==> tp.value.id == 1 && IndexResolves(tp.value.fromResourceId, t.value.fromResource, pool))
  }

  ghost predicate EncodesAnnotation(ap: SubsliceAnnotationP, x: (Squid, SubsliceAnnotation), pool: seq<Squid>)
  {
    && IndexResolves(ap.resourceId, x.0, pool)
    && ap.subslice == Some(SliceToProto(x.1.subslice))
    && ap.generationNumber == WrapInt64(x.1.continuousGenerationNumber)
    && EncodesTransfer(ap.stateTransfer, x.1.stateTransfer, pool)
  }

  type Flat = seq<(Squid, SubsliceAnnotation)>

  ghost predicate EncodesFlat(aps: seq<SubsliceAnnotationP>, flat: Flat, pool: seq<Squid>)
  {
    |aps| == |flat| && forall i :: 0 <= i < |aps| ==> EncodesAnnotation(aps[i], flat[i], pool)
  }

  /** The annotations of one resource, in the order in which they stand. */
  ghost function Group(flat: Flat, r: Squid): seq<SubsliceAnnotation>
  {
    if flat == [] then []
    else
      var last := flat[|flat| - 1];
      Group(flat[..|flat| - 1], r) + if last.0 == r then [last.1] else []
  }

  lemma GroupAppend(flat: Flat, x: (Squid, SubsliceAnnotation), r: Squid)
    ensures Group(flat + [x], r) == Group(flat, r) + if x.0 == r then [x.1] else []
  {
    assert (flat + [x])[..|flat|] == flat;
  }

  /** The annotations stand in any order that keeps each resource's list in order. */
  ghost predicate Lists(flat: Flat, annotations: Annotations)
  {
    forall r :: Group(flat, r) == ListOf(annotations, r)
  }

  ghost predicate EncodesAnnotations(aps: seq<SubsliceAnnotationP>, annotations: Annotations, pool: seq<Squid>)
  {
    exists flat :: EncodesFlat(aps, flat, pool) && Lists(flat, annotations)
  }

  ghost predicate EncodesSliceAssignment(sap: SliceAssignmentP, sa: SliceAssignment, pool: seq<Squid>)
  {
    && sap.slice == Some(SliceToProto(SliceOf(sa)))
    && sap.generation == Some(GenerationToProto(sa.generation))
    && IndicesResolve(sap.resourceIndices, ResourcesOf(sa), pool)
    && sa.annotations.Keys <= Elements(pool)
    && EncodesAnnotations(sap.subsliceAnnotations, sa.annotations, pool)
    && sap.primaryRateLoad == sa.primaryRateLoad
  }

  ghost predicate EncodesSlices(saps: seq<SliceAssignmentP>, entries: seq<SliceAssignment>, pool: seq<Squid>)
  {
    |saps| == |entries| && forall i :: 0 <= i < |saps| ==> EncodesSliceAssignment(saps[i], entries[i], pool)
  }

  ghost function Elements<T>(s: seq<T>): set<T>
  {
    set x | x in s
  }

  ghost function EncodedPool(pool: seq<Squid>): (ps: seq<Option<SquidP>>)
    ensures |ps| == |pool| && forall i :: 0 <= i < |ps| ==> ps[i] == Some(SquidToProto(pool[i]))
  {
    seq(|pool|, i requires 0 <= i < |pool| => Some(SquidToProto(pool[i])))
  }

  /** The squids a slice assignment mentions: resources, annotated resources, transfer sources. */
  ghost function MentionedIn(sa: SliceAssignment): set<Squid>
  {
    Elements(ResourcesOf(sa)) + sa.annotations.Keys
    + set r, i | r in sa.annotations && 0 <= i < |sa.annotations[r]| && sa.annotations[r][i].stateTransfer.Some?
               :: sa.annotations[r][i].stateTransfer.value.fromResource
  }

  ghost function Mentioned(entries: seq<SliceAssignment>): set<Squid>
  {
    set i, r | 0 <= i < |entries| && r in MentionedIn(entries[i]) :: r
  }

  /** The message carries the assignment over a pool that holds every squid mentioned, no other,
      and each once. */
  ghost predicate IsEncodingOf(p: DiffAssignmentP, a: Assignment, pool: seq<Squid>)
  {
    && p.generation == Some(GenerationToProto(a.generation))
    && p.isFrozen == a.isFrozen
    && p.resources == EncodedPool(pool)
    && NoDuplicates(pool)
    && Elements(pool) == Mentioned(a.sliceMap.entries)
    && EncodesSlices(p.sliceAssignments, a.sliceMap.entries, pool)
  }

  ghost predicate IsEncoding(p: DiffAssignmentP, a: Assignment)
  {
    exists pool :: IsEncodingOf(p, a, pool)
  }

  // Growing the pool keeps what has been encoded.

  lemma IndexOverLargerPool(idx: int32, sq: Squid, pool: seq<Squid>, larger: seq<Squid>)
    requires IndexResolves(idx, sq, pool) && pool <= larger
    ensures IndexResolves(idx, sq, larger)
  {
    var k :| StandsAt(sq, k, pool) && idx == WrapInt32(k);
    assert StandsAt(sq, k, larger);
  }

  lemma FlatOverLargerPool(aps: seq<SubsliceAnnotationP>, flat: Flat, pool: seq<Squid>, larger: seq<Squid>)
    requires EncodesFlat(aps, flat, pool) && pool <= larger
    ensures EncodesFlat(aps, flat, larger)
  {
    forall i | 0 <= i < |aps|
      ensures EncodesAnnotation(aps[i], flat[i], larger)
    {
      assert EncodesAnnotation(aps[i], flat[i], pool);
      IndexOverLargerPool(aps[i].resourceId, flat[i].0, pool, larger);
      if flat[i].1.stateTransfer.Some? {
        IndexOverLargerPool(aps[i].stateTransfer.value.fromResourceId, flat[i].1.stateTransfer.value.fromResource,
                            pool, larger);
      }
    }
  }

  lemma IndicesOverLargerPool(indices: seq<int32>, resources: seq<Squid>, pool: seq<Squid>, larger: seq<Squid>)
    requires IndicesResolve(indices, resources, pool) && pool <= larger
    ensures IndicesResolve(indices, resources, larger)
  {
    forall i | 0 <= i < |indices|
      ensures IndexResolves(indices[i], resources[i], larger)
    {
      IndexOverLargerPool(indices[i], resources[i], pool, larger);
    }
  }

  lemma SliceOverLargerPool(sap: SliceAssignmentP, sa: SliceAssignment, pool: seq<Squid>, larger: seq<Squid>)
    requires EncodesSliceAssignment(sap, sa, pool) && pool <= larger
    ensures EncodesSliceAssignment(sap, sa, larger)
  {
    IndicesOverLargerPool(sap.resourceIndices, ResourcesOf(sa), pool, larger);
    var flat: Flat :| EncodesFlat(sap.subsliceAnnotations, flat, pool) && Lists(flat, sa.annotations);
    FlatOverLargerPool(sap.subsliceAnnotations, flat, pool, larger);
    forall r | r in sa.annotations.Keys
      ensures r in Elements(larger)
    {
      assert r in Elements(pool) && r in pool;
      var i :| 0 <= i < |pool| && pool[i] == r;
      assert larger[i] == r;
    }
  }

  lemma SlicesOverLargerPool(saps: seq<SliceAssignmentP>, entries: seq<SliceAssignment>, pool: seq<Squid>,
                             larger: seq<Squid>)
    requires EncodesSlices(saps, entries, pool) && pool <= larger
    ensures EncodesSlices(saps, entries, larger)
  {
    forall i | 0 <= i < |saps|
      ensures EncodesSliceAssignment(saps[i], entries[i], larger)
    {
      SliceOverLargerPool(saps[i], entries[i], pool, larger);
    }
  }

  // ---------------------------------------------------------------------------
  // The encoder
  // ---------------------------------------------------------------------------

  /** The pool under construction: the records, and where each squid stands. `scope` bounds what
      may be added. */
  class ResourcePool {
    var index: map<Squid, int32>
    var resources: seq<Option<SquidP>>
    ghost var pool: seq<Squid>
    ghost const scope: set<Squid>

    ghost predicate Valid()
      reads this
    {
      && NoDuplicates(pool)
      && Elements(pool) <= scope
      && resources == EncodedPool(pool)
      && index.Keys == Elements(pool)
      && forall sq :: sq in index ==> IndexResolves(index[sq], sq, pool)
    }

    constructor (ghost scope: set<Squid>)
      ensures Valid() && pool == [] && this.scope == scope
    {
      this.scope := scope;
      index := map[];
      resources := [];
      pool := [];
    }

    method GetResourceIndex(sq: Squid) returns (idx: int32)
      requires Valid() && sq in scope
      modifies this
      ensures Valid()
      ensures pool == if sq in old(pool) then old(pool) else old(pool) + [sq]
      ensures IndexResolves(idx, sq, pool)
    {
      if sq in index {
        assert sq in Elements(pool);
        return index[sq];
      }
      assert sq !in Elements(pool);
      idx := WrapInt32(|resources|);
      index := index[sq := idx];
      resources := resources + [Some(SquidToProto(sq))];
      assert Elements(pool + [sq]) == Elements(pool) + {sq};
      assert StandsAt(sq, |pool|, pool + [sq]);
      forall other | other in index && other != sq
        ensures IndexResolves(index[other], other, pool + [sq])
      {
        IndexOverLargerPool(index[other], other, pool, pool + [sq]);
      }
      pool := pool + [sq];
    }
  }

  lemma {:induction false} DistinctCount<T>(s: seq<T>)
    requires NoDuplicates(s)
    ensures |Elements(s)| == |s|
  {
    if s != [] {
      var n := |s| - 1;
      DistinctCount(s[..n]);
      assert s == s[..n] + [s[n]];
      assert Elements(s) == Elements(s[..n]) + {s[n]};
      assert s[n] !in Elements(s[..n]);
    }
  }

  method EncodeIndices(resources: seq<Squid>, p: ResourcePool) returns (indices: seq<int32>)
    requires p.Valid() && Elements(resources) <= p.scope
    modifies p
    ensures p.Valid() && old(p.pool) <= p.pool
    ensures IndicesResolve(indices, resources, p.pool)
  {
    hide IndexResolves, EncodedPool, NoDuplicates;
    indices := [];
    for i := 0 to |resources|
      invariant p.Valid() && old(p.pool) <= p.pool
      invariant IndicesResolve(indices, resources[..i], p.pool)
    {
      ghost var before := p.pool;
      assert resources[i] in Elements(resources);
      var idx := p.GetResourceIndex(resources[i]);
      IndicesOverLargerPool(indices, resources[..i], before, p.pool);
      indices := indices + [idx];
      assert resources[..i + 1] == resources[..i] + [resources[i]];
    }
    assert resources[..|resources|] == resources;
  }

  method EncodeAnnotation(ann: SubsliceAnnotation, resIdx: int32, ghost sq: Squid, p: ResourcePool)
    returns (ap: SubsliceAnnotationP)
    requires p.Valid() && IndexResolves(resIdx, sq, p.pool)
    requires ann.stateTransfer.Some? ==> ann.stateTransfer.value.fromResource in p.scope
    modifies p
    ensures p.Valid() && old(p.pool) <= p.pool
    ensures EncodesAnnotation(ap, (sq, ann), p.pool)
  {
    ap := SubsliceAnnotationP(resIdx, Some(SliceToProto(ann.subslice)), WrapInt64(ann.continuousGenerationNumber),
                              None);
    if ann.stateTransfer.Some? {
      var fromIdx := p.GetResourceIndex(ann.stateTransfer.value.fromResource);
      ap := ap.(stateTransfer := Some(TransferP(1, fromIdx)));
    }
  }

  /** What the annotation loops have emitted for one resource: the complete list if it is done, and
      the first j annotations if it is the current one. */
  ghost function Share(annotations: Annotations, done: set<Squid>, current: Squid, j: nat,
                       r: Squid): seq<SubsliceAnnotation>
    requires j <= |ListOf(annotations, current)|
  {
    if r in done then ListOf(annotations, r) else if r == current then ListOf(annotations, r)[..j] else []
  }

  ghost predicate Emitted(flat: Flat, annotations: Annotations, done: set<Squid>, current: Squid, j: nat)
    requires j <= |ListOf(annotations, current)|
  {
    forall r :: Group(flat, r) == Share(annotations, done, current, j, r)
  }

  lemma OneMoreShare(annotations: Annotations, done: set<Squid>, current: Squid, j: nat, r: Squid)
    requires current !in done && j < |ListOf(annotations, current)|
    ensures Share(annotations, done, current, j + 1, r) ==
              Share(annotations, done, current, j, r) + if r == current then [ListOf(annotations, current)[j]] else []
  {
    hide ListOf;
    if r == current {
      assert ListOf(annotations, r)[..j + 1] == ListOf(annotations, r)[..j] + [ListOf(annotations, r)[j]];
    }
  }

  lemma EmitOne(flat: Flat, annotations: Annotations, done: set<Squid>, current: Squid, j: nat)
    requires current !in done && j < |ListOf(annotations, current)|
    requires Emitted(flat, annotations, done, current, j)
    ensures Emitted(flat + [(current, ListOf(annotations, current)[j])], annotations, done, current, j + 1)
  {
    hide Group, ListOf, Share;
    var x := (current, ListOf(annotations, current)[j]);
    forall r
      ensures Group(flat + [x], r) == Share(annotations, done, current, j + 1, r)
    {
      GroupAppend(flat, x, r);
      OneMoreShare(annotations, done, current, j, r);
    }
  }

  /** The emitted messages stand for `flat` over the pool, which is `done` plus j of `current`. */
  ghost predicate Emitting(aps: seq<SubsliceAnnotationP>, flat: Flat, pool: seq<Squid>, annotations: Annotations,
                           done: set<Squid>, current: Squid, j: nat)
    requires j <= |ListOf(annotations, current)|
  {
    EncodesFlat(aps, flat, pool) && Emitted(flat, annotations, done, current, j)
  }

  lemma EmittingStep(aps: seq<SubsliceAnnotationP>, flat: Flat, pool: seq<Squid>, annotations: Annotations,
                     done: set<Squid>, current: Squid, j: nat, ap: SubsliceAnnotationP, larger: seq<Squid>)
    requires current !in done && j < |ListOf(annotations, current)|
    requires Emitting(aps, flat, pool, annotations, done, current, j)
    requires pool <= larger && EncodesAnnotation(ap, (current, ListOf(annotations, current)[j]), larger)
    ensures Emitting(aps + [ap], flat + [(current, ListOf(annotations, current)[j])], larger, annotations, done,
                     current, j + 1)
  {
    FlatOverLargerPool(aps, flat, pool, larger);
    EmitOne(flat, annotations, done, current, j);
  }

  ghost predicate TransfersInScope(sa: SliceAssignment, scope: set<Squid>)
  {
    forall r, i :: r in sa.annotations && 0 <= i < |sa.annotations[r]| && sa.annotations[r][i].stateTransfer.Some? ==>
               sa.annotations[r][i].stateTransfer.value.fromResource in scope
  }

  /** One resource's list, appended to what was emitted before. */
  method EncodeAnnotationList(sq: Squid, sa: SliceAssignment, p: ResourcePool, aps0: seq<SubsliceAnnotationP>,
                              ghost flat0: Flat, ghost done: set<Squid>)
    returns (aps: seq<SubsliceAnnotationP>, ghost flat: Flat)
    requires p.Valid() && TransfersInScope(sa, p.scope)
    requires sq in sa.annotations && sq in p.scope && sq !in done
    requires Emitting(aps0, flat0, p.pool, sa.annotations, done, sq, 0)
    modifies p
    ensures p.Valid() && old(p.pool) <= p.pool && sq in Elements(p.pool)
    ensures Emitting(aps, flat, p.pool, sa.annotations, done, sq, |ListOf(sa.annotations, sq)|)
  {
    hide *;
    var resIdx := p.GetResourceIndex(sq);
    aps, flat := aps0, flat0;
    EmittingOverLargerPool(aps, flat, old(p.pool), p.pool, sa.annotations, done, sq, 0);
    var annList := ListOf(sa.annotations, sq);
    for j := 0 to |annList|
      invariant p.Valid() && old(p.pool) <= p.pool
      invariant IndexResolves(resIdx, sq, p.pool)
      invariant Emitting(aps, flat, p.pool, sa.annotations, done, sq, j)
    {
      ghost var earlier := p.pool;
      TransferInScope(sa, p.scope, sq, j);
      var ap := EncodeAnnotation(annList[j], resIdx, sq, p);
      IndexOverLargerPool(resIdx, sq, earlier, p.pool);
      EmittingStep(aps, flat, earlier, sa.annotations, done, sq, j, ap, p.pool);
      aps := aps + [ap];
      flat := flat + [(sq, annList[j])];
    }
    ResolvedIsInPool(resIdx, sq, p.pool);
  }

  lemma EmittingOverLargerPool(aps: seq<SubsliceAnnotationP>, flat: Flat, pool: seq<Squid>, larger: seq<Squid>,
                               annotations: Annotations, done: set<Squid>, current: Squid, j: nat)
    requires j <= |ListOf(annotations, current)| && Emitting(aps, flat, pool, annotations, done, current, j)
    requires pool <= larger
    ensures Emitting(aps, flat, larger, annotations, done, current, j)
  {
    hide EncodesFlat, Emitted;
    FlatOverLargerPool(aps, flat, pool, larger);
  }

  lemma TransferInScope(sa: SliceAssignment, scope: set<Squid>, sq: Squid, j: nat)
    requires TransfersInScope(sa, scope) && sq in sa.annotations && j < |ListOf(sa.annotations, sq)|
    ensures var ann := ListOf(sa.annotations, sq)[j];
            ann.stateTransfer.Some? ==> ann.stateTransfer.value.fromResource in scope
  {
  }

  lemma ResolvedIsInPool(idx: int32, sq: Squid, pool: seq<Squid>)
    requires IndexResolves(idx, sq, pool)
    ensures sq in Elements(pool)
  {
  }

  ghost predicate EmittedAll(flat: Flat, annotations: Annotations, done: set<Squid>)
  {
    forall r :: Group(flat, r) == if r in done then ListOf(annotations, r) else []
  }

  lemma StartList(aps: seq<SubsliceAnnotationP>, flat: Flat, pool: seq<Squid>, annotations: Annotations,
                  done: set<Squid>, current: Squid)
    requires EncodesFlat(aps, flat, pool) && EmittedAll(flat, annotations, done)
    ensures Emitting(aps, flat, pool, annotations, done, current, 0)
  {
    hide EncodesFlat, Group, ListOf;
  }

  lemma FinishList(aps: seq<SubsliceAnnotationP>, flat: Flat, pool: seq<Squid>, annotations: Annotations,
                   done: set<Squid>, current: Squid)
    requires Emitting(aps, flat, pool, annotations, done, current, |ListOf(annotations, current)|)
    ensures EncodesFlat(aps, flat, pool) && EmittedAll(flat, annotations, done + {current})
  {
    hide EncodesFlat, Group, ListOf;
    assert ListOf(annotations, current)[..|ListOf(annotations, current)|] == ListOf(annotations, current);
  }

  lemma AllEmitted(aps: seq<SubsliceAnnotationP>, flat: Flat, pool: seq<Squid>, annotations: Annotations)
    requires EncodesFlat(aps, flat, pool) && EmittedAll(flat, annotations, annotations.Keys)
    ensures EncodesAnnotations(aps, annotations, pool)
  {
    hide EncodesFlat, Group;
    assert Lists(flat, annotations);
  }

  lemma EmptyEmitted(pool: seq<Squid>, annotations: Annotations)
    ensures EncodesFlat([], [], pool) && EmittedAll([], annotations, {})
  {
  }

  /** The map of annotations is visited in an order of the runtime's choosing. */
  method EncodeAnnotations(sa: SliceAssignment, p: ResourcePool) returns (aps: seq<SubsliceAnnotationP>)
    requires p.Valid() && sa.annotations.Keys <= p.scope && TransfersInScope(sa, p.scope)
    modifies p
    ensures p.Valid() && old(p.pool) <= p.pool
    ensures sa.annotations.Keys <= Elements(p.pool)
    ensures EncodesAnnotations(aps, sa.annotations, p.pool)
  {
    hide EncodesFlat, EmittedAll, Emitting, EncodesAnnotations, TransfersInScope, Elements, EncodedPool;
    hide NoDuplicates, ListOf;
    aps := [];
    ghost var flat: Flat := [];
    EmptyEmitted(p.pool, sa.annotations);
    var remaining := sa.annotations.Keys;
    ghost var done: set<Squid> := {};
    while remaining != {}
      invariant remaining + done == sa.annotations.Keys && remaining !! done
      invariant p.Valid() && old(p.pool) <= p.pool
      invariant done <= Elements(p.pool)
      invariant EncodesFlat(aps, flat, p.pool)
      invariant EmittedAll(flat, sa.annotations, done)
      decreases remaining
    {
      var sq :| sq in remaining;
      ghost var before := p.pool;
      StartList(aps, flat, p.pool, sa.annotations, done, sq);
      aps, flat := EncodeAnnotationList(sq, sa, p, aps, flat, done);
      ElementsGrow(before, p.pool);
      FinishList(aps, flat, p.pool, sa.annotations, done, sq);
      remaining := remaining - {sq};
      done := done + {sq};
    }
    assert done == sa.annotations.Keys;
    AllEmitted(aps, flat, p.pool, sa.annotations);
  }

  lemma ElementsGrow<T>(small: seq<T>, large: seq<T>)
    requires small <= large
    ensures Elements(small) <= Elements(large)
  {
    forall x | x in small
      ensures x in large
    {
      var i :| 0 <= i < |small| && small[i] == x;
      assert large[i] == x;
    }
  }

  method EncodeSliceAssignment(sa: SliceAssignment, p: ResourcePool) returns (sap: SliceAssignmentP)
    requires p.Valid() && MentionedIn(sa) <= p.scope
    modifies p
    ensures p.Valid() && old(p.pool) <= p.pool
    ensures EncodesSliceAssignment(sap, sa, p.pool)
  {
    var indices := EncodeIndices(ResourcesOf(sa), p);
    ghost var before := p.pool;
    MentionedTransfers(sa, p.scope);
    var annotations := EncodeAnnotations(sa, p);
    IndicesOverLargerPool(indices, ResourcesOf(sa), before, p.pool);
    sap := SliceAssignmentP(Some(SliceToProto(SliceOf(sa))), Some(GenerationToProto(sa.generation)), indices,
                            annotations, sa.primaryRateLoad);
  }

  lemma MentionedTransfers(sa: SliceAssignment, scope: set<Squid>)
    requires MentionedIn(sa) <= scope
    ensures TransfersInScope(sa, scope)
  {
    forall r, i | r in sa.annotations && 0 <= i < |sa.annotations[r]| && sa.annotations[r][i].stateTransfer.Some?
      ensures sa.annotations[r][i].stateTransfer.value.fromResource in scope
    {
      assert sa.annotations[r][i].stateTransfer.value.fromResource in MentionedIn(sa);
    }
  }

  method EncodeSlices(entries: seq<SliceAssignment>, p: ResourcePool) returns (saps: seq<SliceAssignmentP>)
    requires p.Valid() && forall i :: 0 <= i < |entries| ==> MentionedIn(entries[i]) <= p.scope
    modifies p
    ensures p.Valid()
    ensures EncodesSlices(saps, entries, p.pool)
  {
    hide EncodesSliceAssignment, MentionedIn, EncodedPool, NoDuplicates, Elements;
    saps := [];
    for i := 0 to |entries|
      invariant p.Valid()
      invariant EncodesSlices(saps, entries[..i], p.pool)
    {
      ghost var before := p.pool;
      var sap := EncodeSliceAssignment(entries[i], p);
      SlicesOverLargerPool(saps, entries[..i], before, p.pool);
      saps := saps + [sap];
      assert entries[..i + 1] == entries[..i] + [entries[i]];
    }
    assert entries[..|entries|] == entries;
  }

  method AssignmentToProto(a: Assignment) returns (p: DiffAssignmentP)
    ensures IsEncoding(p, a)
  {
    var entries := a.sliceMap.entries;
    var resourcePool := new ResourcePool(Mentioned(entries));
    forall i | 0 <= i < |entries|
      ensures MentionedIn(entries[i]) <= resourcePool.scope
    {
      MentionedOfEntry(entries, i);
    }
    var sliceAssignments := EncodeSlices(entries, resourcePool);
    ghost var pool := resourcePool.pool;
    MentionedInPool(sliceAssignments, entries, pool);
    p := DiffAssignmentP(Some(GenerationToProto(a.generation)), sliceAssignments, resourcePool.resources, a.isFrozen);
    assert IsEncodingOf(p, a, pool);
  }

  lemma MentionedOfEntry(entries: seq<SliceAssignment>, i: nat)
    requires i < |entries|
    ensures MentionedIn(entries[i]) <= Mentioned(entries)
  {
  }

  // Whatever is encoded by index stands in the pool.

  lemma MentionedInPool(saps: seq<SliceAssignmentP>, entries: seq<SliceAssignment>, pool: seq<Squid>)
    requires EncodesSlices(saps, entries, pool)
    ensures Mentioned(entries) <= Elements(pool)
  {
    forall i | 0 <= i < |entries|
      ensures MentionedIn(entries[i]) <= Elements(pool)
    {
      EntryMentionedInPool(saps[i], entries[i], pool);
    }
  }

  lemma EntryMentionedInPool(sap: SliceAssignmentP, sa: SliceAssignment, pool: seq<Squid>)
    requires EncodesSliceAssignment(sap, sa, pool)
    ensures MentionedIn(sa) <= Elements(pool)
  {
    forall r | r in ResourcesOf(sa)
      ensures r in pool
    {
      var i :| 0 <= i < |ResourcesOf(sa)| && ResourcesOf(sa)[i] == r;
      assert IndexResolves(sap.resourceIndices[i], r, pool);
    }
    var flat: Flat :| EncodesFlat(sap.subsliceAnnotations, flat, pool) && Lists(flat, sa.annotations);
    forall r, i | r in sa.annotations && 0 <= i < |sa.annotations[r]| && sa.annotations[r][i].stateTransfer.Some?
      ensures sa.annotations[r][i].stateTransfer.value.fromResource in pool
    {
      assert Group(flat, r) == ListOf(sa.annotations, r);
      var k := GroupedFrom(flat, r, i);
      assert EncodesAnnotation(sap.subsliceAnnotations[k], flat[k], pool);
    }
  }

  lemma {:induction false} GroupedFrom(flat: Flat, r: Squid, i: nat) returns (k: nat)
    requires i < |Group(flat, r)|
    ensures k < |flat| && flat[k] == (r, Group(flat, r)[i])
  {
    var n := |flat| - 1;
    if i < |Group(flat[..n], r)| {
      k := GroupedFrom(flat[..n], r, i);
    } else {
      k := n;
    }
  }
}
