/** Decoding undoes encoding. */
module RoundTrips {
  import opened Wrappers
  import opened Words
  import opened Slices
  import opened Partitions
  import opened SliceMaps
  import opened Generations
  import opened Squids
  import opened Assignments
  import opened Wire
  import opened Decoding
  import opened Encoding
  import opened Meanings

  /** The number of squids that indices can tell apart. */
  const INDEX_LIMIT := 0x8000_0000

  lemma SmallPoolResolves(idx: int32, sq: Squid, pool: seq<Squid>)
    requires |pool| <= INDEX_LIMIT && IndexResolves(idx, sq, pool)
    ensures Names(idx, sq, pool)
  {
    var k :| StandsAt(sq, k, pool) && idx == WrapInt32(k);
  }

  lemma SmallPoolNamesAll(indices: seq<int32>, squids: seq<Squid>, pool: seq<Squid>)
    requires |pool| <= INDEX_LIMIT && IndicesResolve(indices, squids, pool)
    ensures NameAll(indices, squids, pool)
  {
    forall i | 0 <= i < |indices|
      ensures Names(indices[i], squids[i], pool)
    {
      SmallPoolResolves(indices[i], squids[i], pool);
    }
  }

  lemma {:induction false} InGroup(flat: Flat, k: nat) returns (i: nat)
    requires k < |flat|
    ensures i < |Group(flat, flat[k].0)| && Group(flat, flat[k].0)[i] == flat[k].1
  {
    var n := |flat| - 1;
    if k < n {
      i := InGroup(flat[..n], k);
    } else {
      i := |Group(flat[..n], flat[n].0)|;
    }
  }

  lemma EncodedAnnotationSays(ap: SubsliceAnnotationP, x: (Squid, SubsliceAnnotation), pool: seq<Squid>)
    requires EncodesAnnotation(ap, x, pool) && x.1.subslice.WellFormed() && |pool| <= INDEX_LIMIT
    ensures SaysAnnotation(ap, x, pool)
  {
    SmallPoolResolves(ap.resourceId, x.0, pool);
    if x.1.stateTransfer.Some? {
      SmallPoolResolves(ap.stateTransfer.value.fromResourceId, x.1.stateTransfer.value.fromResource, pool);
    }
  }

  lemma EncodedAnnotationsSay(aps: seq<SubsliceAnnotationP>, annotations: Annotations, pool: seq<Squid>)
    requires EncodesAnnotations(aps, annotations, pool) && |pool| <= INDEX_LIMIT
    requires forall r :: r in annotations ==> annotations[r] != [] && SubslicesWellFormed(annotations[r])
    ensures SaysAnnotations(aps, annotations, pool)
  {
    var flat: Flat :| EncodesFlat(aps, flat, pool) && Lists(flat, annotations);
    forall k | 0 <= k < |flat|
      ensures SaysAnnotation(aps[k], flat[k], pool)
    {
      var i := InGroup(flat, k);
      assert Group(flat, flat[k].0) == ListOf(annotations, flat[k].0);
      EncodedAnnotationSays(aps[k], flat[k], pool);
    }
    assert SaysFlat(aps, flat, pool);
  }

  /** Whatever the order the annotations were written in, they come back as the same map. */
  lemma AnnotationMapRoundTrip(aps: seq<SubsliceAnnotationP>, annotations: Annotations, pool: seq<Squid>)
    requires EncodesAnnotations(aps, annotations, pool) && |pool| <= INDEX_LIMIT
    requires forall r :: r in annotations ==> annotations[r] != [] && SubslicesWellFormed(annotations[r])
    ensures DecodeAnnotations(map[], aps, pool) == Done(annotations)
  {
    EncodedAnnotationsSay(aps, annotations, pool);
    AnnotationsDecode(aps, annotations, pool);
  }

  // ---------------------------------------------------------------------------
  // Whole messages
  // ---------------------------------------------------------------------------

  lemma EncodedSliceSays(sap: SliceAssignmentP, sa: SliceAssignment, pool: seq<Squid>)
    requires EncodesSliceAssignment(sap, sa, pool) && BuiltSliceAssignment(sa) && |pool| <= INDEX_LIMIT
    ensures SaysSliceAssignment(sap, sa, pool)
  {
    SmallPoolNamesAll(sap.resourceIndices, ResourcesOf(sa), pool);
    EncodedAnnotationsSay(sap.subsliceAnnotations, sa.annotations, pool);
  }

  lemma EncodedPoolSays(pool: seq<Squid>)
    requires CanonicalSquids(pool)
    ensures SaysPool(EncodedPool(pool), pool)
  {
  }

  lemma CanonicalMentions(entries: seq<SliceAssignment>, pool: seq<Squid>)
    requires Elements(pool) == Mentioned(entries)
    requires forall i :: 0 <= i < |entries| ==> CanonicalSliceAssignment(entries[i])
    ensures CanonicalSquids(pool)
  {
    forall r | r in pool
      ensures r.resourceUuid.Canonical?
    {
      assert r in Elements(pool);
      var i :| 0 <= i < |entries| && r in MentionedIn(entries[i]);
      assert CanonicalSliceAssignment(entries[i]);
    }
  }

  lemma PartsOfEncoding(p: DiffAssignmentP, a: Assignment, pool: seq<Squid>)
    requires IsEncodingOf(p, a, pool) && BuiltAssignment(a) && CanonicalAssignment(a)
    ensures p.generation == Some(GenerationToProto(a.generation)) && p.resources == EncodedPool(pool)
    ensures EncodesSlices(p.sliceAssignments, a.sliceMap.entries, pool) && AllBuilt(a.sliceMap.entries)
    ensures CanonicalSquids(pool)
  {
    hide EncodesSlices, AllBuilt, Mentioned, Elements, EncodedPool, CanonicalSliceAssignment, CanonicalSquids;
    hide GenerationToProto;
    CanonicalMentions(a.sliceMap.entries, pool);
  }

  lemma EncodedEntriesSay(saps: seq<SliceAssignmentP>, entries: seq<SliceAssignment>, pool: seq<Squid>)
    requires EncodesSlices(saps, entries, pool) && AllBuilt(entries) && |pool| <= INDEX_LIMIT
    ensures SaysSlices(saps, entries, pool)
  {
    hide EncodesSliceAssignment, SaysSliceAssignment, BuiltSliceAssignment;
    forall i | 0 <= i < |saps|
      ensures SaysSliceAssignment(saps[i], entries[i], pool)
    {
      EncodedSliceSays(saps[i], entries[i], pool);
    }
  }

  // ---------------------------------------------------------------------------
  // Too many squids
  // ---------------------------------------------------------------------------

  /** The message refers to a squid by this index. */
  ghost predicate HasIndex(sap: SliceAssignmentP, idx: int32)
  {
    || idx in sap.resourceIndices
    || exists k :: 0 <= k < |sap.subsliceAnnotations| && AnnotationHasIndex(sap.subsliceAnnotations[k], idx)
  }

  predicate AnnotationHasIndex(ap: SubsliceAnnotationP, idx: int32)
  {
    ap.resourceId == idx || (ap.stateTransfer.Some? && ap.stateTransfer.value.fromResourceId == idx)
  }

  /** Every squid that is mentioned is referred to by index somewhere. */
  lemma MentionHasIndex(sap: SliceAssignmentP, sa: SliceAssignment, pool: seq<Squid>, r: Squid) returns (idx: int32)
    requires EncodesSliceAssignment(sap, sa, pool) && BuiltSliceAssignment(sa) && r in MentionedIn(sa)
    ensures HasIndex(sap, idx) && IndexResolves(idx, r, pool)
  {
    if r in ResourcesOf(sa) {
      var i :| 0 <= i < |ResourcesOf(sa)| && ResourcesOf(sa)[i] == r;
      idx := sap.resourceIndices[i];
      assert IndexResolves(idx, r, pool);
    } else {
      assert r !in sa.annotations;
      var q, i :| q in sa.annotations && 0 <= i < |sa.annotations[q]| && sa.annotations[q][i].stateTransfer.Some?
                  && sa.annotations[q][i].stateTransfer.value.fromResource == r;
      var flat: Flat :| EncodesFlat(sap.subsliceAnnotations, flat, pool) && Lists(flat, sa.annotations);
      assert Group(flat, q) == ListOf(sa.annotations, q);
      var k := GroupedFrom(flat, q, i);
      assert EncodesAnnotation(sap.subsliceAnnotations[k], flat[k], pool);
      idx := sap.subsliceAnnotations[k].stateTransfer.value.fromResourceId;
      assert AnnotationHasIndex(sap.subsliceAnnotations[k], idx);
    }
  }

  lemma NegativeIndexIsOutOfRange(sap: SliceAssignmentP, idx: int32)
    requires HasIndex(sap, idx) && idx < 0
    ensures !SliceAssignmentInRange(sap)
  {
    if idx !in sap.resourceIndices {
      var k :| 0 <= k < |sap.subsliceAnnotations| && AnnotationHasIndex(sap.subsliceAnnotations[k], idx);
      assert !AnnotationInRange(sap.subsliceAnnotations[k]);
    }
  }

  /** The first squid beyond the limit gets a negative index. */
  lemma LimitIsNegative(idx: int32, pool: seq<Squid>)
    requires NoDuplicates(pool) && |pool| > INDEX_LIMIT && IndexResolves(idx, pool[INDEX_LIMIT], pool)
    ensures idx < 0
  {
    var k :| StandsAt(pool[INDEX_LIMIT], k, pool) && idx == WrapInt32(k);
    assert k == INDEX_LIMIT;
  }

  lemma LargePoolIsOutOfRange(p: DiffAssignmentP, a: Assignment, pool: seq<Squid>)
    requires IsEncodingOf(p, a, pool) && BuiltAssignment(a) && |pool| > INDEX_LIMIT
    ensures !InRange(p)
  {
    hide EncodesSliceAssignment, MentionedIn, BuiltSliceAssignment, HasIndex, SliceAssignmentInRange, IndexResolves;
    var entries := a.sliceMap.entries;
    var r := pool[INDEX_LIMIT];
    assert r in Elements(pool);
    var i :| 0 <= i < |entries| && r in MentionedIn(entries[i]);
    var idx := MentionHasIndex(p.sliceAssignments[i], entries[i], pool, r);
    LimitIsNegative(idx, pool);
    NegativeIndexIsOutOfRange(p.sliceAssignments[i], idx);
  }

  // ---------------------------------------------------------------------------
  // Main results
  // ---------------------------------------------------------------------------

  /** Indices can tell the squids apart that the assignment mentions. */
  ghost predicate FitsIndices(a: Assignment)
  {
    |Mentioned(a.sliceMap.entries)| <= INDEX_LIMIT
  }

  /** The round trip. For an assignment that passed the constructors and any message that encodes
      it, decoding succeeds with that very assignment exactly when every UUID it mentions is in the
      canonical spelling, it is in eventual mode, and it mentions no more than 2^31 squids: the
      message carries neither another spelling nor the mode, and its indices have 32 bits. */
  lemma AssignmentRoundTrip(p: DiffAssignmentP, a: Assignment)
    requires IsEncoding(p, a) && BuiltAssignment(a)
    ensures Decode(Some(p)) == Done(a) <==> CanonicalAssignment(a) && a.mode == Eventual && FitsIndices(a)
  {
    hide Decode, BuiltAssignment, CanonicalAssignment, Mentioned;
    var pool :| IsEncodingOf(p, a, pool);
    DistinctCount(pool);
    if CanonicalAssignment(a) && a.mode == Eventual && FitsIndices(a) {
      WholeRoundTrips(p, a, pool);
    } else if Decode(Some(p)).Done? {
      DecodedIsBuilt(Some(p));
      DecodedIsInRange(p);
      if !FitsIndices(a) {
        LargePoolIsOutOfRange(p, a, pool);
      }
    }
  }

  lemma WholeRoundTrips(p: DiffAssignmentP, a: Assignment, pool: seq<Squid>)
    requires IsEncodingOf(p, a, pool) && BuiltAssignment(a) && CanonicalAssignment(a) && |pool| <= INDEX_LIMIT
    requires a.mode == Eventual
    ensures Decode(Some(p)) == Done(a)
  {
    hide Decode, CanonicalAssignment, EncodesSlices, SaysSlices, SaysPool, Mentioned, AllBuilt, AcceptableAssignment;
    PartsOfEncoding(p, a, pool);
    EncodedPoolSays(pool);
    EncodedEntriesSay(p.sliceAssignments, a.sliceMap.entries, pool);
    assert SaysOver(p, a, pool);
    DecodesToWhatItSays(p, a);
  }

  /** An assignment in all else fit for the wire comes back in eventual mode, whatever its mode. */
  lemma ModeIsNotCarried(p: DiffAssignmentP, a: Assignment)
    requires IsEncoding(p, a) && BuiltAssignment(a)
    ensures Decode(Some(p)) == Done(a.(mode := Eventual)) <==> CanonicalAssignment(a) && FitsIndices(a)
  {
    hide Decode;
    var pool :| IsEncodingOf(p, a, pool);
    assert IsEncodingOf(p, a.(mode := Eventual), pool);
    AssignmentRoundTrip(p, a.(mode := Eventual));
  }

  // ---------------------------------------------------------------------------
  // What was decoded
  // ---------------------------------------------------------------------------

  /** The squids that an index can name. */
  ghost function Reachable(pool: seq<Squid>): set<Squid>
  {
    Elements(if |pool| <= INDEX_LIMIT then pool else pool[..INDEX_LIMIT])
  }

  lemma {:induction false} ElementsCount(s: seq<Squid>)
    ensures |Elements(s)| <= |s|
  {
    if s != [] {
      var n := |s| - 1;
      ElementsCount(s[..n]);
      assert s == s[..n] + [s[n]];
      assert Elements(s) == Elements(s[..n]) + {s[n]};
    }
  }

  lemma IndexReaches(idx: int32, pool: seq<Squid>)
    requires 0 <= idx < |pool|
    ensures pool[idx] in Reachable(pool)
  {
    assert idx < INDEX_LIMIT;
    if |pool| > INDEX_LIMIT {
      assert pool[..INDEX_LIMIT][idx] == pool[idx];
    }
  }

  lemma SaidAnnotationReaches(aps: seq<SubsliceAnnotationP>, m: Annotations, pool: seq<Squid>, r: Squid, i: nat)
    requires SaysAnnotations(aps, m, pool) && r in m && i < |m[r]|
    ensures r in Reachable(pool)
    ensures m[r][i].stateTransfer.Some? ==> m[r][i].stateTransfer.value.fromResource in Reachable(pool)
  {
    hide Reachable, SaysSlice;
    var flat: Flat :| SaysFlat(aps, flat, pool) && Lists(flat, m);
    assert Group(flat, r) == ListOf(m, r);
    var k := GroupedFrom(flat, r, i);
    assert SaysAnnotation(aps[k], flat[k], pool);
    IndexReaches(aps[k].resourceId, pool);
    if m[r][i].stateTransfer.Some? {
      IndexReaches(aps[k].stateTransfer.value.fromResourceId, pool);
    }
  }

  lemma SaidSliceReaches(sap: SliceAssignmentP, sa: SliceAssignment, pool: seq<Squid>)
    requires SaysSliceAssignment(sap, sa, pool)
    ensures MentionedIn(sa) <= Reachable(pool)
  {
    hide Reachable, BuiltSliceAssignment, SaysSlice, SaysFlat, Lists, SaysAnnotations;
    assert SaysAnnotations(sap.subsliceAnnotations, sa.annotations, pool);
    AnnotatedHaveAnnotations(sap.subsliceAnnotations, sa.annotations, pool);
    forall r | r in ResourcesOf(sa)
      ensures r in Reachable(pool)
    {
      var i :| 0 <= i < |ResourcesOf(sa)| && ResourcesOf(sa)[i] == r;
      assert Names(sap.resourceIndices[i], r, pool);
      IndexReaches(sap.resourceIndices[i], pool);
    }
    forall r | r in sa.annotations
      ensures r in Reachable(pool)
    {
      SaidAnnotationReaches(sap.subsliceAnnotations, sa.annotations, pool, r, 0);
    }
    forall r, i: nat | r in sa.annotations && i < |sa.annotations[r]| && sa.annotations[r][i].stateTransfer.Some?
      ensures sa.annotations[r][i].stateTransfer.value.fromResource in Reachable(pool)
    {
      SaidAnnotationReaches(sap.subsliceAnnotations, sa.annotations, pool, r, i);
    }
  }

  lemma AnnotatedHaveAnnotations(aps: seq<SubsliceAnnotationP>, m: Annotations, pool: seq<Squid>)
    requires SaysAnnotations(aps, m, pool)
    ensures forall r :: r in m ==> 0 < |m[r]|
  {
  }

  /** What was decoded was named by indices, so indices can name it again. */
  lemma DecodedFits(p: Option<DiffAssignmentP>)
    requires Decode(p).Done?
    ensures FitsIndices(Decode(p).value)
  {
    hide Decode, SaysPool, SaysSliceAssignment, MentionedIn, Reachable, BuiltAssignment;
    OnlyMessagesDecode(p);
    var a := Decode(p).value;
    DecodesToWhatItSays(p.value, a);
    var pool: seq<Squid> :| SaysOver(p.value, a, pool);
    var entries := a.sliceMap.entries;
    forall i | 0 <= i < |entries|
      ensures MentionedIn(entries[i]) <= Reachable(pool)
    {
      SaidSliceReaches(p.value.sliceAssignments[i], entries[i], pool);
    }
    ReachableCount(pool);
    SubsetCount(Mentioned(entries), Reachable(pool));
  }

  lemma ReachableCount(pool: seq<Squid>)
    ensures |Reachable(pool)| <= INDEX_LIMIT
  {
    ElementsCount(if |pool| <= INDEX_LIMIT then pool else pool[..INDEX_LIMIT]);
  }

  lemma SubsetCount<T>(a: set<T>, b: set<T>)
    requires a <= b
    ensures |a| <= |b|
  {
    assert b == a + (b - a);
  }

  /** What came off the wire goes back onto it unharmed: any message that encodes it decodes to it. */
  lemma DecodedGoesBack(p: DiffAssignmentP, a: Assignment)
    requires WasDecoded(a) && IsEncoding(p, a)
    ensures Decode(Some(p)) == Done(a)
  {
    hide Decode, BuiltAssignment, CanonicalAssignment, FitsIndices, IsEncoding;
    var q :| Decode(q) == Done(a);
    DecodedIsBuilt(q);
    DecodedFits(q);
    AssignmentRoundTrip(p, a);
  }

  // ---------------------------------------------------------------------------
  // An assignment that does not survive
  // ---------------------------------------------------------------------------

  /** Incarnations of one server, told apart by when they were created. */
  ghost function Incarnations(n: nat): (s: seq<Squid>)
    requires n <= 2 * INDEX_LIMIT
    ensures |s| == n && NoDuplicates(s) && CanonicalSquids(s)
  {
    var uuid: Uuid := seq(16, _ => 0);
    seq(n, i requires 0 <= i < n => Squid("server", i, Canonical(uuid)))
  }

  /** One slice with one replica too many: it passes every constructor, and what it is encoded to does
      not decode to it. */
  lemma TooManyReplicas() returns (a: Assignment)
    ensures BuiltAssignment(a) && CanonicalAssignment(a) && a.mode == Eventual && !FitsIndices(a)
    ensures forall p :: IsEncoding(p, a) ==> Decode(Some(p)) != Done(a)
  {
    var squids := Incarnations(INDEX_LIMIT + 1);
    var gen := Generation(0, 1);
    var sa := SliceAssignment(SliceWithResources(Slice([], Infinity), squids), gen, map[], None);
    a := Assignment(gen, false, Eventual, SliceMap([sa]));
    hide Incarnations, Decode, IsEncoding;
    OneSliceIsBuilt(a, sa);
    DistinctCount(squids);
    assert Elements(squids) <= MentionedIn(sa) <= Mentioned([sa]) by { MentionedOfEntry([sa], 0); }
    SubsetCount(Elements(squids), Mentioned([sa]));
    forall p | IsEncoding(p, a)
      ensures Decode(Some(p)) != Done(a)
    {
      AssignmentRoundTrip(p, a);
    }
  }

  lemma OneSliceIsBuilt(a: Assignment, sa: SliceAssignment)
    requires a.sliceMap.entries == [sa] && SliceOf(sa) == Slice([], Infinity) && ResourcesOf(sa) != []
    requires a.generation == sa.generation && !a.generation.IsEmpty() && sa.annotations == map[]
             && sa.primaryRateLoad.None?
    requires CanonicalSquids(ResourcesOf(sa))
    ensures BuiltAssignment(a) && CanonicalAssignment(a)
  {
    var slices := SlicesOf([sa], SliceOf);
    assert slices[0] == Slice([], Infinity) && CompleteFrom(Infinity, slices[1..]);
  }
}
