/**
 What a message says, field by field and without a decoder. A message decodes to an assignment
 exactly if it says that assignment, whoever wrote it.
 */
module Meanings {
  import opened Wrappers
  import opened Words
  import opened Slices
  import opened Partitions
  import opened SliceMaps
  import opened Generations
  import opened Squids
  import opened UuidWords
  import opened Assignments
  import opened Wire
  import opened Decoding
  import opened Encoding

  // ---------------------------------------------------------------------------
  // What the parts say
  // ---------------------------------------------------------------------------

  /** A missing generation says the empty one. */
  predicate SaysGeneration(p: Option<GenerationP>, g: Generation)
  {
    if p.None? then g == Generation(0, 0)
    else p.value.incarnation == g.incarnation && p.value.number == WrapInt64(g.number)
  }

  /** An infinite bound has two spellings: the flag, whatever key stands beside it, or no key. */
  predicate SaysSlice(p: Option<SliceP>, s: Slice)
  {
    && p.Some? && s.WellFormed()
    && p.value.lowInclusive == s.low
    && (s.high.Infinity? <==> p.value.isHighInfinity || p.value.highExclusive.None?)
    && (s.high.Finite? ==> p.value.highExclusive == Some(s.high.key))
  }

  predicate SaysSquid(p: Option<SquidP>, sq: Squid)
  {
    && p.Some?
    && p.value.resourceAddress == sq.resourceAddress
    && p.value.creationTimeMillis == sq.creationTimeMillis
    && sq.resourceUuid.Canonical?
    && p.value.resourceUuidHigh == HighWord(sq.resourceUuid.uuid)
    && p.value.resourceUuidLow == LowWord(sq.resourceUuid.uuid)
  }

  ghost predicate SaysPool(ps: seq<Option<SquidP>>, pool: seq<Squid>)
  {
    |ps| == |pool| && forall i :: 0 <= i < |ps| ==> SaysSquid(ps[i], pool[i])
  }

  predicate Names(idx: int32, sq: Squid, pool: seq<Squid>)
  {
    0 <= idx < |pool| && pool[idx] == sq
  }

  ghost predicate NameAll(indices: seq<int32>, squids: seq<Squid>, pool: seq<Squid>)
  {
    |indices| == |squids| && forall i :: 0 <= i < |indices| ==> Names(indices[i], squids[i], pool)
  }

  /** A transfer's own number says nothing. */
  predicate SaysTransfer(p: Option<TransferP>, t: Option<Transfer>, pool: seq<Squid>)
  {
    (p.Some? <==> t.Some?) && (p.Some? && t.Some? ==> Names(p.value.fromResourceId, t.value.fromResource, pool))
  }

  predicate SaysAnnotation(ap: SubsliceAnnotationP, x: (Squid, SubsliceAnnotation), pool: seq<Squid>)
  {
    && Names(ap.resourceId, x.0, pool)
    && SaysSlice(ap.subslice, x.1.subslice)
    && ap.generationNumber == WrapInt64(x.1.continuousGenerationNumber)
    && SaysTransfer(ap.stateTransfer, x.1.stateTransfer, pool)
  }

  ghost predicate SaysFlat(aps: seq<SubsliceAnnotationP>, flat: Flat, pool: seq<Squid>)
  {
    |aps| == |flat| && forall i :: 0 <= i < |aps| ==> SaysAnnotation(aps[i], flat[i], pool)
  }

  /** Each resource has the annotations that name it, in the order in which they stand, and only
      resources that are named have any. */
  ghost predicate SaysAnnotations(aps: seq<SubsliceAnnotationP>, m: Annotations, pool: seq<Squid>)
  {
    && (forall r :: r in m ==> m[r] != [])
    && exists flat :: SaysFlat(aps, flat, pool) && Lists(flat, m)
  }

  ghost predicate SaysSliceAssignment(sap: SliceAssignmentP, sa: SliceAssignment, pool: seq<Squid>)
  {
    && SaysSlice(sap.slice, SliceOf(sa))
    && SaysGeneration(sap.generation, sa.generation)
    && NameAll(sap.resourceIndices, ResourcesOf(sa), pool)
    && SaysAnnotations(sap.subsliceAnnotations, sa.annotations, pool)
    && sap.primaryRateLoad == sa.primaryRateLoad
    && BuiltSliceAssignment(sa)
  }

  ghost predicate SaysSlices(saps: seq<SliceAssignmentP>, entries: seq<SliceAssignment>, pool: seq<Squid>)
  {
    |saps| == |entries| && forall i :: 0 <= i < |saps| ==> SaysSliceAssignment(saps[i], entries[i], pool)
  }

  ghost predicate SaysOver(p: DiffAssignmentP, a: Assignment, pool: seq<Squid>)
  {
    && SaysPool(p.resources, pool)
    && SaysGeneration(p.generation, a.generation)
    && SaysSlices(p.sliceAssignments, a.sliceMap.entries, pool)
    && p.isFrozen == a.isFrozen && a.mode == Eventual
    && BuiltAssignment(a)
  }

  ghost predicate Says(p: DiffAssignmentP, a: Assignment)
  {
    exists pool :: SaysOver(p, a, pool)
  }

  // ---------------------------------------------------------------------------
  // The parts decode to what they say
  // ---------------------------------------------------------------------------

  lemma GenerationDecodes(p: Option<GenerationP>, g: Generation)
    ensures GenerationFromProto(p) == Done(g) <==> SaysGeneration(p, g)
  {
    Uint64RoundTrip(g.number);
  }

  lemma SliceDecodes(p: Option<SliceP>, s: Slice)
    ensures SliceFromProto(p) == Done(s) <==> SaysSlice(p, s)
  {
  }

  lemma SquidDecodes(p: Option<SquidP>, sq: Squid)
    ensures SquidFromProto(p) == Done(sq) <==> SaysSquid(p, sq)
  {
    hide FromWords, HighWord, LowWord;
    if p.Some? {
      UuidRoundTripWords(p.value.resourceUuidHigh, p.value.resourceUuidLow);
    }
    if sq.resourceUuid.Canonical? {
      WordsRoundTripUuid(sq.resourceUuid.uuid);
    }
  }

  lemma NotPrefix<X>(longer: seq<X>, done: seq<X>, rest: seq<X>)
    requires |longer| == |done| + 1 && done <= longer
    ensures longer <= done + rest <==> rest != [] && rest[0] == longer[|done|]
  {
    if longer <= done + rest {
      assert (done + rest)[|done|] == longer[|done|];
    }
  }

  lemma {:induction false} PoolDecodes(done: seq<Squid>, ps: seq<Option<SquidP>>, pool: seq<Squid>)
    ensures DecodePool(done, ps) == Done(done + pool) <==> SaysPool(ps, pool)
    ensures DecodePool(done, ps).Done? ==>
              done <= DecodePool(done, ps).value && |DecodePool(done, ps).value| == |done| + |ps|
    decreases ps
  {
    hide SquidFromProto, SaysSquid;
    if ps == [] {
      assert done + pool == done <==> pool == [];
    } else {
      if pool != [] {
        SquidDecodes(ps[0], pool[0]);
        assert done + pool == done + [pool[0]] + pool[1..];
        assert SaysPool(ps, pool) <==> SaysSquid(ps[0], pool[0]) && SaysPool(ps[1..], pool[1..]) by {
          PoolSaysFirst(ps, pool);
        }
      }
      if SquidFromProto(ps[0]).Done? {
        var longer := done + [SquidFromProto(ps[0]).value];
        PoolDecodes(longer, ps[1..], if pool == [] then [] else pool[1..]);
        NotPrefix(longer, done, pool);
      }
    }
  }

  lemma PoolSaysFirst(ps: seq<Option<SquidP>>, pool: seq<Squid>)
    requires ps != [] && pool != []
    ensures SaysPool(ps, pool) <==> SaysSquid(ps[0], pool[0]) && SaysPool(ps[1..], pool[1..])
  {
    hide SaysSquid;
    if SaysSquid(ps[0], pool[0]) && SaysPool(ps[1..], pool[1..]) {
      forall i | 0 <= i < |ps|
        ensures SaysSquid(ps[i], pool[i])
      {
        assert i > 0 ==> SaysSquid(ps[1..][i - 1], pool[1..][i - 1]);
      }
    }
  }

  lemma {:induction false} IndicesDecode(done: seq<Squid>, indices: seq<int32>, squids: seq<Squid>, pool: seq<Squid>)
    ensures DecodeIndices(done, indices, pool) == Done(done + squids) <==> NameAll(indices, squids, pool)
    ensures DecodeIndices(done, indices, pool).Done? ==>
              done <= DecodeIndices(done, indices, pool).value
              && |DecodeIndices(done, indices, pool).value| == |done| + |indices|
    decreases indices
  {
    if indices == [] {
      assert done + squids == done <==> squids == [];
    } else {
      if squids != [] {
        assert done + squids == done + [squids[0]] + squids[1..];
        IndicesNameFirst(indices, squids, pool);
      }
      if PoolAt(pool, indices[0]).Done? {
        var longer := done + [pool[indices[0]]];
        IndicesDecode(longer, indices[1..], if squids == [] then [] else squids[1..], pool);
        NotPrefix(longer, done, squids);
      }
    }
  }

  lemma IndicesNameFirst(indices: seq<int32>, squids: seq<Squid>, pool: seq<Squid>)
    requires indices != [] && squids != []
    ensures NameAll(indices, squids, pool) <==>
            Names(indices[0], squids[0], pool) && NameAll(indices[1..], squids[1..], pool)
  {
    hide Names;
    if Names(indices[0], squids[0], pool) && NameAll(indices[1..], squids[1..], pool) {
      forall i | 0 <= i < |indices|
        ensures Names(indices[i], squids[i], pool)
      {
        assert i > 0 ==> Names(indices[1..][i - 1], squids[1..][i - 1], pool);
      }
    }
  }

  lemma AnnotationDecodes(ap: SubsliceAnnotationP, x: (Squid, SubsliceAnnotation), pool: seq<Squid>)
    ensures AnnotationFromProto(ap, pool) == Done(x) <==> SaysAnnotation(ap, x, pool)
  {
    hide SliceFromProto, SaysSlice;
    SliceDecodes(ap.subslice, x.1.subslice);
    Uint64RoundTrip(x.1.continuousGenerationNumber);
  }

  // ---------------------------------------------------------------------------
  // Annotations
  // ---------------------------------------------------------------------------

  lemma Associates<X>(a: seq<X>, b: seq<X>, c: seq<X>)
    ensures a + b + c == a + (b + c)
  {
  }

  function Mine(x: (Squid, SubsliceAnnotation), r: Squid): seq<SubsliceAnnotation>
  {
    if x.0 == r then [x.1] else []
  }

  lemma GroupOfNone(x: (Squid, SubsliceAnnotation), r: Squid)
    ensures Group([], r) == [] && Group([x], r) == Mine(x, r)
  {
    assert [x] == [] + [x];
    GroupAppend([], x, r);
  }

  lemma {:induction false} GroupCons(x: (Squid, SubsliceAnnotation), rest: Flat, r: Squid)
    ensures Group([x] + rest, r) == Mine(x, r) + Group(rest, r)
    decreases rest
  {
    hide Group;
    GroupOfNone(x, r);
    if rest == [] {
      assert [x] + rest == [x];
    } else {
      var n := |rest| - 1;
      var before, last := rest[..n], rest[n];
      GroupCons(x, before, r);
      assert rest == before + [last] && [x] + rest == [x] + before + [last];
      GroupAppend([x] + before, last, r);
      GroupAppend(before, last, r);
      Associates(Mine(x, r), Group(before, r), Mine(last, r));
    }
  }

  /** Each list of `m` is the list of `done` continued by the flat list's group, and nothing else is in `m`. */
  ghost predicate Continues(m: Annotations, done: Annotations, flat: Flat)
  {
    && (forall r :: ListOf(m, r) == ListOf(done, r) + Group(flat, r))
    && (forall r :: r in m ==> r in done || Group(flat, r) != [])
  }

  lemma ContinuesCons(m: Annotations, done: Annotations, x: (Squid, SubsliceAnnotation), rest: Flat)
    requires Continues(m, Added(done, x.0, x.1), rest)
    ensures Continues(m, done, [x] + rest)
  {
    forall r
      ensures ListOf(m, r) == ListOf(done, r) + Group([x] + rest, r)
      ensures r in m ==> r in done || Group([x] + rest, r) != []
    {
      assert ListOf(m, r) == ListOf(Added(done, x.0, x.1), r) + Group(rest, r);
      GroupAfterAdding(done, x, rest, r);
    }
  }

  lemma AddedTo(done: Annotations, x: (Squid, SubsliceAnnotation), r: Squid)
    ensures ListOf(Added(done, x.0, x.1), r) == ListOf(done, r) + Mine(x, r)
    ensures r in Added(done, x.0, x.1) <==> r in done || x.0 == r
  {
  }

  lemma GroupAfterAdding(done: Annotations, x: (Squid, SubsliceAnnotation), rest: Flat, r: Squid)
    ensures ListOf(Added(done, x.0, x.1), r) + Group(rest, r) == ListOf(done, r) + Group([x] + rest, r)
    ensures r in Added(done, x.0, x.1) || Group(rest, r) != [] ==> r in done || Group([x] + rest, r) != []
  {
    hide Group, ListOf, Added;
    GroupCons(x, rest, r);
    AddedTo(done, x, r);
    Associates(ListOf(done, r), Mine(x, r), Group(rest, r));
  }

  lemma SaysFlatTail(aps: seq<SubsliceAnnotationP>, flat: Flat, pool: seq<Squid>)
    requires aps != [] && SaysFlat(aps, flat, pool)
    ensures SaysAnnotation(aps[0], flat[0], pool) && SaysFlat(aps[1..], flat[1..], pool)
  {
    hide SaysAnnotation;
    forall i | 0 <= i < |aps[1..]|
      ensures SaysAnnotation(aps[1..][i], flat[1..][i], pool)
    {
      assert SaysAnnotation(aps[i + 1], flat[i + 1], pool);
    }
  }

  lemma {:induction false} FlatDecodes(done: Annotations, aps: seq<SubsliceAnnotationP>, flat: Flat, pool: seq<Squid>)
    requires SaysFlat(aps, flat, pool)
    ensures DecodeAnnotations(done, aps, pool).Done?
    ensures Continues(DecodeAnnotations(done, aps, pool).value, done, flat)
    decreases aps
  {
    if aps != [] {
      hide SaysFlat, SaysAnnotation, Continues, AnnotationFromProto;
      SaysFlatTail(aps, flat, pool);
      AnnotationDecodes(aps[0], flat[0], pool);
      var next := Added(done, flat[0].0, flat[0].1);
      FlatDecodes(next, aps[1..], flat[1..], pool);
      ContinuesCons(DecodeAnnotations(next, aps[1..], pool).value, done, flat[0], flat[1..]);
      assert [flat[0]] + flat[1..] == flat;
    }
  }

  /** Annotations that decode say something. */
  lemma {:induction false} FlatExists(done: Annotations, aps: seq<SubsliceAnnotationP>, pool: seq<Squid>)
    returns (flat: Flat)
    requires DecodeAnnotations(done, aps, pool).Done?
    ensures SaysFlat(aps, flat, pool)
    decreases aps
  {
    hide SaysAnnotation, AnnotationFromProto, Added;
    flat := [];
    if aps != [] {
      var x := AnnotationFromProto(aps[0], pool).value;
      AnnotationDecodes(aps[0], x, pool);
      var rest := FlatExists(Added(done, x.0, x.1), aps[1..], pool);
      flat := [x] + rest;
      forall i | 0 <= i < |aps|
        ensures SaysAnnotation(aps[i], flat[i], pool)
      {
        assert i > 0 ==> SaysAnnotation(aps[1..][i - 1], rest[i - 1], pool);
      }
    }
  }

  lemma ContinuedFromNothing(m: Annotations, flat: Flat)
    requires Continues(m, map[], flat)
    ensures Lists(flat, m) && forall r :: r in m ==> m[r] != []
  {
    forall r
      ensures Group(flat, r) == ListOf(m, r)
    {
      assert ListOf(m, r) == ListOf(map[], r) + Group(flat, r);
    }
  }

  lemma SameLists(a: Annotations, b: Annotations, flat: Flat)
    requires Lists(flat, a) && Lists(flat, b)
    requires (forall r :: r in a ==> a[r] != []) && (forall r :: r in b ==> b[r] != [])
    ensures a == b
  {
    forall r
      ensures r in a <==> r in b
      ensures r in a ==> a[r] == b[r]
    {
      assert ListOf(a, r) == Group(flat, r) == ListOf(b, r);
    }
  }

  /** Whatever the order the annotations were written in, they decode to the map they list. */
  lemma AnnotationsDecode(aps: seq<SubsliceAnnotationP>, m: Annotations, pool: seq<Squid>)
    ensures DecodeAnnotations(map[], aps, pool) == Done(m) <==> SaysAnnotations(aps, m, pool)
  {
    hide SaysFlat, Lists, Continues;
    var decoded := DecodeAnnotations(map[], aps, pool);
    if decoded.Done? {
      var flat := FlatExists(map[], aps, pool);
      FlatDecodes(map[], aps, flat, pool);
      ContinuedFromNothing(decoded.value, flat);
    }
    if SaysAnnotations(aps, m, pool) {
      var flat: Flat :| SaysFlat(aps, flat, pool) && Lists(flat, m);
      FlatDecodes(map[], aps, flat, pool);
      ContinuedFromNothing(decoded.value, flat);
      SameLists(decoded.value, m, flat);
    }
  }

  // ---------------------------------------------------------------------------
  // Whole messages
  // ---------------------------------------------------------------------------

  lemma SliceAssignmentDecodes(sap: SliceAssignmentP, sa: SliceAssignment, pool: seq<Squid>)
    ensures DecodeSliceAssignment(sap, pool) == Done(sa) <==> SaysSliceAssignment(sap, sa, pool)
  {
    hide SaysSlice, SliceFromProto, SaysGeneration, GenerationFromProto, NameAll, DecodeIndices, DecodeAnnotations;
    hide SaysAnnotations, AcceptableSliceAssignment;
    SliceDecodes(sap.slice, SliceOf(sa));
    GenerationDecodes(sap.generation, sa.generation);
    IndicesDecode([], sap.resourceIndices, ResourcesOf(sa), pool);
    assert [] + ResourcesOf(sa) == ResourcesOf(sa);
    AnnotationsDecode(sap.subsliceAnnotations, sa.annotations, pool);
    SaidIsWellFormed(sap.slice, SliceOf(sa));
    if SaysAnnotations(sap.subsliceAnnotations, sa.annotations, pool) {
      SaidAreWellFormed(sap.subsliceAnnotations, sa.annotations, pool);
    }
  }

  lemma SaidIsWellFormed(p: Option<SliceP>, s: Slice)
    ensures SaysSlice(p, s) ==> s.WellFormed()
  {
  }

  lemma SaidAreWellFormed(aps: seq<SubsliceAnnotationP>, m: Annotations, pool: seq<Squid>)
    requires SaysAnnotations(aps, m, pool)
    ensures forall r :: r in m ==> SubslicesWellFormed(m[r])
  {
    var flat: Flat :| SaysFlat(aps, flat, pool) && Lists(flat, m);
    forall r, i | r in m && 0 <= i < |m[r]|
      ensures m[r][i].subslice.WellFormed()
    {
      assert Group(flat, r) == ListOf(m, r);
      var k := GroupedFrom(flat, r, i);
      assert SaysAnnotation(aps[k], flat[k], pool);
    }
  }

  lemma {:induction false} SlicesDecode(done: seq<SliceAssignment>, saps: seq<SliceAssignmentP>,
                                        entries: seq<SliceAssignment>, pool: seq<Squid>)
    ensures DecodeSlices(done, saps, pool) == Done(done + entries) <==> SaysSlices(saps, entries, pool)
    ensures DecodeSlices(done, saps, pool).Done? ==>
              done <= DecodeSlices(done, saps, pool).value
              && |DecodeSlices(done, saps, pool).value| == |done| + |saps|
    decreases saps
  {
    hide DecodeSliceAssignment, SaysSliceAssignment;
    if saps == [] {
      assert done + entries == done <==> entries == [];
    } else {
      if entries != [] {
        SliceAssignmentDecodes(saps[0], entries[0], pool);
        assert done + entries == done + [entries[0]] + entries[1..];
        SlicesSayFirst(saps, entries, pool);
      }
      var first := DecodeSliceAssignment(saps[0], pool);
      if first.Done? {
        var longer := done + [first.value];
        SlicesDecode(longer, saps[1..], if entries == [] then [] else entries[1..], pool);
        NotPrefix(longer, done, entries);
      }
    }
  }

  lemma SlicesSayFirst(saps: seq<SliceAssignmentP>, entries: seq<SliceAssignment>, pool: seq<Squid>)
    requires saps != [] && entries != []
    ensures SaysSlices(saps, entries, pool) <==>
            SaysSliceAssignment(saps[0], entries[0], pool) && SaysSlices(saps[1..], entries[1..], pool)
  {
    hide SaysSliceAssignment;
    if SaysSliceAssignment(saps[0], entries[0], pool) && SaysSlices(saps[1..], entries[1..], pool) {
      forall i | 0 <= i < |saps|
        ensures SaysSliceAssignment(saps[i], entries[i], pool)
      {
        assert i > 0 ==> SaysSliceAssignment(saps[1..][i - 1], entries[1..][i - 1], pool);
      }
    }
  }

  /** A message decodes to an assignment exactly if it says that assignment. */
  lemma DecodesToWhatItSays(p: DiffAssignmentP, a: Assignment)
    ensures Decode(Some(p)) == Done(a) <==> Says(p, a)
  {
    hide DecodePool, DecodeSlices, SaysPool, SaysSlices, Complete, AcceptableAssignment, AllBuilt, GenerationFromProto;
    hide SaysGeneration;
    var pool := DecodePool([], p.resources);
    GenerationDecodes(p.generation, a.generation);
    if Decode(Some(p)) == Done(a) {
      DecodedIsBuilt(Some(p));
      PoolDecodes([], p.resources, pool.value);
      assert [] + pool.value == pool.value;
      SlicesDecode([], p.sliceAssignments, a.sliceMap.entries, pool.value);
      assert [] + a.sliceMap.entries == a.sliceMap.entries;
      assert SaysOver(p, a, pool.value);
    }
    if Says(p, a) {
      var said: seq<Squid> :| SaysOver(p, a, said);
      PoolDecodes([], p.resources, said);
      assert [] + said == said;
      SlicesDecode([], p.sliceAssignments, a.sliceMap.entries, said);
      assert [] + a.sliceMap.entries == a.sliceMap.entries;
    }
  }
}
