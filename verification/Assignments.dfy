/** Assignments of slices to server incarnations, with the checks of their constructors. */
module Assignments {
  import opened Wrappers
  import opened Words
  import opened SliceKeys
  import opened Slices
  import opened Partitions
  import opened SliceMaps
  import opened Generations
  import opened Squids

  datatype ConsistencyMode = Eventual | Strict

  datatype Transfer = Transfer(fromResource: Squid)

  datatype SubsliceAnnotation = SubsliceAnnotation(
    subslice: Slice,
    continuousGenerationNumber: uint64,
    stateTransfer: Option<Transfer>)

  /** A measured load. */
  datatype Load = NotANumber | Infinite(negative: bool) | Number(value: real) {
    predicate Valid()
    {
      Number? && value >= 0.0
    }
  }

  datatype SliceWithResources = SliceWithResources(slice: Slice, resources: seq<Squid>)

  datatype SliceAssignment = SliceAssignment(
    sliceWithResources: SliceWithResources,
    generation: Generation,
    annotations: map<Squid, seq<SubsliceAnnotation>>,
    primaryRateLoad: Option<Load>)

  datatype Assignment = Assignment(
    generation: Generation,
    isFrozen: bool,
    mode: ConsistencyMode,
    sliceMap: SliceMap<SliceAssignment>)

  function SliceOf(sa: SliceAssignment): Slice
  {
    sa.sliceWithResources.slice
  }

  function ResourcesOf(sa: SliceAssignment): seq<Squid>
  {
    sa.sliceWithResources.resources
  }

  datatype AssignmentError =
    | NoResources
    | EmptyGeneration
    | AnnotationForForeignResource
    | NoAnnotations
    | AnnotationTooNew
    | AnnotationsOutOfOrder
    | TransferToItself
    | AnnotationsOutsideSlice
    | BadLoad
    | NoSliceMap
    | OtherIncarnation
    | SliceTooNew

  // ---------------------------------------------------------------------------
  // Annotations of one resource
  // ---------------------------------------------------------------------------

  predicate TransfersFrom(ann: SubsliceAnnotation, resource: Squid)
  {
    ann.stateTransfer.Some? && ann.stateTransfer.value.fromResource == resource
  }

  /** What the check of one resource's list demands, `prevHigh` being where the annotation before
      ended. After an infinite end the order is not checked. */
  predicate PassesFrom(prevHigh: HighSliceKey, list: seq<SubsliceAnnotation>, slice: Slice, gen: Generation,
                       resource: Squid)
    decreases list
  {
    if list == [] then prevHigh.CompareWithHigh(slice.high) <= 0
    else
      && list[0].continuousGenerationNumber <= gen.number
      && (prevHigh.Finite? ==> Compare(list[0].subslice.low, prevHigh.key) >= 0)
      && !TransfersFrom(list[0], resource)
      && PassesFrom(list[0].subslice.high, list[1..], slice, gen, resource)
  }

  predicate Passes(list: seq<SubsliceAnnotation>, slice: Slice, gen: Generation, resource: Squid)
  {
    list != [] && PassesFrom(Finite(slice.low), list, slice, gen, resource)
  }

  /** The error names a rule that the list breaks. */
  ghost predicate Breaks(e: AssignmentError, list: seq<SubsliceAnnotation>, slice: Slice, gen: Generation,
                         resource: Squid)
  {
    match e
    case NoAnnotations => list == []
    case AnnotationTooNew => exists i :: 0 <= i < |list| && list[i].continuousGenerationNumber > gen.number
    case AnnotationsOutOfOrder => exists i :: 0 <= i < |list| && StartsEarly(list, i, slice)
    case TransferToItself => exists i :: 0 <= i < |list| && TransfersFrom(list[i], resource)
    case AnnotationsOutsideSlice => list != [] && list[|list| - 1].subslice.high.CompareWithHigh(slice.high) > 0
    case _ => false
  }

  /** Annotation i starts before the one in front of it, or the slice, lets it. */
  predicate StartsEarly(list: seq<SubsliceAnnotation>, i: nat, slice: Slice)
    requires i < |list|
  {
    var from := if i == 0 then Finite(slice.low) else list[i - 1].subslice.high;
    from.Finite? && from.CompareWithKey(list[i].subslice.low) > 0
  }

  method CheckAnnotations(list: seq<SubsliceAnnotation>, slice: Slice, gen: Generation, resource: Squid)
    returns (err: Option<AssignmentError>)
    ensures err.None? <==> Passes(list, slice, gen, resource)
    ensures err.Some? ==> Breaks(err.value, list, slice, gen, resource)
  {
    if |list| == 0 {
      return Some(NoAnnotations);
    }
    var prevHigh := Finite(slice.low);
    for i := 0 to |list|
      invariant Passes(list, slice, gen, resource) <==> PassesFrom(prevHigh, list[i..], slice, gen, resource)
      invariant prevHigh == if i == 0 then Finite(slice.low) else list[i - 1].subslice.high
    {
      var annotation := list[i];
      assert list[i..][1..] == list[i + 1..];
      if annotation.continuousGenerationNumber > gen.number {
        return Some(AnnotationTooNew);
      }
      if prevHigh.Finite? {
        if Compare(annotation.subslice.low, prevHigh.key) < 0 {
          assert StartsEarly(list, i, slice);
          return Some(AnnotationsOutOfOrder);
        }
      }
      if annotation.stateTransfer.Some? && annotation.stateTransfer.value.fromResource == resource {
        return Some(TransferToItself);
      }
      prevHigh := annotation.subslice.high;
    }
    if prevHigh.CompareWithHigh(slice.high) > 0 {
      return Some(AnnotationsOutsideSlice);
    }
    return None;
  }

  /** The documented rules: some annotations, none newer than the slice, none fed from its own
      resource, all inside the slice, each beginning at or after the end of those before it. */
  ghost predicate Proper(list: seq<SubsliceAnnotation>, slice: Slice, gen: Generation, resource: Squid)
  {
    && list != []
    && (forall i :: 0 <= i < |list| ==> list[i].continuousGenerationNumber <= gen.number)
    && (forall i :: 0 <= i < |list| ==> !TransfersFrom(list[i], resource))
    && (forall i :: 0 <= i < |list| ==> slice.ContainsSlice(list[i].subslice))
    && (forall i, j :: 0 <= i < j < |list| ==> list[i].subslice.high.CompareWithKey(list[j].subslice.low) <= 0)
  }

  /** Only the last annotation may run to infinity. */
  predicate OnlyLastUnbounded(list: seq<SubsliceAnnotation>)
  {
    forall i :: 0 <= i < |list| - 1 ==> list[i].subslice.high.Finite?
  }

  ghost predicate SubslicesWellFormed(list: seq<SubsliceAnnotation>)
  {
    forall i :: 0 <= i < |list| ==> list[i].subslice.WellFormed()
  }

  /** The check lets every list that keeps the documented rules pass, and the lists it accepts
      although they break the rules are exactly those in which an annotation other than the last
      runs to infinity. */
  lemma AcceptedIffProper(list: seq<SubsliceAnnotation>, slice: Slice, gen: Generation, resource: Squid)
    requires SubslicesWellFormed(list)
    ensures Proper(list, slice, gen, resource) <==> Passes(list, slice, gen, resource) && OnlyLastUnbounded(list)
  {
    if Passes(list, slice, gen, resource) && OnlyLastUnbounded(list) {
      PassingIsProper(Finite(slice.low), list, slice, gen, resource);
    }
    if Proper(list, slice, gen, resource) {
      ProperPasses(Finite(slice.low), list, slice, gen, resource);
      forall i | 0 <= i < |list| - 1
        ensures list[i].subslice.high.Finite?
      {
        assert list[i].subslice.high.CompareWithKey(list[i + 1].subslice.low) <= 0;
      }
    }
  }

  lemma {:induction false} PassingIsProper(from: HighSliceKey, list: seq<SubsliceAnnotation>, slice: Slice,
                                           gen: Generation, resource: Squid)
    requires SubslicesWellFormed(list) && OnlyLastUnbounded(list)
    requires PassesFrom(from, list, slice, gen, resource)
    requires from.Finite? || list == []
    ensures forall i :: 0 <= i < |list| ==>
              list[i].continuousGenerationNumber <= gen.number && !TransfersFrom(list[i], resource)
    ensures forall i :: 0 <= i < |list| ==> from.CompareWithKey(list[i].subslice.low) <= 0
    ensures forall i :: 0 <= i < |list| ==> list[i].subslice.high.CompareWithHigh(slice.high) <= 0
    ensures forall i, j :: 0 <= i < j < |list| ==> list[i].subslice.high.CompareWithKey(list[j].subslice.low) <= 0
    ensures from.CompareWithHigh(slice.high) <= 0
    decreases list
  {
    if list != [] {
      assert forall i :: 0 <= i < |list| - 1 ==> list[1..][i] == list[i + 1];
      assert list[0].subslice.WellFormed();
      PassingIsProper(list[0].subslice.high, list[1..], slice, gen, resource);
      assert forall i :: 0 < i < |list| ==> list[i] == list[1..][i - 1];
    }
  }

  lemma {:induction false} ProperPasses(from: HighSliceKey, list: seq<SubsliceAnnotation>, slice: Slice,
                                        gen: Generation, resource: Squid)
    requires list != [] ==> Proper(list, slice, gen, resource)
    requires list != [] ==> from.CompareWithKey(list[0].subslice.low) <= 0
    requires list == [] ==> from.CompareWithHigh(slice.high) <= 0
    ensures PassesFrom(from, list, slice, gen, resource)
    decreases list
  {
    if list != [] {
      assert slice.ContainsSlice(list[0].subslice);
      if |list| > 1 {
        assert list[0].subslice.high.CompareWithKey(list[1].subslice.low) <= 0;
        assert forall i :: 0 <= i < |list| - 1 ==> list[1..][i] == list[i + 1];
      }
      ProperPasses(list[0].subslice.high, list[1..], slice, gen, resource);
    }
  }

  /** The check accepts this list although its first annotation leaves the slice and covers its
      second: an annotation running to infinity switches the order check off for the next one. */
  lemma UnboundedAnnotationSlipsThrough(resource: Squid)
    ensures var slice := Slice([1], Finite([4]));
            var gen := Generation(1, 1);
            var list := [SubsliceAnnotation(Slice([2], Infinity), 0, None),
                         SubsliceAnnotation(Slice([3], Finite([4])), 0, None)];
            && slice.WellFormed() && SubslicesWellFormed(list)
            && Passes(list, slice, gen, resource)
            && !slice.ContainsSlice(list[0].subslice)
            && list[0].subslice.ContainsSlice(list[1].subslice)
            && !Proper(list, slice, gen, resource)
  {
    assert Compare([1], [4]) < 0 && Compare([2], [1]) > 0 && Compare([3], [4]) < 0 && Compare([3], [2]) > 0;
    var slice := Slice([1], Finite([4]));
    var list := [SubsliceAnnotation(Slice([2], Infinity), 0, None),
                 SubsliceAnnotation(Slice([3], Finite([4])), 0, None)];
    assert list[1..] == [list[1]] && list[1..][1..] == [];
    assert !slice.ContainsSlice(list[0].subslice);
  }

  // ---------------------------------------------------------------------------
  // Constructors
  // ---------------------------------------------------------------------------

  function NewSliceWithResources(slice: Slice, resources: seq<Squid>): Result<SliceWithResources, AssignmentError>
  {
    if |resources| == 0 then Failure(NoResources) else Success(SliceWithResources(slice, resources))
  }

  /** What the constructor of a slice assignment demands. */
  ghost predicate AcceptableSliceAssignment(sa: SliceAssignment)
  {
    && !sa.generation.IsEmpty()
    && (forall r :: r in sa.annotations ==>
      r in ResourcesOf(sa) && Passes(sa.annotations[r], SliceOf(sa), sa.generation, r))
    && (sa.primaryRateLoad.Some? ==> sa.primaryRateLoad.value.Valid())
  }

  /** The error names a rule that the slice assignment breaks. */
  ghost predicate BreaksRule(e: AssignmentError, sa: SliceAssignment)
  {
    match e
    case EmptyGeneration => sa.generation.IsEmpty()
    case AnnotationForForeignResource => exists r :: r in sa.annotations && r !in ResourcesOf(sa)
    case BadLoad => sa.primaryRateLoad.Some? && !sa.primaryRateLoad.value.Valid()
    case _ => exists r :: r in sa.annotations && Breaks(e, sa.annotations[r], SliceOf(sa), sa.generation, r)
  }

  /** The annotation map is visited in no particular order, so which of several errors is reported
      is open; whether one is, is not, and the one that is, is true. */
  method NewSliceAssignment(swr: SliceWithResources, gen: Generation, annotations: map<Squid, seq<SubsliceAnnotation>>,
                            primaryRateLoad: Option<Load>)
    returns (r: Result<SliceAssignment, AssignmentError>)
    ensures var sa := SliceAssignment(swr, gen, annotations, primaryRateLoad);
            && (r.Success? <==> AcceptableSliceAssignment(sa))
            && (r.Success? ==> r.value == sa)
            && (r.Failure? ==> BreaksRule(r.error, sa))
    ensures r.Success? <==>
              && gen != Generation(0, 0)
              && (forall q :: q in annotations ==> q in swr.resources && Passes(annotations[q], swr.slice, gen, q))
              && (primaryRateLoad.Some? ==> primaryRateLoad.value.Number? && primaryRateLoad.value.value >= 0.0)
  {
    ghost var sa := SliceAssignment(swr, gen, annotations, primaryRateLoad);
    if gen.IsEmpty() {
      return Failure(EmptyGeneration);
    }
    var cpAnnotations: map<Squid, seq<SubsliceAnnotation>> := map[];
    var remaining := annotations.Keys;
    while remaining != {}
      invariant remaining <= annotations.Keys
      invariant cpAnnotations == map q | q in annotations.Keys - remaining :: annotations[q]
      invariant forall q :: q in annotations.Keys - remaining ==>
                  q in swr.resources && Passes(annotations[q], swr.slice, gen, q)
    {
      var resource :| resource in remaining;
      var subsliceList := annotations[resource];
      if resource !in swr.resources {
        assert !AcceptableSliceAssignment(sa);
        return Failure(AnnotationForForeignResource);
      }
      var err := CheckAnnotations(subsliceList, swr.slice, gen, resource);
      if err.Some? {
        assert !AcceptableSliceAssignment(sa);
        assert Breaks(err.value, sa.annotations[resource], SliceOf(sa), sa.generation, resource);
        return Failure(err.value);
      }
      cpAnnotations := cpAnnotations[resource := subsliceList];
      remaining := remaining - {resource};
    }
    assert cpAnnotations == annotations;
    if primaryRateLoad.Some? {
      if !primaryRateLoad.value.Valid() {
        return Failure(BadLoad);
      }
    }
    return Success(SliceAssignment(swr, gen, cpAnnotations, primaryRateLoad));
  }

  /** A slice's generation must be of the assignment's incarnation and not newer than it. */
  function CheckAssignmentGeneration(sa: SliceAssignment, assignmentGen: Generation): (err: Option<AssignmentError>)
    ensures err.None? <==> sa.generation.incarnation == assignmentGen.incarnation
                           && sa.generation.number <= assignmentGen.number
    ensures err == Some(OtherIncarnation) <==> sa.generation.incarnation != assignmentGen.incarnation
  {
    if CompareIncarnations(sa.generation.incarnation, assignmentGen.incarnation) != 0 then Some(OtherIncarnation)
    else if sa.generation.Compare(assignmentGen) > 0 then Some(SliceTooNew)
    else None
  }

  ghost predicate AcceptableAssignment(gen: Generation, entries: seq<SliceAssignment>)
  {
    !gen.IsEmpty() && forall i :: 0 <= i < |entries| ==> CheckAssignmentGeneration(entries[i], gen).None?
  }

  ghost predicate RefusesAssignment(e: AssignmentError, gen: Generation, sliceMap: Option<SliceMap<SliceAssignment>>)
  {
    match e
    case EmptyGeneration => gen.IsEmpty()
    case NoSliceMap => sliceMap.None?
    case _ =>
      sliceMap.Some? && exists sa :: sa in sliceMap.value.entries && CheckAssignmentGeneration(sa, gen) == Some(e)
  }

  method NewAssignment(gen: Generation, frozen: bool, mode: ConsistencyMode,
                       sliceMap: Option<SliceMap<SliceAssignment>>)
    returns (r: Result<Assignment, AssignmentError>)
    ensures r.Success? <==> sliceMap.Some? && AcceptableAssignment(gen, sliceMap.value.entries)
    ensures r.Success? <==>
              && gen != Generation(0, 0) && sliceMap.Some?
              && forall sa :: sa in sliceMap.value.entries ==>
                   sa.generation.incarnation == gen.incarnation && sa.generation.number <= gen.number
    ensures r.Success? ==> r.value == Assignment(gen, frozen, mode, sliceMap.value)
    ensures r.Failure? ==> RefusesAssignment(r.error, gen, sliceMap)
  {
    if gen.IsEmpty() {
      return Failure(EmptyGeneration);
    }
    if sliceMap.None? {
      return Failure(NoSliceMap);
    }
    var entries := sliceMap.value.entries;
    for i := 0 to |entries|
      invariant forall j :: 0 <= j < i ==> CheckAssignmentGeneration(entries[j], gen).None?
    {
      var err := CheckAssignmentGeneration(entries[i], gen);
      if err.Some? {
        return Failure(err.value);
      }
    }
    return Success(Assignment(gen, frozen, mode, sliceMap.value));
  }

  /** A slice assignment all of whose parts come from their constructors. */
  ghost predicate BuiltSliceAssignment(sa: SliceAssignment)
  {
    && SliceOf(sa).WellFormed()
    && ResourcesOf(sa) != []
    && (forall r :: r in sa.annotations ==> SubslicesWellFormed(sa.annotations[r]))
    && AcceptableSliceAssignment(sa)
  }

  ghost predicate AllBuilt(entries: seq<SliceAssignment>)
  {
    forall i :: 0 <= i < |entries| ==> BuiltSliceAssignment(entries[i])
  }

  /** An assignment all of whose parts come from their constructors. */
  ghost predicate BuiltAssignment(a: Assignment)
  {
    && AllBuilt(a.sliceMap.entries)
    && IsPartition(a.sliceMap.entries, SliceOf)
    && AcceptableAssignment(a.generation, a.sliceMap.entries)
  }

  // ---------------------------------------------------------------------------
  // Queries
  // ---------------------------------------------------------------------------

  /** The resources a key is assigned to. */
  ghost function ResourcesFor(a: Assignment, key: Key): seq<Squid>
    requires IsPartition(a.sliceMap.entries, SliceOf)
  {
    ResourcesOf(EntryFor(a.sliceMap.entries, SliceOf, key))
  }

  ghost predicate NoDuplicates<T>(s: seq<T>)
  {
    forall i, j :: 0 <= i < j < |s| ==> s[i] != s[j]
  }

  /** The list without repetitions, each element where it first stands. */
  ghost function DistinctOf(resources: seq<Squid>): seq<Squid>
  {
    if resources == [] then []
    else
      var last, before := resources[|resources| - 1], DistinctOf(resources[..|resources| - 1]);
      if last in before then before else before + [last]
  }

  /** Some x stands in the list before any y does. */
  ghost predicate ComesFirst(s: seq<Squid>, x: Squid, y: Squid)
  {
    exists k :: 0 <= k < |s| && s[k] == x && y !in s[..k]
  }

  /** Without repetitions, with the same elements, in order of first occurrence. */
  lemma {:induction false} DistinctOfIsDistinct(resources: seq<Squid>)
    ensures var d := DistinctOf(resources);
            && NoDuplicates(d)
            && (forall sq :: sq in d <==> sq in resources)
            && (forall i, j :: 0 <= i < j < |d| ==> ComesFirst(resources, d[i], d[j]))
  {
    if resources != [] {
      var n := |resources| - 1;
      var before, d := DistinctOf(resources[..n]), DistinctOf(resources);
      DistinctOfIsDistinct(resources[..n]);
      assert resources == resources[..n] + [resources[n]];
      forall i, j | 0 <= i < j < |d|
        ensures ComesFirst(resources, d[i], d[j])
      {
        if j < |before| {
          StillComesFirst(resources, n, d[i], d[j]);
        } else {
          assert before[i] in resources[..n];
          var k :| 0 <= k < n && resources[..n][k] == d[i];
          assert resources[k] == d[i] && d[j] !in resources[..k];
        }
      }
    }
  }

  lemma StillComesFirst(s: seq<Squid>, n: nat, x: Squid, y: Squid)
    requires n <= |s| && ComesFirst(s[..n], x, y)
    ensures ComesFirst(s, x, y)
  {
    var k :| 0 <= k < n && s[..n][k] == x && y !in s[..n][..k];
    assert s[..n][..k] == s[..k];
    assert s[k] == x;
  }

  /** The resources of all slices one after the other. */
  ghost function Mentions(entries: seq<SliceAssignment>): seq<Squid>
  {
    if entries == [] then [] else Mentions(entries[..|entries| - 1]) + ResourcesOf(entries[|entries| - 1])
  }

  lemma DistinctAppend(s: seq<Squid>, x: Squid)
    ensures DistinctOf(s + [x]) == if x in DistinctOf(s) then DistinctOf(s) else DistinctOf(s) + [x]
  {
    assert (s + [x])[..|s|] == s;
  }

  lemma MentionsUpTo(entries: seq<SliceAssignment>, i: nat)
    requires i < |entries|
    ensures Mentions(entries[..i + 1]) == Mentions(entries[..i]) + ResourcesOf(entries[i])
  {
    assert entries[..i + 1][..i] == entries[..i];
  }

  lemma NoMentions()
    ensures DistinctOf(Mentions([])) == []
  {
  }

  method Resources(a: Assignment) returns (result: seq<Squid>)
    ensures result == DistinctOf(Mentions(a.sliceMap.entries))
  {
    hide DistinctOf, Mentions;
    var entries := a.sliceMap.entries;
    var seen: set<Squid> := {};
    result := [];
    NoMentions();
    assert entries[..0] == [];
    for i := 0 to |entries|
      invariant result == DistinctOf(Mentions(entries[..i]))
      invariant forall r :: r in seen <==> r in result
    {
      var resources := ResourcesOf(entries[i]);
      ghost var before := Mentions(entries[..i]);
      assert before + resources[..0] == before;
      for j := 0 to |resources|
        invariant result == DistinctOf(before + resources[..j])
        invariant forall r :: r in seen <==> r in result
      {
        var sq := resources[j];
        assert before + resources[..j + 1] == before + resources[..j] + [sq];
        DistinctAppend(before + resources[..j], sq);
        if sq !in seen {
          seen := seen + {sq};
          result := result + [sq];
        }
      }
      assert resources[..|resources|] == resources;
      MentionsUpTo(entries, i);
    }
    assert entries[..|entries|] == entries;
  }

  ghost predicate SomeEntryNames(entries: seq<SliceAssignment>, r: Squid)
  {
    exists i :: 0 <= i < |entries| && r in ResourcesOf(entries[i])
  }

  lemma LastEntryNames(entries: seq<SliceAssignment>, r: Squid)
    requires entries != []
    ensures var n := |entries| - 1;
            SomeEntryNames(entries, r) <==> SomeEntryNames(entries[..n], r) || r in ResourcesOf(entries[n])
  {
    var n := |entries| - 1;
    if SomeEntryNames(entries[..n], r) {
      var i :| 0 <= i < n && r in ResourcesOf(entries[..n][i]);
      assert r in ResourcesOf(entries[i]);
    }
    if SomeEntryNames(entries, r) && r !in ResourcesOf(entries[n]) {
      var i :| 0 <= i < |entries| && r in ResourcesOf(entries[i]);
      assert r in ResourcesOf(entries[..n][i]);
    }
  }

  lemma {:induction false} MentionedByEntry(entries: seq<SliceAssignment>, r: Squid)
    ensures r in Mentions(entries) <==> SomeEntryNames(entries, r)
  {
    hide ResourcesOf;
    if entries != [] {
      hide SomeEntryNames;
      MentionedByEntry(entries[..|entries| - 1], r);
      LastEntryNames(entries, r);
    }
  }

  /** The list is duplicate-free and the union, over all keys, of the resources that a lookup gives. */
  lemma ResourcesAreThoseOfAllKeys(a: Assignment, r: Squid)
    requires IsPartition(a.sliceMap.entries, SliceOf)
    ensures var result := DistinctOf(Mentions(a.sliceMap.entries));
            NoDuplicates(result) && (r in result <==> exists key :: r in ResourcesFor(a, key))
  {
    var entries := a.sliceMap.entries;
    DistinctOfIsDistinct(Mentions(entries));
    MentionedByEntry(entries, r);
    if SomeEntryNames(entries, r) {
      var i :| 0 <= i < |entries| && r in ResourcesOf(entries[i]);
      var key := SliceOf(entries[i]).low;
      assert SlicesOf(entries, SliceOf)[i].WellFormed();
      EntryForIsUnique(entries, SliceOf, key, i);
      assert r in ResourcesFor(a, key);
    }
    if exists key :: r in ResourcesFor(a, key) {
      var key :| r in ResourcesFor(a, key);
      CompleteCovers(Finite(MIN_SLICE_KEY), SlicesOf(entries, SliceOf), key);
      assert r in ResourcesOf(entries[Locate(SlicesOf(entries, SliceOf), key)]);
    }
  }

  method IsAssignedKey(a: Assignment, key: Key, resource: Squid) returns (isAssigned: bool)
    requires IsPartition(a.sliceMap.entries, SliceOf)
    ensures isAssigned <==> resource in ResourcesFor(a, key)
  {
    var sa := LookUp(a.sliceMap, SliceOf, key);
    var resources := ResourcesOf(sa.value);
    for i := 0 to |resources|
      invariant resource !in resources[..i]
    {
      if resources[i] == resource {
        return true;
      }
    }
    return false;
  }

  /** The slices of the entries that name the resource, in slice order. */
  ghost function AssignedSlices(entries: seq<SliceAssignment>, resource: Squid): seq<Slice>
  {
    if entries == [] then []
    else if resource in ResourcesOf(entries[0]) then [SliceOf(entries[0])] + AssignedSlices(entries[1..], resource)
    else AssignedSlices(entries[1..], resource)
  }

  method GetAssignedSlices(a: Assignment, resource: Squid) returns (result: seq<Slice>)
    ensures result == AssignedSlices(a.sliceMap.entries, resource)
  {
    var entries := a.sliceMap.entries;
    result := [];
    for i := 0 to |entries|
      invariant result + AssignedSlices(entries[i..], resource) == AssignedSlices(entries, resource)
    {
      assert entries[i..][1..] == entries[i + 1..];
      var resources := ResourcesOf(entries[i]);
      var j := 0;
      while j < |resources| && resources[j] != resource
        invariant j <= |resources| && resource !in resources[..j]
      {
        j := j + 1;
      }
      assert resource in resources <==> j < |resources|;
      if j < |resources| {
        result := result + [SliceOf(entries[i])];
      }
    }
  }

  /** A resource's slices are ordered and disjoint, and together hold exactly its keys. */
  lemma AssignedSlicesHoldAssignedKeys(a: Assignment, resource: Squid, key: Key)
    requires IsPartition(a.sliceMap.entries, SliceOf)
    ensures var s := AssignedSlices(a.sliceMap.entries, resource);
            && OrderedDisjoint(s) && AllWellFormed(s)
            && (resource in ResourcesFor(a, key) <==> exists i :: 0 <= i < |s| && s[i].Contains(key))
  {
    var entries := a.sliceMap.entries;
    var s := AssignedSlices(entries, resource);
    CompleteIsOrdered(Finite(MIN_SLICE_KEY), SlicesOf(entries, SliceOf));
    AssignedSlicesOrdered(Finite(MIN_SLICE_KEY), Finite(MIN_SLICE_KEY), entries, resource);
    AssignedSlicesLocate(Finite(MIN_SLICE_KEY), entries, resource, key);
    EntryForIsEntryIn(entries, SliceOf, key);
    assert Locate(s, key) >= 0 <==> exists i :: 0 <= i < |s| && s[i].Contains(key);
  }

  lemma {:induction false} AssignedSlicesLocate(from: HighSliceKey, entries: seq<SliceAssignment>, resource: Squid,
                                                key: Key)
    requires OrderedFrom(from, SlicesOf(entries, SliceOf)) && AllWellFormed(SlicesOf(entries, SliceOf))
    ensures var e := EntryIn(entries, SliceOf, key);
            Locate(AssignedSlices(entries, resource), key) >= 0 <==> e.Some? && resource in ResourcesOf(e.value)
    decreases entries
  {
    if entries != [] {
      SplitFirst(entries);
      var rest := AssignedSlices(entries[1..], resource);
      AssignedSlicesLocate(SliceOf(entries[0]).high, entries[1..], resource, key);
      if resource in ResourcesOf(entries[0]) {
        assert ([SliceOf(entries[0])] + rest)[1..] == rest;
      } else if SliceOf(entries[0]).Contains(key) {
        AssignedSlicesOrdered(SliceOf(entries[0]).high, SliceOf(entries[0]).high, entries[1..], resource);
        NothingBelow(SliceOf(entries[0]).high, rest, key);
      }
    }
  }

  lemma SplitFirst(entries: seq<SliceAssignment>)
    requires entries != []
    ensures SlicesOf(entries, SliceOf) == [SliceOf(entries[0])] + SlicesOf(entries[1..], SliceOf)
    ensures SlicesOf(entries, SliceOf)[1..] == SlicesOf(entries[1..], SliceOf)
    ensures AllWellFormed(SlicesOf(entries, SliceOf)) ==>
              SliceOf(entries[0]).WellFormed() && AllWellFormed(SlicesOf(entries[1..], SliceOf))
  {
    var all := SlicesOf(entries, SliceOf);
    assert forall i :: 0 <= i < |all| - 1 ==> SlicesOf(entries[1..], SliceOf)[i] == all[i + 1];
  }

  lemma {:induction false} AssignedSlicesOrdered(from: HighSliceKey, lower: HighSliceKey,
                                                 entries: seq<SliceAssignment>, resource: Squid)
    requires OrderedFrom(from, SlicesOf(entries, SliceOf)) && AllWellFormed(SlicesOf(entries, SliceOf))
    requires lower.CompareWithHigh(from) <= 0
    ensures OrderedFrom(lower, AssignedSlices(entries, resource)) && AllWellFormed(AssignedSlices(entries, resource))
    decreases entries
  {
    if entries != [] {
      SplitFirst(entries);
      var first := SliceOf(entries[0]);
      if resource in ResourcesOf(entries[0]) {
        AssignedSlicesOrdered(first.high, first.high, entries[1..], resource);
        var rest := AssignedSlices(entries[1..], resource);
        assert ([first] + rest)[1..] == rest;
      } else {
        AssignedSlicesOrdered(first.high, lower, entries[1..], resource);
      }
    }
  }
}
