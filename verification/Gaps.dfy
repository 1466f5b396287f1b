/** Completing a partial list of slices with explicit gaps. */
module Gaps {
  import opened Wrappers
  import opened SliceKeys
  import opened Slices
  import opened Partitions
  import opened SliceMaps

  /** A slice with its entry, or an unassigned slice. */
  datatype GapEntry<+T> = GapEntry(slice: Slice, value: Option<T>)

  function GapSlice<T>(e: GapEntry<T>): Slice
  {
    e.slice
  }

  /** The list that is built for the entries that remain once the keys below `cursor` are covered. */
  function Filled<T>(cursor: HighSliceKey, entries: seq<T>, sl: T -> Slice): seq<GapEntry<T>>
    decreases entries
  {
    if entries == [] then
      if cursor.Infinity? then [] else [GapEntry(Slice(cursor.key, Infinity), None)]
    else
      var s := sl(entries[0]);
      GapBefore(cursor, s) + [GapEntry(s, Some(entries[0]))] + Filled(s.high, entries[1..], sl)
  }

  function GapBefore<T>(cursor: HighSliceKey, s: Slice): seq<GapEntry<T>>
  {
    if cursor.Finite? && Compare(s.low, cursor.key) > 0 then [GapEntry(Slice(cursor.key, Finite(s.low)), None)] else []
  }

  ghost function ValuesOf<T>(gs: seq<GapEntry<T>>): seq<T>
  {
    if gs == [] then []
    else (if gs[0].value.Some? then [gs[0].value.value] else []) + ValuesOf(gs[1..])
  }

  ghost predicate NoAdjacentGaps<T>(gs: seq<GapEntry<T>>)
  {
    forall i :: 0 <= i < |gs| - 1 ==> gs[i].value.Some? || gs[i + 1].value.Some?
  }

  // One entry with the gap in front of it, and the rest of the list.
  lemma FilledSplits<T>(cursor: HighSliceKey, entries: seq<T>, sl: T -> Slice)
    requires entries != []
    ensures var s := sl(entries[0]);
            var g, v, rest := GapBefore<T>(cursor, s), GapEntry(s, Some(entries[0])), Filled(s.high, entries[1..], sl);
            Filled(cursor, entries, sl) == if g == [] then [v] + rest else [g[0]] + ([v] + rest)
  {
  }

  lemma CompleteFromCons<T>(from: HighSliceKey, g: GapEntry<T>, rest: seq<GapEntry<T>>)
    ensures CompleteFrom(from, SlicesOf([g] + rest, GapSlice)) <==>
            from == Finite(g.slice.low) && CompleteFrom(g.slice.high, SlicesOf(rest, GapSlice))
    ensures AllWellFormed(SlicesOf([g] + rest, GapSlice)) <==>
            g.slice.WellFormed() && AllWellFormed(SlicesOf(rest, GapSlice))
  {
    var s := SlicesOf([g] + rest, GapSlice);
    assert s[1..] == SlicesOf(rest, GapSlice);
    assert forall i :: 0 <= i < |rest| ==> SlicesOf(rest, GapSlice)[i] == s[i + 1];
  }

  /** The completed list is a partition exactly when the entries were ordered and disjoint. */
  lemma {:induction false} FilledIsComplete<T>(cursor: HighSliceKey, entries: seq<T>, sl: T -> Slice)
    requires AllWellFormed(SlicesOf(entries, sl))
    ensures var gs := SlicesOf(Filled(cursor, entries, sl), GapSlice);
            && AllWellFormed(gs)
            && (CompleteFrom(cursor, gs) <==> OrderedFrom(cursor, SlicesOf(entries, sl)))
    decreases entries
  {
    var s := SlicesOf(entries, sl);
    if entries == [] {
      if cursor.Finite? {
        CompleteFromCons<T>(cursor, GapEntry(Slice(cursor.key, Infinity), None), []);
        assert [GapEntry(Slice(cursor.key, Infinity), None)] + [] == Filled(cursor, entries, sl);
      }
    } else {
      assert s[1..] == SlicesOf(entries[1..], sl);
      assert forall i :: 0 <= i < |s| - 1 ==> s[1..][i] == s[i + 1];
      FilledIsComplete(s[0].high, entries[1..], sl);
      FilledSplits(cursor, entries, sl);
      var v, rest := GapEntry(s[0], Some(entries[0])), Filled(s[0].high, entries[1..], sl);
      assert s[0].WellFormed();
      CompleteFromCons(cursor, v, rest);
      if GapBefore<T>(cursor, s[0]) != [] {
        CompleteFromCons(Finite(s[0].low), v, rest);
        CompleteFromCons(cursor, GapBefore(cursor, s[0])[0], [v] + rest);
      }
    }
  }

  lemma GapsCons<T>(x: GapEntry<T>, rest: seq<GapEntry<T>>)
    ensures ValuesOf([x] + rest) == (if x.value.Some? then [x.value.value] else []) + ValuesOf(rest)
    ensures NoAdjacentGaps(rest) && (x.value.Some? || rest == [] || rest[0].value.Some?) ==> NoAdjacentGaps([x] + rest)
  {
    assert ([x] + rest)[1..] == rest;
    if NoAdjacentGaps(rest) && (x.value.Some? || rest == [] || rest[0].value.Some?) {
      var all := [x] + rest;
      forall i | 0 <= i < |all| - 1
        ensures all[i].value.Some? || all[i + 1].value.Some?
      {
        assert i > 0 ==> rest[i - 1].value.Some? || rest[i - 1 + 1].value.Some?;
      }
    }
  }

  /** Dropping the gaps gives back the entries in order, and gaps never touch. */
  lemma {:induction false} FilledKeepsEntries<T>(cursor: HighSliceKey, entries: seq<T>, sl: T -> Slice)
    ensures ValuesOf(Filled(cursor, entries, sl)) == entries
    ensures NoAdjacentGaps(Filled(cursor, entries, sl))
    decreases entries
  {
    if entries != [] {
      var s := sl(entries[0]);
      FilledKeepsEntries(s.high, entries[1..], sl);
      FilledSplits(cursor, entries, sl);
      var g, v, rest := GapBefore<T>(cursor, s), GapEntry(s, Some(entries[0])), Filled(s.high, entries[1..], sl);
      hide Filled, ValuesOf, NoAdjacentGaps;
      GapsCons(v, rest);
      assert entries == [entries[0]] + entries[1..];
      if g != [] {
        GapsCons(g[0], [v] + rest);
      }
    }
  }

  /** A key in a gap is in none of the entries; any other key is with the first entry that holds it. */
  lemma {:induction false} FilledFindsEntries<T>(cursor: HighSliceKey, entries: seq<T>, sl: T -> Slice, k: Key)
    requires OrderedFrom(cursor, SlicesOf(entries, sl)) && AllWellFormed(SlicesOf(entries, sl))
    requires cursor.CompareWithKey(k) <= 0
    ensures var e := EntryIn(Filled(cursor, entries, sl), GapSlice, k);
            e.Some? && e.value.value == EntryIn(entries, sl, k)
    decreases entries
  {
    var all := SlicesOf(entries, sl);
    if entries != [] {
      var s := sl(entries[0]);
      assert all[1..] == SlicesOf(entries[1..], sl);
      assert forall i :: 0 <= i < |all| - 1 ==> all[1..][i] == all[i + 1];
      FilledSplits(cursor, entries, sl);
      var g, v, rest := GapBefore<T>(cursor, s), GapEntry(s, Some(entries[0])), Filled(s.high, entries[1..], sl);
      assert ([v] + rest)[1..] == rest;
      if g != [] {
        assert ([g[0]] + ([v] + rest))[1..] == [v] + rest;
      }
      if Compare(k, s.low) < 0 {
        NothingBelow(Finite(s.low), all, k);
        EntryInIsLocate(entries, sl, k);
      } else if s.high.CompareWithKey(k) <= 0 {
        FilledFindsEntries(s.high, entries[1..], sl, k);
      }
    }
  }

  /** The specification, and what it gives: a partition exactly for ordered disjoint entries. */
  lemma GapFillingIsSound<T>(entries: seq<T>, sl: T -> Slice)
    requires AllWellFormed(SlicesOf(entries, sl))
    ensures var gs := Filled(Finite(MIN_SLICE_KEY), entries, sl);
            && AllWellFormed(SlicesOf(gs, GapSlice))
            && (Complete(SlicesOf(gs, GapSlice)) <==> OrderedDisjoint(SlicesOf(entries, sl)))
            && ValuesOf(gs) == entries && NoAdjacentGaps(gs)
            && (OrderedDisjoint(SlicesOf(entries, sl)) ==> LooksUpEntries(gs, entries, sl))
  {
    FilledIsComplete(Finite(MIN_SLICE_KEY), entries, sl);
    FilledKeepsEntries(Finite(MIN_SLICE_KEY), entries, sl);
    if OrderedDisjoint(SlicesOf(entries, sl)) {
      FilledLookups(entries, sl);
    }
  }

  /** A key meets its entry, or a gap exactly when a search of the partial list misses. */
  ghost predicate LooksUpEntries<T>(gs: seq<GapEntry<T>>, entries: seq<T>, sl: T -> Slice)
    requires IsPartition(gs, GapSlice)
  {
    forall k :: EntryFor(gs, GapSlice, k).value == Found(entries, Locate(SlicesOf(entries, sl), k))
  }

  /** The entry at an index a search returned. */
  ghost function Found<T>(entries: seq<T>, i: int): Option<T>
    requires -1 <= i < |entries|
  {
    if i == -1 then None else Some(entries[i])
  }

  lemma FilledLookups<T>(entries: seq<T>, sl: T -> Slice)
    requires OrderedDisjoint(SlicesOf(entries, sl)) && AllWellFormed(SlicesOf(entries, sl))
    requires IsPartition(Filled(Finite(MIN_SLICE_KEY), entries, sl), GapSlice)
    ensures LooksUpEntries(Filled(Finite(MIN_SLICE_KEY), entries, sl), entries, sl)
  {
    var gs := Filled(Finite(MIN_SLICE_KEY), entries, sl);
    forall k
      ensures EntryFor(gs, GapSlice, k).value == Found(entries, Locate(SlicesOf(entries, sl), k))
    {
      FilledFindsEntries(Finite(MIN_SLICE_KEY), entries, sl, k);
      EntryInIsLocate(entries, sl, k);
      EntryForIsEntryIn(gs, GapSlice, k);
    }
  }

  predicate LeavesGap(cursor: HighSliceKey, s: Slice)
  {
    cursor.Finite? && Compare(s.low, cursor.key) > 0
  }

  /** What one turn of the loop makes of the list. */
  function Appended<T>(done: seq<GapEntry<T>>, cursor: HighSliceKey, s: Slice, x: T): seq<GapEntry<T>>
  {
    if LeavesGap(cursor, s) then
      done + [GapEntry(Slice(cursor.key, Finite(s.low)), None)] + [GapEntry(s, Some(x))]
    else done + [GapEntry(s, Some(x))]
  }

  /** What is done and what is still to come add up to the specification. */
  ghost predicate AddsUp<T>(done: seq<GapEntry<T>>, cursor: HighSliceKey, ahead: seq<T>, sl: T -> Slice,
                            spec: seq<GapEntry<T>>)
  {
    done + Filled(cursor, ahead, sl) == spec
  }

  lemma Regroup<X>(a: seq<X>, b: seq<X>, c: seq<X>, d: seq<X>)
    ensures a + (b + (c + d)) == a + b + c + d
    ensures a + (c + d) == a + c + d
  {
  }

  lemma AddsUpStep<T>(done: seq<GapEntry<T>>, cursor: HighSliceKey, entries: seq<T>, sl: T -> Slice, i: nat,
                      spec: seq<GapEntry<T>>)
    requires i < |entries| && AddsUp(done, cursor, entries[i..], sl, spec)
    ensures AddsUp(Appended(done, cursor, sl(entries[i]), entries[i]), sl(entries[i]).high, entries[i + 1..], sl, spec)
    ensures LeavesGap(cursor, sl(entries[i])) ==> Slice(cursor.key, Finite(sl(entries[i]).low)).WellFormed()
  {
    var s, x := sl(entries[i]), entries[i];
    assert entries[i..][1..] == entries[i + 1..];
    FilledSplits(cursor, entries[i..], sl);
    var g, v, rest := GapBefore<T>(cursor, s), GapEntry(s, Some(x)), Filled(s.high, entries[i + 1..], sl);
    hide Filled;
    Regroup(done, g, [v], rest);
  }

  lemma AddsUpEnds<T>(done: seq<GapEntry<T>>, cursor: HighSliceKey, entries: seq<T>, sl: T -> Slice,
                      spec: seq<GapEntry<T>>)
    requires AddsUp(done, cursor, entries[|entries|..], sl, spec)
    ensures spec == if cursor.Finite? then done + [GapEntry(Slice(cursor.key, Infinity), None)] else done
  {
    assert entries[|entries|..] == [];
  }

  /** The construction succeeds exactly on ordered disjoint entries and panics on all others. On
      success the entries keep their order and no two gaps touch. */
  method CreateFromOrderedDisjointEntries<T>(entries: seq<T>, sl: T -> Slice)
    returns (r: Outcome<SliceMap<GapEntry<T>>, PartitionError>)
    requires AllWellFormed(SlicesOf(entries, sl))
    ensures r.Done? || r.Panicked?
    ensures r.Done? <==> OrderedDisjoint(SlicesOf(entries, sl))
    ensures r.Done? ==> IsPartition(r.value.entries, GapSlice) && LooksUpEntries(r.value.entries, entries, sl)
    ensures r.Done? ==> ValuesOf(r.value.entries) == entries && NoAdjacentGaps(r.value.entries)
  {
    var result: seq<GapEntry<T>> := [];
    var cursor := Finite(MIN_SLICE_KEY);
    ghost var spec := Filled(cursor, entries, sl);
    assert AddsUp(result, cursor, entries[0..], sl, spec) by {
      assert entries[0..] == entries && [] + spec == spec;
    }
    hide Filled, AddsUp, Compare, Complete, AllWellFormed, OrderedDisjoint, LooksUpEntries, ValuesOf, NoAdjacentGaps;
    for i := 0 to |entries|
      invariant AddsUp(result, cursor, entries[i..], sl, spec)
    {
      var entry := entries[i];
      var s := sl(entry);
      AddsUpStep(result, cursor, entries, sl, i, spec);
      ghost var before := result;
      if cursor.Finite? {
        if Compare(s.low, cursor.key) > 0 {
          var gapSlice := NewSlice(cursor.key, Finite(s.low));
          if gapSlice.Failure? {
            return Panicked;
          }
          result := result + [GapEntry(gapSlice.value, None)];
        }
      }
      result := result + [GapEntry(s, Some(entry))];
      assert result == Appended(before, cursor, s, entry);
      cursor := s.high;
    }
    AddsUpEnds(result, cursor, entries, sl, spec);
    if cursor.Finite? {
      var trailingGap := NewSlice(cursor.key, Infinity);
      if trailingGap.Failure? {
        return Panicked;
      }
      result := result + [GapEntry(trailingGap.value, None)];
    }
    assert result == spec;
    GapFillingIsSound(entries, sl);
    r := MustNewSliceMap(result, GapSlice);
  }
}
