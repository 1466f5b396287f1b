/**
 Slice maps: the completeness validator, the constructor, and binary search.
 Entries are any type with a slice; `sl` is the entry's slice getter.
 */
module SliceMaps {
  import opened Wrappers
  import opened SliceKeys
  import opened Slices
  import opened Partitions

  /** Immutable once built. */
  datatype SliceMap<T> = SliceMap(entries: seq<T>)

  ghost function SlicesOf<T>(entries: seq<T>, sl: T -> Slice): (s: seq<Slice>)
    ensures |s| == |entries| && forall i :: 0 <= i < |s| ==> s[i] == sl(entries[i])
  {
    seq(|entries|, i requires 0 <= i < |entries| => sl(entries[i]))
  }

  lemma SlicesOfAppend<T>(entries: seq<T>, x: T, sl: T -> Slice)
    ensures SlicesOf(entries + [x], sl) == SlicesOf(entries, sl) + [sl(x)]
  {
  }

  /** The entries partition the key space. */
  ghost predicate IsPartition<T>(entries: seq<T>, sl: T -> Slice)
  {
    AllWellFormed(SlicesOf(entries, sl)) && Complete(SlicesOf(entries, sl))
  }

  /** The entry a key belongs to. */
  ghost function EntryFor<T>(entries: seq<T>, sl: T -> Slice, key: Key): T
    requires IsPartition(entries, sl)
  {
    CompleteCovers(Finite(MIN_SLICE_KEY), SlicesOf(entries, sl), key);
    entries[Locate(SlicesOf(entries, sl), key)]
  }

  // ---------------------------------------------------------------------------
  // Validation
  // ---------------------------------------------------------------------------

  datatype PartitionError =
    | NoEntries
    | FirstNotAtMinimum
    | InfinityBeforeLast(i: nat)
    | Gap(i: nat)
    | Overlap(i: nat)
    | LastNotInfinite

  /** The first defect of the list, scanning from the left. */
  ghost predicate IsFirstDefect(e: PartitionError, s: seq<Slice>)
  {
    match e
    case NoEntries => s == []
    case FirstNotAtMinimum => s != [] && s[0].low != MIN_SLICE_KEY
    case InfinityBeforeLast(i) => LinkedThrough(s, i) && i + 1 < |s| && s[i].high.Infinity?
    case Gap(i) => LinkedThrough(s, i) && i + 1 < |s| && s[i].high.CompareWithKey(s[i + 1].low) < 0
    case Overlap(i) => LinkedThrough(s, i) && i + 1 < |s| && s[i].high.Finite?
      && s[i].high.CompareWithKey(s[i + 1].low) > 0
    case LastNotInfinite => s != [] && LinkedThrough(s, |s| - 1) && s[|s| - 1].high.Finite?
  }

  ghost predicate LinkedThrough(s: seq<Slice>, n: nat)
  {
    n < |s| && s[0].low == MIN_SLICE_KEY && forall i :: 0 <= i < n ==> s[i].high == Finite(s[i + 1].low)
  }

  method ValidateCompleteSlices<T>(entries: seq<T>, sl: T -> Slice) returns (err: Option<PartitionError>)
    ensures err.None? <==> Complete(SlicesOf(entries, sl))
    ensures err.Some? ==> IsFirstDefect(err.value, SlicesOf(entries, sl))
  {
    ghost var s := SlicesOf(entries, sl);
    CompleteIsLinked(s);
    if |entries| == 0 {
      return Some(NoEntries);
    }
    var prevSlice := sl(entries[0]);
    if prevSlice.low != MIN_SLICE_KEY {
      return Some(FirstNotAtMinimum);
    }
    for i := 1 to |entries|
      invariant prevSlice == s[i - 1]
      invariant LinkedThrough(s, i - 1)
    {
      var curSlice := sl(entries[i]);
      assert curSlice == s[i];
      if prevSlice.high.Infinity? {
        return Some(InfinityBeforeLast(i - 1));
      }
      var boundaryCmp := Compare(prevSlice.high.key, curSlice.low);
      if boundaryCmp < 0 {
        return Some(Gap(i - 1));
      }
      if boundaryCmp > 0 {
        return Some(Overlap(i - 1));
      }
      prevSlice := curSlice;
    }
    if prevSlice.high.Finite? {
      return Some(LastNotInfinite);
    }
    return None;
  }

  method NewSliceMap<T>(entries: seq<T>, sl: T -> Slice) returns (r: Result<SliceMap<T>, PartitionError>)
    ensures r.Success? <==> Complete(SlicesOf(entries, sl))
    ensures r.Success? ==> r.value.entries == entries
    ensures r.Failure? ==> IsFirstDefect(r.error, SlicesOf(entries, sl))
  {
    var err := ValidateCompleteSlices(entries, sl);
    if err.Some? {
      return Failure(err.value);
    }
    return Success(SliceMap(entries));
  }

  /** Panics instead of returning the error. */
  method MustNewSliceMap<T>(entries: seq<T>, sl: T -> Slice) returns (r: Outcome<SliceMap<T>, PartitionError>)
    ensures r.Done? || r.Panicked?
    ensures r.Done? <==> Complete(SlicesOf(entries, sl))
    ensures r.Done? ==> r.value.entries == entries
  {
    var m := NewSliceMap(entries, sl);
    if m.Failure? {
      return Panicked;
    }
    return Done(m.value);
  }

  /** The validator accepts exactly the lists that ascend and give every key one home. */
  lemma AcceptedIffExactlyOneHome<T>(entries: seq<T>, sl: T -> Slice)
    requires AllWellFormed(SlicesOf(entries, sl))
    ensures var s := SlicesOf(entries, sl);
            Complete(s) <==> LowsAscend(s) && forall k :: ExactlyOneHome(s, k)
  {
    CompleteIffExactlyOneHome(SlicesOf(entries, sl));
  }

  // ---------------------------------------------------------------------------
  // Lookup
  // ---------------------------------------------------------------------------

  ghost predicate AllEndBy(s: seq<Slice>, n: nat, key: Key)
    requires n <= |s|
  {
    forall i :: 0 <= i < n ==> s[i].high.CompareWithKey(key) <= 0
  }

  lemma EndBy(s: seq<Slice>, n: nat, key: Key)
    requires OrderedDisjoint(s) && AllWellFormed(s)
    requires n < |s| && s[n].high.CompareWithKey(key) <= 0
    ensures AllEndBy(s, n + 1, key)
  {
    OrderedAtDistance(Finite(MIN_SLICE_KEY), s);
  }

  /** The slice after those that end by the key is the only one that can hold it. */
  lemma FirstBeyondIsLocate(s: seq<Slice>, n: nat, key: Key)
    requires OrderedDisjoint(s) && AllWellFormed(s)
    requires n <= |s| && AllEndBy(s, n, key)
    requires n < |s| ==> s[n].high.CompareWithKey(key) > 0
    ensures Locate(s, key) == if n < |s| && Compare(s[n].low, key) <= 0 then n else -1
  {
    OrderedAtDistance(Finite(MIN_SLICE_KEY), s);
    if n < |s| && Compare(s[n].low, key) <= 0 {
      LocateIsUnique(s, key, n);
    }
  }

  /** Binary search for the first upper bound above the key, then a check of the lower bound. Any
      index returned holds the key, on any list; on ordered disjoint lists the search agrees with
      scanning the list from the left. */
  method FindIndexInOrderedDisjointEntries<T>(entries: seq<T>, sl: T -> Slice, key: Key) returns (index: int)
    ensures -1 <= index < |entries|
    ensures index >= 0 ==> sl(entries[index]).Contains(key)
    ensures OrderedDisjoint(SlicesOf(entries, sl)) && AllWellFormed(SlicesOf(entries, sl)) ==>
              index == Locate(SlicesOf(entries, sl), key)
  {
    ghost var s := SlicesOf(entries, sl);
    ghost var sorted := OrderedDisjoint(s) && AllWellFormed(s);
    var n := |entries|;
    if n == 0 {
      return -1;
    }
    var lo, hi := 0, n;
    while lo < hi
      invariant 0 <= lo <= hi <= n
      invariant hi < n ==> s[hi].high.CompareWithKey(key) > 0
      invariant sorted ==> AllEndBy(s, lo, key)
    {
      var mid := (lo + hi) / 2;
      if sl(entries[mid]).high.CompareWithKey(key) > 0 {
        hi := mid;
      } else {
        if sorted {
          EndBy(s, mid, key);
        }
        lo := mid + 1;
      }
    }
    if sorted {
      FirstBeyondIsLocate(s, lo, key);
    }
    if lo < n {
      if Compare(sl(entries[lo]).low, key) <= 0 {
        return lo;
      }
    }
    return -1;
  }

  /** On a partition the search never misses, so the panic is unreachable, and the entry found is
      the only one whose slice holds the key. */
  method LookUp<T>(m: SliceMap<T>, sl: T -> Slice, key: Key) returns (r: Outcome<T, ()>)
    ensures IsPartition(m.entries, sl) ==> r == Done(EntryFor(m.entries, sl, key))
    ensures r.Done? ==> r.value in m.entries && sl(r.value).Contains(key)
  {
    var index := FindIndexInOrderedDisjointEntries(m.entries, sl, key);
    if IsPartition(m.entries, sl) {
      CompleteIsOrdered(Finite(MIN_SLICE_KEY), SlicesOf(m.entries, sl));
      CompleteCovers(Finite(MIN_SLICE_KEY), SlicesOf(m.entries, sl), key);
    }
    if index < 0 {
      return Panicked;
    }
    return Done(m.entries[index]);
  }

  lemma EntryForIsUnique<T>(entries: seq<T>, sl: T -> Slice, key: Key, i: nat)
    requires IsPartition(entries, sl)
    requires i < |entries|
    ensures sl(entries[i]).Contains(key) <==> Locate(SlicesOf(entries, sl), key) == i
    ensures sl(entries[i]).Contains(key) ==> EntryFor(entries, sl, key) == entries[i]
  {
    var s := SlicesOf(entries, sl);
    CompleteIsOrdered(Finite(MIN_SLICE_KEY), s);
    if s[i].Contains(key) {
      LocateIsUnique(s, key, i);
    }
  }

  /** The first entry whose slice holds the key. */
  ghost function EntryIn<T>(entries: seq<T>, sl: T -> Slice, k: Key): Option<T>
  {
    if entries == [] then None
    else if sl(entries[0]).Contains(k) then Some(entries[0])
    else EntryIn(entries[1..], sl, k)
  }

  lemma {:induction false} EntryInIsLocate<T>(entries: seq<T>, sl: T -> Slice, k: Key)
    ensures var i := Locate(SlicesOf(entries, sl), k);
            EntryIn(entries, sl, k) == if i < 0 then None else Some(entries[i])
  {
    if entries != [] {
      assert SlicesOf(entries, sl)[1..] == SlicesOf(entries[1..], sl);
      EntryInIsLocate(entries[1..], sl, k);
    }
  }

  lemma EntryForIsEntryIn<T>(entries: seq<T>, sl: T -> Slice, k: Key)
    requires IsPartition(entries, sl)
    ensures EntryIn(entries, sl, k) == Some(EntryFor(entries, sl, k))
  {
    EntryInIsLocate(entries, sl, k);
    CompleteCovers(Finite(MIN_SLICE_KEY), SlicesOf(entries, sl), k);
  }
}
