/** Merging neighbouring entries with equal values. Coalescing is a normal form. */
module Coalescing {
  import opened Wrappers
  import opened SliceKeys
  import opened Slices
  import opened Partitions
  import opened SliceMaps

  /** What the caller's functions owe: `withSlice` sets the slice and nothing that `equalVal`
      looks at, and `equalVal` is an equivalence. */
  ghost predicate Lawful<T(!new)>(sl: T -> Slice, equalVal: (T, T) -> bool, withSlice: (T, Slice) -> T)
  {
    && (forall e, s :: sl(withSlice(e, s)) == s)
    && (forall e, s :: equalVal(withSlice(e, s), e))
    && (forall e :: equalVal(e, e))
    && (forall a, b :: equalVal(a, b) ==> equalVal(b, a))
    && (forall a, b, c :: equalVal(a, b) && equalVal(b, c) ==> equalVal(a, c))
  }

  function Merged(a: Slice, b: Slice): Slice
  {
    Slice(a.low, b.high)
  }

  /** The list the loop leaves behind, given the entry it is growing and the entries ahead. */
  function Coalesced<T>(cur: T, ahead: seq<T>, sl: T -> Slice, equalVal: (T, T) -> bool,
                        withSlice: (T, Slice) -> T): seq<T>
    decreases ahead
  {
    if ahead == [] then [cur]
    else if equalVal(cur, ahead[0]) then
      Coalesced(withSlice(cur, Merged(sl(cur), sl(ahead[0]))), ahead[1..], sl, equalVal, withSlice)
    else
      [cur] + Coalesced(ahead[0], ahead[1..], sl, equalVal, withSlice)
  }

  /** A partition of the keys from `from` on. */
  ghost predicate PartitionFrom<T>(from: HighSliceKey, entries: seq<T>, sl: T -> Slice)
    decreases entries
  {
    if entries == [] then from == Infinity
    else
      && from == Finite(sl(entries[0]).low)
      && sl(entries[0]).WellFormed()
      && PartitionFrom(sl(entries[0]).high, entries[1..], sl)
  }

  lemma {:induction false} PartitionFromIsCompleteFrom<T>(from: HighSliceKey, entries: seq<T>, sl: T -> Slice)
    ensures PartitionFrom(from, entries, sl) <==>
            CompleteFrom(from, SlicesOf(entries, sl)) && AllWellFormed(SlicesOf(entries, sl))
    decreases entries
  {
    var s := SlicesOf(entries, sl);
    if entries != [] {
      assert s[1..] == SlicesOf(entries[1..], sl);
      assert forall i :: 0 < i < |s| ==> s[i] == s[1..][i - 1];
      PartitionFromIsCompleteFrom(s[0].high, entries[1..], sl);
      if AllWellFormed(s) {
        assert AllWellFormed(s[1..]);
      }
    }
  }

  ghost predicate SameValue<T>(a: Option<T>, b: Option<T>, equalVal: (T, T) -> bool)
  {
    if a.None? || b.None? then a == b else equalVal(a.value, b.value)
  }

  ghost predicate NoEqualNeighbours<T>(entries: seq<T>, equalVal: (T, T) -> bool)
  {
    forall i :: 0 <= i < |entries| - 1 ==> !equalVal(entries[i], entries[i + 1])
  }

  /** How many neighbouring pairs differ. */
  ghost function Breaks<T>(entries: seq<T>, equalVal: (T, T) -> bool): nat
  {
    if |entries| <= 1 then 0
    else (if equalVal(entries[0], entries[1]) then 0 else 1) + Breaks(entries[1..], equalVal)
  }

  // ---------------------------------------------------------------------------
  // The merged list
  // ---------------------------------------------------------------------------

  /** The merger of two adjacent slices holds the keys of both. */
  lemma MergedHoldsBoth(a: Slice, b: Slice)
    requires a.WellFormed() && b.WellFormed() && a.high == Finite(b.low)
    ensures Merged(a, b).WellFormed()
    ensures forall k :: Merged(a, b).Contains(k) <==> a.Contains(k) || b.Contains(k)
  {
  }

  /** Replacing the first two entries by their merger, as one step of the loop does. */
  lemma MergeStep<T(!new)>(cur: T, ahead: seq<T>, sl: T -> Slice, equalVal: (T, T) -> bool, withSlice: (T, Slice) -> T)
    requires Lawful(sl, equalVal, withSlice)
    requires ahead != [] && equalVal(cur, ahead[0])
    requires PartitionFrom(Finite(sl(cur).low), [cur] + ahead, sl)
    ensures Merged(sl(cur), sl(ahead[0])).WellFormed()
    ensures var grown := withSlice(cur, Merged(sl(cur), sl(ahead[0])));
            && PartitionFrom(Finite(sl(cur).low), [grown] + ahead[1..], sl)
            && sl(grown).low == sl(cur).low
            && equalVal(grown, cur) && equalVal(grown, ahead[0])
  {
    var grown := withSlice(cur, Merged(sl(cur), sl(ahead[0])));
    assert ([cur] + ahead)[1..] == ahead;
    assert ([grown] + ahead[1..])[1..] == ahead[1..];
    assert PartitionFrom(sl(ahead[0]).high, ahead[1..], sl);
    assert sl(grown) == Merged(sl(cur), sl(ahead[0]));
    MergedHoldsBoth(sl(cur), sl(ahead[0]));
  }

  lemma MergeKeepsValues<T(!new)>(cur: T, grown: T, next: T, rest: seq<T>, sl: T -> Slice, equalVal: (T, T) -> bool,
                                  k: Key)
    requires forall e :: equalVal(e, e)
    requires equalVal(grown, cur) && equalVal(grown, next)
    requires sl(grown).Contains(k) <==> sl(cur).Contains(k) || sl(next).Contains(k)
    ensures SameValue(EntryIn([grown] + rest, sl, k), EntryIn([cur] + ([next] + rest), sl, k), equalVal)
  {
    assert ([grown] + rest)[1..] == rest;
    assert ([next] + rest)[1..] == rest;
    assert ([cur] + ([next] + rest))[1..] == [next] + rest;
  }

  /** The merged list partitions the same keys and gives every key an equal value. */
  lemma {:induction false} CoalescedKeepsValues<T(!new)>(cur: T, ahead: seq<T>, sl: T -> Slice,
                                                         equalVal: (T, T) -> bool, withSlice: (T, Slice) -> T)
    requires Lawful(sl, equalVal, withSlice)
    requires PartitionFrom(Finite(sl(cur).low), [cur] + ahead, sl)
    ensures var r := Coalesced(cur, ahead, sl, equalVal, withSlice);
            && PartitionFrom(Finite(sl(cur).low), r, sl)
            && forall k :: SameValue(EntryIn(r, sl, k), EntryIn([cur] + ahead, sl, k), equalVal)
    decreases ahead
  {
    assert ([cur] + ahead)[1..] == ahead;
    var r := Coalesced(cur, ahead, sl, equalVal, withSlice);
    if ahead == [] {
      assert [cur] + ahead == [cur];
    } else if equalVal(cur, ahead[0]) {
      MergeStep(cur, ahead, sl, equalVal, withSlice);
      var next, rest := ahead[0], ahead[1..];
      var grown := withSlice(cur, Merged(sl(cur), sl(next)));
      assert ahead == [next] + rest;
      MergedHoldsBoth(sl(cur), sl(next));
      CoalescedKeepsValues(grown, rest, sl, equalVal, withSlice);
      forall k
        ensures SameValue(EntryIn(r, sl, k), EntryIn([cur] + ahead, sl, k), equalVal)
      {
        MergeKeepsValues(cur, grown, next, rest, sl, equalVal, k);
        assert SameValue(EntryIn(r, sl, k), EntryIn([grown] + rest, sl, k), equalVal);
      }
    } else {
      var tail := Coalesced(ahead[0], ahead[1..], sl, equalVal, withSlice);
      assert ahead == [ahead[0]] + ahead[1..];
      CoalescedKeepsValues(ahead[0], ahead[1..], sl, equalVal, withSlice);
      assert r[1..] == tail;
    }
  }

  /** The first merged entry has the value it started from, and no two neighbours are equal. */
  lemma {:induction false} CoalescedSeparates<T(!new)>(cur: T, ahead: seq<T>, sl: T -> Slice, equalVal: (T, T) -> bool,
                                                       withSlice: (T, Slice) -> T)
    requires Lawful(sl, equalVal, withSlice)
    ensures var r := Coalesced(cur, ahead, sl, equalVal, withSlice);
            r != [] && equalVal(r[0], cur) && NoEqualNeighbours(r, equalVal)
    decreases ahead
  {
    if ahead != [] {
      if equalVal(cur, ahead[0]) {
        CoalescedSeparates(withSlice(cur, Merged(sl(cur), sl(ahead[0]))), ahead[1..], sl, equalVal, withSlice);
      } else {
        CoalescedSeparates(ahead[0], ahead[1..], sl, equalVal, withSlice);
        var tail := Coalesced(ahead[0], ahead[1..], sl, equalVal, withSlice);
        assert !equalVal(cur, tail[0]);
        forall i | 0 <= i < |[cur] + tail| - 1
          ensures !equalVal(([cur] + tail)[i], ([cur] + tail)[i + 1])
        {
          if i > 0 { assert !equalVal(tail[i - 1], tail[i]); }
        }
      }
    }
  }

  lemma BreaksOfEqualHeads<T(!new)>(a: T, b: T, rest: seq<T>, sl: T -> Slice, equalVal: (T, T) -> bool,
                                    withSlice: (T, Slice) -> T)
    requires Lawful(sl, equalVal, withSlice) && equalVal(a, b)
    ensures Breaks([a] + rest, equalVal) == Breaks([b] + rest, equalVal)
  {
    assert ([a] + rest)[1..] == rest == ([b] + rest)[1..];
    if rest != [] {
      assert equalVal(a, rest[0]) <==> equalVal(b, rest[0]);
    }
  }

  lemma {:induction false} CoalescedLength<T(!new)>(cur: T, ahead: seq<T>, sl: T -> Slice, equalVal: (T, T) -> bool,
                                                    withSlice: (T, Slice) -> T)
    requires Lawful(sl, equalVal, withSlice)
    ensures |Coalesced(cur, ahead, sl, equalVal, withSlice)| == 1 + Breaks([cur] + ahead, equalVal)
    decreases ahead
  {
    if ahead != [] {
      assert ([cur] + ahead)[1..] == ahead == [ahead[0]] + ahead[1..];
      if equalVal(cur, ahead[0]) {
        var grown := withSlice(cur, Merged(sl(cur), sl(ahead[0])));
        CoalescedLength(grown, ahead[1..], sl, equalVal, withSlice);
        assert equalVal(grown, cur);
        BreaksOfEqualHeads(grown, ahead[0], ahead[1..], sl, equalVal, withSlice);
      } else {
        CoalescedLength(ahead[0], ahead[1..], sl, equalVal, withSlice);
      }
    }
  }

  lemma {:induction false} SeparatedIsFixed<T>(cur: T, ahead: seq<T>, sl: T -> Slice, equalVal: (T, T) -> bool,
                                               withSlice: (T, Slice) -> T)
    requires NoEqualNeighbours([cur] + ahead, equalVal)
    ensures Coalesced(cur, ahead, sl, equalVal, withSlice) == [cur] + ahead
    decreases ahead
  {
    if ahead != [] {
      assert [ahead[0]] + ahead[1..] == ahead;
      assert !equalVal(([cur] + ahead)[0], ([cur] + ahead)[1]);
      forall i | 0 <= i < |ahead| - 1
        ensures !equalVal(ahead[i], ahead[i + 1])
      {
        assert !equalVal(([cur] + ahead)[i + 1], ([cur] + ahead)[i + 2]);
      }
      SeparatedIsFixed(ahead[0], ahead[1..], sl, equalVal, withSlice);
    }
  }

  // ---------------------------------------------------------------------------
  // Uniqueness
  // ---------------------------------------------------------------------------

  /** The start of a partition lies in its first entry, the end of that entry in the second. */
  lemma FirstTwoEntries<T>(from: Key, p: seq<T>, sl: T -> Slice)
    requires PartitionFrom(Finite(from), p, sl)
    ensures EntryIn(p, sl, from) == Some(p[0])
    ensures sl(p[0]).high.Finite? ==> |p| > 1 && EntryIn(p, sl, sl(p[0]).high.key) == Some(p[1])
  {
    if sl(p[0]).high.Finite? {
      assert PartitionFrom(sl(p[0]).high, p[1..], sl);
    }
  }

  lemma FirstHolds<T>(entries: seq<T>, sl: T -> Slice, k: Key)
    requires entries != []
    ensures sl(entries[0]).Contains(k) ==> EntryIn(entries, sl, k) == Some(entries[0])
  {
  }

  lemma EqualToTheSame<T(!new)>(a: T, b: T, c: T, sl: T -> Slice, equalVal: (T, T) -> bool, withSlice: (T, Slice) -> T)
    requires Lawful(sl, equalVal, withSlice)
    ensures equalVal(a, c) && equalVal(b, c) ==> equalVal(a, b)
  {
  }

  /** With equal values at every key and no equal neighbours, the first slices end together. */
  lemma HeadsEndTogether<T(!new)>(from: Key, p: seq<T>, q: seq<T>, sl: T -> Slice, equalVal: (T, T) -> bool,
                                  withSlice: (T, Slice) -> T)
    requires Lawful(sl, equalVal, withSlice)
    requires PartitionFrom(Finite(from), p, sl) && PartitionFrom(Finite(from), q, sl)
    requires NoEqualNeighbours(p, equalVal)
    requires forall k :: Compare(from, k) <= 0 ==> SameValue(EntryIn(p, sl, k), EntryIn(q, sl, k), equalVal)
    ensures sl(p[0]).high.CompareWithHigh(sl(q[0]).high) >= 0
  {
    hide Lawful, EntryIn;
    FirstTwoEntries(from, p, sl);
    FirstTwoEntries(from, q, sl);
    if sl(p[0]).high.Finite? {
      var k := sl(p[0]).high.key;
      assert SameValue(EntryIn(p, sl, from), EntryIn(q, sl, from), equalVal);
      assert SameValue(EntryIn(p, sl, k), EntryIn(q, sl, k), equalVal);
      assert !equalVal(p[0], p[0 + 1]);
      EqualToTheSame(p[0], p[1], q[0], sl, equalVal, withSlice);
      FirstHolds(q, sl, k);
      assert !sl(q[0]).Contains(k);
    }
  }

  lemma SameValueBothWays<T(!new)>(a: Option<T>, b: Option<T>, sl: T -> Slice, equalVal: (T, T) -> bool,
                                   withSlice: (T, Slice) -> T)
    requires Lawful(sl, equalVal, withSlice) && SameValue(a, b, equalVal)
    ensures SameValue(b, a, equalVal)
  {
  }

  lemma SecondHolds<T>(entries: seq<T>, sl: T -> Slice, k: Key)
    requires entries != [] && sl(entries[0]).high.CompareWithKey(k) <= 0
    ensures EntryIn(entries, sl, k) == EntryIn(entries[1..], sl, k)
  {
  }

  /** Two partitions that agree at every key agree past their equal first slices. */
  ghost predicate AgreeFrom<T(!new)>(from: HighSliceKey, p: seq<T>, q: seq<T>, sl: T -> Slice, equalVal: (T, T) -> bool)
  {
    forall k :: from.CompareWithKey(k) <= 0 ==> SameValue(EntryIn(p, sl, k), EntryIn(q, sl, k), equalVal)
  }

  lemma AgreePastFirst<T(!new)>(from: HighSliceKey, p: seq<T>, q: seq<T>, sl: T -> Slice, equalVal: (T, T) -> bool)
    requires p != [] && q != [] && from.CompareWithHigh(sl(p[0]).high) <= 0 && sl(p[0]).high == sl(q[0]).high
    requires AgreeFrom(from, p, q, sl, equalVal)
    ensures AgreeFrom(sl(p[0]).high, p[1..], q[1..], sl, equalVal)
  {
    hide EntryIn, SameValue;
    forall k | sl(p[0]).high.CompareWithKey(k) <= 0
      ensures SameValue(EntryIn(p[1..], sl, k), EntryIn(q[1..], sl, k), equalVal)
    {
      SecondHolds(p, sl, k);
      SecondHolds(q, sl, k);
    }
  }

  lemma FirstSlicesAgree<T(!new)>(from: HighSliceKey, p: seq<T>, q: seq<T>, sl: T -> Slice, equalVal: (T, T) -> bool,
                                  withSlice: (T, Slice) -> T)
    requires Lawful(sl, equalVal, withSlice) && p != [] && q != []
    requires PartitionFrom(from, p, sl) && PartitionFrom(from, q, sl)
    requires NoEqualNeighbours(p, equalVal) && NoEqualNeighbours(q, equalVal)
    requires AgreeFrom(from, p, q, sl, equalVal)
    ensures sl(p[0]) == sl(q[0]) && from.CompareWithHigh(sl(p[0]).high) <= 0
    ensures PartitionFrom(sl(p[0]).high, p[1..], sl) && PartitionFrom(sl(p[0]).high, q[1..], sl)
  {
    hide Lawful, EntryIn, SameValue, NoEqualNeighbours;
    forall k | from.CompareWithKey(k) <= 0
      ensures SameValue(EntryIn(q, sl, k), EntryIn(p, sl, k), equalVal)
    {
      SameValueBothWays(EntryIn(p, sl, k), EntryIn(q, sl, k), sl, equalVal, withSlice);
    }
    HeadsEndTogether(from.key, p, q, sl, equalVal, withSlice);
    HeadsEndTogether(from.key, q, p, sl, equalVal, withSlice);
  }

  lemma {:induction false} SeparatedIsUnique<T(!new)>(from: HighSliceKey, p: seq<T>, q: seq<T>, sl: T -> Slice,
                                                      equalVal: (T, T) -> bool, withSlice: (T, Slice) -> T)
    requires Lawful(sl, equalVal, withSlice)
    requires PartitionFrom(from, p, sl) && PartitionFrom(from, q, sl)
    requires NoEqualNeighbours(p, equalVal) && NoEqualNeighbours(q, equalVal)
    requires AgreeFrom(from, p, q, sl, equalVal)
    ensures SlicesOf(p, sl) == SlicesOf(q, sl)
    decreases p
  {
    hide Lawful, AgreeFrom, NoEqualNeighbours;
    if p != [] && q != [] {
      FirstSlicesAgree(from, p, q, sl, equalVal, withSlice);
      AgreePastFirst(from, p, q, sl, equalVal);
      TailSeparated(p, equalVal);
      TailSeparated(q, equalVal);
      SeparatedIsUnique(sl(p[0]).high, p[1..], q[1..], sl, equalVal, withSlice);
      assert SlicesOf(p, sl) == [sl(p[0])] + SlicesOf(p[1..], sl);
      assert SlicesOf(q, sl) == [sl(q[0])] + SlicesOf(q[1..], sl);
    }
  }

  lemma TailSeparated<T>(entries: seq<T>, equalVal: (T, T) -> bool)
    requires entries != [] && NoEqualNeighbours(entries, equalVal)
    ensures NoEqualNeighbours(entries[1..], equalVal)
  {
    forall i | 0 <= i < |entries[1..]| - 1
      ensures !equalVal(entries[1..][i], entries[1..][i + 1])
    {
      assert !equalVal(entries[i + 1], entries[i + 2]);
    }
  }

  // ---------------------------------------------------------------------------
  // Main results
  // ---------------------------------------------------------------------------

  /** The specification: what coalescing a partition yields. */
  function CoalescedMap<T>(entries: seq<T>, sl: T -> Slice, equalVal: (T, T) -> bool,
                           withSlice: (T, Slice) -> T): seq<T>
    requires entries != []
  {
    Coalesced(entries[0], entries[1..], sl, equalVal, withSlice)
  }

  /** Coalescing a partition gives a partition with equal values at every key, no equal
      neighbours, and one entry more than the input has unequal neighbours. */
  lemma CoalescingIsSound<T(!new)>(entries: seq<T>, sl: T -> Slice, equalVal: (T, T) -> bool,
                                   withSlice: (T, Slice) -> T)
    requires Lawful(sl, equalVal, withSlice) && IsPartition(entries, sl)
    ensures var r := CoalescedMap(entries, sl, equalVal, withSlice);
            && IsPartition(r, sl)
            && (forall k :: equalVal(EntryFor(r, sl, k), EntryFor(entries, sl, k)))
            && NoEqualNeighbours(r, equalVal)
            && |r| == 1 + Breaks(entries, equalVal)
  {
    var cur, ahead := entries[0], entries[1..];
    assert [cur] + ahead == entries;
    PartitionFromIsCompleteFrom(Finite(MIN_SLICE_KEY), entries, sl);
    CoalescedKeepsValues(cur, ahead, sl, equalVal, withSlice);
    CoalescedSeparates(cur, ahead, sl, equalVal, withSlice);
    CoalescedLength(cur, ahead, sl, equalVal, withSlice);
    var r := CoalescedMap(entries, sl, equalVal, withSlice);
    PartitionFromIsCompleteFrom(Finite(MIN_SLICE_KEY), r, sl);
    forall k
      ensures equalVal(EntryFor(r, sl, k), EntryFor(entries, sl, k))
    {
      EntryForIsEntryIn(r, sl, k);
      EntryForIsEntryIn(entries, sl, k);
      assert SameValue(EntryIn(r, sl, k), EntryIn(entries, sl, k), equalVal);
    }
  }

  /** Some entry starts where e does and carries what e carries beside its slice. */
  ghost predicate GrownFromOne<T(!new), X(!new)>(e: T, entries: seq<T>, sl: T -> Slice, tag: T -> X)
  {
    exists first :: first in entries && sl(first).low == sl(e).low && tag(first) == tag(e)
  }

  /** A merged entry keeps whatever `withSlice` keeps, and keeps it of the first entry of those it
      replaces: the one that starts where it does. */
  lemma {:induction false} FirstOfEachGroupStays<T(!new), X(!new)>(
      cur: T, ahead: seq<T>, sl: T -> Slice, equalVal: (T, T) -> bool, withSlice: (T, Slice) -> T, tag: T -> X)
    requires forall e, s :: sl(withSlice(e, s)) == s && tag(withSlice(e, s)) == tag(e)
    ensures forall e :: e in Coalesced(cur, ahead, sl, equalVal, withSlice) ==>
              GrownFromOne(e, [cur] + ahead, sl, tag)
    decreases ahead
  {
    var r := Coalesced(cur, ahead, sl, equalVal, withSlice);
    assert cur in [cur] + ahead && forall e :: e in ahead ==> e in [cur] + ahead;
    if ahead != [] {
      var merges := equalVal(cur, ahead[0]);
      var next := if merges then withSlice(cur, Merged(sl(cur), sl(ahead[0]))) else ahead[0];
      FirstOfEachGroupStays(next, ahead[1..], sl, equalVal, withSlice, tag);
      forall e | e in r && (merges || e != cur)
        ensures GrownFromOne(e, [cur] + ahead, sl, tag)
      {
        var first :| first in [next] + ahead[1..] && sl(first).low == sl(e).low && tag(first) == tag(e);
        if first == next && merges {
          assert sl(cur).low == sl(e).low && tag(cur) == tag(e);
        } else {
          assert first in ahead;
        }
      }
    }
  }

  /** Coalescing keeps of each group of merged entries what the first of them carries. */
  lemma CoalescingKeepsFirst<T(!new), X(!new)>(entries: seq<T>, sl: T -> Slice, equalVal: (T, T) -> bool,
                                               withSlice: (T, Slice) -> T, tag: T -> X)
    requires entries != [] && forall e, s :: sl(withSlice(e, s)) == s && tag(withSlice(e, s)) == tag(e)
    ensures forall e :: e in CoalescedMap(entries, sl, equalVal, withSlice) ==>
              exists first :: first in entries && sl(first).low == sl(e).low && tag(first) == tag(e)
  {
    assert [entries[0]] + entries[1..] == entries;
    FirstOfEachGroupStays(entries[0], entries[1..], sl, equalVal, withSlice, tag);
    forall e | e in CoalescedMap(entries, sl, equalVal, withSlice)
      ensures GrownFromOne(e, entries, sl, tag)
    {
    }
  }

  lemma CoalescingIsIdempotent<T(!new)>(entries: seq<T>, sl: T -> Slice, equalVal: (T, T) -> bool,
                                        withSlice: (T, Slice) -> T)
    requires Lawful(sl, equalVal, withSlice) && entries != []
    ensures var r := CoalescedMap(entries, sl, equalVal, withSlice);
            r != [] && CoalescedMap(r, sl, equalVal, withSlice) == r
  {
    CoalescedSeparates(entries[0], entries[1..], sl, equalVal, withSlice);
    var r := CoalescedMap(entries, sl, equalVal, withSlice);
    assert [r[0]] + r[1..] == r;
    SeparatedIsFixed(r[0], r[1..], sl, equalVal, withSlice);
  }

  /** Two partitions with equal values at every key, however they are cut, coalesce to the same
      slices. */
  lemma CoalescingIsCanonical<T(!new)>(a: seq<T>, b: seq<T>, sl: T -> Slice, equalVal: (T, T) -> bool,
                                       withSlice: (T, Slice) -> T)
    requires Lawful(sl, equalVal, withSlice) && IsPartition(a, sl) && IsPartition(b, sl)
    requires forall k :: equalVal(EntryFor(a, sl, k), EntryFor(b, sl, k))
    ensures SlicesOf(CoalescedMap(a, sl, equalVal, withSlice), sl)
            == SlicesOf(CoalescedMap(b, sl, equalVal, withSlice), sl)
  {
    var p, q := CoalescedMap(a, sl, equalVal, withSlice), CoalescedMap(b, sl, equalVal, withSlice);
    CoalescingIsSound(a, sl, equalVal, withSlice);
    CoalescingIsSound(b, sl, equalVal, withSlice);
    PartitionFromIsCompleteFrom(Finite(MIN_SLICE_KEY), p, sl);
    PartitionFromIsCompleteFrom(Finite(MIN_SLICE_KEY), q, sl);
    forall k
      ensures SameValue(EntryIn(p, sl, k), EntryIn(q, sl, k), equalVal)
    {
      EntryForIsEntryIn(p, sl, k);
      EntryForIsEntryIn(q, sl, k);
      EqualThrough(EntryFor(p, sl, k), EntryFor(a, sl, k), EntryFor(b, sl, k), EntryFor(q, sl, k), sl, equalVal,
                   withSlice);
    }
    SeparatedIsUnique(Finite(MIN_SLICE_KEY), p, q, sl, equalVal, withSlice);
  }

  lemma EqualThrough<T(!new)>(p: T, a: T, b: T, q: T, sl: T -> Slice, equalVal: (T, T) -> bool,
                              withSlice: (T, Slice) -> T)
    requires Lawful(sl, equalVal, withSlice)
    requires equalVal(p, a) && equalVal(a, b) && equalVal(q, b)
    ensures equalVal(p, q)
  {
  }

  // ---------------------------------------------------------------------------
  // The loop
  // ---------------------------------------------------------------------------

  /** The entries already emitted, the entry being grown, and the entries ahead still add up to
      the specification. */
  ghost predicate Underway<T>(emitted: seq<T>, cur: T, ahead: seq<T>, spec: seq<T>, sl: T -> Slice,
                              equalVal: (T, T) -> bool, withSlice: (T, Slice) -> T)
  {
    && PartitionFrom(Finite(sl(cur).low), [cur] + ahead, sl)
    && emitted + Coalesced(cur, ahead, sl, equalVal, withSlice) == spec
  }

  lemma UnderwayMerges<T(!new)>(emitted: seq<T>, cur: T, ahead: seq<T>, spec: seq<T>, sl: T -> Slice,
                                equalVal: (T, T) -> bool, withSlice: (T, Slice) -> T)
    requires Lawful(sl, equalVal, withSlice) && ahead != [] && equalVal(cur, ahead[0])
    requires Underway(emitted, cur, ahead, spec, sl, equalVal, withSlice)
    ensures NewSlice(sl(cur).low, sl(ahead[0]).high) == Success(Merged(sl(cur), sl(ahead[0])))
    ensures Underway(emitted, withSlice(cur, Merged(sl(cur), sl(ahead[0]))), ahead[1..], spec, sl, equalVal, withSlice)
  {
    MergeStep(cur, ahead, sl, equalVal, withSlice);
  }

  lemma UnderwayEmits<T>(emitted: seq<T>, cur: T, ahead: seq<T>, spec: seq<T>, sl: T -> Slice,
                         equalVal: (T, T) -> bool, withSlice: (T, Slice) -> T)
    requires ahead != [] && !equalVal(cur, ahead[0])
    requires Underway(emitted, cur, ahead, spec, sl, equalVal, withSlice)
    ensures Underway(emitted + [cur], ahead[0], ahead[1..], spec, sl, equalVal, withSlice)
  {
    var tail := Coalesced(ahead[0], ahead[1..], sl, equalVal, withSlice);
    assert ([cur] + ahead)[1..] == ahead;
    assert [ahead[0]] + ahead[1..] == ahead;
    assert PartitionFrom(sl(cur).high, ahead, sl);
    assert Coalesced(cur, ahead, sl, equalVal, withSlice) == [cur] + tail;
    assert emitted + [cur] + tail == emitted + ([cur] + tail);
  }

  /** On a partition neither the merged slices nor the final construction can panic. */
  method CoalesceSlices<T(!new)>(sliceMap: SliceMap<T>, sl: T -> Slice, equalVal: (T, T) -> bool,
                                 withSlice: (T, Slice) -> T)
    returns (r: Outcome<SliceMap<T>, PartitionError>)
    requires Lawful(sl, equalVal, withSlice) && IsPartition(sliceMap.entries, sl)
    ensures r.Done? && r.value.entries == CoalescedMap(sliceMap.entries, sl, equalVal, withSlice)
  {
    var oldEntries := sliceMap.entries;
    ghost var spec := CoalescedMap(oldEntries, sl, equalVal, withSlice);
    if |oldEntries| <= 1 {
      assert oldEntries == [oldEntries[0]];
      return Done(sliceMap);
    }
    PartitionFromIsCompleteFrom(Finite(MIN_SLICE_KEY), oldEntries, sl);
    var newEntries: seq<T> := [];
    var currentEntry := oldEntries[0];
    assert [currentEntry] + oldEntries[1..] == oldEntries;
    for i := 1 to |oldEntries|
      invariant Underway(newEntries, currentEntry, oldEntries[i..], spec, sl, equalVal, withSlice)
    {
      var nextEntry := oldEntries[i];
      assert oldEntries[i..][1..] == oldEntries[i + 1..];
      if equalVal(currentEntry, nextEntry) {
        UnderwayMerges(newEntries, currentEntry, oldEntries[i..], spec, sl, equalVal, withSlice);
        var combinedSlice := NewSlice(sl(currentEntry).low, sl(nextEntry).high);
        if combinedSlice.Failure? {
          return Panicked;
        }
        currentEntry := withSlice(currentEntry, combinedSlice.value);
      } else {
        UnderwayEmits(newEntries, currentEntry, oldEntries[i..], spec, sl, equalVal, withSlice);
        newEntries := newEntries + [currentEntry];
        currentEntry := nextEntry;
      }
    }
    newEntries := newEntries + [currentEntry];
    assert newEntries == spec;
    CoalescingIsSound(oldEntries, sl, equalVal, withSlice);
    r := MustNewSliceMap(newEntries, sl);
  }
}
