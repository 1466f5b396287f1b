/** The two-cursor scan that overlays two slice maps. */
module Intersections {
  import opened Wrappers
  import opened Slices
  import opened Partitions
  import opened SliceMaps

  datatype IntersectionEntry<T, U> = IntersectionEntry(slice: Slice, left: T, right: U)

  function IntersectionSlice<T, U>(e: IntersectionEntry<T, U>): Slice
  {
    e.slice
  }

  // ---------------------------------------------------------------------------
  // Partitions built by appending
  // ---------------------------------------------------------------------------

  /** The list links up from the minimum key to `to`. */
  ghost predicate ReachesTo(s: seq<Slice>, to: HighSliceKey)
  {
    if s == [] then to == Finite(MIN_SLICE_KEY)
    else to == s[|s| - 1].high && ReachesTo(s[..|s| - 1], Finite(s[|s| - 1].low))
  }

  lemma ReachesToAppend(s: seq<Slice>, x: Slice)
    requires ReachesTo(s, Finite(x.low))
    ensures ReachesTo(s + [x], x.high)
  {
    assert (s + [x])[..|s|] == s;
  }

  lemma {:induction false} ReachesToLinks(s: seq<Slice>, to: HighSliceKey)
    requires ReachesTo(s, to) && s != []
    ensures s[0].low == MIN_SLICE_KEY && s[|s| - 1].high == to
    ensures forall i :: 0 <= i < |s| - 1 ==> s[i].high == Finite(s[i + 1].low)
  {
    var n := |s| - 1;
    if n > 0 {
      ReachesToLinks(s[..n], Finite(s[n].low));
      assert s[n - 1] == s[..n][n - 1];
    }
  }

  lemma ReachingInfinityIsComplete(s: seq<Slice>)
    requires ReachesTo(s, Infinity)
    ensures Complete(s)
  {
    ReachesToLinks(s, Infinity);
    CompleteIsLinked(s);
  }

  // ---------------------------------------------------------------------------
  // The scan
  // ---------------------------------------------------------------------------

  /** Both cursors stand on the slice that holds the frontier, and one of them starts there. At
      the end both have run out together. */
  ghost predicate AtFrontier(ls: seq<Slice>, rs: seq<Slice>, li: nat, ri: nat, frontier: HighSliceKey)
  {
    && li <= |ls| && ri <= |rs|
    && (li < |ls| <==> ri < |rs|)
    && (li == |ls| ==> frontier == Infinity)
    && (li < |ls| && ri < |rs| ==>
          && frontier.Finite?
          && ls[li].Contains(frontier.key) && rs[ri].Contains(frontier.key)
          && (frontier.key == ls[li].low || frontier.key == rs[ri].low))
  }

  function Next(s: Slice, i: nat, upper: HighSliceKey): nat
  {
    if s.high.CompareWithHigh(upper) == 0 then i + 1 else i
  }

  lemma FrontierMoves(ls: seq<Slice>, rs: seq<Slice>, li: nat, ri: nat, frontier: HighSliceKey, overlap: Slice)
    requires Linked(ls) && Linked(rs) && AllWellFormed(ls) && AllWellFormed(rs)
    requires AtFrontier(ls, rs, li, ri, frontier) && li < |ls| && ri < |rs|
    requires ls[li].Intersection(rs[ri]) == Some(overlap)
    ensures frontier == Finite(overlap.low)
    ensures AtFrontier(ls, rs, Next(ls[li], li, overlap.high), Next(rs[ri], ri, overlap.high), overlap.high)
    ensures Next(ls[li], li, overlap.high) + Next(rs[ri], ri, overlap.high) > li + ri
  {
    var l, r := ls[li], rs[ri];
    if li + 1 < |ls| {
      assert ls[li].high == Finite(ls[li + 1].low);
      assert ls[li + 1].WellFormed();
    }
    if ri + 1 < |rs| {
      assert rs[ri].high == Finite(rs[ri + 1].low);
      assert rs[ri + 1].WellFormed();
    }
  }

  lemma HighsUpTo(s: seq<Slice>, i: nat)
    requires i < |s|
    ensures Highs(s[..i + 1]) == Highs(s[..i]) + {s[i].high}
  {
    assert s[..i + 1] == s[..i] + [s[i]];
    HighsAppend(s[..i], s[i]);
  }

  lemma HighsMove(ls: seq<Slice>, rs: seq<Slice>, li: nat, ri: nat, overlap: Slice)
    requires li < |ls| && ri < |rs|
    requires ls[li].Intersection(rs[ri]) == Some(overlap)
    ensures Highs(ls[..Next(ls[li], li, overlap.high)]) + Highs(rs[..Next(rs[ri], ri, overlap.high)])
         == Highs(ls[..li]) + Highs(rs[..ri]) + {overlap.high}
  {
    HighsUpTo(ls, li);
    HighsUpTo(rs, ri);
  }

  /** The entry pairs the two lookups of every key in its slice. */
  ghost predicate PairsLookups<T, U>(e: IntersectionEntry<T, U>, left: seq<T>, right: seq<U>,
                                     sl: T -> Slice, sr: U -> Slice)
    requires IsPartition(left, sl) && IsPartition(right, sr)
  {
    forall k :: e.slice.Contains(k) ==> e.left == EntryFor(left, sl, k) && e.right == EntryFor(right, sr, k)
  }

  ghost predicate AllPaired<T, U>(es: seq<IntersectionEntry<T, U>>, left: seq<T>, right: seq<U>,
                                  sl: T -> Slice, sr: U -> Slice)
    requires IsPartition(left, sl) && IsPartition(right, sr)
  {
    forall m :: 0 <= m < |es| ==> PairsLookups(es[m], left, right, sl, sr)
  }

  lemma AppendOverlap<T, U>(es: seq<IntersectionEntry<T, U>>, e: IntersectionEntry<T, U>, left: seq<T>, right: seq<U>,
                            sl: T -> Slice, sr: U -> Slice, li: nat, ri: nat)
    requires IsPartition(left, sl) && IsPartition(right, sr)
    requires AllPaired(es, left, right, sl, sr)
    requires li < |left| && ri < |right| && e.left == left[li] && e.right == right[ri]
    requires sl(left[li]).Intersection(sr(right[ri])) == Some(e.slice)
    ensures AllPaired(es + [e], left, right, sl, sr)
    ensures SlicesOf(es + [e], IntersectionSlice) == SlicesOf(es, IntersectionSlice) + [e.slice]
  {
    OverlapPairsLookups(e, left, right, sl, sr, li, ri);
    SlicesOfAppend(es, e, IntersectionSlice);
  }

  lemma OverlapPairsLookups<T, U>(e: IntersectionEntry<T, U>, left: seq<T>, right: seq<U>,
                                  sl: T -> Slice, sr: U -> Slice, li: nat, ri: nat)
    requires IsPartition(left, sl) && IsPartition(right, sr)
    requires li < |left| && ri < |right| && e.left == left[li] && e.right == right[ri]
    requires sl(left[li]).Intersection(sr(right[ri])) == Some(e.slice)
    ensures PairsLookups(e, left, right, sl, sr)
  {
    IntersectionIsPointwise(sl(left[li]), sr(right[ri]));
    forall k | e.slice.Contains(k)
      ensures e.left == EntryFor(left, sl, k) && e.right == EntryFor(right, sr, k)
    {
      EntryForIsUnique(left, sl, k, li);
      EntryForIsUnique(right, sr, k, ri);
    }
  }

  /** Size of the overlay: the inputs' sizes, less the bounds they share, of which infinity is
      always one. */
  lemma IntersectionSize(overlay: seq<Slice>, ls: seq<Slice>, rs: seq<Slice>)
    requires Complete(overlay) && Complete(ls) && Complete(rs)
    requires AllWellFormed(overlay) && AllWellFormed(ls) && AllWellFormed(rs)
    requires Highs(overlay) == Highs(ls) + Highs(rs)
    ensures |overlay| == |ls| + |rs| - |Highs(ls) * Highs(rs)|
    ensures |overlay| <= |ls| + |rs| - 1
  {
    CompleteIsOrdered(Finite(MIN_SLICE_KEY), overlay);
    CompleteIsOrdered(Finite(MIN_SLICE_KEY), ls);
    CompleteIsOrdered(Finite(MIN_SLICE_KEY), rs);
    HighsCount(overlay);
    HighsCount(ls);
    HighsCount(rs);
    CompleteIsLinked(ls);
    CompleteIsLinked(rs);
    assert ls[|ls| - 1].high == Infinity && rs[|rs| - 1].high == Infinity;
    assert Infinity in Highs(ls) * Highs(rs);
    UnionSize(Highs(ls), Highs(rs));
  }

  lemma UnionSize<T>(a: set<T>, b: set<T>)
    ensures |a + b| == |a| + |b| - |a * b|
  {
    assert a + b == a + (b - a * b);
    assert b == (b - a * b) + a * b;
  }

  lemma OverlaySize<T, U>(result: seq<IntersectionEntry<T, U>>, left: seq<T>, right: seq<U>,
                          sl: T -> Slice, sr: U -> Slice)
    requires IsPartition(result, IntersectionSlice) && IsPartition(left, sl) && IsPartition(right, sr)
    requires Highs(SlicesOf(result, IntersectionSlice)) == Highs(SlicesOf(left, sl)) + Highs(SlicesOf(right, sr))
    ensures |result| == |left| + |right| - |Highs(SlicesOf(left, sl)) * Highs(SlicesOf(right, sr))|
    ensures |result| <= |left| + |right| - 1
  {
    IntersectionSize(SlicesOf(result, IntersectionSlice), SlicesOf(left, sl), SlicesOf(right, sr));
  }

  /** The slices the scan has built when its cursors stand at `li` and `ri`. */
  ghost predicate OverlayUpTo(overlay: seq<Slice>, ls: seq<Slice>, rs: seq<Slice>, li: nat, ri: nat,
                              frontier: HighSliceKey)
  {
    && AtFrontier(ls, rs, li, ri, frontier)
    && ReachesTo(overlay, frontier)
    && AllWellFormed(overlay)
    && Highs(overlay) == Highs(ls[..li]) + Highs(rs[..ri])
  }

  lemma OverlayStarts(ls: seq<Slice>, rs: seq<Slice>)
    requires Complete(ls) && Complete(rs) && AllWellFormed(ls) && AllWellFormed(rs)
    ensures OverlayUpTo([], ls, rs, 0, 0, Finite(MIN_SLICE_KEY))
  {
    CompleteIsLinked(ls);
    CompleteIsLinked(rs);
    assert ls[0].WellFormed() && rs[0].WellFormed();
  }

  lemma OverlayGrows(overlay: seq<Slice>, ls: seq<Slice>, rs: seq<Slice>, li: nat, ri: nat, frontier: HighSliceKey)
    requires Complete(ls) && Complete(rs) && AllWellFormed(ls) && AllWellFormed(rs)
    requires OverlayUpTo(overlay, ls, rs, li, ri, frontier)
    requires li < |ls| && ri < |rs|
    ensures var overlap := ls[li].Intersection(rs[ri]);
            && overlap.Some?
            && var li', ri' := Next(ls[li], li, overlap.value.high), Next(rs[ri], ri, overlap.value.high);
            && li' + ri' > li + ri
            && OverlayUpTo(overlay + [overlap.value], ls, rs, li', ri', overlap.value.high)
  {
    CompleteIsLinked(ls);
    CompleteIsLinked(rs);
    IntersectionIsPointwise(ls[li], rs[ri]);
    assert ls[li].Contains(frontier.key) && rs[ri].Contains(frontier.key);
    var overlap := ls[li].Intersection(rs[ri]).value;
    FrontierMoves(ls, rs, li, ri, frontier, overlap);
    HighsMove(ls, rs, li, ri, overlap);
    ReachesToAppend(overlay, overlap);
    HighsAppend(overlay, overlap);
  }

  lemma OverlayEnds(overlay: seq<Slice>, ls: seq<Slice>, rs: seq<Slice>, li: nat, ri: nat, frontier: HighSliceKey)
    requires OverlayUpTo(overlay, ls, rs, li, ri, frontier)
    requires li == |ls| || ri == |rs|
    ensures Complete(overlay) && AllWellFormed(overlay)
    ensures Highs(overlay) == Highs(ls) + Highs(rs)
  {
    ReachingInfinityIsComplete(overlay);
    assert ls[..li] == ls && rs[..ri] == rs;
  }

  lemma PairedEverywhere<T, U>(result: seq<IntersectionEntry<T, U>>, left: seq<T>, right: seq<U>,
                               sl: T -> Slice, sr: U -> Slice)
    requires IsPartition(result, IntersectionSlice) && IsPartition(left, sl) && IsPartition(right, sr)
    requires AllPaired(result, left, right, sl, sr)
    ensures forall k :: var e := EntryFor(result, IntersectionSlice, k);
                        e.left == EntryFor(left, sl, k) && e.right == EntryFor(right, sr, k)
  {
    var overlay := SlicesOf(result, IntersectionSlice);
    forall k
      ensures var e := EntryFor(result, IntersectionSlice, k);
              e.left == EntryFor(left, sl, k) && e.right == EntryFor(right, sr, k)
    {
      CompleteCovers(Finite(MIN_SLICE_KEY), overlay, k);
      var m := Locate(overlay, k);
      assert PairsLookups(result[m], left, right, sl, sr) && result[m].slice.Contains(k);
    }
  }

  /** On two partitions the scan panics neither inside the loop nor at the end. The result is a
      partition in which each key meets exactly its pair of lookups, and which is cut exactly where
      one of the inputs is cut; hence its size. */
  method IntersectSlices<T, U>(left: SliceMap<T>, right: SliceMap<U>, sl: T -> Slice, sr: U -> Slice)
    returns (r: Outcome<SliceMap<IntersectionEntry<T, U>>, PartitionError>)
    requires IsPartition(left.entries, sl) && IsPartition(right.entries, sr)
    ensures r.Done? && IsPartition(r.value.entries, IntersectionSlice)
    ensures forall k :: var e := EntryFor(r.value.entries, IntersectionSlice, k);
                        e.left == EntryFor(left.entries, sl, k) && e.right == EntryFor(right.entries, sr, k)
    ensures Highs(SlicesOf(r.value.entries, IntersectionSlice))
         == Highs(SlicesOf(left.entries, sl)) + Highs(SlicesOf(right.entries, sr))
    ensures |r.value.entries| == |left.entries| + |right.entries|
                                 - |Highs(SlicesOf(left.entries, sl)) * Highs(SlicesOf(right.entries, sr))|
    ensures |r.value.entries| <= |left.entries| + |right.entries| - 1
  {
    var leftEntries, rightEntries := left.entries, right.entries;
    var result: seq<IntersectionEntry<T, U>> := [];
    var leftIt, rightIt := 0, 0;
    ghost var frontier := Finite(MIN_SLICE_KEY);
    ghost var ls, rs := SlicesOf(leftEntries, sl), SlicesOf(rightEntries, sr);
    OverlayStarts(ls, rs);
    while leftIt < |leftEntries| && rightIt < |rightEntries|
      invariant leftIt <= |leftEntries| && rightIt <= |rightEntries|
      invariant OverlayUpTo(SlicesOf(result, IntersectionSlice), ls, rs, leftIt, rightIt, frontier)
      invariant AllPaired(result, leftEntries, rightEntries, sl, sr)
      decreases |leftEntries| + |rightEntries| - leftIt - rightIt
    {
      var leftEntry, rightEntry := leftEntries[leftIt], rightEntries[rightIt];
      var leftSlice, rightSlice := sl(leftEntry), sr(rightEntry);
      OverlayGrows(SlicesOf(result, IntersectionSlice), ls, rs, leftIt, rightIt, frontier);
      var intersection := leftSlice.Intersection(rightSlice);
      if intersection.None? {
        return Panicked;
      }
      var upper := intersection.value.high;
      var entry := IntersectionEntry(intersection.value, leftEntry, rightEntry);
      AppendOverlap(result, entry, leftEntries, rightEntries, sl, sr, leftIt, rightIt);
      result := result + [entry];
      frontier := upper;
      if leftSlice.high.CompareWithHigh(upper) == 0 {
        leftIt := leftIt + 1;
      }
      if rightSlice.high.CompareWithHigh(upper) == 0 {
        rightIt := rightIt + 1;
      }
    }
    OverlayEnds(SlicesOf(result, IntersectionSlice), ls, rs, leftIt, rightIt, frontier);
    OverlaySize(result, leftEntries, rightEntries, sl, sr);
    r := MustNewSliceMap(result, IntersectionSlice);
    PairedEverywhere(result, leftEntries, rightEntries, sl, sr);
  }
}
