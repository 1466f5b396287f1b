/**
 Lists of slices: what it means to partition the key space, to be ordered and disjoint, and where
 a key falls. This is the specification the slice-map algorithms are proved against.
 */
module Partitions {
  import opened SliceKeys
  import opened Slices

  ghost predicate AllWellFormed(s: seq<Slice>)
  {
    forall i :: 0 <= i < |s| ==> s[i].WellFormed()
  }

  /** Each slice starts where the one before it ends, from `from` up to infinity. */
  ghost predicate CompleteFrom(from: HighSliceKey, s: seq<Slice>)
    decreases s
  {
    if s == [] then from == Infinity
    else from == Finite(s[0].low) && CompleteFrom(s[0].high, s[1..])
  }

  ghost predicate Complete(s: seq<Slice>)
  {
    CompleteFrom(Finite(MIN_SLICE_KEY), s)
  }

  /** Each slice starts at or after the end of the one before it. */
  ghost predicate OrderedFrom(from: HighSliceKey, s: seq<Slice>)
    decreases s
  {
    if s == [] then true
    else from.CompareWithKey(s[0].low) <= 0 && OrderedFrom(s[0].high, s[1..])
  }

  ghost predicate OrderedDisjoint(s: seq<Slice>)
  {
    OrderedFrom(Finite(MIN_SLICE_KEY), s)
  }

  /** Linear search for the first slice that holds the key; -1 if none does. */
  ghost function Locate(s: seq<Slice>, k: Key): (r: int)
    ensures -1 <= r < |s|
    ensures r >= 0 ==> s[r].Contains(k) && forall j :: 0 <= j < r ==> !s[j].Contains(k)
    ensures r == -1 ==> forall j :: 0 <= j < |s| ==> !s[j].Contains(k)
  {
    if s == [] then -1
    else if s[0].Contains(k) then 0
    else
      var r := Locate(s[1..], k);
      if r == -1 then
        assert forall j :: 0 < j < |s| ==> s[j] == s[1..][j - 1];
        -1
      else r + 1
  }

  lemma {:induction false} CompleteIsOrdered(from: HighSliceKey, s: seq<Slice>)
    requires CompleteFrom(from, s)
    ensures OrderedFrom(from, s)
    decreases s
  {
    if s != [] {
      CompleteIsOrdered(s[0].high, s[1..]);
    }
  }

  /** Ordered lists are ordered at a distance, and everything lies above the start. */
  lemma {:induction false} OrderedAtDistance(from: HighSliceKey, s: seq<Slice>)
    requires OrderedFrom(from, s) && AllWellFormed(s)
    ensures forall i :: 0 <= i < |s| ==> from.Bound() <= Rank(s[i].low) < s[i].high.Bound()
    ensures forall i, j :: 0 <= i < j < |s| ==> s[i].high.Bound() <= Rank(s[j].low)
    decreases s
  {
    if s != [] {
      assert s[0].WellFormed();
      assert forall i :: 0 < i < |s| ==> s[i] == s[1..][i - 1];
      OrderedAtDistance(s[0].high, s[1..]);
    }
  }

  /** Nothing in an ordered list holds a key from below its start. */
  lemma NothingBelow(from: HighSliceKey, s: seq<Slice>, k: Key)
    requires OrderedFrom(from, s) && AllWellFormed(s)
    requires from.CompareWithKey(k) > 0
    ensures Locate(s, k) == -1
  {
    OrderedAtDistance(from, s);
  }

  /** In an ordered list a key lies in at most one slice. */
  lemma LocateIsUnique(s: seq<Slice>, k: Key, i: nat)
    requires OrderedDisjoint(s) && AllWellFormed(s)
    requires i < |s| && s[i].Contains(k)
    ensures Locate(s, k) == i
  {
    OrderedAtDistance(Finite(MIN_SLICE_KEY), s);
    var r := Locate(s, k);
    assert !s[r].Contains(k) || r == i;
  }

  /** In a complete list every key at or above the start lies in some slice. */
  lemma {:induction false} CompleteCovers(from: HighSliceKey, s: seq<Slice>, k: Key)
    requires CompleteFrom(from, s) && from.CompareWithKey(k) <= 0
    ensures Locate(s, k) >= 0
    decreases s
  {
    if !s[0].Contains(k) {
      CompleteCovers(s[0].high, s[1..], k);
    }
  }

  /** Index form of completeness: the conditions the validator checks one by one. */
  ghost predicate Linked(s: seq<Slice>)
  {
    && |s| > 0
    && s[0].low == MIN_SLICE_KEY
    && (forall i :: 0 <= i < |s| - 1 ==> s[i].high == Finite(s[i + 1].low))
    && s[|s| - 1].high == Infinity
  }

  lemma {:induction false} LinkedFrom(from: Key, s: seq<Slice>)
    ensures CompleteFrom(Finite(from), s) <==>
            && |s| > 0
            && s[0].low == from
            && (forall i :: 0 <= i < |s| - 1 ==> s[i].high == Finite(s[i + 1].low))
            && s[|s| - 1].high == Infinity
    decreases s
  {
    if |s| > 1 {
      assert forall i :: 0 < i < |s| ==> s[i] == s[1..][i - 1];
      if s[0].high.Finite? {
        LinkedFrom(s[0].high.key, s[1..]);
        if CompleteFrom(Finite(from), s) {
          forall i | 0 <= i < |s| - 1
            ensures s[i].high == Finite(s[i + 1].low)
          {
            if i > 0 { assert s[1..][i - 1].high == Finite(s[1..][i].low); }
          }
        } else if |s| > 0 && s[0].low == from && s[|s| - 1].high == Infinity
                  && forall i :: 0 <= i < |s| - 1 ==> s[i].high == Finite(s[i + 1].low) {
          assert s[0].high == Finite(s[1].low);
          forall i | 0 <= i < |s[1..]| - 1
            ensures s[1..][i].high == Finite(s[1..][i + 1].low)
          {
            assert s[i + 1].high == Finite(s[i + 2].low);
          }
        }
      }
    }
  }

  lemma CompleteIsLinked(s: seq<Slice>)
    ensures Complete(s) <==> Linked(s)
  {
    LinkedFrom(MIN_SLICE_KEY, s);
  }

  // ---------------------------------------------------------------------------
  // Completeness is "every key has exactly one home"
  // ---------------------------------------------------------------------------

  ghost predicate LowsAscend(s: seq<Slice>)
  {
    forall i, j :: 0 <= i < j < |s| ==> Compare(s[i].low, s[j].low) < 0
  }

  ghost predicate ExactlyOneHome(s: seq<Slice>, k: Key)
  {
    exists i :: 0 <= i < |s| && s[i].Contains(k) && forall j :: 0 <= j < |s| && s[j].Contains(k) ==> j == i
  }

  lemma CompleteIffExactlyOneHome(s: seq<Slice>)
    requires AllWellFormed(s)
    ensures Complete(s) <==> LowsAscend(s) && forall k :: ExactlyOneHome(s, k)
  {
    if Complete(s) {
      CompleteIsOrdered(Finite(MIN_SLICE_KEY), s);
      OrderedAtDistance(Finite(MIN_SLICE_KEY), s);
      forall k
        ensures ExactlyOneHome(s, k)
      {
        CompleteCovers(Finite(MIN_SLICE_KEY), s, k);
        var i := Locate(s, k);
        forall j | 0 <= j < |s| && s[j].Contains(k)
          ensures j == i
        {
          LocateIsUnique(s, k, j);
        }
      }
      forall i, j | 0 <= i < j < |s|
        ensures Compare(s[i].low, s[j].low) < 0
      {
        assert s[i].WellFormed();
      }
    }
    if LowsAscend(s) && forall k :: ExactlyOneHome(s, k) {
      HomesMakeLinks(s);
      CompleteIsLinked(s);
    }
  }

  lemma UniqueHome(s: seq<Slice>, k: Key)
    requires ExactlyOneHome(s, k)
    ensures forall i, j :: 0 <= i < |s| && 0 <= j < |s| && s[i].Contains(k) && s[j].Contains(k) ==> i == j
  {
  }

  lemma EarlierMissesBound(s: seq<Slice>, i: nat, j: nat)
    requires AllWellFormed(s) && LowsAscend(s)
    requires j < i < |s| && s[i].high.Finite? && ExactlyOneHome(s, s[i].low)
    ensures !s[j].Contains(s[i].high.key)
  {
    assert s[i].WellFormed();
    UniqueHome(s, s[i].low);
    assert s[i].Contains(s[i].low);
    assert !s[j].Contains(s[i].low);
  }

  /** The key at a finite bound lives in a later slice. */
  lemma HomeOfBoundIsLater(s: seq<Slice>, i: nat)
    requires AllWellFormed(s) && LowsAscend(s)
    requires forall k :: ExactlyOneHome(s, k)
    requires i < |s| && s[i].high.Finite?
    ensures exists j :: i < j < |s| && s[j].Contains(s[i].high.key)
  {
    var k := s[i].high.key;
    assert ExactlyOneHome(s, k) && ExactlyOneHome(s, s[i].low);
    forall j: nat | j < i
      ensures !s[j].Contains(k)
    {
      EarlierMissesBound(s, i, j);
    }
    assert !s[i].Contains(k);
    var j :| 0 <= j < |s| && s[j].Contains(k);
  }

  /** With ascending lows, one home per key leaves no room for a gap or an overlap. */
  lemma HomesMakeLinks(s: seq<Slice>)
    requires AllWellFormed(s) && LowsAscend(s)
    requires forall k :: ExactlyOneHome(s, k)
    ensures Linked(s)
  {
    assert ExactlyOneHome(s, MIN_SLICE_KEY);
    forall i | 0 <= i < |s| - 1
      ensures s[i].high == Finite(s[i + 1].low)
    {
      HomesLinkPair(s, i);
    }
    var last := |s| - 1;
    if s[last].high.Finite? {
      HomeOfBoundIsLater(s, last);
    }
  }

  lemma HomesLinkPair(s: seq<Slice>, i: nat)
    requires AllWellFormed(s) && LowsAscend(s)
    requires forall k :: ExactlyOneHome(s, k)
    requires i + 1 < |s|
    ensures s[i].high == Finite(s[i + 1].low)
  {
    var here, next := s[i], s[i + 1];
    assert here.WellFormed() && next.WellFormed();
    assert next.Contains(next.low);
    assert ExactlyOneHome(s, next.low);
    UniqueHome(s, next.low);
    assert !here.Contains(next.low);
    HomeOfBoundIsLater(s, i);
    var j :| i < j < |s| && s[j].Contains(here.high.key);
    var home := s[j];
    assert Compare(next.low, home.low) <= 0;
  }

  // ---------------------------------------------------------------------------
  // Upper bounds
  // ---------------------------------------------------------------------------

  ghost function Highs(s: seq<Slice>): set<HighSliceKey>
  {
    set i | 0 <= i < |s| :: s[i].high
  }

  lemma HighsAppend(s: seq<Slice>, x: Slice)
    ensures Highs(s + [x]) == Highs(s) + {x.high}
  {
    var t := s + [x];
    assert forall i :: 0 <= i < |s| ==> t[i] == s[i];
    assert t[|s|] == x;
    forall h | h in Highs(s) + {x.high}
      ensures h in Highs(t)
    {
      if h in Highs(s) {
        var i :| 0 <= i < |s| && s[i].high == h;
        assert t[i].high == h;
      }
    }
  }

  /** The upper bounds of an ordered list are distinct, so they count its slices. */
  lemma {:induction false} HighsCount(s: seq<Slice>)
    requires OrderedDisjoint(s) && AllWellFormed(s)
    ensures |Highs(s)| == |s|
  {
    OrderedAtDistance(Finite(MIN_SLICE_KEY), s);
    DistinctHighsCount(s);
  }

  lemma {:induction false} DistinctHighsCount(s: seq<Slice>)
    requires forall i, j :: 0 <= i < j < |s| ==> s[i].high.Bound() < s[j].high.Bound()
    ensures |Highs(s)| == |s|
  {
    if s != [] {
      var n := |s| - 1;
      DistinctHighsCount(s[..n]);
      assert s == s[..n] + [s[n]];
      HighsAppend(s[..n], s[n]);
      assert s[n].high !in Highs(s[..n]);
    }
  }
}
