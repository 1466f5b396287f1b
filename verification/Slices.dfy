/** Half-open key ranges with an upper bound that may be infinite. */
module Slices {
  import opened Wrappers
  import opened SliceKeys

  datatype HighSliceKey = Finite(key: Key) | Infinity {

    /** Position of the bound on the line of ranks; infinity lies beyond every key. */
    function Bound(): (r: real)
      ensures 0.0 <= r <= 1.0
      ensures r == 1.0 <==> Infinity?
    {
      if Infinity? then 1.0 else Rank(key)
    }

    function CompareWithKey(k: Key): (c: int)
      ensures c < 0 <==> Bound() < Rank(k)
      ensures c == 0 <==> this == Finite(k)
      ensures c > 0 <==> Bound() > Rank(k)
    {
      if Infinity? then 1 else Compare(key, k)
    }

    function CompareWithHigh(other: HighSliceKey): (c: int)
      ensures c < 0 <==> Bound() < other.Bound()
      ensures c == 0 <==> this == other
      ensures c > 0 <==> Bound() > other.Bound()
    {
      if Infinity? && other.Infinity? then 0
      else if Infinity? then 1
      else if other.Infinity? then -1
      else Compare(key, other.key)
    }
  }

  datatype SliceError = LowNotBelowHigh

  datatype Slice = Slice(low: Key, high: HighSliceKey) {

    /** What the constructor guarantees: the range is not empty. */
    predicate WellFormed()
    {
      high.CompareWithKey(low) > 0
    }

    predicate Contains(key: Key)
    {
      if Compare(key, low) < 0 then false else high.CompareWithKey(key) > 0
    }

    predicate ContainsSlice(other: Slice)
    {
      if Compare(other.low, low) < 0 then false else high.CompareWithHigh(other.high) >= 0
    }

    function Intersection(other: Slice): Option<Slice>
    {
      var lo := if Compare(other.low, low) > 0 then other.low else low;
      var hi := if other.high.CompareWithHigh(high) < 0 then other.high else high;
      if hi.CompareWithKey(lo) <= 0 then None else Some(Slice(lo, hi))
    }
  }

  const MIN_SLICE_KEY: Key := []

  function NewSlice(low: Key, high: HighSliceKey): Result<Slice, SliceError>
  {
    if high.CompareWithKey(low) <= 0 then Failure(LowNotBelowHigh) else Success(Slice(low, high))
  }

  /** A slice is accepted exactly when some key lies in it. */
  lemma AcceptedIffInhabited(low: Key, high: HighSliceKey)
    ensures NewSlice(low, high).Success? <==> exists k :: Slice(low, high).Contains(k)
  {
    if NewSlice(low, high).Success? {
      assert Slice(low, high).Contains(low);
    }
  }

  /** Containment of slices is containment of their keys. Keys are not dense, so the witness for
      the hard direction is the inner bound itself. */
  lemma ContainsSliceIsSubset(s: Slice, other: Slice)
    requires other.WellFormed()
    ensures s.ContainsSlice(other) <==> forall k :: other.Contains(k) ==> s.Contains(k)
  {
    if (forall k :: other.Contains(k) ==> s.Contains(k)) && !s.ContainsSlice(other) {
      assert other.Contains(other.low);
      assert other.Contains(s.high.key);
    }
  }

  /** The intersection is reported exactly when the slices share a key, and it is well formed and
      holds exactly the shared keys. */
  lemma IntersectionIsPointwise(s: Slice, other: Slice)
    ensures var r := s.Intersection(other);
            && (r.Some? <==> exists k :: s.Contains(k) && other.Contains(k))
            && (r.Some? ==> r.value.WellFormed() &&
                            forall k :: r.value.Contains(k) <==> s.Contains(k) && other.Contains(k))
  {
    var r := s.Intersection(other);
    if r.Some? {
      assert s.Contains(r.value.low) && other.Contains(r.value.low);
    }
  }

  /** A slice is determined by the keys it holds. */
  lemma SameKeysSameSlice(s: Slice, other: Slice)
    requires s.WellFormed() && other.WellFormed()
    requires forall k :: s.Contains(k) <==> other.Contains(k)
    ensures s == other
  {
    ContainsSliceIsSubset(s, other);
    ContainsSliceIsSubset(other, s);
    assert Compare(s.low, other.low) == 0;
    assert s.high.CompareWithHigh(other.high) == 0;
  }
}
