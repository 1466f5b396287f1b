/** Versions of an assignment: an incarnation of the store, then a number within it. */
module Generations {
  import opened Wrappers
  import opened Words

  const INCARNATION_GUARDRAIL := 0x5_0000_0000_0000

  type Incarnation = n: int | 0 <= n < INCARNATION_GUARDRAIL

  /** Refused at or above the guardrail; the `Must` form of the constructor panics there. */
  function NewIncarnation(value: uint64): Option<Incarnation>
  {
    if value >= INCARNATION_GUARDRAIL then None else Some(value)
  }

  function CompareIncarnations(a: Incarnation, b: Incarnation): int
  {
    if a < b then -1 else if a > b then 1 else 0
  }

  datatype Generation = Generation(incarnation: Incarnation, number: uint64) {

    function Compare(other: Generation): (c: int)
      ensures -1 <= c <= 1
      ensures c < 0 <==> Before(other)
      ensures c == 0 <==> this == other
      ensures c > 0 <==> other.Before(this)
    {
      var c := CompareIncarnations(incarnation, other.incarnation);
      if c != 0 then c
      else if number < other.number then -1
      else if number > other.number then 1
      else 0
    }

    /** The 128-bit order: the incarnation holds the high bits. */
    predicate Before(other: Generation)
    {
      incarnation < other.incarnation || (incarnation == other.incarnation && number < other.number)
    }

    predicate IsEmpty()
      ensures IsEmpty() <==> this == EMPTY_GENERATION
    {
      Compare(EMPTY_GENERATION) == 0
    }
  }

  const EMPTY_GENERATION := Generation(0, 0)

  /** The comparison is that of the 128-bit numbers the fields make up. */
  lemma ComparesAsOneNumber(a: Generation, b: Generation)
    ensures var high := 0x1_0000_0000_0000_0000;
            a.Compare(b) < 0 <==> a.incarnation * high + a.number < b.incarnation * high + b.number
  {
  }

  lemma CompareIsTransitive(a: Generation, b: Generation, c: Generation)
    ensures a.Compare(b) <= 0 && b.Compare(c) <= 0 ==> a.Compare(c) <= 0
    ensures a.Compare(b) == -b.Compare(a)
    ensures EMPTY_GENERATION.Compare(a) <= 0
  {
  }
}
