/** The cell that readers load the current assignment from. */
module AssignmentCells {
  import opened Wrappers
  import opened Generations
  import opened Assignments

  /** A pointer to an assignment; pointers are compared by identity. */
  datatype Pointer = Pointer(id: nat, target: Assignment) {

    predicate OlderThan(other: Option<Pointer>)
    {
      other.Some? && target.generation.Before(other.value.target.generation)
    }
  }

  datatype SwapOutcome = Refused | Swapped | Lost

  /** `listeners` are the registered callbacks, by name; `deliveries` records each call made. */
  class AtomicAssignmentCell {
    var ptr: Option<Pointer>
    var listeners: seq<nat>
    var deliveries: seq<(nat, Pointer)>

    constructor (initial: Option<Pointer>)
      ensures ptr == initial && listeners == [] && deliveries == []
    {
      ptr := initial;
      listeners := [];
      deliveries := [];
    }

    method Get() returns (p: Option<Pointer>)
      ensures p == ptr
    {
      return ptr;
    }

    method AddListener(listener: nat)
      modifies this`listeners
      ensures listeners == old(listeners) + [listener]
    {
      listeners := listeners + [listener];
    }

    method CompareAndSwap(expected: Option<Pointer>, new_: Pointer) returns (swapped: bool)
      modifies this`ptr
      ensures swapped <==> old(ptr) == expected
      ensures ptr == if swapped then Some(new_) else old(ptr)
    {
      if ptr == expected {
        ptr := Some(new_);
        return true;
      }
      return false;
    }

    method NotifyListeners(new_: Pointer)
      modifies this`deliveries
      ensures deliveries == old(deliveries) + Deliveries(listeners, new_)
      ensures |deliveries| == old(|deliveries|) + |listeners| && old(deliveries) <= deliveries
      ensures forall i :: 0 <= i < |listeners| ==> deliveries[old(|deliveries|) + i] == (listeners[i], new_)
    {
      for i := 0 to |listeners|
        invariant deliveries == old(deliveries) + Deliveries(listeners[..i], new_)
      {
        assert listeners[..i + 1] == listeners[..i] + [listeners[i]];
        deliveries := deliveries + [(listeners[i], new_)];
      }
      assert listeners[..|listeners|] == listeners;
    }

    /** One turn of the loop: load, compare, swap. Another goroutine may leave `overtaker` in the cell
        between the load and the swap. */
    method Attempt(p: Pointer, overtaker: Option<Pointer>) returns (outcome: SwapOutcome)
      modifies this`ptr, this`deliveries
      ensures outcome.Refused? <==> p.OlderThan(old(ptr))
      ensures outcome.Lost? ==> overtaker.Some? && overtaker != old(ptr)
      ensures outcome.Swapped? ==> overtaker.None? || overtaker == old(ptr)
      ensures ptr == if outcome.Refused? then old(ptr) else if outcome.Swapped? then Some(p) else overtaker
      ensures deliveries == if outcome.Swapped? then old(deliveries) + Deliveries(listeners, p) else old(deliveries)
    {
      var current := ptr;
      if current.Some? {
        if p.target.generation.Compare(current.value.target.generation) < 0 {
          return Refused;
        }
      }
      if overtaker.Some? {
        ptr := overtaker;
      }
      var swapped := CompareAndSwap(current, p);
      if swapped {
        NotifyListeners(p);
        return Swapped;
      }
      return Lost;
    }

    /** `overtakers` are what other goroutines leave in the cell between this call's load and its
        swap, attempt by attempt; once they are used up nobody interferes. An attempt succeeds as
        well if the very pointer it loaded has been put back. The call is refused exactly if the new
        assignment is older than one it loads, so it puts its pointer in place or leaves one to a
        newer assignment there, and a pointer put in place reaches every listener once. How whole
        runs of such calls interleave is the subject of the driver's model. */
    method Set(newAssignment: Option<Pointer>, overtakers: seq<Pointer>) returns (updated: bool)
      modifies this`ptr, this`deliveries
      ensures updated <==>
                newAssignment.Some?
                && NeverOlder(newAssignment.value, old(ptr), overtakers, FailingAttempts(old(ptr), overtakers) + 1)
      ensures updated ==> ptr == newAssignment
      ensures !updated && newAssignment.Some? ==> newAssignment.value.OlderThan(ptr)
      ensures !updated ==> ptr == old(ptr) || (ptr.Some? && ptr.value in overtakers)
      ensures deliveries ==
                if updated then old(deliveries) + Deliveries(listeners, newAssignment.value) else old(deliveries)
    {
      hide *;
      if newAssignment.None? {
        return false;
      }
      var attempt := 0;
      NothingLoaded(newAssignment.value, ptr, overtakers);
      while true
        invariant 0 <= attempt <= FailingAttempts(old(ptr), overtakers)
        invariant ptr == Loaded(old(ptr), overtakers, attempt)
        invariant NeverOlder(newAssignment.value, old(ptr), overtakers, attempt)
        invariant deliveries == old(deliveries)
        decreases |overtakers| - attempt
      {
        OneMoreLoaded(newAssignment.value, old(ptr), overtakers, attempt, FailingAttempts(old(ptr), overtakers) + 1);
        var overtaker := if attempt < |overtakers| then Some(overtakers[attempt]) else None;
        var outcome := Attempt(newAssignment.value, overtaker);
        if outcome.Refused? {
          return false;
        }
        if outcome.Swapped? {
          return true;
        }
        attempt := attempt + 1;
      }
    }
  }

  /** What attempt i loads, if those before it have failed. */
  function Loaded(first: Option<Pointer>, overtakers: seq<Pointer>, i: nat): Option<Pointer>
    requires i <= |overtakers|
  {
    if i == 0 then first else Some(overtakers[i - 1])
  }

  /** None of the first n attempts loads something that p is older than. */
  ghost predicate NeverOlder(p: Pointer, first: Option<Pointer>, overtakers: seq<Pointer>, n: nat)
    requires n <= |overtakers| + 1
  {
    forall i :: 0 <= i < n ==> !p.OlderThan(Loaded(first, overtakers, i))
  }

  lemma NothingLoaded(p: Pointer, first: Option<Pointer>, overtakers: seq<Pointer>)
    ensures NeverOlder(p, first, overtakers, 0) && Loaded(first, overtakers, 0) == first
  {
  }

  lemma OneMoreLoaded(p: Pointer, first: Option<Pointer>, overtakers: seq<Pointer>, i: nat, n: nat)
    requires i < n <= |overtakers| + 1
    ensures NeverOlder(p, first, overtakers, i + 1) <==>
            NeverOlder(p, first, overtakers, i) && !p.OlderThan(Loaded(first, overtakers, i))
    ensures p.OlderThan(Loaded(first, overtakers, i)) ==> !NeverOlder(p, first, overtakers, n)
    ensures i < |overtakers| ==> Loaded(first, overtakers, i + 1) == Some(overtakers[i])
    ensures i > 0 ==> Loaded(first, overtakers, i) == Some(overtakers[i - 1]) && overtakers[i - 1] in overtakers
  {
  }

  /** How many attempts fail before one finds in the cell what it loaded. */
  function FailingAttempts(first: Option<Pointer>, overtakers: seq<Pointer>): (n: nat)
    decreases overtakers
    ensures n <= |overtakers|
    ensures forall i :: 0 <= i < n ==> Some(overtakers[i]) != Loaded(first, overtakers, i)
    ensures n < |overtakers| ==> Some(overtakers[n]) == Loaded(first, overtakers, n)
  {
    if overtakers == [] || Some(overtakers[0]) == first then 0
    else
      var n := FailingAttempts(Some(overtakers[0]), overtakers[1..]);
      assert forall i :: 0 < i <= |overtakers| ==>
        Loaded(first, overtakers, i) == Loaded(Some(overtakers[0]), overtakers[1..], i - 1);
      assert forall i :: 0 < i < |overtakers| ==> overtakers[i] == overtakers[1..][i - 1];
      n + 1
  }

  function Deliveries(listeners: seq<nat>, p: Pointer): seq<(nat, Pointer)>
  {
    seq(|listeners|, i requires 0 <= i < |listeners| => (listeners[i], p))
  }
}
