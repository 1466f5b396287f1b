/** Routing keys to server incarnations over the current assignment. */
module Router {
  import opened Wrappers
  import opened Words
  import opened SliceKeys
  import opened SliceMaps
  import opened Squids
  import opened Assignments
  import opened AssignmentCells

  datatype RouteError = NoAssignmentAvailable | NoResourcesAssigned | AllReplicasExhausted

  const COUNTER_SIZE: nat := 0x1_0000_0000_0000_0000

  /** What the slice map's constructor guarantees of whatever the cell holds. */
  ghost predicate Routable(ptr: Option<Pointer>)
  {
    ptr.Some? ==> IsPartition(ptr.value.target.sliceMap.entries, SliceOf)
  }

  ghost function Replicas(ptr: Option<Pointer>, key: Key): (all: Result<seq<Squid>, RouteError>)
    requires Routable(ptr)
    ensures all.Success? ==> all.value != []
  {
    if ptr.None? then Failure(NoAssignmentAvailable)
    else
      var resources := ResourcesFor(ptr.value.target, key);
      if resources == [] then Failure(NoResourcesAssigned) else Success(resources)
  }

  /** Over a published assignment routing cannot fail: every key has a replica. */
  lemma PublishedKeysHaveReplicas(p: Pointer, key: Key)
    requires BuiltAssignment(p.target)
    ensures Routable(Some(p)) && Replicas(Some(p), key).Success?
  {
    var entries := p.target.sliceMap.entries;
    EntryForIsEntryIn(entries, SliceOf, key);
    EntryInIsLocate(entries, SliceOf, key);
    assert forall i :: 0 <= i < |entries| ==> BuiltSliceAssignment(entries[i]);
  }

  function NextCounter(counter: uint64): uint64
  {
    (counter + 1) % COUNTER_SIZE
  }

  /** A single replica is picked without the counter. */
  predicate UsesCounter(all: Result<seq<Squid>, RouteError>)
  {
    all.Success? && |all.value| != 1
  }

  /** The first replica in the list that has not been tried. */
  function FirstUntried(resources: seq<Squid>, tried: seq<Squid>): Option<Squid>
  {
    if resources == [] then None
    else if resources[0] !in tried then Some(resources[0])
    else FirstUntried(resources[1..], tried)
  }

  /** The answer for a key, by the one entry of the slice map that holds it. */
  ghost predicate RoutesTo(entries: seq<SliceAssignment>, key: Key, r: Result<seq<Squid>, RouteError>)
  {
    forall e :: e in entries && e.sliceWithResources.slice.Contains(key) ==>
      r == if e.sliceWithResources.resources == [] then Failure(NoResourcesAssigned)
           else Success(e.sliceWithResources.resources)
  }

  lemma OneEntryDecides(entries: seq<SliceAssignment>, key: Key)
    requires IsPartition(entries, SliceOf)
    ensures forall e :: e in entries && SliceOf(e).Contains(key) ==> e == EntryFor(entries, SliceOf, key)
  {
    forall e | e in entries && SliceOf(e).Contains(key)
      ensures e == EntryFor(entries, SliceOf, key)
    {
      var i :| 0 <= i < |entries| && entries[i] == e;
      EntryForIsUnique(entries, SliceOf, key, i);
    }
  }

  class ResourceRouter {
    const cell: AtomicAssignmentCell
    var rrCounters: uint64

    constructor (cell: AtomicAssignmentCell)
      ensures this.cell == cell && rrCounters == 0
    {
      this.cell := cell;
      rrCounters := 0;
    }

    /** The lookup cannot panic, and the answer lists all resources of the entry that holds the key. */
    method RouteAll(key: Key) returns (r: Result<seq<Squid>, RouteError>)
      requires Routable(cell.ptr)
      ensures r == Replicas(cell.ptr, key)
      ensures cell.ptr.None? ==> r == Failure(NoAssignmentAvailable)
      ensures cell.ptr.Some? ==> RoutesTo(cell.ptr.value.target.sliceMap.entries, key, r)
    {
      var assignment := cell.Get();
      if assignment.None? {
        return Failure(NoAssignmentAvailable);
      }
      OneEntryDecides(assignment.value.target.sliceMap.entries, key);
      var sa := LookUp(assignment.value.target.sliceMap, SliceOf, key);
      var resources := ResourcesOf(sa.value);
      if |resources| == 0 {
        return Failure(NoResourcesAssigned);
      }
      return Success(resources);
    }

    /** A single replica is answered without the counter; of several, the counter picks. */
    method Route(key: Key) returns (r: Result<Squid, RouteError>)
      requires Routable(cell.ptr)
      modifies this`rrCounters
      ensures var all := Replicas(cell.ptr, key);
              && (all.Failure? ==> r == Failure(all.error))
              && (all.Success? ==> r.Success? && r.value in all.value)
              && (UsesCounter(all) ==> r == Success(all.value[rrCounters % |all.value|]))
              && rrCounters == if UsesCounter(all) then NextCounter(old(rrCounters)) else old(rrCounters)
    {
      var all := RouteAll(key);
      if all.Failure? {
        return Failure(all.error);
      }
      var resources := all.value;
      if |resources| == 1 {
        return Success(resources[0]);
      }
      rrCounters := (rrCounters + 1) % COUNTER_SIZE;
      var idx := rrCounters % |resources|;
      return Success(resources[idx]);
    }

    /** Routing a key again and again: over k rounds of calls on n different replicas each of them is
        the answer exactly k times, if and only if the counter's wrap does not show. */
    method RouteRepeatedly(key: Key, calls: nat) returns (answers: seq<Result<Squid, RouteError>>)
      requires Routable(cell.ptr)
      modifies this`rrCounters
      ensures |answers| == calls
      ensures var all := Replicas(cell.ptr, key);
              UsesCounter(all) && NoDuplicates(all.value) ==>
                forall k: nat :: k * |all.value| == calls ==>
                  ((forall sq :: sq in all.value ==> multiset(answers)[Success(sq)] == k)
                   <==> WrapDoesNotShow(old(rrCounters), k, |all.value|))
    {
      hide Replicas, Routable, CountsOn, Picked, AnswersFollow, WrapDoesNotShow, NextCounter, NoDuplicates;
      answers := [];
      ghost var all := Replicas(cell.ptr, key);
      ghost var counters := [rrCounters];
      OneCounter(rrCounters);
      for i := 0 to calls
        invariant |answers| == i && |counters| == i + 1 && counters[0] == old(rrCounters)
        invariant UsesCounter(all) ==> CountsOn(counters) && counters[i] == rrCounters
        invariant UsesCounter(all) ==> AnswersFollow(all.value, counters, answers)
      {
        var answer := Route(key);
        if UsesCounter(all) {
          OneMoreAnswer(all.value, counters, answers, rrCounters);
        }
        answers := answers + [answer];
        counters := counters + [rrCounters];
      }
      forall k: nat | UsesCounter(all) && NoDuplicates(all.value) && k * |all.value| == calls
        ensures (forall sq :: sq in all.value ==> multiset(answers)[Success(sq)] == k)
                <==> WrapDoesNotShow(old(rrCounters), k, |all.value|)
      {
        FairAnswers(all.value, counters, answers, k);
      }
    }

    /** The answer is the first replica that has not been tried; exhaustion means there is none. */
    method RouteWithRetry(key: Key, tried: seq<Squid>) returns (r: Result<Squid, RouteError>)
      requires Routable(cell.ptr)
      ensures var all := Replicas(cell.ptr, key);
              && (all.Failure? ==> r == Failure(all.error))
              && (all.Success? ==>
                    && (r == Failure(AllReplicasExhausted) <==> forall sq :: sq in all.value ==> sq in tried)
                    && (r.Failure? ==> r.error == AllReplicasExhausted)
                    && (r.Success? ==>
                          exists j: nat :: j < |all.value| && all.value[j] == r.value && r.value !in tried
                                           && forall k :: 0 <= k < j ==> all.value[k] in tried))
    {
      hide *;
      var all := RouteAll(key);
      if all.Failure? {
        return Failure(all.error);
      }
      var resources := all.value;
      var triedMap: set<Squid> := {};
      for i := 0 to |tried|
        invariant forall sq :: sq in triedMap <==> sq in tried[..i]
      {
        triedMap := triedMap + {tried[i]};
        assert tried[..i + 1] == tried[..i] + [tried[i]];
      }
      assert tried[..|tried|] == tried;
      var untried: seq<Squid> := [];
      ghost var first: nat := 0;
      for i := 0 to |resources|
        invariant untried == [] ==> forall k :: 0 <= k < i ==> resources[k] in tried
        invariant untried != [] ==>
                    first < i && resources[first] == untried[0] && untried[0] !in tried
                    && forall k :: 0 <= k < first ==> resources[k] in tried
      {
        if resources[i] !in triedMap {
          if untried == [] {
            first := i;
          }
          untried := untried + [resources[i]];
        }
      }
      if |untried| == 0 {
        return Failure(AllReplicasExhausted);
      }
      assert resources[first] !in tried;
      return Success(untried[0]);
    }

    /** Retrying with all earlier answers as tried, until there is no further answer: the answers are
        the key's replicas, each once and in list order, and then exhaustion is reported. */
    method RetryUntilFailure(key: Key) returns (picks: seq<Squid>, error: RouteError)
      requires Routable(cell.ptr)
      ensures var all := Replicas(cell.ptr, key);
              && (all.Failure? ==> picks == [] && error == all.error)
              && (all.Success? ==> picks == DistinctOf(all.value) && error == AllReplicasExhausted)
    {
      hide Replicas, Routable, FirstUntried, DistinctOf;
      ghost var all := Replicas(cell.ptr, key);
      picks := [];
      while true
        invariant all.Failure? ==> picks == []
        invariant all.Success? ==> RetriedPicks(all.value, picks) && |picks| <= |DistinctOf(all.value)|
        decreases if all.Success? then |DistinctOf(all.value)| - |picks| else 0
      {
        var r := RouteWithRetry(key, picks);
        if all.Success? {
          RetriesWalkTheReplicas(all.value, picks);
          NoneIffAllTried(all.value, picks);
          if r.Success? {
            FirstUntriedIs(all.value, picks, r.value);
            OneMoreRetry(all.value, picks, r.value);
          }
        }
        if r.Failure? {
          return picks, r.error;
        }
        picks := picks + [r.value];
      }
    }
  }

  // ---------------------------------------------------------------------------
  // Retrying walks the replicas
  // ---------------------------------------------------------------------------

  lemma {:induction false} FirstUntriedAppend(resources: seq<Squid>, x: Squid, tried: seq<Squid>)
    ensures var pick := FirstUntried(resources, tried);
            FirstUntried(resources + [x], tried) == if pick.Some? then pick else if x in tried then None else Some(x)
  {
    if resources == [] {
      assert [] + [x] == [x] && [x][1..] == [];
    } else {
      assert (resources + [x])[1..] == resources[1..] + [x];
      FirstUntriedAppend(resources[1..], x, tried);
    }
  }

  lemma {:induction false} NoneIffAllTried(resources: seq<Squid>, tried: seq<Squid>)
    ensures FirstUntried(resources, tried).None? <==> forall sq :: sq in resources ==> sq in tried
  {
    if resources != [] {
      NoneIffAllTried(resources[1..], tried);
      assert resources == [resources[0]] + resources[1..];
    }
  }

  /** After the first i distinct replicas comes the next one; after all of them, none. */
  lemma {:induction false} NextDistinct(resources: seq<Squid>, i: nat)
    requires i <= |DistinctOf(resources)|
    ensures var d := DistinctOf(resources); FirstUntried(resources, d[..i]) == if i < |d| then Some(d[i]) else None
  {
    var d := DistinctOf(resources);
    if i == |d| {
      assert d[..i] == d;
      DistinctOfIsDistinct(resources);
      NoneIffAllTried(resources, d);
    } else {
      var n := |resources| - 1;
      var before := DistinctOf(resources[..n]);
      assert resources == resources[..n] + [resources[n]];
      FirstUntriedAppend(resources[..n], resources[n], d[..i]);
      NextDistinct(resources[..n], i);
      assert d[..i] == before[..i];
    }
  }

  /** Each pick is the answer to a call that names all earlier picks as tried. */
  ghost predicate RetriedPicks(resources: seq<Squid>, picks: seq<Squid>)
  {
    forall i :: 0 <= i < |picks| ==> FirstUntried(resources, picks[..i]) == Some(picks[i])
  }

  /** Retrying with all earlier picks as tried walks the distinct replicas in list order: whatever
      has been picked is the beginning of that list, and exhaustion is reported exactly at its end. */
  lemma {:induction false} RetriesWalkTheReplicas(resources: seq<Squid>, picks: seq<Squid>)
    requires RetriedPicks(resources, picks)
    ensures picks <= DistinctOf(resources)
    ensures FirstUntried(resources, picks).None? <==> picks == DistinctOf(resources)
  {
    var d := DistinctOf(resources);
    if picks != [] {
      var n := |picks| - 1;
      forall i | 0 <= i < n
        ensures FirstUntried(resources, picks[..n][..i]) == Some(picks[..n][i])
      {
        assert picks[..n][..i] == picks[..i];
      }
      RetriesWalkTheReplicas(resources, picks[..n]);
      assert picks[..n] == d[..n];
      assert FirstUntried(resources, picks[..n]) == Some(picks[n]);
      NextDistinct(resources, n);
      assert picks == d[..n + 1];
    }
    NextDistinct(resources, |picks|);
    assert picks == d[..|picks|];
  }

  lemma {:induction false} FirstUntriedIs(resources: seq<Squid>, tried: seq<Squid>, x: Squid)
    requires exists j: nat :: j < |resources| && resources[j] == x && x !in tried
                              && forall k :: 0 <= k < j ==> resources[k] in tried
    ensures FirstUntried(resources, tried) == Some(x)
  {
    var j: nat :| j < |resources| && resources[j] == x
                  && x !in tried && forall k :: 0 <= k < j ==> resources[k] in tried;
    if j > 0 {
      assert resources[0] in tried && resources[1..][j - 1] == x;
      FirstUntriedIs(resources[1..], tried, x);
    }
  }

  lemma OneMoreRetry(resources: seq<Squid>, picks: seq<Squid>, x: Squid)
    requires RetriedPicks(resources, picks) && FirstUntried(resources, picks) == Some(x)
    ensures RetriedPicks(resources, picks + [x]) && |picks| < |DistinctOf(resources)|
  {
    forall i | 0 <= i < |picks + [x]|
      ensures FirstUntried(resources, (picks + [x])[..i]) == Some((picks + [x])[i])
    {
      assert (picks + [x])[..i] == picks[..i] && picks[..|picks|] == picks;
    }
    RetriesWalkTheReplicas(resources, picks);
  }

  // ---------------------------------------------------------------------------
  // Round robin is fair
  // ---------------------------------------------------------------------------

  /** How many of the `len` numbers from `lo` on leave remainder i. */
  ghost function Hits(lo: int, len: nat, n: nat, i: nat): nat
    requires n > 0
  {
    if len == 0 then 0 else Hits(lo, len - 1, n, i) + if (lo + len - 1) % n == i then 1 else 0
  }

  /** The distance from lo to the next number with remainder i. */
  ghost function Distance(lo: int, n: nat, i: nat): nat
    requires n > 0
  {
    (i - lo) % n
  }

  lemma ProductPositive(d: int, n: nat)
    requires d >= 1
    ensures d * n >= n
  {
    assert d * n == (d - 1) * n + n;
  }

  lemma SameQuotient(q: int, r: nat, q': int, r': nat, n: nat)
    requires r < n && r' < n && q * n + r == q' * n + r'
    ensures q == q' && r == r'
  {
    var d := q - q';
    assert d * n == r' - r;
    if d >= 1 {
      ProductPositive(d, n);
    } else if d <= -1 {
      ProductPositive(-d, n);
    }
  }

  lemma SameRemainder(x: int, r: nat, q: int, n: nat)
    requires n > 0 && r < n && x == q * n + r
    ensures x % n == r
  {
    SameQuotient(q, r, x / n, x % n, n);
  }

  lemma HitAtDistance(lo: int, d: nat, n: nat, i: nat)
    requires n > 0 && i < n && d < n
    ensures (lo + d) % n == i <==> Distance(lo, n, i) == d
  {
    if (lo + d) % n == i {
      var q := (lo + d) / n;
      assert i - lo == -q * n + d;
      SameRemainder(i - lo, d, -q, n);
    }
    if Distance(lo, n, i) == d {
      var q := (i - lo) / n;
      assert lo + d == -q * n + i;
      SameRemainder(lo + d, i, -q, n);
    }
  }

  lemma {:induction false} HitsBelowOneRound(lo: int, len: nat, n: nat, i: nat)
    requires n > 0 && i < n && len <= n
    ensures Hits(lo, len, n, i) == if Distance(lo, n, i) < len then 1 else 0
  {
    if len > 0 {
      HitsBelowOneRound(lo, len - 1, n, i);
      HitAtDistance(lo, len - 1, n, i);
    }
  }

  lemma {:induction false} HitsSplit(lo: int, a: nat, b: nat, n: nat, i: nat)
    requires n > 0
    ensures Hits(lo, a + b, n, i) == Hits(lo, a, n, i) + Hits(lo + a, b, n, i)
  {
    if b > 0 {
      HitsSplit(lo, a, b - 1, n, i);
    }
  }

  /** Full rounds hit every remainder once each; the numbers left over decide the rest. */
  lemma {:induction false} HitsOfRounds(lo: int, rounds: nat, rest: nat, n: nat, i: nat)
    requires n > 0 && i < n && rest < n
    ensures Hits(lo, rounds * n + rest, n, i) == rounds + if Distance(lo, n, i) < rest then 1 else 0
    decreases rounds
  {
    if rounds == 0 {
      HitsBelowOneRound(lo, rest, n, i);
    } else {
      var len := (rounds - 1) * n + rest;
      assert rounds * n + rest == n + len;
      HitsSplit(lo, n, len, n, i);
      HitsBelowOneRound(lo, n, n, i);
      HitsOfRounds(lo + n, rounds - 1, rest, n, i);
      assert i - lo == (i - (lo + n)) + n;
      SameRemainder(i - lo, Distance(lo + n, n, i), (i - (lo + n)) / n + 1, n);
    }
  }

  /** The counter before each of a run of calls that use it, and after the last. */
  ghost predicate CountsOn(counters: seq<uint64>)
  {
    counters != [] && forall i :: 0 <= i < |counters| - 1 ==> counters[i + 1] == NextCounter(counters[i])
  }

  /** How many of the first `calls` calls picked replica i of n. */
  ghost function Picked(counters: seq<uint64>, calls: nat, n: nat, i: nat): nat
    requires n > 0 && calls < |counters|
  {
    if calls == 0 then 0 else Picked(counters, calls - 1, n, i) + if counters[calls] % n == i then 1 else 0
  }

  /** Calls left before the counter wraps to zero. */
  function UntilWrap(counter: uint64): nat
  {
    COUNTER_SIZE - 1 - counter
  }

  lemma CounterMoves(counter: uint64)
    ensures NextCounter(counter) == if UntilWrap(counter) == 0 then 0 else counter + 1
  {
  }

  lemma OneMoreHit(lo: int, len: nat, n: nat, i: nat)
    requires n > 0
    ensures Hits(lo, len + 1, n, i) == Hits(lo, len, n, i) + if (lo + len) % n == i then 1 else 0
    ensures Hits(lo, 0, n, i) == 0
  {
  }

  /** Up to the wrap the counter runs on from its start, and after it from zero. */
  lemma {:induction false} PickedAreHits(counters: seq<uint64>, calls: nat, n: nat, i: nat)
    requires n > 0 && CountsOn(counters) && calls < |counters|
    requires calls <= UntilWrap(counters[0]) + COUNTER_SIZE
    ensures var a := UntilWrap(counters[0]);
            && (calls <= a ==>
                  && counters[calls] == counters[0] + calls
                  && Picked(counters, calls, n, i) == Hits(counters[0] as int + 1, calls, n, i))
            && (calls > a ==>
                  && counters[calls] == calls - a - 1
                  && Picked(counters, calls, n, i) == Hits(counters[0] as int + 1, a, n, i) + Hits(0, calls - a, n, i))
    decreases calls
  {
    hide Hits, NextCounter;
    var a := UntilWrap(counters[0]);
    if calls == 0 {
      OneMoreHit(counters[0] as int + 1, 0, n, i);
    } else {
      PickedAreHits(counters, calls - 1, n, i);
      assert counters[calls - 1 + 1] == NextCounter(counters[calls - 1]);
      CounterMoves(counters[calls - 1]);
      if calls <= a {
        OneMoreHit(counters[0] as int + 1, calls - 1, n, i);
      } else {
        OneMoreHit(0, calls - a - 1, n, i);
      }
    }
  }

  /** k rounds of n calls pick every replica k times. */
  ghost predicate Fair(counters: seq<uint64>, k: nat, n: nat)
    requires n > 0 && k * n < |counters|
  {
    forall i :: 0 <= i < n ==> Picked(counters, k * n, n, i) == k
  }

  /** The counter does not wrap within these calls, or it wraps once and between two rounds, or n
      divides the counter's size. */
  predicate WrapDoesNotShow(start: uint64, k: nat, n: nat)
    requires n > 0
  {
    || k * n <= UntilWrap(start)
    || (k * n <= UntilWrap(start) + COUNTER_SIZE && UntilWrap(start) % n == 0)
    || COUNTER_SIZE % n == 0
  }

  lemma NoWrapIsFair(counters: seq<uint64>, k: nat, n: nat)
    requires n > 1 && CountsOn(counters) && k * n < |counters| && k * n <= UntilWrap(counters[0])
    ensures Fair(counters, k, n)
  {
    forall i: nat | i < n
      ensures Picked(counters, k * n, n, i) == k
    {
      PickedAreHits(counters, k * n, n, i);
      HitsOfRounds(counters[0] as int + 1, k, 0, n, i);
    }
  }

  /** The distance from a start that lies some rounds and `left` before the wrap. */
  lemma DistanceBeforeWrap(lo: int, rounds: nat, left: nat, n: nat, i: nat)
    requires n > 0 && lo + (rounds * n + left) == COUNTER_SIZE
    ensures Distance(lo, n, i) == (i + left - COUNTER_SIZE) % n
  {
    var z := i + left - COUNTER_SIZE;
    assert i - lo == (z / n + rounds) * n + z % n;
    SameRemainder(i - lo, z % n, z / n + rounds, n);
  }

  lemma HitsAroundWrap(lo: int, a: nat, b: nat, k: nat, n: nat, i: nat)
    requires n > 0 && i < n && lo + a == COUNTER_SIZE && a + b == k * n && b > 0
    ensures var left := a % n;
            Hits(lo, a, n, i) + Hits(0, b, n, i) ==
              if left == 0 then k
              else k - 1 + (if (i + left - COUNTER_SIZE) % n < left then 1 else 0) + (if i < n - left then 1 else 0)
  {
    hide Hits;
    var rounds, left := a / n, a % n;
    assert a == rounds * n + left;
    HitsOfRounds(lo, rounds, left, n, i);
    DistanceBeforeWrap(lo, rounds, left, n, i);
    RestOfRounds(k, a, rounds, left, n);
    if left == 0 {
      HitsOfRounds(0, k - rounds, 0, n, i);
    } else {
      HitsOfRounds(0, k - rounds - 1, n - left, n, i);
      SameRemainder(i, i, 0, n);
    }
  }

  /** The two stretches around the wrap: full rounds of each, and what is left over of each. */
  lemma PickedAroundWrap(counters: seq<uint64>, k: nat, n: nat, i: nat)
    requires n > 1 && i < n && CountsOn(counters) && k * n < |counters|
    requires UntilWrap(counters[0]) < k * n <= UntilWrap(counters[0]) + COUNTER_SIZE
    ensures var left := UntilWrap(counters[0]) % n;
            Picked(counters, k * n, n, i) ==
              if left == 0 then k
              else k - 1 + (if (i + left - COUNTER_SIZE) % n < left then 1 else 0) + (if i < n - left then 1 else 0)
  {
    hide Hits, Picked;
    var a := UntilWrap(counters[0]);
    PickedAreHits(counters, k * n, n, i);
    HitsAroundWrap(counters[0] as int + 1, a, k * n - a, k, n, i);
  }

  lemma RestOfRounds(k: nat, a: nat, rounds: nat, left: nat, n: nat)
    requires left < n && a == rounds * n + left && a < k * n
    ensures k > rounds
    ensures left == 0 ==> k * n - a == (k - rounds) * n + 0
    ensures left > 0 ==> k * n - a == (k - rounds - 1) * n + (n - left)
  {
    var d := k - rounds;
    assert d * n == k * n - rounds * n;
    if d <= 0 {
      ProductNotNegative(-d, n);
    }
    assert (d - 1) * n == d * n - n;
  }

  lemma ProductNotNegative(d: nat, n: nat)
    ensures d * n >= 0
  {
  }

  /** Shifting by less than a round: the remainder goes down by the shift, or comes around. */
  lemma ShiftedRemainder(x: int, y: nat, m: nat, n: nat)
    requires n > 0 && m < n && y < n && x % n == m
    ensures (y - x) % n == if y >= m then y - m else y - m + n
  {
    var q := x / n;
    assert y - x == -q * n + (y - m);
    if y >= m {
      SameRemainder(y - x, y - m, -q, n);
    } else {
      assert (-q - 1) * n == -q * n - n;
      SameRemainder(y - x, y - m + n, -q - 1, n);
    }
  }

  lemma ShiftedByTwo(i: nat, left: nat, n: nat)
    requires i < n && left < n
    ensures var m := COUNTER_SIZE % n;
            var s := if i + left >= n then i + left - n else i + left;
            (i + left - COUNTER_SIZE) % n == if s >= m then s - m else s - m + n
  {
    var m := COUNTER_SIZE % n;
    if i + left >= n {
      ShiftedRemainder(COUNTER_SIZE, i + left - n, m, n);
      var z := i + left - n - COUNTER_SIZE;
      SameRemainder(z + n, z % n, z / n + 1, n);
    } else {
      ShiftedRemainder(COUNTER_SIZE, i + left, m, n);
    }
  }

  /** With at most one wrap, two or more replicas. */
  lemma OneWrap(counters: seq<uint64>, k: nat, n: nat)
    requires n > 1 && CountsOn(counters) && k * n < |counters|
    requires k * n <= UntilWrap(counters[0]) + COUNTER_SIZE
    ensures Fair(counters, k, n) <==> WrapDoesNotShow(counters[0], k, n)
  {
    var left, m := UntilWrap(counters[0]) % n, COUNTER_SIZE % n;
    if k * n <= UntilWrap(counters[0]) {
      NoWrapIsFair(counters, k, n);
    } else if left == 0 || m == 0 {
      forall i: nat | i < n
        ensures Picked(counters, k * n, n, i) == k
      {
        PickedAroundWrap(counters, k, n, i);
        ShiftedByTwo(i, left, n);
      }
    } else {
      var i: nat := if m <= left then 0 else n - 1;
      PickedAroundWrap(counters, k, n, i);
      ShiftedByTwo(i, left, n);
      assert Picked(counters, k * n, n, i) != k;
    }
  }

  lemma SuccessorRemainder(x: int, y: int, n: nat)
    requires n > 0 && x % n == y % n
    ensures (x + 1) % n == (y + 1) % n
  {
    var d := x / n - y / n;
    assert d * n == (x / n) * n - (y / n) * n;
    var q := (y + 1) / n;
    assert (d + q) * n == d * n + q * n;
    SameRemainder(x + 1, (y + 1) % n, d + q, n);
  }

  /** If n divides the counter's size, the picks go on as if the counter had no end. */
  lemma {:induction false} PickedWithoutEnd(counters: seq<uint64>, calls: nat, n: nat, i: nat)
    requires n > 0 && COUNTER_SIZE % n == 0 && CountsOn(counters) && calls < |counters|
    ensures counters[calls] % n == (counters[0] + calls) % n
    ensures Picked(counters, calls, n, i) == Hits(counters[0] as int + 1, calls, n, i)
    decreases calls
  {
    hide Hits, NextCounter;
    if calls == 0 {
      OneMoreHit(counters[0] as int + 1, 0, n, i);
    } else {
      PickedWithoutEnd(counters, calls - 1, n, i);
      assert counters[calls - 1 + 1] == NextCounter(counters[calls - 1]);
      CounterMoves(counters[calls - 1]);
      SuccessorRemainder(counters[calls - 1], counters[0] + (calls - 1), n);
      OneMoreHit(counters[0] as int + 1, calls - 1, n, i);
    }
  }

  lemma {:induction false} PickedSplit(counters: seq<uint64>, x: nat, y: nat, n: nat, i: nat)
    requires n > 0 && CountsOn(counters) && x + y < |counters|
    ensures CountsOn(counters[x..])
    ensures Picked(counters, x + y, n, i) == Picked(counters, x, n, i) + Picked(counters[x..], y, n, i)
    decreases y
  {
    if y > 0 {
      PickedSplit(counters, x, y - 1, n, i);
    } else {
      forall j | 0 <= j < |counters[x..]| - 1
        ensures counters[x..][j + 1] == NextCounter(counters[x..][j])
      {
        assert counters[x + j + 1] == NextCounter(counters[x + j]);
      }
    }
  }

  lemma HitsFromZero(len: nat, n: nat, i: nat)
    requires n > 0 && i < n
    ensures Hits(0, len, n, i) == len / n + if i < len % n then 1 else 0
  {
    hide Hits;
    var rounds, rest := len / n, len % n;
    assert len == rounds * n + rest;
    HitsOfRounds(0, rounds, rest, n, i);
    SameRemainder(i, i, 0, n);
  }

  /** From a wrap on, the first replica is picked at least as often as the last, and more often once
      the counter has gone all the way around. */
  lemma {:induction false} FirstBeforeLast(counters: seq<uint64>, calls: nat, n: nat)
    requires n > 1 && COUNTER_SIZE % n > 0 && CountsOn(counters) && calls < |counters|
    requires UntilWrap(counters[0]) == 0
    ensures Picked(counters, calls, n, 0) >= Picked(counters, calls, n, n - 1) + if calls >= COUNTER_SIZE then 1 else 0
    decreases calls
  {
    hide Hits, Picked;
    var first := if calls <= COUNTER_SIZE then calls else COUNTER_SIZE;
    forall i: nat | i < n
      ensures Picked(counters, first, n, i) == Hits(0, first, n, i)
      ensures first > 0 ==> counters[first] == first - 1
    {
      PickedAreHits(counters, first, n, i);
      OneMoreHit(counters[0] as int + 1, 0, n, i);
      OneMoreHit(0, 0, n, i);
    }
    HitsFromZero(first, n, 0);
    HitsFromZero(first, n, n - 1);
    if calls > COUNTER_SIZE {
      PickedSplit(counters, first, calls - first, n, 0);
      PickedSplit(counters, first, calls - first, n, n - 1);
      FirstBeforeLast(counters[first..], calls - first, n);
    }
  }

  /** Before the first wrap the last replica is not picked more often than the first. */
  lemma LastNotAhead(counters: seq<uint64>, n: nat)
    requires n > 1 && COUNTER_SIZE % n > 0 && CountsOn(counters) && UntilWrap(counters[0]) < |counters|
    ensures var a := UntilWrap(counters[0]);
            && Picked(counters, a, n, 0) >= Picked(counters, a, n, n - 1)
            && UntilWrap(counters[a]) == 0
  {
    hide Hits, Picked;
    var a := UntilWrap(counters[0]);
    var rounds, left := a / n, a % n;
    forall i: nat | i < n
      ensures Picked(counters, a, n, i) == rounds + if (i + left - COUNTER_SIZE) % n < left then 1 else 0
    {
      PickedAreHits(counters, a, n, i);
      HitsOfRounds(counters[0] as int + 1, rounds, left, n, i);
      DistanceBeforeWrap(counters[0] as int + 1, rounds, left, n, i);
    }
    PickedAreHits(counters, a, n, 0);
    ShiftedByTwo(0, left, n);
    ShiftedByTwo(n - 1, left, n);
  }

  lemma ManyWrapsAreUnfair(counters: seq<uint64>, k: nat, n: nat)
    requires n > 1 && COUNTER_SIZE % n > 0 && CountsOn(counters) && k * n < |counters|
    requires k * n > UntilWrap(counters[0]) + COUNTER_SIZE
    ensures !Fair(counters, k, n)
  {
    hide Picked;
    var a := UntilWrap(counters[0]);
    LastNotAhead(counters, n);
    PickedSplit(counters, a, k * n - a, n, 0);
    PickedSplit(counters, a, k * n - a, n, n - 1);
    FirstBeforeLast(counters[a..], k * n - a, n);
    assert Picked(counters, k * n, n, 0) != Picked(counters, k * n, n, n - 1);
  }

  /** Over k rounds of calls on n replicas, however many, every replica is picked exactly k times if
      and only if the counter does not wrap within them, wraps once and between two rounds, or n
      divides the counter's size. */
  lemma RoundRobinIsFair(counters: seq<uint64>, k: nat, n: nat)
    requires n > 1 && CountsOn(counters) && k * n < |counters|
    ensures Fair(counters, k, n) <==> WrapDoesNotShow(counters[0], k, n)
  {
    if k * n <= UntilWrap(counters[0]) + COUNTER_SIZE {
      OneWrap(counters, k, n);
    } else if COUNTER_SIZE % n > 0 {
      ManyWrapsAreUnfair(counters, k, n);
    } else {
      forall i: nat | i < n
        ensures Picked(counters, k * n, n, i) == k
      {
        PickedWithoutEnd(counters, k * n, n, i);
        HitsOfRounds(counters[0] as int + 1, k, 0, n, i);
      }
    }
  }

  lemma OneMorePick(counters: seq<uint64>, calls: nat, n: nat, i: nat)
    requires n > 0 && calls + 1 < |counters|
    ensures Picked(counters, calls + 1, n, i) ==
              Picked(counters, calls, n, i) + if counters[calls + 1] % n == i then 1 else 0
    ensures Picked(counters, 0, n, i) == 0
  {
  }

  /** One round over three replicas around the wrap: the first two calls pick replica 0. */
  lemma WrapCanShow()
    ensures var counters := [COUNTER_SIZE - 2, COUNTER_SIZE - 1, 0, 1];
            CountsOn(counters) && !Fair(counters, 1, 3) && Picked(counters, 3, 3, 0) == 2
              && Picked(counters, 3, 3, 2) == 0
  {
    var counters := [COUNTER_SIZE - 2, COUNTER_SIZE - 1, 0, 1];
    RoundRobinIsFair(counters, 1, 3);
    hide Picked, Fair;
    forall i: nat | i < 3
      ensures Picked(counters, 3, 3, i) == if i == 0 then 2 else if i == 1 then 1 else 0
    {
      OneMorePick(counters, 0, 3, i);
      OneMorePick(counters, 1, 3, i);
      OneMorePick(counters, 2, 3, i);
    }
  }

  // ---------------------------------------------------------------------------
  // The answers are fair
  // ---------------------------------------------------------------------------

  /** Each answer is the replica that the counter picks after its call. */
  ghost predicate AnswersFollow(replicas: seq<Squid>, counters: seq<uint64>, answers: seq<Result<Squid, RouteError>>)
    requires replicas != []
  {
    && |counters| == |answers| + 1
    && forall i :: 0 <= i < |answers| ==> answers[i] == Success(replicas[counters[i + 1] % |replicas|])
  }

  lemma OneCounter(counter: uint64)
    ensures CountsOn([counter])
    ensures forall replicas: seq<Squid> :: replicas != [] ==> AnswersFollow(replicas, [counter], [])
  {
  }

  lemma OneMoreAnswer(replicas: seq<Squid>, counters: seq<uint64>, answers: seq<Result<Squid, RouteError>>,
                      next: uint64)
    requires replicas != [] && CountsOn(counters) && AnswersFollow(replicas, counters, answers)
    requires next == NextCounter(counters[|counters| - 1])
    ensures CountsOn(counters + [next])
    ensures AnswersFollow(replicas, counters + [next], answers + [Success(replicas[next % |replicas|])])
  {
  }

  /** A replica is answered as often as the counter picks its index. */
  lemma {:induction false} AnswersArePicks(replicas: seq<Squid>, counters: seq<uint64>,
                                           answers: seq<Result<Squid, RouteError>>, i: nat)
    requires i < |replicas| && NoDuplicates(replicas) && AnswersFollow(replicas, counters, answers)
    ensures multiset(answers)[Success(replicas[i])] == Picked(counters, |answers|, |replicas|, i)
    decreases |answers|
  {
    if answers != [] {
      var n := |answers| - 1;
      AnswersArePicks(replicas, counters[..n + 1], answers[..n], i);
      PickedIgnoresLater(counters, n + 1, n, |replicas|, i);
      assert answers == answers[..n] + [answers[n]];
    }
  }

  lemma {:induction false} PickedIgnoresLater(counters: seq<uint64>, upTo: nat, calls: nat, n: nat, i: nat)
    requires n > 0 && calls < upTo <= |counters|
    ensures Picked(counters[..upTo], calls, n, i) == Picked(counters, calls, n, i)
    decreases calls
  {
    if calls > 0 {
      PickedIgnoresLater(counters, upTo, calls - 1, n, i);
    }
  }

  /** Of k rounds of calls every one of several different replicas answers exactly k, if and only if
      the counter's wrap does not show. */
  lemma FairAnswers(replicas: seq<Squid>, counters: seq<uint64>, answers: seq<Result<Squid, RouteError>>, k: nat)
    requires |replicas| > 1 && NoDuplicates(replicas) && k * |replicas| == |answers|
    requires CountsOn(counters) && AnswersFollow(replicas, counters, answers)
    ensures (forall sq :: sq in replicas ==> multiset(answers)[Success(sq)] == k)
            <==> WrapDoesNotShow(counters[0], k, |replicas|)
  {
    hide Picked, CountsOn, WrapDoesNotShow, NoDuplicates;
    RoundRobinIsFair(counters, k, |replicas|);
    forall i: nat | i < |replicas|
      ensures multiset(answers)[Success(replicas[i])] == Picked(counters, k * |replicas|, |replicas|, i)
    {
      AnswersArePicks(replicas, counters, answers, i);
    }
  }
}
