# godicer client: a verified model

godicer's client learns from an assigner which server incarnations own which range of routing
keys, and routes each key accordingly. This project models the four cores that make routing
correct and proves what they promise:

- **Keys, slices and slice maps** (`SliceKeys`, `Slices`, `Partitions`, `SliceMaps`,
  `Intersections`, `Coalescing`, `Gaps`). The prefix-accelerated key comparison is lexicographic
  order. The slice-map algorithms are methods with the program's loops; each is proved against what
  it means pointwise ("what does key k get?"), and each ends in the panicking constructor, so that
  it does not panic is part of the result.
- **Assignments and their wire format** (`Generations`, `Squids`, `UuidWords`, `Assignments`,
  `Wire`, `Decoding`, `Encoding`, `Meanings`, `RoundTrips`). Decoding re-validates everything, and a
  message decodes to an assignment exactly if it says that assignment field by field; encoding pools
  server incarnations by index and walks a map in an arbitrary order; decoding undoes encoding.
- **The sync state machine** (`SyncMachine`, `SyncSteps`, `SyncRuns`, `SyncPromises`). A class with
  the program's fields and methods refines a step function; the theorems hold over every run,
  whatever events come and however late.
- **The concurrent driver, the cell and the router** (`AssignmentCells`, `Driver`, `Dispatch`,
  `Progress`, `WaitFreedom`, `LagRecovery`, `Router`, `Readiness`). Goroutines step the machine under
  its mutex but publish outside it; every load, swap, notification and closing of the ready channel
  is a move of its own, and moves interleave freely. What readers can rely on holds over every
  interleaving. Each publication is over after a fixed number of moves of its own goroutine, whatever
  the others and the machine do; and while the machine makes no step, the goroutines come to rest
  with the cell up to date.

## How to read it

A key is its byte string; `SliceKeys.CompareIsLexicographic` is what allows that. `Rank` embeds keys
into the unit interval in lexicographic order, so that facts about bounds become linear arithmetic;
nothing assumes that keys are dense (`SliceKeys.ZeroByteIsSuccessor`). Entries of a slice map are of
any type with a slice getter `sl`.

`Outcome` is the result of code that can return a value, return an error, or panic. Fixed-width
integers are ranges of `int`, and every conversion that can wrap is written out in `Words`. Times are
integers in nanoseconds; what the random generator returns in a step is an argument of the step.

`Record` is one step of the sync machine with its input, and a run is a sequence of records that
starts in the initial state. `UsesOf` and `SendsOf` pick the published assignments and the requests
out of a step's actions. `Succeeded` means that the outstanding read was answered, `Retried` that it
failed or ran into its deadline, `Live` that the machine is not cancelled; each is defined by the fields
of the record, not by the machine's step function.

In the driver a published assignment is a pointer, numbered in the order in which the machine created
it; pointers are compared by identity, as the atomic cell compares them.

What the program demands of its inputs stands as a precondition: slices are not empty
(`Slices.NewSlice` refuses others); a response is one whose decoding does not panic, since nothing
recovers from that (`SyncMachine.Survivable`; incarnations below `5 << 48` and indices that are not
negative suffice, and `Decoding.DecodePanicsIff` says exactly when a message panics); random numbers
lie in [0,1). Bounds are stated with the longer of the two configured delays, so none
assumes that the minimum delay is at most the maximum.

Where the code and its documentation differ, the model follows the code:

- Two different keys of at most eight bytes can share a prefix ("a" and "a\0"); the flowchart in
  `pkg/friend/README.md` calls such keys equal, the code compares their lengths
  (`pkg/friend/slice.go:76`).
- An annotation that runs to infinity switches the order check off for the next one
  (`pkg/common/assignment.go:136`). `Assignments.UnboundedAnnotationSlipsThrough` is a list that
  passes although it breaks the documented rules, and `Assignments.AcceptedIffProper` says which
  lists these are.
- The client's documentation says a server that reports an older generation is fed the whole
  assignment. The code feeds it only if the redirect in force names its address: every answer comes
  with the address that was dialled (`pkg/client/slice_lookup.go:220`), and that address is compared
  with the redirect's (`pkg/client/state_machine.go:343-345`), which is absent or blank when a request
  goes to the default server for want of a redirect. `LagRecovery.ServerIsFedIffRedirectNamesIt` is
  the exact condition over every execution; it covers a redirect that names the default address,
  which does get the default server fed. `LagRecovery.LaggingDefaultServer` gives the answer after
  which a lagging default server goes unfed, and the one after which it is fed.
- Round robin need not be even across a wrap of its 64-bit counter. `Router.RoundRobinIsFair` says
  exactly when it is, and `Router.WrapCanShow` is a stretch on which it is not;
  `Router.ResourceRouter.RouteRepeatedly` says the same of the answers that callers get.
- Indices on the wire have 32 bits and are cut without a check (`pkg/common/proto_converter.go:114`),
  so an assignment that mentions more than 2^31 squids does not survive the wire
  (`RoundTrips.AssignmentRoundTrip`). `RoundTrips.TooManyReplicas` is one that passes every
  constructor; one that came off the wire never is (`RoundTrips.DecodedGoesBack`).

## Model

| member | source | states |
|---|---|---|
| SliceKeys.NewSliceKey | pkg/friend/slice.go:20-38 | the loop builds the big-endian word of the first eight bytes, zero-padded, and keeps the bytes |
| SliceKeys.CompareIsLexicographic | pkg/friend/slice.go:69-98 | on constructed keys of all lengths and contents the accelerated comparison equals lexicographic comparison of the full byte strings, and is 0 exactly when `Equal` holds |
| SliceKeys.CompareIsTotalOrder | pkg/friend/slice.go:60-88 | reflexive, antisymmetric, total, transitive |
| SliceKeys.CompareFindsFirstDifference | pkg/friend/slice.go:87 | the byte comparison in non-recursive terms: at the first difference one key has ended or has the smaller byte |
| SliceKeys.ZeroByteIsSuccessor | pkg/friend/slice.go:60-88 | the order is not dense: nothing lies between a key and that key followed by a zero byte |
| Slices.AcceptedIffInhabited | pkg/friend/slice.go:167-175 | a slice is accepted exactly when some key lies in it |
| Slices.ContainsSliceIsSubset | pkg/friend/slice.go:198-203 | containment of slices is containment of their keys, both ways |
| Slices.IntersectionIsPointwise | pkg/friend/slice.go:207-224 | an intersection is reported exactly when a key is shared; it is well formed (so the inner constructor does not panic) and holds exactly the shared keys |
| Slices.SameKeysSameSlice | pkg/friend/slice.go:227-229 | well-formed slices with the same keys are equal |
| SliceMaps.ValidateCompleteSlices | pkg/friend/slicemap.go:101-136 | accepts exactly the complete lists; otherwise reports the first defect from the left, by kind and position |
| SliceMaps.AcceptedIffExactlyOneHome | pkg/friend/slicemap.go:95-136 | a list of well-formed slices is complete exactly when its low bounds ascend and every key lies in exactly one entry |
| SliceMaps.NewSliceMap | pkg/friend/slicemap.go:31-38 | succeeds exactly on complete lists and keeps the entries; otherwise reports their first defect |
| SliceMaps.MustNewSliceMap | pkg/friend/slicemap.go:41-47 | panics exactly on the others |
| SliceMaps.FindIndexInOrderedDisjointEntries | pkg/friend/slicemap.go:73-93 | binary search agrees with a scan from the left on ordered disjoint lists, gaps included; on any list an index returned holds the key |
| SliceMaps.LookUp | pkg/friend/slicemap.go:61-69 | on a partition the panic is unreachable and the result is the key's entry |
| SliceMaps.EntryForIsUnique | pkg/friend/slicemap.go:61-69 | an entry holds a key exactly if it is the one looked up |
| Intersections.IntersectSlices | pkg/friend/slicemap.go:152-192 | on partitions it ends without panic in a partition where every key meets exactly its two lookups; its bounds are the union of the inputs' bounds; its size is N + M less the shared bounds, at most N + M - 1 |
| Coalescing.CoalesceSlices | pkg/friend/slicemap.go:201-231 | the loop never panics and yields the coalesced list that the next four rows speak about |
| Coalescing.CoalescingIsSound | pkg/friend/slicemap.go:194-231 | coalescing keeps a partition and every key's value up to `equalVal`, leaves no equal neighbours, and has one entry more than the input has unequal neighbouring pairs |
| Coalescing.CoalescingKeepsFirst | pkg/friend/slicemap.go:214-223 | whatever `withSlice` keeps, a merged entry has it from the first of the entries it replaces, the one that starts where it does |
| Coalescing.CoalescingIsIdempotent | pkg/friend/slicemap.go:201-231 | coalescing twice changes nothing more |
| Coalescing.CoalescingIsCanonical | pkg/friend/slicemap.go:201-231 | maps that agree at every key coalesce to the same slices |
| Gaps.CreateFromOrderedDisjointEntries | pkg/friend/slicemap.go:248-287 | succeeds exactly on ordered disjoint lists and panics on all others; the entries come back in order, no two gaps touch, and a key lands in a gap exactly when a search of the partial list misses |
| Gaps.GapFillingIsSound | pkg/friend/slicemap.go:245-287 | the list the loop builds is a partition exactly when the input is ordered and disjoint |
| Generations.ComparesAsOneNumber | pkg/common/generation.go:59-98 | generations compare as 128-bit numbers with the incarnation in the high half |
| Generations.CompareIsTransitive | pkg/common/generation.go:87-113 | the comparison is transitive and antisymmetric, and the empty generation is least |
| Assignments.CheckAnnotations | pkg/common/assignment.go:124-154 | the loop with the moving upper bound accepts exactly the lists that pass, and an error names a rule that the list breaks |
| Assignments.AcceptedIffProper | pkg/common/assignment.go:119-154 | a list keeps the documented rules exactly if it passes and only its last annotation runs to infinity |
| Assignments.UnboundedAnnotationSlipsThrough | pkg/common/assignment.go:134-151 | a list that passes although its first annotation leaves the slice and covers the second |
| Assignments.NewSliceAssignment | pkg/common/assignment.go:101-177 | whatever order the map is walked in, accepts exactly: non-empty generation, annotations only of own resources and all passing, a finite non-negative load; an error names a rule that is broken |
| Assignments.CheckAssignmentGeneration | pkg/common/assignment.go:88-98 | no error exactly when the slice is of the assignment's incarnation and not newer |
| Assignments.NewAssignment | pkg/common/assignment.go:203-229 | accepts exactly a non-empty generation with a slice map whose entries are all of its incarnation and not newer, and an error is true of the input |
| Assignments.Resources | pkg/common/assignment.go:261-273 | the resources of all slices one after the other, without repetitions, in order of first mention |
| Assignments.ResourcesAreThoseOfAllKeys | pkg/common/assignment.go:261-284 | the list is duplicate-free and holds exactly the resources that some key looks up to |
| Assignments.DistinctOfIsDistinct | pkg/common/assignment.go:260-273 | what dropping repetitions leaves: the same elements, each once, ordered by first occurrence |
| Assignments.IsAssignedKey | pkg/common/assignment.go:276-284 | true exactly when the looked-up entry names the resource; cannot panic |
| Assignments.GetAssignedSlices | pkg/common/assignment.go:301-312 | the slices of the entries that name the resource, in order, each once |
| Assignments.AssignedSlicesHoldAssignedKeys | pkg/common/assignment.go:275-312 | they are ordered and disjoint, and hold exactly the keys assigned to the resource |
| UuidWords.UuidToInt64s | pkg/common/proto_converter.go:80-87 | shifting bytes into signed words, with the wrap of a left shift |
| UuidWords.Int64sToUuid | pkg/common/proto_converter.go:89-98 | masking and arithmetic right shift, negative words included |
| UuidWords.WordsAreBigEndian | pkg/common/proto_converter.go:80-87 | as unsigned numbers the two words are what the first and the last eight bytes spell out, most significant byte first |
| UuidWords.WordsRoundTripUuid | pkg/common/proto_converter.go:80-98 | bytes to words to bytes is the identity for all UUIDs |
| UuidWords.UuidRoundTripWords | pkg/common/proto_converter.go:80-98 | words to bytes to words is the identity for all pairs of signed words |
| Encoding.GenerationRoundTrip | pkg/common/proto_converter.go:13-27 | every generation survives the wire, numbers above 2^63 included |
| Encoding.GenerationComesBack | pkg/common/proto_converter.go:13-27 | a generation message that decodes is the one that encoding writes |
| Encoding.SliceRoundTrip | pkg/common/proto_converter.go:30-54 | a slice survives the wire exactly if it is well formed; others are rejected; an infinite bound is written as the flag and no key |
| Encoding.SliceComesBack | pkg/common/proto_converter.go:30-54 | a slice message that decodes is what encoding writes, unless it spells an infinite bound as encoding does not |
| Encoding.SquidRoundTrip | pkg/common/proto_converter.go:57-78 | an incarnation survives the wire exactly if its UUID is spelled canonically; any other spelling comes back canonical, and one that cannot be parsed as the zero UUID |
| Encoding.SquidComesBack | pkg/common/proto_converter.go:57-98 | every squid message decodes, and encoding what it decodes to writes that very message |
| Encoding.ResourcePool.GetResourceIndex | pkg/common/proto_converter.go:106-118 | the index is the squid's position in the pool cut to 32 bits; the pool grows only by a squid that is new to it |
| Encoding.EncodeAnnotations | pkg/common/proto_converter.go:128-147 | in whatever order the map is walked, the messages list each resource's annotations in order and resolve over the pool |
| Encoding.AssignmentToProto | pkg/common/proto_converter.go:101-165 | the message carries the assignment over a duplicate-free pool of exactly the squids mentioned, state-transfer sources included; every index is its squid's position cut to 32 bits, and every transfer has number 1 |
| Decoding.SliceAssignmentFromProto | pkg/common/proto_converter.go:184-230 | the loops over indices and annotations compute the decoding of one slice message, or its error or panic |
| Decoding.AssignmentFromProto | pkg/common/proto_converter.go:168-239 | the decoder computes the specified decoding, with the program's order of errors and panics |
| Decoding.GenerationPanicsIffOutOfRange | pkg/common/proto_converter.go:21-27 | decoding a generation panics exactly at the guardrail or for a negative incarnation; an absent one decodes to the empty one |
| Decoding.InRangeDoesNotPanic | pkg/common/proto_converter.go:168-239 | a message in range is decoded or rejected, however malformed |
| Decoding.DecodedIsInRange | pkg/common/proto_converter.go:168-239 | only messages in range are decoded |
| Decoding.DecodePanicsIff | pkg/common/proto_converter.go:168-239 | decoding panics exactly if the message's own generation is out of range, or its squids are all there and one of its slices panics before any is rejected |
| Decoding.SlicePanicsIff | pkg/common/proto_converter.go:184-220 | a slice message panics exactly if its range is good and its generation is out of range, or an index or a state-transfer source is negative before anything is rejected |
| Decoding.OutOfRangeCanBeRejected | pkg/common/proto_converter.go:184-187 | a message with a negative index that is rejected before the index is used |
| Decoding.DecodedIsBuilt | pkg/common/proto_converter.go:168-239 | whatever arrives, what is decoded passes every constructor, is in eventual mode and names canonical UUIDs |
| Meanings.DecodesToWhatItSays | pkg/common/proto_converter.go:168-239 | for every message and assignment, decoding yields the assignment if and only if the message says it: squids and their UUID bytes, generations and bounds field by field, every index names its squid, each resource's annotations in the order in which they stand, load and frozen flag unchanged, eventual mode, and all constructors accept; unused squids, a transfer's number and the two spellings of an infinite bound do not matter |
| Meanings.AnnotationsDecode | pkg/common/proto_converter.go:200-221 | annotation messages decode to a map if and only if it gives each named resource the annotations that name it, in order, and no other resource any |
| Meanings.SquidDecodes | pkg/common/proto_converter.go:72-78 | a squid message decodes to a squid if and only if address, time and both words of the UUID agree and the UUID is spelled canonically |
| Meanings.SliceDecodes | pkg/common/proto_converter.go:42-54 | a slice message decodes to a slice if and only if the slice is not empty, the low bounds agree, and the high bound is infinite exactly if the flag is set or the key is missing, and else the key |
| RoundTrips.AnnotationMapRoundTrip | pkg/common/proto_converter.go:128-220 | annotations written in any map order come back as the same map, as long as 32-bit indices can count the pool |
| RoundTrips.AssignmentRoundTrip | pkg/common/proto_converter.go:101-239 | for a constructed assignment and any message that encodes it, decoding gives it back exactly if its UUIDs are canonical, its mode is eventual and it mentions at most 2^31 squids |
| RoundTrips.ModeIsNotCarried | pkg/common/proto_converter.go:238 | an assignment of any mode comes back in eventual mode and otherwise unchanged, exactly if its UUIDs are canonical and its indices fit |
| RoundTrips.DecodedFits | pkg/common/proto_converter.go:191-216 | what was decoded mentions no more squids than 32-bit indices can name |
| RoundTrips.DecodedGoesBack | pkg/common/proto_converter.go:101-239 | whatever message encodes an assignment that came off the wire decodes to that assignment |
| RoundTrips.TooManyReplicas | pkg/common/proto_converter.go:110-118 | an assignment that passes every constructor, with canonical UUIDs and in eventual mode, no encoding of which decodes to it |
| SyncMachine.AssignmentSyncStateMachine.constructor | pkg/client/state_machine.go:121-143 | non-positive settings are replaced by defaults; the machine starts in the initial state |
| SyncMachine.Config.Normalized | pkg/client/state_machine.go:122-130 | a positive setting is kept; any other becomes 30 seconds, 50 milliseconds or 2 seconds |
| SyncMachine.AssignmentSyncStateMachine.OnEvent | pkg/client/state_machine.go:161-179 | new state and actions are those of one step for the event |
| SyncMachine.AssignmentSyncStateMachine.OnAdvance | pkg/client/state_machine.go:182-189 | new state and actions are those of one step without event |
| SyncMachine.AssignmentSyncStateMachine.OnReadSuccess | pkg/client/state_machine.go:191-254 | the state after a response, latest or stale, newer or not, and the publication it causes; what they mean is `SyncPromises.NewerAssignmentsAreAdopted` and `SyncPromises.LastRedirectIsFollowed` |
| SyncMachine.AssignmentSyncStateMachine.OnReadFailure | pkg/client/state_machine.go:256-262 | only a failure of the outstanding read changes anything |
| SyncMachine.AssignmentSyncStateMachine.IncorporateSyncState | pkg/client/state_machine.go:264-288 | an assignment is taken over and published exactly if it decodes and is strictly newer; `SyncPromises.NewerAssignmentsAreAdopted` says so of every step |
| SyncMachine.AssignmentSyncStateMachine.OnAdvanceInternal | pkg/client/state_machine.go:317-371 | deadline, retry and send, in this order; `SyncPromises.ReadsEndAtTheirDeadline` says when a read is given up |
| SyncMachine.JitterBounds | pkg/client/state_machine.go:296-302 | the truncated jittered delay lies between half and one and a half times the wait, up to one nanosecond of rounding |
| SyncMachine.JitterSpreads | pkg/client/state_machine.go:296-302 | every delay from half the wait up to, but not including, one and a half waits comes of some random number |
| SyncSteps.StepSplits | pkg/client/state_machine.go:161-371 | every step is of the stated kind: its effect on the outstanding read, backoff, wait and schedule is fixed by these, the event's kind and operation, the clock, the generator and the timeout in force; its effect on assignment, redirect, peer knowledge and timeout by these, the response and whether a retry happened; a request says what the new state says |
| SyncRuns.OperationsAreConserved | pkg/client/state_machine.go:228-262 | in every run operations are sent as 1, 2, 3 and so on and retired as 1, 2, 3 and so on; those sent and not retired are the outstanding one, which is the last |
| SyncRuns.RunsGoOn | pkg/client/state_machine.go:161-189 | no state refuses an input: every run goes on with every input |
| SyncRuns.FirstStepSends | pkg/client/state_machine.go:330-371 | whatever the first step of a live machine is, it sends request 1 |
| SyncRuns.OutstandingOrBackoff | pkg/client/state_machine.go:290-339 | after every step of a live machine exactly one of "read outstanding" and "in backoff" holds |
| SyncRuns.UsesIncrease | pkg/client/state_machine.go:281-286 | in every run the published generations strictly increase, all published assignments were decoded through all constructors, and the machine holds the last one |
| SyncRuns.HistoryIsInState | pkg/client/state_machine.go:206-250 | redirect, timeout and knowledge of the peer are functions of the run's history: the last response's redirect unless a retry came after it; the last positive timeout suggested by news (an answer to the outstanding read or a response with a newer assignment), else the configured one; the last news |
| SyncRuns.RequestsSpeakForHistory | pkg/client/state_machine.go:341-369 | every request carries the redirect and the timeout in force and the generation last published (empty if none), and the whole assignment exactly if the peer last heard from is behind and the redirect in force names that peer's address |
| SyncRuns.BackoffClosedForm | pkg/client/state_machine.go:304-315 | the wait is the minimum doubled once per retry since the last answer, capped at the maximum; the scheduled time is that of the last answer or retry |
| SyncRuns.RetryIsScheduled | pkg/client/state_machine.go:290-310 | a retry schedules the next read 0.5 to 1.5 times that wait ahead |
| SyncRuns.NothingIsSentEarly | pkg/client/state_machine.go:330-331 | whatever arrives, nothing is sent before the scheduled time |
| SyncRuns.BackoffIsHonoured | pkg/client/state_machine.go:228-339 | the first request after a retry comes at least half the wait later, late answers in between included |
| SyncRuns.WaitStaysInRange | pkg/client/state_machine.go:304-315 | the wait is positive and never exceeds the longer configured delay |
| SyncRuns.StaleResponsesDoNotDisturb | pkg/client/state_machine.go:228-239 | a response to another operation leaves schedule, wait, backoff, outstanding read and deadline as the mere passing of time does |
| SyncRuns.CancelledIsSilent | pkg/client/state_machine.go:161-189 | after cancellation there is no action and no change, for the rest of the run |
| SyncRuns.SilenceIsBounded | pkg/client/state_machine.go:290-340 | with a steady clock, silence after a request lasts less than its timeout plus 1.5 longest waits plus one step interval |
| SyncRuns.ConsecutiveRequestsAreClose | pkg/client/state_machine.go:160-340 | consecutive requests are at most the first one's timeout plus 1.5 longest waits plus two step intervals apart, whatever arrives in between |
| SyncPromises.NewerAssignmentsAreAdopted | pkg/client/state_machine.go:264-288 | in every step an assignment is published exactly if the processed response carries a message that decodes to it and the machine held none or an older one; it is then the one held; otherwise nothing is published and the one held stays |
| SyncPromises.NothingNewerIsMissed | pkg/client/state_machine.go:264-288 | after every run, if any processed response, latest or stale, decoded to an assignment, one has been published and the last published is not older |
| SyncPromises.UsesComeBeforeSends | pkg/client/state_machine.go:161-179 | the actions of a step are at most one publication followed by at most one request |
| SyncPromises.ReadIsWaitedFor | pkg/client/state_machine.go:317-328 | before its deadline a read is neither given up nor delayed nor doubled by whatever is not its answer, its failure or a cancellation, and nothing is sent |
| SyncPromises.ReadIsGivenUp | pkg/client/state_machine.go:318-328 | from its deadline on, any such input makes a live machine give the read up, drop the redirect, double the wait and schedule the next read |
| SyncPromises.DeadlineIsKept | pkg/client/state_machine.go:330-369 | in every run, as long as a read is outstanding its deadline is the time of its request plus the timeout that the request carried |
| SyncPromises.ReadsEndAtTheirDeadline | pkg/client/state_machine.go:317-369 | in every run an input that is neither answer nor failure nor cancellation ends a read if and only if the clock shows at least the time of its request plus the timeout that the request carried |
| SyncPromises.LastRedirectIsFollowed | pkg/client/state_machine.go:206-214 | in every run a request carries the address and the token of the last processed response's redirect unless a retry came after it, and neither if that response had no redirect |
| AssignmentCells.AtomicAssignmentCell.Set | pkg/common/atomic_assignment.go:40-60 | with anything installed by other goroutines between load and swap: refused exactly if older than what one of its attempts loads; otherwise it ends in the cell; listeners are called once exactly on success |
| AssignmentCells.AtomicAssignmentCell.Attempt | pkg/common/atomic_assignment.go:45-58 | one turn of the loop, with something else left in the cell between load and swap or not: refused exactly if older, installed and announced, or lost |
| AssignmentCells.AtomicAssignmentCell.NotifyListeners | pkg/common/atomic_assignment.go:70-76 | every registered listener is called once with the new assignment, in order of registration |
| Driver.InvHolds | pkg/client/slice_lookup.go:136-230 | every interleaving keeps: installs ascend, no two tasks answer for one pointer, every pointer is under way or not newer than the cell's, every install is or will be announced |
| Driver.CellNeverGoesBack | pkg/common/atomic_assignment.go:34-60 | over every interleaving a reader never sees an older assignment after a newer one, nor none after some |
| Driver.InstallsIncrease | pkg/common/atomic_assignment.go:45-53 | the generations of successful swaps strictly increase |
| Driver.SettledCellIsCurrent | pkg/client/slice_lookup.go:161-170 | once no publication is pending the cell holds exactly the machine's current assignment |
| Driver.ReadyMeansLoaded | pkg/client/slice_lookup.go:161-167 | once the ready channel is closed the cell is never empty again |
| Driver.InstallsAreAnnouncedOnce | pkg/common/atomic_assignment.go:54-57 | every successful swap is announced exactly once, and nothing else is |
| Driver.FailedSwapsArePaidFor | pkg/common/atomic_assignment.go:45-59 | a publication's swap fails at most as often as assignments have been installed |
| Dispatch.EachOperationHasOneGoroutine | pkg/client/slice_lookup.go:161-230 | over every interleaving the operations requested are exactly those carried by one goroutine and those answered; none is both, none is with two goroutines, none is answered twice |
| Dispatch.RequestsGoWhereRedirected | pkg/client/slice_lookup.go:173-193 | over every interleaving a goroutine that waits for operation n has dialled the address that the n-th request's redirect names, and the default address if that is missing or blank |
| LagRecovery.AnswersComeFromCalls | pkg/client/slice_lookup.go:173-223 | every answer the machine gets comes with an address that was dialled, which is blank only if the default address is |
| LagRecovery.RunFeedsIffRedirectNamesIt | pkg/client/state_machine.go:341-369 | over every run of the machine whose answers come from dialled addresses, a request carries the whole assignment exactly under the condition of the next row |
| LagRecovery.ServerIsFedIffRedirectNamesIt | pkg/client/state_machine.go:341-369 | over every interleaving a request carries the whole assignment exactly if the server it goes to is the peer last heard from, that peer is behind, and the redirect names that server's address |
| LagRecovery.UnredirectedServerIsNotFed | pkg/client/state_machine.go:343-345 | a request that goes to the default server without a redirect naming it carries only a generation |
| LagRecovery.FedAssignmentArrives | pkg/client/state_machine.go:343-352 | in every run, the assignment a request carries is the one last published, and whatever message encodes it decodes to it at the other end |
| LagRecovery.LaggingDefaultServer | pkg/client/slice_lookup.go:173-223 | whenever the default server is asked it can turn out to lag, whatever the clock shows, and the next request to it carries the assignment if the answer redirects to the default address and only a generation if it does not redirect |
| LagRecovery.DefaultServerCanBeAsked | pkg/client/slice_lookup.go:136-230 | an execution, move by move, in which the default server is asked while the machine holds an assignment |
| Progress.WorkIsBounded | pkg/client/slice_lookup.go:161-230 | however goroutines are scheduled, failing swaps included, between two steps of the machine there are at most as many moves as the effort left at the start |
| Progress.WorkTakesEffort | pkg/common/atomic_assignment.go:45-59 | every load, swap, refusal, notification and closing takes effort away, although a swap that succeeds sets other publications back |
| Progress.BusyTaskCanMove | pkg/client/slice_lookup.go:161-171 | a goroutine with something to publish or to announce, or the ready channel to close, is never stuck |
| Progress.RestMeansUpToDate | pkg/client/slice_lookup.go:161-171 | when the goroutines have run out of moves, the cell holds exactly the machine's current assignment, every install has been announced, and the ready channel is closed exactly if there is an assignment |
| Progress.ReadyInvHolds | pkg/client/slice_lookup.go:161-167 | over every interleaving, once the cell has been set the ready channel is closed or a goroutine is about to close it |
| WaitFreedom.FailuresAreFew | pkg/common/atomic_assignment.go:45-59 | over every interleaving the swap of the p-th publication (counting from 0) fails at most p + 1 times |
| WaitFreedom.PublicationIsWaitFree | pkg/client/slice_lookup.go:161-171 | over every interleaving, with the machine stepping as it likes, the goroutine of the p-th publication makes at most 2p + 5 moves for it; while it is pending there are moves left, and afterwards the cell holds it or a newer one |
| Router.ResourceRouter.RouteAll | pkg/client/router.go:38-51 | all resources, in order, of the one entry whose slice holds the key, or the error for no assignment or no resources; the lookup cannot panic |
| Router.ResourceRouter.Route | pkg/client/router.go:55-68 | the answer is a replica of the key; a single replica leaves the counter alone, otherwise the counter advances modulo 2^64 and picks |
| Router.ResourceRouter.RouteRepeatedly | pkg/client/router.go:53-68 | calling `Route` k times n for a key with n different replicas, each of them is the answer exactly k times, if and only if the counter's wrap does not show |
| Router.ResourceRouter.RouteWithRetry | pkg/client/router.go:94-118 | an answer is a replica of the key that has not been tried while all that stand before it have; exhaustion is reported exactly if all have been tried |
| Router.ResourceRouter.RetryUntilFailure | pkg/client/router.go:91-118 | calling `RouteWithRetry` with all earlier answers as tried until it fails: the answers are the distinct replicas in list order, and the failure is exhaustion |
| Router.PublishedKeysHaveReplicas | pkg/client/router.go:38-51 | over an assignment that passed the constructors every key has a replica |
| Router.RetriesWalkTheReplicas | pkg/client/router.go:94-118 | retrying with all earlier picks walks the distinct replicas in list order and reports exhaustion exactly at the end |
| Router.RoundRobinIsFair | pkg/client/router.go:65-67 | k rounds of calls, however many, pick each of n replicas exactly k times if and only if the counter does not wrap within them, wraps once and between two rounds, or n divides 2^64 |
| Router.WrapCanShow | pkg/client/router.go:65-67 | three calls on three replicas across the wrap of which two pick the first replica and none the last |
| Readiness.OnceReadyEveryKeyRoutes | pkg/client/router.go:38-51 | whatever peers send and however goroutines interleave, lookups never panic, and once ready every key routes, forever |

## Left out

- Generated protobuf and gRPC code, binary marshalling, connections: messages are datatypes, and the outcome of a call is any response or failure.
- Tickers, contexts, wait groups, the mutex itself: a step of the machine is one move, and any enabled move may come next. The driver is a transition system over values; its moves are the statements of the run loop and of the request goroutines.
- Decoding panics inside the driver: a run treats a response that would panic as one without an assignment, which adds runs and removes none that go on.
- The random generator and the rounding of floating point: the jitter factor is any real in [0.5, 1.5), the delay is truncated.
- Overflow of 64-bit durations: the doubling stays within twice the configured range (`SyncRuns.WaitStaysInRange`); the suggested timeout in milliseconds and the sum of now and a delay are not bounded.
- Bit operations: or-ing bytes into disjoint bits is modelled as addition, shifting a signed word as multiplication with wrap or as division rounding down.
- The UUID library's parser: a text is the canonical spelling of a UUID, or another text with whatever the parser makes of it.
- Text of errors, `String` methods, `Squid.Compare`, accessors and defensive copies. `Squid.String`, which the router uses as a map key, is taken to be injective.
- The payload of a request that carries an assignment: the machine's action holds the assignment itself. `Encoding.AssignmentToProto` encodes every assignment, and `LagRecovery.FedAssignmentArrives` says what any encoding decodes to.
- `RouteTwoLevel` with its FNV hash, `SliceLookupCache`, the `Clerk`, `WithGRPCClientFactory`: wrappers. `pkg/server` and `pkg/assigner` are not part of this model.
- Callers of the router: `Router.ResourceRouter.RouteRepeatedly` and `Router.ResourceRouter.RetryUntilFailure` are loops over its methods as callers write them, and stand for those callers.
- The order in which listeners hear of different assignments: the program does not order it.
- SyncMachine.AssignmentSyncStateMachine.OnEvent: requires a response whose decoding does not panic, because the program does not recover from that.
- RoundTrips.AnnotationMapRoundTrip: speaks of pools that 32-bit indices can count; beyond that an index may name another squid, and `RoundTrips.AssignmentRoundTrip` says that no such message decodes to its assignment.
