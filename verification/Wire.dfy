/** The messages of the wire protocol. Fields that can be absent are options. */
module Wire {
  import opened Wrappers
  import opened Words
  import opened SliceKeys
  import opened Assignments

  datatype GenerationP = GenerationP(incarnation: int64, number: int64)

  datatype SliceP = SliceP(lowInclusive: Key, highExclusive: Option<Key>, isHighInfinity: bool)

  datatype SquidP = SquidP(resourceAddress: string, creationTimeMillis: int64, resourceUuidHigh: int64,
                           resourceUuidLow: int64)

  datatype TransferP = TransferP(id: int32, fromResourceId: int32)

  datatype SubsliceAnnotationP = SubsliceAnnotationP(
    resourceId: int32,
    subslice: Option<SliceP>,
    generationNumber: int64,
    stateTransfer: Option<TransferP>)

  datatype SliceAssignmentP = SliceAssignmentP(
    slice: Option<SliceP>,
    generation: Option<GenerationP>,
    resourceIndices: seq<int32>,
    subsliceAnnotations: seq<SubsliceAnnotationP>,
    primaryRateLoad: Option<Load>)

  datatype DiffAssignmentP = DiffAssignmentP(
    generation: Option<GenerationP>,
    sliceAssignments: seq<SliceAssignmentP>,
    resources: seq<Option<SquidP>>,
    isFrozen: bool)

  /** The state a peer reports. The fourth form of the message is ignored by the client. */
  datatype SyncStateP =
    | NoState
    | KnownGeneration(generation: Option<GenerationP>)
    | KnownAssignment(assignment: Option<DiffAssignmentP>)
    | KnownSerializedAssignment

  datatype RedirectP = RedirectP(address: string, redirectToken: seq<byte>)

  datatype ClientResponseP = ClientResponseP(
    syncAssignmentState: SyncStateP,
    suggestedRpcTimeoutMillis: int64,
    redirect: Option<RedirectP>)
}
