/** From the wire to the caller: what the client as a whole promises once it is ready. */
module Readiness {
  import opened Wrappers
  import opened SliceKeys
  import opened Assignments
  import opened AssignmentCells
  import opened SyncMachine
  import opened SyncRuns
  import opened Driver
  import opened Router

  /** What the router finds in the cell of a world. */
  ghost function CellOf(w: World): Option<Pointer>
  {
    if Current(w).Some? then Some(Pointer(w.cell.value, Current(w).value)) else None
  }

  lemma CurrentIsBuilt(cfg: Config, defaultAddress: string, worlds: seq<World>, moves: seq<Move>, i: nat)
    requires IsExecution(cfg, defaultAddress, worlds, moves) && i < |worlds|
    ensures Current(worlds[i]).Some? ==> BuiltAssignment(Current(worlds[i]).value)
  {
    hide IsExecution, IsRun, BuiltAssignment, Uses, CellInv, TasksInv, PointersInv, NotesInv, StateAfter, Increasing;
    InvHolds(cfg, defaultAddress, worlds, moves, i);
    UsesIncrease(cfg, worlds[i].history);
  }

  /** Whatever peers sent and however the goroutines interleave: the router's lookups never panic,
      and once the ready channel is closed every key routes, forever. */
  lemma OnceReadyEveryKeyRoutes(cfg: Config, defaultAddress: string, worlds: seq<World>, moves: seq<Move>, i: nat,
                                j: nat, key: Key)
    requires IsExecution(cfg, defaultAddress, worlds, moves) && i <= j < |worlds|
    ensures Routable(CellOf(worlds[j]))
    ensures worlds[i].ready ==> Replicas(CellOf(worlds[j]), key).Success?
    ensures Replicas(CellOf(worlds[j]), key) != Failure(NoResourcesAssigned)
  {
    hide IsExecution, BuiltAssignment, Current, Replicas, Routable;
    CurrentIsBuilt(cfg, defaultAddress, worlds, moves, j);
    if worlds[i].ready {
      ReadyMeansLoaded(cfg, defaultAddress, worlds, moves, i, j);
    }
    if Current(worlds[j]).Some? {
      PublishedKeysHaveReplicas(CellOf(worlds[j]).value, key);
    } else {
      EmptyCellIsRoutable(key);
    }
  }

  lemma EmptyCellIsRoutable(key: Key)
    ensures Routable(None) && Replicas(None, key) == Failure(NoAssignmentAvailable)
  {
  }
}
