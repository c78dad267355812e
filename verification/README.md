# Verification of the HNSW erasure stack

A Dafny model of an HNSW index that can erase nodes for good, of the locks around it, of the protocol that makes
erasure durable, and of the control plane that reports it, with proofs of what they promise.

* **Index.** `LayerHeal` specifies the heal of one layer: isolate q, then greedily rewire its former neighbours in
  ascending distance under a degree cap, evicting farther edges. `HnswIndex.Index` is the mutable index, whose methods
  are proved to compute that specification on the ragged adjacency. `HealBookkeeping`, `HealStability`,
  `HealReachability`, `RewiringGuarantee` and `HalfEdges` hold the theorems about one layer, `ErasureSafety` those
  about all layers and whole runs, `HealLocality` the fact that a heal depends on its region only. `Search` is the
  lock-coupled search, `RecallBounds` the fragmentation bound over it.
* **Locks.** `Locks` has the stripe pool, the exclusive guard and the walker's cursor as classes. `LockProtocol` is
  the whole index under concurrency as a transition system of erasures, `set_neighbors` calls and walkers;
  `Serializability` proves what such runs amount to, `LoneErasure` that the system lets threads finish, `StaleRegion`
  shows which hypothesis they need.
* **Durability.** `Wal` and `Snapshot` are the two binary formats with their loops. `Persistence` is the crash
  protocol over log, index.bin and memory, with any number of deletes in flight; `Engine` is the engine as an object
  whose methods take the steps of that protocol.
* **Control plane.** `IdRegistry`, `DualStore`, `ErasureService`, `Workflow` and `Outbox`.

Distances are an arbitrary symmetric non-negative real function of two vectors. Which lock attempts are given up, also
between the overwrite of a row and the heal that should follow, and which flushes fail are parameters, so contracts say
when an operation succeeds and not only what success means; a crash may come between any two steps.

Where the code and its documentation differ the model follows the code. The local guarantee of Theorem 3
(compliance/recall_bounds.py, lines 60-65) is false as written for an arbitrary pair. `RewiringGuarantee` has the
counterexample, decides every pair exactly at its own turn, and gives the guarantee that holds before the heal: a
pair ends linked if each end has fewer rivals for its slots than the cap, a nearest pair if each end has a free slot.

Claims about symmetry ask for layers that are symmetric, duplicate-free and loop-free, which `set_neighbors` does not
enforce. A heal keeps such a layer symmetric if and only if none of its turns is a half turn, one after which only one
end of a pair lists the other (`HealSymmetricExactly`); caps that the neighbours of the erased node fit once it is
gone rule that out beforehand, and `SmallCapBreaksSymmetry` is a layer on which it happens. Claims about concurrent
heals ask that the region a heal proceeds with still spans the 2-hop neighbourhood; `StaleHealWritesUnlocked` and
`MissedNeighbourWritten` show why. That a search never returns an erased label is false: retiring the entry point may
pick an erased row. It returns one if and only if it starts there (`RunFindsExactly`), `EntryGoneExactly` says exactly
when the entry point is erased, and `NextSearchExactly` that the row just erased is not found on two rows or more if
the entry point was a row.

## Model

| member | source | states |
|---|---|---|
| LayerHeal.Farthest | src/hnsw_helper.hpp:1021-1029 | the neighbour chosen for eviction is the first of those at the greatest distance from the node |
| LayerHeal.EvictStep | src/hnsw_helper.hpp:1046-1057 | an eviction removes edges only, touches only the two ends, and counts every entry it removes, duplicates included |
| LayerHeal.CapacityStep | src/hnsw_helper.hpp:1004-1060 | making room adds no edge, lengthens no list, touches only the node and its neighbours, and changes nothing when it refuses |
| LayerHeal.CommitStep | src/hnsw_helper.hpp:1062-1086 | a half edge adds at most the one entry asked for; entries and counters balance and no list outgrows the cap |
| LayerHeal.TryInsertStep | src/hnsw_helper.hpp:1088-1127 | one candidate pair: the only new entries are the pair itself, only the ends and their neighbours are touched, entries and counters balance |
| LayerHeal.TryInsertCounts | src/hnsw_helper.hpp:1088-1127 | edges_added grows by one for each end that lists the other after the turn and did not before, and by nothing else, on any in-range layer |
| LayerHeal.OrphansInOrder | src/hnsw_helper.hpp:721-735 | the former neighbours are collected in the order in which q first lists them |
| LayerHeal.IsolateStep | src/hnsw_helper.hpp:716-757 | isolation empties the list of q and takes q out of exactly the lists of its neighbours and of the region |
| HnswIndex.SwapScoreIsDistance | src/hnsw_helper.hpp:1036-1044 | the navigability test of a swap accepts exactly when the candidate is nearer than the farthest neighbour, so the 1/(1+d) scores never decide otherwise |
| HnswIndex.SwapScore | src/hnsw_helper.hpp:1034-1040 | the score after a swap, computed from the score before it, is the score of the list with the candidate in place of the evicted neighbour |
| HnswIndex.NodeDistMeasures | src/hnsw_helper.hpp:934-938 | the distance the heal goes by is that of the stored vectors |
| HealBookkeeping.HealAccounts | src/hnsw_helper.hpp:706-803 | on any in-range layer, duplicates and self-loops allowed: entries after = before + added - removed, writes stay in the 2-hop region, lists stay within max(old length, max_m), q has no out-edge and no node of the region points to q, every new entry joins two former neighbours |
| HealStability.TryInsertSettles | src/hnsw_helper.hpp:1088-1127 | after its turn a pair is linked both ways or one end is full of neighbours at most as far; the layer stays simple, the former neighbours within the cap, and no edge as short as the candidate is lost |
| HealStability.TryAllSettles | src/hnsw_helper.hpp:796-802 | an examined pair stays settled to the end of the pass: later candidates evict only strictly longer edges |
| HealStability.SortSorted | src/hnsw_helper.hpp:785-794 | candidates are tried in ascending distance |
| HealStability.SortRanked | src/hnsw_helper.hpp:785-794 | ties are broken by the two labels, so the order of the candidates does not depend on the sorting algorithm |
| HealStability.HealStable | src/hnsw_helper.hpp:774-803 | stability: on a simple layer whose former neighbours of q fit the cap once q is gone, every two of them end linked both ways, or one of them has max_m neighbours all at distance at most theirs; the layer stays simple and no list outgrows max(its old length, max_m) |
| HealReachability.HealLinksAll | src/hnsw_helper.hpp:774-803 | if each former neighbour has room for what it holds besides q and for the former neighbours it does not hold yet, every two of them end linked and no other edge is lost, duplicates allowed |
| HealReachability.LinksAllExactly | src/hnsw_helper.hpp:774-803 | on a simple layer the capacity condition is exact: all former neighbours end linked and no other edge is lost if and only if each of them has that room |
| HealReachability.ConnectedExactly | compliance/recall_bounds.py:60-65 | the graph fact behind it, for any two layers: connectivity survives the loss of a node if and only if the ends of every other edge and every two of its neighbours reach each other without it |
| HealReachability.HealConnectedExactly | compliance/recall_bounds.py:60-65 | the spanning-rewire claim for every heal of a symmetric layer, whatever the caps: nodes connected before are connected afterwards without q if and only if the ends of every edge the pass evicted, and every two former neighbours, still reach each other without q |
| HealReachability.HealPreservesReachability | compliance/recall_bounds.py:60-65 | the spanning case of the claim: under that capacity condition q is bridged, so nodes connected before the heal are connected after it without q |
| RewiringGuarantee.PairDecided | src/hnsw_helper.hpp:796-802 | exactly which pairs of former neighbours end linked: a pair does if and only if at its turn it was linked or neither end was full of neighbours at least as near; later turns change nothing |
| RewiringGuarantee.UncontestedPairLinked | compliance/recall_bounds.py:60-65 | the local guarantee for every pair of former neighbours, with a condition on the layer before the heal: if at each end fewer than max_m nodes, held or offered, are at least as near as the other end, the pair ends linked |
| RewiringGuarantee.RoomyPairLinked | compliance/recall_bounds.py:63-65 | the spanning case follows pair by pair: with room at both ends no pair is contested |
| RewiringGuarantee.NearestPairLinked | compliance/recall_bounds.py:60-65 | the first pair tried, a nearest one, ends linked if and only if it was linked or, once q is isolated, neither end is full of neighbours at least as near |
| RewiringGuarantee.FreeNearestPairLinked | compliance/recall_bounds.py:60-62 | the local guarantee with free capacity only: the first pair tried, a nearest one, ends linked if both ends are below the cap; a later pair as near may not (`OpenPairMayStayApart`) |
| RewiringGuarantee.OpenPairMayStayApart | compliance/recall_bounds.py:60-62 | the local guarantee is false for other pairs: in a star with cap 1 a pair with free capacity at both ends stays apart although no pair is nearer, and each end has one rival only, as many as the cap |
| HalfEdges.TurnSimpleExactly | src/hnsw_helper.hpp:1088-1127 | exactly when one candidate pair leaves half an edge on a simple layer: it was not linked, both ends make room, and exactly one of them is at most one over the cap with fewer than max_m neighbours at least as near as the other; all of it read off the two lists before the turn |
| HalfEdges.HealSymmetricExactly | src/hnsw_helper.hpp:774-803 | the heal of a simple layer of any degrees is symmetric if and only if none of its turns is such a half turn, and then it is simple: half an edge once left is never repaired or evicted later |
| HalfEdges.CapFitsNoHalfTurn | src/hnsw_helper.hpp:774-803 | a cap that the former neighbours fit once q is isolated rules half turns out before the heal starts |
| HalfEdges.TwoNeighboursExactly | src/hnsw_helper.hpp:774-803 | with two former neighbours the condition is one on the isolated layer alone |
| HalfEdges.SmallCapBreaksSymmetry | src/hnsw_helper.hpp:1062-1086 | a layer of five nodes that loses its symmetry with one former neighbour a single entry over the cap |
| Layers.RegionExactly | src/hnsw_helper.hpp:950-987 | a node is in the region if and only if it is q, a neighbour of q on some layer, or a neighbour of such a neighbour on some layer |
| Layers.RegionCovers | src/hnsw_helper.hpp:950-987 | on every layer the region contains q, its neighbours and their neighbours |
| HnswIndex.Index.EnsureCapacityFor | src/hnsw_helper.hpp:1004-1060 | the in-place code computes the one-layer specification and touches no other layer |
| HnswIndex.Index.CommitHalfEdge | src/hnsw_helper.hpp:1062-1086 | as above, counters included |
| HnswIndex.Index.TryInsertHealedEdge | src/hnsw_helper.hpp:1088-1127 | as above; nodes not near the two ends keep their lists exactly |
| HnswIndex.Index.CollectHealRegion | src/hnsw_helper.hpp:950-987 | the loops compute the 2-hop region over all layers |
| HnswIndex.Index.HealOneLayer | src/hnsw_helper.hpp:715-803 | the body of the layer loop heals that layer as specified and leaves other layers and nodes outside the region alone |
| HnswIndex.Index.ClearAllLists | src/hnsw_helper.hpp:805-812 | clears every list of q and counts what it clears |
| HnswIndex.Index.HealGraphStructure | src/hnsw_helper.hpp:652-831 | every layer is healed, nothing outside the region changes, the metrics are the exact tally; the entry point is kept unless it was q, and then is the first other row, or -1 if and only if there is none; each error case, a lock timeout included, with nothing changed |
| HnswIndex.Index.OverwriteVector | src/hnsw_helper.hpp:616-622 | zeroes exactly the row asked for, or refuses or times out with nothing changed |
| HnswIndex.Index.EraseNode | src/hnsw_helper.hpp:833-849 | wipe then heal, entry point included, with every error case: when max_m is bad or the heal does not get its locks the row has been zeroed and the graph is as before |
| HnswIndex.Index.PruneAdjacency | src/hnsw_helper.hpp:624-646 | the sweep removes the node from every list on every layer and empties its own; refusals and timeouts change nothing |
| HnswIndex.Index.SetNeighbors | src/hnsw_helper.hpp:445-473 | replaces one list after checking its labels and nothing else; a timeout changes nothing, a refusal leaves every list as it was |
| ErasureSafety.EraseSafe | src/hnsw_helper.hpp:833-849 | one erasure leaves every layer simple if and only if none of its turns is a half turn; then no degree grows beyond the cap, its node is zero and off every layer in both directions, and every erased node stays erased |
| ErasureSafety.RunSafe | src/hnsw_helper.hpp:833-849 | any run of calls without half turns, those that raise half-way included: all layers stay symmetric, duplicate-free, loop-free and in range, and each erased node stays zero and edge-free |
| ErasureSafety.RunSimpleExactly | src/hnsw_helper.hpp:833-849 | all states of a sequence of calls are simple if and only if no call of it has a half turn |
| ErasureSafety.RunCapped | src/hnsw_helper.hpp:652-849 | over such a run no degree exceeds the greatest of the caps used and of the degrees at the start |
| ErasureSafety.RisingCapsFit | src/hnsw_helper.hpp:652-849 | caps that start at the degrees of the graph and never drop leave no half turn in any sequence of calls, whatever is erased |
| ErasureSafety.EntryGoneExactly | src/hnsw_helper.hpp:814-826 | after any sequence of calls, on any layers, the entry point is an erased node if and only if the row that replaced it the last time it was retired had been erased before |
| ErasureSafety.EdgesConserved | src/hnsw_helper.hpp:706-812 | over all layers: total entries after = before + edges_added - edges_removed |
| ErasureSafety.HealBounds | src/hnsw_helper.hpp:706-812 | on every layer of any adjacency: the cap, the region and the isolation of q |
| ErasureSafety.EraseStable | src/hnsw_helper.hpp:774-803 | stability of the rewiring on every layer of the index |
| ErasureSafety.EraseReaches | compliance/recall_bounds.py:60-65 | the spanning-rewire claim on every layer of the index |
| HealLocality.HealLocal | src/hnsw_helper.hpp:681-803 | a heal reads only lists and distances of its region: two layers that agree there are healed alike there |
| HealLocality.RegionLocal | src/hnsw_helper.hpp:950-987 | the region is determined by the lists inside it |
| HealLocality.HealsCommute | src/hnsw_helper.hpp:681-803 | two heals with disjoint regions end with the same lists on every layer in either order |
| Search.GreedyUpdate | src/hnsw_helper.hpp:1135-1173 | the descent on a layer terminates at a node none of whose neighbours is nearer to the query by the metric and the stored vectors, reachable from the start and no farther than it, with the cursor on that node |
| Search.BaseLayerSearch | src/hnsw_helper.hpp:1175-1259 | terminates; hits are distinct, sorted, reachable, carry the distance of their vector to the query, and are the k nearest of all visited nodes; every neighbour of a hit was visited; a timeout is reported exactly when a lock timed out |
| Search.NeighbourOfHit | src/hnsw_helper.hpp:1215-1241 | every layer-0 neighbour of a hit is a hit or no nearer than the last hit |
| Search.ShortAnswer | src/hnsw_helper.hpp:1198-1259 | fewer than k hits means the whole reachable set was returned |
| Search.ExactAnswer | src/hnsw_helper.hpp:1198-1259 | with at most max(k,16) reachable nodes the answer is exact k-NN over them |
| Search.SearchKnn | src/hnsw_helper.hpp:567-610 | the whole search: start node, greedy descent through the layers, base search with true distances; it refuses only an unloaded index, times out only if an attempt was given up or a stripe was held, and gives back every shared lock |
| Search.ErasedFoundExactly | src/hnsw_helper.hpp:567-610 | a search for at least one hit returns an edge-free node if and only if it starts on it, and then returns nothing else |
| Search.RunFindsExactly | src/hnsw_helper.hpp:567-610 | after any run of calls, half-finished ones included, a search returns an erased label if and only if it starts there, and then nothing else |
| Search.DefaultSearchExactly | src/hnsw_helper.hpp:567-610 | a search that names no start node returns an erased label if and only if the row that last replaced the entry point had been erased before, or the entry point is no row and row 0 is erased |
| Search.StartAfterErase | src/hnsw_helper.hpp:814-824 | such a search starts on the row just erased in exactly those two cases, whatever the layers look like |
| Search.NextSearchExactly | src/hnsw_helper.hpp:567-590 | a search that names no start node, right after an erasure on symmetric layers, returns the row just erased if and only if that was the only row, or the entry point was no row and the row erased is row 0 |
| Search.EntryPointMayBeErased | src/hnsw_helper.hpp:814-826 | two rows without edges, the second the entry point: once both are erased, in ascending order, such a search returns exactly the erased row 0 |
| Locks.UniqueStripes | src/neighborhood_locks.hpp:281-291 | the stripes of the nodes, ascending, each once, and no others |
| Locks.StripesSpread | src/neighborhood_locks.hpp:61-66 | the labels of one stripe are as far apart as there are stripes, the sign apart |
| Locks.ExclusiveGuard.Acquire | src/neighborhood_locks.hpp:76-96 | success holds every stripe, each free before, and is certain if all are free and no attempt is given up; a timeout leaves every stripe as it was and the guard holding nothing |
| Locks.ExclusiveGuard.Release | src/neighborhood_locks.hpp:117-127 | unlocks exactly the stripes taken |
| Locks.SharedLockCursor.Advance | src/neighborhood_locks.hpp:234-250 | lock coupling: on success, certain if nobody writes and no attempt is given up, the cursor is on the next node and holds exactly one shared stripe more than the others do; on a timeout it stays where it was |
| Locks.SharedLockCursor.Enter | src/neighborhood_locks.hpp:226-232 | gives up the old hold, then is on the node or holds nothing; on the node if nobody writes and no attempt is given up |
| LockProtocol.StepFine | src/hnsw_helper.hpp:652-700 | each step of an erasure, a write or a walk keeps every thread and the graph well-formed |
| LockProtocol.RunExcludes | src/neighborhood_locks.hpp:72-142 | in every reachable state live exclusive guards are disjoint and no walker holds one of their stripes |
| LockProtocol.HeldBelowNext | src/neighborhood_locks.hpp:82-95 | a guard waits only for stripes above all it holds |
| LockProtocol.NoDeadlock | src/neighborhood_locks.hpp:76-96 | the wait-for relation among exclusive guards has no cycle in any reachable state, for any number of threads |
| LoneErasure.NeverStuck | src/hnsw_helper.hpp:652-700 | in every well-formed state each thread has a step to take, and one that is not waiting for a held stripe need not time out |
| LoneErasure.LoneErase | src/hnsw_helper.hpp:652-849 | from any index at rest the protocol can take an erasure to its end, and an erasure that nobody disturbs leaves the zeroed row and the healed layers of `erase_node` |
| Serializability.OwnRegion | src/hnsw_helper.hpp:681-803 | a heal step whose region spans the 2-hop neighbourhood changes lists of that region only |
| Serializability.WritesProtected | src/hnsw_helper.hpp:681-812 | in every run whose heals proceed with regions that still span the 2-hop neighbourhood, a changed list or vector belongs to a node whose stripe the writer holds and nobody else holds, so no walker is reading it |
| Serializability.MissedNeighbourWritten | src/hnsw_helper.hpp:681-812 | the condition on regions is needed: on a symmetric layer a heal step whose region misses a neighbour of q changes the list of that neighbour, and holds its stripe only if a node of the region shares it |
| Serializability.Serializable | src/hnsw_helper.hpp:681-831 | concurrent erasures and writes are serializable under that condition: some serial history of atomic heals and writes, in finishing order, has the stored lists wherever nobody is healing |
| Serializability.HealedWithIsHealed | src/hnsw_helper.hpp:692-699 | an atomic heal of that history is the heal of the index if its region was up to date, and has the same lists if the layers are symmetric and the region had become too large |
| StaleRegion.StaleHealWritesUnlocked | src/hnsw_helper.hpp:692-699 | without the recheck after the second acquisition there is a run in which a heal whose region has become too small rewrites a node it has not locked while a walker stands on it |
| RecallBounds.UnreachableFraction | compliance/recall_bounds.py:188-212 | the worklist computes exactly the active nodes reachable through active nodes, from the entry or some active node |
| RecallBounds.FragmentationTheorem | compliance/recall_bounds.py:215-232 | Theorem 2: with deleted nodes isolated, mean recall@1 over one query per active node, searched from the component of the entry, is at most the bound, so the assertion never fires |
| RecallBounds.WholeSearchTheorem | compliance/recall_bounds.py:38-50 | the bound for whole searches with a descent: the unreachable nodes are those outside any set that holds the start node and that no link of the layers of the descent leads out of |
| RecallBounds.BaseLayerBound | compliance/recall_bounds.py:38-50 | the bound measured on the base layer alone holds for whole searches if the upper links do not lead out of the component of the start node |
| RecallBounds.UpperLinksBeatBaseBound | compliance/recall_bounds.py:38-50 | the bound measured on the base layer alone is false for such searches: two nodes linked on layer 1 only, both recalled, and the assertion fails |
| RecallBounds.RecalledReachable | compliance/recall_bounds.py:38-50 | a query aimed at an unreachable node cannot return it |
| RecallBounds.BoundIsReachRatio | compliance/recall_bounds.py:115-124 | the bound is the fraction of active nodes that the traversal reaches |
| RecallBounds.AssertsExactly | compliance/recall_bounds.py:215-232 | the assertion fires if and only if the recall, less the tolerance, exceeds the share of active nodes that are not unreachable |
| Wal.ScanPrefix | api/wal.py:211-293 | the first n bytes of any encoded log yield, for every n, exactly the records that fit in n bytes, without error |
| Wal.ScanWhole | api/wal.py:211-293 | round trip: scanning an encoded log returns the log |
| Wal.BeginLayout | api/wal.py:36-45 | a BEGIN byte by byte: magic, type, flags, the four numbers in their little-endian columns, the reserved bytes, the digest of the numbers |
| Wal.CommitLayout | api/wal.py:36-45 | a COMMIT byte by byte |
| Wal.TornTailHidesLaterRecords | api/wal.py:160-178 | what becomes of a record appended after a torn tail of any length: the scan raises at the tail, or stops there while the bytes are too few for a record of the torn kind, unless the 32 bytes in the place of the checksum happen to be the digest of the spliced payload |
| Wal.PendingIsUncommitted | api/wal.py:295-316 | with rising ids the dictionary and set return exactly the BEGINs without COMMIT, in log order |
| Wal.PendingExactly | api/wal.py:295-316 | on any log, also one whose ids repeat or fall: the transactions with a BEGIN and no COMMIT, each with its last BEGIN, in strictly ascending order of their ids |
| Wal.IterRecords | api/wal.py:211-293 | the reading loop computes the scan |
| Wal.WriteAheadLog.constructor | api/wal.py:101-116 | reopening a log, torn tail included, continues its numbering after the greatest id in it |
| Wal.WriteAheadLog.AppendBeginDelete | api/wal.py:123-178 | appends one encoded record under the next id or the one given; ids keep rising unless a given one is too small; each refusal and what it leaves behind; after a torn tail the record does not join the log |
| Wal.WriteAheadLog.AppendCommit | api/wal.py:180-209 | appends the COMMIT, or refuses with nothing changed; after a torn tail it does not join the log |
| Wal.WriteAheadLog.UncommittedDeletes | api/wal.py:295-316 | raises exactly when the scan does; of a file that is whole or ends in a torn record it returns exactly the uncommitted BEGINs, in log order |
| Persistence.StepKeeps | api/persistence.py:124-275 | the protocol invariant survives every step of every delete, flush and recovery, an overwrite whose heal is still to come included, and a crash at any of them |
| Persistence.NoResurrection | api/persistence.py:75-184 | any run with any number of concurrent deletes and crashes: a COMMIT in the log implies its target row is zero in index.bin |
| Persistence.RecoveryComplete | api/persistence.py:198-275 | a recovery that completes leaves no BEGIN uncommitted and every node ever named by one zero in memory and on disk |
| Persistence.OutOfRangeBlocksRecovery | api/persistence.py:147-154 | a BEGIN that names no row of the checkpoint stops every later recovery, however often it is retried |
| Engine.PersistenceEngine.constructor | api/persistence.py:277-285 | a process started on any log and checkpoint a crash may leave satisfies the protocol invariant |
| Engine.PersistenceEngine.AtomicFlushIndex | api/persistence.py:75-118 | publishes the whole index in memory if the flush gets through, and else leaves the old checkpoint |
| Engine.PersistenceEngine.EraseRetrying | api/main.py:68-90 | attempts are repeated while locks time out: the erasure succeeds if and only if some attempt gets all its locks, and otherwise has at most overwritten the row |
| Engine.PersistenceEngine.HardDeleteAndHeal | api/persistence.py:124-184 | BEGIN, erase with retries, flush, COMMIT: when exactly each outcome occurs, success being equivalent to valid arguments, records that fit their columns, a row, some attempt with all its locks and a flush that works; the id returned is that of the BEGIN; and for each outcome exactly what has happened to log, memory and index.bin; the invariant holds after all of them |
| Engine.PersistenceEngine.ReplayOne | api/persistence.py:245-275 | replays one orphan under a new BEGIN and retires both ids if and only if the row exists, its locks are got, the flush works and the three records fit; each other outcome with its condition, leaving a state that is safe to restart from |
| Engine.PersistenceEngine.RecoverUncommitted | api/persistence.py:198-243 | completes if and only if the replay of every open BEGIN gets through, and then none is open and all their targets are zero; otherwise it stops at the first that does not, with that outcome |
| Snapshot.RoundTrip | src/hnsw_helper.hpp:236-297 | loading a saved index gives the same index back, whatever follows it in the file |
| Snapshot.HeaderLayout | src/hnsw_helper.hpp:252-267 | the front of a file column by column, the entry point in two's complement |
| Snapshot.FileLayout | src/hnsw_helper.hpp:269-292 | the rows follow the header, four bytes for each number in order, and the nodes follow the rows |
| Snapshot.ListLayout | src/hnsw_helper.hpp:282-290 | a neighbour list is its length and then its labels, eight bytes each, in order |
| Snapshot.PrefixRejected | src/hnsw_helper.hpp:303-391 | every strict prefix of a saved file is rejected, as truncated or, within its first four bytes, for its magic |
| Snapshot.HeaderErrors | src/hnsw_helper.hpp:303-360 | which check rejects a file: the first that fails of magic, version, length, dimension and size, and after those only a short body or a neighbour out of range |
| Snapshot.AcceptedBytes | src/hnsw_helper.hpp:303-410 | accepted bytes hold only in-range neighbours and fit the layout; an entry point column beyond the rows is read as 0, or -1 without rows; saving again reproduces the bytes consumed if and only if that column was negative or a row |
| Snapshot.RawCanonical | src/hnsw_helper.hpp:303-391 | the format is canonical: accepted bytes are the encoding of what was read |
| Snapshot.OverflowGuard | src/hnsw_helper.hpp:351-354 | the division test rejects exactly the products that would overflow |
| Snapshot.IndexFile.SaveToFile | src/hnsw_helper.hpp:236-297 | the writing loops produce the encoding, one node for each row, a node without layers where the row has no lists; an empty index is refused |
| Snapshot.IndexFile.LoadFromFile | src/hnsw_helper.hpp:303-411 | the reading loops compute the decoder, with its error, and leave the live index unchanged on every rejection |
| IdRegistry.RegisterFresh | integrations/id_registry.py:61-99 | ids keep their labels, labels stay distinct and below the counter; a label asked for is given or, if taken or in conflict, refused with nothing changed; an automatic one is the counter, above every label in use |
| IdRegistry.StripExactly | integrations/id_registry.py:191-203 | trimming takes white space off both ends of a name and nothing else |
| IdRegistry.LabelsNeverReused | integrations/id_registry.py:61-189 | over any run of register, drop, save and load an automatic label exceeds every label ever returned before |
| IdRegistry.CollectionIdRegistry.Register | integrations/id_registry.py:61-99 | what registering does to its collection, errors included, and that it leaves the others alone |
| IdRegistry.CollectionIdRegistry.Resolve | integrations/id_registry.py:108-118 | finds the label of a known id, with each error |
| IdRegistry.CollectionIdRegistry.ExternalOf | integrations/id_registry.py:125-133 | the inverse of resolve: succeeds exactly for labels in use |
| IdRegistry.CollectionIdRegistry.Drop | integrations/id_registry.py:135-141 | forgets exactly one id and keeps the counters |
| IdRegistry.CollectionIdRegistry.Save | integrations/id_registry.py:159-169 | what is saved can be loaded |
| IdRegistry.CollectionIdRegistry.Load | integrations/id_registry.py:171-189 | gives a sound registry if and only if the saved maps are injective and their counters above every label; a counter the file lacks is one past the greatest label |
| DualStore.AddRefines | integrations/qdrant_adapter.py:244-284 | adding a batch is the same update of the plain map if and only if its ids are neither blank nor padded and the last vector given for each id is not zero |
| DualStore.BlankStops | integrations/qdrant_adapter.py:244-284 | a blank id stops a batch half-way: the ids before it are in the matrix and none of the batch is served |
| DualStore.EraseRefines | integrations/erase_service.py:292-358 | a service delete removes exactly that id from the plain map, mappings dropped or not |
| DualStore.CompactRefines | integrations/qdrant_adapter.py:340-362 | rebuilding the serving store changes nothing |
| DualStore.RunRefines | integrations/qdrant_adapter.py:244-362 | any run of add, delete and compact: serving store and matrix both equal the plain map of ids added and not deleted, and deleted rows are zero |
| DualStore.ErasedForever | integrations/qdrant_adapter.py:286-328 | a label deleted with its mapping is never used again and its row stays zero for the rest of the run |
| DualStore.PaddedIdSurvives | integrations/qdrant_adapter.py:258-270 | an untrimmed id can survive its deletion in the serving store: why ids must be trimmed |
| DualStore.ZeroVectorIsLost | integrations/qdrant_adapter.py:345-352 | an all-zero embedding is served until the next compact and gone after it |
| DualStore.QdrantHardDeleteAdapter.Add | integrations/qdrant_adapter.py:244-284 | the in-place loop performs the specified update and returns the label each id is registered under; when exactly each refusal occurs and what it leaves |
| DualStore.QdrantHardDeleteAdapter.HardDeleteLabel | integrations/qdrant_adapter.py:286-328 | zeroes the row, marks the label and deletes the point, exactly for labels with a row |
| DualStore.QdrantHardDeleteAdapter.Compact | integrations/qdrant_adapter.py:340-362 | recreates the serving store from exactly the live non-zero rows and returns how many there are |
| DualStore.QdrantHardDeleteAdapter.EraseId | integrations/erase_service.py:292-358 | resolve, wipe and forget one id: exactly when it erases, which row is zeroed, and that the mapping goes if and only if mappings are dropped |
| ErasureService.CompleteExactly | integrations/erase_service.py:629-694 | a receipt is complete if and only if nothing was requested, or all ids were erased without any error and the proof passed or is off; failed if and only if none was erased and not all errors are skips; else partial; the deferred-compact branch never changes the status |
| ErasureService.OneEach | integrations/erase_service.py:292-358 | every requested id contributes exactly one erased label or one error |
| ErasureService.RequestedExactly | integrations/erase_service.py:231 | the request has one entry for each id that is not blank, trimmed, in order |
| ErasureService.TurnExactly | integrations/erase_service.py:292-358 | what each entry contributes: its label and bytes if it is mapped, not taken by an earlier entry, and wiped; else the error of its kind |
| ErasureService.LeftExactly | integrations/erase_service.py:292-358 | a mapping goes if and only if mappings are dropped and some entry with that id is wiped |
| ErasureService.CleanExactly | integrations/erase_service.py:292-358 | a batch is free of errors if and only if every id is mapped and wiped and, with mappings dropped, none is listed twice |
| ErasureService.ReceiptSound | integrations/erase_service.py:292-358 | a receipt is complete if and only if every id is mapped, wiped and, with mappings dropped, listed once, no compaction error arises, and the residual proof is off or the backend proves all labels it looks at: all, or the first, middle and last of more than three; then the labels are those of the ids and, with mappings dropped, none is mapped |
| ErasureService.ReceiptFailedExactly | integrations/erase_service.py:629-694 | a receipt is failed if and only if no id was erased and some mapped id has an error that does not read like a skip |
| ErasureService.RepeatNeverCompletes | integrations/erase_service.py:296-305 | repeating a batch that erased an id and dropped its mapping never completes |
| ErasureService.Service.Delete | integrations/erase_service.py:187-532 | the batch loop and the steps after it produce that receipt and those mappings, complete exactly under the condition of `ReceiptSound`; it raises exactly at the first id that cannot be resolved and may not be skipped, with the mappings of the ids before it dealt with |
| Workflow.ClosedIsJustified | integrations/workflow.py:419-447 | a complete ticket has a successful receipt, a residual step that is not failed, and every required step done, never skipped |
| Workflow.StatusExactly | integrations/workflow.py:419-447 | the status after an advance, from its steps: complete if and only if the delete is done, the residual step not failed and every required step done or skipped; blocked if and only if the delete failed, or is done and the residual step or the first required step not finished has failed |
| Workflow.StepsExactly | integrations/workflow.py:323-417 | what one advance makes of each step, from the reply of the service, the receipt and the hook |
| Workflow.ClosesExactly | integrations/workflow.py:243-321 | progress: an advance closes a ticket if and only if its delete is done or now succeeds, the residual proof has not failed, and the hook of every required step has succeeded before or does so now |
| Workflow.ServedCloses | integrations/workflow.py:323-356 | with the erasure service behind it, a new ticket closes at once if and only if the condition of `ReceiptSound` holds and the required hooks succeed |
| Workflow.DoneForever | integrations/workflow.py:323-417 | a done step stays done and its delete or hook is never called again |
| Workflow.CallsInOrder | integrations/workflow.py:243-321 | the calls of one advance come in the order of the steps: the delete, then the hooks |
| Workflow.DoneExactly | integrations/workflow.py:376-417 | in any run an optional step is done if and only if its hook was called and succeeded |
| Workflow.ClosedForever | integrations/workflow.py:243-254 | a complete ticket never changes and never calls anything |
| Workflow.PartialNeverCloses | integrations/workflow.py:323-356 | once a live delete has erased some ids, dropped their mappings and failed, no later advance completes the ticket |
| Workflow.WorkflowRunner.Advance | integrations/workflow.py:243-321 | one advance changes every step as specified, sets the status its steps call for, closes the ticket exactly under the condition of `ClosesExactly`, and calls exactly the steps that are allowed, in order and each once |
| Outbox.RunConserves | integrations/outbox.py:70-130 | in any run, requeues included, every envelope is in exactly one of pending, done and failed, and one that is done was delivered |
| Outbox.RunCounts | integrations/outbox.py:150-198 | without requeues an envelope has failed exactly when max_attempts of its dispatches failed, and has had fewer failures otherwise |
| Outbox.RoundExactly | integrations/outbox.py:150-198 | where each envelope is after a round: delivered, failed or pending with one attempt more and the message as its error, by its own reply; those not listed are untouched |
| Outbox.TotalsExactly | integrations/outbox.py:150-198 | the totals are the numbers of entries delivered, failed for good, and left for another attempt |
| Outbox.ErrorsExactly | integrations/outbox.py:150-198 | the errors are the messages of those left, in the order of the listing |
| Outbox.RequeueExactly | integrations/outbox.py:125-129 | a requeue moves one failed envelope back with its attempts and its error and touches nothing else |
| Outbox.PendingEmpties | integrations/outbox.py:150-198 | with no new work and no binding limit pending is empty after max_attempts rounds, whatever the dispatch function returns |
| Outbox.FileOutbox.DispatchPending | integrations/outbox.py:150-198 | each listed envelope is dispatched once and moved by its own reply; the totals are those of the replies, and everything adds up |

## Left out

- Floating point: distances are reals, so rounding, NaN and the square root are not modelled; stored vectors are bit patterns in `Snapshot` and real vectors elsewhere.
- Integer widths: labels, counters and transaction ids are unbounded except where a column of a file format bounds them.
- `load_index`, `attach_index`, `load_adjacency`, the move operations and `release_data`: assignments of whole fields.
- `structure_mu_`: it is taken shared by everything modelled here except loading.
- `std::sort`, `std::priority_queue` and dictionary order: a sorted list, a bag whose greatest element is popped, and an arbitrary order.
- Unlocked reads: the first-pass region snapshot and the one taken under a changed region may return anything in `LockProtocol`; `save_to_file` during a heal and the unlocked write of the entry point are not part of it.
- HnswIndex.Index.PruneAdjacency: sequential only, because the sweep writes nodes outside the region it locks.
- Locks.ExclusiveGuard.Acquire: a timeout is modelled as intended, everything rolled back and then reported; the code reads the released manager pointer for its message.
- HnswIndex.Index.SetNeighbors: a concurrent call with labels out of range, which only pads the slot, is not a step of `LockProtocol`.
- LockProtocol.NoDeadlock: about exclusive guards; a walker and a healer may wait for each other until one times out.
- Serializability.Serializable: asks for regions that still span the 2-hop neighbourhood, because the code does not recheck after the second acquisition (lines 692-699).
- Serializability.WritesProtected: asks for the same, and `StaleHealWritesUnlocked` is a run without it.
- ErasureSafety.RunSafe: asks for runs without half turns, which by `RunSimpleExactly` are those whose layers stay simple.
- Finer steps: a heal under concurrency is taken layer by layer; its single writes are covered by the stripes it holds.
- Liveness: which attempts are given up is a parameter; a search or a guard that nobody obstructs succeeds, and no thread of `LockProtocol` is ever stuck (`NeverStuck`), but nothing says that obstruction ends.
- Appends and the replacement of index.bin are atomic in `Persistence`; torn tails are treated in `Wal` only.
- Engine.PersistenceEngine.constructor: asks for a log that does not end in a torn record, because what is appended after one is lost (`TornTailHidesLaterRecords`).
- Loading a new index over an existing checkpoint is not a step of `Persistence`.
- `next_transaction_id`, the clock and the pauses between attempts: timestamps are parameters, and so is which locks an attempt gets and which flush works.
- SHA-256: any function with 32-byte results; the reserved bytes of a BEGIN are not looked at, as in the code.
- DualStore.RunRefines: asks for batches that satisfy the exact condition of `AddRefines`; `PaddedIdSurvives` and `ZeroVectorIsLost` show what happens otherwise; only the in-memory Qdrant client is modelled, one collection at a time.
- The fallback name of a label without an id in `hard_delete_label`: every row has a name once it has been added.
- ErasureService.Service.Delete: backend, compaction and residual proofs are an environment with arbitrary outcomes; strategy hints, metrics, signatures, the receipt log and byte counts of the residual proof are left out, and error texts are abbreviated.
- Workflow details and artifacts, persistence of tickets and metrics: only step and ticket statuses, the receipt and the calls are modelled.
- Outbox.PendingEmpties: for limits that do not bind; the order of the listing plays no part.
- HTTP routes, authentication, configuration, other vector stores, queue transports, key management, tenancy, the benchmark harness and packaging.
