# zkEVM prover: state storage and arithmetic, verified in Dafny

This project models the parts of the prover's state storage and finite-field arithmetic whose
correctness is not visible from any one function, and proves what they promise.

| part | files | what is proved |
|---|---|---|
| Sparse Merkle tree | `SmtKeys`, `SmtTree`, `SmtPath`, `Smt`, `SmtProof`, `SmtMeaning` | `set` and `get` on a content-addressed store are map update and lookup; the tree is canonical, its root a binding, history-free commitment; the siblings returned are proofs; mode, counts, saved and dead nodes follow from the map |
| State manager | `SubStates`, `StateManager`, `SmtRun`, `SmtWalk`, `SmtFlush`, `HashWitness` | sub-state chains, the exact meaning of the purge, exactly which runs a flush accepts and when it loses no live node |
| NAF and multi-exponentiation | `Naf`, `LinearSums`, `MultiExp` | the fast algorithms equal their one-line definitions over any abelian group |
| FFT | `BitReverse`, `Dft`, `Fft` | the in-place transform is the discrete Fourier transform, and the inverse inverts it |
| Curve points | `RingSolver`, `CurveLaw`, `Xyzz`, `Curve` | the XYZZ formulas are the chord-and-tangent law over any field |
| Asynchronous writes | `FlushProtocol`, `FlushProgress`, `MultiWrite` | durability, progress and visibility of writes and flush ids in every interleaving |
| Caches | `CacheRing`, `CacheValues`, `AssocCache`, `LruList`, `LruCache` | what the two caches keep, drop and return |

`Bits`, `Groups`, `Rings` and `Results` are shared vocabulary. `dafny verify dfyconfig.toml` checks
everything.

## How the model is built

* A field element is its canonical representative. Where 64-bit or 32-bit words wrap or are
  truncated, the model says so (`FromU64`, the bit operators of `Bits`, the entry numbers of the
  associative cache).
* The Poseidon hash is a parameter `H`. What is assumed of it is `CollisionFree`: no two rows have
  the same hash, and no row has the zero hash. Hash outputs are not bounded by the field, because
  only then can such a function exist; `HashWitness` gives one. A key is the four elements themselves,
  not their hexadecimal text.
* The database under the tree is a map with insert-if-absent whose operations may fail at any time,
  unless it is `reliable`: contracts that say when a call succeeds are about what happens when the
  database does not fail. Its own caches are modelled separately.
* Groups, rings and fields are given by their operations and laws. Laws are stated one instance at a
  time, so that a proof names the instances it uses; polynomial identities are decided by `RingSolver`.
* Parallel loops run in sequence. Where the thread matters (bucket accumulators, the root table) every
  iteration or every thread is chosen arbitrarily.
* Methods that exit the process in the source return a flag that says so.
* The write protocol is a state machine. An action is one critical section, or one step of the sender
  thread outside the lock; a failed transaction may or may not have been applied. The methods of
  `MultiWrite` are proved to be these actions.

## What turned out not to hold

* A purging flush can lose a live node when two leaves share one database row
  (`SmtFlush.SharedLeafIsLost`, `SmtFlush.LoseSharedLeaf`, `SmtFlush.LookUpLostKey`);
  `SmtFlush.FlushKeepsLiveNodesIff` says exactly when a flush loses none.
* A flush does not accept every run of `set` calls: a call that starts again from the starting root
  has no predecessor unless an earlier call led back there (`SmtWalk.NoCallBeforeIff`). The exact
  condition is `SmtWalk.RunAcceptedIff`. Repeating the first call of a run is enough to have it rejected
  (`SmtFlush.RepeatedCallIsRejected`).
* A write into an empty record of an existing transaction leaves the record's own old root as it was; a
  flush refuses the record unless that agrees (`SubStates.WriteOpensRecord`).
* `findNode` can miss a node that was switched to the storing buffer before any flush
  (`FlushProtocol.UnflushedNodeIsInvisible`, `NodesAreFoundIff`).
* The negative of an affine point, written to a point, is wrong for infinity
  (`Curves.Curve.NegFromAffine`), and `eq` takes a finite point to equal an infinity stored as all
  zeros (`Curves.Curve.Eq`).
* The query builder makes no progress on a row that fills a query by itself
  (`MultiWrites.FillQuery`, `MultiWrites.NeverPasses`).
* The stages of the transform are right only up to arrays of 2^30 elements (`Ffts.StageWidthExact`).
* Unused slots of the associative cache look live when the entry number reaches their marker
  (`CacheRings.UnusedSlotStaleIff`).
* A lookup in the associative cache can return an older value than the one its key was last updated to
  (`CacheValues.OldValueReturns`). It does not while the key has one entry, and an addition makes a
  second one exactly when it takes a stale slot although another slot leads to an entry that stays
  (`CacheValues.LatestIsFound`, `CacheValues.AddSoleIff`).

## Model

| member | source | states |
|---|---|---|
| `SmtKeys.SplitKey` | src/hashdb/smt.cpp:1002-1019 | The interleaving loop fills the 256 path bits: bit i is bit i/4 of element i%4. |
| `SmtKeys.RemoveKeyBitsLoop` | src/hashdb/smt.cpp:1054-1075 | The loop shifts each element by the number of path bits it has given. |
| `SmtKeys.JoinKeyLoop` | src/hashdb/smt.cpp:1025-1046 | The accumulation loop puts a key together from path bits and the remaining key, exactly as JoinKey says, reduction to canonical elements included. |
| `SmtKeys.JoinRemoveRoundTrip` | src/hashdb/smt.cpp:1025-1075 | For every canonical key and every m up to 256, joining the first m path bits with the remaining key gives the key back. |
| `SmtKeys.RemainingKeyInjective` | src/hashdb/smt.cpp:1054-1075 | Two keys with the same first m path bits and the same remaining key are the same key. |
| `SmtKeys.SplitKeyInjective` | src/hashdb/smt.cpp:1002-1019 | Different canonical keys have different paths. |
| `SmtKeys.DifferingBitExists` | src/hashdb/smt.cpp:271-272 | Two different keys that agree on their first m path bits differ at some later bit below 256, so the search for it ends. |
| `SmtKeys.ValueRoundTrip` | src/utils/scalar.hpp:66-214 | Every 256-bit value survives the split into eight 32-bit elements and back. |
| `SmtTree.NonEmptyHash` | src/hashdb/smt.cpp:64-160 | Only the empty tree has the zero hash, at every level: the walk stops at zero exactly for empty subtrees. |
| `SmtTree.LookupIsEntry` | src/hashdb/smt.cpp:847-958 | Walking a canonical tree for a key finds the value the tree's map holds, 0 if none. |
| `SmtTree.SplitCorrect` | src/hashdb/smt.cpp:257-405 | The chain of nodes for two keys that share a path is canonical and holds exactly the two leaves. |
| `SmtTree.PutWellFormed` | src/hashdb/smt.cpp:177-697 | Setting any key to any value keeps the canonical form: every intermediate node has two leaves below it, every leaf stands on its key's path. |
| `SmtTree.PutEntries` | src/hashdb/smt.cpp:177-697 | Setting a key changes the map of the tree at that key and nowhere else; value 0 removes it. |
| `SmtTree.TwoLeavesBelow` | src/hashdb/smt.cpp:520-669 | In canonical form every intermediate node has at least two leaves below it. |
| `SmtTree.CanonicalUnique` | src/hashdb/smt.cpp:520-669 | Canonical trees with the same key/value map are the same tree. |
| `SmtTree.HashUnique` | src/hashdb/smt.cpp:705-749 | Canonical trees with the same root hash are the same tree. |
| `SmtTree.RootIffSameMap` | src/hashdb/smt.cpp:705-749 | Two roots are equal if and only if their key/value maps are: the root does not depend on history, and it binds the map. |
| `SmtTree.PutsCommute` | src/hashdb/smt.cpp:177-697 | Sets on different keys give the same tree in either order. |
| `SmtTree.PutBackRestores` | src/hashdb/smt.cpp:177-697 | Setting a key back to what it held restores the original tree; insert followed by delete is the special case. |
| `SmtPath.PutIsClimb` | src/hashdb/smt.cpp:705-749 | In every mode the new tree is the old path, cut at the depth that mode chooses, with the mode's replacement at the cut and rebuilt upwards. |
| `SmtPath.DeleteRaises` | src/hashdb/smt.cpp:605-650 | Deleting one of two leaves raises the other to the level the climbing loop stops at. |
| `SmtPath.SetSavesNewRows` | src/hashdb/smt.cpp:177-749 | Every node the new root reaches was reachable from the old root or is saved by the call. |
| `Smts.Smt.HashSave` | src/hashdb/smt.cpp:1077-1117 | A row is stored under its hash, in the batch or in the database, and nothing else changes; a failed save changes nothing. |
| `Smts.Smt.Descend` | src/hashdb/smt.cpp:64-174 | The walk of `set` and `get` reads exactly the rows of the path and of the leaf it meets, and fails exactly when one of them is missing. |
| `Smts.Smt.Get` | src/hashdb/smt.cpp:804-1000 | `get` returns the value of the tree's map, the leaf that stands in the key's place, the rows of the path and how many rows it takes to check them; it fails exactly when a row of the walk is missing. |
| `Smts.Smt.GetUniqueSibling` | src/hashdb/smt.cpp:1139-1154 | Finds the only non-zero child hash of a row, or reports that there is not exactly one. |
| `Smts.Smt.SplitLoop` | src/hashdb/smt.cpp:257-387 | The insertFound branch: the leaf that was found moves down to the first differing bit, the new leaf joins it there, and the chain of nodes above is saved. |
| `Smts.Smt.RaiseLoop` | src/hashdb/smt.cpp:605-613 | The loop that climbs over levels with a single child stops where the raised leaf belongs. |
| `Smts.Smt.DeleteLeaf` | src/hashdb/smt.cpp:487-681 | The delete branches: the path, the replacement and the reported dead nodes of deleteFound, deleteNotFound and deleteLast. |
| `Smts.Smt.ApplyMode` | src/hashdb/smt.cpp:176-697 | All seven modes: which one is taken, what it saves and reports dead, the old value, the leaf it displaced. |
| `Smts.Smt.ClimbLoop` | src/hashdb/smt.cpp:699-749 | The climb saves the rebuilt row of every level, returns the new root, and reports every replaced node dead. |
| `Smts.Smt.Set` | src/hashdb/smt.cpp:10-802 | `set` returns the root of the updated canonical tree, in the mode the tree calls for, with the old value, the rows of the new path and the number of rows hashed; it records exactly the rows and deletions of that mode in one sub-state that leads from the old root to the new one; with the state manager, or a database that fails no call, it fails exactly when a row it needs is missing; a failed call loses nothing that was readable. |
| `SmtProof.ResultProves` | src/hashdb/smt.cpp:939-1000 | The siblings that `get` returns, hashed up from the leaf found or from nothing, give the root: they are a proof of the value, or of its absence. |
| `SmtProof.ProofDeterminesValue` | src/hashdb/smt.cpp:939-1000 | Any rows that hash up to the root determine the value of the key: no proof shows a value the tree does not hold. |
| `SmtProof.SetSiblingsHashUp` | src/hashdb/smt.cpp:699-790 | The siblings that `set` returns hash the subtree it put in place up to the new root. |
| `SmtProof.GetWithProof` | src/hashdb/smt.cpp:804-1000 | A successful `get` hands out such a proof. |
| `SmtMeaning.DepthIffCrowded` | src/hashdb/smt.cpp:64-174 | The walk goes on exactly as long as two keys of the map share the path bits walked so far. |
| `SmtMeaning.ModeFromMap` | src/hashdb/smt.cpp:176-697 | The mode of `set` from the key/value map alone: update when the key is there; insertFound or insertNotFound when it is not, by whether another key shares the bits of the walk; zeroToZero when an absent key is deleted; deleteLast when it is the only key; deleteFound or deleteNotFound by whether exactly one other key lies below the last node of the path. |
| `SmtMeaning.DisplacedFromMap` | src/hashdb/smt.cpp:257-690 | The leaf `set` reports besides its own is the one key that shares the bits of the walk, when the key is absent, or the one other key below the last node, when a deletion moves it up. |
| `SmtMeaning.CutIsShorterWalk` | src/hashdb/smt.cpp:699-790 | The rows `set` returns are those that the old and the new walk of the key both pass. |
| `SmtMeaning.ResultFromMap` | src/hashdb/smt.cpp:164-720 | The number of rows returned and of hashes counted, from the map before and the map after, in every mode. |
| `SmtMeaning.GetFromMap` | src/hashdb/smt.cpp:939-992 | What `get` shows besides the value, from the map alone: rows, hashes, and the one key that stands in an absent key's place. |
| `SmtMeaning.SetSavesOnlyNew` | src/hashdb/smt.cpp:177-749 | `set` saves rows of its new tree only. |
| `SmtMeaning.DeadExactly` | src/hashdb/smt.cpp:219-749 | `set` reports dead exactly the nodes of the old path, below the root, in whose place the new path has another node or none; a leaf pushed down by an insertion and the nodes a raised leaf passes are not reported. |
| `SmtRun.SetRefinesMapUpdate` | src/hashdb/smt.cpp:10-802 | `set` refines map update: the new root stands for the updated map, it is readable in full, and every tree that was readable before still is. |
| `SmtRun.SetThenGet` | src/hashdb/smt.cpp:10-990 | On a tree that is readable in full `set` succeeds unless the database fails; then `get` at the new root finds the updated map for every key, and at the old root the map as it was. A direct `set` that changed the root leaves the new one as the state root of the database; otherwise the state root stays. |
| `SmtRun.ReadableIsWalkable` | src/hashdb/smt.cpp:845-934 | A tree whose rows are all stored can be walked for every key. |
| `StateManagers.StateManager.SetStateRoot` | src/hashdb/state_manager.cpp:11-172 | An old root opens a sub-state exactly when the record is ready for one, a new root completes it exactly when one is open; otherwise an error, and the record is unchanged. The batch takes the root as its current one, is created only by an old root, and makes a new transaction current. The chain invariant (current sub-state last, predecessors earlier) is kept, no other record is touched. |
| `StateManagers.StateManager.Write` | src/hashdb/state_manager.cpp:174-249 | A write goes to the current sub-state and to the common pool of the batch; batch, transaction and sub-state are found or created as the code does; errors change nothing. |
| `StateManagers.StateManager.DeleteNode` | src/hashdb/state_manager.cpp:251-331 | A deletion is appended to the current sub-state, and fails exactly when there is none. |
| `StateManagers.StateManager.Read` | src/hashdb/state_manager.cpp:333-384 | Reads see every row written in the batch. |
| `StateManagers.StateManager.SemiFlush` | src/hashdb/state_manager.cpp:391-493 | A semi-flush rewinds the current record to the given root as `SubStates.RewindKeepsExactly` says, with the purge, and changes nothing else. |
| `SubStates.SubStatesAlternate` | src/hashdb/state_manager.cpp:84-166 | Opening and completing alternate: only a record without an open sub-state can open one, and every sub-state but the last has its new root. |
| `SubStates.RewindKeepsExactly` | src/hashdb/state_manager.cpp:444-484 | A rewind of a linear record keeps everything when it ends at the root already, nothing when it started there, otherwise everything up to the sub-state that first led there; a root the record never passed changes nothing. |
| `SubStates.WriteOpensRecord` | src/hashdb/state_manager.cpp:205-228 | A write opens an empty record at the current root of the batch; a flush accepts it, once it has its new root, exactly when the write created the transaction too or the record's old root agrees. |
| `StateManagers.WriteAndRewind` | src/hashdb/state_manager.cpp:11-493 | Opening, writing and rewinding to the start leaves the record empty with the purge, and the batch still reads the row. |
| `StateManagers.WriteElsewhere` | src/hashdb/state_manager.cpp:174-249 | A write to another persistence of the same transaction opens that record at the same root. |
| `SubStates.RewindKeepsLinear` | src/hashdb/state_manager.cpp:444-484 | Rewinding a linear chain to a root it passed leaves a consistent chain from the old root to that root. |
| `SubStates.ChainLinked` | src/hashdb/state_manager.cpp:585-655 | The backtracking visits a linked chain that ends at the current sub-state. |
| `SubStates.LinearChain` | src/hashdb/state_manager.cpp:585-655 | Without rewinds the backtracking visits every sub-state. |
| `StateManagers.StateManager.MarkLoop` | src/hashdb/state_manager.cpp:601-655 | The backtracking loop terminates, marks exactly the chain, and fails exactly when a predecessor is missing or the first sub-state does not start at the old root. |
| `StateManagers.StateManager.EraseLoop` | src/hashdb/state_manager.cpp:657-668 | What is left are the marked sub-states that changed the root, in order. |
| `SubStates.SurvivorsExactly` | src/hashdb/state_manager.cpp:657-668 | Exactly the visited sub-states that changed the root survive. |
| `StateManagers.StateManager.PruneLoop` | src/hashdb/state_manager.cpp:670-686 | The in-place triple loop drops a row exactly when a later sub-state deletes its key. |
| `SubStates.PurgeExact` | src/hashdb/state_manager.cpp:672-715 | A key is pushed if and only if a surviving sub-state wrote it and no later surviving one deletes it. |
| `SubStates.FlushedExact` | src/hashdb/state_manager.cpp:585-715 | The same for a whole purging flush of one record. |
| `SubStates.SurvivingChainUnbroken` | src/hashdb/state_manager.cpp:585-668 | After a first purging flush the survivors lead from the old root to the new root without a gap, although root-preserving sub-states were dropped. |
| `StateManagers.StateManager.FlushRecord` | src/hashdb/state_manager.cpp:564-760 | One record: checked, marked, purged, pushed; it is refused exactly when it is inconsistent, and then the database is left alone; a flushed one adds exactly its purged rows and sets its root; it fails only when the database does. |
| `StateManagers.StateManager.PurgeTxs` | src/hashdb/state_manager.cpp:538-562 | With the option on, a final root, the database persistence and some transaction that ended at that root, what is kept is the transactions up to the last such one; otherwise all of them. |
| `StateManagers.StateManager.Flush` | src/hashdb/state_manager.cpp:495-780 | The whole flush. Where every record has its new root, it succeeds only if all retained records pass the checks, refuses (and keeps the batch) only if one does not, and returns a database error only if the database fails. On success the database has gained the pushes of all retained transactions in order and the last root, which is the root flushed to when later transactions were dropped and the last one kept has sub-states; and the batch is forgotten. Other batches are untouched, and whatever the outcome, no row of the database is lost or overwritten. |
| `SmtRun.SetAddsStep` | src/hashdb/smt.cpp:10-802 | Each `set` of a run appends exactly one unmarked sub-state, its own step from the old to the new tree; opened on top of the one before it; the record's roots are those of the whole run. |
| `SmtRun.ReadableIsSettable` | src/hashdb/smt.cpp:64-174 | In a tree that is readable in full every `set` finds all the rows it needs. |
| `SmtRun.Run` | src/hashdb/smt.cpp:10-802 | A run of `set` calls, each from the starting root or any root reached since, never fails; every root stands for its tree, every tree of the run is readable in full, and the record holds exactly the steps of the run. |
| `SmtFlush.PushedIff` | src/hashdb/state_manager.cpp:672-715 | A key is pushed if and only if it was written and every deletion of it has a write at or after it. |
| `SmtFlush.ChainWritesNodes` | src/hashdb/state_manager.cpp:585-668 | Every node of the last tree of a surviving chain is in the first tree or was written on the way. |
| `SmtFlush.FlushKeepsLiveNodesIff` | src/hashdb/state_manager.cpp:585-715 | Exactly when a first purging flush loses no node the final root reaches: every such node that a surviving sub-state reports dead was stored before or is written by that sub-state or a later one. |
| `SmtFlush.FlushWithoutPurgeKeepsLiveNodes` | src/hashdb/state_manager.cpp:657-715 | A flush that does not purge loses none. |
| `SmtFlush.FlushKeepsLiveNodes` | src/hashdb/state_manager.cpp:585-715 | In particular none is lost if no surviving step reported a node dead that its own result still reaches. |
| `SmtFlush.OnePositionIsClean` | src/hashdb/smt.cpp:219-244 | A step is of that kind whenever no node hash occurs at two positions of its two trees. |
| `SmtFlush.FlushOfRunKeepsLiveNodes` | src/hashdb/state_manager.cpp:585-715 | The record of a run of `set` calls in which no hash occurs at two positions is flushed without losing a node the final root reaches. |
| `SmtFlush.BatchKeepsLiveNodesIff` | src/hashdb/state_manager.cpp:564-760 | A batch of transactions, each starting from the tree the one before ended in: every one of these trees is stored in full if and only if no transaction does harm. |
| `SmtFlush.BatchKeepsLiveNodes` | src/hashdb/state_manager.cpp:564-760 | Then the database holds every node of the last tree. |
| `SmtWalk.NoCallBeforeIff` | src/hashdb/state_manager.cpp:624-652 | A call of a run has no sub-state to go back to exactly when it starts again from the starting tree and no call before it led back there. |
| `SmtWalk.AllWalkBackIff` | src/hashdb/state_manager.cpp:601-655 | Every call of a run walks back to the first one exactly when no call starts over in that way. |
| `SmtWalk.GoingOnWalksBack` | src/hashdb/state_manager.cpp:601-655 | A run in which each later call goes on from a root some call led to walks back to its first call. |
| `SmtWalk.StartingOverIsStuck` | src/hashdb/state_manager.cpp:633-652 | The walk is stuck at a call that starts over. |
| `SmtWalk.ChainIff` | src/hashdb/state_manager.cpp:601-655 | The backtracking over recorded roots succeeds exactly where the walk over the trees of the run does. |
| `SmtWalk.RunAcceptedIff` | src/hashdb/state_manager.cpp:585-655 | A flush accepts the record of a run of `set` calls if and only if the walk from its last call reaches the first. |
| `SmtFlush.FlushedHonest` | src/hashdb/state_manager.cpp:657-715 | A purging flush sends every row under its own hash. |
| `SmtFlush.RunAndFlush` | src/hashdb/state_manager.cpp:495-780 | On the classes: a run of `set` calls in a batch of its own and a purging flush. Unless the database fails, the flush succeeds exactly when the walk over the trees of the run reaches its first call. On success the database has the final root, every row under its hash, and it serves the final tree in full exactly when no harm was done; without hashes at two positions always. |
| `SmtFlush.SharedLeafIsLost` | src/hashdb/state_manager.cpp:672-715 | The record of three calls that a flush accepts and of which it does not push a node the final root reaches: two leaves share one row, the update of one deletes it. |
| `SmtFlush.LoseSharedLeaf` | src/hashdb/state_manager.cpp:495-780 | On the classes: these three calls and a purging flush into an empty database. It succeeds unless the database fails, and then the database has the final root but not that node. |
| `SmtFlush.LookUpLostKey` | src/hashdb/state_manager.cpp:495-780 | The same from nothing, with a database that fails no call: the flush succeeds, and a `get` at the final root fails for a key that is in the final tree. |
| `SmtFlush.RepeatedCallIsRejected` | src/hashdb/state_manager.cpp:624-637 | A flush rejects the record of a run that repeats its first call, although two of its sub-states lead from the old root to the new one. |
| `HashWitness.PackRowCollisionFree` | src/hashdb/smt.cpp:1077-1085 | The assumption on the hash (no collisions, never zero) is satisfiable. |
| `Naf.Step` | src/ffiasm/naf.cpp:9-45 | One step of the digit state machine: the value still owed changes by exactly the digit it emits. |
| `Naf.BuildNafTable` | src/ffiasm/naf.cpp:5-51 | Each of the 1024 entries holds eight digits and the next state that are right for every byte, carry and last bit. |
| `Naf.BuildNaf` | src/ffiasm/naf.cpp:55-74 | The digits sum to the scalar, no two adjacent ones are non-zero, and all from index 8·size+1 on are zero, for every scalar of at least one byte. |
| `Naf.NafMulByScalar` | src/ffiasm/exp.hpp:7-28 | Double-and-add/subtract over the digits returns scalar · base in every abelian group. |
| `MultiExp.GetChunkIsChunk` | src/ffiasm/multiexp.c.hpp:22-34 | The clamped 64-bit read returns the c-th chunk of the scalar, including the last, shorter one. |
| `MultiExp.ParallelMultiexp.ProcessChunk` | src/ffiasm/multiexp.c.hpp:36-48 | For every assignment of iterations to threads, the accumulators together hold each base at the weight of its digit. |
| `MultiExp.ParallelMultiexp.PackThreads` | src/ffiasm/multiexp.c.hpp:66-77 | Each accumulator of the first block becomes the sum over all threads of the accumulators of its index, the other blocks are zero, and the weighted sum is unchanged. |
| `MultiExp.ParallelMultiexp.FoldHalves` | src/ffiasm/multiexp.c.hpp:79-104 | Folding the upper half onto the lower keeps the weighted sum, for every thread split, and clears the upper half. |
| `MultiExp.ParallelMultiexp.Reduce` | src/ffiasm/multiexp.c.hpp:79-112 | Returns the sum of i · accs[i] over all i below 2^nBits, for every nBits >= 1, and leaves those accumulators zero. |
| `MultiExp.ParallelMultiexp.Horner` | src/ffiasm/multiexp.c.hpp:145-158 | Doubling and adding from the highest chunk combines the chunk results with their powers of two. |
| `MultiExp.ParallelMultiexp.Multiexp` | src/ffiasm/multiexp.c.hpp:114-161 | Equals the sum of scalar · base over any abelian group, for every n, every scalar size of at least 8 and every thread count. |
| `BitReverse.BrReversesBits` | src/ffiasm/fft.c.hpp:20-27 | `BR` reverses the low domainPow bits and clears the others. |
| `BitReverse.BrInvolution` | src/ffiasm/fft.c.hpp:20-27 | Reversing twice gives the index back. |
| `BitReverse.BitReversedAt` | src/ffiasm/fft.c.hpp:158-170 | `BR` indexes the even-odd permutation of a sequence of 2^k elements. |
| `Dfts.DftIsSum` | src/ffiasm/fft.c.hpp:173-195 | Entry i of the transform is the sum of a[j] · w^(i·j). |
| `Dfts.CombineDft` | src/ffiasm/fft.c.hpp:178-194 | The transforms of the even and odd entries, combined by butterflies, are the transform of the whole. |
| `Dfts.ButterfliesComputeDft` | src/ffiasm/fft.c.hpp:173-195 | All levels of butterflies after bit reversal compute the transform. |
| `Dfts.DftTwice` | src/ffiasm/fft.c.hpp:197-212 | Transforming twice multiplies by n and sends index m to -m. |
| `Dfts.InverseUndoesDft` | src/ffiasm/fft.c.hpp:197-212 | Transform, index reversal and scaling undo the transform, for every power of two including 1 and 2. |
| `Dfts.DftUndoesInverse` | src/ffiasm/fft.c.hpp:197-212 | The transform undoes the inverse. |
| `Dfts.HalvesDivide` | src/ffiasm/fft.c.hpp:107-109 | The k-th power of one half divides by 2^k. |
| `Ffts.Log2` | src/ffiasm/fft.c.hpp:8-17 | The halving loop returns the floor of the logarithm. |
| `Ffts.FindNonResidue` | src/ffiasm/fft.c.hpp:52-57 | The search ends at the first non-residue from two on. |
| `Ffts.EulerCriterion` | src/ffiasm/fft.c.hpp:52-57 | A non-residue to the power (q-1)/2 is minus one. |
| `Ffts.SplitOrder` | src/ffiasm/fft.c.hpp:61-71 | The loop splits powers of two off q - 1 and ends short of the domain exactly when 2^domainPow does not divide q - 1. |
| `Ffts.Fft.Create` | src/ffiasm/fft.c.hpp:29-117 | Construction fails exactly when the domain is too big for the field; otherwise the tables are valid for it. |
| `Ffts.Fft.constructor` | src/ffiasm/fft.c.hpp:73-117 | The root table holds the powers of a root w with w^(2^(s-1)) = -1, the last of which closes the circle, and the other table the powers of one half. |
| `Ffts.Fft.FillRoots` | src/ffiasm/fft.c.hpp:88-102 | The table is right for every thread count and every order of the threads, including parts that start at 0 or are empty. |
| `Ffts.Fft.ReversePermutation` | src/ffiasm/fft.c.hpp:158-170 | The in-place exchanges produce the bit-reversed sequence. |
| `Ffts.StageWidthExact` | src/ffiasm/fft.c.hpp:178-179 | The 32-bit shift that gives the width of a stage is right exactly up to stage 30; at stage 31 the first butterfly would leave the array. |
| `Ffts.Fft.Stage` | src/ffiasm/fft.c.hpp:178-194 | One stage applies every butterfly of its width exactly once, in place, with the table's twiddle factors. |
| `Ffts.StageDoublesBlocks` | src/ffiasm/fft.c.hpp:178-194 | A stage turns finished blocks into finished blocks of twice the size. |
| `Ffts.Fft.FftInPlace` | src/ffiasm/fft.c.hpp:173-195 | The array ends up holding the discrete Fourier transform of what it held. |
| `Ffts.Fft.IfftInPlace` | src/ffiasm/fft.c.hpp:197-212 | The array ends up holding the scaled, index-reversed transform. |
| `Ffts.Fft.RoundTrip` | src/ffiasm/fft.c.hpp:173-212 | `ifft` after `fft` restores every array. |
| `Ffts.Fft.ReverseRoundTrip` | src/ffiasm/fft.c.hpp:173-212 | `fft` after `ifft` restores every array. |
| `CurveLaws.LineMeetsCurve` | src/ffiasm/curve.c.hpp:69-80 | The mirrored third point of a line that meets the curve twice lies on the curve. |
| `CurveLaws.SumOnCurve` | src/ffiasm/curve.c.hpp:69-80 | The affine chord-and-tangent sum of two points of the curve is on the curve, in every case. |
| `CurveLaws.OriginNotOnCurve` | src/ffiasm/curve.c.hpp:534-537 | (0, 0), which stands for infinity in affine form, is a point of the curve if and only if b = 0. |
| `XyzzPoints.ChordIsSum` | src/ffiasm/curve.c.hpp:69-158 | The addition formula on different points keeps ZZ³ = ZZZ² and stands for their affine sum; for inverse points it gives ZZ = 0. |
| `XyzzPoints.TangentIsDouble` | src/ffiasm/curve.c.hpp:320-396 | The doubling formula keeps ZZ³ = ZZZ² and stands for the affine double; for points of order two it gives ZZ = 0. |
| `XyzzPoints.DifferencesVanish` | src/ffiasm/curve.c.hpp:130-130 | The test for equal points is exact. |
| `Curves.Curve.constructor` | src/ffiasm/curve.c.hpp:28-57 | The kind of the coefficient a is recorded so that the shortcut for multiplying by it is right. |
| `Curves.Curve.MulByA` | src/ffiasm/curve.c.hpp:60-67 | The shortcut multiplies by a in all four cases. |
| `Curves.Curve.Add` | src/ffiasm/curve.c.hpp:88-158 | Point plus point is the affine sum in every branch, also when the result overwrites either operand or both. |
| `Curves.Curve.AddMixed` | src/ffiasm/curve.c.hpp:182-248 | Point plus affine point is the affine sum in every branch. |
| `Curves.Curve.AddAffine` | src/ffiasm/curve.c.hpp:263-319 | Affine plus affine is the affine sum in every branch. |
| `Curves.Curve.Dbl` | src/ffiasm/curve.c.hpp:337-394 | Doubling is the affine double, also in place, for every kind of a. |
| `Curves.Curve.DblAffine` | src/ffiasm/curve.c.hpp:408-456 | Doubling an affine point is the affine double. |
| `Curves.Curve.Eq` | src/ffiasm/curve.c.hpp:459-491 | The comparison is that of the affine points, except that a finite first operand also equals an infinity written as (0, 0, 0, 0). |
| `Curves.Curve.CopyFromAffine` | src/ffiasm/curve.c.hpp:547-560 | An affine point becomes a point of the same value. |
| `Curves.Curve.CopyToAffine` | src/ffiasm/curve.c.hpp:562-574 | A point becomes an affine point of the same value if and only if it is not the finite point (0, 0). |
| `Curves.Curve.NegPoint` | src/ffiasm/curve.c.hpp:582-588 | The negative stands for the mirrored affine point. |
| `Curves.Curve.NegFromAffine` | src/ffiasm/curve.c.hpp:590-596 | The negative of an affine point as a point is right if and only if the point is not infinity: there is no test for it. |
| `Curves.Curve.NegAffine` | src/ffiasm/curve.c.hpp:613-617 | The negative of an affine point, in affine form, is the mirrored point, infinity included. |
| `Curves.AdditionStaysOnCurve` | src/ffiasm/curve.c.hpp:88-158 | Results of additions stay on the curve and, where b is not 0, never collide with the affine form of infinity. |
| `FlushProtocol.InitialInv` | src/hashdb/multi_write.cpp:7-23 | The initial indices and empty buffers satisfy the protocol invariant. |
| `FlushProtocol.StepKeepsInv` | src/hashdb/database.cpp:1770-1853 | Every critical section and every step of the sender outside the lock keeps the invariant: indices, ids, buffer contents, what is queued, sent, stored. |
| `FlushProtocol.RunKeepsInv` | src/hashdb/database.cpp:1279-1853 | So does every interleaving of writers, flushes and the sender, with failures, resumptions, idle wake-ups and time-outs. |
| `FlushProtocol.StoredIdMonotoneInRuns` | src/hashdb/database.cpp:1505-1853 | In every run the stored flush id never decreases and never exceeds the last one. |
| `FlushProtocol.FlushIsDurable` | src/hashdb/database.cpp:1279-1853 | Once the stored id reaches the id of a flush, at whatever later time, every node and program written before it is in the database, and its state root is the last one written before it or a later one. |
| `FlushProtocol.DatabaseOnlyGrows` | src/hashdb/database.cpp:1379-1530 | No row of the database is ever removed or overwritten. |
| `FlushProtocol.WritersTouchOnlyPending` | src/hashdb/database.cpp:731-757 | Writers and flushes change only the pending buffer, which is never the one being sent nor the one read for synchronization. |
| `FlushProtocol.SynchronizedBufferWasSent` | src/hashdb/database.cpp:1830-1838 | When the synchronizing index advances it points at the buffer that was sent, and that is in the database. |
| `FlushProtocol.RunKeepsAddressed` | src/hashdb/database.cpp:731-757 | If every key is written with its one value, every buffer, query and table holds that value in every run. |
| `FlushProtocol.ProgramsAreFound` | src/hashdb/multi_write.cpp:133-200 | In every reachable state a written program is found with its value, or is in the database with its value. |
| `FlushProtocol.NodesAreFoundIff` | src/hashdb/multi_write.cpp:35-131 | All written nodes are visible if and only if the flush ids differ or the storing buffer has nothing that is missing from the database and the pending buffer. |
| `FlushProtocol.NodesAreFoundWhenIdle` | src/hashdb/multi_write.cpp:93-126 | Whenever no send is in progress every written node is found or stored. |
| `FlushProtocol.SwitchLeavesIdsEqualIff` | src/hashdb/database.cpp:1770-1838 | When the ids of that guard can agree during a send: a wake-up that switches the buffers leaves them equal if and only if no flush was outstanding. |
| `FlushProtocol.IdsStayDuringSend` | src/hashdb/database.cpp:1505-1555 | Until the confirmation nothing else moves them. |
| `FlushProtocol.UnflushedNodeIsInvisible` | src/hashdb/multi_write.cpp:93-126 | A run of two actions after which a written node is neither found nor stored: the sender times out and switches it before any flush. |
| `FlushProgress.RoundConfirms` | src/hashdb/database.cpp:1745-1853 | A round of the sender in which no query fails confirms the flush it resumes, or every flush requested before it, whatever the writers do in between. |
| `FlushProgress.RoundDrains` | src/hashdb/database.cpp:1745-1853 | Such a round leaves nothing to resume. |
| `FlushProgress.TwoRoundsConfirm` | src/hashdb/database.cpp:1745-1853 | Two such rounds confirm every flush requested before the second. |
| `FlushProgress.RoundExists` | src/hashdb/database.cpp:1745-1853 | From every reachable state in which the sender waits it can complete such a round. |
| `FlushProgress.EveryFlushCanBeConfirmed` | src/hashdb/database.cpp:1745-1853 | So every flush can be confirmed. |
| `FlushProgress.SemiFlushAccepts` | src/hashdb/database.cpp:1319-1335 | A semi-flush empties the in-tray and loses no row; a row accepted before keeps its value. |
| `FlushProgress.SemiFlushKeepsLookups` | src/hashdb/multi_write.cpp:35-200 | It changes no lookup, unless a malformed row of the key was accepted before. |
| `MultiWrites.MultiWriteData.AcceptIntray` | src/hashdb/multi_write_data.hpp:49-73 | Merging the in-tray keeps rows that are there already and empties the in-tray. |
| `MultiWrites.MultiWriteData.IsEmpty` | src/hashdb/multi_write_data.hpp:40-47 | Empty means no rows, accepted or not, and no state root. |
| `MultiWrites.Database.constructor` | src/hashdb/multi_write.cpp:7-23 | Starts in the initial state of the protocol. |
| `MultiWrites.Database.WriteRemote` | src/hashdb/database.cpp:731-757 | Is the write action of the protocol. |
| `MultiWrites.Database.UpdateStateRoot` | src/hashdb/database.cpp:864-897 | Is the state root action. |
| `MultiWrites.Database.Flush` | src/hashdb/database.cpp:1279-1317 | Is the flush action, and returns the ids it promises. |
| `MultiWrites.Database.SemiFlush` | src/hashdb/database.cpp:1319-1335 | Is the semi-flush action. |
| `MultiWrites.Database.FindProgram` | src/hashdb/multi_write.cpp:133-200 | Searches the buffers in the order the protocol states. |
| `MultiWrites.Database.FindNode` | src/hashdb/multi_write.cpp:35-131 | The same, with the guard on the flush ids. |
| `MultiWrites.Database.SenderTurn` | src/hashdb/database.cpp:1770-1820 | The locked part of the sender loop is the wake action in all its branches. |
| `MultiWrites.FillQuery` | src/hashdb/database.cpp:1397-1428 | One INSERT: the last query takes rows until their text, separators included, reaches the limit, and is full exactly then; other queries stay; no progress is made if and only if the first row fills it. |
| `MultiWrites.PackRows` | src/hashdb/database.cpp:1386-1465 | Every row of a table ends up in some query, for every row order and query size that no single row fills, and every query but the last is full. |
| `MultiWrites.NeverPasses` | src/hashdb/database.cpp:1386-1465 | A row that does not fit a query of its own is never passed: the packing loop ends exactly when there is none. |
| `MultiWrites.BuildQueries` | src/hashdb/database.cpp:1384-1485 | The queries hold exactly the accepted rows and the state root, and every query but the last is full. |
| `MultiWrites.Database.ExecuteQuery` | src/hashdb/database.cpp:1505-1526 | One transaction, with its failure before or after the commit, is the execute or fail action. |
| `MultiWrites.Database.SenderRound` | src/hashdb/database.cpp:1745-1853 | A whole round of the sender thread is a run of the protocol; it fails only when a query does, and otherwise confirms the flush it resumes, or every flush so far. |
| `AssocCaches.SizesFitIff` | src/hashdb/database_associative_cache.cpp:38-70 | The 32-bit sizes of the tables are right exactly for at most 31 key bits and 2^28 entries. |
| `AssocCaches.DatabaseMTAssociativeCache.constructor` | src/hashdb/database_associative_cache.cpp:46-102 | The empty cache, with both masks one less than their table sizes. |
| `AssocCaches.DatabaseMTAssociativeCache.AddKeyValue` | src/hashdb/database_associative_cache.cpp:104-226 | Updates the arrays as Add says, and fails exactly when Add does. |
| `AssocCaches.DatabaseMTAssociativeCache.ForcedInsertion` | src/hashdb/database_associative_cache.cpp:228-285 | The recursive displacement in place is the chain of Force, exits included. |
| `AssocCaches.DatabaseMTAssociativeCache.FindKey` | src/hashdb/database_associative_cache.cpp:287-327 | Returns what Find says and changes only the statistics. |
| `CacheRings.UnusedSlotStaleIff` | src/hashdb/database_associative_cache.cpp:62-70 | An unused slot reads as stale exactly until the entry number reaches its marker, and at the last number before wrapping. |
| `CacheRings.ForceLosesNothing` | src/hashdb/database_associative_cache.cpp:228-285 | Through the whole displacement chain every live entry stays reachable, and the new one becomes reachable. |
| `CacheRings.ChoiceIsLeast` | src/hashdb/database_associative_cache.cpp:249-280 | The slot chosen is the first stale one; with no stale one, the first that holds the least number the chain has not used; none exactly when all four are used. |
| `CacheRings.ForceLink` | src/hashdb/database_associative_cache.cpp:228-285 | One link of the displacement chain, without naming the search: a stale slot ends it, else the least unused number is next, and the process exits after ten entries or when none is left. |
| `CacheRings.ForceFailsOnly` | src/hashdb/database_associative_cache.cpp:235-280 | The insertion fails only after ten entries, or at an entry without a stale slot all of whose slots hold numbers the chain has used. |
| `CacheRings.WrittenEntry` | src/hashdb/database_associative_cache.cpp:154-180 | Writing an entry puts its key, its value filled up with zeros to 12 elements, and whether it had them, in its place and changes nothing else. |
| `CacheRings.FreeSlotEndsChain` | src/hashdb/database_associative_cache.cpp:252-261 | The process does not exit while the entry at hand has a stale slot. |
| `CacheRings.AddKeepsValid` | src/hashdb/database_associative_cache.cpp:104-226 | Each addition takes at most one entry number and keeps the index table valid until the marker of unused slots is reached. |
| `CacheRings.AddFinds` | src/hashdb/database_associative_cache.cpp:104-226 | The added key is findable afterwards. |
| `CacheRings.AddLosesOnlyTheOverwritten` | src/hashdb/database_associative_cache.cpp:104-226 | Every findable key stays findable unless its ring entry is the one that was overwritten. |
| `CacheRings.AddsKeepFound` | src/hashdb/database_associative_cache.cpp:104-285 | After any number of additions a key is still found through its entry while fewer entries than the ring holds have been written since. |
| `CacheRings.FindIffFindable` | src/hashdb/database_associative_cache.cpp:287-327 | A lookup hits exactly the findable keys. |
| `CacheRings.EveryHitIsRight` | src/hashdb/database_associative_cache.cpp:104-327 | If each key is always added with one value, every hit after any run returns it, padded to 12 elements. |
| `CacheValues.AddKeepsOrderly` | src/hashdb/database_associative_cache.cpp:104-285 | Every live entry is led to from slots of its own key only, through the displacement chain too. |
| `CacheValues.AddThenFind` | src/hashdb/database_associative_cache.cpp:104-327 | A lookup of the key just added returns its value; without update, a key that a slot already led to keeps the value it had. |
| `CacheValues.AddSoleIff` | src/hashdb/database_associative_cache.cpp:115-155 | An addition leaves a lookup one entry of its key to come to, exactly when it does not take a stale slot while another slot leads to an older entry that stays. |
| `CacheValues.LatestIsFound` | src/hashdb/database_associative_cache.cpp:104-327 | From the empty cache on, every hit returns the value its key was last added with, as long as the additions of the key update and write no second entry of it. |
| `CacheValues.OldValueReturns` | src/hashdb/database_associative_cache.cpp:104-327 | Seven additions with update after which a lookup returns the value of the fourth although the sixth was of the same key. |
| `LruCaches.DatabaseCache.FindKey` | src/hashdb/database_cache.cpp:79-110 | A hit moves the record to the front, a miss changes nothing; list, map, order and sizes stay in step. |
| `LruCaches.DatabaseCache.Splice` | src/hashdb/database_cache.cpp:90-107 | The pointer operations, for first, middle and last neighbours. |
| `LruCaches.DatabaseCache.PushFront` | src/hashdb/database_cache.cpp:40-56 | A new record becomes the head. |
| `LruCaches.DatabaseCache.DropLast` | src/hashdb/database_cache.cpp:58-74 | The last record leaves list, map and size account. |
| `LruCaches.DatabaseCache.Evict` | src/hashdb/database_cache.cpp:58-74 | Exactly the records the budget has no room for are dropped from the end. |
| `LruCaches.DatabaseCache.AddKeyValue` | src/hashdb/database_cache.cpp:11-77 | The list afterwards and the returned flag, in all branches; the list, the map and the size account agree. |
| `LruCaches.DatabaseCache.Clear` | src/hashdb/database_cache.cpp:140-159 | Everything is forgotten. |
| `LruLists.EvictedIsLongestFit` | src/hashdb/database_cache.cpp:58-74 | Eviction keeps the longest prefix that fits the budget, and at least one record. |
| `LruLists.InsertionFits` | src/hashdb/database_cache.cpp:54-74 | An insertion keeps the longest prefix of the new record and the old list that fits the budget, and at least the new record. |
| `LruLists.AddedValues` | src/hashdb/database_cache.cpp:24-35 | A cached key keeps its first value unless updated, a new one has the value added, every other keeps its value or is dropped. |
| `LruLists.CachedValue` | src/hashdb/database_cache.cpp:11-113 | After any operations a cached key has the value of its last insertion, or of the last update since. |
| `LruLists.FoundKeepsValues` | src/hashdb/database_cache.cpp:79-110 | A lookup changes no value. |
| `LruLists.HoldsMostRecent` | src/hashdb/database_cache.cpp:11-159 | After any operations the list holds the most recently used keys, in the order of their last use. |

## Left out

- PostgreSQL, the connection pool, the gRPC services, remote reads, configuration, logging, timers: plumbing around the modelled parts.
- `src/hashdb64`: a near copy of `src/hashdb`, without the transaction purge.
- Poseidon and the assembly field primitives: parameters with the laws they are meant to have. `Field.exp` is the power function.
- SmtKeys.JoinKeyLoop: a path longer than 256 bits is not modelled, no caller has one.
- Smts.Smt.Set: the read log is not modelled. Popping the consumed-bits vector when it is empty is skipped; its value is never used there.
- Smts.Smt.Set: without the state manager a failing database can leave some rows of the call behind; which ones is not claimed, only that nothing is lost.
- Persistence is a number below three; the string form of state roots and its normalization are not modelled.
- StateManagers.StateManager.Flush: of the database after a failed flush only that no row is lost or overwritten. A failed flush keeps the batch with its sub-states erased but the current index unchanged, as the source does, so the chain invariant is not promised afterwards.
- StateManagers.StateManager.Flush: a record that never got its new root returns whatever code the last call left; the model leaves that code open.
- SmtFlush.FlushKeepsLiveNodesIff: covers the first flush of a record; sub-states marked by an earlier, failed flush stay marked in the source.
- MultiExp.ParallelMultiexp.Multiexp: scalars are byte strings of one size; the variant that filters bases by an index list is not modelled. The floating-point logarithm that chooses the chunk size is the mathematical one.
- Ffts.Fft.FftInPlace: arrays of up to 2^30 elements; beyond that the source leaves the array (see StageWidthExact). The source aborts on a length that is not a power of two; the model requires one.
- Ffts.Fft.Create: that the order is an odd prime enters as the facts used (Fermat's theorem, no zero divisors, a non-residue exists). The commented-out threaded permutation is not modelled.
- Curves.Curve.Add: associativity of the law, and with it that points form a group, is not proved. The overloads that go through a temporary, `sub`, the remaining `neg` and `eq` overloads and operation counters follow from the modelled ones.
- FlushProtocol.RunKeepsInv: multi-write mode, not read-only; flush ids do not wrap at 64 bits; the delivery of synchronization data to `getFlushData` is not modelled. The UPDATE of the state root assumes its row exists.
- MultiWrites.PackRows: rows that fill a query by themselves are excluded, because the loop never ends on them (see NeverPasses).
- MultiWrites.Database.SenderRound: one round without writers in between; rounds with writers in between are runs of the protocol (see FlushProgress.RoundConfirms).
- AssocCaches.DatabaseMTAssociativeCache.constructor: at most 2^31 index slots and 2^28 entries; beyond that the shifts and products of the source overflow 32 bits (see SizesFitIff). Reusing an object by a second `postConstruct` is not modelled.
- CacheRings.AddKeepsValid: stops before the entry number reaches the marker of unused slots; after that, and after 32-bit wrap-around, findability is not claimed.
- CacheValues.LatestIsFound: one direction; which of two entries of a key a lookup returns depends on what the displacement chains of later additions of other keys do.
- LruCaches.DatabaseCache.Update: the accounted size of a record is not adjusted to its new value, as in the source; the byte budget is about the accounted sizes. The size of a record is a parameter.
- Freed memory is not modelled: records dropped by the cache stay allocated and unreachable.
- `src/ecrecover`, Keccak, provers, executor and the STARK/FFLONK glue: not part of this model.
