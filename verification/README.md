# The IAVL tree: a verified model

This project models `libs/iavl`, the versioned, copy-on-write AVL+ tree that holds the chain's state, and proves its central
promises. `dafny verify dfyconfig.toml` checks everything.

The model is layered, and each layer is proved against the one before it.

- **Tree values.** `Tree`, `TreeUpdate` and `HeightBound` treat the tree as an immutable value: Set and Remove are map update and
  map removal, keep the AVL shape, exact heights and sizes and the search order, and report every node they replace.
- **Orphans and versions.** `Orphans` shows that the orphan list is exact after any run of edits. `VersionStore` defines, for a
  history of saved trees and a set of kept versions, the one store they call for (`Canonical`): the roots, the nodes and the
  orphan lifetimes. Saving and every form of deletion map that store to that store, so pruning is exact and confluent.
- **Objects.** `Hashing`, `NodeHeap`, `NodeUpdate`, `SaveBranch`, `DiskStore`, `VersionGroups` and `MutableTree` model the
  mutable side: nodes with pointers, hashes and flags, a disk of records keyed by hash, batches, and the tree object whose
  methods refine the values above. No saved node is ever modified by Set or Remove: their `modifies` clauses do not name one.
- **Asynchronous commit.** `AsyncCommit` is a state machine with the steps of the saver, the commit goroutine, the orphan
  goroutine and the prune goroutine in any interleaving, Rollback at any time and the channel a save waits on included, and an
  inductive invariant over it. `AsyncObjects` has the objects those steps work on, maps keyed by hash, and ties their methods to
  the steps. `CrashRecovery` says exactly when restarting from the disk alone gives a freshly loaded tree again, `Pruning` where
  every version is (kept, on its way out, or refused because it was being read), `OrphanCache` what stays in the orphan cache, and
  `SaveProgress` that no save gets stuck but those after a Rollback.
- **Fast storage.** `FastChanges`, `FastNodeCache`, `FastIndex`, `FastReads` and `FastIterator` model the flat index, its pending
  layers, its LRU cache and its merging iterator, and show that reading and iterating through it is reading the tree.
- **Derived forms.** `NodeRead` (lookups and ranks), `Traversal` (recursive and stack-based traversal, the iterator),
  `ImportExport`, `UpdateBranch` (concurrent hashing), `ProofPath`, `KeySuccessor`, `RangeProof`, `ProofQuery`, `ProofReach`,
  `ProofSoundness` and `RangeEntries` (range proofs, what can be shown and what is proved with them, and the entries returned with
  them), `KeyFormat` (byte keys).

Conventions. The hash function and the encoding of what is hashed of a node are parameters (`Hasher`); collision freedom is the
precondition `Injective`. The encoding has no tag: a leaf is encoded as an inner node of height 0 and size 1 would be, and node hashes
and value hashes come from the same function. Keys and values are byte strings under the order of `ByteOrder`. The database is a map written by atomic batches. Integers are unbounded; `HeightBound` shows
why the int8 height cannot overflow while the size fits int64. Versions are consecutive, the initial version is 0, and no module
upgrade version is set. A node of an IAVL tree is identified by its content, which its hash identifies in turn
(`Hashing.HashIdentifiesTree`).

Where the code and its comments or intent part, the model follows the code:

- After an asynchronous save, `lastSaved` carries the version before the save, because setNewWorkingTree copies the tree before it
  moves the version. Rollback then moves the version back by one (`AsyncCommit.RollbackKeepsVersion`); saving that version again
  blocks for ever if it was not persisted (`AsyncCommit.SaveAfterRollbackBlocks`). A second Rollback after the first save empties
  the tree (`AsyncCommit.SecondRollbackEmpties`). No node is lost by any of this (`AsyncCommit.AsyncCommitIsSafe`).
- If the version was persisted, SaveVersion takes it as saved again when the root on disk equals the working tree's. A root that
  the commit goroutine has not written yet reads as the empty tree. Nodes dropped or made again on the way never get an orphan
  entry: they are what `AsyncCommit.LeftOverIsLoose` calls loose, and stay on disk.
- Rollback drops the unsaved changes of the flat index. An empty tree saved asynchronously has left its removals there, so the index
  forgets them, and reads of those keys go wrong from then on. `FastReads.FastReadsAreTreeReads` says exactly which reads,
  `FastReads.ForgottenExactly` which keys are forgotten, `FastReads.ForgottenKeyIsRead` and `FastReads.UnwrittenKeyIsRead` give runs,
  `FastReads.FullRunsReadTrees` says when none do.
- GetVersioned ignores GetFastNode's error and does not test for an empty root. While the working tree is at the latest version, so
  that the index is used, it differs from the tree for a present empty key at the latest version and for an emptied tree saved
  asynchronously (`FastReads.VersionedReadsAreTreeReads` says exactly when). So does iterating such a version
  (`FastIterator.SavedIterationIsContents`).
- Without batches (IavlCommitAsyncNoBatch) orphan entries and nodes reach the disk ahead of the root they belong to. A crash in
  between leaves an entry that ends the life of a node the latest version on disk still has
  (`CrashRecovery.EarlyEntryIsNotRecovered`); `CrashRecovery.CrashRecovers` says exactly when nothing of the kind is left.
- DeleteVersionsRange accepts a negative start. Keys are unsigned, so the version before it is then the latest root: no root is
  deleted, and entries are moved up to the latest version instead of expiring (`DiskStore.NegativeStartMovesEntries`).
  `MutableTree.DeleteVersionsRange` says exactly for which ranges the disk stays exact. DeleteVersionsFrom has the same root range
  (`DiskStore.CutRefinesDeleteFrom`).
- DeleteVersions groups a repeated version into an interval that is too long (`VersionGroups.RepeatedVersionOvershoots`);
  `VersionGroups.GroupsExactlyIffHarmless` says exactly when that deletes a version nobody asked for.
- getRangeProof goes on from cpIncr of the first key, which is the next key only among keys of one length. With keys of several
  lengths a proof may not verify, may not show a missing key to be missing, and entries may be left out. `ProofQuery` and
  `RangeEntries` say exactly when, for any keys, and that none of it happens with keys of one length.
- The comment that Set and Remove orphan at most Height + 3 nodes holds for Set and not for Remove
  (`HeightBound.SetOrphansFew`, `HeightBound.RemoveOrphansMore`); `HeightBound.RemoveOrphansFew` says exactly when it holds. The
  figure is only a slice capacity.
- Verify does not look at the heights and sizes in the steps of a proof. A step of height 0 and size 1 is encoded like a leaf, so a
  proof can go on below a leaf of the tree and take its key or its value hash for the hash of a child. `ProofReach.ShownExactly` says
  exactly what can be shown under a root hash, `ProofReach.ItemIsSoundExactly` for which trees VerifyItem is sound, and
  `ProofReach.LeafBelowKey` and `ProofReach.LeafBelowValue` give trees for which neither VerifyItem nor VerifyAbsence is. For proofs
  without such a step VerifyItem is sound (`ProofSoundness.ItemIsSound`).
- COMPUTEHASH does not look where the inner paths of a proof turn either. Of proofs without such a step, VerifyAbsence is sound exactly
  for those whose inner paths turn left only, as those of getRangeProof do (`ProofSoundness.AbsenceIsSoundExactly`).

## Model

| member | source | states |
|---|---|---|
| TreeUpdate.SetRefinesUpdate | libs/iavl/mutable_tree.go:297-346 | recursiveSet is map update, says whether the key was there, and keeps balance, exact height and size, search order and "inner key is the least key on the right" |
| TreeUpdate.RemoveRefinesDeletion | libs/iavl/mutable_tree.go:387-435 | recursiveRemove is map removal with the removed value, reports orphans exactly when the key was there, keeps the tree valid, and hands up the new least key that repairs an ancestor |
| TreeUpdate.SetTree | libs/iavl/mutable_tree.go:297-346 | the result is an AVL tree at most one level taller and one entry larger exactly for a new key |
| TreeUpdate.RemoveTree | libs/iavl/mutable_tree.go:387-435 | the result is an AVL tree at most one level shorter; without orphans nothing changed; only a leaf vanishes |
| TreeUpdate.BalanceShape | libs/iavl/mutable_tree.go:1124-1167 | one balance call restores the AVL shape of a node whose children are balanced and differ by at most two, with size kept and at most one level lost |
| TreeUpdate.BalanceOrder | libs/iavl/mutable_tree.go:1085-1167 | rotations keep order, contents and least key, inner keys included |
| ByteOrder.LessByFirstDifference | libs/iavl/node.go:583-594 | keys are compared by the first byte in which they differ, and a key that runs out of bytes is the smaller one |
| HeightBound.TallTreesAreLarge | libs/iavl/node.go:559-568 | a tree of height h has at least Fib(h + 2) leaves |
| HeightBound.HeightFitsInt8 | libs/iavl/node.go:559-568 | with a size that fits int64 the height is at most 90 |
| HeightBound.SetRotatesOnce | libs/iavl/mutable_tree.go:327-345 | an insertion rotates at one level at most; a subtree that grew was not rotated |
| HeightBound.SetOrphansFew | libs/iavl/mutable_tree.go:189-193 | Set orphans at most Height + 3 nodes |
| HeightBound.SetOrphansExactly | libs/iavl/mutable_tree.go:297-346 | Set orphans the nodes on the search path, the leaf only if it has the key, and exactly if it rotates one or three more |
| HeightBound.RemoveOrphansExactly | libs/iavl/mutable_tree.go:387-435 | Remove orphans the nodes on the search path, plus one per single rotation and three per double one; where it rotates and whether a level goes follows from heights and balance factors along the path |
| HeightBound.RemoveOrphansFew | libs/iavl/mutable_tree.go:189-193 | Remove orphans at most Height + 3 nodes exactly when the key is missing or the path with its rotations costs no more |
| HeightBound.RemoveOrphansMore | libs/iavl/mutable_tree.go:189-193 | a tree of height 6 with 21 keys from which Remove orphans ten nodes |
| Orphans.SetConserves | libs/iavl/mutable_tree.go:297-346 | counting each earlier node: what the tree had is what the new tree has plus what Set reports |
| Orphans.RemoveConserves | libs/iavl/mutable_tree.go:387-435 | the same conservation law for Remove |
| Orphans.BalanceConserves | libs/iavl/mutable_tree.go:1085-1167 | the same conservation law for a balance call |
| Orphans.ApplyKeepsBalance | libs/iavl/mutable_tree_preload.go:121-152 | one Set, Remove or Rollback changes the map as asked and keeps the books of saved nodes balanced |
| Orphans.OrphansExactInEveryRun | libs/iavl/mutable_tree.go:1169-1184 | after any run of edits since the last save, the orphan list names without repetition exactly the saved nodes the working tree lost |
| Orphans.NodesAreDistinct | libs/iavl/mutable_tree.go:297-346 | no node occurs twice in a valid tree |
| VersionStore.LifetimeIsInterval | libs/iavl/nodedb_oec.go:34-43 | a node is in an unbroken run of versions from the one it is stamped with |
| VersionStore.EntriesAreLifetimes | libs/iavl/nodedb.go:586-592 | every orphan entry names a kept version, and its node is in exactly the kept versions between its two ends |
| VersionStore.Previous | libs/iavl/nodedb.go:692-710 | the greatest root strictly below the version, or 0 |
| VersionStore.PreviousRoot | libs/iavl/nodedb.go:692-710 | the same by the order of keys: the greatest root whose key is below the version's, or 0; below a negative version, the greatest of all |
| VersionStore.SaveIsCanonical | libs/iavl/mutable_tree.go:845-902 | a synchronous save turns the exact store of a history into the exact store of the longer history |
| VersionStore.JumpIsCanonical | libs/iavl/nodedb_oec.go:95-128 | so does a save that skips versions, given the nodes the store lacks and the nodes it has in excess |
| VersionStore.DeleteVersionIsCanonical | libs/iavl/nodedb_oec.go:276-279 | deleting a version other than the latest leaves exactly the store of the remaining versions |
| VersionStore.DeleteVersionIsRange | libs/iavl/nodedb.go:608-639 | deleteOrphans' single-version test never decides anything: deleting one version is deleting a range of one |
| VersionStore.DeleteRangeIsCanonical | libs/iavl/nodedb.go:495-548 | deleting a range of versions leaves exactly the store of the remaining versions |
| VersionStore.DeletionsAreConfluent | libs/iavl/nodedb_oec.go:276-279 | any sequence of single deletions leaves the store of the survivors, so order and grouping do not matter |
| VersionStore.DeleteFromIsCanonical | libs/iavl/nodedb.go:427-472 | the batch of DeleteVersionsFrom(L + 1) leaves exactly what the kept versions up to L call for with L latest |
| Hashing.HashIdentifiesTree | libs/iavl/node.go:316-359 | equal hashes mean equal trees, for ordered trees whose inner nodes have a positive height, although inner keys are not hashed and nothing but the height tells a leaf from an inner node |
| Hashing.LoadReadsBack | libs/iavl/nodedb.go:197-217 | a tree whose nodes are stored is read back from its root hash |
| Hashing.WriteAndDeleteByHash | libs/iavl/nodedb.go:238-262 | writing and deleting records by hash is adding and removing nodes |
| NodeHeap.GetNode | libs/iavl/nodedb.go:207-217 | fetching a hash yields a persisted node that stands for the hashed tree |
| NodeHeap.GetLeft | libs/iavl/node.go:544-549 | the left child, from its pointer or by its hash |
| NodeHeap.GetRight | libs/iavl/node.go:551-556 | the right child, from its pointer or by its hash |
| NodeHeap.CalcHeightAndSize | libs/iavl/node.go:559-564 | the node's fields become those of the joined children |
| NodeHeap.CalcBalance | libs/iavl/node.go:566-568 | the balance factor of the tree the node stands for |
| NodeHeap.RotateNodeRight | libs/iavl/mutable_tree.go:1085-1101 | on nodes: the rotated tree, and the node it orphans |
| NodeHeap.RotateNodeLeft | libs/iavl/mutable_tree.go:1104-1120 | on nodes: the rotated tree, and the node it orphans |
| NodeHeap.BalanceNode | libs/iavl/mutable_tree.go:1124-1167 | on nodes: the balanced tree and its orphans in order; only the fresh copy handed in is written |
| NodeUpdate.RecursiveSet | libs/iavl/mutable_tree.go:297-346 | on nodes: refines SetTree, result, flag and orphans in order; writes no existing node |
| NodeUpdate.RecursiveRemove | libs/iavl/mutable_tree.go:387-435 | on nodes: refines RemoveTree, with the (hash, node) pair it hands up; writes no existing node |
| SaveBranch.SaveNodes | libs/iavl/nodedb.go:371-410 | writes every unsaved node below the given one exactly once, marks it persisted, cuts its child pointers, and returns the hash |
| DiskStore.GetPreviousVersion | libs/iavl/nodedb.go:692-710 | the loop over roots finds the greatest one whose key is below the version's, or 0; for a negative version that is the greatest root of all |
| DiskStore.DeleteOneVersion | libs/iavl/nodedb.go:608-639 | on records and entries keyed by hash: exactly the expiry of that version |
| DiskStore.DeleteVersionsRange | libs/iavl/nodedb.go:495-548 | refused exactly for an empty range, a zero end, one past the latest version unless enforced, or a reader of a version after the one before the range and below its end; otherwise entries expire version by version and roots go by the range of their keys |
| DiskStore.ExpireRangeIsExpire | libs/iavl/nodedb.go:518-545 | for a start of 0 or later that is exactly the expiry of the range |
| DiskStore.NegativeStartMovesEntries | libs/iavl/nodedb.go:518-545 | for a negative start and any end within the history: no root and no node is deleted, and every entry that ends in the range is moved up to end at the latest root |
| DiskStore.NegativeStartIsNotExact | libs/iavl/nodedb.go:518-545 | on the disk of one key set and saved three times, deleting from -5 up to 2 keeps root 1 and moves the entry of version 1 to end at 3 |
| DiskStore.ExpireRefinesDeleteRange | libs/iavl/nodedb.go:495-548 | expiry by hash represents deletion of nodes |
| DiskStore.DeleteNodesFrom | libs/iavl/nodedb.go:560-583 | the walk from the latest root deletes exactly its nodes of the later versions |
| DiskStore.DeleteVersionsFrom | libs/iavl/nodedb.go:427-492 | nothing past the latest version; refused exactly if the latest root is missing or a version from there on has readers; otherwise roots, nodes and entries are exactly the cut store, and the flat index keeps exactly its entries of earlier dates |
| DiskStore.CutRefinesDeleteFrom | libs/iavl/nodedb.go:427-472 | cutting by hash represents DeleteVersionsFrom on nodes if and only if the version is not negative or there is no root |
| VersionGroups.GroupCovers | libs/iavl/mutable_tree.go:946-974 | no version of the list is missed by the intervals, whatever the list |
| VersionGroups.DistinctVersionsGroupExactly | libs/iavl/mutable_tree.go:946-974 | for distinct versions of any sign the intervals are disjoint, start and end in the list and delete exactly the list |
| VersionGroups.RepeatedVersionOvershoots | libs/iavl/mutable_tree.go:946-974 | the list [3, 3] also deletes version 4 |
| VersionGroups.GroupsExactlyIffHarmless | libs/iavl/mutable_tree.go:946-974 | for any list of positive versions, repeated or not, the intervals delete exactly the list if and only if the repetitions that open an interval of their own reach only versions of the list |
| MutableTree.MutableTree.Set | libs/iavl/mutable_tree.go:197-204 | the object follows the value-level edit and keeps its invariant: orphans balanced, disk exact, saved nodes untouched |
| MutableTree.MutableTree.Remove | libs/iavl/mutable_tree.go:350-357 | the same for Remove, with the removed value |
| MutableTree.MutableTree.Rollback | libs/iavl/mutable_tree.go:744-755 | the working tree is the last saved one again and no orphans are pending |
| MutableTree.MutableTree.SaveVersion | libs/iavl/mutable_tree.go:845-902 | the new version joins the history, the disk is exact for it, the returned hash is the root hash |
| MutableTree.MutableTree.DeleteVersion | libs/iavl/mutable_tree.go:1069-1082 | refused exactly for 0, the latest version, a version not kept and one with readers; otherwise only that version goes and the disk stays exact |
| MutableTree.MutableTree.DeleteVersionsRange | libs/iavl/mutable_tree.go:979-993 | the same for a range of any sign, enforced or not: refused exactly as nodeDB refuses it, otherwise the versions of the range go, none that is being read if it starts at 0 or later, and the disk stays exact if and only if the range starts at 0 or later and spares the latest version, or has no kept version in it |
| MutableTree.MutableTree.DeleteVersions | libs/iavl/mutable_tree.go:946-974 | what is gone afterwards are exactly the versions of the intervals done, which are all of them or, if one is refused, those before it; no interval done from 0 on has a version being read; roots go with the intervals from 0 on; the disk stays exact if no interval done that starts below 0 has a kept version, and for distinct versions only then; for distinct versions between 1 and the latest, none of them being read, exactly the list goes |
| AsyncCommit.AsyncCommitIsSafe | libs/iavl/mutable_tree_oec.go:103-143 | in every interleaving, with Rollback and saving again at any time, every node of the working tree that was not just made, of the last saved tree, of every version findRootHash finds and of every root on disk resolves by hash to that node |
| AsyncCommit.StepKeepsInv | libs/iavl/mutable_tree_oec.go:191-292 | every step of every goroutine keeps the invariant that ties caches, flags, queues, events and disk to the history |
| AsyncCommit.LiveIsFound | libs/iavl/nodedb.go:171-195 | a node of the latest tree is in the pre-persist cache, in flight, or on disk as part of the committed version |
| AsyncCommit.ItemIsFound | libs/iavl/nodedb_orphan_info.go:115-122 | a node of a version that still has an orphan item is in one of the places |
| AsyncCommit.LoadIsRight | libs/iavl/nodedb.go:207-217 | a lookup finds a node whenever it is in any place and never yields a wrong one |
| AsyncCommit.MissedNodeStaysOnDisk | libs/iavl/nodedb.go:207-217 | any such node that memory misses is on disk, and stays there as long as a version that has it keeps its root, or for good if it came loose |
| AsyncCommit.NothingPanics | libs/iavl/nodedb.go:586-718 | no reachable step saves a node twice, finds a wrong flag, refuses or repeats a version, writes a lifetime that ends before it starts, or prunes the latest version |
| AsyncCommit.OldestIsPruned | libs/iavl/mutable_tree_oec.go:374-393 | the height queue is increasing and equals the height map; what is sent to pruning is the oldest, older than all queued versions and never the latest |
| Pruning.RootsAreAccountedFor | libs/iavl/mutable_tree_oec.go:374-393 | in every run, the roots on disk are those of the height queue, of the versions on their way out and of those refused for readers, each version in one place only; the root of a logged version is still to come |
| Pruning.VersionsAreAccountedFor | libs/iavl/mutable_tree_oec.go:155-189 | between saves, tree.versions lists exactly what is in the height queue or with the commit goroutine, what was refused, and what the next save will send to pruning |
| Pruning.StoreIsBounded | libs/iavl/mutable_tree_oec.go:374-393 | with nothing refused, on its way out or in flight, the roots are those of the height queue, which never grows beyond its limit or its length at the start |
| Pruning.RemovedIsSent | libs/iavl/mutable_tree_oec.go:177-189 | in every run, the end of a save sends all removed versions to pruning and lists none of them any more |
| Pruning.RemovedIsDeleted | libs/iavl/mutable_tree_oec.go:177-189 | from every reachable state at the end of a save with an idle prune goroutine, any removed version is deleted by three steps, with nothing else leaving the disk's roots |
| OrphanCache.OrphansAreForgotten | libs/iavl/nodedb_orphan_info.go:77-104 | in every run, the orphan cache holds only nodes filed under a version that still has an item, and nodes fed while the version before had none |
| OrphanCache.OnlyLoadedStay | libs/iavl/nodedb_orphan_info.go:77-104 | with a window of one version or more, the latter are nodes of the version the run was loaded at |
| AsyncCommit.NothingStaysInMemory | libs/iavl/nodedb_oec.go:130-176 | in every run, nodes are in flight only with the commit event that carries them, and none waits to be persisted once all is handed over |
| SaveProgress.SaveTakesBranch | libs/iavl/mutable_tree.go:803-842 | in every run, SaveVersion saves again exactly a tree rolled back behind its history whose latest version was persisted |
| SaveProgress.SaveCanEnd | libs/iavl/mutable_tree_oec.go:103-175 | from every reachable state with the tree at its latest version, the working tree can be saved as the next version, persisted or not: no save gets stuck |
| AsyncCommit.NothingIsLeftOver | libs/iavl/mutable_tree_oec.go:225-292 | whenever no commit is in flight the disk is exactly the canonical store of the committed history, in every run that saves no version again |
| AsyncCommit.LeftOverIsLoose | libs/iavl/mutable_tree.go:803-830 | in every run, what the disk has in excess of the canonical store are nodes that came loose, and only their entries are missing |
| CrashRecovery.CrashRecovers | libs/iavl/mutable_tree_oec.go:225-275 | at any moment of any run, loading from the disk alone gives an initial state of the committed history with an exact store if and only if no entry and no new node is written ahead of its batch and every loose node on disk is one of the latest version there |
| CrashRecovery.BatchedRunsRecover | libs/iavl/nodedb_oec.go:95-128 | with batches, and without saving a version again, every crash is recovered from |
| CrashRecovery.EarlyEntryIsNotRecovered | libs/iavl/nodedb_oec.go:234-253 | without batches: whenever an entry is written ahead, the disk is not the store of its history, the entry ending at the latest version a node which that version has |
| CrashRecovery.EntryIsWrittenAhead | libs/iavl/nodedb_oec.go:234-253 | a run that writes such an entry: one leaf removed in the version being committed |
| AsyncCommit.WriteKeepsDisk | libs/iavl/nodedb_oec.go:95-128 | the commit batch, with or without parts written ahead of it, leads from the exact store to the exact store |
| AsyncCommit.PruneKeepsDisk | libs/iavl/mutable_tree_oec.go:272-292 | a prune batch filled earlier still deletes exactly its version when it is committed |
| AsyncCommit.ExpireKeepsItems | libs/iavl/nodedb_orphan_info.go:79-89 | dropping an expired item takes no node from the cache that a younger item reaches |
| AsyncCommit.ResaveKeepsInv | libs/iavl/mutable_tree.go:803-830 | saving an existing version again, accepted or refused, before or after its root is written, keeps the invariant |
| AsyncCommit.SavedAgainExactly | libs/iavl/mutable_tree.go:803-830 | in every run, saving a listed version again is about the latest version, and is accepted exactly for the tree saved as that version once its root is written, and for the empty tree before |
| AsyncCommit.PersistedIsSavedAgain | libs/iavl/mutable_tree.go:803-830 | a run: one key saved, persisted and written, and rolled back; saving again brings the tree back to version 1 |
| AsyncCommit.RollbackKeepsVersion | libs/iavl/mutable_tree_oec.go:154-175 | over every run: Rollback moves the version back by one exactly when an asynchronous save has finished since the last Rollback, and keeps it otherwise |
| AsyncCommit.SaveAfterRollbackBlocks | libs/iavl/nodedb_orphan_info.go:53-63 | after such a Rollback, a save of a version that was not persisted waits for ever, whatever the goroutines do |
| AsyncCommit.SecondRollbackEmpties | libs/iavl/mutable_tree.go:744-755 | after the first asynchronous save a second Rollback leaves version 0 and no tree |
| AsyncCommit.RollbackAfterOneSave | libs/iavl/mutable_tree_oec.go:154-175 | a run: one key saved asynchronously, then Rollback, and version 1 becomes 0 |
| AsyncObjects.PutNode | libs/iavl/nodedb_oec.go:81-93 | storing a node under its hash adds that node to the set of nodes held |
| AsyncObjects.DropNode | libs/iavl/nodedb_orphan_info.go:85-87 | deleting by hash takes exactly that node from the set |
| AsyncObjects.FoundNode | libs/iavl/nodedb.go:171-195 | a lookup by hash finds the node of that hash exactly when it is held |
| AsyncObjects.OrphanInfo.AddOrphanItem | libs/iavl/nodedb_orphan_info.go:65-77 | a new item without orphans; refused exactly for a version that has one |
| AsyncObjects.OrphanInfo.FeedOrphansMap | libs/iavl/nodedb_orphan_info.go:91-97 | the state machine's FeedItems: the version's item gets the orphans, a missing item changes nothing |
| AsyncObjects.OrphanInfo.FeedOrphanNodeCache | libs/iavl/nodedb_orphan_info.go:99-101 | the cache holds one node more |
| AsyncObjects.OrphanInfo.RemoveOldOrphans | libs/iavl/nodedb_orphan_info.go:79-89 | the item that falls out of the window goes, and exactly its orphans leave the cache |
| AsyncCommit.FoundRoots | libs/iavl/nodedb_orphan_info.go:115-122 | in every run findRootHash finds exactly the versions saved since the start within the window of orphan items, and each with the tree saved as that version |
| AsyncObjects.TempPrePersistNodes.GetNode | libs/iavl/nodedb_tpp.go:22-34 | a node of the hash exactly when some version in flight has one |
| AsyncObjects.TempPrePersistNodes.PushToTpp | libs/iavl/nodedb_tpp.go:36-44 | the version's nodes are in flight; list and map stay in step |
| AsyncObjects.TempPrePersistNodes.RemoveFromTpp | libs/iavl/nodedb_tpp.go:46-54 | the version's nodes are no longer in flight; list and map stay in step |
| AsyncObjects.NodeMemory.SaveNodeToPrePersistCache | libs/iavl/nodedb_oec.go:81-93 | the pre-persist cache holds one node more |
| AsyncObjects.NodeMemory.SaveNewOrphans | libs/iavl/nodedb_orphan.go:31-52 | the state machine's step: the orphans go to the previous version's item and to the orphan cache, and leave the pre-persist cache |
| AsyncObjects.NodeMemory.PersistTppStart | libs/iavl/nodedb_oec.go:130-156 | the whole pre-persist cache is in flight under the version, and the cache is empty |
| AsyncObjects.NodeMemory.GetNodeFromMemory | libs/iavl/nodedb.go:171-195 | a node of the hash exactly when one of the three places has it |
| AsyncObjects.HeightPool.Update | libs/iavl/mutable_tree_oec.go:374-393 | queue and map keep holding the same versions, each once; the new version is in, what leaves a full pool is the version pushed first, the least one if the queue is increasing, and it is marked exactly if it may be deleted |
| FastChanges.BeneathIsSequence | libs/iavl/nodedb_fnc.go:117-146 | merging two change sets is applying them one after the other |
| FastChanges.FlattenIsLayered | libs/iavl/nodedb_fnc.go:188-220 | flattening all layers gives the lookups of a newest-first search and the same index |
| FastChanges.LayersDecide | libs/iavl/nodedb_fnc.go:188-197 | what the newest layer with a key says is what the index with all layers applied has; without one, what it had before |
| FastChanges.FastNodeChanges.Get | libs/iavl/nodedb_fnc.go:22-33 | added, removed or undecided, as the change set says |
| FastChanges.FastNodeChanges.Add | libs/iavl/nodedb_fnc.go:35-40 | the key is added, whatever was said before |
| FastChanges.FastNodeChanges.Remove | libs/iavl/nodedb_fnc.go:48-53 | the key is removed, whatever was said before |
| FastChanges.FastNodeChanges.Clone | libs/iavl/nodedb_fnc.go:89-114 | a fresh copy |
| FastChanges.FastNodeChanges.MergePrev | libs/iavl/nodedb_fnc.go:117-136 | the older change set goes beneath |
| FastChanges.FastNodeChanges.MergeLater | libs/iavl/nodedb_fnc.go:139-146 | the newer change set goes on top |
| FastChanges.FastNodeChangesWithVersion.Add | libs/iavl/nodedb_fnc.go:171-176 | one more layer on top |
| FastChanges.FastNodeChangesWithVersion.Remove | libs/iavl/nodedb_fnc.go:178-186 | the oldest layer goes if it is the one asked for; otherwise nothing happens |
| FastChanges.FastNodeChangesWithVersion.Get | libs/iavl/nodedb_fnc.go:188-197 | the newest layer that decides |
| FastChanges.FastNodeChangesWithVersion.Expand | libs/iavl/nodedb_fnc.go:199-220 | a fresh change set equal to all layers beneath the given one |
| FastNodeCache.FastNodeCache.Cache | libs/iavl/fast_node_cache.go:59-77 | map and queue stay in step; a known key becomes the most recent; a new key stays for a positive limit, at most as many keys as the limit stay, and those that leave were used before all that stay and are no more than the limit asks for |
| FastNodeCache.WithoutOne | libs/iavl/fast_node_cache.go:48-92 | taking a key out of the queue leaves the other keys in their order |
| FastNodeCache.FastNodeCache.Get | libs/iavl/fast_node_cache.go:79-92 | the cached node, and its key becomes the most recent if asked |
| FastNodeCache.FastNodeCache.Uncache | libs/iavl/fast_node_cache.go:48-55 | the key is gone from map and queue |
| FastIndex.FastIndex.GetFastNode | libs/iavl/nodedb.go:128-169 | fails exactly for the empty key; otherwise finds exactly what the whole index has, the pending changes over those in flight over the disk, if a pending layer decides the key or the cache agrees with disk on it; the cache gains only what disk has |
| FastIndex.FastIndex.UpdateBranchForFastNode | libs/iavl/nodedb_update_branch.go:132-136 | the unsaved changes go on top of the pending ones and are empty afterwards; the layers in flight stay |
| FastIndex.FastIndex.PersistStart | libs/iavl/nodedb_oec.go:140-145 | the pending changes become the newest layer in flight, and a fresh empty change set takes their place |
| FastIndex.FastIndex.SaveFastNodeVersion | libs/iavl/mutable_tree.go:995-1065 | the batch is the change set; afterwards a cached key of the batch has the batch's entry, a removed key is not cached, and other cached entries are as before |
| FastIndex.FastIndex.Persist | libs/iavl/nodedb_oec.go:116-125 | the cache agrees with disk again, and a stored lookup of any key finds what the change set says, or else what it found before |
| FastReads.FastReadsAreTreeReads | libs/iavl/immutable_tree.go:165-199 | in every run of edits, Rollbacks, saves, saves again, commit steps, cache fills and evictions, Get through all layers equals the tree walk, for the working tree and every saved version, exactly when it does not answer with a forgotten key |
| FastReads.ForgottenExactly | libs/iavl/mutable_tree.go:744-755 | a key is forgotten exactly when some action of the run drops it, Rollback to an empty tree saved or an empty tree saved over a version not yet written, and no tree is saved after that with a change for it |
| FastReads.FullRunsReadTrees | libs/iavl/immutable_tree.go:165-199 | in a run that saves no empty tree, neither as a new version nor over one not yet written, all reads equal the tree walk |
| FastReads.WorkingGetIsWalk | libs/iavl/mutable_tree.go:206-237 | Get on the working tree equals the tree walk exactly when the index does not answer for it with a forgotten key |
| FastReads.SavedGetIsWalk | libs/iavl/immutable_tree.go:165-199 | Get on a saved version equals the tree walk exactly when the key was not forgotten before that version |
| FastReads.FetchIsLive | libs/iavl/nodedb.go:128-169 | pending, in-flight, cached and disk layers in turn give the entry of the whole index |
| FastReads.StepKeepsInv | libs/iavl/mutable_tree.go:995-1065 | every step keeps the index right from each entry's date to its last good version and the cache in step with the disk |
| FastReads.EmptySave | libs/iavl/mutable_tree_oec.go:103-152 | an asynchronous save of an empty tree leaves the index behind, with its removals still unsaved |
| FastReads.VersionedReadsAreTreeReads | libs/iavl/mutable_tree.go:759-782 | GetVersioned's value differs from the tree's exactly when the working tree is at the latest version and the key is a present empty key of that version, or the version is past the last good one of the key's entry |
| FastReads.EmptyKeyIsMissed | libs/iavl/mutable_tree.go:759-782 | a run after which GetVersioned misses the empty key |
| FastReads.RemovedKeyIsFound | libs/iavl/mutable_tree.go:759-782 | a run after which GetVersioned finds a key removed from an emptied tree |
| FastReads.BehindIsEmpty | libs/iavl/mutable_tree_oec.go:103-152 | the index is behind exactly while the latest tree is an empty one saved asynchronously since the start |
| FastReads.DiskCatchesUp | libs/iavl/nodedb_oec.go:95-150 | from every state of a run in which persist is to hand over a tree, four steps bring the whole index to disk and leave nothing pending or in flight |
| FastReads.ReadsAreCached | libs/iavl/nodedb.go:128-169 | a read that goes to disk is cached if there is room; one of the empty key changes nothing |
| FastReads.ForgottenKeyIsRead | libs/iavl/mutable_tree.go:744-755 | a run: Rollback of an empty tree saved asynchronously, after which Get finds a key the working tree does not have |
| FastReads.UnwrittenKeyIsRead | libs/iavl/mutable_tree.go:803-830 | a run: version 1 is handed to the commit goroutine, rolled back twice and saved again while it is not written, after which Get finds a key the working tree does not have |
| FastReads.RewrittenMirrors | libs/iavl/mutable_tree.go:586-610 | the flat index of LoadVersionForOverwriting, entries of later dates dropped and the loaded tree's written, mirrors the loaded version exactly |
| FastReads.OverwrittenStarts | libs/iavl/mutable_tree.go:586-610 | a run can start from there with latestMemoryVersion left at the old latest version, so that all that is proved of runs holds after it |
| FastIterator.MergeIsOverlay | libs/iavl/unsaved_fast_iterator.go:138-217 | the merge is sorted in its direction and yields exactly the additions and the disk entries nothing pending decides |
| FastIterator.UnsavedFastIterator.Next | libs/iavl/unsaved_fast_iterator.go:138-217 | the next entry of the merge or none at the end; the skip recursion terminates |
| FastIterator.SortAdditions | libs/iavl/unsaved_fast_iterator.go:65-82 | exactly the additions from the start on and before the end, sorted in the direction asked for |
| FastIterator.Drain | libs/iavl/mutable_tree.go:253-270 | run to exhaustion the iterator yields everything to come, each entry once |
| FastIterator.IterateAll | libs/iavl/unsaved_fast_iterator_okc.go:11-31 | iterating the flattened layers lists exactly the entries of the index with all layers applied that are from the start on and before the end, in order |
| FastIterator.IterationIsContents | libs/iavl/mutable_tree.go:274-279 | in every run, iterating the working tree through the index, sorted, lists its entries in the range exactly when no forgotten key is in the range |
| FastIterator.SavedIterationIsContents | libs/iavl/immutable_tree.go:226-231 | in every run, iterating the latest saved version through the index lists that version's entries exactly when the index has no key in the range that is good only for earlier versions |
| FastIterator.SavedIterationBehind | libs/iavl/immutable_tree.go:226-231 | without forgotten keys that is: exactly when the index is not behind or has no key in the range |
| FastIterator.RemovedKeyIsListed | libs/iavl/immutable_tree.go:226-231 | a run after which iterating an emptied version lists the removed key |
| NodeRead.LeavesAreContents | libs/iavl/node.go:584-641 | the leaves from left to right are the map's entries in key order |
| NodeRead.HasIsMembership | libs/iavl/node.go:174-185 | has, which stops at a matching inner key, is membership |
| NodeRead.GetIsLookup | libs/iavl/node.go:188-207 | get returns the map's value and the number of smaller keys |
| NodeRead.GetByIndexReadsLeaves | libs/iavl/node.go:209-224 | getByIndex reads the leaves by position and refuses every other index |
| NodeRead.GetByIndexInvertsGet | libs/iavl/node.go:188-224 | getByIndex of get's index is the entry |
| NodeRead.GetInvertsGetByIndex | libs/iavl/node.go:188-224 | get of getByIndex's key is the index |
| Traversal.TraverseInRange | libs/iavl/node.go:584-641 | for every range, direction, inclusiveness and order, the callback gets the visits in order until it stops |
| Traversal.Traversal.Next | libs/iavl/node_ibc_adapter.go:76-137 | each call returns the next visit of the recursive order; it terminates |
| Traversal.TraverseInRange2 | libs/iavl/node_ibc_adapter.go:64-74 | the stack traversal gives every callback exactly what the recursive one gives it |
| Traversal.VisitedLeaves | libs/iavl/node_ibc_adapter.go:76-137 | the leaves visited are the tree's entries in the range, in the direction asked for |
| Traversal.VisitedExactly | libs/iavl/node.go:583-641 | a leaf is visited exactly if it is not before the start and before the end, or at the end of an inclusive range; leaves come in increasing or decreasing order as asked for |
| Traversal.Iterator.Next | libs/iavl/iterator.go:68-87 | the next leaf of the traversal, inner nodes skipped, or the end |
| ImportExport.ImportInvertsExport | libs/iavl/import.go:68-150 | importing a tree's export leaves one node on the stack, the same tree with the same sizes, and reading its hash back gives the tree |
| ImportExport.FeedRebuilds | libs/iavl/import.go:68-150 | feeding an export puts exactly that tree on whatever stack there was |
| ImportExport.AcceptedExactly | libs/iavl/import.go:68-150 | the export of a valid tree is accepted exactly if every version stamp is positive and not past the import's |
| ImportExport.ExportedParts | libs/iavl/export.go:52-69 | an export lists the left subtree, the right subtree, then the node |
| ImportExport.Importer.Add | libs/iavl/import.go:68-150 | refused exactly after Commit, for no node, a version past the import's or below 1, a negative height, a leaf without a value, and an inner node with a value or without two lower nodes on top of the stack; otherwise the node built of those two replaces them and is recorded |
| ImportExport.BuildExactly | libs/iavl/import.go:68-150 | which nodes are refused on a given stack, and what the stack is afterwards |
| ImportExport.Importer.Commit | libs/iavl/import.go:155-183 | accepted exactly with at most one node on the stack, whose hash becomes the root |
| ImportExport.Import | libs/iavl/import.go:68-183 | a whole import in batches of any size is the fold of its Add calls |
| UpdateBranch.ConcurrentIsSequential | libs/iavl/nodedb_update_branch.go:29-130 | for any set of nodes without a flag, every finished interleaving, the goroutines walking and hashing in their own steps, has the sequential root hash, has cached every node of the sequential update exactly as often, and has drained the channel |
| UpdateBranch.WalkChangesNothing | libs/iavl/nodedb_update_branch.go:92-130 | a step of a goroutine's walk changes neither what it will send nor the hash it will return, and brings its end closer |
| UpdateBranch.StoppedIsDrained | libs/iavl/nodedb_update_branch.go:55-72 | when the nil markers are counted, every stream has been received to its end |
| UpdateBranch.ChannelIsBounded | libs/iavl/nodedb_update_branch.go:34-72 | in every run the channel never holds more messages than its buffer has room for |
| UpdateBranch.AlwaysProgress | libs/iavl/nodedb_update_branch.go:29-90 | no deadlock for any buffer of one message or more: until the hash is there some step can be taken, and it brings the end closer |
| UpdateBranch.MoreConcurrentIsSequential | libs/iavl/nodedb_update_branch.go:138-169 | the same for two concurrent updates sharing the cache |
| UpdateBranch.PairAlwaysProgress | libs/iavl/nodedb_update_branch.go:138-169 | nor do two concurrent updates ever deadlock: some step can be taken, and it brings the end closer |
| UpdateBranch.BranchIsUnflagged | libs/iavl/nodedb_update_branch.go:5-27 | the nodes cached are exactly those without a flag, whatever their stamps, as long as a flag reaches down |
| UpdateBranch.BranchIsUnsaved | libs/iavl/nodedb_update_branch.go:5-27 | with flags by stamps those are exactly the unsaved nodes |
| UpdateBranch.BranchIsDistinct | libs/iavl/nodedb_update_branch.go:5-27 | none is cached more often than it occurs in the tree |
| ProofPath.PositionIsNeighbour | libs/iavl/proof.go:166-202 | pathToLeaf reaches the key, or the last leaf below it, or the least leaf |
| ProofPath.PathHash | libs/iavl/proof_path.go:68-75 | hashing up the path of any leaf gives the tree's hash |
| ProofPath.ComputeRootHash | libs/iavl/proof_path.go:68-75 | the loop hashes up the path; refused exactly for a step with both hashes |
| ProofPath.PathEnds | libs/iavl/proof_path.go:77-93 | a path is leftmost exactly for the first leaf and rightmost exactly for the last |
| ProofPath.Index | libs/iavl/proof_path.go:96-112 | the sum of the sizes skipped; -1 for a step with both hashes |
| ProofPath.IndexIsPosition | libs/iavl/proof_path.go:96-112 | the index of the path to a leaf is the leaf's rank |
| ProofPath.PathIndexIsRank | libs/iavl/proof.go:166-202 | the index of the path pathToLeaf builds is get's index of the leaf it ends at, the number of smaller keys; a present key is reached |
| KeySuccessor.CpIncr | libs/iavl/util.go:70-86 | the loop computes the big-endian increment, or appends a zero byte |
| KeySuccessor.IncrIsNext | libs/iavl/util.go:70-86 | the increment is above the key and no key of the same length lies between |
| RangeProof.HashComputer.Compute | libs/iavl/proof_range.go:238-291 | COMPUTEHASH with its shared queues refines its functional form, the panic on a step with both hashes counting as a refusal |
| RangeProof.SubtreeComputes | libs/iavl/proof_range.go:238-291 | on an honest path and queues it yields the subtree's hash and uses exactly its own part of the queues |
| RangeProof.VisitsAfter | libs/iavl/proof_range.go:372-373 | from just behind a leaf the traversal shows the path as far as it follows it, then everything after the leaf |
| RangeProof.LeavesThePath | libs/iavl/proof_range.go:375-392 | where the traversal leaves the path early the builder's hash comparison notices |
| RangeProof.CollectAfter | libs/iavl/proof_range.go:394-439 | the paths collected between leaves are those the verifier will ask for |
| ProofQuery.GetRangeProof | libs/iavl/proof_range.go:312-448 | the builder, callback by callback; refused exactly for a negative limit or an inverted range |
| ProofQuery.RangeProofsVerify | libs/iavl/proof_range.go:312-448 | every range proof, for any keys, range and limit, holds consecutive leaves and recomputes the tree's root hash and its end, unless the traversal starts behind the next leaf and finds a later one; then it is refused |
| ProofQuery.ClimbRejects | libs/iavl/proof_range.go:238-291 | behind a leaf the verifier takes no leaf but the next one, if the inner path to it turns left only and has no step of height 0 and size 1, which holds of getRangeProof's paths and is not checked by the verifier |
| ProofQuery.Proof.Verify | libs/iavl/proof_range.go:176-304 | accepts exactly when the recomputed hash is the root; the hash is computed once and kept |
| ProofQuery.Proof.VerifyItem | libs/iavl/proof_range.go:95-114 | refused before Verify; accepts only items the leaves hold, and all of them when the leaves are in order |
| ProofQuery.Proof.VerifyAbsence | libs/iavl/proof_range.go:119-173 | refused before Verify; accepts a key before the first leaf of a leftmost path, behind a rightmost one, or between two leaves |
| ProofQuery.GetWithProofIsComplete | libs/iavl/proof_range.go:454-463 | for any keys, the value is the map's; a present key's proof always verifies and proves the item; a missing key's proof verifies and proves its absence exactly when the key is before all others, behind all others, or the builder finds both neighbours |
| ProofQuery.OneLengthIsComplete | libs/iavl/proof_range.go:312-463 | with keys of one length no leaf is passed over and every absence is provable |
| ProofQuery.MixedLengthsSkip | libs/iavl/proof_range.go:365-373 | with the keys [1], [1, 0] and [2] the proof of all entries does not verify |
| ProofQuery.MixedLengthsHideAbsence | libs/iavl/proof_range.go:347-361 | with the keys [1] and [2] the proof for [1, 0] verifies but does not prove absence |
| ProofQuery.ProveAndVerify | libs/iavl/proof_range.go:454-463 | querying a key, verifying its proof against the root hash and having it prove the answer succeeds exactly when the key is there or its absence is provable |
| ProofReach.VerifiedReaches | libs/iavl/proof_range.go:220-304 | every leaf of a proof that verifies hashes up to the root along the path given for it and then some more |
| ProofReach.PathLands | libs/iavl/proof.go:57-149 | a path that hashes up to a tree's root is the path of one of its leaves, or goes on below one with a step encoded like it |
| ProofReach.ShownExactly | libs/iavl/proof_range.go:220-304 | some proof that verifies against a tree's root hash shows a leaf if and only if it is a leaf of the tree or hashes up to the key or the value hash of an entry |
| ProofReach.PlainExactly | libs/iavl/proof_range.go:220-304 | no proof that verifies against a tree has a step of height 0 and size 1 if and only if no leaf hashes up to the key or the value hash of an entry |
| ProofReach.ItemShownExactly | libs/iavl/proof_range.go:95-114 | VerifyItem accepts an entry with some proof if and only if it is in the tree or hides below an entry in that way |
| ProofReach.ItemIsSoundExactly | libs/iavl/proof_range.go:95-114 | VerifyItem is sound for a tree if and only if no entry hides below another that the tree does not have |
| ProofReach.LeafBelowKey | libs/iavl/proof.go:57-149 | a tree whose only key is the hash of a leaf: that leaf is accepted, and the tree's own key is accepted as missing if it is the smaller one |
| ProofReach.LeafBelowValue | libs/iavl/proof.go:57-149 | the same for a tree whose only value is the encoding of a leaf, its own key being the greater one |
| ProofSoundness.VerifiedLeavesAreLeaves | libs/iavl/proof_range.go:220-304 | a proof from anywhere that recomputes a tree's root hash, without a step of height 0 and size 1, holds only leaves of that tree |
| ProofSoundness.ItemIsSound | libs/iavl/proof_range.go:95-114 | what VerifyItem accepts of such a proof is an entry of the tree |
| ProofSoundness.LeftmostProofsAreHonest | libs/iavl/proof_range.go:220-304 | if moreover its inner paths turn left only it holds consecutive leaves of the tree, with their paths |
| ProofSoundness.AbsenceIsSound | libs/iavl/proof_range.go:119-173 | for such proofs, a key VerifyAbsence accepts is not in the tree |
| ProofSoundness.AbsenceIsSoundExactly | libs/iavl/proof_range.go:119-173 | a proof verified against a tree's root has no step of height 0 and size 1, and VerifyAbsence accepts only keys that are not in the tree, if and only if it has no such step and all its inner paths turn left only |
| ProofSoundness.AbsenceUnlessHidden | libs/iavl/proof_range.go:119-173 | for a tree below whose entries nothing hides, the turns of the inner paths alone decide, for every proof that verifies |
| ProofSoundness.PresentKeyIsAccepted | libs/iavl/proof_range.go:119-173 | if an inner path turns right and no step has height 0 and size 1, it accepts the key of a leaf that was passed over |
| ProofSoundness.RightTurnPassesLeaf | libs/iavl/proof_range.go:238-291 | the smallest such proof, for any three keys in order |
| RangeEntries.ReturnsExactly | libs/iavl/proof_range.go:312-448 | the keys and values returned are the tree's first entries in the range (all of them without a limit, otherwise the first leaf if it is in the range and at most limit - 2 more) if and only if no due leaf is missed, because the leaf before it ended the traversal or the traversal started behind it |
| RangeEntries.OneLengthMissesNothing | libs/iavl/proof_range.go:312-448 | with keys of one length nothing is missed |
| RangeEntries.SkippedEntryIsMissed | libs/iavl/proof_range.go:365-373 | with the keys [1], [1, 0] and [2] a query for everything returns [1] and [2] |
| RangeEntries.EarlyEndMisses | libs/iavl/proof_range.go:347-361 | with the keys [1] and [1, 0] a query up to [2] returns [1] alone |
| KeyFormat.KeyBytes | libs/iavl/key_format.go:50-89 | the buffer holds the prefix and each segment padded on the left to its width; refused exactly when a segment is too long or too many |
| KeyFormat.ScanBytes | libs/iavl/key_format.go:107-125 | the segments of the layout, as far as the key goes |
| KeyFormat.ScanInvertsKey | libs/iavl/key_format.go:50-125 | scanning a key of full-width segments gives them back |
| KeyFormat.BigEndianOrder | libs/iavl/key_format.go:177-181 | byte order of fixed-width numbers is their order |
| KeyFormat.RootKeyOrder | libs/iavl/nodedb.go:655-657 | byte order of root keys is version order over all of int64, with negative versions last |
| KeyFormat.GetPreviousVersion | libs/iavl/nodedb.go:692-710 | in a database with any other keys besides, and for any int64 version, the last key in [Key(1), Key(version)) scans to the greatest root whose key is below the version's, or 0 |
| KeyFormat.OrphanKeyFast | libs/iavl/nodedb_oec.go:298-318 | equals the KeyFormat key for every input it accepts, and refuses exactly hashes that are too long |

## Left out

- The inside of a batch: a batch is one atomic write, so a crash between two batches is between two states of the model.
- SHA-256 and amino encodings: both are injective parameters, and records are values.
- Database backends and their iterators, beyond yielding keys in order.
- The node cache (LRU of tree nodes): it holds a subset of correct nodes, and lookups are proved without it.
- Pre-loading goroutines, which set child pointers of saved nodes to nodes of the same content.
- How version readers come and go: the versions being read are a set given to each call that looks at them.
- Deltas: SetDelta, GetDelta, updateBranchWithDelta and addAdditions/addRemovals without their counterpart.
- StopTree.
- EnablePruningHistoryState switched off.
- Loading an older version; of LoadVersionForOverwriting, the batch of DeleteVersionsFrom and the flat index it leaves are modelled.
- Upgrading to fast storage: a run starts from an index that mirrors the loaded version.
- Reads that fall inside a save: Save steps of `FastReads` are atomic for readers.
- The ics23 adapter.
- Insertion order of tree.versions and other unordered maps; loops over them take any order.
- Statistics, logging, tracing and printing.
- ProofSoundness.AbsenceIsSoundExactly: for a proof with a step of height 0 and size 1 no condition on that proof is given, since what it shows depends on what hides below the tree's entries; `ProofSoundness.AbsenceUnlessHidden` is about the tree instead.
- AsyncCommit.ResaveKeepsInv: nodes are values, so which nodes of the tree are new objects is a parameter of the step, any set of them; roots are compared as trees, as their hashes would (`Hashing.HashIdentifiesTree`).
- FastReads.VersionedReadsAreTreeReads: the version is taken to exist, and its tree to be found by the walk; which versions are found in memory is `AsyncCommit.FoundRoots`.
- AsyncCommit.StepKeepsInv: the height queue keeps at least two versions (the code raises a smaller setting to 30); the prune batch is filled from one snapshot of the disk; the goroutines' lock-protected sections are single steps.
- ProofQuery.GetRangeProof: the nodes given to the callback are the list of the traversal (`Traversal.TraverseInRange`), not a nested call.
- FastNodeCache.FastNodeCache.Cache: a list element is identified by its key.
- VersionGroups.GroupsExactlyIffHarmless: versions are positive, as saved versions are.
- AsyncObjects.NodeMemory.SaveNewOrphans: a nil list is not told from an empty one; the cut of the orphans' child pointers is left out, nodes being values here.
- AsyncObjects.HeightPool.Update: pruning is on, as everywhere in the model.
