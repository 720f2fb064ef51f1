# Verified models of a Polygon Edge node

This project models the parts of a blockchain node whose correctness is not visible from any one
function, and proves what each of them is for. Every module stands for one component of the
repository; code that updates things in place is modelled by classes and loops, code that computes
is modelled by functions, and each class or loop is proved against a specification whose properties
are then proved for all inputs, all runs or all reachable states.

- **Parallel execution** (`TraceEquivalence`, `ParallelExecutor`, `ConflictDepth`): transactions with
  declared read and write sets are put into conflict-free groups by first fit, and groups run in
  parallel one after the other. No semantics that respects the footprints can tell the parallel run
  from the serial run of the concatenated groups. The serial run in block order is matched exactly for
  layered blocks, in which every transaction has conflicting predecessors at every depth below its own
  (depth being the length of the longest chain of conflicting predecessors); the code does not check
  this, and a three-transaction block breaks it.
- **Journaled world state** (`WorldState`, `OperationReads`, `StateTxn`, `StateCommit`, `CodeReads`,
  `RefundAccounting`): accounts, balances and storage handles are heap objects shared between the
  current tree and the saved trees. The heap object refines a journal of values, which in turn reads
  like a plain world in which writes are immediate, a snapshot keeps everything and a revert puts it
  back. Committing gives a state that reads as the overlay did, codes included, with canonical storage
  roots, and the gas refund equals what the writes of the transaction earn under the forks in force.
  The code cache is keyed by address; it is right exactly while an account keeps the code hash it had
  when its code was cached.
- **Heaps with stored positions** (`HeapOrder`, `IndexedHeap`, `FilterManager`, `DialQueue`): the
  sift loops of Go's `container/heap`, and the two clients that remove from the middle by stored
  index. A poll of a filter takes two locked sections; the registry survives the second exactly when
  the filter is still registered then.
- **Nonce queues** (`AccountQueue`, `NonceAccount`): enqueue, promote and reset as steps of an account,
  with the gap-free run of promoted nonces as the invariant of every run, kept exactly as long as no
  promotion meets a run of nonces up to the largest one.
- **Archive** (`Rlp`, `BlockExport`, `BlockRestore`): export in chunks, write to a file, read back.
- **Concurrent protocols as step systems** (`ParallelExecute`, `EventSubscription`): every interleaving
  of the bounded worker pool and of the token-notified event queue.
- **Consensus arithmetic** (`Quorum`, `ValidatorSet`, `Proposer`), the **transaction pool** (`TxPool`),
  **hex-prefix encoding** (`HexPrefix`) and **rewards** (`Rewards`).

`dafny verify dfyconfig.toml` checks everything.

Where the source and its comments disagree the model follows the source: the dial queue's comment says
that a higher priority value is better, its heap pops the smallest value; the export payload limit is
commented as 4 MB, its value is 512 KiB.

## Model

| member | source | states |
|---|---|---|
| TraceEquivalence.StepsCommute | parallel/parallel_executor.go:180-199 | two transactions without read-write or write-write overlap commute, in store and results |
| TraceEquivalence.SameConflictOrderSameRun | parallel/parallel_executor.go:180-199 | two orders of the same transactions that agree on every conflicting pair have the same store and results, from every starting run |
| TraceEquivalence.InvertedPairShows | parallel/parallel_executor.go:180-199 | one conflicting pair in the other order is enough for some respectful semantics to tell the orders apart |
| TraceEquivalence.IndistinguishableIffConflictOrderKept | parallel/parallel_executor.go:11-16 | two orders cannot be told apart by any semantics that respects read and write sets, if and only if every conflicting pair keeps its order |
| ParallelExecutor.Intersects | parallel/parallel_executor.go:202-225 | true exactly when the lists share a key, whichever list is the shorter |
| ParallelExecutor.ConflictCheck | parallel/parallel_executor.go:181-199 | true exactly on write-write, read-write or write-read overlap of two different transactions |
| ParallelExecutor.ConflictsWithGroup | parallel/parallel_executor.go:164-178 | true exactly when some member of the group conflicts |
| ParallelExecutor.FirstFit | parallel/parallel_executor.go:148-158 | the first group without a conflict: every earlier group holds one |
| ParallelExecutor.GroupTransactions | parallel/parallel_executor.go:141-161 | the loops compute first-fit grouping |
| ParallelExecutor.GroupingPartitions | parallel/parallel_executor.go:141-161 | the groups hold exactly the input transactions, with multiplicity |
| ParallelExecutor.GroupsAreConflictFree | parallel/parallel_executor.go:141-161 | every group is non-empty and pairwise conflict-free |
| ParallelExecutor.GroupsKeepInputOrder | parallel/parallel_executor.go:141-161 | inside a group the input order is kept |
| ParallelExecutor.EarlierGroupsBlocked | parallel/parallel_executor.go:141-161 | a member of a later group has an earlier conflicting transaction in every group before it |
| ParallelExecutor.GroupCountBound | parallel/parallel_executor.go:141-161 | at most one group more than the largest conflict degree |
| ParallelExecutor.TogetherIsSerial | parallel/parallel_executor.go:46-72 | a conflict-free group run against its starting state equals its serial run |
| ParallelExecutor.RunGroupsIsSerial | parallel/parallel_executor.go:128-137 | group after group in parallel equals the serial run of the concatenation |
| ParallelExecutor.GroupOrderEquivalence | parallel/parallel_executor.go:128-137 | whatever order the writes of a group land in, the run equals the serial run of the concatenated groups |
| ParallelExecutor.NoInversionIsConflictOrder | parallel/parallel_executor.go:141-161 | no inversion between groups is the same as every conflicting pair keeping block order |
| ParallelExecutor.BlockOrderSafeIffNoInversion | parallel/parallel_executor.go:128-161 | the parallel run equals the serial run in block order for every semantics and landing order, if and only if no transaction precedes a conflicting predecessor's group |
| ParallelExecutor.PathOfConflictsInverts | parallel/parallel_executor.go:141-161 | whenever x conflicts with y and y with z but x not with z, first fit puts z before y: block order is lost |
| ParallelExecutor.FirstFitCanInvert | parallel/parallel_executor.go:141-161 | a concrete block on which it happens |
| ConflictDepth.DepthIsLongestChain | parallel/parallel_executor.go:141-161 | a transaction's depth is the length of the longest chain of conflicting predecessors: one chain is as long and none is longer |
| ConflictDepth.LevelIsFirstFree | parallel/parallel_executor.go:141-161 | a transaction's group is the first that holds no conflicting predecessor: every earlier group holds one |
| ConflictDepth.NoInversionIffLayered | parallel/parallel_executor.go:141-161 | first fit inverts no conflicting pair if and only if every transaction has a conflicting predecessor at every depth below its own |
| ConflictDepth.BlockOrderSafeIffLayered | parallel/parallel_executor.go:128-161 | the parallel run equals the serial run in block order for every semantics and landing order, if and only if the block is layered: a condition on the block alone |
| ConflictDepth.UnlayeredBlock | parallel/parallel_executor.go:141-161 | a block that is not layered exists |
| ParallelExecutor.ExecuteBatch | parallel/parallel_executor.go:54-88 | one result for each transaction, in order: its own hash, or the error for a nil transaction or the zero hash |
| ParallelExecutor.ValidTxsCount | parallel/parallel_executor.go:113-122 | an entry is kept as often as it stands in the list with a transaction |
| ParallelExecutor.GroupingIsFirstFit | parallel/parallel_executor.go:113-161 | told on positions of the list: where each entry goes, and that it is the first place it fits into |
| ParallelExecutor.ExecuteTransactions | parallel/parallel_executor.go:104-138 | a nil list is the only failure; otherwise each entry is executed as often as positions of the list hold it with a transaction, group after group; every such position has the first group it fits into (no conflict with an earlier position there, one with an earlier position in each group before), inside a group the order of the positions is kept, and an outcome is a success exactly when the hash is not zero, with that hash |
| WorldState.RevertRestores | state/txn.go:61-78 | whatever runs after a snapshot, reverting to it restores the overlay |
| OperationReads.OthersKeepReads | state/txn.go:118-534 | an update leaves every read of every other address as it was |
| OperationReads.TargetReads | state/txn.go:118-534 | an update changes existence, balance, nonce, code hash, code set and suicide flag of its own address as stated on reads alone |
| OperationReads.TargetSlot | state/txn.go:304-345 | a storage write is read back, other slots and the committed value stay; creating an account empties both |
| OperationReads.CleanUpReads | state/txn.go:536-570 | the clean-up makes exactly the changed accounts that are suicided or, if asked, empty read as absent |
| OperationReads.OpReads | state/txn.go:118-534 | every operation on the overlay reads like the same operation on the plain world, the code set in the transaction, refund and logs included |
| OperationReads.RunReadsAsWorld | state/txn.go:61-78 | every run of operations, snapshots and reverts reads at its end like the same run of the plain world |
| OperationReads.RunFromBaseReads | state/txn.go:47-78 | the same from the committed state on |
| StateTxn.HeapAccount.Copy | state/state.go:94-103 | a fresh account with a fresh balance, equal up to the sign of the balance |
| StateTxn.StateObject.Copy | state/state.go:122-138 | a detached object of equal value; nothing it can change is shared |
| StateTxn.Txn.Snapshot | state/txn.go:61-68 | the id is the number of earlier snapshots and the tree is kept |
| StateTxn.Txn.RevertToSnapshot | state/txn.go:71-78 | any id gives back accounts and refund; an id still in nested use gives back logs too |
| StateTxn.Txn.GetStateObject | state/txn.go:90-116 | a detached copy of what the address reads as, absent when deleted or unknown |
| StateTxn.Txn.Fetch | state/txn.go:118-131 | the object an update may change: a copy or a new account, never a shared one |
| StateTxn.Txn.Insert | state/txn.go:131-136 | only the current tree gets the new object; no saved tree changes |
| StateTxn.Txn.AddBalance | state/txn.go:150-155 | the journal step of adding a balance; saved trees unchanged |
| StateTxn.Txn.SubBalance | state/txn.go:157-174 | fails exactly on a non-zero amount above the balance and then changes nothing |
| StateTxn.Txn.SetBalance | state/txn.go:176-181 | the journal step of setting a balance |
| StateTxn.Txn.AddSealingReward | state/txn.go:138-148 | a suicided account starts over with the reward, another one is credited |
| StateTxn.Txn.SetNonce | state/txn.go:355-360 | the journal step of setting a nonce |
| StateTxn.Txn.IncrNonce | state/txn.go:348-353 | the nonce plus one in 64-bit arithmetic |
| StateTxn.Txn.SetCode | state/txn.go:374-380 | the account reads as having this code set, under the hash of its bytes, and otherwise as the journal step says |
| StateTxn.Txn.GetCode | state/txn.go:382-403 | the code set in the transaction, else the cached one, else the stored one, which is then cached |
| StateTxn.Txn.Suicide | state/txn.go:419-436 | true exactly on the first suicide of an existing account; balance zero, flag set |
| StateTxn.Txn.CreateAccount | state/txn.go:519-534 | a fresh account that keeps only the balance |
| StateTxn.Txn.TouchAccount | state/txn.go:486-491 | the account exists in the overlay, otherwise unchanged |
| StateTxn.Txn.SetState | state/txn.go:304-320 | a slot is written in a copied storage handle; the handle of a saved tree is not |
| StateTxn.Txn.ReadState | state/txn.go:323-345 | the overlay's slot, else the committed one |
| StateTxn.Txn.ReadCommittedState | state/txn.go:477-484 | the slot of the account's committed root |
| StateTxn.Txn.ReadBalance | state/txn.go:183-190 | the balance, zero for a missing account |
| StateTxn.Txn.BookRefund | state/txn.go:445-453 | the refund counter in 64-bit arithmetic, up or down |
| StateTxn.Txn.SetStorage | state/txn.go:231-301 | the slot and the refund as the journal step says; each of the five statuses if and only if the original, current and new value and the forks ask for it |
| StateTxn.Append | state/txn.go:213-228 | Go's append: in place when there is room, a new array otherwise; the old slice's contents stay |
| StateTxn.AppendBeside | state/txn.go:213-228 | an append after a revert overwrites a saved log slice if and only if they share the array, the saved one is longer and the log differs |
| StateTxn.LogsOverwritten | state/txn.go:61-78 | with the capacities Go's slices grow to, a run in which reverting to a snapshot outside nested use reads other logs than that snapshot saved |
| StateTxn.Txn.AddLog | state/txn.go:213-228 | the log is appended; the logs of every snapshot in nested use stay |
| StateTxn.Txn.TakeLogs | state/txn.go:455-464 | the logs are returned and dropped |
| StateTxn.Txn.CleanDeleteObjects | state/txn.go:536-570 | suicided and, if asked, empty objects are replaced by deleted copies and the refund is dropped |
| StateTxn.Txn.Commit | state/txn.go:572-620 | cleans up and lists every changed account once, with its changed slots and code; from a well-formed state, applying the list gives a well-formed state that reads everywhere as the cleaned journal and stores exactly the codes set |
| StateTxn.ListStorage | state/txn.go:600-614 | every changed slot once, cleared ones marked deleted |
| StateTxn.Txn.Perform | state/txn.go:118-570 | every operation on the heap is the journal step of that operation |
| StateTxn.Txn.Replay | state/txn.go:61-78 | through every run, whatever spare room appends leave, the heap object's accounts and refund, current and saved, are those of the journal; with nested snapshot ids everything is, logs included |
| StateTxn.Txn.SnapshotReplayRevert | state/txn.go:61-78 | snapshot, any nested run, revert: every read is as at the snapshot |
| StateTxn.ReplayFromBase | state/txn.go:47-78 | from the committed state on, accounts and refund read after every run as the plain world's do, and the logs too after every nested run |
| StateTxn.ReplayAndCommit | state/txn.go:572-620 | after every run and commit, the committed state taken as the next transaction's world has the accounts of the cleaned-up plain world and every slot as last written; every account whose code was set has exactly that code stored under its code hash, older codes stay and no other is added |
| StateTxn.ReplayReads | state/txn.go:382-403 | every run with code reads in between leaves the heap object with the accounts and the cache that its run on values has |
| StateTxn.ReadAfterRun | state/txn.go:382-403 | after every such run a code read returns the bytes of the account's code hash if and only if that hash is the one it had when its code was cached, so always while no account starts over |
| CodeReads.CodeReadRightIff | state/txn.go:382-403 | the same on values, for every run and whatever the cache drops |
| CodeReads.SettledReadsAreRight | state/txn.go:382-403 | without account creation, clean-up and rewards to suicided accounts every code read is right |
| CodeReads.CodeOutlivesAccount | state/txn.go:382-403 | a contract that is created anew after its code was read: the code hash is that of no code, a read gives the old code |
| StateCommit.WrittenSlot | state/testing.go:106-154 | a listed slot is in the committed trie with its value, or gone if marked deleted |
| StateCommit.WrittenAccount | state/testing.go:106-154 | a listed account is in the committed state with its fields and new root, or gone if deleted |
| StateCommit.SlotReadsBack | state/immutable-trie/snapshot.go:17-52 | a slot of a committed account reads as the overlay's slot |
| StateCommit.CommitReadsAsOverlay | state/txn.go:572-620 | for every address all reads of the committed state, code bytes included, equal those of the overlay |
| StateCommit.CommitKeepsWellFormed | state/txn.go:572-620 | every root and code hash the committed state mentions can be resolved again, tries hold no zeros and codes are under their own hash |
| StateCommit.CommitCodes | state/immutable-trie/trie.go:134-181 | each code set for an account that is still there is stored under its code hash, older codes stay, nothing else is added |
| StateCommit.CodeMatchesHash | state/txn.go:374-403 | the code of an account is the bytes that hash to its code hash |
| StateCommit.RootsAreCanonical | state/immutable-trie/trie.go:134-172 | in well-formed states, accounts whose slots read the same have the same storage root, whatever writes led there |
| StateCommit.CommitDropsDoomed | state/txn.go:536-620 | a changed account survives the commit if and only if it was not deleted, suicided or (if asked) empty |
| StateCommit.CommitOfAnyRun | state/txn.go:536-620 | after any run from a well-formed state, clean-up and commit, every read agrees |
| RefundAccounting.OwedAfterWrite | state/txn.go:231-301 | under any forks one write changes what is owed by exactly the refund delta, and a negative delta finds 15000 owed |
| RefundAccounting.SetStorageRefund | state/txn.go:231-301 | SetStorage books exactly the delta |
| RefundAccounting.RefundIsOwed | state/txn.go:231-301 | after any run of storage writes, bookings, snapshots, reverts and operations that keep the accounts' storage, the refund is what is owed plus the gas booked, modulo 2^64, and every slot reads as last written; under net metering (Istanbul, or Constantinople without Petersburg) 15000 for each cleared slot and the reset bonus for each reset are owed, else 15000 for each clearing write |
| RefundAccounting.LegacyRefundIsOwed | state/txn.go:251-263 | without Istanbul, and with Petersburg or without Constantinople, the refund is 15000 for each surviving write that turned a value other than zero into zero, plus the gas booked, modulo 2^64 |
| RefundAccounting.DeltaPaysForCleared | state/txn.go:252-297 | whatever the forks, the delta of a write covers the change in the number of cleared slots |
| RefundAccounting.RefundNeverUnderflows | state/txn.go:445-453 | with account creation and resets too, the integer counter covers 15000 for each cleared slot and is at most 19800 for each storage write plus the gas booked; while that sum is below 2^64 it is what is stored, and a subtraction always finds 15000 |
| RefundAccounting.RefundCanWrap | state/txn.go:445-453 | beyond that sum: clearing a slot and booking 2^64-15000 stores zero, and writing the slot again subtracts 15000 from it and wraps |
| HeapOrder.RootIsLeast | jsonrpc/filter_manager.go:762-766 | in a heap nothing is less than the root, for any strict weak order |
| IndexedHeap.Heap.Swap | jsonrpc/filter_manager.go:768-772 | two entries change places and each keeps its own position stored |
| IndexedHeap.Heap.Push | jsonrpc/filter_manager.go:774-779 | exactly the entry is added; order and stored positions are kept |
| IndexedHeap.Heap.Remove | jsonrpc/filter_manager.go:752-760 | exactly the entry at the position goes, its index becomes -1, order and positions are kept |
| IndexedHeap.Heap.Pop | network/dial/heap.go:31-40 | an entry with a smallest key goes, its index becomes -1 |
| IndexedHeap.Heap.FirstIsLeast | jsonrpc/filter_manager.go:762-766 | the first entry has a smallest key |
| FilterManager.Manager.AddFilter | jsonrpc/filter_manager.go:572-593 | the filter is mapped, and in the heap exactly when it has no websocket, with the new expiry |
| FilterManager.Manager.Uninstall | jsonrpc/filter_manager.go:533-556 | true exactly when the id was mapped; exactly that filter leaves map and heap. A filter in the heap that is not registered is removed by no uninstall |
| FilterManager.Manager.RefreshFilterTimeout | jsonrpc/filter_manager.go:566-577 | the filter is in the heap with the new expiry, in order; the registry is consistent afterwards if and only if the filter is still registered |
| FilterManager.Manager.GetFilterAndChanges | jsonrpc/filter_manager.go:509-530 | unknown filters, websocket filters and failed updates are refused, in that order; else the registered filter and its updates |
| FilterManager.Manager.GetFilterChanges | jsonrpc/filter_manager.go:495-507 | the updates or the error exactly; success moves the expiry of this filter alone, failure moves none |
| FilterManager.Manager.RefreshAfterUninstall | jsonrpc/filter_manager.go:495-507 | an uninstall between the two locked sections of a poll leaves the gone filter in the heap |
| FilterManager.Manager.NextTimeoutFilter | jsonrpc/filter_manager.go:605-617 | an earliest-expiring filter of the heap, or none exactly when it is empty; in a consistent registry, a registered one without websocket |
| FilterManager.Manager.ExpireNext | jsonrpc/filter_manager.go:297-316 | one timeout of the worker removes a filter whenever one can expire in a consistent registry; when the first in the heap is not registered it changes nothing |
| DialQueue.Queue.AddTask | network/dial/dial_queue.go:91-109 | the task is queued and becomes the peer's mapped task; an earlier task of the peer stays queued |
| DialQueue.Queue.PopTask | network/dial/dial_queue.go:55-72 | a task with a smallest priority value leaves the queue, or none exactly when it is empty |
| DialQueue.Queue.DeleteTask | network/dial/dial_queue.go:75-88 | exactly the peer's last added task leaves, if still queued |
| AccountQueue.TxLessIsStrictWeakOrder | txpool/queue.go:129-136 | nonce, then higher gas price first, is an order a heap can use |
| AccountQueue.Queue.Push | txpool/queue.go:76-79 | exactly the transaction is added, heap order kept |
| AccountQueue.Queue.Pop | txpool/queue.go:90-101 | the peeked transaction leaves, heap order kept, nothing on an empty queue |
| AccountQueue.Queue.PeekIsLeast | txpool/queue.go:81-87 | the first transaction has the lowest nonce and of those the highest price |
| AccountQueue.Queue.Prune | txpool/queue.go:50-62 | exactly the transactions below the nonce leave, and they are returned |
| NonceAccount.Account.Enqueue | txpool/account.go:232-250 | the queue is full, the nonce is too low, or exactly the transaction is added: each exactly when it should |
| NonceAccount.Account.Reset | txpool/account.go:196-229 | exactly the promoted transactions below the nonce go, and the enqueued ones too if it rises; the next nonce becomes the larger one; the promotion signal is sent exactly when the nonce rose and a transaction with it waits |
| NonceAccount.Account.Promote | txpool/account.go:256-305 | the promotion step if and only if the enqueued nonces do not run without gap from a promotable one to 2^64-1; if they do, that run is promoted and the next nonce stays |
| NonceAccount.PromoteOne | txpool/account.go:278-298 | one round: the promoted one has the highest price of its nonce, and what is pruned shares a nonce with a promoted one |
| NonceAccount.EnqueueKeepsInv | txpool/account.go:232-250 | the invariant and the next nonce are kept |
| NonceAccount.ResetKeepsInv | txpool/account.go:196-229 | the invariant is kept and the next nonce does not fall |
| NonceAccount.PromoteKeepsInv | txpool/account.go:256-305 | the invariant is kept, the next nonce grows by the number promoted and nothing left is promotable |
| NonceAccount.WrapLosesInv | txpool/account.go:286-302 | a promotion that wraps always loses the invariant |
| NonceAccount.StepKeepsInvIff | txpool/account.go:196-305 | a call keeps the invariant if and only if it is not a promotion of a run up to the largest nonce; the next nonce never falls |
| NonceAccount.RunKeepsInvIff | txpool/account.go:196-305 | in every run from a state with the invariant, it holds all the way if and only if no promotion is called on a run up to the largest nonce |
| NonceAccount.RunKeepsInv | txpool/account.go:196-305 | in every state of every run of an account that is never handed the nonce 2^64-1, the enqueued nonces are at or above the next nonce and within the limit, the promoted ones are a gap-free run ending just below it, and the next nonce never falls |
| NonceAccount.MaxNonceBreaksRun | txpool/account.go:286-302 | an account that expects 2^64-1: enqueueing and promoting that nonce loses the invariant |
| NonceAccount.Account.Replay | txpool/account.go:196-305 | every sequence of calls on the account object is such a run; without the largest nonce it ends in the invariant |
| Rlp.BigEndianRoundTrip | archive/restore.go:232-261 | decoding the minimal big-endian bytes of a size gives the size |
| Rlp.HeaderIsCanonical | archive/restore.go:232-261 | a list header has one byte exactly up to 55 bytes of payload, else a length without leading zeros |
| BlockExport.Writer.Flush | server/system_service.go:275-306 | the buffer goes out as one event carrying exactly its blocks, or the send fails and nothing is lost |
| BlockExport.Writer.AppendBlock | server/system_service.go:254-273 | the block is accepted behind all earlier ones; the buffer is under the limit or a single block, and was only sent because this block would have reached the limit |
| BlockExport.EventsCarryEncoding | server/system_service.go:254-306 | the data of the events concatenates to the encoded blocks |
| BlockExport.ConsecutiveTiles | server/system_service.go:254-306 | the events' ranges tile the heights without gap or overlap |
| BlockExport.GroupsAreRanges | server/system_service.go:254-306 | every event's data is the encoding of exactly the blocks from its From to its To |
| BlockExport.Export | server/system_service.go:174-226 | the longest run of existing blocks the request allows is sent right: in order, tiled, every event carrying exactly the blocks of its own range and the latest height, under the limit or alone, and none sent before the next block would reach the limit; a bounded request ends at its bound and an open one at the head unless a block is missing; on a send failure what went out is right for an initial part; a stream with room for as many events as blocks does not fail |
| BlockRestore.EncodedListAnnounced | archive/restore.go:232-261 | the header of an encoded list announces its size, whatever follows |
| BlockRestore.BlockStream.ReserveCap | archive/restore.go:300-306 | the buffer holds the size and keeps its contents |
| BlockRestore.BlockStream.LoadPrefixSize | archive/restore.go:232-261 | the announced header and payload sizes, or the error for a non-list or a cut-off header |
| BlockRestore.BlockStream.LoadPayload | archive/restore.go:264-273 | the payload is in the buffer behind the header when the input has it |
| BlockRestore.BlockStream.LoadRLPArray | archive/restore.go:198-229 | size zero exactly at the end of input; otherwise the item or the announced error |
| BlockRestore.BlockStream.NextBlock | archive/restore.go:179-195 | an encoded block is read back exactly and the rest is left; an encoded block cut off anywhere is noticed if and only if not one payload byte is there; a byte below 0xc0 is no list |
| BlockRestore.RestoreAll | archive/restore.go:179-195 | from an archive of blocks, exactly those blocks in order and then the end |
| BlockRestore.WriteArchive | archive/backup.go:131-208 | the file is the metadata and then the data of the events, with the first and last height; a failed stream, and one without events, leave no archive |
| BlockRestore.ArchiveRoundTrip | archive/backup.go:22-106 | export, file and restore give back the metadata and exactly the longest run of blocks the request allows, with its heights; a bad range and a missing first block fail exactly, and a broken stream only with room for fewer events than the chain has blocks |
| BlockRestore.CreateBackup | archive/backup.go:22-128 | the archive holds the blocks of its heights. Asked to end below the node's height at a block it has, it ends there, else at the node's height, if no block on the way is missing; with a stream that does not break it succeeds exactly when the range is good and its first block exists. Asked to end at height 0 it runs up to the head |
| ParallelExecute.StepKeepsTallied | blockchain/blockchain.go:50-106 | slot, counter and closing tallies match the workers after every step |
| ParallelExecute.StepKeepsAccounted | blockchain/blockchain.go:50-106 | a finished worker has its receipt stored or has reported, after every step |
| ParallelExecute.ExecuteIsSafe | blockchain/blockchain.go:50-106 | in every interleaving occupied slots stay within the limit, the channel is closed at most once and never sent to after, success means as many receipts as transactions, each at the index of its transaction, successful and with its hash and gas, and an error means cancellation |
| ParallelExecute.ReceiptsTellApart | blockchain/blockchain.go:84-98 | transactions with different hashes get different receipts |
| ParallelExecute.CancelledNeverReturns | blockchain/blockchain.go:50-106 | a call cancelled before one of its transactions passed its check gives that one no receipt and never returns without an error, whatever happens next |
| ParallelExecute.WaitingIsNeverStuck | blockchain/blockchain.go:50-106 | while the caller waits, some step of the pool or the caller is possible |
| EventSubscription.EventSupported | txpool/event_subscription.go:28-36 | true exactly for the subscribed types |
| EventSubscription.EventsKeepOrder | txpool/event_subscription.go:46-80 | in every interleaving, delivered, in hand and stored events are the pushed events of the subscribed types, in push order; with a buffered channel a non-empty store is always attended |
| EventSubscription.NoLostWakeupIffBuffered | txpool/event_subscription.go:46-80 | every quiet state has delivered every pushed event of the subscribed types, if and only if the notification channel has a buffer, as the one place it is created with gives it |
| EventSubscription.LostWakeup | txpool/event_subscription.go:46-80 | without a buffer, a run that ends quiet with an event undelivered |
| Quorum.IntersectingIff | consensus/ibft/validators.go:10-49 | two quorums of a size always share an honest validator, if and only if twice the size exceeds N plus the tolerated faults |
| Quorum.OptimalQuorumIntersects | consensus/ibft/validators.go:35-49 | the optimal size has the intersection property, and is the smallest size that has it if and only if N is not 3 |
| Quorum.LegacyQuorumIntersectsIff | consensus/ibft/validators.go:28-32 | the legacy size has it if and only if N mod 3 is 1 |
| Quorum.HonestReachQuorum | consensus/ibft/validators.go:10-49 | the honest validators alone reach either size |
| Quorum.CertificatesAgree | consensus/ibft/validators.go:35-49 | two commit certificates of honest single-voters name the same hash |
| ValidatorSet.IndexOf | validators/set.go:67-76 | the first position of the address, or -1 exactly when it is not there |
| ValidatorSet.Set.Index | validators/set.go:67-76 | the loop finds that position |
| ValidatorSet.Set.Add | validators/set.go:84-96 | the two errors exactly, or the validator appended; addresses stay distinct |
| ValidatorSet.Set.Del | validators/set.go:99-113 | the two errors exactly, or one entry of the address gone and the order kept |
| ValidatorSet.Set.Merge | validators/set.go:116-134 | the union in order exactly when no validator of another type is new where it stands; else the error of the first such one, with those before it merged |
| ValidatorSet.MergedIsUnion | validators/set.go:116-134 | merging keeps the set as a prefix, addresses distinct, and gives exactly the union |
| ValidatorSet.MergedAppendsFirsts | validators/set.go:116-134 | what merging appends are validators of the other set, each the first one there under its address, in their order |
| Proposer.WindowPicksEachOnceIff | consensus/ibft/validators.go:51-73 | N consecutive rounds pick N different validators, if and only if the 64-bit sum does not wrap inside the window or N divides 2^64 |
| Proposer.WindowLeavesNobodyOut | consensus/ibft/validators.go:51-73 | such a window picks every validator |
| Proposer.NextProposer | consensus/ibft/validators.go:51-73 | the round-zero proposer is the successor of the last one, cyclically |
| Proposer.ChainIsCyclic | consensus/ibft/validators.go:51-73 | k heights on, the proposer is k places on |
| Proposer.FirstProposer | consensus/ibft/validators.go:51-73 | without a last proposer round r picks validator r, after one that is not in the set validator r + 1, cyclically |
| Proposer.ChainFromOutside | consensus/ibft/validators.go:51-73 | from the zero address the heights are proposed in turn from validator 0 on, from an address not in the set from validator 1 on |
| Proposer.ChainVisitsAll | consensus/ibft/validators.go:51-73 | N consecutive heights have N different proposers |
| TxPool.InsertByNonce | txpool/txpool.go:268-279 | exactly the transaction is added |
| TxPool.SortAppended | txpool/txpool.go:112-117 | appending and stable sorting keeps strictly increasing nonces and adds exactly the transaction |
| TxPool.Pool.AddTransaction | txpool/txpool.go:51-120 | accepted exactly when pooled already, or not rejected before, with gas within the block limit, a price whose low word is positive, a recipient and a sender, at most 900 seconds ahead, fitting, and above the price of its slot's holder; then it alone holds the slot; each error exactly in its case. The rejected memory exactly; index, order, size bound and disjointness kept |
| TxPool.ValidIffSound | txpool/txpool.go:174-197 | each validation error, and none, exactly in terms of gas, price, recipient and sender |
| TxPool.Pool.Screen | txpool/txpool.go:60-92 | the checks on a new transaction alone and what they leave among the rejected |
| TxPool.Pool.Place | txpool/txpool.go:94-119 | replaces the slot's holder if and only if outbid, else inserts in nonce order |
| TxPool.OutbidsIffDearer | txpool/txpool.go:94-110 | in a pool in order, outbidding is offering more than every pooled transaction of the same sender and nonce |
| TxPool.Pool.RemoveTransactions | txpool/txpool.go:200-227 | exactly the listed transactions go |
| TxPool.Pool.Drop | txpool/txpool.go:205-225 | exactly the one transaction goes from its list and the index, an emptied sender too |
| TxPool.Pool.RemoveStale | txpool/txpool.go:137-164 | exactly the transactions aged 1800 seconds or more go; the rejected memory is reset only when due and full |
| TxPool.Pool.UpdateNonce | txpool/txpool.go:230-253 | exactly the sender's transactions below the nonce go |
| TxPool.Pool.Clear | txpool/txpool.go:297-304 | nothing stays pooled, the rejected stay rejected |
| TxPool.Pool.Replay | txpool/txpool.go:51-304 | every sequence of operations is a run: in every state on the way the index is exactly the pending lists, lists are non-empty with increasing nonces, the size bound and disjointness hold, and each state follows from the one before it by its operation |
| TxPool.StepIsDeterministic | txpool/txpool.go:51-304 | what the operation is stated to do determines the whole next state: lists, index, rejected, nonces and clean-up time |
| TxPool.StepKeepsPrices | txpool/txpool.go:51-304 | no operation lowers the price of a slot it leaves occupied |
| TxPool.PriceNeverDrops | txpool/txpool.go:94-110 | in every run of the pool, while a slot stays occupied its price never drops |
| TxPool.RunKeepsSound | txpool/txpool.go:51-197 | in every state of every run from an empty pool, every pooled transaction has gas within the limit, a positive low price word, a recipient and a sender |
| HexPrefix.EncodeCompact | state/immutable-trie/encoding.go:15-44 | the loop computes the encoding, which on nibbles is that of Appendix C of the Ethereum Yellow Paper |
| HexPrefix.BytesToHexNibbles | state/immutable-trie/encoding.go:48-58 | high and low nibble of every byte and then the terminator |
| HexPrefix.DecodeCompact | state/immutable-trie/encoding.go:62-80 | the nibbles without the flag, with the terminator the flag asks for |
| HexPrefix.DecodeEncodeIff | state/immutable-trie/encoding.go:15-80 | decoding inverts encoding if and only if the input is nibbles with at most a final terminator |
| HexPrefix.EncodeDecodeIff | state/immutable-trie/encoding.go:15-80 | encoding inverts decoding if and only if the flag is below 4 and an even flag has a zero nibble behind it |
| HexPrefix.EncodedIsCanonical | state/immutable-trie/encoding.go:15-44 | encodings are canonical and different for different nibble sequences |
| HexPrefix.EncodedIsReference | state/immutable-trie/encoding.go:15-44 | on nibble sequences the shifts and flags give the Yellow Paper's arithmetic definition |
| Rewards.Calculator.DistributeBlockReward | rewards/reward.go:57-156 | the payments are made in order, as many as the state accepts, and the error is returned exactly when one is refused; without an error the producer's balance rises by four fifths of the reward rounded down, or all of it without validators |
| Rewards.BalancesAfterDistribution | rewards/reward.go:70-147 | on balances: the producer's four fifths, and every other listed address an equal part of the rest, rounded down, for each listing |
| Rewards.Calculator.ApplySlashing | rewards/reward.go:160-213 | every error exactly; otherwise the balance falls by the percentage of the stake rounded down, at most the stake, all of it at 100 |
| Rewards.Calculator.UpdateRewardPerBlock | rewards/reward.go:221-234 | a nil or negative reward is refused and changes nothing |
| Rewards.DistributionShares | rewards/reward.go:70-147 | the producer gets its part once, every other listed address its share for each listing, the zero address nothing |
| Rewards.DistributionLeaves | rewards/reward.go:89-147 | at most the reward is paid; what is left is the remainder of the division and the shares of skipped entries, less than one unit for each validator when none is skipped |
| Rewards.PaidAdds | rewards/reward.go:95-139 | payments raise each balance and the supply by exactly their amounts and keep balances non-negative |
| Rewards.RunConserves | rewards/reward.go:57-213 | over any run on values the supply is the initial supply plus the amounts paid less the amounts slashed, the payments stay within the rewards in force, and no balance goes negative |
| Rewards.Calculator.Replay | rewards/reward.go:57-234 | any sequence of operations, refused writes included, ends in the balances, remaining writes, reward, credits and slashes that its run on values has; supply, credit bound and non-negative balances follow |

## Left out

- StateTxn.Txn.RevertToSnapshot: reverting to an id that nested use has given up does not promise the logs of that snapshot, because the code can overwrite them: StateTxn.LogsOverwritten gives the run, StateTxn.AppendBeside states when on slices.
- StateTxn.Txn.Replay: the logs are promised for runs whose reverts go to snapshot ids still in nested use, because only for those the log slices are kept.
- RefundAccounting.RefundIsOwed: the operations that replace an account (CreateAccount, a sealing reward to a suicided account) are excluded, because they forget the original slot values, and so is a direct SetState, which books nothing; RefundAccounting.RefundNeverUnderflows includes the former.
- RefundAccounting.RefundNeverUnderflows: beyond 2^64 of allowed refund the stored counter is promised only modulo 2^64, because it can wrap; RefundAccounting.RefundCanWrap gives the run.
- ParallelExecutor.GroupCountBound: like the other results about whole blocks it is for distinct pointers; a list that holds the same pointer twice is grouped by the code as if it did not conflict with itself.
- BlockRestore.BlockStream.LoadRLPArray: a size of 2^63 or more, on which the code panics when it makes the slice, is modelled as an error.
- BlockRestore.ArchiveRoundTrip: a reader that returns fewer bytes than asked before the end of input, a cancelled backup, and file errors are not modelled.
- FilterManager.Manager.AddFilter: requires an unused id, because the source draws a random UUID.
- Proposer.WindowPicksEachOnceIff: the window's round numbers stay below 2^64.
- HexPrefix.DecodeCompact: the empty string, on which the code slices out of range, is excluded.
- TxPool.Pool.AddTransaction: hashing is injective; time is a parameter in seconds and Go's saturation of very large durations is not modelled.
- StateTxn.Txn.GetCode: the least-recently-used order of the 20 cached codes is not modelled; the entries dropped when one is added are a parameter, so the results hold for any eviction.
- The bloom filter of receipts, and GetCodeSize.
- Extraction of read and write sets from transactions: footprints are given.
- The Merkle trie, fastrlp parsing of blocks and hashing: storage roots stand for their contents, a block is its number and payload bytes, and digests are injective.
- IBFT message exchange, block import after restore, and the consumption of blocks both chains have.
- Floating point in OptimalQuorumSize: modelled as the integer ceiling.
- accountQueue.clear, demotion and skip counters, getLowestTx and the priced queue across accounts.
- Subscription close paths, locks (each locked section is one step), wall-clock time, logging, metrics, networking, storage engines, signatures and the command line.
- The buffer that gRPC is handed in an export event is taken as sent when Send returns.
