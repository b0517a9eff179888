# FlintDB, verified

A Dafny model of the FlintDB storage engine and proofs of what it promises. Check it with
`dafny verify dfyconfig.toml`.

The project follows the engine's own layers.

- **Index** (`Entries`, `TreeShape`, `TreeLaws`, `SplitSearch`, `TreeInsert`, `TreeDelete`, `BTree`, `NodeCodec`, `IndexFile`).
  The B+-tree is a class over a map of pages that are rewritten in place. A ghost tree says which tree the pages
  hold: disjoint pages, uniform depth, strict routing, capacities, leaf chain. Its contents are a sorted list of
  entries on which the operations have one-line meanings. Nodes as page images, and the tree read back from them after a crash.
- **Transactions** (`Locks`, `Serial`, `Recovery`, `Engine`, `EngineInv`, `EngineSteps`, `EngineCommit`,
  `EngineTheorems`, `EngineRuns`, `WaitsFor`, `WaitCycles`, `BufferPool`, `TxnManager`). One step system with locks, cached pages, dirty
  set, data file, log, fsynced prefix, live transactions and sleepers; the theorems are about every run of it and every crash
  point. The classes for lock manager, buffer pool and transaction manager perform runs of that system.
- **Log** (`Bytes`, `Fnv`, `Framing`, `LogFormat`, `LogManager`, `CrashRecovery`, `GroupCommit`, `GroupedEngine`,
  `FailedCommit`, `FailedCommitRun`, `TxnIdReuse`, `Reopening`). Records as bytes, the checksum, torn and corrupted files, appending; crash and recovery in bytes,
  on top of the engine theorems; group commit as a step system, and joined with the engine's; commits whose fsync fails; ids reused across openings.
- **Storage** (`Heap`, `HeapFile`, `RowCodec`). The slotted page as a byte array changed in place, the heap file over it,
  and rows as bytes.
- **Queries** (`Sql`, `Relational`, `Planner`, `Agreement`, `Selection`, `Joining`, `Capacity`, `Mutation`, `StatementMeaning`,
  `Statements`, `Indexing`, `Executor`, `Scripts`). What a statement means, stated with column labels, comparisons of values, plain
  scans and cross products, last assignments and keys that are distinct afterwards, against what planner and executor do over
  B+-trees, one object for every index.
- **Language** (`Lexicon`, `Lexer`, `Grammar`, `Printer`, `Productions`, `Parser`). What tokens look like and what statements look
  like, without any scanning; and that the lexer and the parser accept exactly that and return it.
- `Seqs`, `Bags` and `Wrappers` hold facts about sequences and two datatypes.

## Hypotheses, and properties that fail

Some laws hold only under conditions the code does not enforce. Each is proved with its exact condition.

- Insert keeps routing if and only if the key has fewer than 291 entries (`BTree.BPlusTree.Insert`); 292 inserts of one key
  leave an index whose search misses some of them (`BTree.Overfill`). Delete needs no cap.
- The executor inherits that cap. A database is *valid* when every index is a valid tree that agrees with its table, and then no
  indexed value has more than 291 rows (`Executor.Database.ValidIsCapped`). The statement theorems start from a valid database.
  An INSERT, UPDATE or CREATE INDEX leaves one if and only if every indexed value has at most 291 rows afterwards, DELETE always
  does, and a script stays in valid databases exactly as long (`Scripts.RunScript`). Past that a SELECT by the value returns too
  few rows (`Scripts.InsertThenSelect`, an if and only if; `Scripts.CopiesThenSelect`, the input that fails).
- When the fsync of a commit fails, Commit throws with the Commit record in the log, and the session aborts the transaction: its
  pages are reloaded and its locks released, but the Commit record stays, and any later fsync makes it durable. Everything stays
  right, over every continuation and every crash, if and only if the transaction's pages on file are what they are in the cache,
  so that the abort takes back no change (`FailedCommit.SafeToAbortIff`, over runs `RunStaysRightIff`). Otherwise later
  transactions read the old pages and commit, and recovery brings the aborted change back (`FailedCommitRun` is such a run).
  A run without such an abort is called *unspoiled*; the transaction and recovery theorems are about unspoiled runs.
- RangeScanAll succeeds if and only if there are at most 10000 leaves.
- Transaction ids restart at 1 on every opening while the log is kept. For the log found on opening, every run and every crash
  of the new opening is recovered rightly if and only if that log has no Commit record and each id's last update of a page
  is what the page, which must be there, already holds (`Reopening.KeptLogIsSafeIff`). An id without a Commit is not the only danger: a Commit record
  that is kept lends its id's winning state to a later transaction torn before its own Commit (`Reopening.CommitIsUnsafe`). The
  transaction theorems are about one opening.
- A checkpoint resets the next LSN but not the durable LSN. Group commit is safe afterwards if and only if the durable LSN was
  still 0 (`GroupCommit.CheckpointIsSafeIff`).
- The waits-for graph may contain a cycle, and a run of eight steps reaches one (`WaitsFor.CycleIsReachable`). Sleepers are older
  than all other holders of their pages throughout a run if and only if no step grants a page to a newcomer past a younger
  sleeper (`WaitsFor.RunInOrderIff`), and that order rules cycles out. A cycle closes if and only if a transaction is sent to sleep
  on a page one of whose holders already waits for it (`WaitCycles.RunAcyclicIff`). In every run each sleeper has a strictly younger
  holder, so some holder is awake.
- A row reads back if and only if no text is 2^32 bytes or longer; every row a page accepts is far shorter.

Where code and documentation disagree the code is followed. `src/wal/log_manager.h` says that a failed fsync is rethrown to
every waiting thread; in the code only the flushing thread fails and the others retry (`GroupCommit.FailureIsRetried`). The design
notes say that a transaction only ever waits for an older one, so that waits-for cycles cannot form; the code
lets a requester wait only if it is older than every holder at that moment, a later shared grant may add an older holder, and
cycles can form.

Disk contents, crash points, fsync outcomes, spurious wake-ups and scheduling are inputs or labels of the step systems.

## Model

| member | source | states |
|---|---|---|
| `Entries.InsertSortedMultiset` | src/index/btree.cpp:595-605 | insertion adds exactly one entry to the stored multiset |
| `Entries.InsertSortedSorted` | src/index/btree.cpp:595-605 | insertion keeps key order and stores nothing but the old entries and the new one |
| `Entries.RemoveFirstMultiset` | src/index/btree.cpp:711-722 | removal takes exactly one copy of the entry when there is one, and nothing otherwise |
| `Entries.RidsUnderCounts` | src/index/btree.cpp:405-428 | under each key a search sees each RID exactly as often as the stored multiset has it |
| `Entries.SearchAfterInsert` | src/index/btree.cpp:405-428 | after an insert the new RID is found last under its key and every other key's result is unchanged |
| `Entries.InsertRemoveRoundTrip` | src/index/btree.cpp:553-704 | deleting what was just inserted restores the stored multiset |
| `Entries.RunConserves` | src/index/btree.cpp:553-704 | over any history, copies of an entry are bounded by what was there plus what was added, and lose no more than was deleted |
| `TreeShape.RoutedFlat` | src/index/btree.cpp:236-250 | everything a routed subtree stores lies within its separators and is in key order |
| `TreeShape.RoutedAllJoin` | src/index/btree.cpp:236-250 | two runs of siblings are routed on the two sides of a separator exactly when their concatenation is routed |
| `TreeShape.RepUnique` | src/index/btree.cpp:127-138 | the pages determine the tree: two trees held by the same pages from the same root page are equal |
| `TreeLaws.RouteTo` | src/index/btree.cpp:405-428 | the child picked by upper_bound is the only one that can hold the key, and the bounds it must respect |
| `TreeLaws.RoutedSplice` | src/index/btree.cpp:632-673 | replacing a run of siblings by another with the same outer bounds keeps strict routing |
| `TreeLaws.ForestSplice` | src/index/btree.cpp:591-674 | rewriting a run of siblings on its own or fresh pages leaves neighbours, heights, page distinctness and the leaf chain intact |
| `TreeLaws.LeavesChained` | src/index/btree.cpp:430-459 | the next-leaf chain is the in-order sequence of the tree's leaves and their entries are the contents |
| `TreeLaws.KeyInOneLeaf` | src/index/btree.cpp:405-428 | following the routing down to one leaf reaches every entry of a key, so no key of a routed tree has more than 291 entries |
| `TreeLaws.PagesOfSubtree` | src/index/btree.cpp:386-403 | a non-root subtree of height h occupies at least 170^(h-1) pages |
| `TreeLaws.HeightAtMostSix` | src/index/btree.cpp:386-403 | any valid tree over fewer than 2^32 pages has height at most 6 |
| `SplitSearch.FindSplitBoundary` | src/index/btree.cpp:251-260 | the cut is strictly inside and falls between two different keys whenever any two neighbours differ; otherwise it is the midpoint |
| `SplitSearch.FindRebalanceSplit` | src/index/btree.cpp:292-310 | returns a boundary in the allowed window closest to the clamped ideal, and none exactly when the window has no boundary |
| `TreeInsert.LeafCut` | src/index/btree.cpp:607-630 | cutting sorted entries at a boundary gives two leaves routed on the two sides of a strict separator |
| `TreeInsert.NodeCutRouted` | src/index/btree.cpp:651-673 | cutting an inner node anywhere moves the key at the cut up and leaves both halves routed on the two sides of it |
| `TreeInsert.RoomIsNecessary` | src/index/btree.cpp:247-259 | no routed tree can hold more entries of one key than a leaf does, so the duplicate cap is necessary |
| `TreeDelete.ShareLeaves` | src/index/btree.cpp:793-836 | sharing two leaves at a boundary keeps contents, chain and strict routing |
| `TreeDelete.MergeNodes` | src/index/btree.cpp:917-944 | merging two inner nodes with their separator keeps contents and routing in one page |
| `BTree.BPlusTree.constructor` | src/index/btree.cpp:314-354 | a fresh index file is a valid empty tree |
| `BTree.BPlusTree.Open` | src/index/btree.cpp:314-354 | opening an index file that is there already gives the tree its pages hold |
| `BTree.BPlusTree.Search` | src/index/btree.cpp:405-428 | on a valid tree returns exactly the RIDs under the key; on one that has lost its routing those of the one leaf it visits, or the guard error if the tree is higher than 10000 |
| `BTree.BPlusTree.FoundIsAll` | src/index/btree.cpp:405-428 | on a valid tree the one leaf a search visits holds everything under the key |
| `BTree.BPlusTree.FoundIsBounded` | src/index/btree.cpp:405-428 | on any tree a search finds at most 291 RIDs, fewer than are stored if more are |
| `BTree.BPlusTree.FoundIsStored` | src/index/btree.cpp:405-428 | on any tree what a search finds is stored under the key |
| `BTree.BPlusTree.ValidIsCapped` | src/index/btree.cpp:247-259 | no valid tree holds more than 291 entries of a key |
| `BTree.BPlusTree.RangeScanAll` | src/index/btree.cpp:430-459 | returns all contents exactly when there are at most 10000 leaves and 10001 levels, and the guard error otherwise, even on a tree that has lost its routing |
| `BTree.BPlusTree.ValidIsLow` | src/index/btree.cpp:386-403 | a valid tree has at most 6 levels, and its contents are in key order |
| `BTree.BPlusTree.Height` | src/index/btree.cpp:386-403 | returns the number of levels, or the guard error past 10001, on any tree |
| `BTree.BPlusTree.Insert` | src/index/btree.cpp:553-589 | contents become the sorted insertion, always; the tree stays valid if and only if the key had fewer than 291 entries |
| `BTree.BPlusTree.InsertRecursive` | src/index/btree.cpp:591-674 | the subtree is rewritten as one tree or two around a separator, holding the old entries and the new one |
| `BTree.BPlusTree.Delete` | src/index/btree.cpp:676-704 | true exactly when the entry was stored; one copy goes, everything else stays; validity survives with no cap on duplicates |
| `BTree.BPlusTree.DeleteRecursive` | src/index/btree.cpp:706-744 | the subtree loses the first copy of the entry; only its own top node may be left underfull |
| `BTree.BPlusTree.FixUnderflow` | src/index/btree.cpp:746-945 | the children keep contents, order and routing and every one of them is full enough again |
| `BTree.BPlusTree.MergeInternal` | src/index/btree.cpp:917-944 | an inner merge fits one page, keeps contents and routing, and refits the parent's keys and children |
| `BTree.InnerSplitPoint` | src/index/btree.cpp:651-673 | separators of a routed node strictly increase, so an inner split lands on the exact midpoint |
| `BTree.ShareAt` | src/index/btree.cpp:793-819 | when FixUnderflow calls it on routed siblings the boundary search always succeeds, so the clamp fallback is never used for a cut |
| `BTree.Overfill` | src/index/btree.cpp:247-259 | 292 inserts of one key into a new index: all are stored, the tree has lost its routing, and a search for the key finds fewer |
| `BTree.MidpointFallback` | src/index/btree.cpp:251-260 | on 292 equal keys the code cuts at 146 |
| `BTree.Run` | src/index/btree.cpp:553-945 | any history of inserts and deletes that never takes a key past 291 entries keeps the tree valid, its contents are the history replayed on a sorted list, and each delete reports whether the entry was there; only inserts take pages |
| `NodeCodec.LeafRoundTrip` | src/index/btree.cpp:142-180 | every leaf within capacity fits a page and reads back from its page image, its page number included |
| `NodeCodec.InternalRoundTrip` | src/index/btree.cpp:182-216 | every inner node within capacity fits a page and reads back from its page image, its page number included |
| `NodeCodec.RootRoundTrip` | src/index/btree.cpp:227-234 | the header page gives the root's page number back and is never taken for a node |
| `NodeCodec.CapacitiesAreExact` | src/index/btree.cpp:121-125 | 291 and 339 are exactly the largest counts whose bytes fit a page |
| `NodeCodec.SerializeLeaf` | src/index/btree.cpp:142-158 | the written page reads back as the leaf and its page number |
| `NodeCodec.SerializeInternal` | src/index/btree.cpp:182-197 | the written page reads back as the inner node and its page number |
| `NodeCodec.DeserializeNode` | src/index/btree.cpp:160-216 | the reading loops compute what the page image means, and return the page number in it |
| `IndexFile.NodeRoundTrip` | src/index/btree.cpp:142-234 | the image of any page of an index file reads back as that page |
| `IndexFile.OpenIndex` | src/index/btree.cpp:314-376 | opening a file that holds the images of a tree gives a valid tree with that tree's contents |
| `IndexFile.ReopenIndex` | src/index/btree.cpp:314-376 | the pages of a valid index object, written out and opened again, are an index with the same contents |
| `IndexFile.RecoveredOnDisk` | src/db/database.cpp:35-36 | if the transactions that survive a crash left certain nodes in an index file, the recovered file holds exactly those nodes |
| `IndexFile.OpenAfterCrash` | src/db/database.cpp:35-44 | crash at any point of an unspoiled run, recover, open the index: a valid tree with the contents the surviving transactions left |
| `Locks.RequestGrants` | src/txn/lock_manager.cpp:28-85 | a granted request (upgrade included) adds exactly that lock and keeps the table sound |
| `Locks.GrantedIffCompatible` | src/txn/lock_manager.cpp:5-15 | a request is granted exactly when no other holder conflicts with it |
| `Locks.ReleaseDrops` | src/txn/lock_manager.cpp:87-106 | releasing takes away all of one transaction's locks and nobody else's |
| `Locks.LockManager.AcquireOnce` | src/txn/lock_manager.cpp:28-85 | one pass of the wait loop grants, waits or dies as specified and changes the table only when it grants |
| `Locks.LockManager.ReleaseAll` | src/txn/lock_manager.cpp:87-106 | the per-transaction index finds all locks to release, and the waiters are notified exactly if there was one |
| `Recovery.CollectCommitted` | src/wal/recovery.cpp:9-14 | pass one finds exactly the ids with a Commit record |
| `Recovery.RunRecovery` | src/wal/recovery.cpp:7-28 | fails exactly when some committed update names a missing object or page, with the committed updates before it written; otherwise the files become the redo of all committed updates in log order, and the count is right |
| `Recovery.RecoveryIdempotent` | src/wal/recovery.cpp:7-28 | recovering twice is recovering once |
| `Recovery.RedoIsLastCommitted` | src/wal/recovery.cpp:16-26 | every page comes back with the image of the last committed update of it, and as it was if there is none |
| `EngineCommit.StepInv` | src/txn/transaction_manager.cpp:23-142 | every step (begin, lock, read, write, new page, log, commit record, fsync, force, release, abort while running or after a failed commit that changed nothing on file, undo) keeps the engine invariant |
| `EngineCommit.CommitRedo` | src/txn/transaction_manager.cpp:78-95 | the Commit record makes recovery redo exactly the committing transaction's pages on top of what it redid before |
| `EngineCommit.ForceCovered` | src/txn/transaction_manager.cpp:95-105 | only pages whose committed image is in the fsynced log are ever written to the file |
| `EngineCommit.UndoRestores` | src/storage/buffer_pool.cpp:97-103 | in an unspoiled run, reloading a page from the file restores its last committed image, because force precedes release |
| `EngineSteps.ReadsSerially` | src/txn/lock_manager.cpp:28-85 | what a locked read returns is what the transaction would read running alone after the committed ones |
| `EngineTheorems.RunInv` | src/txn/transaction_manager.cpp:23-142 | the invariant holds in every state of every unspoiled run, over all interleavings |
| `EngineTheorems.RunsAreSerializable` | src/txn/transaction_manager.cpp:62-142 | in every unspoiled run the committed transactions, executed serially in the order of their Commit records in the log, read exactly what they read |
| `EngineTheorems.RecoveryIsExact` | src/wal/recovery.cpp:7-28 | crash at any point of an unspoiled run, with any log prefix at least the fsynced one and anything on pages written back: recovery leaves exactly the serial state of the transactions whose Commit record survived, all returned commits among them |
| `EngineTheorems.SurvivorsReplayable` | src/wal/recovery.cpp:16-26 | after a crash at any point of an unspoiled run, no surviving record names a missing object or page |
| `EngineTheorems.RecoverAfterCrash` | src/wal/recovery.cpp:7-28 | so running recovery after a crash of an unspoiled run succeeds, and the files it leaves are the serial state of the transactions whose Commit record survived, all returned ones among them |
| `EngineTheorems.AbortIsExact` | src/txn/transaction_manager.cpp:112-142 | in an unspoiled run, after the undo every page the transaction dirtied shows its last committed contents, whether it was running or its Commit had failed |
| `EngineTheorems.UndoTouchesOnePage` | src/storage/buffer_pool.cpp:97-103 | undoing a page changes no other cached page, no file page and no log record |
| `EngineTheorems.RunSleepers` | src/txn/lock_manager.cpp:46-106 | in every reachable state each sleeping request still conflicts and has a strictly younger holder |
| `EngineTheorems.SomeHolderIsAwake` | src/txn/lock_manager.cpp:46-106 | if anybody sleeps, some lock holder younger than every sleeper is awake |
| `EngineTheorems.OldestNeverDies` | src/txn/lock_manager.cpp:68-83 | a victim is younger than some live holder, so the oldest transaction is never the victim |
| `WaitsFor.CycleIsReachable` | src/txn/lock_manager.cpp:55-66 | a run of eight steps from the start after which 1 waits for 2 and 2 for 1 |
| `WaitsFor.StepKeepsOrderIff` | src/txn/lock_manager.cpp:46-84 | in a reachable state in which every sleeper is older than every other holder of its page, a step keeps that if and only if it does not grant a page, to a transaction that did not hold it, past a younger sleeper |
| `WaitsFor.RunInOrderIff` | src/txn/lock_manager.cpp:46-84 | a run is in that order in all its states if and only if none of its steps is such a grant |
| `WaitsFor.OrderRulesOutCycles` | src/txn/lock_manager.cpp:46-84 | in a state in that order no chain of waits, however long, leads back to where it began |
| `WaitCycles.StepKeepsAcyclicIff` | src/txn/lock_manager.cpp:46-84 | in a reachable state without cycles, a step closes one if and only if it sends a transaction to sleep on a page one of whose holders waits for it, directly or through others; a grant never does |
| `WaitCycles.RunAcyclicIff` | src/txn/lock_manager.cpp:46-84 | a run is free of cycles in all its states if and only if none of its steps is such a request |
| `BufferPools.BufferPool.FetchPage` | src/storage/buffer_pool.cpp:28-38 | returns the cached page or caches the file's page, and changes nothing else |
| `BufferPools.BufferPool.Update` | src/storage/buffer_pool.cpp:40-49 | the edited page is cached and dirty; no other page changes |
| `BufferPools.BufferPool.NewPage` | src/storage/buffer_pool.cpp:7-26 | the file grows by one zero page, cached and dirty |
| `BufferPools.BufferPool.FlushPages` | src/storage/buffer_pool.cpp:62-71 | writes back exactly the named pages that are cached and dirty, and cleans exactly those |
| `BufferPools.BufferPool.FlushAll` | src/storage/buffer_pool.cpp:51-60 | every dirty page reaches the file and nothing stays dirty |
| `BufferPools.BufferPool.DiscardPage` | src/storage/buffer_pool.cpp:97-103 | a cached page shows the file's contents again and is clean |
| `TxnManagers.TransactionManager.BeginTxn` | src/txn/transaction_manager.cpp:23-60 | hands out an id never used in this run, and the engine takes the begin step |
| `TxnManagers.TransactionManager.Acquire` | src/txn/lock_manager.cpp:28-85 | the lock table's verdict is the engine's: granted, asleep, or victim with nothing changed |
| `TxnManagers.TransactionManager.ReadPage` | src/storage/buffer_pool.cpp:28-38 | a locked read returns what the transaction would read running alone after the committed ones |
| `TxnManagers.TransactionManager.WritePage` | src/storage/buffer_pool.cpp:40-49 | the page is changed, dirty, and noted for the transaction |
| `TxnManagers.TransactionManager.AddPage` | src/storage/buffer_pool.cpp:7-26 | a zero page, dirty, exclusively locked by the transaction that added it, and noted for it |
| `TxnManagers.TransactionManager.CommitTxn` | src/txn/transaction_manager.cpp:62-110 | the loops of Commit are a run of engine steps: updates, Commit record, fsync, force, release; if the fsync fails it ends behind the Commit record, with the files as they were, the pages cached and dirty, and the locks held |
| `TxnManagers.TransactionManager.LogUpdates` | src/txn/transaction_manager.cpp:78-85 | one Update record per dirtied page, with the page's current image |
| `TxnManagers.TransactionManager.ForcePages` | src/txn/transaction_manager.cpp:96-103 | the transaction's own dirty pages, and only those, are written back |
| `TxnManagers.TransactionManager.AbortTxn` | src/txn/transaction_manager.cpp:112-142 | of a running transaction or of one whose Commit threw: its pages show the file again, others are unchanged, the locks go; it is a run of engine steps if and only if the transaction was running or the file already had its pages |
| `TxnIdReuse.ReuseIsHarmlessIff` | src/txn/transaction_manager.h:223 | over a log of several openings, recovery picks the right record for every page if and only if every update replayed for a reused id is followed by a genuinely committed update of its page |
| `TxnIdReuse.CoveredRecovery` | src/wal/recovery.cpp:7-28 | under that condition the recovered files are what replaying only committed updates gives |
| `TxnIdReuse.UncoveredPhantomSurfaces` | src/wal/recovery.cpp:7-28 | without it some page comes back, from any files, with the image of a transaction that never committed |
| `TxnIdReuse.ReuseReplaysUncommitted` | src/db/database.cpp:35-36 | the smallest such log: crash after an update under id 1, then an empty commit under id 1 |
| `TxnIdReuse.OneOpeningIsHarmless` | src/txn/transaction_manager.h:223 | a log written by one opening meets the condition |
| `Reopening.KeptLogIsSafeIff` | src/db/database.cpp:35-36 | a log may be kept when the ids restart, so that after every run and every crash of the new opening recovery succeeds with the serial state, if and only if it has no Commit record, only updates of pages there are, and each id's last update of a page is what the page holds already |
| `Reopening.ReopenedLogIsSafeIff` | src/db/database.cpp:35-36 | the same for the log that a crashed opening leaves after its recovery, at any point of any run |
| `Reopening.HarmlessGoesRight` | src/wal/recovery.cpp:7-28 | over such a log the next crash is recovered to the serial state of the new opening's surviving transactions |
| `Reopening.CommitIsUnsafe` | src/wal/recovery.cpp:9-14 | any Commit record in the kept log lets a later crash replay a transaction that did not commit |
| `Reopening.OrphanIsUnsafe` | src/wal/recovery.cpp:16-26 | an update left without a Commit is replayed once a later transaction with its id commits |
| `Reopening.MissingIsUnsafe` | src/wal/recovery.cpp:16-26 | an update of a page that there is not stops recovery once a later transaction with its id commits |
| `Bytes.RoundTripLE` | src/wal/log_manager.cpp:29-39 | a value that fits its width reads back |
| `Bytes.RoundTripFromLE` | src/wal/log_manager.cpp:29-39 | bytes that were read write back as they were |
| `Fnv.Fnv1a32` | src/wal/log_manager.cpp:47-54 | the hash loop computes the FNV-1a fold and stays in 32 bits |
| `Fnv.XorByteBits` | src/wal/log_manager.cpp:47-54 | each bit of a number after the exclusive or with a byte is set if and only if exactly one of the two has it set |
| `Fnv.HashIs` | src/wal/log_manager.cpp:41-54 | no bytes hash to 2166136261, and one byte more is a bitwise exclusive or with it and then a multiplication by 16777619 modulo 2^32 |
| `Fnv.StepInjective` | src/wal/log_manager.cpp:47-54 | one hash step with a fixed byte is injective on the 32-bit state |
| `Fnv.ChangeSeen` | src/wal/log_manager.cpp:47-54 | changing any single byte of any input changes the hash |
| `LogFormat.ParseEncoded` | src/wal/log_manager.cpp:130-162 | an encoded record parses to itself whatever follows it |
| `LogFormat.ParseOneExact` | src/wal/log_manager.cpp:130-162 | whatever parses is byte for byte the encoding of the record it parses to |
| `LogFormat.TornRecord` | src/wal/log_manager.cpp:143-147 | a record cut short at any byte does not parse |
| `LogFormat.CorruptRecord` | src/wal/log_manager.cpp:138-151 | a record with any one byte changed does not parse, whatever follows it |
| `LogFormat.LogCodecSound` | src/wal/log_manager.cpp:130-162 | the record format is self-delimiting, exact, and notices every cut and every single-byte change |
| `LogFormat.ScanOne` | src/wal/log_manager.cpp:130-162 | one round of the parse loop computes the record at the offset, or none |
| `Framing.CutLog` | src/wal/log_manager.cpp:130-176 | a log cut at any byte opens with exactly the records wholly inside the cut |
| `Framing.WholeRecordsIs` | src/wal/log_manager.cpp:130-176 | that number of records is the largest that fits in the cut |
| `Framing.CorruptLog` | src/wal/log_manager.cpp:130-162 | for any such format, a single-byte change in record i leaves exactly records 0..i-1 |
| `Framing.ParseAllEncoded` | src/wal/log_manager.cpp:130-162 | a log followed by anything that is not a record parses to exactly the log |
| `LogManagers.Scan` | src/wal/log_manager.cpp:124-164 | the parse loop returns the records and the length of file they make up |
| `LogManagers.LogManager.constructor` | src/wal/log_manager.cpp:101-181 | opening keeps exactly the readable records, truncates the file to them and resumes the LSNs |
| `LogManagers.LogManager.AppendRecord` | src/wal/log_manager.cpp:188-211 | the file stays the encoding of the records, the new one last with the next LSN |
| `LogManagers.AppendConsecutive` | src/wal/log_manager.cpp:188-211 | consecutive LSNs stay consecutive across an append |
| `LogManagers.ReopenReads` | src/wal/log_manager.cpp:101-211 | crash at any byte, reopen, append: the next opening reads the surviving records and the new one |
| `LogManagers.ReopenConsecutive` | src/wal/log_manager.cpp:178-211 | the resumed LSN keeps the surviving records and the new one consecutive |
| `CrashRecovery.ByteCrashRecovery` | src/wal/recovery.cpp:7-28 | end to end, in bytes, for unspoiled runs: cut the log file at any byte behind the fsynced part, leave anything on pages written back, reopen and recover: the files are exactly the serial state of the transactions whose Commit record is wholly inside the cut, all returned commits among them |
| `CrashRecovery.ReopenAndRecover` | src/db/database.cpp:25-36 | so opening the cut file of an unspoiled run and running recovery on it succeeds and leaves exactly those files |
| `LogManagers.CorruptedLog` | src/wal/log_manager.cpp:130-162 | a single-byte change anywhere in record i makes opening yield exactly records 0..i-1 |
| `GroupCommit.StepInv` | src/wal/log_manager.cpp:241-305 | every step of appending and flushing threads keeps the group-commit invariant |
| `GroupCommit.GroupCommitIsSafe` | src/wal/log_manager.cpp:246-305 | over all interleavings and fsync failures since an opening, however much of the log it found was on disk: the durable LSN never exceeds the synced prefix, one thread flushes at a time, a sleeper has a flush in progress, and a normal return means the target is on disk |
| `GroupCommit.EveryFlushWakesAll` | src/wal/log_manager.cpp:286-299 | when a flush ends, well or badly, nobody is left asleep |
| `GroupCommit.OneFsyncServesAll` | src/wal/log_manager.cpp:262-299 | after a successful fsync every thread it covered returns at its next check |
| `GroupCommit.FailureIsRetried` | src/wal/log_manager.cpp:286-303 | after a failed fsync an uncovered waiter retries it, and only the flusher fails |
| `GroupCommit.CheckpointIsSafeIff` | src/wal/log_manager.cpp:307-313 | with no flush under way, group commit is safe after a checkpoint if and only if nothing had been flushed through before it |
| `GroupCommit.UnsyncedRun` | src/wal/log_manager.cpp:307-313 | otherwise a concrete run returns from FlushThrough with nothing synced |
| `GroupCommit.Flusher.Append` | src/wal/log_manager.cpp:188-211 | the next LSN, as the append step |
| `GroupCommit.Flusher.Enter` | src/wal/log_manager.cpp:241-250 | a call is the call step |
| `GroupCommit.Flusher.Fsync` | src/wal/log_manager.cpp:265-285 | an fsync that succeeds or fails is that step |
| `GroupCommit.Flusher.CheckOnce` | src/wal/log_manager.cpp:246-263 | one round of the loop under the mutex is the check step |
| `GroupCommit.Flusher.Settle` | src/wal/log_manager.cpp:285-303 | publishing the outcome under the mutex is the finish step |
| `GroupCommit.Flusher.Return` | src/wal/log_manager.cpp:300-305 | the call ends, and says whether the target was reached |
| `GroupCommit.FlushAlone` | src/wal/log_manager.cpp:241-305 | FlushThrough from call to return: with nobody else flushing and an fsync that succeeds, it returns with the target durable |
| `GroupedEngine.StepSplits` | src/txn/transaction_manager.cpp:86-95 | with commits waiting in FlushThrough, and aborted when it throws, each joint step that takes back no change is one step of the engine or none, and one of group commit or none; a commit is confirmed only when its Commit record is stable |
| `GroupedEngine.RunSplits` | src/txn/transaction_manager.cpp:62-142 | every joint run without such an abort is a run of the engine and a run of group commit, so the engine's theorems hold with group commit under it |
| `GroupedEngine.GroupedCommitsSurvive` | src/wal/log_manager.cpp:241-305 | for every interleaving and every pattern of fsync failures in which no abort of a failed commit takes back a change: after a crash, recovery leaves the serial state of the transactions whose Commit record survived, and every commit that returned is one of them |
| `FailedCommit.AbortKeepsInvIff` | src/txn/transaction_manager.cpp:112-142 | the engine invariant survives the abort of a transaction whose Commit threw if and only if the file already has its pages as it left them, which is if they are as committed |
| `FailedCommit.SafeToAbortIff` | src/sql/session.cpp:77-85 | after such an abort, every crash of every continuation is recovered to the serial state, every history is serializable and readers see what recovery would bring back, if and only if the file already had the pages |
| `FailedCommit.RunStaysRightIff` | src/sql/session.cpp:77-85 | a run of engine and group commit stays so at every point and over every continuation if and only if no abort of a failed commit in it takes back a change |
| `FailedCommit.SpoiledGoesWrong` | src/wal/recovery.cpp:9-26 | from any abort that takes back a change there is a continuation in which a transaction reads the old page and commits, and the history is not serializable |
| `FailedCommitRun.AbortedChangeComesBack` | src/wal/recovery.cpp:9-26 | a concrete run: a commit throws and is aborted, a later transaction reads the page as it was and returns; every crash from there brings the aborted change back |
| `Heap.InsertScan` | src/storage/heap_file.cpp:34-78 | an insert adds one row at the end of the scan at an address never used before and keeps every other slot |
| `Heap.RemoveScan` | src/storage/heap_file.cpp:139-156 | a delete takes its own row out of the scan and leaves all others in order with their addresses |
| `Heap.ScannedHas` | src/storage/heap_file.cpp:80-115 | a scan shows exactly the rows that GetRow finds |
| `Heap.ScannedOrdered` | src/storage/heap_file.cpp:97-115 | a scan goes in address order, so no row shows twice |
| `Heap.FreshPageFits` | src/storage/heap_file.cpp:35-37 | a row fits a fresh page exactly when the file accepts its size |
| `HeapFiles.RecordsDisjoint` | src/storage/page.cpp:83-111 | records occupy disjoint bytes, all above the slot directory |
| `HeapFiles.LayoutUnique` | src/storage/page.cpp:60-81 | a page's bytes stand for one list of slots only |
| `HeapFiles.InsertLayout` | src/storage/page.cpp:83-111 | the bytes written for a record make the page one slot longer and leave every other slot as it was |
| `HeapFiles.DeleteLayout` | src/storage/page.cpp:119-124 | setting the flag marks one slot and no other |
| `HeapFiles.Page.InitHeapPage` | src/storage/page.cpp:48-55 | an empty page, whatever the buffer held |
| `HeapFiles.Page.InsertRecord` | src/storage/page.cpp:83-111 | succeeds exactly when record and slot entry fit, adds that slot, and otherwise changes no byte |
| `HeapFiles.Page.GetRecord` | src/storage/page.cpp:113-117 | returns the record's bytes, tombstoned or not |
| `HeapFiles.Page.DeleteRecord` | src/storage/page.cpp:119-124 | marks exactly one slot, whether or not it was marked |
| `HeapFiles.Page.IsDeleted` | src/storage/page.cpp:126-129 | reads the mark |
| `HeapFiles.HeapFile.Insert` | src/storage/heap_file.cpp:34-78 | refines the slot-level insert and is refused only for rows no page could hold |
| `HeapFiles.HeapFile.GetRow` | src/storage/heap_file.cpp:80-95 | returns the live row at the address, if any |
| `HeapFiles.HeapFile.Scan` | src/storage/heap_file.cpp:97-115 | returns the live rows in address order |
| `HeapFiles.HeapFile.Delete` | src/storage/heap_file.cpp:139-156 | true exactly for a live row, which is then gone; nothing else changes |
| `RowCodec.RowRoundTripIff` | src/sql/row_codec.cpp:43-87 | decoding an encoded well-typed row gives it back if and only if every text is shorter than 2^32 bytes |
| `RowCodec.ShortRowFits` | src/sql/row_codec.cpp:43-62 | a row short enough for a page has no longer text |
| `RowCodec.EncodeRow` | src/sql/row_codec.cpp:43-62 | the encoding loop is the column-by-column encoding |
| `RowCodec.DecodeRow` | src/sql/row_codec.cpp:64-87 | the decoding loop is the column-by-column decoding, failing exactly when bytes run out |
| `Sql.ComparisonIsTotalOrder` | src/sql/executor.cpp:27-45 | on literals of one kind comparison is a total order whose equality is the join's equality test |
| `Relational.PrecedesIff` | src/sql/executor.cpp:43-44 | text comparison is dictionary order over bytes: the smaller byte at the first difference, or a proper prefix |
| `Relational.ComparisonMeans` | src/sql/executor.cpp:36-66 | on integers the six operators are =, !=, <, <=, > and >= of the numbers, on text the same of the dictionary order: what is computed is exactly that |
| `StatementMeaning.NamesOneColumn` | src/sql/planner.cpp:16-25 | in a statement on one table a reference is accepted if and only if it names exactly one column of the table |
| `StatementMeaning.ConditionAccepted` | src/sql/planner.cpp:16-25 | a condition is accepted if and only if it names exactly one column and its value is of that column's type |
| `Planner.PlanTableAccess` | src/sql/planner.cpp:84-127 | refused exactly for unknown tables and bad predicates; otherwise an index probe for the first equality that has an index, with all other predicates left in order |
| `Planner.SplitPredicates` | src/sql/planner.cpp:199-206 | fails exactly if some predicate does not resolve or has the wrong type; otherwise splits them by side, in order |
| `Planner.PlanSelect` | src/sql/planner.cpp:129-240 | refused exactly when the statement is not well formed against the catalog; otherwise the plan the rules prescribe |
| `Joining.ResolvesIff` | src/sql/planner.cpp:57-80 | a reference resolves in a join if and only if it names exactly one column of the two tables together |
| `Agreement.AgreesAfterInsert` | src/sql/executor.cpp:116-124 | what an index holds, if it agrees with the rows, agrees after both gain a row |
| `Agreement.AgreesAfterDelete` | src/sql/executor.cpp:126-132 | what an index holds agrees after both lose a row |
| `Indexing.BuildTree` | src/sql/executor.cpp:292-302 | filling a new tree from a scan gives a valid tree that agrees with the rows if and only if no value has more than 291 rows |
| `Capacity.AgreedCount` | src/index/btree.cpp:405-428 | an index that agrees with the rows has as many entries under a key as there are rows with it |
| `Agreement.ProbeFinds` | src/sql/executor.cpp:92-108 | all that an agreeing index holds under a key names, up to order, exactly the rows with that key, each once |
| `Agreement.ProbeIsLive` | src/sql/executor.cpp:96-106 | every address an agreeing index holds is live and has the key, so the out-of-sync error is unreachable |
| `Selection.AccessFindsAll` | src/sql/planner.cpp:84-127 | with the probe seeing all that its index holds: fetching and filtering by an access plan is, up to order, a full scan filtered by all predicates, whatever is done with the rows |
| `Selection.SingleSelectIsRight` | src/sql/executor.cpp:435-462 | with the probe seeing all that its index holds: a planned single-table SELECT returns the multiset that filter and project over the table mean, the conditions read by the meaning of their operators on the values of the columns named |
| `Joining.JoinSelectIsRight` | src/sql/executor.cpp:464-543 | with the probes seeing all that their indexes hold: a planned join, by probe or by scan, returns the multiset that filter and project over the cross product mean, the conditions read by the meaning of their operators |
| `Joining.InnerProbe` | src/sql/executor.cpp:500-527 | probing all that the inner index holds stands in for the explicit equality check |
| `Mutation.InsertKeeps` | src/sql/executor.cpp:318-321 | one row inserted in the heap and in what every index of its table holds keeps the whole database consistent |
| `Mutation.DeleteKeeps` | src/sql/executor.cpp:338-339 | one row deleted from what every index of its table holds and from the heap keeps the whole database consistent |
| `Mutation.FoundRows` | src/sql/executor.cpp:369-375 | with the probe seeing all that its index holds: the rows a plan finds and filters are the matching rows of the table, each exactly once |
| `StatementMeaning.FilterMatched` | src/sql/executor.cpp:70-76 | the rows matched, and those not, are in scan order the rows that satisfy the conditions by the meaning of their operators, and those that do not |
| `StatementMeaning.AssignedIsRowAfter` | src/sql/executor.cpp:386-393 | applying a SET list leaves in every column the value of the last assignment that names it, or the old cell if none does |
| `StatementMeaning.KeysStayIff` | src/sql/executor.cpp:192-245 | for any rows with distinct keys: the new keys of the rewritten rows are distinct and free outside the batch if and only if all keys are distinct afterwards |
| `StatementMeaning.ValidatedIff` | src/sql/executor.cpp:192-245 | a batch is validated if and only if every rewritten row fits and, for each primary key in the catalog, the table's keys are distinct afterwards |
| `Statements.UpdateMeans` | src/sql/executor.cpp:345-425 | bytes written for the batch read back as the old rows with the SET list applied |
| `Mutation.RewriteStep` | src/sql/executor.cpp:411-424 | a rewritten row leaves its old address and appears at one that never existed before the statement |
| `Mutation.UpdatedKeys` | src/sql/executor.cpp:192-245 | a validated batch leaves the primary keys distinct |
| `Mutation.BatchPermuted` | src/sql/executor.cpp:192-245 | validation does not depend on the order in which the rows were found |
| `Mutation.RoomInBetween` | src/sql/executor.cpp:410-424 | if no value of a column has more than 291 rows before an UPDATE and after it, none has 291 when a row of the batch is put back |
| `Statements.NoFitNoRoom` | src/sql/executor.cpp:410-424 | an UPDATE that would leave more than 291 rows of an indexed value leaves its index without room |
| `Executor.Database.constructor` | src/sql/executor.cpp:279-283 | empty tables and a new tree for every index are valid |
| `Executor.Database.ValidIsCapped` | src/index/btree.cpp:247-259 | no database in which all index trees are valid has more than 291 rows of an indexed value |
| `Executor.Database.KeysAreDistinct` | src/sql/executor.cpp:144-153 | in a valid database, for every primary key in the catalog, no two live rows of its table have the same value in its column |
| `Executor.Database.FetchCandidateRows` | src/sql/executor.cpp:88-109 | through a valid index tree the rows of the access plan, through any at most 291 of them; every address found is live, so the out-of-sync error is unreachable |
| `Indexing.IndexSet.InsertAll` | src/sql/executor.cpp:116-124 | every index tree of the table gains the row's entry and no other changes; those that lose their routing are those in which the value had 291 entries |
| `Indexing.IndexSet.DeleteAll` | src/sql/executor.cpp:126-132 | every index tree of the table loses the row's entry and stays valid, no other changes |
| `Executor.Database.CheckPrimaryKey` | src/sql/executor.cpp:144-153 | refuses exactly when, for some primary key in the catalog on this table, a live row has the new row's value in its column |
| `Executor.Database.CheckValues` | src/sql/executor.cpp:251-259 | accepts exactly the well-typed full rows |
| `Executor.Database.ValidateUpdateBatch` | src/sql/executor.cpp:192-245 | accepts exactly the batches whose rows fit and, for every primary key in the catalog on this table, whose new keys are distinct and clash with no row outside the batch |
| `Executor.Database.Rewrite` | src/sql/executor.cpp:410-424 | after validation the mutation loop cannot fail; each row of the batch is rewritten once; no tree loses its routing if every indexed value has at most 291 rows before and after |
| `Executor.Database.ExecuteInsert` | src/sql/executor.cpp:306-326 | accepted exactly for a known table, a well-typed row that fits, and for every primary key in the catalog on the table a value no live row has; then one row more, with these values, at a new address, else nothing changes; the database stays valid if and only if every indexed value has at most 291 rows then, and so does each index tree for its own values |
| `Executor.Database.ExecuteDelete` | src/sql/executor.cpp:328-343 | from a valid database: exactly the rows that satisfy the conditions, by the meaning of their operators, go; the others keep place and address, the count is right, and the database stays valid |
| `Executor.Database.ExecuteUpdate` | src/sql/executor.cpp:345-425 | from a valid database, all or nothing: accepted if and only if names and types are right, every rewritten row fits and the primary keys are distinct afterwards, else nothing changes; then every row that satisfied the conditions is rewritten once at a new address, each cell the value of the last assignment naming its column or the old cell, and every other row is as it was; the database stays valid if and only if every indexed value has at most 291 rows then |
| `Executor.Database.ExecuteCreateIndex` | src/sql/executor.cpp:285-304 | refused exactly for a used name, an unknown table or column, or a column that is not INTEGER; otherwise the new index is a valid tree that agrees with the rows if and only if no value of the column has more than 291 rows |
| `Executor.Database.ExecuteSelectSingleTable` | src/sql/executor.cpp:435-462 | the loop returns what the plan specifies if the probed tree is valid, and at most 291 rows through any index |
| `Executor.Database.ExecuteSelectJoin` | src/sql/executor.cpp:464-543 | on a valid database the nested loops return what the plan specifies |
| `Executor.Database.ExecuteSelect` | src/sql/executor.cpp:545-551 | refused exactly when planning refuses; on a valid database the result is the multiset the statement means, with operators as in ComparisonMeans; a SELECT by an indexed key never returns more than 291 rows |
| `Scripts.Execute` | src/sql/executor.cpp:555-587 | a data statement, accepted or refused, leaves a valid database if and only if every indexed value has at most 291 rows |
| `Scripts.RunScript` | src/sql/executor.cpp:555-587 | over any script of data statements, refused ones included, the database is valid as long as every indexed value has at most 291 rows, and stops being valid with the first statement that goes past that |
| `Scripts.InsertThenSelect` | src/sql/executor.cpp:306-326 | after any accepted INSERT, a SELECT by the new row's value in an indexed column returns what it means if and only if that value has at most 291 rows, and too few otherwise |
| `Scripts.CopiesThenSelect` | src/sql/executor.cpp:435-462 | the failing input: 292 INSERTs of one row into an empty table, then a SELECT by its value: 292 rows match and at most 291 come back |
| `Statements.ByKeyCounts` | src/sql/executor.cpp:435-462 | a SELECT by an indexed key means as many rows as have the key |
| `Lexer.KeywordIff` | src/sql/lexer.cpp:18-43 | a word is a keyword if and only if its letters, each capital or small, are those of the keyword |
| `Lexer.TokenReads` | src/sql/lexer.cpp:47-194 | any spelling of a token, in front of bytes it does not go on with, is read as that token and no more |
| `Lexer.TokenSpelled` | src/sql/lexer.cpp:47-194 | and whatever is read as a token is one of its spellings and ends where it cannot go on |
| `Lexer.LexedIff` | src/sql/lexer.cpp:47-194 | scanning gives a list of tokens if and only if the text is that list: spellings of its tokens, each as long as it goes, with any blanks, tabs and line ends around them |
| `Lexer.SpacedRoundTrip` | src/sql/lexer.cpp:51-57 | tokens in any of their spellings, keywords in any mixture of case, with any non-empty runs of bytes 32, 9, 10 and 13 between them read back as those tokens |
| `Lexer.Tokenize` | src/sql/lexer.cpp:47-194 | returns the one list of tokens that the text is, and fails exactly when it is none |
| `Lexer.StringRoundTrip` | src/sql/lexer.cpp:98-122 | doubling quotes and reading them back are inverse |
| `Lexer.IntReads` | src/sql/lexer.cpp:81-96 | every int64, the smallest included, reads back from its decimal text, with zeros in front or without |
| `Lexer.LexRoundTrip` | src/sql/lexer.cpp:47-194 | any sequence of tokens written out with blanks reads back as that sequence |
| `Printer.ListRoundTrip` | src/sql/parser.cpp:114-121 | items that read back make separated lists that read back |
| `Printer.SelectRoundTrip` | src/sql/parser.cpp:193-206 | a printed SELECT reads back |
| `Printer.CreateTableRoundTrip` | src/sql/parser.cpp:128-152 | a printed CREATE TABLE reads back, primary key included |
| `Printer.StatementRoundTrip` | src/sql/parser.cpp:233-253 | parsing inverts printing for every statement the grammar can say |
| `Parsing.Parser.ParseColumnRef` | src/sql/parser.cpp:81-90 | the cursor reads a column reference as the grammar says |
| `Parsing.Parser.ParsePredicates` | src/sql/parser.cpp:114-121 | the loop over predicates moves the cursor as the grammar says |
| `Parsing.Parser.ParseColumnDefs` | src/sql/parser.cpp:128-152 | the loop over column definitions moves the cursor as the grammar says |
| `Parsing.Parser.ParseStatement` | src/sql/parser.cpp:233-253 | the cursor parser computes the grammar's parse |
| `Productions.ListExact` | src/sql/parser.cpp:114-121 | if each item read is what the printer writes for it, so is a list of them |
| `Productions.DeclaresIff` | src/sql/parser.cpp:128-152 | a CREATE TABLE is accepted exactly for a non-empty column list with at most one key mark, and its key is the marked column |
| `Productions.StatementExact` | src/sql/parser.cpp:128-253 | whatever is read as a statement is, token for token, what the printer writes for it |
| `Productions.TopLevelIff` | src/sql/parser.cpp:17-26 | tokens are accepted as a statement if and only if they are that statement as printed, with nothing behind it but at most one semicolon |
| `Parsing.ParsedTextIff` | src/sql/parser.cpp:17-264 | a text is read as a statement if and only if its tokens are that statement as printed, with or without a semicolon |
| `Parsing.Parse` | src/sql/parser.cpp:261-264 | returns the one statement that the text says, and fails exactly when it says none |
| `Parsing.ParseRoundTrip` | src/sql/parser.cpp:17-264 | reading any sayable statement with identifier names back from its text gives that statement and consumes all input, with or without a semicolon |

## Left out

- BTree.BPlusTree.Insert: requires a valid tree, because what an insert does to a tree that has lost its routing is not described; and free page numbers for one split per level, because the page allocator's exhaustion at 2^32 pages is not modelled.
- BTree.BPlusTree.InsertRecursive: the same two bounds.
- BTree.BPlusTree.Delete: requires a valid tree; on one that has lost its routing the code may miss stranded copies.
- BTree.Run: requires seven free page numbers for every insert.
- HeapFiles.HeapFile.Insert: requires a free page number for the same reason. The page of zeros that an aborted insert into a new page leaves in the list, on which nothing fits, is not among the pages.
- NodeCodec.SerializeLeaf: builds the page image as a value instead of writing into the cached frame; the index class works on decoded nodes, and IndexFile ties the two at opening.
- NodeCodec.SerializeInternal: likewise.
- NodeCodec.DeserializeNode: refuses counts above capacity, where the code would read past the page; only corrupted pages have them.
- Executor.Database.ExecuteInsert: takes heap files as the values that HeapFiles specifies, not as objects. The result that says whether all indexes are still valid, and the count that finds it out, are the model's own; a script of the model stops there.
- Executor.Database.ExecuteDelete: starts from a valid database; a DELETE or UPDATE driven by an index that has lost its routing is not described, only a SELECT is.
- Executor.Database.ExecuteUpdate: starts from a valid database, like ExecuteDelete.
- Executor.Database.ExecuteCreateIndex: likewise.
- Executor.Database.CheckPrimaryKey: likewise.
- Executor.Database.ValidateUpdateBatch: likewise.
- Executor.Database.ExecuteSelectJoin: likewise.
- Scripts.Execute: likewise.
- Scripts.RunScript: stops at the first statement that leaves an invalid database.
- Indexing.BuildTree: stops at the first full key, where the code fills on; whether that happens is exact.
- Executor.Database.Rewrite: once an index has lost its routing, the rest of the same UPDATE leaves that index alone. Whether any index loses its routing is exact.
- Executor.Database.ExecuteSelect: returns rows without the list of column headings.
- BufferPools.BufferPool.Update: the observer is not a callback; TxnManagers.TransactionManager.WritePage and AddPage note the page for the transaction.
- BufferPools.BufferPool.NewPage: takes the new page number as an argument; the allocator is not modelled.
- TxnManagers.TransactionManager.BeginTxn: the check that a thread has one transaction at a time, and the registration of observers per thread.
- TxnManagers.TransactionManager.CommitTxn: after a COMMIT that threw in an explicit transaction only the abort is modelled; a second COMMIT, which logs the transaction once more, and statements in between, whose changes no observer notes, are not.
- EngineTheorems.RunSleepers: the lock theorems, like the others, are stated for unspoiled runs, though they do not depend on page contents.
- Engine: B+-tree and heap page locking is represented by the lock, read and write steps, not by calls from the index and heap classes.
- HeapFile's list of page ids under concurrency is outside the lock protocol, so serializability is claimed for pages and not for phantoms.
- HeapFile::Find, NumRows, and BufferPool::ResetAll: short loops over what is modelled.
- Checkpoint followed by further commits beyond the group-commit condition, and openings beyond the second.
- DiskManager system calls, short reads and write errors; the data file is a map of pages that grows.
- Catalog persistence, CREATE TABLE's checks, and the session's autocommit and DDL guards; the catalog is a given value that satisfies what its checks establish.
- ValidateInvariants and traversal guards on corrupted trees; error message texts and token positions.
- The command line, its JSON encoder, benchmarks, scripts and the fuzz target.
