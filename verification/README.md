# A verified model of the LSMIO store and its collective I/O

LSMIO keeps key-value pairs in a log-structured store and lets several ranks of a parallel
job share one store through an aggregator. This project models both and proves what they
guarantee, and exactly where the guarantees end.

## The native store

* `Bytes` and `Log` fix the vocabulary: byte strings with the order and prefixes of
  `std::string`, little-endian `uint32_t`, write logs, and the map that a log stands for. A
  value equal to the tombstone string is a deletion.
* `Index`, `SSTable` and `Recovery` are the table format: records laid end to end, the
  sorted index with one offset per key, reading by offset, and re-indexing a file at open,
  also behind pre-allocated zero bytes and after a cut at any byte.
* `Machine` is the store as a state machine. One action is the code between two points where
  the state mutex is released: a write up to its return or its wait, the rest of a write after
  the back-pressure wait, the two halves of `writeBarrier`, the pop, file acquisition,
  publication and flag reset of the flush thread, the two halves of the file pool's worker, and
  the phases of `close`. `Invariants`, `Reads`, `PrefixReads` and `Progress` prove what holds
  in every run, for any number of threads; `BackPressure` says in queue lengths and byte counts
  when a write waits and when a table is sealed; `Witnesses` has the short runs that show why
  guards are needed.
* `Publication` refines the publish action to single loads and compare-and-swaps on the linked
  list. `FileClosing` is the background closer.
* `Directory` covers file names and the listing and sorting of a directory. `DirectoryRuns`
  follows the directory along a run, from the files that the pool's worker creates to those
  that `close` leaves, and opens it again. `PaddedCuts` and `Crashes` open it after a crash in
  any reachable state, at any byte of the file that was being written.
* `MemtableLog`, `MemoryTables`, `TableManager`, `FilePooling`, `FileClosing` and
  `NativeStore` hold the classes, with the fields and loops of the source. Their methods are
  proved against functions of the object's view, in `StoreViews`. `ObjectRuns` makes these
  functions the steps of the object and its threads, and `ObjectResults` proves that its runs
  and the machine's are the same, so that every theorem about runs is about the object.
  `ObjectCalls` does so for calls of several steps.

Four guarantees hold under a condition, and the lemmas give it exactly:

* `get` misses a key whose newest write sits in the table that the flush thread has popped
  and not yet published (`Reads.OnlyInFlight`, and `Reads.Hidden` when that shows); otherwise
  it is linearizable (`Reads.GetLinearizableExactly`, `Reads.GetOutsideFlight`).
* `getPrefix` lets an older memory table win over a newer one, because the memory scans
  overwrite and run newest first (`PrefixReads.InTwoTables`, and `PrefixReads.Shadowed` when
  that shows; `PrefixReads.PrefixGetExact`, `PrefixReads.StalePrefixRead`).
* After a crash with pre-allocation, the record that was being written can read as a value
  that nobody wrote (`PaddedCuts.PaddedValueIsRight`); every other key reads from the whole
  records (`Crashes.CrashThenReopen`).
* Nothing gets stuck exactly when the file pool may hold at least one file
  (`Progress.NeverStuckExactly`).

## Collective I/O

* `Collective` and `CollectiveRuns` are the protocol of the aggregator and its clients, one
  send, receive or handling at a time. `capacity` is the number of messages of a client that
  may be under way, so both synchronous and buffered sends are covered. The server finishes if
  and only if all clients send the same number of commands before they shut down.
  `CollectiveServer` is its loop as a method.
* `Codecs` are the two text formats, `RankIsolation` the keys with ranks and what each rank
  sees of the shared store, `CollectiveResults` the two together, and `Managers` the callback
  over the native store. `CallbackRuns` makes each call of it a step of the store's object and
  says on values what a client is told, and what its answered barrier guarantees.

## Model

| member | source | states |
|---|---|---|
| `Bytes.U32RoundTrip` | lib/manager/store/native/sstable_manager.cpp:83-89 | the four bytes written for a length read back as that length |
| `Bytes.U32Bytes` | lib/manager/store/native/sstable_manager.cpp:83-89 | the bytes are those of the number, least significant first |
| `Bytes.U32Converse` | lib/manager/store/native/sstable_manager.cpp:189-190 | any four bytes are the bytes of the number that they read as |
| `Bytes.PrefixIsConvex` | lib/manager/store/native/sstable_manager.cpp:150-158 | strings with a prefix are contiguous in the key order, so the early break of the prefix scan misses nothing |
| `Bytes.LessExactly` | lib/manager/store/native/store_native.cpp:305-328 | key order without its recursion: equal up to a position where the smaller key ends or has the smaller byte |
| `Bytes.HasPrefixExactly` | lib/manager/store/native/memtable.cpp:53-57 | a string has a prefix if and only if it is the prefix followed by something |
| `Log.LastReadsContents` | lib/manager/store/native/memtable.cpp:42-51 | the newest-first scan of a log, tombstones hidden, reads the map of all writes |
| `Log.ContentsExactly` | include/lsmio/manager/store/native/memtable.hpp:42-49 | a key has a value in the map of all writes if and only if the last entry of the key has it and it is not the literal tombstone string |
| `MemtableLog.Memtable.Add` | lib/manager/store/native/memtable.cpp:37-40 | appends the pair and keeps the byte count equal to the sum of the entry sizes |
| `MemtableLog.Memtable.Get` | lib/manager/store/native/memtable.cpp:42-51 | the reverse loop returns the last value written for the key, tombstones included |
| `MemtableLog.Memtable.Scan` | lib/manager/store/native/memtable.cpp:53-67 | every key with the prefix that the table holds is decided anew by its last write here; all other decisions stand; results and deletions stay disjoint |
| `Index.SortIsUnique` | lib/manager/store/native/sstable_manager.cpp:98-103 | the comparator admits one sorted arrangement, so any correct sort gives the modelled one |
| `Index.IndexHoldsNewest` | lib/manager/store/native/sstable_manager.cpp:98-109 | sort, unique and erase leave strictly ascending keys, each with exactly its greatest offset |
| `Index.PrefixRun` | lib/manager/store/native/sstable_manager.cpp:150-158 | the keys with a prefix form one run of the index and it starts at the lower bound of the prefix |
| `Index.BinarySearch` | lib/manager/store/native/sstable_manager.cpp:129-131 | halving finds the first entry that is not below the key |
| `SSTable.NextOffset` | lib/manager/store/native/sstable_manager.cpp:79-92 | each record starts at the sum of the earlier record lengths and its bytes lie there |
| `SSTable.LogReads` | lib/manager/store/native/sstable_manager.cpp:178-213 | reading at the offset of a record returns its value, whatever bytes follow the file |
| `SSTable.RecordBytes` | lib/manager/store/native/sstable_manager.cpp:83-92 | the bytes of one record, spelled out |
| `SSTable.FitsExactly` | lib/manager/store/native/sstable_manager.cpp:83-92 | the assumption on lengths is that four bytes can hold them |
| `SSTable.OverwriteExactly` | lib/manager/store/native/sstable_manager.cpp:78-95 | writing a table over its file replaces the bytes it covers, and the file keeps its length behind them |
| `SSTable.ReadAtExactly` | lib/manager/store/native/sstable_manager.cpp:178-213 | reading at an offset gives a value if and only if a whole record of the expected key with that value lies there |
| `SSTable.TableGetFollowsNewest` | lib/manager/store/native/sstable_manager.cpp:127-136 | a point read of a table reads at the greatest offset of the key, and finds nothing when no pair has it |
| `SSTable.FlushedReadsLog` | lib/manager/store/native/sstable_manager.cpp:78-109 | for every log and key, the flushed table reads exactly what the newest-first scan of the memtable finds |
| `Recovery.ScanFlushed` | lib/manager/store/native/sstable_manager.cpp:241-262 | re-reading a flushed file yields the flush's pairs at the same offsets, then one empty-key pair for every eight zero bytes |
| `Recovery.RecoveredIndexAgrees` | lib/manager/store/native/sstable_manager.cpp:241-275 | on non-empty keys the rebuilt index equals the flush-time index, entry for entry, for any number of trailing zeros |
| `Recovery.RecoveredReadsLog` | lib/manager/store/native/sstable_manager.cpp:241-275 | a recovered file reads like its log, except that the empty key reads as the empty string from eight trailing zeros on |
| `Recovery.ScanTruncated` | lib/manager/store/native/sstable_manager.cpp:241-262 | a file cut at any byte indexes exactly the records whose headers are complete |
| `Recovery.TruncatedReads` | lib/manager/store/native/sstable_manager.cpp:133-138 | after a cut every key reads in this table as its last whole record, and only the torn record's key finds nothing |
| `PaddedCuts.PaddedCutReads` | lib/manager/store/native/sstable_manager.cpp:241-262 | with any number of pre-allocated zeros behind the cut, every non-empty key reads as its last whole record, except the key that the remnant seems to have, which reads what the remnant seems to hold |
| `PaddedCuts.TornValueIsPadded` | lib/manager/store/native/sstable_manager.cpp:203-211 | once key and lengths are complete the remnant has the torn record's key, and a value that is readable exactly when enough zeros follow, which then stand for the missing bytes |
| `PaddedCuts.PaddedValueIsRight` | lib/manager/store/native/sstable_manager.cpp:203-211 | that value is the one being written if and only if the zeros suffice and the missing bytes are zeros |
| `PaddedCuts.TornKeyIsPadded` | lib/manager/store/native/sstable_manager.cpp:189-195 | before that, the remnant's key is a part of the real key and zeros, or zeros alone, and its value is zeros |
| `PaddedCuts.ReadsWhatNobodyWrote` | lib/manager/store/native/sstable_manager.cpp:203-211 | a concrete cut after which a value is read that nobody wrote |
| `Publication.CompletedExactlyOnce` | lib/manager/store/native/sstable_manager.cpp:111-116 | with any number of publishers and spurious failures, the list is acyclic and holds every completed publication exactly once and nothing else |
| `Publication.LoadedHeadIsFrozen` | lib/manager/store/native/sstable_manager.cpp:126-139 | a loaded head denotes the same list forever, a suffix of all later lists |
| `Invariants.HistoryIsConserved` | lib/manager/store/native/store_native.cpp:164-202 | published tables, table in flight, queue and active table make up the full write history in every reachable state |
| `Invariants.ActionKeepsInv` | lib/manager/store/native/store_native.cpp:132-254 | every action keeps the conservation of the history, the meaning of the in-progress flag, the barrier marks, the size and queue bounds and the order of files |
| `Invariants.RunInv` | lib/manager/store/native/store_native.cpp:132-254 | all of these hold in every state of every run |
| `Reads.AtomicGetExact` | lib/manager/store/native/store_native.cpp:264-301 | in every reachable state an uninterrupted get returns what the map of all writes holds if and only if the key is not hidden in the table in flight |
| `Reads.GetLinearizableExactly` | lib/manager/store/native/store_native.cpp:264-301 | under every interleaving between the locked phase and the list-head load, get returns a value the map held in between, if and only if the key was not hidden at the locked phase |
| `Reads.GetOutsideFlight` | lib/manager/store/native/store_native.cpp:264-301 | in particular get is linearizable for every key that is in memory or not in flight, whatever the values |
| `Reads.FlightPublishedWhole` | lib/manager/store/native/store_native.cpp:177-198 | tables are published whole and in order: a later list shows none or all of the table that was in flight |
| `Reads.PoppedWriteIsMissed` | lib/manager/store/native/store_native.cpp:177-188 | a reachable state in which get misses a write that returned before |
| `Reads.BarrierPublishes` | lib/manager/store/native/store_native.cpp:340-352 | when a barrier may return, everything written before its call is in published tables in its original order |
| `PrefixReads.OldestTableWins` | lib/manager/store/native/store_native.cpp:309-319 | overwriting scans from newest to oldest leave the decision of the oldest memory table that has the key |
| `PrefixReads.PrefixGetExact` | lib/manager/store/native/store_native.cpp:303-334 | getPrefix shows what the map of all writes holds for a key if and only if the key is neither shadowed nor hidden |
| `PrefixReads.PrefixGetLinearizableExactly` | lib/manager/store/native/store_native.cpp:303-334 | under every interleaving between the locked phase and the table scan, getPrefix shows for a key a value the map held in between, if and only if the key was neither shadowed nor hidden at the locked phase |
| `PrefixReads.ListMixesMoments` | lib/manager/store/native/store_native.cpp:303-334 | a run in which a prefix read whose phases fall into different states shows two values that the map never held together, so key by key is all that can be promised |
| `PrefixReads.PrefixGetWithoutOverlap` | lib/manager/store/native/store_native.cpp:303-334 | with nothing in flight and no key in two memory tables, getPrefix is exact |
| `PrefixReads.StalePrefixRead` | lib/manager/store/native/store_native.cpp:313-318 | a reachable state in which getPrefix shows an overwritten value while get shows the newest |
| `Progress.WaitingCanMove` | lib/manager/store/native/store_native.cpp:237-240 | while a writer, a barrier or close waits and the pool may hold a file, some thread can move |
| `Progress.InternalStepWorks` | lib/manager/store/native/store_native.cpp:164-202 | every step of a running call or background thread lowers the work left |
| `Progress.WaitsEnd` | lib/manager/store/native/store_native.cpp:349 | once calls stop arriving, the waits end within a bounded number of steps of any interleaving |
| `Progress.NeverStuckExactly` | lib/manager/store/native/file_pool.cpp:66-95 | no reachable state is stuck if and only if the pool size is at least one |
| `Progress.CloseCompletes` | lib/manager/store/native/store_native.cpp:132-162 | close may be called in every open state in which no other call runs; from there all threads make a bounded number of steps, and where they stop the store is closed and everything ever written is published |
| `Progress.RestsExactly` | lib/manager/store/native/store_native.cpp:164-202 | a reachable store has nothing to do if and only if its queue is flushed, nothing is in flight, nobody waits and its pool is full or shut down; then everything outside the active table is published |
| `Progress.MemoryBounds` | lib/manager/store/native/store_native.cpp:229-251 | memtables stay within the configured size unless only their last entry has a size, and the queue within its limit plus the blocked barriers |
| `BackPressure.SizeInFile` | lib/manager/store/native/memtable.cpp:37-40 | the byte count of a table is the length of its file less eight bytes for each record |
| `BackPressure.WriteExactly` | lib/manager/store/native/store_native.cpp:229-251 | a write waits if and only if the queue holds at least its limit of tables, the active table is not empty of bytes and the entry would exceed its limit; otherwise it is committed, to a new table exactly when the old one is full |
| `BackPressure.ResumeExactly` | lib/manager/store/native/store_native.cpp:237-251 | a blocked writer may go on if and only if the queue is shorter than its limit, and then seals the table that is active by then |
| `BackPressure.OnlyBlockedWait` | lib/manager/store/native/store_native.cpp:229-241 | whoever waits in a reachable state came in a state with these numbers and has waited since |
| `BackPressure.ObjectWaitsExactly` | lib/manager/store/native/store_native.cpp:229-241 | the same numbers decide for the object when a write waits and when it may go on |
| `Progress.FileLifeCycle` | lib/manager/store/native/file_pool.cpp:66-156 | in every reachable state, closed ones included, file numbers strictly increase from the recovered ones on and files are handed out once and in order; the pool never exceeds its size, and until it shuts down no file leaves the order |
| `FileClosing.ClosedExactlyOnce` | lib/manager/store/native/file_closer.cpp:40-82 | whatever the batching, files are closed once and in order, and all of them when the destructor has returned |
| `FileClosing.WorkerRestsExactly` | lib/manager/store/native/file_closer.cpp:63-81 | before shutdown the worker rests if and only if it holds nothing and less than a batch is pending; all other files are closed then |
| `FileClosing.FullBatchIsClosed` | lib/manager/store/native/file_closer.cpp:63-81 | a full batch does not wait for shutdown: at most three steps of the worker leave less than a batch open |
| `FileClosing.ShutdownTerminates` | lib/manager/store/native/file_closer.cpp:40-82 | once the flag is up and nothing more is scheduled, at most five steps follow in any order, and where they end the destructor has returned and everything scheduled is closed |
| `FileClosing.FileCloser.ScheduleClose` | lib/manager/store/native/file_closer.cpp:55-61 | queues the file and notifies when the batch is full or at shutdown |
| `FileClosing.FileCloser.WorkerTake` | lib/manager/store/native/file_closer.cpp:63-74 | swaps out everything pending, or returns when nothing is left at shutdown |
| `FileClosing.FileCloser.WorkerCloseBatch` | lib/manager/store/native/file_closer.cpp:76-80 | closes exactly what the worker took |
| `FileClosing.FileCloser.Finish` | lib/manager/store/native/file_closer.cpp:40-53 | the destructor with its wait for the worker ends, with everything scheduled closed |
| `FileClosing.FileCloser.Destroy` | lib/manager/store/native/file_closer.cpp:49-52 | after the join the rest is closed, so that everything scheduled has been |
| `FilePooling.FilePool.Acquire` | lib/manager/store/native/file_pool.cpp:66-82 | hands out the oldest file, or fails at shutdown with an empty pool |
| `FilePooling.FilePool.BeginReplenish` | lib/manager/store/native/file_pool.cpp:84-98 | takes the next number unless the pool shuts down |
| `FilePooling.FilePool.FinishReplenish` | lib/manager/store/native/file_pool.cpp:145-153 | the new file joins the end of the pool, or is closed at shutdown |
| `Directory.NameRoundTrip` | lib/manager/store/native/file_pool.cpp:98-104 | the number parsed from a file name is the number it was made from if that is below 2^64, with any number of digits, and otherwise the file is passed over |
| `Directory.NameExactly` | lib/manager/store/native/file_pool.cpp:98-104 | a name is the prefix, the decimal digits behind as many zeros as six places need, and the suffix |
| `Directory.NameText` | lib/manager/store/native/file_pool.cpp:98-104 | the name of file 27 |
| `Directory.ParseNameExactly` | lib/manager/store/native/sstable_manager.cpp:220-230 | a name of the form has the number of its leading digits, if there are any and it is below 2^64 |
| `Directory.SortFilesAscends` | lib/manager/store/native/sstable_manager.cpp:219-233 | found files with distinct numbers end up in ascending order of numbers, whatever the listing order |
| `Directory.RecoveryReadsPublished` | lib/manager/store/native/sstable_manager.cpp:215-285 | for every listing order the rebuilt list reads every non-empty key as the published tables did |
| `Directory.PublishKeepsDirectory` | lib/manager/store/native/sstable_manager.cpp:78-95 | writing a table's records over a file of zeros keeps the directory in the form that recovery understands |
| `DirectoryRuns.StepFits` | lib/manager/store/native/file_pool.cpp:98-153 | whatever the threads do meanwhile, every action keeps each published file complete and each file still to be written blank, also when a file is created while another is being written |
| `DirectoryRuns.DirectoryAlong` | lib/manager/store/native/sstable_manager.cpp:53-95 | so every state of every run has a directory that recovery understands, given only that the first one has |
| `DirectoryRuns.DirectoriesExist` | lib/manager/store/native/file_pool.cpp:84-153 | every run has such a sequence of directories |
| `DirectoryRuns.CloseThenReopen` | lib/manager/store/native/store_native.cpp:132-162 | after any run that ends with close, the list reopened on the directory that the run left reads every non-empty key as the map of all writes |
| `DirectoryRuns.ReopenedIsInitial` | lib/manager/store/native/sstable_manager.cpp:287-289 | the reopened store is an initial state with the closed history, on a directory that the next run can start from |
| `Crashes.DamagedFileFallsThrough` | lib/manager/store/native/sstable_manager.cpp:124-141 | a damaged newest file decides the keys that can be read from it, and the others fall through to the published tables |
| `Crashes.CrashThenReopen` | lib/manager/store/native/sstable_manager.cpp:215-285 | after a crash in any reachable state, at any byte of the file being written and with any pre-allocation, the reopened list reads every non-empty key from the surviving whole records, which are an initial segment of the history, except the remnant's key, of which the exact value is given |
| `Crashes.BarrierSurvivesCrash` | lib/manager/store/native/store_native.cpp:340-352 | whatever had been written before a barrier that has returned survives every later crash |
| `TableManager.SSTableManager.ReadValueAt` | lib/manager/store/native/sstable_manager.cpp:178-213 | returns the value of a whole record with the expected key, and nothing otherwise |
| `TableManager.SSTableManager.Get` | lib/manager/store/native/sstable_manager.cpp:124-141 | walking the list returns what the newest table from which the key can be read holds |
| `TableManager.SSTableManager.ScanNode` | lib/manager/store/native/sstable_manager.cpp:149-172 | fills in exactly the undecided keys with the prefix that the table holds |
| `TableManager.SSTableManager.Scan` | lib/manager/store/native/sstable_manager.cpp:143-176 | after the walk every key with the prefix is decided by the newest readable table unless it was decided before; the result says whether a live key was added |
| `TableManager.SSTableManager.WriteRecords` | lib/manager/store/native/sstable_manager.cpp:78-93 | the file starts with the serialised log, keeps what lay behind it, and the pairs are the record offsets |
| `TableManager.SSTableManager.Prepend` | lib/manager/store/native/sstable_manager.cpp:111-116 | after any number of spurious failures of the swap the new table is the newest of the list and the others stay |
| `TableManager.SSTableManager.FlushMemtable` | lib/manager/store/native/sstable_manager.cpp:53-117 | an empty memtable changes nothing; any other is written, indexed and published as the newest table |
| `TableManager.SSTableManager.IndexFile` | lib/manager/store/native/sstable_manager.cpp:241-262 | the recovery loop ends and collects the pairs of the scan |
| `TableManager.SSTableManager.CollectFiles` | lib/manager/store/native/sstable_manager.cpp:220-230 | keeps the table files of the listing with their numbers and finds the greatest |
| `TableManager.SSTableManager.RecoverState` | lib/manager/store/native/sstable_manager.cpp:215-290 | rebuilds the list oldest file first and returns the number after the greatest |
| `MemoryTables.Tables.Mutate` | lib/manager/store/native/store_native.cpp:233-251 | is blocked exactly when the queue is at its limit and the entry does not fit into a table that is not empty; otherwise rotates when the table would exceed its size, and appends |
| `MemoryTables.Tables.Get` | lib/manager/store/native/store_native.cpp:271-284 | the active table decides, then the queue newest first |
| `MemoryTables.Tables.Scan` | lib/manager/store/native/store_native.cpp:312-318 | the overwriting scans over the active table and then the queue, newest first |
| `ObjectRuns.GuardsAgree` | lib/manager/store/native/store_native.cpp:164-352 | a piece of the object's code may run exactly when the machine may perform its action; in particular the file that the flush thread holds always exists and is used by no other table |
| `ObjectRuns.StepSimulates` | lib/manager/store/native/store_native.cpp:132-352 | every piece of the object's code performs the machine's action, whatever the other threads are doing |
| `ObjectRuns.PublishOnDisk` | lib/manager/store/native/sstable_manager.cpp:53-117 | writing, indexing and publishing the acquired file is the machine's publish action, also when the pool's worker has created files since it was acquired |
| `ObjectRuns.PushOnDisk` | lib/manager/store/native/file_pool.cpp:98-153 | creating a file and adding it to the pool is the machine's action, also while the flush thread writes another and after shutdown |
| `ObjectRuns.NewFileIsUsable` | lib/manager/store/native/file_pool.cpp:98-104 | the worker's new file is used by no table |
| `ObjectResults.OpenSimulates` | lib/manager/store/native/store_native.cpp:95-97 | opening a directory that earlier runs left gives an object in an initial state with their history |
| `StoreViews.OpenedNumbers` | lib/manager/store/native/sstable_manager.cpp:216-289 | the first file number of an opened store is one above the greatest number found in the directory, or one |
| `StoreViews.MutationReads` | lib/manager/store/native/store_native.cpp:222-254 | a write that does not wait is what the next read of its key returns, unless it is the tombstone, and no other key reads differently |
| `ObjectResults.ObjectRunsAreMachineRuns` | lib/manager/store/native/store_native.cpp:132-352 | every run of the object from its opening on, in any interleaving, is a run of the machine, state by state |
| `ObjectResults.MachineRunsAreObjectRuns` | lib/manager/store/native/store_native.cpp:132-352 | and every run of the machine within the limits of lengths and numbers is a run of the object |
| `ObjectResults.PointReadExact` | lib/manager/store/native/store_native.cpp:264-301 | in every reachable state of the object a point read returns what the map of all writes holds, if and only if the key is not hidden |
| `ObjectResults.PointReadLinearizable` | lib/manager/store/native/store_native.cpp:264-301 | a point read whose two phases fall into different states returns what the map held in between, unless the key is hidden in the first |
| `ObjectResults.PrefixReadExact` | lib/manager/store/native/store_native.cpp:303-334 | a prefix read shows for a key what the map of all writes holds, if and only if the key is neither shadowed nor hidden |
| `ObjectResults.PrefixReadLinearizable` | lib/manager/store/native/store_native.cpp:303-334 | with its two phases in different states it shows what the map held in between, unless the key is shadowed or hidden in the first |
| `ObjectResults.BarrierReachesDisk` | lib/manager/store/native/store_native.cpp:340-352 | when a barrier of the object may leave, the tables on disk read like an initial segment of the history that holds everything written before its call |
| `ObjectResults.CloseThenOpenReads` | lib/manager/store/native/store_native.cpp:132-162 | after any run of the object that ends with close, the next object reads every non-empty key as the map of all writes |
| `ObjectResults.CloseThenOpenRuns` | lib/manager/store/native/store_native.cpp:132-162 | and its directory is one that the next run can start from, with the same history |
| `ObjectCalls.FlushIsPath` | lib/manager/store/native/store_native.cpp:204-212 | a flush, with its wait for a file, is a path of the object |
| `ObjectCalls.CloseIsPath` | lib/manager/store/native/store_native.cpp:144-162 | the end of close is a path of the object, also when it waits for a file |
| `ObjectCalls.CloseIsPossible` | lib/manager/store/native/store_native.cpp:144-162 | in every reachable state close can run to its end, provided only that the pool may hold a file and numbers are not used up |
| `ObjectCalls.CloseCallThenOpenReads` | lib/manager/store/native/store_native.cpp:132-162 | from every reachable state in which the flush thread has been joined, close leaves a directory on which the next object reads every non-empty key as the map of all writes |
| `NativeStore.Store.constructor` | lib/manager/store/native/store_native.cpp:67-102 | the new object has empty memory, the recovered tables, a pool that starts above them and a closer whose batch is the pool size |
| `NativeStore.Store.BatchMutation` | lib/manager/store/native/store_native.cpp:222-254 | writes the pair, or the tombstone for a deletion, or blocks with nothing changed, by the queue length and the byte counts; afterwards the key reads as written and every other key as before |
| `NativeStore.Store.ResumeMutation` | lib/manager/store/native/store_native.cpp:242-251 | after the wait the table that is active by then is rotated, and the entry appended; the key reads as written and every other key as before |
| `NativeStore.Store.EnterBarrier` | lib/manager/store/native/store_native.cpp:340-347 | a non-empty active table joins the queue whatever the queue's length |
| `NativeStore.Store.BarrierDone` | lib/manager/store/native/store_native.cpp:349 | the wait may end exactly when the queue is empty and no flush is in progress |
| `NativeStore.Store.PopForFlush` | lib/manager/store/native/store_native.cpp:177-181 | the oldest table leaves the queue and the flag goes up together |
| `NativeStore.Store.AwaitFile` | lib/manager/store/native/file_pool.cpp:66-73 | while the pool is empty its worker makes the next file, after which there is one |
| `NativeStore.Store.AcquireFile` | lib/manager/store/native/file_pool.cpp:75-81 | takes the oldest file of the pool |
| `NativeStore.Store.PublishTable` | lib/manager/store/native/sstable_manager.cpp:53-117 | the file holds the table's records in front of what was behind them, its index is published, and the file is handed to the closer |
| `NativeStore.Store.FlushMemtableToL0` | lib/manager/store/native/store_native.cpp:204-212 | an empty table changes nothing; any other gets the pool's oldest file, if need be after a wait, and is written and published |
| `NativeStore.Store.ClearFlush` | lib/manager/store/native/store_native.cpp:195-198 | lowers the flag and changes nothing else |
| `NativeStore.Store.StartFile` | lib/manager/store/native/file_pool.cpp:88-98 | takes the next file number |
| `NativeStore.Store.PushFile` | lib/manager/store/native/file_pool.cpp:106-153 | the new file, with as many zeros as are pre-allocated, is in the directory, and at the end of the pool unless that has shut down |
| `NativeStore.Store.Get` | lib/manager/store/native/store_native.cpp:264-301 | returns the live value that memory, then disk, decide for the key |
| `NativeStore.Store.GetPrefix` | lib/manager/store/native/store_native.cpp:303-334 | lists exactly the live keys with the prefix, distinct and in ascending byte order, with the values the scans decide; the result says whether there are any |
| `NativeStore.Store.CloseAfterJoin` | lib/manager/store/native/store_native.cpp:144-162 | flushes what is left, oldest first and waiting for files where it must, closes every file that was handed over, and shuts the pool down |
| `Collective.RoundsServeInOrder` | lib/manager/client/client.cpp:228-262 | rounds in rank order handle each rank's commands once each and in its order |
| `Collective.RoundsExactly` | lib/manager/client/client.cpp:228-262 | rounds handle exactly the commands with numbers below their count, round by round and within a round in rank order |
| `Collective.AnsweredExactly` | lib/manager/client/client.cpp:251-261 | answered are gets, metadata gets, metadata lists and both barriers, and nothing else |
| `Collective.AnswersExactly` | lib/manager/client/client.cpp:251-261 | the answers are to the handled commands with these operations, in the order of handling |
| `CollectiveRuns.StepKeepsInv` | lib/manager/client/client.cpp:199-271 | every send, receive and handling keeps the channels, the round counters and the order of handling |
| `CollectiveRuns.AnswersAreOwn` | lib/manager/client/client.cpp:251-261 | an answer under way to a client is the answer to the command it waits on, which has been handled |
| `CollectiveRuns.DoneServesAll` | lib/manager/client/client.cpp:206-221 | when the loop has ended all clients had the same number n of commands, n+1 rounds were made, every command was handled once in order, and nobody waits |
| `CollectiveRuns.WaitsForever` | lib/manager/client/client_mpi.cpp:69-82 | a server that waits for a rank that has shut down still waits in every later state of the run, having handled nothing more |
| `CollectiveRuns.FinishesExactly` | lib/manager/client/client.cpp:199-271 | a run that cannot continue has finished if and only if all clients sent equally many commands; otherwise the server waits for the first rank with the fewest |
| `CollectiveRuns.RunsEnd` | lib/manager/client/client.cpp:199-271 | the length of every run is bounded by the work at its start |
| `CollectiveServer.WaitForCommand` | lib/manager/client/client.cpp:199-271 | the loop finishes exactly for scripts of equal length, having passed all commands to the callback round by round in rank order, and otherwise blocks on the first rank with the fewest; it answers every handled get, metadata get, metadata list and barrier, in that order, and nothing else |
| `CollectiveServer.ServeRound` | lib/manager/client/client.cpp:224-265 | one round either handles a message of every rank or blocks on a rank that has ended |
| `CollectiveServer.ReceiveRound` | lib/manager/client/client_mpi.cpp:63-88 | receives from every rank, shut down or not, and blocks on the first that sends nothing more |
| `CollectiveServer.HandleRound` | lib/manager/client/client.cpp:228-262 | marks the ranks whose message is the end of life, passes the other commands on in rank order and answers those whose clients wait |
| `Codecs.DecodeExact` | lib/manager/client/client.cpp:109-137 | decoding gives a triple if and only if the buffer is its encoding and its command and key have no separator and no NUL byte |
| `Codecs.MessageRoundTrip` | lib/manager/client/client.cpp:232-261 | the server reads the command that was sent if and only if its key is clean and its operation has a usable name |
| `Codecs.WireTexts` | lib/manager/client/client.cpp:53-60 | the text of every kind of message |
| `Codecs.AnswerArrives` | lib/manager/client/client.cpp:251-261 | the client reads its answer, whatever bytes the value has, if and only if its key is clean, and takes no other operation's answer for it |
| `Codecs.AnswerTexts` | lib/manager/client/client.cpp:62-66 | the text of every kind of answer |
| `Codecs.VectorTupleSerialize` | lib/manager/manager.cpp:49-56 | the loop writes one line per entry |
| `Codecs.VectorTupleDeserialize` | lib/manager/manager.cpp:58-75 | the line loop yields the entries of the lines that have a bar |
| `Codecs.ParseSplits` | lib/manager/manager.cpp:58-75 | a line is cut at its first bar, a line without one yields nothing, and the last line need not end |
| `Codecs.LineTexts` | lib/manager/manager.cpp:49-56 | the text of a list of two entries |
| `Codecs.ListRoundTrip` | lib/manager/manager.cpp:49-75 | the metadata list is read back if and only if its keys have no bar and no newline and its values no newline |
| `RankIsolation.RankedKeyIsInjective` | lib/manager/manager.cpp:230-236 | the ranked key tells the rank and the key |
| `RankIsolation.KeyTexts` | lib/manager/manager.cpp:230-236 | the text of a ranked key, of a metadata key and of the prefix of a rank |
| `RankIsolation.DataIsNotMeta` | lib/manager/store/store.cpp:59-74 | no data key of any rank is a metadata key |
| `RankIsolation.MetaTagSelects` | lib/manager/manager.cpp:500-504 | the prefix of metaGetAll selects exactly the metadata keys of the rank |
| `RankIsolation.MetaTagSparesOthers` | lib/manager/store/store.cpp:64-69 | it selects no other rank's metadata and no data key |
| `RankIsolation.RanksAreIsolated` | lib/manager/manager.cpp:485-517 | over any interleaving of commands of all ranks, the shared store under a rank's keys equals the maps the rank would have alone |
| `RankIsolation.RepliesAreOwn` | lib/manager/manager.cpp:492-509 | every answer, empty for a missing key, is the answer the rank would get alone |
| `RankIsolation.ReplyIsLastWrite` | lib/manager/manager.cpp:485-506 | the answer to a get or a metadata get is the value of the rank's own last write of the key, and empty after a deletion or a tombstone |
| `RankIsolation.ReplyWithoutWrite` | lib/manager/manager.cpp:485-506 | without such a write it is what the store held before, or empty |
| `RankIsolation.MetaListIsLastPuts` | lib/manager/manager.cpp:498-504 | the answer to metaGetAll lists in key order the rank's last metadata put of each key, under its full key |
| `RankIsolation.AnsweredAreTold` | lib/manager/client/client.cpp:251-261 | answered are exactly the operations whose answer can carry something, and the barriers |
| `RankIsolation.SharedIsContents` | lib/manager/manager.cpp:485-517 | the shared map is the map of the store's write history, from any history on |
| `RankIsolation.MetaListArrives` | lib/manager/manager.cpp:385-407 | the client parses exactly its own metadata under full keys, if and only if they fit the list format |
| `CollectiveResults.FinishedRunLeavesScripts` | lib/manager/client/client.cpp:199-271 | when the server is done, every client's keys hold what its script alone would have left, whatever the interleaving and the aggregator's own operations |
| `CollectiveResults.FinishedRunHoldsLastWrites` | lib/manager/client/client.cpp:199-271 | on values: what a client's script wrote last under a key is what the store holds for it in the end |
| `Managers.Manager.CallbackForCollectiveIO` | lib/manager/manager.cpp:485-517 | performs the command on the native store under the ranked key, up to its return or its wait, says which, and leaves the value that is sent back |
| `Managers.Manager.ResumeCallback` | lib/manager/manager.cpp:494-506 | a blocked write goes on after its wait with the ranked key and the value, or the tombstone |
| `Managers.AnswerIsFromMap` | lib/manager/manager.cpp:485-517 | whatever happens between the two phases of the read, the answer is the answer from the map of all writes, unless something it reads was hidden or shadowed or is being written |
| `Managers.CallbackAnswersFromMap` | lib/manager/manager.cpp:485-517 | in every reachable state the callback's uninterrupted answer is the answer from the map of all writes, unless something it reads is hidden or shadowed |
| `Managers.ClientIsToldItsOwn` | lib/manager/manager.cpp:485-517 | with the flush thread and the aggregator working meanwhile, a client is told what it would be told if it had a store to itself, unless something it reads is hidden or shadowed |
| `CallbackRuns.WriteCallbackIsStep` | lib/manager/manager.cpp:494-506 | the callback of a put, deletion or metadata put is the object's write of the ranked entry in every state of every run; it waits by the queue length and the byte counts, and otherwise the entry joins the history |
| `CallbackRuns.ResumedCallbackIsStep` | lib/manager/manager.cpp:494-506 | after its wait it goes on as the object's writer does |
| `CallbackRuns.BarrierCallbackIsStep` | lib/manager/manager.cpp:507-508 | the callback of a write barrier is the object's barrier, and waits exactly while that may not leave |
| `CallbackRuns.ReadCallbackChangesNothing` | lib/manager/manager.cpp:492-512 | every other command leaves the store alone and waits for nothing |
| `CallbackRuns.AnsweredBarrierIsOnDisk` | lib/manager/manager.cpp:507-508 | when a client's write barrier is answered, everything in the history at its call is in published tables |
| `CallbackRuns.ClientIsToldItsLastWrite` | lib/manager/manager.cpp:485-517 | on values: with the flush thread and the aggregator working meanwhile, a client's get is answered with the value it last wrote, and with nothing after a deletion, unless the key is hidden |
| `CallbackRuns.ClientIsListedItsLastPuts` | lib/manager/manager.cpp:498-504 | and its metaGetAll with its last metadata puts in key order, unless one of them is hidden or shadowed |

## Left out

- File creation and writes are assumed to succeed, keys and values to be shorter than 2^32
  bytes, and file numbers to stay below 2^64; the exceptions and error returns that the flush
  thread swallows are not modelled.
- `FilePool::replenish` retries after a failed creation; the numbers it skips are not modelled.
- The memory order of atomics: all of them are sequentially consistent here.
- Condition variables are guards that are re-evaluated; a notification that is lost at
  shutdown is not modelled, and no client call runs concurrently with `close` or after it.
- `std::sort`, `std::unique`, `std::lower_bound`, `std::map`, `strchr` and `std::getline` are
  stood for by functions or short loops of their own.
- Names in the store's directory are those that the pool makes. What `std::stoull` accepts
  beyond digits, such as leading blanks or signs, and other files with such names are not
  modelled.
- CloseThenReopen: speaks of non-empty keys, like the other reopening theorems, because with
  pre-allocation trailing zero bytes parse as records of the empty key
  (`Recovery.RecoveredReadsLog` says what the empty key then reads as).
- PrefixGetLinearizableExactly: speaks of one key at a time; the list as a whole need not be a
  snapshot of one moment (`PrefixReads.ListMixesMoments`).
- WaitForCommand: says which commands reach the callback and which are answered, in which
  order; what the callback does with the store is in `Managers`.
- CallbackForCollectiveIO: a blocked write and a barrier return at their wait; the write goes on
  in `ResumeCallback`, and the barrier ends when `BarrierDone` says so.
- `NativeStore.Store` methods are not interrupted; interleavings of its pieces of code are
  covered by `ObjectRuns`, and those of single loads and swaps by `Publication`.
- A crash leaves published files complete: what the operating system may lose of files that
  were flushed but not synchronised is not modelled.
- The comment on `SSTableManager::scan` promises to return true for deleted entries too; the
  code returns true only for live ones, and so does the model.
- `READ_BARRIER` is answered by the server although the callback logs it as unknown; the model
  follows the code. Return values that nothing looks at are not modelled.
- A message that cannot be decoded is undefined in the source and nothing here; clients are
  assumed to send decodable messages, which `Codecs.MessageRoundTrip` characterises.
- The answer channel holds any number of answers; at most one is ever under way.
- The aggregator's own `metaGetAll` without a rank filter, its barriers, byte and operation
  counters, and the local and single-rank routing of `LSMIOManager`.
- The RocksDB, LevelDB and ADIOS back ends, the POSIX layer, MPI communicator splitting,
  start-up and shutdown barriers, configuration, logging and benchmarks.
