# DiskMap: a verified model

DiskMap is a disk-backed key/value store built in layers: a buffer pool over the data file, a write-ahead
log with transactions and crash recovery, a space manager that hands out regions of pages, values that
spread over chains of regions, and a hash trie whose leaves pack keys and values on a page. This project
models each layer in Dafny and proves what the layer is for.

`dafny verify dfyconfig.toml` checks everything.

## The layers and their main results

**Log and recovery.** `LogSemantics` says what a sequence of log records means for one byte of the data
file, and which record may follow which (a SET saves what it overwrites and stays off bytes that another
open transaction has set; a CLR undoes the last SET not undone yet; ...). Over every log that obeys this
and every disk whose bytes each reflect some prefix of it, recovery leaves the base image plus the SETs of
committed transactions (`Undo.RecoveryFromAnyDisk`), also when it crashes and starts over any number of
times (`Undo.RecoveryIsRestartable`). `RedoUndo.Run` is the procedure itself: the redo pass, the search
for unfinished transactions, the reverse undo. `Abort` proves that abort restores every byte and undoes exactly
what no CLR has undone. `CrashSafety` is a state machine over whole runs (append, flush, write-back,
checkpoint, restart, crash during recovery, crash in a torn flush) and proves that at every point of every
run a crash leaves exactly the durably committed image and that every step is a step of an atomic store.
`Wal.Wal` is the class over the real buffer pool and log file: its invariant says that its state is a state
of that machine, and its methods take the steps. `Reopen.Reopen` closes the circle: from the log file and
the data file of such an object after a crash, torn at the end or not, loading, recovery and truncation give
another such object, whose state is that of the restart step and which shows the durably committed bytes.

**Log file.** `LogCodec` and `WalLog` have the record layout, the printer, the loader and the file. What was
stored is loaded, nothing that the file does not hold is, and loading stops where a checksum is wrong.

**Buffer pool and replacer.** `Replacer` has the doubly linked list on the heap with its hash map;
`BufferPool.Pool` the slots, the page table, pins, dirty flags and evictions. Readers see the same bytes
whatever is evicted, nothing is written back before its log records are durable, and whoever pins a page
gives it back.

**Space manager.** `Ownership` is the abstract allocator, a partition of all pages. `SpaceManager` works on
the bytes of the meta page and of the linked list pages, which come out of the pool they manage.

**Values over several regions.** `BigValue` proves that the read and write loops implement one flat byte
array; `ValueRegions` that chains grow and are freed as the allocator and the flat array want it; `BigLeaf`
that a leaf with one big entry is written to, grown in, freed from and read from such a chain.

**Leaves and trie.** `LeafCodec` and `LeafEdits` work on the bytes of a leaf page, `HashTrie`, `TrieEdits`
and `DiskMap` on internal nodes and leaves as lists of entries. `DiskMap.DiskMap` refines a map from keys
to values. `LostKeys` has the inputs at which it does not. `TriePages` says which pages the trie consists of:
none is leaked by any operation, and what a removal frees and moves is determined.

## Where the code does not do what it is for

Each of these is a theorem about the model; the code is modelled as it is.

- `begin` returns the LSN of the BEGIN record, but the record carries another counter as its transaction
  id. Abort finds all SETs of its transaction if and only if no BEGIN with that id comes after one of them
  (`Abort.ScanIsCompleteIff`). That holds for serial transactions (`Wal.SerialScanSeesAll`) and fails for
  interleaved ones (`Abort.InterleavedAbortMissesSet`).
- A truncation of the log file does not forget the records in memory that were never flushed, so after a
  restart the next flush writes the whole old log again. A crash then leaves the durably committed byte if
  and only if the records that got into the file recover it, in case they write it at all
  (`CrashSafety.TornFlushIff`). Tears that do no harm at any byte are steps of the state machine; a run of
  six steps leads to a state in which one takes back a durable commit (`CrashSafety.TornFlushLosesCommit`).
- A shorter value leaves the old last bytes of the page behind, and then the page parses to its entries if
  and only if the first of them is zero (`LeafEdits.ShorterParsesIff`, `LeafEdits.LastShorterByte`).
- Overwriting a value that needs several regions frees its chain and then goes on reading the freed first
  page. The page still holds the entry if and only if every free list that a region of the chain went to
  had room; otherwise one of these lists has taken the page for itself and cleared it (`BigLeaf.FreedReads`,
  on the bytes, in files of less than 65536 pages). The key is lost if and only if the page was cleared or
  the new value fits on a page, and exactly then the entry count goes wrong (`DiskMap.DiskMap.Write`;
  inputs: `LostKeys.SmallOverBig`, `LostKeys.BigOverBig`, and `LostKeys.FillList` for a list without room).
- A removal that leaves an internal node as the only child moves it up one level without re-bucketing. The
  map is kept if and only if all keys below that node take the slot of the node on every level
  (`TrieEdits.CollapseKeepsIff`, `DiskMap.DiskMap.Remove`; input: `LostKeys.RemovalLosesOthers`). The entry
  count then still counts the keys that cannot be found any more.
- Writing a part of a missing key stores the first bytes of the zeros up to the offset and the buffer, which
  is the part itself if and only if the offset is 0 (`DiskMap.DiskMap.WritePart`).
- From the ninth level on `get_bucket` returns 0 whatever the hash function (`HashTrie.GetBucket`), so keys
  with the same 64-bit hash are never told apart.

## Model

| member | source | states |
|---|---|---|
| Recovery.RecoveryIsAtomic | wal.cpp:207-249 | over the base image, redo of a well-formed log followed by reverse undo leaves at every byte the base value with exactly the SETs of committed transactions, in log order |
| Recovery.SetKeepsGood | wal.cpp:361-390 | a SET that saves the old value and stays off other open transactions' bytes keeps redo, undo and the committed image in step |
| Recovery.ClrKeepsGood | wal.cpp:112-135 | a CLR for the last SET not undone restores what that SET found and keeps the three in step |
| Recovery.CommitKeepsGood | wal.cpp:291-304 | a COMMIT makes the bytes its transaction last wrote the committed ones |
| Recovery.AbortEndKeepsGood | wal.cpp:349-355 | an ABORT_END comes when nothing of the transaction is left to undo, so committed and replayed bytes agree |
| Undo.RecoveryFromAnyDisk | wal.cpp:207-249 | the same outcome over any disk image each of whose bytes reflects some prefix of the log, whatever the prefixes |
| Undo.RecoveryIsRestartable | wal.cpp:207-249 | recovery of the log extended by any CLRs of unfinished SETs, over any partly recovered disk, ends in the same image, although SETs are undone again |
| Undo.RecoveryAfterAbortEnds | wal.cpp:251-260 | the same when some ABORT_END records already follow the complete CLRs, again over any partly recovered disk |
| Undo.RecoveryReplays | wal.cpp:243-249 | the CLRs recovery writes, replayed, compute what its undo pass computes |
| Undo.ClrsKeepRecovered | wal.cpp:243-249 | CLRs of unfinished SETs, in any order and number, never change the outcome of recovery |
| Undo.RedoTwice | wal.cpp:207-223 | replaying a log over its own result changes nothing |
| Abort.ScanIsCompleteIff | wal.cpp:316-340 | the BEGIN search of a first abort makes it see all its SETs if and only if no BEGIN that carries its id follows one of them |
| Abort.AbortRestores | wal.cpp:306-359 | when the scan sees all SETs, every byte the transaction SET holds again what it held before the first of them, all others are untouched, and the log stays well-formed |
| Abort.UndoRestores | wal.cpp:326-347 | undoing what the stack scan collects puts every byte the transaction SET back to what it held before the first of those SETs, also when a part had been undone already |
| Abort.StackIsNotUndone | wal.cpp:326-340 | the stack scan collects exactly the SETs of the transaction that no later CLR has undone |
| Abort.UndoIsWellFormed | wal.cpp:341-355 | the records of an abort obey the log discipline one by one and finish the transaction |
| Abort.SecondAbortChangesNothing | wal.cpp:326-347 | a second abort finds nothing left and changes no byte |
| Abort.InterleavedAbortMissesSet | wal.cpp:284-288 | a concrete interleaved run in which an abort leaves a SET of its transaction in place |
| Abort.StackShifts | wal.cpp:326-340 | records in front of the log that do not mention the transaction do not change what abort undoes |
| CrashSafety.CrashSafe | wal.cpp:188-261 | in every state that satisfies the invariant, a crash and recovery leave exactly the durably committed image |
| CrashSafety.StepKeepsInv | wal.cpp:137-186 | every step, flush, write-back under the write-ahead rule, checkpoint, restart, crash during recovery and harmless torn flush included, keeps the invariant |
| CrashSafety.StepRefines | wal.cpp:137-186 | every step acts on the committed and the durably committed image as a step of an atomic store does |
| CrashSafety.RunsAreCrashSafe | wal.cpp:64-261 | both hold at every point of every run that starts with an empty log |
| CrashSafety.CommitIsDurable | wal.cpp:291-304 | once the COMMIT record is flushed, the bytes the transaction SET survive a crash as they are in memory |
| CrashSafety.CommitPublishes | wal.cpp:291-304 | a COMMIT record makes the bytes of its transaction committed, and no others |
| CrashSafety.RestartKeepsInv | wal.cpp:188-261 | recovery followed by truncation leads back into the invariant, with the whole old log still in memory |
| CrashSafety.CrashAgainKeepsInv | wal.cpp:207-261 | so does a recovery that crashes, wherever each byte of the file got to |
| CrashSafety.CheckpointKeepsInv | wal.cpp:166-186 | so does a checkpoint, with the unflushed tail of the log still in memory |
| CrashSafety.TornFlushIff | wal.cpp:137-156 | after a crash in a flush torn among the records a truncation kept, a byte is the durably committed one if and only if those that got written recover it or do not write it |
| CrashSafety.TornRestartRefines | wal.cpp:137-205 | when that holds at all bytes, the crash, recoveries that crash too and one that completes lose nothing |
| CrashSafety.TornFlushLosesCommit | wal.cpp:137-156 | a run of four appends, a flush and a restart, after which a torn flush takes back a durable commit |
| LogCodec.LoadStored | wal.cpp:60-75 | loading where a record was stored gives the record, its size and a matching checksum |
| LogCodec.LoadReturnsStored | wal.cpp:188-205 | the load loop returns exactly the stored records when what follows is the end of the file or fails its checksum |
| LogCodec.TornLogLoadsPrefix | wal.cpp:188-205 | from a log cut off at any byte the loop returns the records wholly before the cut, and no more unless the cut record passes its checksum |
| LogCodec.LoadsIffIntact | wal.cpp:194-202 | a record is taken if and only if the four bytes it starts with are the checksum of its remaining bytes, whatever the checksum function is |
| LogCodec.LoadIsSound | wal.cpp:188-205 | nothing is made up: the records loaded from any file, encoded, are its bytes up to where the loader stops, zeros past the end included |
| WalLog.Log.Push | wal.cpp:288-289 | records keep strictly increasing LSNs, and the file still holds the encoding of the flushed ones |
| WalLog.Log.Flush | wal.cpp:137-156 | the file grows by the encoding of the unflushed records and then holds all records since the last truncation |
| WalLog.WriteAtBytes | wal.cpp:152-153 | a write into the file replaces the bytes of its range, which may extend the file, and no others |
| WalLog.Log.FlushUpTo | wal.cpp:158-164 | afterwards every record that is not durable has a greater LSN; nothing is written when that is so already |
| WalLog.Log.Truncate | wal.cpp:178-181 | the file is empty, and records never flushed stay unflushed |
| WalLog.Log.Load | wal.cpp:188-205 | the records loaded are those whose encodings, checksums included, the file holds from its start on; behind them the file ends, or its next four bytes are not the checksum of the record that would follow |
| Replacer.LruReplacer.Insert | replacer.cpp:15-45 | the value becomes the first of the duplicate-free sequence, the others keep their order, although a node moved to the front keeps a stale back link |
| Replacer.LruReplacer.Remove | replacer.cpp:47-70 | the value is in the sequence no more, the others keep their order; says whether it was there |
| Replacer.LruReplacer.Evict | replacer.cpp:72-79 | takes out the last value of the sequence, -1 exactly when it is empty |
| Replacer.DualPriorityReplacer.Insert | replacer.cpp:81-92 | the two lists stay disjoint; an important value stays important |
| Replacer.DualPriorityReplacer.Remove | replacer.cpp:94-98 | stopping at the first hit leaves the value in neither list |
| Replacer.DualPriorityReplacer.Evict | replacer.cpp:100-106 | the least recent unimportant value if there is one, else the least recent important one, else -1 |
| Replacer.WithoutAt | replacer.cpp:47-70 | in a duplicate-free sequence, removing a value cuts out its one position |
| BufferPool.LoadIsTransparent | buffer_pool.cpp:30-76 | giving a slot to another page shows readers the same bytes of every page and writes at most the evicted dirty page, as readers saw it |
| BufferPool.Pool.Retain | buffer_pool.cpp:18-77 | pins a page, and no other, in a free slot if there is one, else in that of the least recent unimportant unpinned page, else of the least recent important one: views of all pages are unchanged, table and slots stay inverse, evictions obey the write-ahead rule, and the log is flushed only for a dirty page that leaves; fails exactly when every slot is pinned |
| BufferPool.RoomStays | buffer_pool.cpp:18-88 | with as many handles on every page as before there is a slot to be had whenever there was one before, whatever was loaded and evicted meanwhile |
| BufferPool.Pool.Release | buffer_pool.cpp:79-88 | gives up a pin; with the last one the slot becomes the most recent evictable one of its priority; fails exactly when there is none |
| BufferPool.Pool.Update | buffer_pool.cpp:116-122 | bytes written through a handle show at that page only, the page is dirty and its LSN does not fall |
| BufferPool.Pool.Modify | buffer_pool.cpp:90-122 | the same under a handle of its own, pinned and released around the write, so that every page has as many handles as before |
| BufferPool.Pool.FlushAll | buffer_pool.cpp:129-139 | the file holds what readers see, nothing is dirty, and no view changes |
| Wal.EvictionKeepsInv | buffer_pool.cpp:58-68 | whatever an eviction flushes and writes back is a legal step of the crash-safe state machine: the records that touched the page are durable first |
| Wal.EvictionKeepsTracking | buffer_pool.cpp:58-68 | every record that is not durable has its page cached and dirty with at least its LSN, also after an eviction |
| Wal.AppliedAndPushed | wal.cpp:361-390 | once a record is both applied to its page and pushed, in either order, pool and log agree again at every byte |
| Wal.Wal.Set | wal.cpp:361-390 | the range holds the data and fill zeros and nothing else changes; the record saves what was there, trimmed of trailing zeros; the invariant of the state machine is kept; every page has as many handles afterwards as before, and it fails exactly when the page is not cached and every slot is pinned |
| Wal.GetUnpaddedLength | wal.cpp:48-58 | the least length behind which all bytes are zero |
| Wal.Wal.Begin | wal.cpp:274-289 | the name returned is the LSN of the record, no earlier record carries it, and it may begin to set bytes |
| Wal.Wal.Commit | wal.cpp:291-304 | when it returns, a crash leaves the bytes the transaction SET as they are in memory |
| Wal.Wal.Abort | wal.cpp:306-359 | every byte goes back to what it held before the first SET of the transaction, none other changes, and exactly the abort records are appended; every page has as many handles as before |
| Wal.FindScanStart | wal.cpp:316-324 | the loop finds the first BEGIN that carries the id |
| Wal.CollectUndo | wal.cpp:326-340 | the loop computes the undo stack |
| Wal.SerialScanSeesAll | wal.cpp:284-340 | in a serial run, also one that follows a recovery, the search neither skips a SET of the transaction nor meets one of another |
| Wal.NameIsNew | wal.cpp:274-289 | because ids stay at or below LSNs, no record before a transaction's own BEGIN carries its name |
| Wal.Wal.Checkpoint | wal.cpp:166-186 | the file holds the contents of memory, the log file is empty, and a crash changes nothing |
| Wal.Wal.constructor | wal.cpp:399-413 | a log over a data file that needs no recovery starts in the invariant |
| Wal.Wal.Reopened | wal.cpp:399-413 | a log over a recovered data file starts in the invariant, with all old records in memory and none in the file |
| Reopen.Reopen | wal.cpp:188-261 | from the files of any state after a crash, torn behind what was flushed or harmlessly before: load, recovery and truncation give a log in the invariant, in the state of the restart step, that shows the durably committed bytes |
| Reopen.LoadAndRecover | wal.cpp:188-261 | the records left in memory are the loaded ones, the CLRs and the ABORT_ENDs of recovery, and every byte is the recovered one; new transactions get ids that no record has |
| Reopen.StateIsReopenable | wal.cpp:137-156 | the log file of every log in the invariant holds exactly the durable records of its state, and the state can be opened again |
| RedoUndo.ApplyRecord | wal.cpp:77-110 | the covered bytes hold the value and fill zeros, all others are unchanged |
| RedoUndo.Replay | wal.cpp:207-223 | the redo pass: the bytes, the finished transactions, and numbers above all of the log |
| RedoUndo.FindUnfinished | wal.cpp:225-241 | exactly the SETs of unfinished transactions in order, and exactly the unfinished ids |
| RedoUndo.UndoSets | wal.cpp:243-249 | the undo pass restores last to first and appends the matching CLRs |
| RedoUndo.EndAborted | wal.cpp:251-260 | exactly one ABORT_END for every unfinished transaction, numbered on |
| RedoUndo.Run | wal.cpp:207-261 | the store holds the recovered value of every byte; the log grew by recovery's CLRs and one ABORT_END for each transaction it names and does not finish, numbered on from the least LSN behind it; the next transaction id is the least behind all ids |
| RedoUndo.RecoveredNames | wal.cpp:207-260 | after recovery LSNs still increase strictly and ids are at most LSNs |
| Ownership.RunsKeepPartition | space_manager.cpp:17-108 | after any run of allocations and valid frees on a new file, every page handed out lies in exactly one live region, free region or list page |
| Ownership.EveryPageHasOneOwner | space_manager.cpp:17-108 | what the partition says page by page |
| Ownership.FreeThenAllocate | space_manager.cpp:17-108 | freeing a region and allocating one of its order gives the same region and the same state |
| Ownership.AllocatedKeepsPartition | space_manager.cpp:17-55 | an allocation keeps the partition and hands out a region that was not live |
| Ownership.FreedKeepsPartition | space_manager.cpp:57-108 | a free keeps the partition and takes out exactly the freed region, also when it takes a page for the list |
| SpaceManager.Allocate | space_manager.cpp:17-55 | for orders whose size an `int` can hold: pops the stack of the order or bumps the end when it is empty; the region reads all zero; of the other pages only the meta page changes |
| SpaceManager.FreeRegion | space_manager.cpp:57-108 | pushes the region, across list pages; when one more entry would leave the last page and none is linked behind it, an order-0 page becomes the next list page instead; live pages keep their bytes; fails exactly for reserved pages |
| SpaceManager.TakeLastEntry | space_manager.cpp:41-53 | the stack is popped across page boundaries, and a zero count stays only on the first list page |
| SpaceManager.PopRepresents | space_manager.cpp:41-53 | the linked pages and the count denote the stack without its top |
| SpaceManager.PushRepresents | space_manager.cpp:64-73 | an entry on a page with room denotes the stack with the region on top |
| SpaceManager.MoveRepresents | space_manager.cpp:100-107 | so does the first entry of the next linked page |
| SpaceManager.LinkRepresents | space_manager.cpp:79-95 | linking a page leaves the stack as it was |
| SpaceManager.InitMeta | diskmap.cpp:25-45 | a new file represents the empty allocator |
| SpaceManager.PageLayouts | page_types.h:17-29 | the fields of the meta page and of a list page lie side by side, the entries of a list page end where the page does, and orders up to 30 are those whose shift an `int` can hold |
| BigValue.PlaceFromInverse | big_value.h:19-37 | the map from value offsets to bytes of regions stays behind the headers and is injective |
| BigValue.PlaceFromAt | big_value.h:19-37 | every byte behind a header is the place of a value byte |
| BigValue.PlaceInChain | big_value.h:19-37 | exactly the offsets below the size of the chain lie in it |
| BigValue.LastRegionSize | big_value.cpp:20-49 | the last region of a chain is the last whose size in bytes an `int` shift can give |
| BigValue.Seek | big_value.cpp:20-49 | skipping regions, pages and bytes ends at the place of the offset |
| BigValue.NextPage | big_value.cpp:75-88 | the step to the next page or region; fails exactly at the end of the chain |
| BigValue.Read | big_value.cpp:7-94 | the buffer is the slice of the flat value; fails exactly when the chain is too short |
| BigValue.Overwrite | big_value.cpp:7-90 | the flat value is spliced, links, headers and other pages are untouched; of a chain that is too short the part that fits is written |
| BigValue.PieceWriteValue | big_value.cpp:52-74 | one page-sized write splices the flat value |
| BigValue.PieceWriteSpares | big_value.cpp:52-74 | and leaves links, headers and all other pages |
| ValueRegions.ChainSizeClosed | big_value.cpp:105-115 | the capacity of k + 1 regions is 4078 + 4096 (2^(k+1) - 2) - 8 k bytes |
| ValueRegions.RequiredContinuationRegions | big_value.cpp:105-115 | the least number of regions whose capacity suffices, for sizes up to that of the largest region an `int` shift can give |
| BigValue.RegionsForIsLeast | big_value.cpp:105-115 | the region of its last byte decides how many regions an entry takes |
| ValueRegions.CreateContinuationRegions | big_value.cpp:117-151 | the old chain is a prefix of the new one, region i has order i and is live, the value grows by zeros, and no more regions are added than needed |
| ValueRegions.LinkedValue | big_value.cpp:138-149 | linking one more region extends the value by zeros |
| ValueRegions.Write | big_value.cpp:96-103 | after growing, and only as far as needed, the value is the old one with zeros behind it and the buffer spliced in; other live pages and the page header are untouched |
| ValueRegions.FreeLeaf | diskmap.cpp:429-440 | exactly the regions of the chain stop being live, each above order 0 is on top of the free list of its order, live pages keep their bytes, and the first page keeps its own if and only if none of these lists lacked room; else it has become a list page |
| ValueRegions.AllocatedLive | space_manager.cpp:17-55 | the region handed out meets no live region |
| ValueRegions.LiveWritesKeepSpace | space_manager.cpp:17-108 | writing to live pages never disturbs the allocator |
| LeafCodec.FindEntryInLeaf | diskmap.cpp:186-208 | the offset of the first entry with the key, -1 exactly when there is none, also on the first page of a big value |
| LeafCodec.GetEntriesInLeaf | diskmap.cpp:210-231 | the loop, against the parse function |
| LeafCodec.ParsesBackIff | diskmap.cpp:210-231 | encoded entries parse back if and only if the page ends behind them or the next byte is zero |
| LeafCodec.EncodingIsUnique | page_types.h:58-64 | different lists of entries have different encodings |
| LeafCodec.BigParses | diskmap.cpp:210-231 | of a value that goes on in further regions the parser gets key and length right |
| LeafCodec.MatchesOnlyItself | diskmap.cpp:196-198 | the comparison tells NUL-free keys apart, prefixes of one another included |
| LeafEdits.EncodeEntries | diskmap.cpp:288-305 | the buffer is the encoding of the list |
| LeafEdits.WriteNewLeaf | diskmap.cpp:278-311 | a fresh page holds the entries, their count and size, and zeros |
| LeafEdits.AppendEntry | diskmap.cpp:512-540 | the page holds the list with the entry behind it, and what followed the space it took |
| LeafEdits.UpdateValueTrivially | diskmap.cpp:374-427 | the page holds the list with the value replaced, and behind it the bytes that were there; refuses exactly what does not fit |
| LeafEdits.RemoveEntry | diskmap.cpp:819-838 | the page holds the list without the entry, then zeros in the freed space |
| LeafEdits.CleanParses | diskmap.cpp:210-231 | a page with zeros behind its entries parses to them, whatever follows the page |
| LeafEdits.AppendKeepsClean | diskmap.cpp:512-540 | an append leaves the rest of the page zero |
| LeafEdits.RemoveKeepsClean | diskmap.cpp:819-838 | so does a removal |
| LeafEdits.UpdateKeepsClean | diskmap.cpp:395-426 | so does an update to a value that is not shorter |
| LeafEdits.ShorterParsesIff | diskmap.cpp:395-426 | after an update to a shorter value the page parses to its entries if and only if the first byte left behind is zero |
| LeafEdits.LastShorterByte | diskmap.cpp:395-426 | for the last entry, that byte is a byte of its old value |
| LeafEdits.HeaderLayout | page_types.h:48-66 | link, usage and count lie side by side, and the data takes the rest of the page |
| BigLeaf.CreateBigLeaf | diskmap.cpp:312-334 | from any consistent allocator: the new chain holds usage, count, header and the value, exactly its regions are newly live, and other live pages keep their bytes |
| BigLeaf.FirstPageOfBig | diskmap.cpp:312-334 | the first page holds the first bytes of the encoded entry, so that the search finds its key |
| BigLeaf.WritePart | diskmap.cpp:643-655 | writing a part of the value of a leaf with one entry gives a leaf with the spliced value and zeros behind it, over a chain as long as needed that extends the old one |
| BigLeaf.SingleIsBig | diskmap.cpp:643-655 | a page with one entry and zeros behind it is such a leaf with a chain of one region |
| BigLeaf.FreedReads | diskmap.cpp:482-505 | after its chain is freed the first page reads as no entries if a free list the chain went to had no room, and as before otherwise |
| BigLeaf.ReadPart | diskmap.cpp:688-714 | finds exactly its own key, and reads the slice of the value through search, length field and chain |
| HashTrie.GetBucket | diskmap.cpp:64-78 | on the first eight levels the digit of the hash, on all later ones 0 |
| HashTrie.BucketOfHash | diskmap.cpp:172-184 | the loop computes the digit |
| HashTrie.DistinctHashesPart | diskmap.cpp:172-184 | keys with different hashes part within eight digits: what the recursion and the split loop terminate by |
| HashTrie.LookupThrough | diskmap.cpp:141-160 | a key that has the digits of a page is looked up through that page |
| HashTrie.GraftEffect | diskmap.cpp:357-371 | changing one slot changes the lookup of the keys with its digits, and of no other key |
| TrieEdits.BucketFinds | diskmap.cpp:338-342 | a key is found in its bucket exactly as in the whole list |
| TrieEdits.SeveralAreShallow | diskmap.cpp:335-342 | several entries with different hashes never need a node below depth 7 |
| TrieEdits.CollapseAgrees | diskmap.cpp:794-817 | a leaf that is the only child left can take the place of its parent, and the map stays the same |
| TrieEdits.CollapseKeepsIff | diskmap.cpp:810-817 | for an internal node the map stays the same if and only if every key below takes the node's slot on all levels down to its leaf |
| TrieEdits.AppendIsConcat | diskmap.cpp:587-590 | writing a part without an offset appends |
| TrieEdits.MissingPart | diskmap.cpp:602-617 | for a missing key, cutting the zeros and the buffer to the length of the buffer gives the part if and only if the offset is 0 |
| TrieEdits.AgreesWhenAllFound | diskmap.cpp:141-160 | lookups agree with a map exactly when nothing else is found and as many keys as it has |
| DiskMap.DiskMap.CreateSubtree | diskmap.cpp:268-372 | terminates; keys with the digits of the slot find exactly what is among the entries, in one leaf if they fit a page or there is only one; the old leaf is freed, every other page is as it was, and no page is leaked |
| DiskMap.DiskMap.SplitByDigit | diskmap.cpp:338-342 | every bucket holds the entries with its digit, in order |
| DiskMap.DiskMap.FindParent | diskmap.cpp:141-160 | ends above depth 8 at the slot, empty or of a leaf, that the digits of the key lead to |
| DiskMap.DiskMap.SplitLeaf | diskmap.cpp:542-574 | the loop of added internal nodes terminates, and the map gains exactly the new key, and the leaf keeps its page |
| DiskMap.DiskMap.UpdateEntry | diskmap.cpp:488-505 | the map has the new value, no shorter than the old one: in place if and only if the leaf still fits its page, else by a rebuild that frees the leaf |
| DiskMap.DiskMap.AddToLeaf | diskmap.cpp:506-584 | the map gains exactly the new key: by append if the leaf still fits its page, else by a split that keeps a leaf with one entry, else by a rebuild that frees it |
| DiskMap.DiskMap.OverwriteBig | diskmap.cpp:482-505 | a value that is again too big replaces the old one, unless freeing the chain cleared its first page; then, and for a smaller one, the key is lost; the slot then is empty, or leads to a leaf without entries |
| DiskMap.DiskMap.Write | diskmap.cpp:442-585 | the map is updated if and only if the key is not lost by a small value over a big one or by a free list without room, and exactly then the entry count stays the number of keys; refuses exactly keys of a bad length; no page is leaked |
| DiskMap.DiskMap.WritePart | diskmap.cpp:592-666 | byte by byte: an existing value has the buffer from the offset on, or behind its end without one, grows when it has to with zeros in between, and is as it was elsewhere; a missing key gets the first bytes of the zeros and the buffer, which is the part exactly when the offset is 0; the count stays right and no page is leaked |
| Bytes.WrittenOverOnce | diskmap.cpp:636-658 | what is said byte by byte of a written part determines the value |
| HashTrie.InnerNodeFillsPage | page_types.h:31-36 | the pointers of an internal node take a whole page, and eight digits the 64 bits of a hash |
| DiskMap.DiskMap.Read | diskmap.cpp:669-715 | finds exactly the keys stored, with their values |
| DiskMap.DiskMap.ReadPart | diskmap.cpp:675-715 | the slice of the value from the offset, cut off at its end |
| DiskMap.DiskMap.Remove | diskmap.cpp:746-845 | says whether the key was there; a leaf with other entries loses exactly that one; a leaf with no other is freed, and a page below the root left with one child, of either kind, is freed and the child hung in its place; all other pages are as they were and none is leaked; lookups agree with the map without the key if and only if no other key is lost by a collapse, and exactly then the count is the number of keys that can be found |
| LostKeys.SmallOverBig | diskmap.cpp:482-505 | a small value over a big one: the key is gone and the count still has it |
| LostKeys.BigOverBig | diskmap.cpp:482-505 | so it is for a big value over a big one when the list of single pages has no room |
| LostKeys.FillList | space_manager.cpp:57-87 | a new file in which the list of single pages has no room |
| LostKeys.RemovalLosesOthers | diskmap.cpp:794-817 | a trie of three keys in which removing one loses another |
| TriePages.EveryPageIsReached | diskmap.cpp:357-371 | where no page is lost, as it is after every operation, each page in use can be reached from the root by a way of slots |
| TriePages.ReachedIsInUse | diskmap.cpp:141-160 | and every way of slots that ends at a page ends at one in use |
| TriePages.CollapseLosesNoPage | diskmap.cpp:794-817 | moving the only child of a page up, whatever its kind, leaves both so |
| TriePages.KeyIsInItsSlot | diskmap.cpp:752-779 | a key is in no leaf but the one its digits lead to |
| DiskMap.DiskMap.CountChildren | diskmap.cpp:795-808 | counts 1 exactly for an only child, and returns it |

## Left out

- System calls, fsync retries, file opening and the magic string: files are byte sequences and page maps.
- Threads, locks and condition variables: a checkpoint is one step taken when no transaction is active.
- The values of the checksum and of the hash: both are arbitrary functions, the hash one into 64 bits.
- Wrap-around of 32-bit LSNs and transaction ids, which are natural numbers here.
- The limits of `int` shifts: allocations and frees of orders above 30, where `1 << order` overflows, and chains of more than 19 regions, the last size `PAGE_SIZE << depth` can take.
- RedoUndo.Run: works on the bytes of the data file as one array, not through the buffer pool; no flush is assumed between it and the truncation that follows.
- CrashSafety.RunsAreCrashSafe: leaves out the torn flushes that take something back, which `CrashSafety.TornFlushIff` tells from the others.
- Reopen.Reopen: the data file is an array with room for every record; the code lets writes extend the file.
- Wal.Wal.Abort: assumes a pool slot that can be had, so that no exception leaves the abort half done, and a scan that sees all SETs, which `Abort.ScanIsCompleteIff` and `Wal.SerialScanSeesAll` are about.
- Wal.CollectUndo: looking at the last element of an empty undo stack, undefined in the code, cannot happen in well-formed logs and is modelled as no match.
- BufferPool.Pool.Retain: pins and releases are modelled as such; a handle that is moved onto another drops no pin in the code.
- Pages.Transaction: writes pages of a map; that a transaction's write is a SET of the log is `Wal.Wal.Set`, and the two are not joined into one object.
- BigValue.Read: offsets past the end of the chain, from which the code goes on reading page 0.
- BigValue.Overwrite: offsets past the end of the chain, from which the code goes on writing page 0.
- BigLeaf.ReadPart: offsets past the end of the value, from which the code computes a huge length.
- BigLeaf.FreedReads: files of 65536 pages and more, in which the link of a list page reads as a usage above 0.
- LeafCodec.FindEntryInLeaf: keys that contain a NUL, and pages that no edit leaves behind.
- LeafCodec.GetEntriesInLeaf: on a damaged page a key ends with the page; the code would read on.
- Internal nodes are typed, with pointers instead of 8-byte entries whose top bit tells the kind of child, and a leaf is its list of entries; its bytes are the subject of LeafCodec, LeafEdits and ValueRegions.
- DiskMap.DiskMap.AllocatePage: any unused page; that the space manager provides such pages is SpaceManager.Allocate.
- DiskMap.DiskMap.OverwriteBig: what the code writes to the freed page when the key is lost to a small value, past the end of its entries or with a negative length; the free list that owns the page is not followed further.
- DiskMap.DiskMap.UpdateEntry: shorter values, as for DiskMap.DiskMap.Write.
- DiskMap.DiskMap.Write: assumes keys with different hashes, and leaves out shorter values over values on a single page, after which the page need not parse back (`LeafEdits.ShorterParsesIff`).
- DiskMap.DiskMap.Read: an empty slot means an absent key; the code reads page 0 as a leaf, which holds no key while fewer than 65536 pages are in use.
- DiskMap.DiskMap.WritePart: keys that contain a NUL, as for LeafCodec.FindEntryInLeaf.
- DiskMap.DiskMap.ReadPart: offsets past the end of the value, from which the code computes a huge length.
- `verify_integrity`, `sample`, `debug_dump`, the command line tools and the unused `SpaceManager::init`.
