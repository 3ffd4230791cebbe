# HAL9000 verification project

A Dafny 4.11 model of the hard, self-contained cores of the HAL9000 operating system, with proofs
of what they keep over whole runs. `dafny verify dfyconfig.toml` checks all of it.

| files | what they model |
|---|---|
| `RwSpinlock.dfy`, `RecRwSpinlock.dfy` | the reader/writer spinlock built from two overlapping 32-bit compare-exchanges, and its recursive wrapper, as step relations over any number of CPUs |
| `FatLayout.dfy`, `FatChain.dfy`, `FatVolume.dfy`, `FatFile.dfy`, `FatDirectory.dfy`, `FatBudget.dfy`, `FatOperations.dfy`, `FatWrite.dfy`, `FatRun.dfy` | FAT32 cluster chains on a disk of sectors, FatReadFile and FatWriteFile against "a file is a sequence of sectors", one call at a time and over whole runs; constants follow "FAT Data Structure" and "FAT32 FSInfo Sector Structure and Backup Boot Sector" of the Microsoft FAT32 File System Specification 1.03 |
| `Heap.dfy`, `HeapRun.dfy` | the kernel heap: bump allocation, then a next-fit search of the holes |
| `List.dfy`, `HashKey.dfy`, `HashTable.dfy`, `HashIterator.dfy`, `HashRun.dfy` | circular doubly linked lists, and the hash table of sorted buckets over them against a map |
| `ReceiveRing.dfy` | the receive ring shared by the network card and its driver |
| `Bitmap.dfy` | the bitmap allocator, down to its byte masks |
| `NumberText.dfy` | printing and parsing numbers, with the XOR swaps |
| `Mdl.dfy`, `PrdTable.dfy` | memory descriptor lists, and the DMA descriptor table the disk driver makes of one |
| `Bits.dfy` | bitwise operators on machine words and the address macros built from them |
| `Basics.dfy` | machine widths and small definitions used everywhere |

Concurrent code is a state machine whose schedules are arbitrary. Code that changes memory is
imperative, each method proved against a function or predicate on values, and the lemmas are about
those. Machine widths and wrap-around are written out.

## Where the code does not do what one would expect

* `_FirstFreeCluster` compares an absolute sector number with a count of FAT sectors, so it looks
  only at clusters below `ScanLimit`, and it fails without looking when the hint is at or above that
  limit but inside the volume (`ScanSucceeds`). `FirstFreeCluster` says exactly which free clusters
  it finds; `AssertFires` and `ScanFails` are volumes with 119 free clusters where it finds none.
* A chain that cannot be extended is reported as success with cluster 0 (the status is overwritten
  when FSInfo is written back); the range check on cluster 0 then turns it into an error. FSInfo is
  marked full, except when the scan itself failed: then it stays as it was. An ASSERT fails exactly
  when the scan succeeds, finds nothing, and the free count is known and positive (`Extends`);
  `AssertFires` is a volume with a correct free count where it does.
* The wrap-around of the heap search uses a stale predecessor. The search ends in a failed ASSERT
  exactly under `SearchAborts`, a condition on the restart position and the number of blocks alone;
  `SearchAssertFires` gets there from a new heap with five allocations and one free. Freeing the
  restart entry leaves `EntryToRestartSearch` dangling: `Free` says exactly when, and `RestartDangles`
  is a run that does it.
* A read that starts at the end of a file, or less than a cluster behind it, fails an ASSERT; further
  behind, it is refused (`SeekStatus`; `ReadAtEnd` is such a read).
* The ASSERT on the first sector of a file holds for every file of a volume or for none: it asks that
  the data region begins at a multiple of the cluster size (`FilesAreAligned`), which a volume that
  is accepted need not do (`NoFileIsAligned`).
* A translation pair that is accepted and crosses 4 GB wraps to address 0 (`WrapsAt4GB`). The table
  serves a buffer exactly when all its bytes lie below 4 GB (`BufferIsTransferred`).
* A buffer of 64 KB that is contiguous in physical memory is refused, although the driver splits ranges
  at 64 KB boundaries anyway (`ContiguousBuffer`).
* `MdlAllocateEx` notices a first page that is not mapped only if the buffer starts with the page
  (`UnmappedFirstPage`); kernel buffers are probed before, so this is about user buffers.
* The ASSERT of `BitmapSetBitsValue` subtracts DWORDs and lets ranges longer than the bitmap through
  (`AssertsAreExact` says which).
* The text of the most negative signed 32-bit value is not its numeral, because the negation stays
  on 32 bits; `TextMeansValue` says that this is the only such value. Parsing undoes it all the same.
* `EthReceiveFrame` with no maximum stops after 65536 frames, when its 16-bit count is 0 again, even
  if more are waiting: `CallEnds` says exactly when a call ends, `LimitIsReached` is such a run.

## Model

| member | source | states |
|---|---|---|
| `RwSpinlock.AdvanceIsExact` | src/CommonLib/src/rw_spinlock.c:31-98 | each step changes WaitingWriters, ActiveWriter and ActiveReaders by exactly what it changes in the number of CPUs each word stands for, although the two compare-exchanges overlap on ActiveWriter |
| `RwSpinlock.NextKeepsInv` | src/CommonLib/src/rw_spinlock.c:31-98 | every step of every CPU keeps the words exact, one owner of ActiveWriter, and no reader beside a real writer |
| `RwSpinlock.ExecuteKeepsInv` | src/CommonLib/src/rw_spinlock.c:20-101 | so does every interleaving |
| `RwSpinlock.MutualExclusion` | src/CommonLib/src/rw_spinlock.c:20-101 | in every interleaving an exclusive holder coexists with no other exclusive holder and no shared holder |
| `RwSpinlock.CountersAreExact` | src/CommonLib/src/rw_spinlock.c:33-96 | in every interleaving no ASSERT fires, ActiveWriter is 0 or 1, and no counter underflows or wraps: each is the number of CPUs it is meant to count |
| `RwSpinlock.WriterPreference` | src/CommonLib/src/rw_spinlock.c:33-67 | while a writer waits, the set of admitted readers, those still posing as writer included, never grows |
| `RwSpinlock.LetInExactly` | src/CommonLib/src/rw_spinlock.c:36-58 | in every run, at its next turn a spinning reader is let in exactly when no writer waits and nobody owns ActiveWriter, however many readers are inside, and a spinning writer exactly when nobody owns ActiveWriter and no reader is counted |
| `RwSpinlock.ReadersShare` | src/CommonLib/src/rw_spinlock.c:46-70 | for any number of CPUs below 65536 some run has all of them inside as readers |
| `RwSpinlock.AcquireGets` | src/CommonLib/src/rw_spinlock.c:20-70 | in every interleaving an acquire that returns got the mode it asked for, and one that has not returned is still in progress in that mode |
| `RwSpinlock.DeadlockFreedom` | src/CommonLib/src/rw_spinlock.c:36-67 | in every reachable state with a CPU waiting, some CPU has a step that is not a spin |
| `RwSpinlock.ProgressIsBounded` | src/CommonLib/src/rw_spinlock.c:36-98 | steps that are not spins use up a fixed measure, so a run without new acquires has only so many of them |
| `RwSpinlock.EveryoneCanFinish` | src/CommonLib/src/rw_spinlock.c:20-101 | from every reachable state some run lets each waiting CPU get the lock and give it back |
| `RecRwSpinlock.NextKeepsInv` | src/CommonLib/src/rec_rw_spinlock.c:44-101 | every step of every CPU keeps depth, Holder, nesting and interrupt flag consistent with the state of the plain lock |
| `RecRwSpinlock.ExecuteKeepsInv` | src/CommonLib/src/rec_rw_spinlock.c:44-101 | so does every interleaving |
| `RecRwSpinlock.AssertsHold` | src/CommonLib/src/rec_rw_spinlock.c:47-101 | the asserts on Holder and depth never fire, in any interleaving with readers, for nesting up to the maximum |
| `RecRwSpinlock.HolderIsAlone` | src/CommonLib/src/rec_rw_spinlock.c:47-71 | for an exclusive holder, Holder names it, depth is its number of unmatched acquires, and no other CPU is inside |
| `RecRwSpinlock.InterruptsOffInside` | src/CommonLib/src/rec_rw_spinlock.c:44-101 | interrupts are off from the outermost acquire to the outermost release, which restores the flag the CPU came with |
| `RecRwSpinlock.CallReturns` | src/CommonLib/src/rec_rw_spinlock.c:31-101 | in every interleaving, how a call leaves its CPU when it returns: an acquire from outside in the mode asked for, a nested one a level deeper, a release a level higher or outside, each with the saved interrupt states of a stack |
| `RecRwSpinlock.DepthIsBounded` | src/CommonLib/src/rec_rw_spinlock.c:9-60 | in every run the maximum is the depth given to RecRwSpinlockInit, or 2 for 0, and no CPU nests deeper |
| `RecRwSpinlock.DepthIsReached` | src/CommonLib/src/rec_rw_spinlock.c:9-71 | every CPU can nest to every depth up to the maximum |
| `RecRwSpinlock.RefinesPlainLock` | src/CommonLib/src/rec_rw_spinlock.c:61-101 | what a run does to the embedded lock is a run of the plain lock, so its guarantees carry over |
| `RecRwSpinlock.OnePlainPairPerOutermostPair` | src/CommonLib/src/rec_rw_spinlock.c:47-101 | the plain lock is acquired and released once per outermost pair |
| `RecRwSpinlock.DeadlockFreedom` | src/CommonLib/src/rec_rw_spinlock.c:44-101 | in every reachable state with a CPU in a call or inside, some CPU has a step that is not a spin |
| `RecRwSpinlock.EveryoneCanFinish` | src/CommonLib/src/rec_rw_spinlock.c:44-101 | from every reachable state in which no CPU asks for more than the maximum, some run of a length known beforehand lets every CPU finish its calls and release everything |
| `RecRwSpinlock.OverLimitStays` | src/CommonLib/src/rec_rw_spinlock.c:47-60 | that condition is needed: a CPU that asks for more is stopped by the ASSERT in every run |
| `Bits.AlignLowerRoundsDown` | src/CommonLib/inc/base.h:53-57 | masking rounds down to a multiple of the alignment, and gives the offset |
| `Bits.AlignUpperRoundsUp` | src/CommonLib/inc/base.h:54 | the least multiple at or above the address |
| `Bits.SameBoundary` | src/CommonLib/inc/base.h:59-62 | IsInSameBoundary holds exactly when the range fits in one aligned region |
| `FatLayout.ClusterOfSectorInverts` | src/FAT32/src/fat_utils.c:519-568 | ClusterOfSector inverts FirstSectorOfCluster on every sector of a cluster |
| `FatLayout.NoClusterOfSectorZero` | src/FAT32/src/fat_utils.c:545-568 | sector 0, the end-of-chain answer, wraps around and is refused |
| `FatLayout.SectorsAreDisjoint` | src/FAT32/src/fat_utils.c:519-543 | different clusters have different sectors |
| `FatLayout.MaskedValue` | src/FAT32/src/fat_utils.c:105-203 | the cluster mask reads the low 28 bits of an entry |
| `FatLayout.CombinedEntry` | src/FAT32/src/fat_utils.c:382-478 | an entry gets a new cluster number and keeps its 4 reserved bits |
| `FatLayout.EntryAfterWithValue` | src/FAT32/src/fat_utils.c:382-478 | the sector and index arithmetic addresses exactly the cluster's own entry: no other entry and no other sector changes |
| `FatLayout.FsInfoFields` | src/FAT32/headers/fat_structures.h:192-201 | free count and hint are the words at byte offsets 488 and 492 of sector 1, and writing them changes nothing else |
| `FatChain.ChainIsAcyclic` | src/FAT32/src/fat_utils.c:105-203 | a chain that ends visits no cluster twice |
| `FatChain.EntriesAfterLinked` | src/FAT32/src/fat_utils.c:382-478 | extending changes exactly two entries, even in one sector, and FSInfo |
| `FatChain.LinkedIsGrown` | src/FAT32/src/fat_utils.c:327-517 | the extended chain gains exactly the new cluster at its end, and every other entry is unchanged |
| `FatChain.OtherChainsSurvive` | src/FAT32/src/fat_utils.c:327-517 | every disjoint chain is still a chain, disjoint from the grown one |
| `FatChain.FreeCountStaysExact` | src/FAT32/src/fat_utils.c:447-478 | a free count that matched the number of free entries still does |
| `FatVolume.NextClusterInChain` | src/FAT32/src/fat_utils.c:105-203 | the successor in the FAT; a free entry is repaired to an end mark, a bad cluster ends the chain |
| `FatVolume.LinkIsFollowed` | src/FAT32/src/fat_utils.c:105-203 | following a link leads to a cluster exactly when the link names one; a zero becomes an end mark and ends the chain for good, other entries and reserved bits stay; which values end a chain |
| `FatVolume.FirstFreeCluster` | src/FAT32/src/fat_utils.c:205-325 | fails exactly when the hint is inside the volume but at or above the scan limit; otherwise the lowest free cluster at or after the hint and below that limit, or 0 when there is none; inside the volume, so the ASSERTs hold; marked if asked, and nothing else changes |
| `FatVolume.AddNewClusterToChain` | src/FAT32/src/fat_utils.c:327-517 | the whole new disk: the lowest free cluster is marked, linked and recorded in FSInfo; a full disk, a failed scan and the failing ASSERT are separate outcomes, each with its exact condition |
| `FatVolume.RefusalInFsInfo` | src/FAT32/src/fat_utils.c:374-398 | what a refused extension leaves in FSInfo in each case, and that nothing else changes |
| `FatVolume.NextSectorInClusterChain` | src/FAT32/src/fat_utils.c:41-103 | every outcome: next cluster, end of chain, extension, refused extension, failing ASSERT, invalid cluster |
| `FatBudget.BalancedAfterLink` | src/FAT32/src/fat_utils.c:382-478 | an extension takes exactly one cluster out of the budget, the free clusters between hint and scan limit capped by a known free count; what happens once the budget is used up stays the same, and an exact free count stays exact |
| `FatBudget.BalancedAfterNothing` | src/FAT32/src/fat_utils.c:374-398 | an extension that finds nothing had no budget, and fails the ASSERT exactly when a known free count promises more than the scan reaches |
| `FatBudget.GrewByExtension` | src/FAT32/src/fat_utils.c:327-517 | every extension of a chain, refused ones included, only grows it, and chain length plus budget is conserved |
| `FatBudget.AssertFires` | src/FAT32/src/fat_utils.c:254-257 | a volume of 65525 clusters, 119 of them free as the free count says, where every extension finds none and fails the ASSERT |
| `FatBudget.ScanFails` | src/FAT32/src/fat_utils.c:205-257 | the same volume with another hint: the scan fails and the extension is refused without the ASSERT |
| `FatFile.PlacesAreDistinct` | src/FAT32/src/fat_operations.c:328-397 | the sectors of a file, in order, are pairwise different |
| `FatFile.PlacesAreDisjoint` | src/FAT32/src/fat_operations.c:328-397 | disjoint chains have disjoint sectors |
| `FatDirectory.GetDirEntryFromSector` | src/FAT32/src/fat_utils.c:570-659 | the first slot of the directory cluster that names the file, or none |
| `FatDirectory.NamesByBytes` | src/FAT32/src/fat_utils.c:618-641 | by the byte offsets of a directory entry: a slot names a file exactly when it is not deleted, not part of a long name under the attribute mask, and holds the file's first cluster |
| `FatDirectory.WriteDirEntryToSector` | src/FAT32/src/fat_utils.c:661-724 | one slot is written, the disk is otherwise the same |
| `FatDirectory.SlotAfterWithSlot` | src/FAT32/src/fat_utils.c:661-724 | reading any slot back gives the new entry or the old one |
| `FatDirectory.UpdatesKeepIdentity` | src/FAT32/src/fat_operations.c:548-561 | updates of dates and size leave the slot naming the same file |
| `FatDirectory.AccessedIsRecorded` | src/FAT32/src/fat_operations.c:406-412 | a read sets the access date at offset 18 and no other byte of the entry |
| `FatDirectory.ModifiedIsRecorded` | src/FAT32/src/fat_operations.c:548-563 | a write sets the three dates and times at their offsets; the size is never lowered, covers the data written unless that ends beyond 4 GB, and is the old one or the end of the data modulo 2^32; all other bytes stay |
| `FatOperations.StepOnChain` | src/FAT32/src/fat_utils.c:41-103 | following the FAT from a cluster of a chain goes to the next cluster of the chain, or grows it by one, or is refused exactly when the budget is used up |
| `FatOperations.FilesAreAligned` | src/FAT32/src/fat_operations.c:308 | the ASSERT on the first sector of a file holds exactly if the data region begins at a multiple of the cluster size |
| `FatOperations.NoFileIsAligned` | src/FAT32/src/fat_operations.c:308 | a volume where it fails for every file |
| `FatOperations.Seek` | src/FAT32/src/fat_operations.c:328-346 | the walk ends in the cluster and at the sector of the offset, or says why not |
| `FatOperations.ReadClusters` | src/FAT32/src/fat_operations.c:346-397 | the sectors read are the requested part of the file, cut at its end |
| `FatOperations.FatReadFile` | src/FAT32/src/fat_operations.c:276-422 | sectors offset .. offset + n - 1 of the file's sector sequence in order, cut at the end of the chain, with the right count, from any start within a cluster; terminates on any FAT, cyclic ones included; of the disk only the access date of the file's slot changes |
| `FatWrite.WriteClusters` | src/FAT32/src/fat_operations.c:494-539 | each round stores its sectors at the file's places and extends the chain as needed, nothing else changing; it stops early only where the budget is used up |
| `FatWrite.DataStatusIs` | src/FAT32/src/fat_operations.c:476-539 | the data fits exactly when it ends within the chain and the clusters of the budget |
| `FatWrite.FatWriteFile` | src/FAT32/src/fat_operations.c:424-573 | the exact status from the disk before the call: success if and only if the data fits in chain and budget and a slot names the file; the chain only grows and by no more than needed, an exact free count stays exact; on success the file holds the buffer at the offset, of the data region only those sectors and one directory slot changed, and that slot on disk records dates, time and a size that was raised if need be and never lowered; on refusal, how much was written |
| `FatWrite.NothingElseChanged` | src/FAT32/src/fat_operations.c:476-570 | the rest of the file and every other chain keep their sectors, apart from the one directory sector |
| `FatWrite.WriteThenRead` | src/FAT32/src/fat_operations.c:276-573 | the write succeeds exactly under that condition, and a read of the same range then returns exactly the buffer |
| `FatWrite.SmallWrite` | src/FAT32/src/fat_operations.c:424-573 | a volume and a file for which all of this is met |
| `FatWrite.ReadAtEnd` | src/FAT32/src/fat_operations.c:328-342 | on the same volume, a read at the end of the file fails the ASSERT |
| `FatRun.ReadOne` | src/FAT32/src/fat_operations.c:276-422 | a read answers from the file's sectors alone and changes no file |
| `FatRun.WriteOne` | src/FAT32/src/fat_operations.c:424-573 | a write changes its file only, overwriting and extending it, and uses the room shared by all files: as many clusters as needed, or all that are left |
| `FatRun.Run` | src/FAT32/src/fat_operations.c:276-573 | any sequence of reads and writes on several files with disjoint chains, up to the first that fails an ASSERT, gets the answers of a store of sector sequences with shared room; the files stay laid out, and an exact free count stays exact |
| `Heap.PackedBlocksAreDisjoint` | src/CommonLib/src/cl_heap.c:389-451 | the blocks of the list, header and tail included, lie inside the heap in strictly increasing order and do not overlap |
| `Heap.HolesComplementFootprints` | src/CommonLib/src/cl_heap.c:214-226 | holes and footprints add up to the used part of the heap |
| `Heap.FitsIsRoom` | src/CommonLib/src/cl_heap.c:389-451 | _InitHeapEntry takes the lowest aligned place for header, data and tail, and fails exactly when there is none |
| `Heap.FindHole` | src/CommonLib/src/cl_heap.c:229-295 | the first hole in search order that fits, despite the stale predecessor; the ASSERT fails exactly under a condition on restart position and block count |
| `Heap.HeapInit` | src/CommonLib/src/cl_heap.c:79-118 | a NULL base and too little memory are refused, otherwise an empty, valid heap |
| `Heap.Heap.QuickRejectMeasuresHoles` | src/CommonLib/src/cl_heap.c:214-233 | the quick-reject value is exactly the total size of the holes below FreeAddress, and the list is not empty when it is positive |
| `Heap.Heap.QuickRejectLosesNothing` | src/CommonLib/src/cl_heap.c:214-226 | a rejected request fits in no hole |
| `Heap.Heap.InitHeapEntry` | src/CommonLib/src/cl_heap.c:389-451 | the block is placed, aligned, exactly when it fits with its padding; counters follow |
| `Heap.Heap.SearchHoles` | src/CommonLib/src/cl_heap.c:229-295 | the found hole takes the block, which becomes the restart entry; order, FreeAddress and counters stay right |
| `Heap.Heap.Bump` | src/CommonLib/src/cl_heap.c:196-212 | the block goes to FreeAddress exactly when it fits there |
| `Heap.AnswerIsRight` | src/CommonLib/src/cl_heap.c:120-320 | in every heap state the answer is decided by the room there is: placed exactly when the end or a hole the search looks at has room and the search does not fail its ASSERT first, so that neither the size test nor the quick reject turns away a block that fits; at the lowest place at the end, or else in the first such hole |
| `Heap.Heap.Allocate` | src/CommonLib/src/cl_heap.c:120-320 | exactly that answer; exactly one block more, aligned as asked (16 by default), or nothing changed; FreeAddress is the end of the last block and the remaining size is capacity minus footprints |
| `Heap.Heap.Free` | src/CommonLib/src/cl_heap.c:322-387 | exactly that block goes, or the ASSERT on the tag fails and nothing changes; the restart entry stays live exactly when another entry was freed |
| `HeapRun.Serve` | src/CommonLib/src/cl_heap.c:120-387 | one request of a client: its answer and the heap after it; it stops the run exactly when an ASSERT failed or the restart entry was freed; the allocations held, as the answer says, are exactly the live blocks |
| `HeapRun.Run` | src/CommonLib/src/cl_heap.c:120-387 | any sequence of allocations and frees: every request up to the first that stops the run is answered as the heap does, and the blocks that the answers leave in the client's hands are exactly the live ones, inside the heap, pairwise disjoint and aligned as asked |
| `HeapRun.SearchAssertFires` | src/CommonLib/src/cl_heap.c:229-295 | from a new heap of 64 KB, five allocations and a free lead to an allocation whose search fails the ASSERT |
| `HeapRun.RestartDangles` | src/CommonLib/src/cl_heap.c:322-387 | from the same heap, freeing the restart entry succeeds and leaves the pointer to it dangling |
| `List.LinksAreInverse` | src/CommonLib/src/list.c:32-150 | Flink and Blink undo each other round the ring |
| `List.InsertHeadList` | src/CommonLib/src/list.c:133-150 | the ring with the entry after the given position |
| `List.InsertTailList` | src/CommonLib/src/list.c:113-130 | the ring with the entry before the given position |
| `List.RemoveEntryList` | src/CommonLib/src/list.c:53-70 | the ring without the entry; TRUE exactly when the list became empty |
| `List.RemoveHeadList` | src/CommonLib/src/list.c:72-89 | the first entry, and the ring without it; the head itself on an empty list |
| `List.RemoveTailList` | src/CommonLib/src/list.c:93-110 | the last entry, and the ring without it |
| `List.InsertOrderedList` | src/CommonLib/src/list.c:152-179 | the entry goes before the first entry it is smaller than |
| `List.SortedAfterInsertion` | src/CommonLib/src/list.c:152-179 | so a sorted list stays sorted, and the new entry comes after all equal ones |
| `List.ListSearchForElement` | src/CommonLib/src/list.c:295-338 | the first match; in an ordered list stopping early finds what a full search finds |
| `HashKey.Rmemcmp` | src/CommonLib/src/cl_memory.c:147-177 | the difference of the highest bytes that differ |
| `HashKey.CompareOrdersNumbers` | src/CommonLib/src/cl_memory.c:147-177 | the comparison orders keys as the little-endian numbers in them, and tells different keys apart |
| `HashKey.Memcpy` | src/CommonLib/src/cl_memory.c:29-86 | copies exactly the bytes, whatever the unit of each move |
| `HashKey.HashFuncGenericIncremental` | src/CommonLib/src/hash_table.c:296-312 | the key's number modulo the number of buckets |
| `HashKey.HashFuncUniversal` | src/CommonLib/src/hash_table.c:314-348 | an affine function of the key's number, reduced modulo the prime and the number of buckets; the overflow ASSERT never fires, so no product wraps |
| `HashKey.UniversalIsAffine` | src/CommonLib/src/hash_table.c:314-348 | reducing the key's number before multiplying gives what the unreduced affine function gives |
| `HashTable.Layout.TableAfterInsert` | src/CommonLib/src/hash_table.c:156-194 | a new entry between the smaller and larger keys of its bucket keeps every bucket strictly sorted, each key in its own bucket, and buckets and map in agreement |
| `HashTable.Layout.TableAfterReplace` | src/CommonLib/src/hash_table.c:156-194 | so does replacing the entry with the same key |
| `HashTable.Layout.TableAfterRemove` | src/CommonLib/src/hash_table.c:217-229 | so does removing an entry |
| `HashTable.HashTable.constructor` | src/CommonLib/src/hash_table.c:78-117 | an empty table |
| `HashTable.HashTable.BucketIndex` | src/CommonLib/src/hash_table.c:171-173 | the bucket the configured hash function computes from the key's bytes is the one the table's layout gives the key |
| `HashTable.HashTable.SearchKeyInBucket` | src/CommonLib/src/hash_table.c:42-76 | the entry with the key, or the place that separates smaller from larger keys |
| `HashTable.HashTable.Lookup` | src/CommonLib/src/hash_table.c:231-255 | the map's entry for the key, or NULL |
| `HashTable.HashTable.Insert` | src/CommonLib/src/hash_table.c:156-194 | the map updated at the key; returns the replaced entry |
| `HashTable.HashTable.RemoveEntry` | src/CommonLib/src/hash_table.c:217-229 | the map without the entry's key, and the element count follows |
| `HashTable.HashTable.Remove` | src/CommonLib/src/hash_table.c:196-215 | the map without the key; returns its entry or NULL |
| `HashRun.Run` | src/CommonLib/src/hash_table.c:156-255 | every sequence of insert, lookup, remove and remove-entry gets from the table the answers it gets from a map |
| `HashRun.RunFromNew` | src/CommonLib/src/hash_table.c:78-255 | from a new table; NumberOfElements is the size of the map modulo 2^32 |
| `HashIterator.RestIsAllEntries` | src/CommonLib/src/hash_table.c:257-294 | from its start an iterator has every entry ahead, each once |
| `HashIterator.RestAfterRemove` | src/CommonLib/src/hash_table.c:217-229 | removing the entry just returned leaves the same entries ahead |
| `HashIterator.Iterator.constructor` | src/CommonLib/src/hash_table.c:257-270 | the iterator stands before all entries |
| `HashIterator.Iterator.NextInBucket` | src/CommonLib/src/list.c:353-373 | the next entry of the bucket, or NULL at its head |
| `HashIterator.Iterator.Next` | src/CommonLib/src/hash_table.c:272-294 | the first of the entries ahead, or NULL when there is none |
| `HashIterator.Sweep` | src/CommonLib/src/hash_table.c:217-294 | iteration visits every entry exactly once even when the caller removes any of them as they are returned; exactly the others stay |
| `HashIterator.Clear` | src/CommonLib/src/hash_table.c:119-144 | the free function is called once per element, and the table is empty with size 0 |
| `ReceiveRing.NextKeepsInv` | src/Eth_82574L/src/eth_82574L_operations.c:221-249 | every step of card and driver keeps the ring consistent |
| `ReceiveRing.ExecuteKeepsInv` | src/Eth_82574L/src/eth_82574L_operations.c:221-249 | so does every interleaving |
| `ReceiveRing.FramesInOrder` | src/Eth_82574L/src/eth_82574L_operations.c:221-249 | in every interleaving frames are delivered in arrival order, exactly once, and every frame taken and not yet delivered is still in its descriptor |
| `ReceiveRing.CardTakes` | src/Eth_82574L/src/eth_82574L_operations.c:221-249 | in every run the card takes the next frame exactly when fewer than all but one of the descriptors given back to it are full |
| `ReceiveRing.RingShape` | src/Eth_82574L/src/eth_82574L_operations.c:221-249 | at the loop test and between calls DescriptorDone is set exactly from the driver's index up to the head, the tail is one behind the index, and the card is stopped exactly when it has filled all other descriptors |
| `ReceiveRing.Init` | src/Eth_82574L/src/eth_82574L_operations.c:492-499 | the ring set up by _EthRxInit is consistent |
| `ReceiveRing.CallDelivers` | src/Eth_82574L/src/eth_82574L_operations.c:206-252 | a call that no arrival disturbs delivers all waiting frames up to its limit; without a maximum, all |
| `ReceiveRing.CallEnds` | src/Eth_82574L/src/eth_82574L_operations.c:206-252 | in every interleaving of a call with arrivals it delivers at most its limit, and leaves its loop exactly when no frame is waiting at the test or when it has delivered that many |
| `ReceiveRing.LimitIsReached` | src/Eth_82574L/src/eth_82574L_operations.c:241-246 | on every ring of two or more descriptors and for every maximum, a run in which the limit, 65536 without a maximum, ends the call with a frame waiting |
| `Bitmap.OnlyThatBit` | src/CommonLib/src/bitmap.c:250-309 | OR with the mask, or AND with its complement, changes exactly one bit as GetBit reads it |
| `Bitmap.Bitmap.constructor` | src/CommonLib/src/bitmap.c:43-76 | a buffer just large enough, all bits equal |
| `Bitmap.Bitmap.ChangeBit` | src/CommonLib/src/bitmap.c:250-274 | that bit changes, no other |
| `Bitmap.AssertsAreExact` | src/CommonLib/src/bitmap.c:122-136 | which ranges the ASSERTs with their DWORD subtraction let through: those inside the bitmap, and most that are longer than it |
| `Bitmap.Bitmap.SetBitsValue` | src/CommonLib/src/bitmap.c:122-136 | a range inside the bitmap is set, and only that; for every other range, whether an ASSERT fails or the range overruns the bitmap |
| `Bitmap.Bitmap.ChangeBits` | src/CommonLib/src/bitmap.c:276-291 | exactly those bits change |
| `Bitmap.Bitmap.ScanFromTo` | src/CommonLib/src/bitmap.c:160-186 | the lowest start of a run in the window, or MAX_DWORD exactly when there is none |
| `Bitmap.Bitmap.RunAt` | src/CommonLib/src/bitmap.c:341-351 | whether the run is there |
| `Bitmap.Bitmap.ScanFromToAndFlip` | src/CommonLib/src/bitmap.c:211-248 | the same, and exactly the bits found are flipped |
| `Bitmap.RunsStayDisjoint` | src/CommonLib/src/bitmap.c:122-248 | over any sequence of reservations and releases the outstanding runs are pairwise disjoint and account for every set bit |
| `Bitmap.Serve` | src/CommonLib/src/bitmap.c:122-248 | the calls of a client do exactly that to the buffer |
| `NumberText.XorSwaps` | src/CommonLib/src/strutils.c:4-14 | three exclusive ors exchange two bytes |
| `NumberText.ReverseInPlace` | src/CommonLib/src/strutils.c:113-117 | the text is reversed; no swap is of a byte with itself |
| `NumberText.WriteDigits` | src/CommonLib/src/strutils.c:82-100 | the digits, least significant first |
| `NumberText.CharsOfDigits` | src/CommonLib/src/strutils.c:91-98 | itoa writes 0-9 and capital letters; atoi reads a digit from exactly its character in either case |
| `NumberText.DigitsOfBase` | src/CommonLib/src/strutils.c:153-172 | exactly the characters of the first digits, in either case, are digits of a base |
| `NumberText.NoLeadingZero` | src/CommonLib/src/strutils.c:76-100 | a numeral does not start with 0, except for 0 itself |
| `NumberText.Itoa` | src/CommonLib/src/strutils.c:16-118 | sign and numeral with a terminator; nothing behind it changes |
| `NumberText.FitsPrintBuffer` | src/CommonLib/src/cl_string.c:460-499 | every call of cl_vsnprintf fits its buffer of 65 characters |
| `NumberText.Atoi` | src/CommonLib/src/strutils.c:120-193 | the value of the text, or the failing ASSERT |
| `NumberText.ParseIsNumber` | src/CommonLib/src/strutils.c:148-179 | exactly the texts of digits of the base are accepted, and read as their number modulo 2^64 |
| `NumberText.RoundTrip` | src/CommonLib/src/strutils.c:16-193 | atoi undoes itoa for every 32- and 64-bit value, signed or unsigned, in every base from 2 to 36 |
| `NumberText.TextMeansValue` | src/CommonLib/src/strutils.c:38-74 | the text stands for the value, except exactly for the most negative 32-bit value |
| `NumberText.SignOfText` | src/CommonLib/src/strutils.c:38-106 | the text starts with a minus sign exactly for negative values |
| `NumberText.ValueInRange` | src/CommonLib/src/strutils.c:38-74 | the value the text is compared with is the two's-complement one |
| `NumberText.PrintAndRead` | src/CommonLib/src/strutils.c:16-193 | the round trip through a buffer in memory |
| `Mdl.MdlAllocate` | src/HAL9000/src/mdl.c:6-159 | both loops make the specified pairs, one per maximal run of pages, and agree on their number; which unmapped pages give NULL and which fail an ASSERT; no field wraps |
| `Mdl.BufferIsCovered` | src/HAL9000/src/mdl.c:44-152 | the pairs begin with exactly the bytes of the buffer, in order, and each holds one, if and only if the size rounded up to pages fits in a DWORD |
| `Mdl.JoinedAreMaximal` | src/HAL9000/src/mdl.c:120-149 | no two neighbouring pairs could be joined |
| `Mdl.UnmappedFirstPage` | src/HAL9000/src/mdl.c:60-67 | an unmapped first page gives NULL exactly when the buffer starts with it |
| `Mdl.UnmappedLaterPage` | src/HAL9000/src/mdl.c:74-83 | the ASSERT fails exactly when a byte of the buffer behind the first page is not mapped |
| `PrdTable.ValidPair` | src/Ata/src/ata_operations.c:471-500 | which pairs are accepted |
| `PrdTable.RefusalIsExact` | src/Ata/src/ata_operations.c:471-500 | which of the three refusals a pair gets, by its address and length |
| `PrdTable.FirstRefusalIsVerdict` | src/Ata/src/ata_operations.c:375-384 | the status for a list of pairs is the refusal of the first pair that is not valid |
| `PrdTable.CrossesBoundary` | src/Ata/src/ata_operations.c:388 | the macro decides by whether the range crosses a 64 KB boundary |
| `PrdTable.EntryStaysInRegion` | src/Ata/headers/ata_registers.h:97-112 | an acceptable entry transfers bytes of one 64 KB region below 4 GB |
| `PrdTable.EntriesDescribe` | src/Ata/src/ata_operations.c:385-413 | the controller, to which a ByteCount of 0 means 64 KB, transfers the bytes of a pair exactly when it has some and ends below 4 GB |
| `PrdTable.TableDescribes` | src/Ata/src/ata_operations.c:375-415 | the table transfers the same bytes in the same order if and only if every pair has bytes of the request and none of them lies beyond 4 GB |
| `PrdTable.TableIsOk` | src/Ata/src/ata_operations.c:375-415 | at most two entries per pair; none empty, none across a 64 KB boundary, if and only if every pair has bytes of the request |
| `PrdTable.WritePair` | src/Ata/src/ata_operations.c:385-415 | the loop body writes those entries; no cast to WORD truncates |
| `PrdTable.PrepareTable` | src/Ata/src/ata_operations.c:341-420 | the first pair that is not valid decides the status, by what is wrong with it; too few bytes fail the ASSERT, otherwise the table is the specified one with the last entry marked |
| `PrdTable.TableIsRight` | src/Ata/src/ata_operations.c:341-420 | for every request the pairs have enough bytes for, with their first bytes as the request: both conditions above as if-and-only-ifs, and only the final entry is marked last |
| `PrdTable.BufferIsTransferred` | src/Ata/src/ata_operations.c:341-420 | for every buffer whose pairs are accepted: the controller accepts the table, and transfers exactly the bytes of the buffer if and only if all lie below 4 GB |
| `PrdTable.PrepareDmaTransfer` | src/Ata/src/ata_operations.c:341-420 | the same from the virtual address and its page mapping on, with the exact status of every call; the ASSERT on the remaining bytes never fires |
| `PrdTable.ContiguousBuffer` | src/Ata/src/ata_operations.c:489-492 | a physically contiguous, aligned buffer below 4 GB is refused exactly when it and the rest of its last page hold 64 KB or more |
| `PrdTable.WrapsAt4GB` | src/Ata/src/ata_operations.c:403-411 | two pages on either side of 4 GB make an accepted pair whose descriptors are wrong |

## Left out

- Locks: fewer than 65536 CPUs, so that the WORD counters can count them; callers follow the lock annotations (a holder releases what it holds, a CPU asks for one lock at a time). Interrupt handlers appear only through the interrupt flag.
- Plain spinlock and monitor lock: easier versions of the reader/writer lock.
- FAT device: reads and writes never fail; sectors have 512 bytes, which the driver itself asserts; only the first FAT is modelled; entries 0 and 1 of the FAT are not free.
- FatWrite.FatWriteFile: the directory entry lies in a cluster that is in use and not part of the file, as the path search of the driver provides; the number of sectors written is not stated for a refused write, where the source leaves it unset.
- FatOperations.FatReadFile: requires, like FatWrite.FatWriteFile, that the first sector of the file is a multiple of the cluster size, which the source asserts; FatOperations.FilesAreAligned says when that holds.
- FatVolume.FirstFreeCluster: an unknown hint is no separate branch, since the early return of the source for hints outside the volume covers it.
- FatCreateDirectoryEntry, names, dates, directory search and I/O failure paths: buffer handling around the chain logic, and creation takes a cluster without checking that it is free.
- Heap.Heap.Allocate: heap size below 2^32, addresses away from the end of the 64-bit space, alignments 0 or powers of two, and a live restart entry; magic numbers, zeroing and the text of log messages are not modelled.
- HeapRun.Run: stops where the restart entry is freed, because the next search would follow a dangling pointer; that this is the only such stop besides a failed ASSERT is part of the statement.
- List: counting, access by index and ForEach would only add easy members; comparison functions depend on their arguments only.
- HashKey.LoadKey: keys have 1 to 8 bytes, because the hash functions copy the key into a QWORD; the source does not check this (its ASSERT compares the length with the largest QWORD).
- HashTable.HashTable.SearchKeyInBucket: the comparison handed to the list search is the function that Rmemcmp is proved to compute, because a callback is a function value.
- ReceiveRing.FramesInOrder: the card stores a frame and moves its head in one step; the frame is read when the network port is notified; lengths, EOP and the buffer size are not modelled.
- Bitmap.Bitmap.ChangeBits: requires the range to lie inside the bitmap; BitmapSetBitsValue also calls it for some ranges that do not, and Bitmap.Bitmap.SetBitsValue says for which.
- Bitmap.Bitmap.SetBitsValue: what is written behind the bitmap when a range overruns it is not modelled.
- NumberText.Itoa: bases 2 to 36; in base 1 the digit loop does not end. Negating the most negative value is undefined in C; the model takes the two's-complement result.
- Mdl.MdlAllocate: the page tables are a function from page to frame, allocation of the list does not fail, and probing of kernel memory is not modelled.
- PrdTable.PrepareTable: allocation of the table, its own physical address and the DMA registers are not modelled.
- cl_memmove, cl_strtrim, port and register access, interrupt controllers, PCI, ACPI, ATA command sequencing, Ethernet transmit, logging and the command shell: hardware writes, glue, or code that rests on devices.
