# A verified model of the storage, capture and stream code

The project models the parts of the firmware that keep state over many calls, and proves what they
promise for every input and every run. It is in Dafny 4.11; `dafny verify dfyconfig.toml` checks all
of it. Each part is written as methods on objects or arrays where the C code updates fields and
buffers, specified by functions on values, with the theorems stated about those functions and about
whole runs.

**The FAT filesystem (`ext/fatfs/src/ff.c`).**
`Volume` is the sector window with its write-back and the second FAT copy. `FatTable` has get_fat
and put_fat, which through that window are a map from cluster to entry. `Chains` is the allocator on
the table as a value, with the theorem over all runs; `Allocator` has the methods over the window.
`Layout`, `FileStore` and `FileApi` are f_read, f_write and f_lseek with the one-sector cache and
the direct transfers; `FileSession` states that any session is a byte string with a cursor.
`Bitmap`, `LazyChain`, `ExFatSpec`, `ExFatAlloc` and `ExFatRuns` are the exFAT bitmap and the chains
whose FAT links are written late, with runs over any number of files. `FastSeek` and `FastSeekMode`
are the link-map table and seeking by it. `LongNames`, `ShortNames` and `XDir` are the directory
entries of names.

**Camera capture (`dcmi_dma.c`, `ov5640.c`).** `DcmiDma` is the double-buffered DMA controller, the
interrupt handler that moves its targets, the choice of blocks, and stop and trim, as a state
machine over words and interrupts.

**BIO pairs (`ext/wolfssl/src/bio.c`).** `BioPair` is the ring buffer between two ends.

**Interrupt storm (`chibios-svn2/testhal/common/irq_storm.c`).** `IrqStorm` is the chain of threads with
bounded mailboxes, for any interleaving of callbacks and threads. The C messages are only
directions; the model numbers them for the proofs and shows that the program's state is the
numbered one with the numbers erased.

**Calendar (`ptime.c`).** `Calendar` has the two conversions between dates and 32-bit timestamps.

## Where the code differs from what one would expect

The model follows the code; each of these has a lemma with the exact condition.

- f_getfree on FAT16/32 also counts the two reserved entries when they are zero, and on FAT12 it stops
  counting at the first entry 1 but still records the count (`Chains.ScanExact`).
- remove_chain on exFAT leaves the last block of the bitmap set if and only if the last removed
  cluster is 0x7FFFFFFE, because the end mark is then the next number
  (`ExFatSpec.ClearRunsExact`, `ExFatSpec.LastClusterKept`).
- Building a link map reports an internal error if and only if a chain's end mark is its last
  cluster plus one (`FastSeek.CreateLinkMap`). With the marks this code writes that is cluster
  0x7FFFFFFE on exFAT and nothing else (`FastSeek.FailsOnExFat`, `FastSeek.OwnMarkEnds`).
- A BIO pair in the state wrIdx = 0 < rdIdx reports a pending count below zero, which becomes a
  huge unsigned size, and a read there
  returns a negative count and loses the queue (`BioPair.PendingExact`, `BioPair.ReadInCorner`); three
  calls lead there from an empty ring (`BioPair.CornerReached`).
- The calendar has a leap year every four years, so it agrees with POSIX exactly up to the end of
  February 2100 (`Calendar.PosixUntil2100`).
- Short names with a number up to 5 can meet one with a hash, exactly when the hash is that number
  (`ShortNames.NamesEqual`, `ShortNames.NamesMeet`).
- A thread of the interrupt storm sets the flag after its refused post has returned, so a clear can
  fall in between (`IrqStorm.DropSaturates`, `IrqStorm.DropBeforeFlag`).
- Long names can have 255 characters, but the two guards of pick_lfn refuse those of 254 and 255
  (`LongNames.RoundTrip`).
- Stopping a capture while the handler of a completed block is pending loses what came after that
  block unless it is all zeros (`DcmiDma.StoppedCapture`, `DcmiDma.LateHandlerLoses`).

## Conventions

Integers are unbounded; 8, 16 and 32-bit arithmetic is written out where the code can wrap, and the
hash of short names is done on bit vectors. The configuration is that of the repository: 512-byte
sectors, a sector cache per file, exFAT on, names of up to 255 characters, a single-byte code page.
The cluster size is a power of two (it is checked at mount), so masks with csize - 1 are written as
remainders. `hide` statements only keep definitions out of proofs that do not need them.

## Model

| member | source | states |
|---|---|---|
| VolumeWindow.Volume.constructor | ext/fatfs/src/ff.c:869-913 | A mounted volume whose second FAT copy equals the first; what a reader of the volume sees is the disk with the window laid over it. |
| VolumeWindow.Volume.SyncWindow | ext/fatfs/src/ff.c:869-887 | A flush writes the dirty window to the disk and, inside the FAT, to the second copy: afterwards the disk is what was seen before, and the copies are equal again. |
| VolumeWindow.Volume.MoveWindow | ext/fatfs/src/ff.c:892-913 | Moving the window changes nothing that is seen; the window then holds the wanted sector, and a dirty one has been flushed before. |
| FatTable.Put12 | ext/fatfs/src/ff.c:1071-1083 | Storing a 12-bit entry in its byte and a half sets that entry to the low 12 bits and no other entry of the table, whichever nibble is shared. |
| FatTable.Put16 | ext/fatfs/src/ff.c:1085-1090 | The same for 16-bit entries. |
| FatTable.Put32 | ext/fatfs/src/ff.c:1092-1103 | The same for 28-bit and 31-bit entries in 32-bit cells. |
| FatTable.GetFat12 | ext/fatfs/src/ff.c:997-1004 | Reading a 12-bit entry through the window, also when its two bytes are in different sectors. |
| FatTable.GetFat16 | ext/fatfs/src/ff.c:1006-1009 | Reading a 16-bit entry through the window. |
| FatTable.Entry12OnDisk | ext/fatfs/src/ff.c:997-1004 | The value of a 12-bit entry from the byte and a half of its sector. |
| FatTable.Entry16OnDisk | ext/fatfs/src/ff.c:1006-1009 | The value of a 16-bit entry from the two bytes of its sector, lowest first. |
| FatTable.Entry32OnDisk | ext/fatfs/src/ff.c:1011-1036 | The value of a FAT32 or exFAT entry from the four bytes of its sector, lowest first, without the top four bits or the top bit. |
| FatTable.GetFat | ext/fatfs/src/ff.c:980-1047 | Through the window, get_fat reads the table as a plain map from cluster to entry; 1 reports a number out of range; nothing seen changes. |
| FatTable.PutFat12 | ext/fatfs/src/ff.c:1071-1083 | Through the window, with a move in the middle when the entry straddles two sectors, exactly one entry of the table changes. |
| FatTable.PutFat16 | ext/fatfs/src/ff.c:1085-1090 | Through the window, exactly one 16-bit entry changes. |
| FatTable.PutFat32 | ext/fatfs/src/ff.c:1092-1103 | Through the window, exactly the four bytes of one cell change, to those of the value, lowest first; on FAT32 the top four bits stay, as those of every cell. |
| FatTable.PutFat | ext/fatfs/src/ff.c:1058-1107 | put_fat refines an update of the map from cluster to entry, the value cut to 12, 16, 28 or 31 bits, with everything outside both FAT copies unchanged; an error exactly for numbers out of range. |
| Chains.Acyclic | ext/fatfs/src/ff.c:1252-1438 | A list of clusters that follows the links to an end mark cannot come back to a cluster it has passed. |
| Chains.FreeOnlyClears | ext/fatfs/src/ff.c:1277-1309 | From any FAT contents, cyclic and cross-linked ones included, the removal loop ends (each pass zeroes a nonzero entry), changes entries to zero only, and fails only at an entry 1. |
| Chains.FreeChain | ext/fatfs/src/ff.c:1277-1309 | On a well-formed chain the removal loop zeroes exactly its clusters. |
| Chains.CreateExtends | ext/fatfs/src/ff.c:1347-1438 | On a table that is a union of disjoint end-marked chains and free entries, create_chain either changes nothing or appends one formerly free cluster to the one chain that ends at clst (or starts a new chain), and the table is such a union again. |
| Chains.RemoveShortens | ext/fatfs/src/ff.c:1252-1338 | remove_chain frees exactly the clusters from clst on, marks the new end, and leaves every other chain as it was. |
| Chains.CreateCounts | ext/fatfs/src/ff.c:1357-1432 | From any table create_chain keeps the free count right or unknown; it returns 0 exactly when a cluster is asked for, none is free, and the count says so or the search meets no entry 1. |
| Chains.RemoveCounts | ext/fatfs/src/ff.c:1252-1309 | From any table remove_chain keeps the free count right or unknown, exactly unless the new end is a free entry (which it takes into use without counting), the count is known, and some entry in use is not on the way of the removal. |
| Chains.CreateNextFit | ext/fatfs/src/ff.c:1357-1432 | Which cluster is taken: the one behind the end of the chain if it is free, else the first free one behind the hint, going round; it becomes the hint. |
| Chains.CreateReturns | ext/fatfs/src/ff.c:1357-1366 | Inside a chain create_chain returns the next cluster, on a bad number or entry 1, and changes nothing. |
| Chains.RemoveReturns | ext/fatfs/src/ff.c:1268-1274 | remove_chain refuses numbers out of range and changes nothing. |
| Chains.GetFreeReturns | ext/fatfs/src/ff.c:4442-4499 | On a sound table f_getfree returns and records the number of free clusters. |
| Chains.ScanExact | ext/fatfs/src/ff.c:4442-4499 | When the count of f_getfree is the number of free clusters: on FAT16/32 exactly when the two reserved entries are nonzero (it counts them too), on FAT12 exactly when no free entry follows the first entry 1 (where the scan stops). |
| Chains.CreateRefines | ext/fatfs/src/ff.c:1347-1438 | One create_chain as a step of the set of chains. |
| Chains.RemoveRefines | ext/fatfs/src/ff.c:1252-1338 | One remove_chain as a step of the set of chains. |
| Chains.StepSound | ext/fatfs/src/ff.c:1252-1438 | Any of create_chain, remove_chain and f_getfree keeps the union of disjoint chains and the right count. |
| Chains.RunSound | ext/fatfs/src/ff.c:1252-1438 | Beside a run of the set of chains, every state of a run of these operations is the union of those chains and free entries, with the free count right whenever it is valid. |
| Chains.NextChains | ext/fatfs/src/ff.c:1252-1438 | Every call that owes what a caller must (clst in use, and pclst linking to it or nothing doing so) is a step of the set of chains. |
| Chains.TraceExists | ext/fatfs/src/ff.c:1252-1438 | So every run of these operations on a table has a run of the set of chains beside it. |
| Chains.EveryRunSound | ext/fatfs/src/ff.c:1252-1438 | Every state of every run is a union of disjoint, acyclic, end-marked chains and free entries, with the free count right whenever it is valid. |
| Chains.ScanMiscounts | ext/fatfs/src/ff.c:4442-4499 | Two small tables, one FAT16 and one FAT12, on which the scan counts wrong. |
| Chains.FormattedSound | ext/fatfs/src/ff.c:1252-1438 | A formatted volume with unknown hints is where such runs start. |
| Allocator.SearchFree | ext/fatfs/src/ff.c:1409-1422 | The circular search finds the first free cluster after the start, going round once, or none if there is none. |
| Allocator.CreateChain | ext/fatfs/src/ff.c:1347-1438 | The method over the window refines the step on the table, and touches nothing outside the FAT. |
| Allocator.FreeFrom | ext/fatfs/src/ff.c:1277-1309 | The removal loop over the window refines the recursive removal on the table; it ends on any table. |
| Allocator.RemoveChain | ext/fatfs/src/ff.c:1252-1309 | The method over the window refines the step on the table, and touches nothing outside the FAT. |
| Allocator.ScanFat12 | ext/fatfs/src/ff.c:4447-4454 | The FAT12 scan, entry by entry up to the first 1. |
| Allocator.ScanArray | ext/fatfs/src/ff.c:4477-4495 | The FAT16/32 scan, sector by sector over the packed array, counts the zero entries, the reserved ones included. |
| Allocator.GetFreeClusters | ext/fatfs/src/ff.c:4424-4504 | f_getfree returns the valid hint, or else scans and records the count. |
| Allocator.Perform | ext/fatfs/src/ff.c:1252-1438 | Any of the three operations on a volume is the step on its table, and touches nothing outside the FAT. |
| Allocator.Mount | ext/fatfs/src/ff.c:3196-3217 | A volume just mounted, hints unknown, with its reserved entries in use and no entry 1, is where the runs start. |
| Allocator.FormattedMounts | ext/fatfs/src/ff.c:980-1047 | The smallest formatted FAT12 volume is one. |
| Layout.ClustToSect | ext/fatfs/src/ff.c:962-970 | The first sector of a cluster, or 0 for a number out of range. |
| Layout.SectorsDistinct | ext/fatfs/src/ff.c:962-970 | The sectors of a chain of different clusters are all different. |
| Layout.SectorsInData | ext/fatfs/src/ff.c:962-970 | They all lie in the data area, apart from both FAT copies. |
| FileApi.File.constructor | ext/fatfs/src/ff.c:3498-3512 | A file just opened: cursor 0, nothing cached, contents as on the disk. |
| FileStore.BytesOnDisk | ext/fatfs/src/ff.c:962-970 | Where each byte of a flushed file is on the volume: the clusters of the chain one after the other, sector by sector. |
| FileApi.File.NextCluster | ext/fatfs/src/ff.c:3682-3699 | At a cluster boundary, the next cluster of the chain, or a new one linked behind it; 0 exactly when the chain ends and none is free. |
| FileApi.File.WriteDirect | ext/fatfs/src/ff.c:3714-3736 | Whole sectors written past the cache, with the cached copy refreshed when it is among them. |
| FileApi.File.Patch | ext/fatfs/src/ff.c:3742-3759 | Bytes written into the cached sector, which becomes dirty. |
| FileApi.File.WriteAll | ext/fatfs/src/ff.c:3677-3760 | The write loop: the bytes from the cursor on become the data, all other bytes of the file stay, and only the file's clusters and the FAT change on the volume. |
| FileApi.File.Write | ext/fatfs/src/ff.c:3653-3765 | Byte by byte: the bytes from the cursor on are the data, all others stay, and the size grows with the cursor; fewer bytes than asked only when the volume is full or the size limit is reached; fptr stays within objsize and fp->clust is the chain's cluster of byte fptr-1. |
| FileApi.File.ReadRound | ext/fatfs/src/ff.c:3575-3640 | One round of the read loop delivers the next bytes of the contents, from the cache or by a direct transfer overlaid with the dirty sector. |
| FileApi.File.Read | ext/fatfs/src/ff.c:3553-3643 | f_read delivers the smaller of what is asked and what is left, each byte that of the contents from the cursor on, and moves the cursor behind them; the contents stay. |
| FileApi.File.SeekWalk | ext/fatfs/src/ff.c:4133-4163 | The cluster walk of a seek, forward from the current cluster or from the start, stretching the chain when writing. |
| FileApi.File.Seek | ext/fatfs/src/ff.c:4117-4191 | f_lseek moves the cursor to the target, cut to the end of the file when reading and to the room left when stretching; bytes below the old size stay. |
| FileSession.RunInside | ext/fatfs/src/ff.c:3553-3765 | On every run of the byte string with a cursor, the cursor stays inside and the file does not shrink. |
| FileSession.KeptUntilWritten | ext/fatfs/src/ff.c:3553-3765 | On every run a byte keeps its value until a write covers it. |
| FileSession.ReadsLastWritten | ext/fatfs/src/ff.c:3553-3765 | On every run what a read delivers at a place is what the last write over that place stored. |
| FileSession.ReadDelivers | ext/fatfs/src/ff.c:3572-3573 | On every run a read of a readable file delivers all that is asked for, or all there is. |
| FileSession.WriteSeekRead | ext/fatfs/src/ff.c:3553-3765 | On every run, writing, seeking back and reading as many bytes delivers exactly what was stored. |
| FileSession.Perform | ext/fatfs/src/ff.c:3553-3765 | Any one operation on the open file is a step of the byte string with a cursor; a write below the largest size or a seek that stops short does so only on a volume without a free cluster. |
| FileSession.StaysFull | ext/fatfs/src/ff.c:3553-3765 | No operation on the file makes a cluster free. |
| FileSession.Session | ext/fatfs/src/ff.c:3553-3765 | Any sequence of f_write, f_read and f_lseek on one open file, whatever the cluster size and cache state, is a run of the byte string with a cursor; if any of them stopped short for room the volume is full. |
| FileSession.OpenNew | ext/fatfs/src/ff.c:3498-3512 | A new file on a volume just mounted is an empty byte string with the cursor at its start. |
| Bitmap.FlipSetsBit | ext/fatfs/src/ff.c:1165-1194 | Flipping a bit of a byte in its sector changes that bit of the bitmap and no other, across byte and sector boundaries. |
| Bitmap.FindBitmap | ext/fatfs/src/ff.c:1124-1157 | With one cluster asked for: the first clear bit from the start on, going round once, or none. |
| Bitmap.BitOnDisk | ext/fatfs/src/ff.c:1124-1157 | Where the bit of a cluster is: bit k % 8 from the lowest of byte k / 8 of the bitmap. |
| Bitmap.FindsFirst | ext/fatfs/src/ff.c:1124-1157 | The bit found is the first clear one from the start on, going round. |
| Bitmap.StartBitIs | ext/fatfs/src/ff.c:1135-1137 | The start is the bit of the cluster given, or the first one. |
| Bitmap.ChangeBitmap | ext/fatfs/src/ff.c:1165-1194 | Flips the run of bits up to the first that already has the new value, and fails exactly if there is one. |
| LazyChain.TailIsEnd | ext/fatfs/src/ff.c:1015-1038 | While the size follows the list, get_fat at the growing tail is end-of-chain, whatever is not written yet. |
| LazyChain.LastIndexIs | ext/fatfs/src/ff.c:1017-1019 | The number of clusters less one that get_fat computes from a size is k exactly for sizes above k clusters and up to k + 1. |
| LazyChain.Follows | ext/fatfs/src/ff.c:1015-1038 | Inside the list, with the fragment flushed, get_fat gives the next cluster. |
| LazyChain.AttachKeeps | ext/fatfs/src/ff.c:1377-1393 | Stretching by a cluster, contiguous, first fragmented or further, keeps the late-written chain in step with the list. |
| LazyChain.AttachShape | ext/fatfs/src/ff.c:1377-1393 | How status, lengths of the fragments and FAT change: nothing while the chain stays contiguous; else as the first or the last fragment demands. |
| LazyChain.AttachFirst | ext/fatfs/src/ff.c:1377-1378 | A new chain is contiguous and nothing is written. |
| LazyChain.FlushLastKeeps | ext/fatfs/src/ff.c:1226-1241 | Flushing the last fragment keeps it so. |
| LazyChain.FillFirstKeeps | ext/fatfs/src/ff.c:1202-1218 | Writing the first fragment keeps it so. |
| LazyChain.SyncWrites | ext/fatfs/src/ff.c:1202-1241 | fill_first_frag and then fill_last_frag leave the exact list on the disk: as a FAT chain, or contiguous with nothing written while stat is 2; no other entry changes. |
| LazyChain.ChainOnDisk | ext/fatfs/src/ff.c:1202-1241 | With nothing pending the entries from sclust on are a chain of exactly the list. |
| LazyChain.CutKeeps | ext/fatfs/src/ff.c:1311-1335 | Cutting the list keeps the chain in step; if stat becomes 2 the rest really is contiguous. |
| LazyChain.CutDecides | ext/fatfs/src/ff.c:1313-1335 | The status after a cut, exactly: contiguous if what is left of a FAT chain is, or if the cut is not behind the first fragment. |
| LazyChain.RunLazy | ext/fatfs/src/ff.c:1201-1241 | Over every run of stretches and flushes; while stat is 2 the list is consecutive and the FAT untouched. |
| ExFatSpec.XCreateStretches | ext/fatfs/src/ff.c:1370-1393 | create_chain at the tail adds one cluster whose bit was clear and sets that bit; 0 exactly when no bit is clear; the count stays right. |
| ExFatSpec.XCreateStarts | ext/fatfs/src/ff.c:1357-1393 | create_chain for an empty file: the same, with a list of one. |
| ExFatSpec.XCreateNextFit | ext/fatfs/src/ff.c:1357-1376 | Which cluster is taken on exFAT: the first with a clear bit from the end of the chain, or the hint, on, going round; it becomes the hint. |
| ExFatSpec.XCreateFollows | ext/fatfs/src/ff.c:1357-1366 | Inside a list create_chain returns the next cluster and changes nothing. |
| ExFatSpec.ClearRunsExact | ext/fatfs/src/ff.c:1277-1309 | Clearing the bitmap run by run clears exactly the bits of the removed list if and only if its last cluster is not 0x7FFFFFFE; there the next-cluster test takes the end mark for the following cluster. |
| ExFatSpec.LastClusterKept | ext/fatfs/src/ff.c:1291-1299 | The counter-example: a chain of only that cluster keeps its bit. |
| ExFatSpec.RemoveCounted | ext/fatfs/src/ff.c:1286-1289 | Removing a list keeps the free count right. |
| ExFatAlloc.GetFatX | ext/fatfs/src/ff.c:1015-1038 | get_fat of an exFAT object over the window and its fields. |
| ExFatAlloc.FillFirstFrag | ext/fatfs/src/ff.c:1202-1218 | The loop writes the links of the first fragment and nothing else. |
| ExFatAlloc.FillLastFrag | ext/fatfs/src/ff.c:1226-1241 | The loop writes the links of the last fragment and its end and nothing else. |
| ExFatAlloc.AttachCluster | ext/fatfs/src/ff.c:1377-1393 | The update of the object and the FAT when a cluster is attached. |
| ExFatAlloc.CreateChainX | ext/fatfs/src/ff.c:1347-1438 | create_chain on exFAT over the window refines the step on bits, entries and object; file data untouched. |
| ExFatAlloc.ReleaseChain | ext/fatfs/src/ff.c:1277-1309 | The loop over contiguous blocks refines the run-by-run clearing. |
| ExFatAlloc.StaysContiguous | ext/fatfs/src/ff.c:1317-1329 | The walk that decides whether the rest of the chain is contiguous decides it exactly. |
| ExFatAlloc.RemoveChainX | ext/fatfs/src/ff.c:1252-1338 | remove_chain on exFAT over the window: entries, bits, count and stat as in the value model; file data untouched. |
| ExFatAlloc.ScanBitmap | ext/fatfs/src/ff.c:4457-4475 | The scan counts the clear bits among the clusters of the volume, across bytes and sectors. |
| ExFatAlloc.GetFreeX | ext/fatfs/src/ff.c:4424-4504 | f_getfree on exFAT. |
| ExFatRuns.StartKeeps | ext/fatfs/src/ff.c:1357-1393 | create_chain for an object without clusters, on a volume with other files: fails exactly when no bit is clear; the object then owns one cluster that was free. |
| ExFatRuns.StretchKeeps | ext/fatfs/src/ff.c:1370-1393 | create_chain at the tail of a file: fails exactly when no bit is clear; else the list grows by one cluster that was free. |
| ExFatRuns.FlushKeeps | ext/fatfs/src/ff.c:1202-1241 | Both fragment writers leave the exact list on the disk. |
| ExFatRuns.RemoveKeeps | ext/fatfs/src/ff.c:1252-1338 | remove_chain of the whole list or of a part, for a list that does not end with cluster 0x7FFFFFFE: exactly the bits of the removed clusters are cleared, the count stays right, and stat 2 means contiguous. |
| ExFatRuns.OtherKept | ext/fatfs/src/ff.c:1252-1438 | What an operation on one file changes keeps every other file: its list, its marks and its links. |
| ExFatRuns.StepPromise | ext/fatfs/src/ff.c:1202-1438 | Each operation on a volume with any number of files keeps all of them disjoint and sound, and keeps its own promise. |
| ExFatRuns.RunSound | ext/fatfs/src/ff.c:1201-1438 | Over every run of opening, create_chain (new chains and longer ones), flushing, remove_chain (whole and in part) and f_getfree on any number of files: lists stay disjoint and marked, the free count stays right whenever it is valid, and every step keeps its promise. |
| ExFatRuns.StartSound | ext/fatfs/src/ff.c:1357-1393 | A volume without open files and with unknown hints is where such runs start. |
| FastSeek.LookupFinds | ext/fatfs/src/ff.c:1451-1469 | The table of a list gives, for every cluster index, the cluster of the list, and 0 past the end. |
| FastSeek.LinkMapItems | ext/fatfs/src/ff.c:4066-4090 | The items of a table: the length of each fragment, as far as its clusters follow each other, its first cluster, and 0 at the end. |
| FastSeek.ClusterNoIs | ext/fatfs/src/ff.c:1461-1461 | The cluster number of an offset is k exactly from k clusters on and below k + 1. |
| FastSeek.WalkFollows | ext/fatfs/src/ff.c:1451-1469 | Walking get_fat from the first cluster gives the same. |
| FastSeek.ListIsChain | ext/fatfs/src/ff.c:980-1047 | The clusters of a file, on FAT12/16/32 or on exFAT in any chain status with its last fragment written, are a chain of what get_fat gives. |
| FastSeek.FastIsSlow | ext/fatfs/src/ff.c:1451-1469 | So fast seek and slow seek agree for every index, on every volume type. |
| FastSeek.GetLink | ext/fatfs/src/ff.c:980-1047 | get_fat on any volume type is one map from cluster to next. |
| FastSeek.ClmtClust | ext/fatfs/src/ff.c:1451-1469 | clmt_clust over the array is the lookup of the 32-bit cluster number of the offset. |
| FastSeek.CreateLinkMap | ext/fatfs/src/ff.c:4066-4090 | On every volume type the table built is that of the file's list, the recorded length is exactly the items needed, and too small a table is reported; it aborts exactly when the last cluster plus one is the value of its end mark. |
| FastSeek.BuildAndLookUp | ext/fatfs/src/ff.c:4057-4090 | End to end, with the fragment flush before: for every offset of the file, looking it up in the table just built gives the cluster that walking get_fat from the first cluster gives; 0 behind the list. |
| FastSeekMode.Seek | ext/fatfs/src/ff.c:4091-4112 | f_lseek by the table: the cursor goes to the offset, cut at the end of the file, with the cluster and the cached sector of that place; contents, chain and FAT stay. |
| FastSeekMode.SamePlace | ext/fatfs/src/ff.c:4091-4191 | Cluster and cached sector are determined by the cursor, so this is where the seek along the FAT arrives. |
| FastSeek.OwnMarkEnds | ext/fatfs/src/ff.c:4074-4079 | With the end mark this code writes, the abort cannot happen on FAT12/16/32. |
| FastSeek.ForeignMarkRunsOn | ext/fatfs/src/ff.c:4074-4079 | With another end mark it can: a chain of the last cluster, marked with the number of entries. |
| FastSeek.FailsOnExFat | ext/fatfs/src/ff.c:4074-4079 | On exFAT it happens exactly for a list that ends with cluster 0x7FFFFFFE. |
| FastSeek.FailingFile | ext/fatfs/src/ff.c:4074-4079 | There is such a file on the largest volume. |
| Calendar.ToUnix | ptime.c:13-34 | date2UnixTimestamp is the number of seconds since 1970 of the calendar with a leap year every four years, modulo 2^32. |
| Calendar.FromUnix | ptime.c:42-62 | unixTimestamp2Date yields, for every 32-bit timestamp, a valid date with exactly that many seconds. |
| Calendar.MonthLengths | ptime.c:4-5 | The tables add up the lengths of the months, with 29 days in February every four years. |
| Calendar.DateUnique | ptime.c:42-62 | No two valid dates have the same number of seconds. |
| Calendar.OrderPreserved | ptime.c:13-62 | Order of dates is order of seconds. |
| Calendar.ThereAndBack | ptime.c:13-62 | For every valid date that fits in 32 bits, converting there and back gives the date. |
| Calendar.BackAndThere | ptime.c:13-62 | For every timestamp, converting to a date and back gives the timestamp. |
| Calendar.PosixUntil2100 | ptime.c:13-34 | The seconds are those of the formula of section 4.16 of IEEE Std 1003.1-2017 exactly for dates before 1 March 2100; in every later year they are more. |
| BioPair.PendingExact | ext/wolfssl/src/bio.c:40-70 | The pending count is the number of queued bytes exactly outside the state wrIdx = 0 < rdIdx; there it is negative. |
| BioPair.CornerReachable | ext/wolfssl/src/bio.c:186-325 | Reads and writes from an empty ring can lead to that state exactly if the ring has three places or more. |
| BioPair.ReadTakes | ext/wolfssl/src/bio.c:186-259 | Outside that state a read hands out the smaller of what is asked and what lies in one piece, the oldest queued bytes, and leaves the rest queued. |
| BioPair.ReadInCorner | ext/wolfssl/src/bio.c:186-259 | In that state a read returns a negative count and empties the queue. |
| BioPair.WriteAppends | ext/wolfssl/src/bio.c:262-325 | A write in any state gives the smaller of what is asked and the room in one piece, where the new bytes are queued behind the others; an error exactly when the ring is full. |
| BioPair.BoundsKept | ext/wolfssl/src/bio.c:186-325 | Both indices stay between 0 and the size on every run of accesses with counts from 0 on. |
| BioPair.NegativeWrite | ext/wolfssl/src/bio.c:311-321 | A negative count takes the write index of an empty ring below 0. |
| BioPair.Bio.SetWriteBufSize | ext/wolfssl/src/bio.c:97-130 | A new ring of that size, empty; refused while paired or for a negative size. |
| BioPair.Bio.Reset | ext/wolfssl/src/bio.c:329-356 | The queue is empty. |
| BioPair.Bio.NWrite | ext/wolfssl/src/bio.c:262-325 | Index update, offset and count of a write for any count, with the unpaired and zero cases. |
| BioPair.Bio.NRead | ext/wolfssl/src/bio.c:186-259 | Index update, offset and count of a read of the peer's ring for any count, with the unpaired, zero and nothing-queued cases. |
| BioPair.Bio.CtrlPending | ext/wolfssl/src/bio.c:40-70 | As an unsigned size: the number of bytes the peer has queued, outside the corner state; there 2^32 less the read index; 0 without a peer. |
| BioPair.MakePair | ext/wolfssl/src/bio.c:137-168 | Two unpaired ends become each other's peers, with rings of the default size where they had none. |
| BioPair.Exchange | ext/wolfssl/src/bio.c:186-325 | On every run of writes and reads up to a read in the corner state, what was written is what was read followed by what is queued, in order and once each. |
| IrqStorm.StepMoves | chibios-svn2/testhal/common/irq_storm.c:84-167 | Any step, seen from any place of the chain or its exit, keeps the line of messages of a direction, removes one that met a full mailbox, or adds the next at the end. |
| IrqStorm.StepSound | chibios-svn2/testhal/common/irq_storm.c:84-167 | Any step keeps the order at every place and the account of messages. |
| IrqStorm.RunSound | chibios-svn2/testhal/common/irq_storm.c:84-167 | So does every interleaving, for any number of threads and any mailbox size. |
| IrqStorm.ExitInOrder | chibios-svn2/testhal/common/irq_storm.c:84-167 | Surviving messages of one direction leave the chain in injection order. |
| IrqStorm.Conserved | chibios-svn2/testhal/common/irq_storm.c:84-167 | Injected messages are exactly those that left, those queued or in hand, and those dropped, each once; every drop sets the flag once, in a thread as the next thing it does; saturated tells exactly whether the flag was set since it was cleared; no mailbox overflows. |
| IrqStorm.DropSaturates | chibios-svn2/testhal/common/irq_storm.c:84-167 | On every run saturated holds exactly if there are more drops than flag settings before the last clear and threads between a refused post and the flag; without a clear, exactly if there are more drops than such threads. |
| IrqStorm.DropBeforeFlag | chibios-svn2/testhal/common/irq_storm.c:127-129 | A run of two threads in which a message has been dropped and saturated does not hold yet. |
| IrqStorm.TimerSends | chibios-svn2/testhal/common/irq_storm.c:144-167 | A timer sends to the first or the last thread: at the end of the mailbox if it has room, else the message is dropped and the flag set at once; nothing else changes. |
| IrqStorm.FetchTakes | chibios-svn2/testhal/common/irq_storm.c:94-98 | A thread with a free hand takes the oldest message of its own mailbox, and nothing is dropped or leaves. |
| IrqStorm.ForwardSends | chibios-svn2/testhal/common/irq_storm.c:118-130 | A message in hand goes to the neighbour in its direction if that mailbox has room, is dropped exactly if it is full, and leaves the chain exactly past its ends. |
| IrqStorm.FetchedOnce | chibios-svn2/testhal/common/irq_storm.c:94-98 | Every thread fetches the messages of a direction in injection order, so none twice. |
| IrqStorm.Chain.constructor | chibios-svn2/testhal/common/irq_storm.c:187-197 | Empty mailboxes and idle threads. |
| IrqStorm.Chain.PostTo | chibios-svn2/testhal/common/irq_storm.c:148-152 | A callback's post under the lock: queued if there is room, else lost and the flag set. |
| IrqStorm.Chain.Gpt1Callback | chibios-svn2/testhal/common/irq_storm.c:144-153 | The first timer's callback, on messages that are only directions, refines the injection of a numbered message to the right. |
| IrqStorm.Chain.Gpt2Callback | chibios-svn2/testhal/common/irq_storm.c:158-167 | The second timer's callback refines an injection to the left at the last thread. |
| IrqStorm.Chain.FetchMessage | chibios-svn2/testhal/common/irq_storm.c:97-98 | Fetching takes the oldest message. |
| IrqStorm.Target | chibios-svn2/testhal/common/irq_storm.c:118-126 | The unsigned target is the neighbour, or past the last thread at both ends. |
| IrqStorm.Chain.SendOn | chibios-svn2/testhal/common/irq_storm.c:118-127 | A thread's post without waiting refines passing on, being refused, or leaving the chain. |
| IrqStorm.Chain.SetFlag | chibios-svn2/testhal/common/irq_storm.c:128-129 | After a refused post the thread sets the flag, as a step of its own. |
| IrqStorm.Chain.ClearFlag | chibios-svn2/testhal/common/irq_storm.c:232-232 | Clearing the flag before a round. |
| DcmiDma.WritesInBuffer | dcmi_dma.c:46-72 | In every reachable state the next word goes right behind the stream delivered so far, inside the buffer. |
| DcmiDma.TransferKeeps | dcmi_dma.c:46-72 | A word moved by the controller keeps the invariant: targets, counters, and the stream at the front of zeroed memory. |
| DcmiDma.IsrKeeps | dcmi_dma.c:46-72 | The handler keeps it. |
| DcmiDma.RunGood | dcmi_dma.c:30-117 | So it holds on every run in which the handler is done before the next block is. |
| DcmiDma.BlockAddressIs | dcmi_dma.c:63-64 | The 32-bit address computed for a block never wraps and never passes the end of the blocks. |
| DcmiDma.FixedSizeCapture | dcmi_dma.c:30-73 | The callback comes once, exactly when the handler has counted the last block; the blocks then hold the image in order; no write leaves the buffer and no address past the end of the image is programmed. |
| DcmiDma.BlockPlace | dcmi_dma.c:226-234 | Completed block k is at buffer + k * block_size. |
| DcmiDma.StopKeeps | dcmi_dma.c:206-224 | What stop and trim keep is the delivered stream without trailing zeros, if and only if the handler is not pending or only zeros came after the completed block. |
| DcmiDma.StoppedCapture | dcmi_dma.c:206-224 | The same at the end of every run that is stopped before the buffer is full. |
| DcmiDma.LateHandlerLoses | dcmi_dma.c:206-224 | For every block size and count there is a run, stopped with the handler pending, that loses delivered bytes. |
| DcmiDma.Init | dcmi_dma.c:121-167 | Succeeds exactly when there is a buffer and the image is equal blocks of 256 to 65535 words, and picks the smallest number of them. |
| DcmiDma.InitOpenEnded | dcmi_dma.c:169-201 | From two blocks of buffer on, the largest number of blocks that leaves one to spare; below that 0 or -1. |
| DcmiDma.TrimLength | ov5640.c:1768-1774 | The loop drops exactly the trailing zeros. |
| DcmiDma.Driver.Start | dcmi_dma.c:226-234 | A cleared buffer and an armed stream are a good initial state. |
| DcmiDma.Driver.MoveWord | dcmi_dma.c:149-165 | The stream as it is set up, on its registers, refines the transfer of a word and keeps the invariant. |
| DcmiDma.Driver.ShuffleIsr | dcmi_dma.c:75-117 | The handler on the driver's variables and the stream's registers refines the step. |
| DcmiDma.Driver.StopAndTrim | dcmi_dma.c:206-224 | The bytes kept are the delivered stream without trailing zeros, exactly if no handler is pending or only zeros came after the completed block. |
| LongNames.PutLfn | ext/fatfs/src/ff.c:1787-1812 | Writes entry number ord of a name: its 13 characters, the terminator and fillers, and the flag exactly on the entry with the end. |
| LongNames.EntryLayout | ext/fatfs/src/ff.c:1787-1812 | The entry byte by byte: flag, attribute, checksum and the 13 characters, low byte first, at their places. |
| LongNames.OnlyHighestFlagged | ext/fatfs/src/ff.c:1810-1811 | Only the entry with the highest number is flagged. |
| LongNames.StoreEntries | ext/fatfs/src/ff.c:2382-2394 | As many entries as groups of 13 characters, highest number first, only the first flagged. |
| LongNames.PlaceIs | ext/fatfs/src/ff.c:1759-1759 | The unsigned place of an entry in the buffer; order 0 is far past its end. |
| LongNames.PickLfn | ext/fatfs/src/ff.c:1749-1778 | The loop over an arbitrary entry: what it stores, and when it refuses. |
| LongNames.PickAccepts | ext/fatfs/src/ff.c:1758-1777 | An arbitrary entry is accepted exactly if its cluster field is zero, its characters up to the terminator fit below 255 from its place on, only fillers follow the terminator, and a last entry leaves a place for one more terminator. |
| LongNames.PickEntry | ext/fatfs/src/ff.c:1749-1778 | A written entry puts back exactly its part of the name; it is refused exactly if it is the last one of a name of more than 253 characters. |
| LongNames.RoundTrip | ext/fatfs/src/ff.c:1749-1812 | Reading all entries of a name in any order, into any buffer, rebuilds the name, exactly for names of up to 253 characters. |
| ShortNames.ShiftBack | ext/fatfs/src/ff.c:1845-1847 | Shift and xor can be undone from the last bit. |
| ShortNames.HashBijective | ext/fatfs/src/ff.c:1841-1849 | For a long name of any length the hash is a bijection of its 16-bit start value, with its inverse. |
| ShortNames.HashName | ext/fatfs/src/ff.c:1841-1849 | The two loops compute the hash. |
| ShortNames.ParseDigits | ext/fatfs/src/ff.c:1854-1861 | The hexadecimal digits give the number back. |
| ShortNames.DigitIs | ext/fatfs/src/ff.c:1854-1861 | The last digit stands for the lowest four bits, in capitals; the others are those of the rest. |
| ShortNames.Itoa | ext/fatfs/src/ff.c:1854-1861 | The loop writes the digits and the tilde at the end of eight places. |
| ShortNames.NumberRecovered | ext/fatfs/src/ff.c:1825-1873 | The sequence number can be computed back from the short name and the long name. |
| ShortNames.NamesEqual | ext/fatfs/src/ff.c:1825-1873 | Two sequence numbers give the same name exactly if they are equal, or one is up to 5 and is the hash of the other; so different ones from 6 to 99 never do. |
| ShortNames.HashMeets | ext/fatfs/src/ff.c:1825-1873 | Every number up to 5 is the hash of exactly one start value; the names of the two are the same exactly if that value is above 5 or is the number itself. |
| ShortNames.NamesMeet | ext/fatfs/src/ff.c:1825-1873 | A long name of one character for which the numbers 2 and 6 give the same short name. |
| ShortNames.GenNumName | ext/fatfs/src/ff.c:1825-1873 | The method writes the stem, the tilde, the digits, spaces and the extension. |
| ShortNames.NameLayout | ext/fatfs/src/ff.c:1864-1873 | What the name looks like: the longest part before a space that leaves room, tilde, digits, spaces, extension. |
| XDir.CreateXdir | ext/fatfs/src/ff.c:2118-2148 | Builds a set for a name of 1 to 255 characters: types, counts, the hash of the name and its characters in the layout that is searched, all other fields zero. |
| XDir.SizeIs | ext/fatfs/src/ff.c:453-453 | The size computed from a name's length is exactly that of its set, and fits the buffer. |
| XDir.XdirSum | ext/fatfs/src/ff.c:1907-1924 | The loop computes the sum without its own field. |
| XDir.SumSkipsItself | ext/fatfs/src/ff.c:1915-1922 | The sum does not depend on its own field. |
| XDir.SumDetects | ext/fatfs/src/ff.c:1907-1924 | A change of any one byte changes the sum. |
| XDir.AddByteIs | ext/fatfs/src/ff.c:1920-1920 | A step rotates the sum right by one bit and adds the byte, in 16 bits. |
| XDir.SumInOrder | ext/fatfs/src/ff.c:1915-1922 | The sum takes the bytes in order and leaves out bytes 2 and 3. |
| XDir.StoreXdir | ext/fatfs/src/ff.c:2085-2109 | Writes the set with its sum to consecutive entries and no others; it fails exactly if the directory ends before. |
| XDir.LoadXdir | ext/fatfs/src/ff.c:2004-2048 | Accepts exactly the sets with the right types, count, size for the name length and sum, and then has their bytes. |
| XDir.AcceptedShape | ext/fatfs/src/ff.c:2004-2048 | What is accepted, entry by entry; the name length fits the number of name entries. |
| XDir.StoredIsAccepted | ext/fatfs/src/ff.c:2004-2109 | A set built for a name and stored is accepted. |
| XDir.LoadedIsBlock | ext/fatfs/src/ff.c:2004-2109 | What is loaded is a set for the same name, with all other fields as stored. |
| XDir.StoreAndLoad | ext/fatfs/src/ff.c:2004-2109 | Storing and loading with any buffer gives identical bytes and the name. |
| XDir.DamageIsRefused | ext/fatfs/src/ff.c:2004-2048 | A change of any one byte of an accepted set, its count aside, is refused. |
| XDir.XnameSum | ext/fatfs/src/ff.c:1929-1943 | The loop computes the hash of the upper-cased name. |
| XDir.HashInOrder | ext/fatfs/src/ff.c:1936-1940 | The hash takes the upper-case characters in order, the low byte of each first. |
| XDir.Matches | ext/fatfs/src/ff.c:2264-2269 | The comparison loop decides equality up to case, reading around the leading bytes of each entry. |
| XDir.Lookup | ext/fatfs/src/ff.c:2254-2270 | A stored file is found exactly under the names that equal its own up to case. |

## Left out

- Disk errors: sectors always read and write; the error returns of disk_read and disk_write are not modelled.
- Mounting, path walking, code-page tables, f_open's name handling, f_mkfs, f_fdisk, f_truncate, f_printf: they would add long table-driven members, not harder properties.
- The access of directory entries through clusters and sectors (dir_sdi, dir_next, dir_alloc): `XDir` and `LongNames` work on a directory that is a sequence of entries.
- exFAT directories that stretch themselves, and exFAT f_unlink.
- Bitmap.FindBitmap: for one cluster; only the disabled f_expand asks for more. Trimming (FF_USE_TRIM) is left out too.
- FatTable.GetFat: for FAT12/16/32; the exFAT branch is `ExFatAlloc.GetFatX`, and `FastSeek.GetLink` is both.
- FSINFO flags and the sync of the FSINFO sector: they are bookkeeping beside the hints.
- FileApi.File.Write: the model is for FAT12/16/32 files; on exFAT the allocation below it is modelled, not the byte contents of a session.
- FastSeekMode.Seek: for FAT12/16/32 files, like the other seeks.
- FileSession.Session: one open file at a time; what a session changes on the volume is confined to its clusters and the FAT, but two open files are not interleaved.
- ExFatAlloc.RemoveChainX: for a regular file whose last fragment has been flushed before, and whose size follows its list.
- LongNames.PutLfn: names contain neither 0 nor 0xFFFF; with the filler inside, the end of a name cannot be told.
- ShortNames.GenNumName: a single-byte code page; two-byte characters in the stem are not modelled.
- XDir.Matches: ff_wtoupper is a parameter that maps only 0 to 0; its table is not part of this model.
- DcmiDma.RunGood: error flags of the handler, which fall through after the error callback, and half-transfer flags are not modelled; a late handler is excluded by assumption.
- BioPair.BoundsKept: accesses with a negative count, which leave the ring (`BioPair.NegativeWrite`), are not part of the runs; BIO types other than pairs are not modelled.
- BioPair.MakePair: two different ends have different memory.
- ExFatRuns.RunSound: removals with the last fragment flushed, as f_lseek does before, and of lists that do not end with cluster 0x7FFFFFFE, where `ExFatSpec.ClearRunsExact` shows what happens.
- Chains.EveryRunSound: removals on clusters that are in use, with the cluster that links to them if there is one; on other arguments of the caller the chains are not claimed.
- IrqStorm.RunSound: the random delays, the LED counter and the timer programming of the test do not influence the messages and are left out; so is the end of the threads.
- Calendar.ToUnix: the month is 1 to 12; the tables have no other.
- Drivers and shell (bme280.c, tmp100.c, ltr329.c, mpu9250.c, padc.c, pi2c.c, memcpy_dma.c, main.c, collector.c, debug.c, watchdog.c, usbcfg.c, membench.c): register access, console and configuration, with no deep state of their own.
- The rest of wolfSSL (crl.c, ocsp.c, wrappers): it depends on certificate and cryptographic code that is not here.
