# seL4 root server and FAT file system: a verified model

The model covers the two halves of the repository that carry the most state.

**The FAT file system** on a block device. `BlockIo` is the block layer, which moves whole transfer
units and patches the sectors of a partly covered unit. `FatEntries` and `Volume` are the sector
window and the FAT seen through it, for 12-, 16- and 32-bit entries. `Chains` and `Allocator` are
cluster chains and the two operations that change them; `GetFree` counts free clusters. `FileImage`,
`FileIo`, `FileRead`, `FileSeek` and `FileRuns` are one open file, from sectors up to a byte array
with a cursor. `LinkMap` is the fast-seek table, `Sharing` the table of open objects, `Wildcard` the
name matcher, `LongNames` the long-name entries, and `Geometry` the layout that formatting chooses
and mounting accepts.

**The memory allocators of the root server.** `Untypeds` splits untyped memory and keeps a separate
pool of node structures. `FrameTable` holds two doubly linked lists threaded through an array of
frames. `Bitfield` and `Slots` are the two-level bitmap of capability slots. `FrameMap` is the
four-level frame table of a memory object.

`Arith` has division and remainder as repeated subtraction with the facts the proofs use, `Bytes`
the byte and 32-bit words.

How the proofs are layered: the device refines an array of sectors; the window over it shows a
logical disk, which no window movement changes; the FAT is a map from cluster numbers to entries,
which the bytes of the first FAT determine; every chain is a sequence of clusters in that map; a
file is the sequence of bytes along its chain. Each layer is stated over the one below by a ghost
function (`Logical`, `Fat`, `Img`, `Content`), and each operation says what becomes of it and what
stays.

Disk failures are part of `BlockIo`, `Volume` and `GetFree`: the outcome of every request is an
arbitrary oracle. `Allocator`, the file modules and `LinkMap` are stated for a device that serves all
requests (`reliable`).

Results that hold only under a condition are stated with it, in both directions: names that survive a
round trip (`LongNames.RoundTrip`), patterns the matcher decides (`Wildcard.DecidesExactly`), counts
of free clusters that are right (`GetFree.CountedExactly`), layouts a mount may accept
(`Geometry.MountedIsValid`), volumes that formatting leaves mountable (`Geometry.FormatAndMount`),
chains a link map can be built for (`LinkMap.EndLooksLinkedExactly`), opens and closes that keep the
table of open objects in step (`Sharing.ShareTable.IncShare`, `Sharing.ShareTable.DecShare`), and
failures that give everything back (`FrameTable.FailureRestores`).

## Model

| member | source | states |
|---|---|---|
| BlockIo.SddfCountIsTransferCount | fs/fat/io.c:119-134 | The number of units computed from head, tail and aligned part, whose remainder may be as low as minus one unit, is ceil((s+n)/T) - floor(s/T), for all positions and lengths below 2^32 and 2^30 and every unit size T |
| BlockIo.TransferSpan | fs/fat/io.c:119-136 | The units requested cover the sectors asked for, lie on the device when those do, and are at most two units longer |
| BlockIo.Disk.Read | fs/fat/io.c:112-150 | A successful read returns exactly sectors s to s+n; no read changes the device |
| BlockIo.Disk.Write | fs/fat/io.c:152-211 | A successful write replaces exactly sectors s to s+n, aligned or not, also with units of one sector; a failed one changes nothing |
| BlockIo.Disk.ReadModifyWrite | fs/fat/io.c:192-205 | The unaligned case keeps the other sectors of the units it touches, and stops when its read fails |
| BlockIo.FitsAnywhere | fs/fat/io.c:136 | A buffer takes n sectors from every position exactly if it holds floor((n+2T-2)/T) units |
| Volume.LargestCluster | fs/fat/io.c:136 | For clusters as large as the buffer, the transfer of every cluster fits exactly if the data area is aligned to units |
| Volume.LargeBuffer | fs/fat/io.c:136 | With room for a cluster in the worst place every transfer of a volume fits |
| FatEntries.StoredFat12 | deps/ff15/ff.c:1260-1272 | Storing the two bytes of a FAT12 entry, possibly in two sectors, updates the map of entries at that cluster only |
| FatEntries.Neighbours12 | deps/ff15/ff.c:1260-1272 | The entry that shares a byte with the stored one decodes to its old value, on either side |
| FatEntries.EntryBytesStored | deps/ff15/ff.c:1258-1294 | For all three types: once exactly the bytes of an entry have their new values, the map is the old one updated there, and FAT32 reserved bits stay |
| FatEntries.OverlayStoresByte | deps/ff15/ff.c:1063-1082 | A byte changed in the dirty window is that byte of the FAT, and two FATs that agreed still agree on the logical disk |
| FatEntries.FatFrame | deps/ff15/ff.c:1169-1237 | The FAT depends on the sectors of the first FAT only |
| FatEntries.EntryOnDisk | deps/ff15/ff.c:1169-1237 | Every entry of 12, 16 and 28 bits in the bytes of the disk, at offset k mod ss of sector fatbase + k/ss, low byte first |
| FatEntries.ClusterPlaces | deps/ff15/ff.c:1152-1160 | Cluster 2 lies at the first sector of the data area, each further one `csize` sectors behind the one before |
| Volume.FatFs.SyncWindow | deps/ff15/ff.c:1063-1082 | The logical disk stays; after a sync that succeeds the window is clean; if the FATs of the logical disk agreed, those on the device now do; a device error leaves at most the second FAT behind |
| Volume.FatFs.MoveWindow | deps/ff15/ff.c:1085-1106 | The logical disk stays and the window shows its sector; on an error no sector but one of the second FAT differs |
| Volume.FatFs.GetFat | deps/ff15/ff.c:1169-1237 | The value of the map, 1 for a cluster number out of range, 0xFFFFFFFF only on a disk error; the map stays |
| Volume.FatFs.PutFat | deps/ff15/ff.c:1247-1296 | The map updated at the cluster and nowhere else, reserved bits and agreement of the FATs kept, other sectors untouched; on an error the result says so |
| Chains.ChainsAcyclic | deps/ff15/ff.c:1437-1525 | A chain that ends meets no cluster twice |
| Chains.ChainUnique | deps/ff15/ff.c:1169-1237 | The first cluster determines the chain |
| Chains.StretchKeepsWellFormed | deps/ff15/ff.c:1608-1617 | Linking a free cluster behind one chain keeps all chains disjoint, complete and covering every entry in use |
| Chains.NewChainKeepsWellFormed | deps/ff15/ff.c:1608-1617 | The same for a new chain of one cluster |
| Chains.RemovedChain | deps/ff15/ff.c:1461-1494 | Following a chain from its k-th cluster zeroes exactly the clusters from there on and meets no entry of value 1 |
| Chains.TruncateKeepsWellFormed | deps/ff15/ff.c:1437-1525 | Cutting a chain leaves its prefix as a chain, frees the rest and keeps all others |
| Chains.RemoveKeepsWellFormed | deps/ff15/ff.c:1437-1525 | Removing a chain keeps all others |
| Chains.NoOnesMet | deps/ff15/ff.c:1461-1494 | On any FAT without an entry of value 1, cyclic or cross-linked, the removing walk ends at a zero or an end mark |
| Allocator.FindFree | deps/ff15/ff.c:1594-1607 | The wraparound scan ends; it returns the first free cluster after the start, going round once, and 0 only if there is none |
| Allocator.NeighbourTaken | deps/ff15/ff.c:1583-1593 | A chain is stretched to the cluster behind its last one if that is free; behind the last of the volume comes cluster 2 |
| Allocator.NewChainAt | deps/ff15/ff.c:1542-1607 | A new chain starts at the first free cluster behind the one allocated last, going round once |
| Allocator.CreateChain | deps/ff15/ff.c:1532-1623 | The result case by case (existing link, full, neighbour, scan, bad entry); an allocation marks the new cluster as end, links it, notes it and the new count, and changes no other entry or sector |
| Allocator.RemoveChain | deps/ff15/ff.c:1437-1525 | On any FAT the walk ends; it zeroes the walked entries, marks the predecessor, adds the number of new zeros to the free count up to its limit, and succeeds if no entry has value 1 |
| Allocator.CreateFailsOnlyWhenFull | deps/ff15/ff.c:1532-1623 | In a consistent state allocation never meets an entry of value 1, and reports a full disk exactly if no cluster is free |
| Allocator.CreateStep | deps/ff15/ff.c:1532-1623 | The call for a new object takes a step of the transition system below, from any consistent volume |
| Allocator.StretchStep | deps/ff15/ff.c:1532-1623 | So does the call on any cluster of an object's chain |
| Allocator.CutStep | deps/ff15/ff.c:1437-1525 | So does removing the rest of a chain behind any of its clusters, and it succeeds |
| Allocator.DeleteStep | deps/ff15/ff.c:1437-1525 | So does removing a whole chain, and it succeeds |
| Allocator.StepKeepsConsistent | deps/ff15/ff.c:1437-1623 | Every step keeps: each cluster is free or in exactly one chain, lengths and free clusters add up to all clusters, and the free count is exact or unknown |
| Allocator.RunsStayConsistent | deps/ff15/ff.c:1437-1623 | Every state of any run of such calls is consistent and has a FAT of the same size |
| GetFree.GetFree | deps/ff15/ff.c:4824-4908 | The noted number if there is one, otherwise what the scan counts; the FAT stays; on a device without errors it fails exactly if a FAT12 scan meets an entry of value 1 |
| GetFree.CountedExactly | deps/ff15/ff.c:4882-4899 | The sector-wise scan starts at entry 0, so its count is the number of free clusters exactly if neither reserved entry is zero |
| GetFree.ReservedEntryCounted | deps/ff15/ff.c:4882-4899 | A FAT16 table whose entry 0 is zero: two counted, one free |
| GetFree.ScanStep | deps/ff15/ff.c:4824-4908 | With the reserved entries in place the number is right, and the call is a step of the allocator's transition system |
| FileImage.FileSectorInjective | deps/ff15/ff.c:1152-1160 | Different sectors of a file are different sectors of the disk; where they are is `FileImage.PlainPlace` |
| FileImage.PlainPlace | deps/ff15/ff.c:3955-3967 | Byte i of a file lies at offset i mod ss of sector database + (chain[i/bcs] - 2) csize + (i mod bcs)/ss, in plain arithmetic, and that sector is on the device |
| FileImage.ContentsStored | deps/ff15/ff.c:3955-3967 | The content of a file is the bytes at those places, but for the one sector in a dirty buffer |
| FileImage.FlushSame | deps/ff15/ff.c:4075-4078 | Writing the dirty file buffer back changes no byte of the file and nothing outside it |
| FileIo.Fil.Write | deps/ff15/ff.c:4022-4134 | The content, which `FileImage.ContentsStored` places on the disk, is the old one overwritten at the cursor; the cursor moves by the bytes written; a short write means the 4 GiB limit or a full disk, and where the noted count of free clusters is right it stays right and full means that no entry is zero; all sectors outside the file and all other FAT entries stay |
| FileIo.ClippedExactly | deps/ff15/ff.c:4042-4045 | A write past 4 GiB is cut at the last byte below, and no other write is |
| FileRead.Read | deps/ff15/ff.c:3922-4015 | Exactly the bytes from the cursor on, as far as asked for and the file reaches, from disk, cluster runs or the dirty buffer; each is the byte stored at its place in the chain, in plain arithmetic; the content stays |
| FileSeek.Seek | deps/ff15/ff.c:4441-4596 | The cursor reaches the clipped target, or stops short in write mode on a full disk in the same sense; the size is the larger of old size and cursor; old bytes and the rest of the volume stay |
| FileRuns.PerformAll | deps/ff15/ff.c:3922-4596 | Any list of writes, reads and seeks on an open file is a run of a byte array with a cursor, leaves the rest of the volume alone, and keeps the sum of free clusters and clusters of the file; where the noted count is right and a cluster is free in the end, no call fell short |
| FileRuns.RunKeepsLatest | deps/ff15/ff.c:3922-4596 | After any run each byte has the value of the latest write that covered it, or its first value |
| FileRuns.ReadsSeeLatest | deps/ff15/ff.c:3922-4015 | A read at any point of a run returns those values |
| FileRuns.OtherFileKept | deps/ff15/ff.c:3922-4596 | Whatever calls are made on one file, another file with a disjoint chain keeps its chain, stays disjoint, and keeps its bytes, its own buffered sector included |
| FileRuns.ClustersConserved | deps/ff15/ff.c:1581-1617 | A chain that grows takes exactly as many free clusters as it gains |
| LinkMap.CreateLinkMap | deps/ff15/ff.c:4467-4492 | The table holds the runs of the chain and a terminator if it fits, its first item the size needed; nothing behind the given size is written; internal error exactly if the end mark looks like a next cluster |
| LinkMap.ClmtClust | deps/ff15/ff.c:1635-1654 | Lookup at any offset is that many steps along the FAT, and 0 past the end |
| LinkMap.LookupIsChain | deps/ff15/ff.c:1635-1654 | The runs of any sequence of clusters give back each of its clusters, and 0 behind them |
| LinkMap.WalkIsChain | deps/ff15/ff.c:1169-1237 | k steps along the FAT are the k-th cluster of the chain |
| LinkMap.RunIsMaximal | deps/ff15/ff.c:4475-4481 | A fragment ends where the clusters stop being consecutive |
| LinkMap.EndLooksLinkedExactly | deps/ff15/ff.c:4475-4485 | The builder takes the end mark for a link exactly if the chain ends in the last cluster and the mark equals the number of entries |
| LinkMap.BuilderFails | deps/ff15/ff.c:4475-4485 | A FAT of four entries whose last is marked 4: the builder takes the mark for a link |
| LinkMap.OwnMarkEnds | deps/ff15/ff.c:1608 | The end mark that allocation leaves is never taken for a link |
| Sharing.ShareTable.ChkShare | deps/ff15/ff.c:953-977 | Locked for a written object, and for write or delete of an open one; too many open files exactly if the table is full and the object new |
| Sharing.ShareTable.IncShare | deps/ff15/ff.c:989-1017 | One more live handle, or 0 exactly if the object is open and write access asked for, or the table is full; the table goes on to tell its handles exactly unless a reader is added to a written object or to 255 readers |
| Sharing.ShareTable.Open | deps/ff15/ff.c:953-1017 | `chk_share` followed by `inc_share`: the second never fails when the first has passed, the live handles gain exactly the new one, and the table goes on to tell its handles exactly unless it is the 256th reader |
| Sharing.ShareTable.DecShare | deps/ff15/ff.c:1020-1041 | The entry after the close, for any index; the table goes on to tell its handles exactly if the handle closed was one or the entry was blank |
| Sharing.ReaderAddedExactly | deps/ff15/ff.c:1012-1016 | In a table that tells its handles, one more in the count of an entry tells one more reader exactly if there was no writer and fewer than 255 readers |
| Sharing.ClosedExactly | deps/ff15/ff.c:1028-1036 | A close keeps the table telling its handles exactly if its handle is live or the entry blank |
| Sharing.TooManyReaders | deps/ff15/ff.c:989-1041 | 256 opens for reading and one close on a fresh table: the entry is blank and 255 handles are live |
| Sharing.WriterIsAlone | deps/ff15/ff.c:953-1041 | In every table that matches its handles a written object has one handle |
| Sharing.CountIsReaders | deps/ff15/ff.c:953-1041 | The count of an object open for reading is the number of its handles, all on one entry |
| Wildcard.PatternMatch | deps/ff15/ff.c:2801-2845 | For every pattern, name, skip and recursion limit: true exactly if the pattern has at most that many groups of wildcards and, with each group as the counter takes it, matches the name behind the skip |
| Wildcard.NameMatches | deps/ff15/ff.c:4748 | The whole name against the whole pattern; the wildcard relation itself if no group has 256 question marks and there are at most four groups |
| Wildcard.DecidesExactly | deps/ff15/ff.c:2801-2845 | The code decides the wildcard relation on all names exactly for patterns of at most four groups of fewer than 256 question marks |
| Wildcard.StarAndMark | deps/ff15/ff.c:2801-2845 | The pattern of a star takes every name, that of a question mark exactly the names of one character |
| Wildcard.CarryIntoRun | deps/ff15/ff.c:2825-2833 | 256 question marks carry into the bit for * and match the empty name |
| Wildcard.GroupMeaning | deps/ff15/ff.c:2825-2833 | A group of wildcards in any order is as many characters as it has question marks, or more with a * |
| Wildcard.NoLaterMatch | deps/ff15/ff.c:2834-2842 | If the name ran out in the literal part, no later start matches, so the early stop loses none |
| LongNames.PutLfn | deps/ff15/ff.c:1967-1992 | One entry holds the 13 units of its order, the terminator and filler behind the name, checksum, and the mark on the last; other bytes stay |
| LongNames.EntryBytes | deps/ff15/ff.c:1967-1992 | All 32 bytes of an entry of a name without 0xFFFF: order and mark, attribute, checksum, and the thirteen units, terminator and filler at their offsets, low byte first |
| LongNames.PickLfn | deps/ff15/ff.c:1929-1960 | The units stored back and the result, for any entry and any order byte, with the wrap of order 0 |
| LongNames.DirRead | deps/ff15/ff.c:2314-2385 | The order and checksum state machine as a scan of entries, up to the first short entry or the end |
| LongNames.FirstFile | deps/ff15/ff.c:2314-2385 | From any start and state the scan returns the first entry that is in use and neither deleted, a dot entry, a volume label nor part of a long name, and ends only where the directory does |
| LongNames.Register | deps/ff15/ff.c:2532-2568 | The long entries in descending order and the short entry with its checksum, which `LongNames.SumOfByte` describes; other bytes stay |
| LongNames.RoundTrip | deps/ff15/ff.c:2314-2385 | From any state of the reader the entries of a name lead to its short entry; the long name is valid and equal to the name written exactly if the name survives |
| LongNames.RegisterAndRead | deps/ff15/ff.c:2314-2568 | The same for the two methods, one after the other |
| LongNames.SurvivesExactly | deps/ff15/ff.c:1929-1992 | What the units give back equals the name exactly if 0xFFFF occurs only as a suffix within the last entry of a name that fills its entries |
| LongNames.PlainNamesSurvive | deps/ff15/ff.c:1929-1992 | Every name without 0 and 0xFFFF survives, multiples of 13 included |
| LongNames.FillerInName | deps/ff15/ff.c:1929-1992 | A name with 0xFFFF in the middle does not |
| LongNames.ChecksumTellsByte | deps/ff15/ff.c:2061-2072 | Short names that differ in exactly one byte have different checksums |
| LongNames.SumOfByte | deps/ff15/ff.c:2061-2072 | The sum of eleven zero bytes is 0; a byte alone at place j comes out rotated right by 10 - j bits |
| LongNames.SumOfReadme | deps/ff15/ff.c:2061-2072 | The sum of the short name README.TXT is 0x73 |
| Geometry.Settle | deps/ff15/ff.c:6197-6270 | The retry loop ends after at most three turns, with the outcome of the last one; a configuration it settles on fits the volume, matches its type, is aligned, and its FAT holds all entries |
| Geometry.TurnSettles | deps/ff15/ff.c:6199-6269 | Each turn that ends well, underflow of the 32-bit cluster count included |
| Geometry.DoneExactly | deps/ff15/ff.c:6199-6269 | A turn succeeds exactly if its cluster size suits its type: room for sixteen clusters, aligned area within the volume, number of clusters in the range of the type |
| Geometry.ClustersExactly | deps/ff15/ff.c:6230-6243 | Where it succeeds a cluster is left exactly if the volume holds the unaligned area, the gap to the next block and one cluster |
| Geometry.SmallBlocks | deps/ff15/ff.c:6230-6243 | Alignment to at most sixteen sectors always leaves one |
| Geometry.PlainSucceeds | deps/ff15/ff.c:6197-6270 | With automatic cluster size, both types allowed, alignment up to sixteen sectors and a root directory of up to 32, every volume of at least 128 sectors is formatted |
| Geometry.DefaultsSucceed | deps/ff15/ff.c:5942-6270 | With both FAT types allowed, automatic cluster size, the root directory left open and alignment up to sixteen sectors, the options lead to a formatted volume with at least one cluster |
| Geometry.FormatSmall | deps/ff15/ff.c:6197-6269 | Up to 4085 sectors without alignment: FAT12 with clusters of one sector, and the sizes of FAT, root directory and data area in plain arithmetic, or the refusal |
| Geometry.LargePlans | deps/ff15/ff.c:6217-6229 | The reserved area, FAT and root directory planned for more than 4085 clusters, in plain arithmetic |
| Geometry.AutoSize | deps/ff15/ff.c:6202-6215 | The table lookup by size of the volume in sectors |
| Geometry.RetryProgress | deps/ff15/ff.c:6244-6265 | Each retry fixes the cluster size or goes over to FAT32, so it cannot come back |
| Geometry.Mount | deps/ff15/ff.c:3519-3569 | For every record: the layout or the refusal in plain arithmetic on its fields, accepted exactly if they are consistent, the FAT is large enough and the root directory suits the type; FAT12 up to 4085 clusters, FAT16 from 4086 to 65525, FAT32 above; sums of 32 bits |
| Geometry.MountPlain | deps/ff15/ff.c:3519-3569 | The steps on the fields give that result |
| Geometry.Floppy | deps/ff15/ff.c:3519-3569 | A floppy disk of 1.44 MB is FAT12 with 2847 clusters |
| Geometry.TypeChanges | deps/ff15/ff.c:3543-3569 | Records on both sides of both limits: 4085 and 4086, 65525 and 65526 clusters |
| Geometry.MountedIsValid | deps/ff15/ff.c:3519-3569 | An accepted record on a device that holds the volume gives a valid layout exactly if the sum for the system area does not wrap around |
| Geometry.WrapAccepted | deps/ff15/ff.c:3528-3569 | Two FATs of 2^31+1 sectors: accepted, although the sum wraps |
| Geometry.MkfsThenMount | deps/ff15/ff.c:6276-6310 | Mounting accepts what formatting settled on, with the same type, FAT base, data base and clusters, exactly if it has a cluster; no field of the record is cut off |
| Geometry.NothingLeft | deps/ff15/ff.c:6197-6243 | 1024 sectors aligned to 1024 with automatic cluster size: formatting succeeds without a cluster, and mounting refuses the volume |
| Geometry.FormatAndMount | deps/ff15/ff.c:5942-6310 | Formatting succeeds exactly if the cluster size of the last turn suits it, and the volume is then mounted exactly if a cluster is left there, both told by the parameters; the mounted layout is valid for `Volume` |
| Geometry.FromOptions | deps/ff15/ff.c:5930-6034 | Any options lead to valid parameters, cluster size and type to start with, unless the volume has fewer than 128 sectors or no type is allowed; FATs, root entries and alignment are those asked for where they are valid, else 1, 512 and 1 |
| Geometry.ClusterOption | deps/ff15/ff.c:5946-6024 | The cluster size asked for, in sectors, where it is a power of two between a sector and 128 |
| Untypeds.UTTable.Alloc | crates/root_server/src/ut.rs:169-293 | A free block of the size is handed out as it is, the first of its list, and takes nothing from the kernel; otherwise success is that of the run of splits from the next larger block, as kernel answers, lists, structures and pages determine it (`Untypeds.AllocExactly`), and the block has a capability in a slot newly taken; blocks already out stay; free bytes, bytes given and pages kept add up on every path; free lists stay linked and blocks disjoint |
| Untypeds.AllocExactly | crates/root_server/src/ut.rs:169-293 | With a kernel that answers Success to every call, allocation succeeds exactly if a list of the size or above has a block, and there are two structures for each split or a page for more |
| Untypeds.RunNeeds | crates/root_server/src/ut.rs:194-286 | Whatever the kernel answers, a success needs such a block and structures or a page, and leaves so many of both |
| Untypeds.UTTable.Split | crates/root_server/src/ut.rs:194-286 | Two halves of the larger block at the front of their list, the first with a new capability; on a failure the larger block back at the front of its list, and all structures and slots unless the kernel refused to delete; success is exactly that of the refill and the four calls |
| Untypeds.UTTable.EnsureNewStructures | crates/root_server/src/ut.rs:118-150 | At least two node structures afterwards; pages are taken exactly if fewer than two were left and a page is free, and at most one and three for page tables, which a failure does not return; outcome, lists and pages as the answers of the kernel determine them |
| Untypeds.UTTable.MapFrame | crates/root_server/src/mapping.rs:24-72 | Outcome, pages and slots kept for page tables, as the answers of the kernel and the free pages determine them; nothing else changes |
| Untypeds.MapBounds | crates/root_server/src/mapping.rs:24-72 | At most three pages, as many slots or one less after a failure, and a page is kept exactly if the first mapping lacks a table and a page is free |
| Untypeds.ThreeTables | crates/root_server/src/mapping.rs:24-72 | A mapping that asks for three page tables and gets them succeeds; when it asks for a fourth it fails |
| Untypeds.UTTable.Free | crates/root_server/src/ut.rs:162-167 | The block is at the front of the list of its size; no other changes |
| Untypeds.UTTable.Alloc4k | crates/root_server/src/ut.rs:86-95 | The first free page, out from now on, exactly if there is one; otherwise nothing changed |
| Untypeds.UTTable.AddUntypedRange | crates/root_server/src/ut.rs:320-345 | The pages of the range are free, each once and the last first, at their addresses and with their capabilities; all other nodes and lists stay and memory stays disjoint |
| Untypeds.HalvedValid | crates/root_server/src/ut.rs:251-286 | Replacing a block by its halves keeps lists linked and memory disjoint |
| Untypeds.PushValid | crates/root_server/src/ut.rs:53-67 | Pushing a node that is in no list keeps all lists linked and disjoint |
| Untypeds.PopValid | crates/root_server/src/ut.rs:69-79 | So does popping the first |
| Untypeds.PushBytes | crates/root_server/src/ut.rs:53-67 | The free bytes grow by the size of the node pushed |
| FrameTable.Table.PopFront | crates/root_server/src/frame_table.rs:129-163 | The first frame of the list is loose, the list is the rest, both lists stay doubly linked with their lengths and ends, and no frame changes its capability |
| FrameTable.Table.PushFront | crates/root_server/src/frame_table.rs:165-197 | A loose frame becomes the first; no capability changes |
| FrameTable.Table.PushBack | crates/root_server/src/frame_table.rs:199-230 | A loose frame becomes the last; no capability changes |
| FrameTable.Table.Remove | crates/root_server/src/frame_table.rs:329-366 | Any frame taken out of its list, wherever it is; no capability changes |
| FrameTable.UnlinkedList | crates/root_server/src/frame_table.rs:329-366 | Unlinking the k-th frame leaves a doubly linked list of the others and no change in other lists |
| FrameTable.Table.AllocFrame | crates/root_server/src/frame_table.rs:255-270 | A frame that was not allocated, the first free one if there is one, else a new one; with no free frame it succeeds exactly if the allocations that a new one needs do (`FrameTable.FreshNeeds`); a new frame holds the capability of its page, in a slot newly taken, all other frames keep theirs, and the capabilities of the frames in use stay distinct and in slots taken; a failure restores both lists and the number of frames in use; memory and slots used add up |
| FrameTable.FreshNeeds | crates/root_server/src/frame_table.rs:442-473 | A fresh frame takes a page, and one more if the entries are used up; a kernel that answers Success asks for nothing else |
| FrameTable.Table.FreeFrame | crates/root_server/src/frame_table.rs:368-373 | The frame moves from the allocated list to the front of the free list, with its capability; the lists still partition the frames in use |
| FrameTable.Table.AllocFreshFrame | crates/root_server/src/frame_table.rs:442-473 | A new entry within the capacity with the capability of its page, or the number in use as before; which of the two is determined by the answers of the kernel and the free pages |
| FrameTable.AllocFrameAt | crates/root_server/src/frame_table.rs:375-424 | One page of untyped memory and one slot for a frame, or both given back, besides what the mapping keeps for page tables: the outcome as the answers of the kernel and the free pages determine it |
| FrameTable.FailureRestores | crates/root_server/src/frame_table.rs:382-421 | A failure leaves memory and slots as they were exactly if the mapping was not reached, did not lack a table, or found no page for one |
| FrameTable.LostTable | crates/root_server/src/frame_table.rs:403-421 | A mapping that lacks a table whose retype fails: one page and one slot are gone |
| FrameTable.Table.BumpCapacity | crates/root_server/src/frame_table.rs:426-440 | A page of further entries behind the old ones, with the same account of pages and slots |
| Bitfield.BfFirstFree | crates/bitfield/src/lib.rs:29-49 | The least clear bit, or none exactly if all are set |
| Bitfield.OnlyThatBit | crates/bitfield/src/lib.rs:12-18 | Setting or clearing a bit changes no other |
| Slots.CSpace.AllocSlot | crates/root_server/src/cspace.rs:97-138 | The least free slot, marked and no other; none only if all present slots are given or a lower-level node is missing; the summary bit of a CNode is set exactly if it is full |
| Slots.CSpace.FreeSlot | crates/root_server/src/cspace.rs:150-183 | For every slot number, against the bound of the source, with a summary bit: the bits after the call, and the summaries stay right exactly unless the last slot of a CNode is freed whose others are all given out |
| Slots.FreeThenAlloc | crates/root_server/src/cspace.rs:97-183 | After a free the next allocation succeeds, at the freed slot or before it |
| Slots.FirstIsLeast | crates/root_server/src/cspace.rs:97-138 | The first clear bit under the first clear summary bit is the least free slot of all |
| Slots.GiveKeepsWellFormed | crates/root_server/src/cspace.rs:119-134 | Taking a bit and setting the summary when only the last is left keeps the summary right |
| Slots.PlacesDiffer | crates/root_server/src/cspace.rs:370-376 | Node and CNode index together name the CNode of a slot; slot c is 256 (97 node + cnode) + bit |
| FrameMap.MemoryObject.Lookup | crates/root_server/src/object.rs:88-108 | The frame of the page of the offset, for every offset |
| FrameMap.MemoryObject.Insert | crates/root_server/src/object.rs:110-157 | The page maps to the frame, no other page changes, tables are added as needed; an occupied page is refused |
| FrameMap.IndexOfOffset | crates/root_server/src/object.rs:88-108 | The four shifted indices are the digits of the page number; offset bits above 48 play no part |
| FrameMap.WithLeafElsewhere | crates/root_server/src/object.rs:110-157 | Storing a frame is not seen at any other page |
| FrameMap.VisitsIncrease | crates/root_server/src/object.rs:159-185 | Cleanup meets pages in increasing order, none twice |
| FrameMap.VisitsAreMapped | crates/root_server/src/object.rs:159-185 | It meets exactly the pages that have a frame, with their frames |
| FrameMap.CleanupTable | crates/root_server/src/object.rs:159-185 | The frames below a table move to the front of the free list, last visited first, and out of the allocated list |
| FrameMap.CleanupObject | crates/root_server/src/object.rs:187-195 | If every page has an allocated frame of its own, each of them is free afterwards and the two lists exchange as many frames |
| Arith.QuotRemAreDivMod | fs/fat/io.c:108-110 | The quotient and remainder of the model are integer division and modulus |

## Left out

- exFAT volumes, the partition table, FSINFO, boot-record search in `mount_volume` and the writing of the empty FATs in `f_mkfs`.
- Directories, paths, `f_open`, `f_sync`, `f_truncate`, `f_unlink`, `f_rename`, `f_expand`: they combine the operations modelled here.
- BlockIo.Disk.Write: a write request that fails is taken to leave the device as it was; a request that was partly served is not modelled.
- BlockIo.SddfCountIsTransferCount: for lengths below 2^30 and sums below 2^32, the range of the 32-bit variables.
- Powers of two by shift and mask are modelled by division and remainder.
- FileIo.Fil.Write: for a reliable device and a FAT without an entry of value 1, so the paths that abort the file object are not reached and are omitted; the same for `FileRead.Read` and `FileSeek.Seek`. The window may not show a sector of the file itself.
- FileSeek.Seek: bytes that a seek adds to a file have no specified value, as in the source.
- The change of the directory entry and of the time stamp after a write is only the `modified` flag.
- Fast seek, the search functions and formatting are compiled out by `fs/fat/config/ffconf.h`; they are modelled as if switched on. `clmt_clust` is not wired into reads and writes.
- Wildcard.PatternMatch: strings are sequences of non-zero characters; decoding of multi-unit characters and the upper-case table are a parameter. A counter wrap after 2^32 question marks is not modelled.
- LongNames: the directory is one array of bytes, so crossing sectors and clusters and stretching a directory are not modelled; neither is the search for a free block of entries or the generation of numbered short names.
- Sharing.ShareTable.IncShare: for a table that tells its handles; what later calls do to a spoilt table is not followed, except for the one close of `Sharing.TooManyReaders`.
- Geometry.FromOptions: the volume size and base are parameters, below 2^32 in sum; options that allow exFAT, as the source's defaults do, are not modelled, and an alignment of 0, for which the source asks the device for its block size, is taken as 1.
- Geometry.DefaultsSucceed: for options without exFAT, and for an alignment of 0 on a device whose block size is 1.
- Allocator.CreateChain: for a reliable device, so the results for a disk error are left out; the same for `Allocator.FindFree`, `Allocator.RemoveChain` and `LinkMap.CreateLinkMap`.
- Calls of the seL4 kernel are oracles that may fail at any time; a capability is a number.
- Untypeds.UTTable.Alloc: the errors other than an invalid size are one result, `NotEnoughMemory`, where the source passes on the error of the call that failed.
- Untypeds.UTTable.AddUntypedRange: nodes and structures are appended to one sequence rather than placed in mapped memory; device ranges and `alloc_4k_device` are left out.
- Untypeds.UTTable.MapFrame: without reserved slots, as all modelled callers use it; slot 0 is never handed out, so the test for it is left out. Virtual addresses are not modelled.
- FrameTable: device and DMA frames are not modelled.
- Slots.CSpace.AllocSlot: the two-level path; `ensure_levels` is unimplemented in the source, so a missing lower level is an error, and the watermark is left out. The one-level path is left out. The constructor gives CNodes without any slot given out.
- Slots.CSpace.FreeSlot: the warnings are left out; a number in bounds without a summary bit, which stops the source, is excluded.
- Bitfield: a 64-bit word is a sequence of 64 booleans.
- FrameMap.MemoryObject.Insert: tables are numbered and referred to by number instead of nested in one another; the revocation of capabilities during cleanup is left out.
- Views, windows, scheduling, interrupts, the clock and UART drivers, and the system-call layer.
