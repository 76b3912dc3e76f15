# NedoOS kernel: verification project

This project models the stateful cores of the NedoOS i386 kernel in Dafny 4.11 and proves what they are
meant to guarantee. `dafny verify dfyconfig.toml` checks everything.

Each core has two parts. A value-level specification describes one operation as a function on values, and
lemmas prove properties of these functions over all inputs and all runs. A class holds the core's C state
in arrays and fields, with methods that follow the C code loop by loop and store by store; each method's
postcondition equates the new state with the value-level operation applied to the old one.

| files | core |
|---|---|
| `Basics.dfy` | byte, 16-bit and 32-bit integers, options |
| `PageAllocator.dfy` | bitmap page allocator with a next-fit pointer |
| `Paging.dfy` | two-level page tables in flat physical memory, sharing the allocator with clients |
| `UserPages.dfy` | stores of unprivileged code through those tables, and when they can change them |
| `EnabledPaging.dfy` | the mapping code itself once its own accesses pass through those tables |
| `FatTable.dfy`, `FatChains.dfy` | packed FAT12 entries, cluster allocation, cluster chains |
| `FatVolume.dfy` | mount geometry, FAT helpers on a sector buffer, the editor's save |
| `FatReader.dfy`, `FatLengths.dfy` | the file reader, what it returns for every 32-bit length, and when it ends |
| `FatFiles.dfy` | saves and reads together, over runs of saves |
| `InternetChecksum.dfy`, `Wire.dfy` | the RFC 1071 checksum, byte order and packet layouts |
| `Network.dfy`, `NetworkStack.dfy` | ARP, IPv4 and ICMP of one host, and exchanges between two |
| `Scheduler.dfy` | round-robin slot table |
| `Screen.dfy`, `Terminals.dfy` | scrolling text screen, four virtual terminals |
| `Printf.dfy` | the format interpreter |

Where the code does not meet a property on all inputs, the code is modelled as it is and the exact
condition is proved:

- `vmm_map_page` and `vmm_init` do not look at a failed allocation and then use frame 0 as a table. One
  such table is harmless, a second one is not (`MapPageIsSoundIff`, `InitTablesIsSoundIff`).
- The directory user bit is set only by the first mapping of a region, so later requests for user access
  may have no effect (`UserRequestIsHonouredIff`); in the first 4 MB they never have one
  (`UserRequestFailsAfterInit`).
- A page may be freed while user code can still write to it, and may then become a page table
  (`StaysConfinedIff`, `FreedMappedPageFromBoot`).
- With paging on, `vmm_map_page` goes on using frame numbers as addresses. Its accesses reach directory
  and table exactly if these are mapped onto themselves (`PagedMapPageIff`, `PagedMapFaults`).
- `pmm_alloc_page` returns page 0 and "out of memory" alike (`NullMeansOutOfMemoryIff`,
  `FreeingNullConfusesCallers`).
- `linker.ld` loads the kernel at 1 MB, where the page pool of `pmm_init` begins (`PoolSparesImageIff`), so
  that `vmm_init` clears the first page of the image (`InitTablesClearsImage`).
- FAT entries 341 and 682 modulo 1024 straddle two sectors, but only one is loaded and written back
  (`StraddlesIff`, `GetNextIsEntryIff`, `BlankEntryDecodedWrongly`, `StoreNextSetsEntryIff`,
  `BlankEntryStoredWrongly`). The allocation scan meets entry 341 as soon as no earlier cluster is free
  (`ScanStaysInBufferIff`, `FullTableRunsPastBuffer`). It allocates as intended exactly on the tables called
  safe (`AllocIsAsIntendedIff`); on others it may hand out cluster 341 while that is in use
  (`TakenClusterIsFreeIff`, `UsedClusterIsHandedOut`), break its chain (`AllocKeepsEveryChainIff`,
  `UsedChainIsBroken`) and go back to it later (`AllocationsIncreaseIff`, `AllocationGoesBack`).
- A save may mark an entry behind a first FAT of one sector (`SaveStaysInFirstFatIff`,
  `OneSectorFatSpills`).
- `fat_read` compares an unsigned with a signed character, so a file whose name starts at 0x80 or above is
  never found (`OwnNameMatchesIff`, `HighNameIsNotFound`).
- `fat_read` counts an unsigned length down in whole sectors. For other lengths it ignores the length
  (`LengthIsHonouredIff`) and on a cyclic chain never returns (`WalkEndsIff`, `SelfLinkNeverEnds`).
- `fat_read` goes by an uninitialised cluster number when the file is absent, so its result depends on the
  drive alone exactly when the file is present, the scan fails or nothing is mounted
  (`ResultIsDeterminedIff`, `AbsentFileReadsAnother`), and its "not found" is to be relied on exactly for a
  file that is present and has no clusters (`NotFoundIsReliableIff`, `EmptyFileIsReportedMissing`).
- `arp_handler` swaps the bytes of the address it pings (`DeferredPingReachesReplierIff`,
  `DeferredPingMissesGateway`).
- `putchar` sign-extends a character into the high byte of its cell, so that characters from 0x80 up lose
  their colour (`CellIsCharacterAndColor`, `HighCharacterLosesColor`).
- The first `scheduler_switch` writes `tasks[-1]` as soon as a task is ready (`FirstSwitchFaultsIff`).

Bytes that happen to lie behind a 512-byte buffer, and locals that are read uninitialised, are parameters
named `stray` and `stale`. `AllocCluster` and `Save` are what the code is meant to do; `AllocAsCoded` and
`SaveAsCoded` are what it does, for every table and every stray byte. The theorems about chains, files and
saves are about the latter.

Functions that both a specification and the code's methods use are pinned by laws in plain numbers and raw
bytes: what is stored, and in which order, is decoded to what was meant (`MountedGeometry`, `EntryDecodes`,
`WalkInWords`, `MapPageStoresEntries`, `ArpRequestBytes`, `CellIsCharacterAndColor`, `PiecesArePrinted`).

The comment in `pmm_alloc_page` says first fit; the code is next fit, and next fit is what is modelled.

Several proofs use `hide` statements, which keep named function bodies out of one proof so that only
their contracts are used there.

## Model

| member | source | states |
|---|---|---|
| PageAllocator.SetBitTakesPage | kernel/mm/pmm.c:16-18 | setting a bit removes exactly that page from the free set; the other seven pages of the byte keep their state |
| PageAllocator.ClearBitReturnsPage | kernel/mm/pmm.c:20-22 | clearing a bit adds exactly that page to the free set |
| PageAllocator.FirstFree | kernel/mm/pmm.c:50-56 | an upward scan stops at the first free page of its range, or at the end when there is none |
| PageAllocator.NextFitIsNearest | kernel/mm/pmm.c:48-69 | allocation finds nothing if and only if no page is free, and otherwise takes the free page cyclically nearest to the next-fit pointer |
| PageAllocator.NullMeansOutOfMemoryIff | kernel/mm/pmm.c:48-69 | pages are free and yet null is returned if and only if page 0 is free and the search starts there or at a point above every free page; with none free nothing changes and null is returned |
| PageAllocator.FreeingNullConfusesCallers | kernel/mm/pmm.c:71-76 | after page 0 has been freed, a successful allocation is indistinguishable from out of memory |
| PageAllocator.AllocationsAreCyclic | kernel/mm/pmm.c:48-76 | of two successive allocations, with any releases and failed allocations in between, the second hands out the free page that comes first in cyclic order after the page of the first, in terms of the addresses returned |
| PageAllocator.AllocationAfterWrapAround | kernel/mm/pmm.c:58-65 | after page 300 has been handed out by wrapping around, 310 is preferred to 258 |
| PageAllocator.AllocateThenRelease | kernel/mm/pmm.c:48-76 | freeing any address inside the page handed out restores the free set |
| PageAllocator.TakeIsFresh | kernel/mm/pmm.c:48-69 | an allocation returns a nonzero page of the pool that no client holds, or null exactly when clients hold the whole pool |
| PageAllocator.RunConservesPages | kernel/mm/pmm.c:48-76 | over every run of allocations and honest frees, free and held pages stay disjoint and together make up the initial pool, and the next allocation is fresh |
| PageAllocator.RunFromInit | kernel/mm/pmm.c:28-76 | the same from pmm_init, for every memory size and run: the pool is balanced and the next allocation is a page of it that no client holds, or null when they hold all |
| PageAllocator.InitiallyFreeIff | kernel/mm/pmm.c:28-46 | a page is free after pmm_init if and only if it starts at 1 MB or above and lies wholly in memory |
| PageAllocator.PoolSparesImageIff | kernel/mm/pmm.c:28-46 | the pages pmm_init frees and those of a kernel image loaded at 1 MB are disjoint if and only if the image is empty or memory ends below the first page above 1 MB |
| PageAllocator.FirstAllocationIsImage | kernel/mm/pmm.c:28-69 | otherwise the first allocation is the first page of the image |
| PageAllocator.BitmapAllocator.SetBit | kernel/mm/pmm.c:16-18 | in place, the free set loses exactly the page |
| PageAllocator.BitmapAllocator.ClearBit | kernel/mm/pmm.c:20-22 | in place, the free set gains exactly the page |
| PageAllocator.BitmapAllocator.TestBit | kernel/mm/pmm.c:24-26 | true exactly for pages that are not free |
| PageAllocator.BitmapAllocator.Init | kernel/mm/pmm.c:28-46 | afterwards exactly the existing pages from 1 MB up are free, and the next-fit pointer is untouched |
| PageAllocator.BitmapAllocator.AllocPage | kernel/mm/pmm.c:48-69 | the two scanning loops compute the abstract next-fit allocation and its returned address |
| PageAllocator.BitmapAllocator.FreePage | kernel/mm/pmm.c:71-76 | the page of the address joins the free set if it is in range, otherwise nothing changes |
| Paging.Pack | kernel/mm/vmm.c:13-39 | present, rw, user and page-size sit in bits 0, 1, 2 and 7 of the word and can be read back whatever the other bits are |
| Paging.WithFrame | kernel/mm/vmm.c:100 | a frame store leaves every other field of the entry alone |
| Paging.WithPresent | kernel/mm/vmm.c:101 | a present store leaves every other field alone |
| Paging.WithWritable | kernel/mm/vmm.c:102 | an rw store leaves every other field alone |
| Paging.WithUser | kernel/mm/vmm.c:103 | a user store leaves every other field alone |
| Paging.WithoutLargePage | kernel/mm/vmm.c:70 | a page_size store leaves every other field alone |
| Paging.EnsureTableKeeps | kernel/mm/vmm.c:95-104 | creating a table for a region, all 1024 entries of it, changes no translation and keeps the joint invariant with the allocator |
| Paging.StoreEntryRebinds | kernel/mm/vmm.c:107-113 | writing one entry of a present table rebinds that virtual page only and moves no table |
| Paging.MapPageRebindsOnePage | kernel/mm/vmm.c:90-119 | walking directory and tables after a call is the map before it with exactly the one virtual page rebound to the requested frame, rw and user; the joint invariant holds again |
| Paging.WalkInWords | kernel/mm/vmm.c:13-39 | the processor's walk in words of memory and numbered bits of them |
| Paging.MapPageStoresEntries | kernel/mm/vmm.c:90-119 | after a call both entries of the page are present and the second holds frame, rw and user as asked; the first is kept if it was present and is otherwise writable and open to user code as asked |
| Paging.MapPageKeepsOtherBits | kernel/mm/vmm.c:95-113 | the other nine flag bits of the page's entry stay as they were, and are clear in a new table |
| Paging.MapPageIsSoundIff | kernel/mm/vmm.c:95-107 | a call keeps the joint invariant if and only if the table exists, a page is free, or frame 0 does not serve as a table yet |
| Paging.MappingWithoutRoomUnmaps | kernel/mm/vmm.c:97-98 | a concrete machine on which a call without room unmaps an unrelated virtual page |
| Paging.WriteRequestIsHonoured | kernel/mm/vmm.c:102-112 | write access checked at both levels is always what the call requested |
| Paging.UserRequestIsHonouredIff | kernel/mm/vmm.c:103-113 | user access checked at both levels is what the call requested if and only if it was not requested, the region is new, or its directory entry already has the user bit |
| Paging.UserRequestFailsAfterInit | kernel/mm/vmm.c:66-113 | after vmm_init no call makes a page of the first 4 MB accessible to user code |
| Paging.IdentityTable | kernel/mm/vmm.c:59-64 | the first n entries become present, writable, supervisor identity mappings and no other word of memory changes |
| Paging.InitTablesIsIdentity | kernel/mm/vmm.c:46-73 | with a page free, vmm_init maps exactly the first 4 MB onto itself, through its only table, and establishes the joint invariant |
| Paging.InitTablesWords | kernel/mm/vmm.c:46-73 | every word of directory and table after vmm_init: word i of the table is i * 4096 + 3, the directory's words but the first are 0 |
| Paging.InitTablesIsSoundIff | kernel/mm/vmm.c:50-56 | vmm_init establishes the invariant if and only if at least one page is free |
| Paging.InitTablesClearsImage | kernel/mm/vmm.c:46-73 | with memory above 1 MB the directory lands on the first page of the kernel image, all words of which but the first become 0 |
| Paging.ClientStepKeepsTables | kernel/mm/pmm.c:48-76 | allocating, freeing and writing client-held pages moves no table and changes no translation |
| Paging.RunRefinesMap | kernel/mm/vmm.c:90-119 | over every interleaving of mappings, allocations, frees and client writes, tables sit on distinct used frames no client holds, and the walked translation is the plain map of the calls made |
| Paging.RunFromBoot | kernel/mm/vmm.c:46-119 | the same from vmm_init, starting at the identity on the first 4 MB |
| UserPages.StoresAreHarmlessIff | kernel/mm/vmm.c:90-119 | the frames in which no store can change a translation are exactly those that hold neither the directory nor a present table |
| UserPages.UserStoresAreHarmlessIff | kernel/mm/vmm.c:90-119 | user code can change no translation if and only if none of its writable mappings leads to such a frame |
| UserPages.MapGrantsOnePage | kernel/mm/vmm.c:90-119 | a call makes its own page user-writable exactly if both bits are requested and the region is new or open to user code, and changes this for no other page |
| UserPages.StaysConfinedIff | kernel/mm/vmm.c:90-119 | user code stays confined to held pages after a kernel call if and only if the call grants it held pages only and frees no page it can still write to |
| UserPages.UserRunRefinesMap | kernel/mm/vmm.c:90-119 | over every run of such calls and arbitrary user stores the tables stay sound and the walked translation is the plain map of the mapping calls alone |
| UserPages.UserRunFromBoot | kernel/mm/vmm.c:46-119 | the same from vmm_init, after which user code can write nowhere |
| UserPages.FreedMappedPageBecomesTable | kernel/mm/pmm.c:71-76 | a page freed while user-writable becomes the next table if it is the next fit, and some user store then changes a translation |
| UserPages.FreedMappedPageFromBoot | kernel/mm/pmm.c:71-76 | a run of four allowed calls from vmm_init on which this happens to page 258 |
| EnabledPaging.PagedZeroIff | kernel/mm/vmm.c:98 | clearing a page through the translation goes through if and only if its frame is mapped onto itself beforehand, and then clears that frame |
| EnabledPaging.PagedEnsureTableIff | kernel/mm/vmm.c:95-104 | the first half of vmm_map_page with paging on is the one on frames if and only if the directory, and a new table with it, are mapped onto themselves |
| EnabledPaging.PagedMapPageIff | kernel/mm/vmm.c:75-119 | the whole call with paging on is the one on frames if and only if directory and table are mapped onto themselves, writably where the write-protect bit is set and they are written to; otherwise some access faults or goes astray |
| EnabledPaging.FirstPagedMapIff | kernel/mm/vmm.c:46-119 | after vmm_init the first mapping above 4 MB goes through if and only if the frames of directory and new table lie below 4 MB |
| EnabledPaging.PagedMapFaults | kernel/mm/vmm.c:75-119 | a concrete allocator after which it does not |
| EnabledPaging.LowRunLands | kernel/mm/vmm.c:75-119 | with everything below 4 MB, over every run of client steps and of mappings above 4 MB each access of each call reaches its frame |
| EnabledPaging.LowRunFromBoot | kernel/mm/vmm.c:46-119 | the same from vmm_init on a machine without memory above 4 MB |
| Paging.AddressSpace.ZeroPage | libc/string/memset.c:3-8 | clears one frame and no other word |
| Paging.AddressSpace.FillEntry | kernel/mm/vmm.c:110-113 | the four bit-field stores, in place, change one word of memory |
| Paging.AddressSpace.NewTable | kernel/mm/vmm.c:97-98 | a page is taken from the allocator and cleared |
| Paging.AddressSpace.FillIdentity | kernel/mm/vmm.c:59-64 | the loop writes the identity table |
| Paging.AddressSpace.Init | kernel/mm/vmm.c:46-73 | the code computes the abstract vmm_init, for every state of memory and allocator |
| Paging.AddressSpace.EnsureRegion | kernel/mm/vmm.c:95-104 | the code computes the abstract table creation, exhausted allocator included |
| Paging.AddressSpace.Map | kernel/mm/vmm.c:90-119 | the code computes the abstract vmm_map_page and returns the virtual address |
| FatTable.EntryIsThreeNibbles | kernel/kernel.c:819-832 | entry c of the packed table is nibbles 3c, 3c + 1 and 3c + 2, so distinct entries share none |
| FatTable.StraddlesIff | kernel/kernel.c:820-822 | the two bytes of an entry lie in different 512-byte sectors exactly for clusters congruent to 341 or 682 modulo 1024 |
| FatTable.GetNextIsEntry | kernel/kernel.c:819-832 | for an entry inside one sector the 16-bit load with shift or mask yields the packed-table entry |
| FatTable.GetNextStraddlingIff | kernel/kernel.c:819-832 | for a straddling entry it does so if and only if the byte behind the buffer carries the right bits |
| FatTable.GetNextIsEntryIff | kernel/kernel.c:819-832 | it does so whatever lies behind the buffer if and only if the entry does not straddle |
| FatTable.BlankEntryDecodedWrongly | kernel/kernel.c:824-831 | a concrete blank table on which cluster 341 seems to link to cluster 16 |
| FatTable.SetNextChangesThreeNibbles | kernel/kernel.c:834-849 | the read-modify-write replaces the entry's own three nibbles and no other nibble of the table |
| FatTable.SetNextUpdatesOneEntry | kernel/kernel.c:834-849 | for every 12-bit value the write is a map update: entry c becomes the value, every other entry, straddling ones included, is unchanged |
| FatTable.SetThenGet | kernel/kernel.c:819-849 | what is written is read back |
| FatTable.SetNextTouchesOneSector | kernel/kernel.c:834-849 | every other sector of the disk is unchanged |
| FatTable.StraddlingStoreNibbles | kernel/kernel.c:834-849 | a store to a straddling entry replaces those of its nibbles that lie in the first of the two sectors and no others |
| FatTable.StraddlingStoreKeepsOthers | kernel/kernel.c:834-849 | so even such a store changes no other entry |
| FatTable.StoreNextSetsEntryIff | kernel/kernel.c:834-849 | a store sets the entry if and only if it does not straddle or its second byte is right already |
| FatTable.BlankEntryStoredWrongly | kernel/kernel.c:834-849 | a concrete blank table on which the end-of-chain mark for cluster 341 becomes a link to cluster 8 |
| FatTable.ScanStaysInBufferIff | kernel/kernel.c:851-859 | the allocation scan never meets a straddling entry if and only if a cluster below 341 is free |
| FatTable.FullTableRunsPastBuffer | kernel/kernel.c:851-859 | a concrete full table on which the scan meets entry 341 |
| FatTable.FirstFreeCluster | kernel/kernel.c:852-857 | the intended scan stops at the first entry that is 0 and does not straddle |
| FatTable.AllocIsAsIntendedIff | kernel/kernel.c:851-859 | the allocation as coded is the intended one whatever lies behind its buffers if and only if a cluster below 341 is free or the first byte of entry 341 shows it in use |
| FatTable.TakenClusterCases | kernel/kernel.c:851-859 | the code takes cluster 341 if and only if no earlier one is free and the loaded nibble of 341 and the byte behind the buffer are 0; otherwise it takes the intended cluster |
| FatTable.TakenClusterIsLeast | kernel/kernel.c:851-859 | on every table the code fails exactly when no cluster is free nor 341 looks so, takes a free cluster except possibly 341, and passes over no free one except possibly 341 |
| FatTable.AllocationInNumbers | kernel/kernel.c:851-859 | clusters 2 to 511 are handed out, lowest free one first, and marked 0xFF8, with 341 as the only exception; 0 is returned only if all are in use, and then nothing changes |
| FatTable.TakenClusterIsFreeIff | kernel/kernel.c:851-859 | a cluster handed out was free, whatever lies behind the buffers, if and only if the table is safe or entry 341 is 0 |
| FatTable.UsedClusterIsHandedOut | kernel/kernel.c:851-859 | a concrete table on which cluster 341 is handed out while linked to cluster 32 |
| FatTable.AllocClusterTakesLeastFree | kernel/kernel.c:851-859 | the intended allocation fails exactly when no cluster is free; otherwise the cluster is free, does not straddle and every smaller such cluster is in use |
| FatTable.SafeAllocSkipsNoFreeCluster | kernel/kernel.c:851-859 | on a safe table every cluster below the one the code takes is in use, 341 included |
| FatTable.AllocUpdatesOneEntry | kernel/kernel.c:851-859 | on every table the allocation as coded changes no entry but that of the cluster it takes, which becomes 0xFF8, or, for 341, gets 8 as its low nibble |
| FatTable.AllocationsIncrease | kernel/kernel.c:851-859 | on every table the next allocation as coded takes a larger cluster, unless it takes 341 with a 0 behind the buffer where there was none before |
| FatTable.AllocationsIncreaseIff | kernel/kernel.c:851-859 | two allocations take increasing clusters whatever lies behind the buffers if and only if the table is safe or no cluster but possibly 341 is free |
| FatTable.AllocationGoesBack | kernel/kernel.c:851-859 | a concrete table on which a later cluster is taken first and 341 after it |
| FatChains.FollowVisitsChain | kernel/fs/fat.c:185-217 | the reader's loop started at the head of a complete chain visits exactly that chain |
| FatChains.ChainIsUnique | kernel/fs/fat.c:185-217 | a cluster heads at most one complete chain |
| FatChains.ChainIsAcyclic | kernel/fs/fat.c:185-217 | a complete chain never revisits a cluster |
| FatChains.ChainsShareOnlyTails | kernel/fs/fat.c:185-217 | in a well-formed table two chains with a common cluster are one a tail of the other |
| FatChains.ChainsAfterUpdate | kernel/kernel.c:851-859 | marking a free cluster end of chain leaves exactly the old chains plus the new one-element chain |
| FatChains.UpdateKeepsWellFormed | kernel/kernel.c:851-859 | and the table stays well formed |
| FatChains.AllocKeepsOtherChains | kernel/kernel.c:851-859 | on every table fat_alloc_cluster as coded keeps each chain that does not run through cluster 341 and takes none of its clusters |
| FatChains.AllocKeepsEveryChainIff | kernel/kernel.c:851-859 | it keeps every chain, whatever lies behind its buffers, if and only if the table is safe or no chain runs through 341 |
| FatChains.UsedChainIsBroken | kernel/kernel.c:851-859 | a concrete table on which it breaks the chain of clusters 341 and 32 |
| FatChains.AllocKeepsChains | kernel/kernel.c:851-859 | on a safe table it keeps well-formedness, keeps every chain as the reader follows it, and adds exactly the fresh one-element chain |
| FatVolume.MountLaysOutRegions | kernel/kernel.c:410-423 | boot sector, first FAT, further FATs, root directory and data area follow each other without overlap; the root area is the directory rounded up to sectors |
| FatVolume.MountedGeometry | kernel/kernel.c:410-423 | mounting decodes a boot sector: for all numbers stored at bytes 11, 13, 14, 16, 17 and 22, least significant byte first, the region starts, the root-entry count and the cluster size in terms of these numbers |
| FatVolume.SignatureIs | kernel/kernel.c:410 | the signature is the text FAT at byte 54 |
| FatVolume.FloppyGeometry | kernel/kernel.c:410-423 | a 1.44 MB floppy has its root directory at sector 19, data at sector 33 and cluster 3 at sector 34 |
| FatVolume.ClustersAreConsecutive | kernel/kernel.c:783 | cluster 2 starts the data area and consecutive clusters are sectors-per-cluster apart |
| FatVolume.ExtentsAreDisjoint | kernel/kernel.c:783 | the sector extents of different clusters are disjoint |
| FatVolume.SaveUpdatesOneEntry | kernel/kernel.c:776-785 | a save as coded, on every table, marks the entry of the cluster it takes and changes no other entry of the first FAT |
| FatVolume.SaveKeepsUsed | kernel/kernel.c:776-785 | no entry in use ever becomes free by a save, and the cluster it takes is in use afterwards |
| FatVolume.SaveIsAsIntendedIff | kernel/kernel.c:776-785 | a save is the intended one, whatever lies behind the buffers, if and only if the table is safe |
| FatVolume.SaveTouchesTwoSectors | kernel/kernel.c:776-785 | a save as coded, on every table, writes the zero-filled text to its data sector and otherwise changes at most the sector of the entry it marks; without a cluster it changes nothing |
| FatVolume.SaveWritesText | kernel/kernel.c:779-784 | byte by byte, the sector of the cluster taken holds the text up to the cursor, then zeros |
| FatVolume.SaveStaysInFirstFatIff | kernel/kernel.c:776-785 | the sector of that entry belongs to the first FAT, whatever lies behind the buffers, if and only if the first FAT has two sectors, a cluster below 341 is free, or no cluster but possibly 341 is free |
| FatVolume.OneSectorFatSpills | kernel/kernel.c:851-859 | a concrete volume with a full FAT of one sector on which a save marks an entry in the root directory |
| FatVolume.SaveTargetIsOwned | kernel/kernel.c:783 | the sector a save as coded writes lies in the extent of the cluster it takes and of no other |
| FatVolume.SavesUseLaterClusters | kernel/kernel.c:776-785 | on every table the next save takes a larger cluster, unless it takes 341 with a 0 behind the buffer where there was none before |
| FatVolume.Volume.AtaRead | kernel/kernel.c:385-402 | the buffer receives the sector |
| FatVolume.Volume.AtaWrite | kernel/kernel.c:861-878 | the sector, and no other, becomes the buffer |
| FatVolume.Volume.Mount | kernel/kernel.c:405-430 | with the FAT signature the geometry of the boot sector is installed, otherwise nothing changes |
| FatVolume.Volume.GetNextCluster | kernel/kernel.c:819-832 | the code returns the entry as decoded from one sector, for every cluster |
| FatVolume.Volume.SetNextCluster | kernel/kernel.c:834-849 | the code writes the disk the read-modify-write denotes, for every cluster |
| FatVolume.Volume.Allocate | kernel/kernel.c:851-859 | the loop computes the allocation as coded, for every table: disk and returned cluster, 0 included |
| FatVolume.Volume.SectorImage | kernel/kernel.c:780-782 | the sector image is the first 512 bytes of the text up to the cursor, then zeros |
| FatVolume.Volume.SaveText | kernel/kernel.c:776-787 | when mounted the disk becomes that of the save as coded, for every table; otherwise it is untouched |
| FatReader.Scan | kernel/fs/fat.c:156-177 | the directory scan for a signed first character finds the first matching slot, unless an unreadable directory sector comes first |
| FatReader.OwnNameMatchesIff | kernel/fs/fat.c:166-173 | a file is found under its own first character, and under any at all, if and only if that is below 0x80 |
| FatReader.HighNameIsNotFound | kernel/fs/fat.c:166-173 | a concrete drive on which a file named with 0xC4 is not found under that character |
| FatReader.EntryDecodes | kernel/fs/fat.c:164-182 | for every name, attributes, cluster and size, an entry stored at bytes 0, 11, 26 and 28 of its slot, least significant byte first, is decoded to exactly that cluster and size, and matches if and only if it is in use, neither volume label (0x08) nor directory (0x10), and named as asked |
| FatReader.ScanFindsIff | kernel/fs/fat.c:156-177 | on a readable directory a file is found exactly when some slot matches |
| FatReader.FuelIsEnough | kernel/fs/fat.c:185-217 | once the chain walk is left within some number of clusters, a larger bound changes neither this nor what it stores |
| FatReader.NotFoundIsReportedIff | kernel/fs/fat.c:151-179 | -2 is returned if and only if the first matching slot has cluster 0, or no slot matches and the uninitialised cluster variable is 0 |
| FatReader.ReadErrorIff | kernel/fs/fat.c:146-161 | -1 is returned if and only if nothing is mounted or an unreadable directory sector comes before any match; the only other error code is -2 |
| FatReader.ResultIsDeterminedIff | kernel/fs/fat.c:146-183 | the result is the same for all values of the uninitialised locals if and only if nothing is mounted, a slot matches or an unreadable directory sector comes first |
| FatReader.NotFoundIsReliableIff | kernel/fs/fat.c:151-179 | -2 is returned whatever these values are if and only if the first matching slot has cluster 0 |
| FatReader.AbsentFileReadsAnother | kernel/fs/fat.c:151-179 | a concrete drive without file A on which a call for A returns the contents of B |
| FatReader.EmptyFileIsReportedMissing | kernel/fs/fat.c:173-179 | a concrete drive with an empty file for which the call returns -2 |
| FatReader.Reader.AtaReadSector | kernel/fs/fat.c:191 | a successful read stores one sector at the offset, a failed one nothing |
| FatReader.Reader.FindEntry | kernel/fs/fat.c:156-177 | the loop computes the scan, and the cluster and size the locals end up with |
| FatReader.Reader.CopyCluster | kernel/fs/fat.c:189-196 | the inner loop stores the sectors of one cluster, in order, until the 32-bit counter is 0 or a read fails, for every counter |
| FatReader.Reader.LookUp | kernel/fs/fat.c:198-214 | the next cluster as decoded from the sector buffer |
| FatReader.Reader.CopyChain | kernel/fs/fat.c:185-219 | the chain walk stores exactly the specified data at the start of the buffer and returns its length, for every length and chain on which it ends inside the buffer |
| FatReader.Reader.Read | kernel/fs/fat.c:145-220 | error codes and buffer contents of the whole call, for every directory entry, length and limit for which the walk ends inside the buffer; bytes behind the data are untouched |
| FatLengths.ReaderReturnsChain | kernel/fs/fat.c:185-217 | for a complete chain of clusters with non-straddling entries the walk ends and stores the concatenated sectors of the chain, cut at the length if that is whole sectors, all of them if not |
| FatLengths.LengthIsHonouredIff | kernel/fs/fat.c:181-219 | the result is the chain cut at the length if and only if the length is whole sectors or the chain is no longer than it |
| FatLengths.FoundFileIsRead | kernel/fs/fat.c:145-220 | the whole call returns that for a found file, with the length min(size, limit), for all sizes and limits |
| FatLengths.StoredFileIsRead | kernel/fs/fat.c:145-220 | a whole call on raw directory bytes: the first entry with the name asked for, stored with a cluster number and a size, yields the data of the chain of that cluster, cut at the smaller of size and limit if that is whole sectors |
| FatLengths.IoErrorsOnlyTruncate | kernel/fs/fat.c:191-205 | unreadable data or FAT sectors only shorten what is stored, for every length and chain |
| FatLengths.ReadStopsAtBadSector | kernel/fs/fat.c:185-219 | exactly how much: if sector j of the i-th cluster of a chain is the first sector met that cannot be read, all data before it is stored, cut at a whole-sector length |
| FatLengths.ReadStopsAtBadLink | kernel/fs/fat.c:198-205 | if the FAT sector of the i-th cluster is, the data up to and with that cluster is stored |
| FatLengths.WholeLengthEnds | kernel/fs/fat.c:181-196 | for whole-sector lengths the walk ends within length / 512 clusters and stores at most the length, on every drive and chain |
| FatLengths.WalkEndsIff | kernel/fs/fat.c:181-217 | on readable clusters with non-straddling entries the walk ends if and only if the length is whole sectors or following the links from the first cluster reaches an end mark |
| FatLengths.SelfLinkNeverEnds | kernel/fs/fat.c:181-217 | on a cluster linked to itself a fractional length never ends: n iterations store the cluster n times, for every n |
| FatLengths.OneByteOfSelfLinkNeverEnds | kernel/fs/fat.c:181-217 | a concrete disk on which a request for one byte never returns |
| FatLengths.OneByteReadsTwoSectors | kernel/fs/fat.c:181-196 | a concrete one-byte request that stores 1024 bytes |
| FatFiles.SaveKeepsEveryFile | kernel/kernel.c:776-785 | after a save as coded, on every table that keeps it in the first FAT, every file is still a file with the same data, and the cluster taken is in none of them |
| FatFiles.SaveKeepsWellFormed | kernel/kernel.c:776-785 | on a safe table the links stay well formed after a save as coded and its chains are the old ones and the new cluster on its own |
| FatFiles.SavedTextReadsBack | kernel/fs/fat.c:185-219 | asked for one sector, the reader started at a saved cluster returns the saved text |
| FatFiles.SavesKeepFile | kernel/kernel.c:776-785 | over any run of saves as coded, on safe and other tables, full ones included, every file keeps its chain and its data |
| FatFiles.SavesKeepEveryRead | kernel/fs/fat.c:145-220 | so a whole call of the reader for a file that was there before gives the same result after any run of saves, for every size and limit |
| FatFiles.SavesAreAllKept | kernel/kernel.c:776-785 | at the end of any run of saves as coded every text is on the disk whose save took a cluster other than 341 |
| FatFiles.SavesTakeIncreasingClusters | kernel/kernel.c:776-785 | over any such run no cluster is taken twice, and apart from 341 the clusters taken increase strictly |
| FatFiles.VolumeWithOneFile | kernel/kernel.c:776-785 | a concrete volume with one file that meets all conditions of these theorems, and on which the next save takes cluster 3 |
| InternetChecksum.FoldIsResidue | kernel/net/network.c:55-57 | folding subtracts a multiple of 65535 and gives 0 only for 0 |
| InternetChecksum.SumFitsIn32Bits | kernel/net/network.c:45-53 | the accumulator cannot overflow 32 bits for any 16-bit length |
| InternetChecksum.ByteOrderIndependence | kernel/net/network.c:44-60 | folding little-endian words is the byte swap of folding big-endian words, odd lengths included (section 2(B) of RFC 1071) |
| InternetChecksum.NativeStoreIsRfcValue | kernel/net/network.c:126 | storing the native result puts the RFC 1071 value on the wire in network order |
| InternetChecksum.FilledMessageVerifies | kernel/net/network.c:122-126 | a message whose zeroed checksum field is filled with the result checks to 0 in either byte order |
| InternetChecksum.OnlyTheChecksumVerifies | kernel/net/network.c:44-60 | a field value makes a message check to 0 exactly when it equals the checksum modulo 65535 and the sum is not 0 |
| InternetChecksum.ComputeChecksum | kernel/net/network.c:44-60 | the loops, with a 32-bit sum that never wraps, compute the checksum |
| Wire.SwapStoresBig | kernel/net/network.c:27-33 | htons and a native store put the high byte first |
| Wire.Swap32StoresBig | kernel/net/network.c:35-41 | htonl and a native store put the most significant byte first |
| Wire.Swap32IsInvolution | kernel/net/network.c:35-41 | ntohl undoes htonl |
| Wire.FrameFields | kernel/net/network.c:82-98 | destination, source, type and payload are read back from a frame |
| Wire.ArpFields | kernel/net/network.c:172-190 | all fields of an ARP packet are read back |
| Wire.IpFields | kernel/net/network.c:111-130 | every IPv4 header built decodes to its arguments and verifies to 0, natively and by RFC 1071 (section 3.1 of RFC 791) |
| Wire.EchoRequestFields | kernel/net/network.c:152-168 | the echo request decodes to its arguments and verifies to 0 |
| Wire.PingPayloadCounts | kernel/net/network.c:162-164 | the payload is 0, 1, 2 and so on up to 55 |
| Wire.EchoReplyFields | kernel/net/network.c:142-149 | for every length that includes the checksum field the reply has type 0, keeps identifier, sequence and data, and verifies to 0 (RFC 792) |
| Network.EchoRoundTrip | kernel/net/network.c:142-295 | between hosts that know each other's MAC the request makes the other host send exactly one frame, the matching reply as raw bytes, which clears the waiting flag if the sender was waiting for it |
| Network.DeferredPingIsOneFrame | kernel/net/network.c:197-240 | to the awaited ARP reply a host sends exactly one frame: its echo request to the byte-swapped address if that has a binding, an ARP request for it if not |
| Network.DeferredPingReachesReplierIff | kernel/net/network.c:197-240 | that frame is, as raw bytes, the echo request addressed to the replier if and only if the address is a palindrome and is bound already or finds room in the table |
| Network.DeferredPingMissesGateway | kernel/net/network.c:237-240 | a host waiting for the gateway 10.0.2.2 answers its ARP reply with an echo request to, or an ARP request for, 2.2.0.10 |
| Network.LookupAfterLearn | kernel/net/network.c:101-108 | an earlier binding wins and a full table learns nothing |
| Network.ArpExchange | kernel/net/network.c:172-234 | request and reply teach each host the other; each then resolves the other exactly unless it had a different earlier binding or no room |
| Network.TableIsFirstSenders | kernel/net/network.c:202-210 | over any frames whose accessed bytes are there the table is the earlier table extended by the ARP senders, cut at 16 |
| Network.BindingsAreStable | kernel/net/network.c:101-108 | once a lookup succeeds its answer never changes |
| Network.FrameIsAnsweredOnce | kernel/net/network.c:197-295 | a received frame makes the host send at most one frame, and ends the wait for a ping if and only if it is, as raw bytes, the awaited echo reply |
| Network.FrameIsAnsweredIff | kernel/net/network.c:197-295 | a host sends something on a frame if and only if, as raw bytes, it is an ARP request for the host's address, the ARP reply its ping waits for, or an echo request addressed to it or to everyone |
| Network.ArpRequestIsAnswered | kernel/net/network.c:213-234 | the answer to an ARP request for the host, byte by byte |
| Network.ArpRequestBytes | kernel/net/network.c:172-190 | an ARP request on the wire, byte by byte |
| Network.EchoRequestIsAnswered | kernel/net/network.c:142-149 | the answer to an echo request, whatever its identifier and data: to the sender, the same message with type and code 0 and checksums that verify, or an ARP request for the sender where no MAC is known |
| Network.NoMoreAnswersThanFrames | kernel/net/network.c:197-305 | over any frames a host sends at most as many as it receives, keeps its addresses and never starts waiting |
| NetworkStack.Stack.SendFrame | kernel/net/network.c:82-98 | the frame built in the buffer is the abstract frame |
| NetworkStack.Stack.Resolve | kernel/net/network.c:101-108 | the loop returns the first matching entry |
| NetworkStack.Stack.SendIpv4 | kernel/net/network.c:111-139 | the packet goes to the resolved MAC, or an ARP request goes out instead |
| NetworkStack.Stack.SendReply | kernel/net/network.c:142-149 | the received packet, rewritten in place, becomes the abstract reply |
| NetworkStack.Stack.SendRequest | kernel/net/network.c:152-169 | sends the abstract echo request |
| NetworkStack.Stack.RequestArp | kernel/net/network.c:172-194 | broadcasts the abstract ARP request |
| NetworkStack.Stack.LearnSender | kernel/net/network.c:202-210 | appends the pair while there is room |
| NetworkStack.Stack.OnArp | kernel/net/network.c:197-241 | computes the abstract ARP handler |
| NetworkStack.Stack.OnIcmp | kernel/net/network.c:244-260 | computes the abstract ICMP handler |
| NetworkStack.Stack.OnIpv4 | kernel/net/network.c:263-280 | computes the abstract IPv4 handler |
| NetworkStack.Stack.OnFrame | kernel/net/network.c:283-295 | computes the abstract frame handler |
| Scheduler.SwitchGoesToNearest | kernel/task/scheduler.c:26-51 | a switch goes to the cyclically nearest ready task and does nothing exactly when there is none; exactly one task is running afterwards |
| Scheduler.FirstSwitchFaultsIff | kernel/task/scheduler.c:28-45 | with no current task a switch stores outside the table if and only if some task is ready |
| Scheduler.OneTaskThenSwitchFaults | kernel/task/scheduler.c:45-98 | it does so after initialisation and one creation |
| Scheduler.CreationTakesLowestSlot | kernel/task/scheduler.c:53-89 | for every table a creation changes nothing and returns -1 exactly when all slots are live; otherwise the lowest dead slot becomes ready under the returned number, the next one, and no other slot changes |
| Scheduler.CreatedIdIsFresh | kernel/task/scheduler.c:53-89 | the number returned is the id of the slot that became ready and was no live task's id; -1 is returned for a full table only |
| Scheduler.FirstTaskIsOne | kernel/task/scheduler.c:22-23 | after boot the first creation returns 1 and fills slot 0 |
| Scheduler.LaterIdsAreLarger | kernel/task/scheduler.c:53-89 | over every run numbers returned by creations increase |
| Scheduler.EventBringsNearer | kernel/task/scheduler.c:26-89 | a switch runs a ready task or brings it strictly nearer; a creation changes neither it nor the current task |
| Scheduler.BoundedWaiting | kernel/task/scheduler.c:26-89 | in every run of switches with creations interleaved, a ready task d slots behind the current one is running after at most d switches, at most 63 |
| Scheduler.KthSwitch | kernel/task/scheduler.c:26-51 | after k switches without creations the running mark is on the k-th live slot after the start |
| Scheduler.FullRotation | kernel/task/scheduler.c:26-51 | with n live tasks, n switches make each of them current exactly once and return to the starting table |
| Scheduler.RunKeepsIds | kernel/task/scheduler.c:53-89 | task ids stay distinct and a live task keeps slot and id over every run |
| Scheduler.RoundRobin.Init | kernel/task/scheduler.c:91-98 | all slots dead, no current task, the id counter kept |
| Scheduler.RoundRobin.OnTimer | kernel/task/scheduler.c:26-51 | the loop and stores compute the abstract switch |
| Scheduler.RoundRobin.CreateTask | kernel/task/scheduler.c:53-89 | the code computes the abstract creation and its returned id |
| Screen.NewlineShows | kernel/kernel.c:60-72 | scrolling the screen is appending a row to the document |
| Screen.ApplyShows | kernel/kernel.c:56-80 | every operation acts on the screen as on the document |
| Screen.ScreenIsTailOfDocument | kernel/kernel.c:56-80 | over every run of characters, newlines and colour changes the screen and cursor are the last 25 rows of an unbounded document |
| Screen.ScrolledRowsAreFinal | kernel/kernel.c:60-72 | rows that have scrolled off never change, and rows are only added, at most one per operation |
| Screen.CellIsCharacterAndColor | kernel/kernel.c:77 | the low byte of a cell is the character's; the high byte is the colour if and only if the character is below 0x80 or the colour is 0xFF |
| Screen.HighCharacterLosesColor | kernel/kernel.c:77 | character 0xC4 written in grey becomes 0xFFC4 |
| Screen.PutStoresCell | kernel/kernel.c:77-79 | a printable character and the colour, in numbers, at the cursor |
| Screen.BackspaceBlanksCell | kernel/kernel.c:76 | a backspace stores a blank in the cell before the cursor and goes back to it |
| Screen.NewlineInCells | kernel/kernel.c:60-72 | below the last row every cell moves up 80 places and the last row is blank in the current colour; elsewhere only the cursor moves |
| Screen.LastColumnWraps | kernel/kernel.c:77-79 | a character in the last column is followed by a newline |
| Terminals.SwitchKeepsContents | kernel/kernel.c:162-167 | a switch changes the logical contents of no terminal |
| Terminals.TerminalsAreIndependent | kernel/kernel.c:131-167 | over every run the contents, cursor and colour of a terminal replay exactly the operations issued while it was current |
| Terminals.TerminalsFromInit | kernel/kernel.c:131-167 | the same from vt_init, which clears the saved terminals and leaves the live screen |
| Terminals.InitClearsTerminals | kernel/kernel.c:131-142 | in numbers, every cell of a terminal other than the live one is 0x0720 and its cursor is in the corner |
| Terminals.TerminalIsTailOfOwnDocument | kernel/kernel.c:56-167 | every terminal is the tail of a document of its own |
| Terminals.Console.ChangeColor | kernel/kernel.c:56-58 | only the colour of the live screen changes |
| Terminals.Console.ScrollUp | kernel/kernel.c:64-69 | the overlapping in-place copy drops the top row and blanks the last one in the current colour |
| Terminals.Console.MoveToNextLine | kernel/kernel.c:60-72 | the code computes the abstract newline |
| Terminals.Console.Write | kernel/kernel.c:74-80 | the code computes the abstract putchar |
| Terminals.Console.Print | kernel/kernel.c:82-84 | print replays the characters one by one |
| Terminals.Console.InitTerminals | kernel/kernel.c:131-142 | every saved terminal becomes a cleared screen |
| Terminals.Console.SaveCurrent | kernel/kernel.c:144-151 | the current terminal's copy becomes the live screen |
| Terminals.Console.Restore | kernel/kernel.c:153-160 | the live screen becomes the terminal's copy |
| Terminals.Console.SwitchTerminal | kernel/kernel.c:162-167 | the code computes the abstract switch |
| Printf.LiteralRun | libc/stdio/printf.c:24-38 | a stretch without conversions is rendered as it stands |
| Printf.ChunkRenders | libc/stdio/printf.c:24-38 | a literal chunk, possibly opened by a doubled percent sign, is its own rendering |
| Printf.EscapeRoundTrip | libc/stdio/printf.c:24-38 | printing a text with its percent signs doubled prints the text |
| Printf.PiecesArePrinted | libc/stdio/printf.c:24-63 | for every list of texts, characters and strings, the format and arguments made of them print exactly these, in order |
| Printf.UnknownConversionIsPrinted | libc/stdio/printf.c:64-75 | an unknown conversion, or a single percent sign at the end, is printed as it stands with all that follows |
| Printf.Printf | libc/stdio/printf.c:15-80 | chunked printing emits the character-at-a-time meaning and returns its length; it fails exactly when that exceeds INT_MAX, having emitted a proper prefix |

## Left out

- Port I/O, ATA, floppy, PIC, PIT, keyboard and mouse drivers, and the e1000 stub: a disk is an array of 512-byte sectors, the network card a list of sent frames, and a frame is received by calling the handler with it.
- GDT, IDT and interrupt setup, loading CR0 and CR3, TLB invalidation, and the assembly context switch: no functional property in the C code.
- Task stacks and saved registers: `scheduler_create_task` is modelled in its slot, id and state part.
- `kernel/task/task.c`, `kernel/task.c`, `task.c`, `kernel/virtual.c`, `kernel/arch/i386/tty.c`, `include/net/network.c`: alternative or unfinished versions of cores modelled here.
- Shell commands, command history, environment variables, `ls`, `cat`, `cd`, the editor's input loop and loading of a file, `ping` address parsing, `print_ip`, `ifconfig`: easy members beside the cores.
- Directory entries for saved text, mirroring into the second FAT, `mkdir`, `rm`, `write_file`: not implemented by the kernel.
- The command line and cursor position fields of a saved terminal, and cells written by the mouse pointer.
- Messages printed by the modelled operations: they do not feed back into the modelled state.
- PageAllocator.BitmapAllocator: addresses are natural numbers below 4 GB, since a page number times 4096 never exceeds 32 bits.
- Paging.AddressSpace: memory is cleared a word at a time, where `memset` works on bytes.
- FatVolume.Volume.GetNextCluster: requires 512-byte sectors and the one sector it loads to be on the disk; `ata_read` always reports success.
- FatVolume.Volume.SetNextCluster: requires the same and a 12-bit value; wider values, which the code never passes, would spill into a neighbour. For a straddling entry the byte it also stores behind its own buffer is not followed further.
- FatVolume.Volume.Allocate: requires 512-byte sectors and the scanned table to be on the disk; of the scanned entries only 341 involves the byte behind the buffer.
- FatVolume.Volume.Mount: requires a nonzero sector size in a boot sector with the FAT signature, because the code divides by it.
- EnabledPaging.PagedMapPageIff: the four bit-field stores to one entry are one store, and translations are those in memory, not stale ones the processor may have cached.
- PageAllocator.PoolSparesImageIff: the image size is a parameter; it is the result of linking.
- FatReader.Reader.Read: requires that the walk ends and fits the caller's buffer, since the code otherwise runs on or writes past it; `WalkEndsIff` says when it ends. Sectors have 512 bytes. The byte behind the sector buffer and the uninitialised locals are parameters.
- FatReader.Reader.AtaReadSector: `ata_read_sector` has no definition in the repository; a drive is its sectors and the set of those that cannot be read.
- NetworkStack.Stack.OnFrame: requires the bytes the handlers load to be there and, for an echo request addressed to the host, a total length of 20 to 1500 inside the frame, because the code reads and copies without checking. The frame may be taken to be the whole receive buffer.
- NetworkStack.Stack.SendFrame: requires payloads that fit the 1514-byte buffer.
- Scheduler.RoundRobin.CreateTask: task numbers are unbounded integers; the code's 32-bit counter would wrap after 2^31 creations.
- Scheduler.RoundRobin.OnTimer: requires that the first switch does not write outside the table; the theorems about runs start from a state with a running task.
- Printf.Printf: requires arguments that fit the conversions, as C does; output is returned instead of being written to a device, and `putchar` never fails on unsigned bytes.
