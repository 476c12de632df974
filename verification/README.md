# Verified models of the firmware core

Dafny models of the parts of the hypervisor firmware that carry its state, with
proofs of what they promise. `dafny verify dfyconfig.toml` checks everything.

| module | what it models |
|---|---|
| `Regions` | the memory map as a sequence of typed page ranges with attributes; the operations as functions on unbounded integers; what an allocation does to every page and to the layout, for every request |
| `Merging` | merging and freeing; what an allocation followed by its free restores; when a request is granted, told by the page map |
| `Runs` | whole runs of requests; when the page map determines the descriptors |
| `Machine` | the same operations in wrapping 64-bit arithmetic, and exactly when the two agree |
| `PageAllocator` | the page allocator itself: an array of slots threaded by links, changed in place, proved to do what `Machine` says |
| `InitMemory` | building the map from the hand-off blocks at start-up |
| `FatVolume` | sectors of a FAT partition on a device that may fail now and then, and the file allocation table |
| `FatFile` | a file cursor: read, seek, and the EFI read into a caller's buffer |
| `FatDirectory` | enumerating a directory, with long names gathered over several slots |
| `FatOpen` | opening a path |
| `PeRelocation` | applying the base relocations of a PE image in place |
| `HandleDatabase` | handles and the protocol interfaces installed on them |
| `DevicePath` | device paths and finding the handle whose path is the longest prefix |
| `VirtioQueue` | the virtio block queue: what the driver writes, and driver and device as one state machine |
| `Ucs2` | converting between UTF-8 and UCS-2 |
| `Common`, `Arithmetic` | types, and facts about multiplication and remainders, that several modules share |

An object the program updates in place is a class. Its methods are proved equal
to functions on values, and the theorems are about those functions. Loops stay
loops. In `PageAllocator`, `HandleDatabase`, `FatFile` and `FatDirectory` a ghost
field or a specification function gives the value an object stands for, and
`Valid()` ties it to the real fields.

Conventions. Integers are unbounded except where a width matters: the 64-bit
sums and products of the allocator, the 32-bit file position, the 64-bit
relocation delta and the 2, 4 and 8 byte sites (wrapping, as in a release build),
the 16-bit ring index and the 16-bit UCS-2 unit are explicit. Pointers into an
array are indices, other memory is a sequence of bytes and an index. The
attribute word of a memory descriptor is the set of its bits. Outside choices
(does the pool have memory, does a read succeed, what lies in memory behind a
buffer, what does the device do next) are parameters or events. The device of
`FatVolume` may fail at any time but never returns wrong data; a ghost counter
says how often it failed. Where the program panics, the model has an outcome that
says so (`Panicked`, `OutOfBounds`, an unfinished `Format`). In `VirtioQueue`
writes become visible in program order.

## What the code does that one might not expect

Each of these is proved as stated, mostly as an exact condition.

- A fixed-address request is rounded down to a page (`AllocateMeetsMode`).
- A granted request leaves an empty descriptor if and only if it was for no
  pages, or its fixed address lies strictly inside the first page of the
  descriptor that holds it (`AllocateKeepsLayout`). In the second case freeing
  the returned address frees nothing (`FirstPageExample`). Order, alignment and
  disjointness survive every request.
- An allocation followed by its free restores the merged map if and only if
  neither that happens nor a runtime block at the start of free memory was marked
  (`AllocateThenFree`): the mark stays, on all of that memory
  (`RuntimeMarkStays`).
- A runtime block is not marked when it is a whole descriptor
  (`AllocateRetypesBlock`), so at start-up a runtime claim is marked if and only if
  it does not take all that is left of a descriptor (`InitialMapIsOverride`). The
  descriptors do not depend on the order of the claims (`ClaimOrderIsIrrelevant`),
  but the marks do (`ClaimOrderShowsInAttributes`): two orders give the same map if
  and only if they judge every claim alike (`ClaimOrderIff`).
- Freeing all that was allocated brings the merged memory back if and only if no
  descriptor of another type is left, not even an empty one (`RunReturns`); a
  request for no pages in between leaves one (`EmptyDescriptorStays`).
- Merging keeps the attributes of all pages if and only if the neighbours it
  joins agree on them (`MergeKeepsAttributes`).
- An allocation can fail after a first split. The extra descriptor stays, the
  page types do not change, and merging removes it (`AllocateRetypesBlock`,
  `AllocateThenFree`).
- The end of a fixed-address request is computed in 64 bits. A request is
  answered as if it did not wrap, on every map, if and only if it does not wrap
  or wraps into the last page (`AgreesIff`); ten free pages grant a request for
  2^52 (`WrappedRequestExample`). Everything else stays below what was added
  (`RunStaysBelow`), so runs without such requests never wrap (`RunAgrees`).
- A 12-bit table entry that straddles two sectors is read past the end of the
  sector buffer; these are exactly the clusters congruent to 341 and 682 modulo
  1024 (`CutEntries`), and exactly they can be read wrong (`EntryReadRightIff`).
- The 32-bit end-of-sector sum in the file reader is exact if and only if it
  does not wrap (`AdvanceExact`), so files are limited to 2^32 - 512 bytes
  (`FileSizeLimit`).
- A read whose length is not a multiple of the sector size drops the rest of its
  last sector: the next read continues where this one stopped if and only if the
  length is a multiple of 512 or the end was reached (`NextReadContinues`).
- On a device that fails for ever the EFI read never ends (`ReadTurns`).
- After a failed sector read the EFI read goes on. It answers with a device error
  if and only if some read failed and the buffer was filled all the same; reaching
  the end of the file hides the failure (`ReadFile`).
- A failed sector read while a directory is enumerated loses what has been
  gathered of the next long name, and nothing else (`Directory.NextEntry`). The
  listing changes if and only if there is a next entry and something gathered is
  not written again by the slots still to come (`NameLostIff`,
  `NameLostExample`).
- A long-name slot whose sequence number is not one from 1 to 20 stops the program
  when the reader gets to it (`Directory.NextEntry`, `ReadAll`).
- Going up stops the program if and only if the parent entry leads to a directory
  other than the root and the directory was not opened by its name, or the reader
  meets a bad slot first (`UpPanicsIff`). Going up forgets the entry needed to go
  up again, so doing it twice stops the program (`UpTwice`, `UpTwiceExample`).
- Resetting the fixed root directory of a FAT12 or FAT16 volume moves it to
  sector 0 (`Directory.Reset`); absolute lookups see the root directory only if
  it starts there or the volume is FAT32 (`AbsoluteLookup`). So opening p/name can
  differ from opening p and then name, exactly when the name leads elsewhere in
  the directory as a reset leaves it (`OpenComposesIff`, `OpenComposesExample`).
- A file in the middle of a path ends the walk with that file (`WalkComposes`).
- Relocating twice equals relocating once by the sum if and only if there is no
  high-half site or the low halves add up without a carry (`RelocatingTwice`).
- Installing several protocols in one call does not look for repeats among them;
  the table stays free of duplicates if and only if the call has none
  (`InstallManyRefines`).
- UCS-2 units between 0x80 and 0x7FF vanish when decoded; exactly the strings
  without them survive the round trip (`RoundTrip`).
- Encoding has an overflow test that never fires before the buffer is indexed out
  of bounds, which happens if and only if there are more units than room
  (`Encode`, `EncodeOverrunExample`).
- Printing a string stops the program at the first chunk with a surrogate
  (`Format`).

## Model

| member | source | states |
|---|---|---|
| Regions.FirstFit | src/efi/alloc.rs:137-186 | without wrap-around, the index is that of the first free descriptor meeting the mode's condition; all earlier ones fail it |
| Regions.AllocateShape | src/efi/alloc.rs:215-303 | for every request the answer is one of three: nothing fits and the map is untouched; the block is carved out of the first fitting descriptor with free remainders in front and behind; or the slots do not suffice for the pieces, possibly after a first split |
| Regions.AllocateRetypesBlock | src/efi/alloc.rs:215-303 | for every request on an ordered map: a success retypes exactly the pages of its block, all free before, and adds the runtime mark exactly to a runtime block that is not a whole descriptor; a failure leaves type and attribute of every page, also after a first split |
| Regions.AllocateMeetsMode | src/efi/alloc.rs:137-303 | the address is the requested one rounded down to its page, or meets the mode and is as low as any fitting descriptor; success if and only if some descriptor fits and the slots suffice for the pieces |
| Regions.AllocateKeepsLayout | src/efi/alloc.rs:215-303 | every request keeps descriptors aligned, ordered, disjoint and within the slots; it leaves an empty one if and only if it grants no pages or splits for an address strictly inside the first page of a descriptor |
| Regions.FirstPageExample | src/efi/alloc.rs:255-278 | one page at 0x200001 out of free memory at 0x200000: the empty descriptor, the answer 0x200000, and a free of it that frees nothing |
| Merging.MergeCoalesces | src/efi/alloc.rs:305-338 | no two neighbours can be joined afterwards; exactly the maps without such neighbours are unchanged |
| Merging.MergeKeepsTypes | src/efi/alloc.rs:305-338 | merging changes the type of no page |
| Merging.MergeKeepsAttributes | src/efi/alloc.rs:305-338 | merging keeps the attribute of every page if and only if the neighbours it joins agree on it |
| Merging.MergeKeepsOrdered | src/efi/alloc.rs:305-338 | merging keeps descriptors aligned, ordered and disjoint, and non-empty if they were |
| Merging.MergeAbsorbsJoin | src/efi/alloc.rs:305-338 | joining two neighbours anywhere first does not change the merged map |
| Merging.FreeRetypesBlock | src/efi/alloc.rs:340-356 | success if and only if a descriptor starts at the address; exactly the pages of the first such one become free; the result is coalesced and ordered; a failure changes nothing |
| Merging.AllocateThenFree | src/efi/alloc.rs:215-356 | for every request: freeing what was allocated gives the merged original map, attributes included, if and only if the address was not inside the first page of its descriptor and no runtime mark was put at the start of free memory; exactly the coalesced maps are their own merged form; a failed allocation merges back as well |
| Merging.RuntimeMarkStays | src/efi/alloc.rs:290-356 | a runtime page taken from the start of ten free ones and freed again leaves all ten marked |
| Merging.AllocateKeepsCoalesced | src/efi/alloc.rs:215-303 | a granted request for anything but free memory makes no new pair of touching free descriptors; one for free memory, or one that fails after a split, makes them only at the ends of its block |
| Merging.AddressGrantedIffFree | src/efi/alloc.rs:137-303 | with two spare slots and free memory coalesced up to given seams, a fixed address is granted if and only if all pages from its own page on are free, one more than asked for when it is not aligned, for requests no seam cuts |
| Merging.RunsAreDescriptors | src/efi/alloc.rs:305-338 | in a coalesced map the free descriptors are exactly the maximal runs of free pages |
| Merging.PagesGrantedIffRun | src/efi/alloc.rs:137-303 | with a spare slot and coalesced memory, a request without a fixed address is granted if and only if some maximal run of free pages is long enough and lies where the mode asks, and then at the lowest such run |
| Runs.ServeKeepsLayout | src/efi/alloc.rs:70-356 | one call of any kind keeps order, alignment and disjointness, and covers exactly the pages covered before plus those it added |
| Runs.RunKeepsLayout | src/efi/alloc.rs:70-356 | over any run with legal additions, whatever is requested, the layout holds, no page is lost and none appears that was not added; no descriptor is empty when no request leaves one |
| Runs.RunStaysBelow | src/efi/alloc.rs:70-356 | over any such run no descriptor ends past a bound that the initial and added memory respects |
| Runs.MapDeterminesShape | src/efi/alloc.rs:305-338 | two maps with the same page map that touch at the same places have the same descriptors, attributes aside |
| Runs.FreeMapIsCanonical | src/efi/alloc.rs:305-338 | free memory has one coalesced description |
| Runs.RunReturns | src/efi/alloc.rs:215-356 | any run of allocations and frees, in any order and with any arguments, that ends with a successful free ends in the merged form of the free memory it started from, attributes aside, if and only if every descriptor left is free, empty ones included |
| Runs.RunReturnsExactly | src/efi/alloc.rs:215-356 | the same with attributes, when no request is for a runtime type |
| Runs.EmptyDescriptorStays | src/efi/alloc.rs:215-356 | one page allocated and freed with a request for no pages in between: all pages are free, and an empty descriptor splits the memory in two |
| Machine.FirstFit64 | src/efi/alloc.rs:137-186 | with wrapping sums, the index is that of the first descriptor that passes the test; all earlier ones fail it |
| Machine.AllocateAgrees | src/efi/alloc.rs:137-303 | when neither the memory nor the end of the request reaches 2^64, the wrapping computation gives the same status, address and map |
| Machine.AgreesIff | src/efi/alloc.rs:156-163 | a request is answered as without wrap-around on every map if and only if its end does not wrap, or wraps into the last page |
| Machine.WrappedRequestExample | src/efi/alloc.rs:156-163 | a request for 2^52 pages is granted by a descriptor of ten |
| Machine.FreeAgrees | src/efi/alloc.rs:305-356 | freeing and merging never wrap on memory below 2^64 |
| Machine.RunAgrees | src/efi/alloc.rs:70-356 | a run without wrapping requests on memory below 2^64 gives the map of the run on unbounded integers |
| PageAllocator.ChainLength | src/efi/alloc.rs:125-134 | the chain visits at most all slots, and all of them if and only if every slot is in use |
| PageAllocator.InsertKeepsLinked | src/efi/alloc.rs:189-213 | linking an unused slot in after a chain position keeps one acyclic chain over exactly the slots in use |
| PageAllocator.RemoveKeepsLinked | src/efi/alloc.rs:305-338 | unlinking and releasing the next slot keeps one acyclic chain over exactly the slots in use |
| PageAllocator.UpdateKeepsLinked | src/efi/alloc.rs:215-303 | rewriting a descriptor in place keeps the chain |
| PageAllocator.Allocator.constructor | src/efi/alloc.rs:415-421 | the new allocator has no descriptors, key 0 and no virtual addresses |
| PageAllocator.Allocator.FindFreeAllocation | src/efi/alloc.rs:125-134 | the first slot not in use, or the number of slots if and only if the chain occupies them all |
| PageAllocator.Allocator.FindLast | src/efi/alloc.rs:95-101 | following the links reaches the last slot of the chain |
| PageAllocator.Allocator.AddInitialAllocation | src/efi/alloc.rs:70-123 | appends one descriptor with its attribute or reports that the slots are used up; the key goes up by one either way; no virtual address changes |
| PageAllocator.Allocator.FindFreeMemory | src/efi/alloc.rs:137-186 | the walk over the links, with wrapping sums, finds the slot of the first fit |
| PageAllocator.Allocator.SplitAllocation | src/efi/alloc.rs:189-213 | replaces one descriptor by its two parts, linked next to each other, or changes nothing when no slot is free |
| PageAllocator.Allocator.AllocatePages | src/efi/alloc.rs:215-303 | for every request, status, address and the whole new map with attributes are those of the wrapping allocation function; the key goes up if and only if a descriptor was found; no virtual address changes |
| PageAllocator.Allocator.JoinNext | src/efi/alloc.rs:305-338 | joins a descriptor with its successor and releases the successor's slot |
| PageAllocator.Allocator.MergeFreeMemory | src/efi/alloc.rs:305-338 | the in-place walk computes the merged map, with wrapping sums |
| PageAllocator.Allocator.FreePages | src/efi/alloc.rs:340-356 | status and the whole new map are those of the wrapping free function; key and virtual addresses do not change |
| PageAllocator.Allocator.UpdateVirtualAddresses | src/efi/alloc.rs:386-408 | success if and only if every given start is in the map; the virtual addresses of the descriptors up to the first unknown one are taken over, the last one given for a start counting; nothing else changes |
| PageAllocator.Allocator.GetDescriptorCount | src/efi/alloc.rs:358-368 | the number of descriptors |
| PageAllocator.Allocator.GetDescriptors | src/efi/alloc.rs:370-383 | copies all five fields of the descriptors in chain order and leaves the rest of the buffer |
| PageAllocator.ServeAll | src/efi/alloc.rs:70-356 | a run of calls on the linked slots gives the map that the run of wrapping functions gives |
| PageAllocator.AllocateAndFree | src/efi/alloc.rs:795-843 | for every request, the wrapping allocation followed by the wrapping free; on a coalesced map below 2^64 it restores every descriptor, attributes included, if and only if nothing is lost in the sense of `Merging.AllocateThenFree`, for the requests that `Machine.AgreesIff` allows |
| InitMemory.AddResources | src/efi/init.rs:69-91 | the first pass adds exactly the system memory up to the end marker, in order |
| InitMemory.ClaimAllocations | src/efi/init.rs:94-114 | the second pass allocates exactly the recorded allocations up to the end marker, in order |
| InitMemory.InitializeMemory | src/efi/init.rs:67-115 | the two passes one after the other |
| InitMemory.ServeClaim | src/efi/init.rs:98-106 | in any order of work, a claim that is inside one piece of memory and disjoint from earlier claims is granted, overrides exactly its pages and cuts the memory exactly at its ends |
| InitMemory.InitialMapIsOverride | src/efi/init.rs:67-115 | for consistent block lists the final map is system memory overridden by the claims, page for page, and well-formed; the attribute of every page is determined: a page carries the runtime mark if and only if its claim is of a runtime type and, judged against the claims in front of it, does not take all that is left of a descriptor |
| InitMemory.ClaimOrderIsIrrelevant | src/efi/init.rs:94-114 | the same claims in another order give the same descriptors, attributes aside |
| InitMemory.ClaimOrderIff | src/efi/init.rs:94-114 | two orders of the same claims give the same map, attributes included, if and only if every claim is judged alike in both |
| InitMemory.ClaimOrderShowsInAttributes | src/efi/init.rs:94-114 | two claims on two pages in both orders: the runtime claim is marked only when it comes first |
| FatVolume.ReadSector | src/fat.rs:422-430 | the sector of the partition, nothing behind its last sector, and nothing exactly when the device failed |
| FatVolume.FollowChain | src/fat.rs:532-609 | for every entry, the next cluster the bytes in the sector and the byte behind the buffer give, or a block error exactly when the device failed |
| FatVolume.NextClusterReadsTable | src/fat.rs:532-609 | for a table packed in 12, 16 or 32 bit entries over the sectors, the bytes are decoded to the entry that was packed, and an end mark is recognised |
| FatVolume.EntryReadRightIff | src/fat.rs:534-559 | a table entry is read right whatever lies behind the buffer if and only if it lies in one sector |
| FatVolume.CutEntries | src/fat.rs:534-559 | an entry of a 12-bit table lies in one sector if and only if its number is not 341 or 682 modulo 1024 |
| FatFile.AdvanceExact | src/fat.rs:367-377 | the 32-bit arithmetic of the read gives the number of bytes and the new position intended if and only if the sum does not wrap |
| FatFile.FileSizeLimit | src/fat.rs:367-377 | every step through a file from a sector boundary is right if and only if the file is not larger than 2^32 - 512 bytes |
| FatFile.CountingIsDivision | src/fat.rs:341-416 | counting sectors one at a time into clusters is division and remainder by the cluster size |
| FatFile.File.CursorIsExact | src/fat.rs:341-416 | in every state of the cursor, cluster number times cluster size plus offset is the number of sectors passed |
| FatFile.File.EnterCluster | src/fat.rs:348-358 | stepping into the next cluster keeps the position; apart from device failures it fails only when the chain has no cluster there |
| FatFile.File.Read | src/fat.rs:341-379 | delivers the sector of the chain at the position and the number of valid bytes, and moves to the next sector or the end; an error moves nothing and comes only from the end of the file, a missing sector or the device |
| FatFile.File.SkipTo | src/fat.rs:397-413 | following the chain forward reaches the target, or fails only when the chain is too short or the device fails |
| FatFile.File.Seek | src/fat.rs:381-416 | misaligned and past-the-end targets are refused without moving; unless the device fails a target is reached if and only if the chain reaches up to it |
| FatFile.ReadAt | src/fat.rs:341-416 | reading after a seek delivers the bytes at the target, wherever the cursor was before, and on a sector that exists it fails if and only if the device does |
| FatFile.ContentIsUnique | src/fat.rs:341-379 | a chain holds at most one content of a given length |
| FatFile.ReadChunk | src/efi/file.rs:286-312 | one pass of the loop copies the next bytes of the content and touches nothing else; failures copy nothing |
| FatFile.ReadFile | src/efi/file.rs:281-318 | copies exactly as much of the content from the position as fits and leaves the rest of the buffer; answers end of file if and only if nothing was left, a device error if and only if the buffer was filled and some read failed, and the count otherwise |
| FatFile.ReadTurns | src/efi/file.rs:286-312 | any number of turns of the loop; on a device that always fails none is enough unless nothing is wanted or left |
| FatFile.NextReadContinues | src/efi/file.rs:281-318 | the position after a read is where the copied bytes end if and only if the length is a multiple of 512 or the end is reached |
| FatFile.ReadFileTwice | src/efi/file.rs:281-318 | two consecutive reads, the first of whole sectors, give consecutive bytes of the content |
| FatDirectory.NameOnlyMattersFirst | src/fat.rs:235-300 | whatever long name was gathered so far, it can only affect the name of the first entry to come |
| FatDirectory.NameLostIff | src/fat.rs:235-300 | two gathered names give the same listing if and only if no entry is left or they agree wherever the long-name slots in front of the next entry do not write |
| FatDirectory.NameLostExample | src/fat.rs:235-300 | a long-name slot and its entry: starting over between the two loses the name |
| FatDirectory.FirstBad | src/fat.rs:254-281 | the index of the first long-name slot with a number the reader cannot use, no end mark in front of it |
| FatDirectory.MoreSlots | src/fat.rs:235-300 | before the end marker every readable sector still has slots of the directory |
| FatDirectory.NoMoreSlots | src/fat.rs:302-325 | when the chain ends the slots end too, and the table says end of chain |
| FatDirectory.Directory.OfCluster | src/fat.rs:667-686 | a new cursor over a cluster chain stands at the first slot |
| FatDirectory.Directory.OfRun | src/fat.rs:615-665 | a new cursor over a fixed run of sectors stands at the first slot |
| FatDirectory.Directory.GetSector | src/fat.rs:302-325 | the sector under the cursor, moving to the next cluster when needed without losing the place; end of file if and only if the cursor is behind the last cluster of its chain and the device works, and then no slot is left |
| FatDirectory.Directory.ScanSector | src/fat.rs:254-296 | scanning the rest of a sector finds the next entry, the end or a bad slot, or carries the partial long name on, without skipping or repeating an entry |
| FatDirectory.Directory.NextEntry | src/fat.rs:235-300 | returns the first of the remaining entries and leaves the others; when nothing remains, stops the program if and only if a bad slot is there and reports the end of file otherwise; a block error if and only if the device failed, and then the remaining entries are those with the gathered long name forgotten |
| FatDirectory.Directory.Reset | src/fat.rs:327-331 | a directory that is a cluster chain goes back to its first slot; a fixed root directory gets the fields of one that starts at sector 0, and is valid if and only if it does |
| FatDirectory.ReadAll | src/fat.rs:235-300 | repeated calls yield exactly the listing of the slots up to the first bad one, in order, however entries fall on sectors and clusters, and end as the slots do; when the device fails, what was read and what remains make up the listing, the gathered long name forgotten |
| FatOpen.FirstIndex | src/fat.rs:760-769 | the index of the first entry with the name, no earlier entry having it; the length if and only if none has it |
| FatOpen.WalkComposes | src/fat.rs:721-796 | walking p/q is walking p and then q from the directory reached; an error or a file reached by p is the answer |
| FatOpen.OpenComposes | src/fat.rs:688-796 | opening p/q, relative or absolute, walks q from the directory p leads to, while opening p and then q walks it from where a reset puts that directory; an error or a file reached by p is the answer |
| FatOpen.OpenComposesIff | src/fat.rs:688-796 | for a single name, opening p/name is opening p and then name if and only if the name leads to the same place in the directory and in the directory after a reset |
| FatOpen.OpenComposesExample | src/fat.rs:615-796 | on a FAT16 volume a/.. leads to the root, and opening a/../x differs from opening a/.. and then x |
| FatOpen.OpenComposesOnFat32 | src/fat.rs:688-796 | on a FAT32 volume opening p/q is opening p and then q, for every tree |
| FatOpen.AbsoluteLookup | src/fat.rs:688-796 | an absolute name is found if and only if it is in the directory a reset of the root leads to, which is the root if and only if the volume is FAT32 or its root starts at sector 0 |
| FatOpen.DownAndUp | src/fat.rs:695-796 | opening a subdirectory and then its parent comes back to the directory if and only if the subdirectory has a parent entry that names it, also for the root; the entry then is that of the directory |
| FatOpen.UpPanicsIff | src/fat.rs:695-711 | going up stops the program if and only if the parent entry leads to a directory other than the root and no parent is remembered, or a bad slot comes before a parent entry |
| FatOpen.UpTwice | src/fat.rs:695-711 | what going up opens remembers no parent, so going up again stops the program unless the way leads to the root |
| FatOpen.UpTwiceExample | src/fat.rs:695-711 | from cluster 5 up to cluster 4, and up again |
| FatOpen.Lookup | src/fat.rs:760-769 | the loop over the entries finds the first match; without one it reports the end, or stops the program at a bad slot; a block error if and only if the device failed |
| FatOpen.WalkPath | src/fat.rs:721-796 | the loop over the path answers what the walk over the directory tree answers, or a block error exactly when the device failed |
| FatOpen.OpenParent | src/fat.rs:695-711 | for every directory, the parent found by enumeration is the one the tree gives, the program stops exactly where the tree says so, or a block error exactly when the device failed |
| FatOpen.OpenPath | src/fat.rs:688-796 | for every path, opening on the device answers what opening on the tree answers, stops included, or a block error exactly when the device failed |
| PeRelocation.AdjustAllLeavesByte | src/efi/peloader.rs:347-384 | a byte that no relocation touches keeps its value |
| PeRelocation.AdjustAllSites | src/efi/peloader.rs:347-384 | each site ends up with its old value plus the addend of its kind, modulo its width |
| PeRelocation.RelocatingTwice | src/efi/peloader.rs:347-384 | relocating by d1 and then d2 is relocating by the sum if and only if no high-half site exists or the low halves do not carry |
| PeRelocation.RelocatingBack | src/efi/peloader.rs:347-384 | relocating by d and then by -d restores the image if and only if no high-half site exists or d is a multiple of 0x10000 |
| PeRelocation.AdjustAt | src/efi/peloader.rs:352-382 | the in-place write of one site does what the function on images does |
| PeRelocation.RelocateBlock | src/efi/peloader.rs:347-384 | the loop over one block applies its entries in order, stops with failure at the first unknown kind, and leaves the directory bytes |
| PeRelocation.RelocateImage | src/efi/peloader.rs:314-389 | the nested loops apply the whole directory as it stood at the start; nothing changes at the preferred base; success if and only if every kind is known |
| PeRelocation.Delta | src/efi/peloader.rs:326-329 | the 64-bit difference, zero if and only if the bases agree, takes the old base to the new one |
| PeRelocation.DirectorySurvives | src/efi/peloader.rs:314-389 | relocating does not change the relocation directory that is read back |
| PeRelocation.RelocationsAddUp | src/efi/peloader.rs:314-389 | two relocations in a row, the directory read anew each time, add up and undo each other under the exact conditions above |
| HandleDatabase.FirstOf | src/efi/handle_database.rs:306-321 | the first protocol with the GUID, or none if and only if no protocol has it |
| HandleDatabase.SupportingIsComplete | src/efi/handle_database.rs:167-205 | the handles listed are exactly those with the protocol, in increasing order, each once |
| HandleDatabase.InstallOneRefines | src/efi/handle_database.rs:69-111 | installing keeps the GUIDs of a handle distinct and does to the table what insertion does to a list of maps, status for status |
| HandleDatabase.InstallManyRefines | src/efi/handle_database.rs:113-165 | all or nothing: a failure leaves the table; for distinct GUIDs a success is the union of maps; GUIDs stay distinct if and only if those of the call are |
| HandleDatabase.RunRefines | src/efi/handle_database.rs:69-165 | every run of installations keeps GUIDs distinct and agrees with the run on a list of maps |
| HandleDatabase.Database.constructor | src/efi/handle_database.rs:355-361 | the new database has no handles |
| HandleDatabase.Database.GetHandle | src/efi/handle_database.rs:339-353 | success if and only if the pointer is a handle of the database; the null handle is told apart |
| HandleDatabase.Database.GetProtocol | src/efi/handle_database.rs:306-321 | the index of the first protocol with the GUID |
| HandleDatabase.Database.GetNewHandle | src/efi/handle_database.rs:323-337 | appends an empty handle unless all are taken |
| HandleDatabase.Database.AddProtocol | src/efi/handle_database.rs:287-304 | appends a protocol to one handle unless it is full, and changes no other |
| HandleDatabase.Database.InstallProtocol | src/efi/handle_database.rs:69-111 | status, handle and whole new table are those of the installation function |
| HandleDatabase.Database.InstallMultipleProtocol | src/efi/handle_database.rs:113-165 | status, handle and whole new table are those of the installation function for several protocols |
| HandleDatabase.Database.LocateHandleCount | src/efi/handle_database.rs:167-184 | the number of handles with the protocol; not found if and only if it is zero |
| HandleDatabase.Database.LocateHandleCopy | src/efi/handle_database.rs:186-205 | writes exactly the handles with the protocol, in order, and nothing behind them |
| HandleDatabase.Database.LocateHandleBuffer | src/efi/handle_database.rs:207-229 | a new buffer with exactly these handles, or not found, or out of resources |
| HandleDatabase.Database.LocateHandle | src/efi/handle_database.rs:231-250 | the size needed in every case, the exact condition of each status, and an untouched buffer unless successful |
| HandleDatabase.Database.HandleProtocol | src/efi/handle_database.rs:252-268 | the interface installed for the GUID, and the exact condition of each status |
| HandleDatabase.Database.LocateProtocol | src/efi/handle_database.rs:270-285 | the interface on the first handle that has the protocol, or not found if and only if there is none |
| DevicePath.GetDevicePathSize | src/efi/device_path.rs:78-94 | the loop computes the size of all nodes and the end node |
| DevicePath.FindInstanceEnd | src/efi/mod.rs:971-978 | the loop reaches the end of the first instance |
| DevicePath.CompareDevicePath | src/efi/device_path.rs:108-129 | true if and only if the two byte ranges agree |
| DevicePath.PrefixEndsAtBoundary | src/efi/mod.rs:953-1035 | a path that agrees byte for byte with the beginning of another ends at a node boundary of it |
| DevicePath.MatchIsNodePrefix | src/efi/mod.rs:1003-1005 | the byte comparison accepts a handle if and only if its nodes are a prefix of the nodes of the source |
| DevicePath.MatchHandle | src/efi/mod.rs:994-1005 | the length of the match of one handle, if it matches |
| DevicePath.FindBest | src/efi/mod.rs:989-1015 | the loop keeps the first of the longest matches |
| DevicePath.LocateDevicePath | src/efi/mod.rs:953-1035 | finds the first handle with the longest matching path and returns the rest of the source from a node boundary; the conditions of each failure |
| VirtioQueue.DriverState.Submit | src/block.rs:254-296 | the fields the driver writes make the shared memory that of one submission |
| VirtioQueue.StepKeepsInv | src/block.rs:229-309 | every step of driver or device keeps the invariant that ties counters, ring and descriptors together |
| VirtioQueue.ReachableIsInv | src/block.rs:229-309 | the invariant holds in every state that any interleaving reaches |
| VirtioQueue.CountersAreExact | src/block.rs:229-309 | between requests all published chains are completed, and head and indices are the counts modulo 16 and 65536 |
| VirtioQueue.DeviceSeesWholeChain | src/block.rs:254-296 | whenever the device takes a chain its ring entry and all three descriptors are those of the current request, distinct and ending there |
| VirtioQueue.UnfinishedChainIsStable | src/block.rs:229-309 | until a chain is completed no step changes descriptors, ring or request |
| VirtioQueue.WaitIsExact | src/block.rs:298-301 | the spin on the used index ends if and only if the published chain is completed, also across wrap-around |
| VirtioQueue.WritesAreSubmission | src/block.rs:254-296 | the six write steps of the state machine together are the submission the driver method performs |
| Ucs2.Decode | efi-str/src/encoder.rs:114-157 | the bytes written are the decoding of the units; overflow if and only if some unit does not fit where it goes |
| Ucs2.DecodedConcat | efi-str/src/encoder.rs:114-157 | decoding in pieces is decoding the whole |
| Ucs2.Encode | efi-str/src/encoder.rs:18-100 | the units written are those of the leading well-formed sequences, as far as there is room; the program indexes out of bounds if and only if there are more of them than room, and otherwise answers their number or the error of the first bad sequence, never an overflow |
| Ucs2.EncodeOverrunExample | efi-str/src/encoder.rs:83-100 | two characters into a buffer of one unit end out of bounds |
| Ucs2.EncodeOfDecoded | efi-str/src/encoder.rs:18-157 | encoding a decoded string gives the string without its units in 0x80 to 0x7FF, never an error |
| Ucs2.RoundTrip | efi-str/src/encoder.rs:18-157 | encoding the decoded string gives it back if and only if it has no unit in 0x80 to 0x7FF |
| Ucs2.DecodedIsUtf8 | efi-str/src/encoder.rs:114-157 | the decoded bytes are valid UTF-8 if and only if no unit is a surrogate |
| Ucs2.Format | efi-str/src/os_str.rs:70-95 | printing in pieces of 42 units never overflows its buffer; it prints the decoding of the whole if and only if no unit is a surrogate, and otherwise exactly the pieces in front of the one with the first surrogate |

## Left out

- FatFile.ReadFile: assumes that the device stops failing at some time; `ReadTurns` says what happens otherwise.
- PeRelocation.RelocateImage: asks that the directory is well-formed and that no relocation site lies inside it; the loading of headers and sections is not modelled.
- VirtioQueue.DriverState.Submit: the mapping of the footer status to an answer and the initialisation handshake are not modelled.
- Runs.RunReturns: attributes are left aside, since runtime marks stay on freed memory (`RuntimeMarkStays`); without runtime requests they come back (`RunReturnsExactly`).
- The exit-boot-services check of the memory-map key.
- `Filesystem::init`: the volume's geometry is given, and only its consistency is assumed.
- Comparing names: matching is an arbitrary relation between a path component and an entry.
- Errors of the writer that `Format` prints to.
- Partition tables, PCI and memory-mapped registers, the console, the variable store and the boot services not named above.
- Locks, logging and the pool allocator, which hands out whole pages of the page allocator.
- Overlapping or unaligned entries in the hand-off blocks: the calls are made all the same, but the final map is characterised for consistent lists only.
