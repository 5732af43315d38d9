# LokoOS boot path and LKOFS policy in Dafny

This project models three connected parts of LokoOS and proves what they promise each other.

**The bootloader.** `PageTables` builds a four-level x86-64 page table inside a bump-allocated arena
(sections 4.5 and 4.6 of the Intel SDM Volume 3A, chapter "Paging"). The arena is an array of 64-bit
words. The specification of everything it does is `PageTree.Walk`, the processor's own walk over those
words. The invariant `PageTree.Tree` says that the used frames are exactly the tables of a tree, each
linked once, at one level, with the unused frames zero. On top of it come the ELF64 reader, the copy
and mapping of the kernel's segments, the four mapping stages of the boot, and the conversion and
in-place sort of the firmware memory map.

**The kernel's memory.** `FrameAllocator` keeps one bit per 4 KiB frame, a running count and a search
cursor. It is proved against a plain set of frames, over single calls, over whole runs of requests, and
through bring-up: firmware map, sort, kernel check, bitmap, heap.

**LKOFS paths, the access policy and permission records.** A parser and printer with two spellings, a
containment order, the ordered policy rules over it, and the permission state machine.

The two halves of the boot meet in `Handover.Boot`: from the bytes of the kernel file and two firmware
maps to a kernel whose segments read back exactly through the page tables and whose heap bytes are all
usable, unshared and mapped read-write.

| file | content |
|---|---|
| `Words.dfy`, `Arithmetic.dfy`, `Results.dfy` | 64-bit words with bitwise operations, arithmetic, results |
| `PageEntry.dfy`, `PageTree.dfy`, `PageSteps.dfy`, `Paging.dfy`, `PageRuns.dfy` | entry encoding, the table tree and the walk, outcomes of calls, the `PageTables` class, runs of calls |
| `Elf.dfy`, `ElfLayout.dfy`, `KernelImage.dfy`, `AddressSpace.dfy`, `ArenaBudget.dfy`, `Bootloader.dfy`, `Loading.dfy` | the kernel image, from bytes to virtual reads |
| `BootProtocol.dfy`, `MemoryMap.dfy` | the memory map and its check, conversion and sort |
| `Frames.dfy`, `AllocatorRuns.dfy`, `KernelSetup.dfy`, `Handover.dfy` | the frame allocator, runs, bring-up, the whole boot |
| `LkoRoot.dfy`, `LkoPath.dfy`, `PathLaws.dfy`, `Policy.dfy`, `PolicyLaws.dfy`, `AppPermissions.dfy` | roots, paths, laws of paths, policy and what it adds up to, permission records |

`dafny verify dfyconfig.toml` checks everything.

## What the code does that its comments do not say

- **Loko AI overwrites silently in scratch space.** Rule 10 of the policy (and requirement 16) says
  that AI never changes what exists without asking. Rule 5 comes first and allows everything under
  `Temp` and `Cache`. `PolicyLaws.AiAsksExceptInScratch` proves that these are exactly the exceptions;
  `PolicyLaws.AiWritesScratch` is one.
- **A change of permissions is not always the user's decision.** Rule 9 says that it is.
  `PolicyLaws.PermissionChangeUnasked` lists exactly when an earlier rule allows it unasked, and
  `PolicyLaws.AppChangesScratchPermissions` is one case.
- **Printing can make a path too long to parse.** The `/…` spelling grows by three bytes when printed.
  `PathLaws.PrintThenParse` proves that printing and parsing round-trip exactly when the printed form is
  at most 4096 bytes; `PathLaws.TooLongToPrint` is a path for which it fails.
- **`virtual_extent` is not always the hull.** When every segment starts at the last byte of the address
  space it answers (0, 0), and a segment that ends beyond it stops the program by overflow.
  `Elf.VirtualExtent` proves that it is the tight hull in all other cases, and
  `Elf.ExtentOfTopByte` takes the extent of a file for which it is not.
- **Reserved and allocated frames share a bit.** `free` therefore succeeds on a reserved frame. The run
  results of `AllocatorRuns` are for clients that return only what they hold.

## Model

| member | source | states |
|---|---|---|
| PageEntry.DecodeSmall | boot/loko-boot/src/paging.rs:72-81 | The word `map_page` writes, read back by the processor, is that physical page with exactly the permissions asked for. |
| PageEntry.DecodeTable | boot/loko-boot/src/paging.rs:193-204 | The word `descend` writes reads back as a link to that frame, writable and executable, so that only leaves restrict access. |
| PageEntry.DecodeHuge | boot/loko-boot/src/paging.rs:230-253 | The same for a 2 MiB leaf, with the size bit set. |
| PageEntry.MaskBits | boot/loko-boot/src/paging.rs:37-39 | The address mask keeps exactly bits 12 to 51. |
| PageEntry.EntryBound | boot/loko-boot/src/paging.rs:193-253 | Every entry the bootloader writes is a 64-bit word, which the tree invariant keeps of all words. |
| PageSteps.IndexHelpers | boot/loko-boot/src/paging.rs:321-335 | The four shift-and-mask helpers select the path of the address's page through the four levels, whatever the top 16 bits are. |
| PageTree.WalkIsLookup | boot/loko-boot/src/paging.rs:193-253 | On every tree the four-level walk of any page equals a single look-up in the one table that can hold it; effective permissions over the whole walk are those of the leaf. |
| PageTree.LinkKeepsTree | boot/loko-boot/src/paging.rs:193-204 | Linking the next free frame into an empty slot keeps the arena a tree of 64-bit words. |
| PageTree.LinkKeepsWalks | boot/loko-boot/src/paging.rs:193-204 | Linking a fresh table changes no translation of any page. |
| PageTree.PlaceSmall | boot/loko-boot/src/paging.rs:207-227 | Writing a 4 KiB leaf changes the translation of its own page and of no other. |
| PageTree.PlaceHuge | boot/loko-boot/src/paging.rs:230-253 | Writing a 2 MiB leaf changes the translation of its 512 pages and of no other. |
| PageTree.EmptyTree | boot/loko-boot/src/paging.rs:131-147 | A zeroed arena with one frame taken is a tree in which nothing translates. |
| PageSteps.BlockTaken | boot/loko-boot/src/paging.rs:230-253 | Given that every created page table is in use, a page-directory slot is taken exactly when some page of its 2 MiB translates. |
| Paging.PageTables.New | boot/loko-boot/src/paging.rs:131-147 | Refused exactly for a misaligned base or an empty arena, and then nothing is touched; otherwise a valid tree with only the root and no translation. |
| Paging.PageTables.TakeFrame | boot/loko-boot/src/paging.rs:163-170 | Hands out the next frame's address and bumps the counter, or reports exhaustion exactly when none is left. |
| Paging.PageTables.WriteEntry | boot/loko-boot/src/paging.rs:180-185 | Writes the one arena word that entry occupies and no other. |
| Paging.PageTables.Descend | boot/loko-boot/src/paging.rs:193-204 | Returns the child table, creating it if missing: every translation and entry is kept, Conflict exactly when a 2 MiB leaf is in the way, exhaustion only with every frame used, and a new table is empty. |
| Paging.PageTables.DescendToDirectory | boot/loko-boot/src/paging.rs:207-246 | The two descents to the page directory create exactly the missing tables of the chain, or run out with nothing translated differently. |
| Paging.PageTables.MapPage | boot/loko-boot/src/paging.rs:207-227 | For aligned addresses: Conflict exactly when the page already translates, otherwise ArenaExhausted exactly when the missing tables exceed the frames left; success adds exactly that page with exactly those permissions; failure changes no translation. Misaligned otherwise, with nothing changed. |
| Paging.PageTables.WriteSmall | boot/loko-boot/src/paging.rs:220-226 | The last step of the above, after the descents. |
| Paging.PageTables.MapHugePage | boot/loko-boot/src/paging.rs:230-253 | The same for 512 pages: Conflict exactly when some page of the 2 MiB already translates. |
| Paging.PageTables.WriteHuge | boot/loko-boot/src/paging.rs:242-252 | The last step of the above, after the descents. |
| Paging.PageTables.MapRange | boot/loko-boot/src/paging.rs:297-310 | Maps exactly the first `done` pages, all of them on success; pages mapped were free, all others are unchanged; every failure is located; success creates exactly the range's tables, and exhaustion means that those would not have fitted the arena. |
| Paging.PageTables.MapHugeRange | boot/loko-boot/src/paging.rs:257-270 | The same with 2 MiB pages. |
| Paging.PageTables.MapHugeRangeLenient | boot/loko-boot/src/paging.rs:278-294 | Never reports Conflict: each block is mapped if it was wholly free and left exactly as it was otherwise; on success the tables are exactly those of the range, and exhaustion means that they would not have fitted. |
| PageSteps.TakenHasChain | boot/loko-boot/src/paging.rs:278-294 | A block the lenient call skips has all its tables already. |
| Paging.PageTables.FramesUsed | boot/loko-boot/src/paging.rs:156-161 | Frames used are the tables created, never more than the arena has. |
| PageRuns.CallEffect | boot/loko-boot/src/paging.rs:207-253 | A refused call changes no translation; an accepted one maps pages that were free. |
| PageRuns.RunTranslation | boot/loko-boot/src/paging.rs:131-253 | Over every run of calls, each page translates as the only accepted call that covers it says, and not at all if there is none; no page is claimed twice. |
| PageRuns.RunTables | boot/loko-boot/src/paging.rs:163-204 | Over every run that does not exhaust the arena, the tables created are exactly the distinct ones on the way to accepted pages. |
| PageRuns.Replay | boot/loko-boot/src/paging.rs:131-253 | Any sequence of calls on real tables keeps the invariant and is a run in the above sense. |
| PageRuns.LinkedOnce | boot/loko-boot/src/paging.rs:193-204 | In every tree each table but the root is linked from exactly one entry, its own slot in its parent. |
| PageRuns.RootUnlinked | boot/loko-boot/src/paging.rs:131-147 | Nothing links to the root table. |
| PageRuns.EveryFrameHeld | boot/loko-boot/src/paging.rs:163-170 | Every frame taken holds a table; none is leaked. |
| Elf.SegmentAtMeaning | boot/loko-boot/src/elf.rs:191-221 | A header is refused exactly when it is a load header that does not fit the file or its own memory size; which bytes hold which field is `ElfLayout.HeaderRoundTrip`. |
| Elf.CountLoadable | boot/loko-boot/src/elf.rs:173-182 | The validation pass succeeds exactly when every load header fits, reports the first that does not, and counts above zero exactly when there is one. |
| Elf.Parse | boot/loko-boot/src/elf.rs:128-188 | On any buffer: success exactly for a good header, a table inside the file and load headers that all fit with at least one; every error exactly characterised; no read outside the buffer. |
| Elf.SegmentsAreLoadHeaders | boot/loko-boot/src/elf.rs:224-226 | After parsing, the error-dropping iterator yields exactly the PT_LOAD headers, in order; through the bytes, see `ElfLayout.SegmentsAreWritten`. |
| Elf.SegmentsFit | boot/loko-boot/src/elf.rs:224-232 | Every segment yielded lies inside the file, so `segment_data` never slices out of bounds. |
| Elf.AcceptedLoads | boot/loko-boot/src/elf.rs:183-185 | An accepted image has something to load. |
| Elf.ReadU64Bound | boot/loko-boot/src/elf.rs:253-270 | A little-endian read of eight bytes is a 64-bit number. |
| Elf.VirtualExtent | boot/loko-boot/src/elf.rs:238-250 | Aborts exactly when a segment ends at or beyond 2^64; otherwise the tight hull of the segments, except (0, 0) when all start at the last byte. |
| Elf.TopByteAccepted | boot/loko-boot/src/elf.rs:238-250 | A file of 120 bytes that `parse` accepts, whose only segment sits on the last byte: its hull is that address and not (0, 0). |
| Elf.ExtentOfTopByte | boot/loko-boot/src/elf.rs:128-250 | Parsing that file succeeds and its extent is reported as (0, 0), which is not the hull of its segments. |
| ElfLayout.WriteThenRead | boot/loko-boot/src/elf.rs:253-270 | A number written in any size, least significant byte first, is what the readers read. |
| ElfLayout.ReadThenWrite | boot/loko-boot/src/elf.rs:253-270 | Writing what was read gives back the bytes. |
| ElfLayout.HeaderRoundTrip | boot/loko-boot/src/elf.rs:191-221 | From the 56 bytes of a program header written field by field in the gABI order: the segment read has exactly those fields, None for another type, ImpossibleSegment and TruncatedSegment exactly when it does not fit. |
| ElfLayout.SomeHeader | boot/loko-boot/src/elf.rs:191-221 | Any 56 bytes are those of some program header, so the above covers every file. |
| ElfLayout.ImageRoundTrip | boot/loko-boot/src/elf.rs:128-171 | From the 64 bytes of a file header written field by field: the image has its entry point, table offset, count and size, and the header checks pass exactly for a 64-bit little-endian x86-64 executable. |
| ElfLayout.SomeFileHeader | boot/loko-boot/src/elf.rs:128-171 | Any 64 bytes are those of some file header. |
| ElfLayout.SegmentsAreWritten | boot/loko-boot/src/elf.rs:224-226 | The iterator yields the segments of exactly the load headers as they were written, in order. |
| ElfLayout.AcceptedAsWritten | boot/loko-boot/src/elf.rs:128-226 | A file is accepted exactly when its written header is an executable's, its load headers as written fit, and there is one; entry point and segments are then those written. |
| KernelImage.CopySegments | boot/loko-boot/src/main.rs:340-358 | Every byte of kernel memory is what the last segment occupying it says: file contents, then zeros; bytes of no segment are untouched. |
| KernelImage.CopiesIntact | boot/loko-boot/src/main.rs:340-358 | When no two segments share a byte, each is intact after all copies. |
| KernelImage.FlagsMeaning | boot/loko-boot/src/elf.rs:102-114 | The masks read bit 0 of the flags as execute and bit 1 as write. |
| KernelImage.MapSegment | boot/loko-boot/src/main.rs:368-389 | One segment is mapped whole, writable exactly when bit 1 of its flags is set and executable exactly when bit 0 is, or refused for a located reason. |
| KernelImage.MapKernel | boot/loko-boot/src/main.rs:362-391 | Success means that every page of every segment, and no other, was newly mapped with the rights its flag bits ask for, that no two segments share a page, and that exactly their tables were created; in an empty address space, short of exhaustion, success exactly when the segments are mappable; exhaustion means that the tables of the segments attempted would not have fitted. |
| KernelImage.KernelMappedStep | boot/loko-boot/src/main.rs:362-391 | Mapping one more segment extends the mapped kernel by it; what `MapKernel` accumulates. |
| AddressSpace.RoundDown | boot/loko-boot/src/main.rs:177-177 | Masking the low 21 bits rounds the framebuffer base down to 2 MiB. |
| AddressSpace.RamStage | boot/loko-boot/src/main.rs:159-166 | After the RAM stage the window shows exactly the 2 MiB blocks that hold RAM, read-write. |
| AddressSpace.FramebufferStage | boot/loko-boot/src/main.rs:168-187 | Every conflict the lenient call swallows already mapped the same physical address read-write; afterwards the window shows RAM and framebuffer. |
| AddressSpace.FinalStage | boot/loko-boot/src/main.rs:144-202 | After all four stages the translation of every page is exactly: kernel segments, window, read-execute low 4 GiB, nothing else. |
| AddressSpace.HighSegment | boot/loko-boot-protocol/src/lib.rs:43-44 | A segment in the top 2 GiB occupies a contiguous run of pages above the window. |
| ArenaBudget.KernelCoverSize | boot/loko-boot/src/paging.rs:313-319 | A kernel of at most 256 MiB in the top 2 GiB needs at most 133 tables. |
| Bootloader.WithinBudget | boot/loko-boot/src/paging.rs:313-319 | All four stages together create at most 209 tables, below the 256 of the arena, for RAM capped at 64 GiB, a kernel of 256 MiB and a framebuffer of 1 GiB. |
| Bootloader.MapWindow | boot/loko-boot/src/main.rs:159-166 | The RAM stage cannot conflict; it creates exactly its tables, or the arena is full and they would not have fitted. |
| Bootloader.MapFramebuffer | boot/loko-boot/src/main.rs:168-187 | The framebuffer stage cannot conflict; it creates exactly its tables, or the arena is full and they would not have fitted. |
| Bootloader.MapIdentity | boot/loko-boot/src/main.rs:199-202 | The identity stage cannot conflict; it creates exactly its tables, or the arena is full and they would not have fitted. |
| Bootloader.MapWindows | boot/loko-boot/src/main.rs:157-202 | The three stages after the kernel: success gives the boot address space and exactly the tables of all four stages; the only failure is that those tables outnumber the arena. |
| Bootloader.BuildAddressSpace | boot/loko-boot/src/main.rs:144-202 | Succeeds exactly when the segments are mappable and the tables of the four stages number at most 256; success gives exactly the boot address space and exactly those tables; exhaustion leaves the arena full and means that they number more; a modest machine is never exhausted and uses at most 209 frames. |
| Loading.SegmentReads | boot/loko-boot/src/main.rs:340-391 | Reading any address of a segment through the tables gives its file byte below the file size and zero up to the memory size. |
| Loading.PagesInsideAllocation | boot/loko-boot/src/main.rs:340-391 | Every kernel page is backed by a whole page of the kernel allocation. |
| Loading.SegmentRights | boot/loko-boot/src/main.rs:368-389 | In the finished address space every page of a segment is executable exactly when bit 0 of its flags is set and writable exactly when bit 1 is. |
| Loading.DisjointBytes | boot/loko-boot/src/main.rs:362-391 | Segments that `map_kernel` accepts share no byte, so the copies cannot have interfered. |
| Loading.WriteXorExecute | boot/loko-boot/src/main.rs:360-391 | In the finished address space no virtual page is both writable and executable; part of what `LoadAndStart` and `Boot` promise. |
| Loading.CopyAndMap | boot/loko-boot/src/main.rs:115-202 | For an image with an extent and room for it: success exactly when the segments are mappable and the tables fit; then the kernel is loaded as described below. |
| Loading.LoadAndStart | boot/loko-boot/src/main.rs:99-202 | End to end: succeeds exactly when the file parses, its extent fits physical memory, its segments can be mapped and all tables fit the arena; BadImage, overflow and lack of memory each exactly characterised, exhaustion only for more than 256 tables and never for a modest image; then the address space is the boot address space, every segment byte reads back, every kernel page is inside the allocation with the rights of its flag bits, and no page is writable and executable. |
| BootProtocol.ValidateMemoryMap | boot/loko-boot-protocol/src/lib.rs:393-423 | Ok exactly when the map is non-empty, every region is aligned, non-empty and non-wrapping, all pairs are ordered and disjoint, and some region is usable; each error exactly placed. |
| BootProtocol.UsableBytesOfValidMap | boot/loko-boot-protocol/src/lib.rs:377-386 | On a validated map the sum of usable lengths fits 64 bits and is at least one frame. |
| Frames.UsableBytesAreFrames | boot/loko-boot-protocol/src/lib.rs:377-386 | On an ordered map `usable_bytes` is 4096 times the number of distinct usable frames. |
| MemoryMap.InsertStep | boot/loko-boot/src/main.rs:552-572 | The inner loop inserts the element into the sorted prefix before it, in place, and leaves the rest alone. |
| MemoryMap.InsertionSort | boot/loko-boot/src/main.rs:552-572 | In place, the first `count` elements become their sorted form and the rest is untouched. |
| MemoryMap.SortMeaning | boot/loko-boot/src/main.rs:552-572 | The sorted form is an ascending permutation. |
| MemoryMap.SortStable | boot/loko-boot/src/main.rs:552-572 | Regions that start at the same address keep their order. |
| MemoryMap.ConvertMemoryMap | boot/loko-boot/src/main.rs:510-575 | The array holds the sorted converted non-empty descriptors, the first ones when capacity is short, and is untouched beyond them; only page counts that are reached must not overflow. |
| MemoryMap.SortOrdered | boot/loko-boot/src/main.rs:552-572 | Sorted regions are ordered and disjoint exactly when the regions were pairwise apart, in any order. |
| MemoryMap.SortedIsValid | boot/loko-boot-protocol/src/lib.rs:393-423 | The kernel accepts the sorted map exactly when the regions are well formed, pairwise apart and include usable memory. |
| MemoryMap.SoundMapAccepted | boot/loko-boot/src/main.rs:510-575 | For any order of descriptors whose non-empty ones are aligned, non-wrapping and pairwise disjoint, with conventional memory among them, within capacity, the kernel accepts the result. |
| MemoryMap.HighestRamAddress | boot/loko-boot/src/main.rs:426-441 | The highest end of installed memory (types 1 to 7, 9, 10 and 14), capped; zero only when there is none; other descriptors are not looked at. |
| MemoryMap.KindMeaning | boot/loko-boot/src/main.rs:518-533 | Which firmware type numbers become which kind of region. |
| MemoryMap.InstalledMeaning | boot/loko-boot/src/main.rs:403-417 | The allow-list of installed memory by type number: neither reserved ranges, failed memory nor device apertures. |
| Frames.FrameAllocator.New | kernel/loko-memory/src/lib.rs:98-112 | Refused exactly when the bitmap is too small; otherwise every frame is taken. |
| Frames.FrameAllocator.Get | kernel/loko-memory/src/lib.rs:165-167 | The bit test is membership in the set of taken frames. |
| Frames.FrameAllocator.Set | kernel/loko-memory/src/lib.rs:169-177 | The masked write adds or removes exactly that frame. |
| Frames.FrameAllocator.Release | kernel/loko-memory/src/lib.rs:184-191 | Removes the frame from the set; the count stays the cardinality and never underflows. |
| Frames.FrameAllocator.Reserve | kernel/loko-memory/src/lib.rs:196-203 | Adds the frame to the set; the count stays the cardinality. |
| Frames.FrameAllocator.ReserveRange | kernel/loko-memory/src/lib.rs:206-217 | Takes exactly the managed frames the byte range touches. |
| Frames.TouchesMeaning | kernel/loko-memory/src/lib.rs:206-217 | For a range inside the address space those are the frames that overlap it. |
| Frames.FrameAllocator.FirstAllocatedIn | kernel/loko-memory/src/lib.rs:262-264 | The lowest taken frame of the range, or none exactly when it is free. |
| Frames.FrameAllocator.SearchFrom | kernel/loko-memory/src/lib.rs:239-257 | One pass finds the lowest free run at or above its start, or none exactly when there is none: skipping past a blocker misses no start. |
| Frames.FrameAllocator.FindRun | kernel/loko-memory/src/lib.rs:227-259 | Two passes find the lowest run at or after the cursor, failing that the lowest anywhere, failing exactly when there is none. |
| Frames.FrameAllocator.AllocateContiguous | kernel/loko-memory/src/lib.rs:227-259 | Refused exactly for a count of zero or when no free run exists; otherwise takes exactly the run the two passes choose and moves the cursor past it. |
| Frames.FrameAllocator.MarkRun | kernel/loko-memory/src/lib.rs:245-251 | Marking the run adds exactly its frames. |
| Frames.FrameAllocator.Allocate | kernel/loko-memory/src/lib.rs:220-222 | Fails exactly when every frame is taken; otherwise takes the frame the search chooses. |
| Frames.FrameAllocator.Free | kernel/loko-memory/src/lib.rs:270-283 | OutOfRange, NotAllocated and success exactly; removes the frame and lowers the cursor to it. |
| Frames.FrameAllocator.FreeContiguous | kernel/loko-memory/src/lib.rs:286-301 | All or nothing: succeeds exactly when every frame of the run is held, and otherwise reports the first that is not and changes nothing. |
| Frames.FrameAllocator.CheckHeld | kernel/loko-memory/src/lib.rs:287-296 | The first pass: reports the first frame of the run that is not held. |
| Frames.FrameAllocator.ReleaseRun | kernel/loko-memory/src/lib.rs:297-299 | The second pass: frees exactly the run, the cursor ending at its start if that is lower. |
| Frames.FrameAllocator.IsAllocated | kernel/loko-memory/src/lib.rs:304-306 | None exactly outside the managed range; otherwise membership. |
| Frames.FrameAllocator.FreeFrames | kernel/loko-memory/src/lib.rs:322-324 | The managed frames not in the set. |
| Frames.FrameAllocator.Audit | kernel/loko-memory/src/lib.rs:338-341 | True exactly when the running count is the cardinality of the set, which every operation keeps. |
| Frames.ReleaseRegion | kernel/loko-memory/src/lib.rs:141-148 | Frees exactly the managed frames of one region. |
| Frames.ReleaseUsable | kernel/loko-memory/src/lib.rs:140-149 | Frees exactly the managed frames of usable regions. |
| Frames.HighestOf | kernel/loko-memory/src/lib.rs:124-124 | The highest clamped end of a region. |
| Frames.ManagedMeaning | kernel/loko-memory/src/lib.rs:124-136 | A frame is managed exactly when the bitmap has a bit for it and it ends below 2^64 and by the end of some region. |
| Frames.UsableMeaning | kernel/loko-memory/src/lib.rs:139-149 | In a well-formed map the frames released are exactly those that lie whole in a Usable region. |
| Frames.FromMemoryMap | kernel/loko-memory/src/lib.rs:120-151 | Always succeeds; manages exactly the frames that have a bit and end by the end of some region, and of those exactly the frames of Usable regions are free. |
| Frames.FreeFramesAreUsable | kernel/loko-memory/src/lib.rs:120-151 | On a validated map no frame is counted twice: the usable frames number the sum over regions of their clamped frame counts. |
| Frames.FreeAfterMap | kernel/loko-memory/src/lib.rs:322-324 | So `free_frames` after `from_memory_map` is that sum. |
| AllocatorRuns.RunKeepsConsistent | kernel/loko-memory/src/lib.rs:220-301 | Over every run of a client that returns only what it holds, whole extents or parts of them, what is outstanding stays pairwise disjoint and apart from what was reserved, and nothing else is taken. |
| AllocatorRuns.PartKeeps | kernel/loko-memory/src/lib.rs:270-301 | Returning one frame, or any run from the middle of a held extent, leaves its two ends held and everything else as it was. |
| AllocatorRuns.OutstandingCounted | kernel/loko-memory/src/lib.rs:220-301 | Conservation: frames taken are those reserved plus those outstanding, each counted once. |
| AllocatorRuns.AllReturned | kernel/loko-memory/src/lib.rs:286-301 | However it split and returned what it held, a client that holds no frame leaves exactly what was reserved. |
| AllocatorRuns.BorrowAndReturn | kernel/loko-memory/src/lib.rs:227-301 | Freeing what an allocation returned restores the set it changed. |
| AllocatorRuns.ServeOne | kernel/loko-memory/src/lib.rs:220-301 | One request on a real allocator: served whenever a free run exists or the frames are held, otherwise without effect. |
| AllocatorRuns.Serve | kernel/loko-memory/src/lib.rs:220-301 | Any sequence of requests on a real allocator is a run in the above sense; frames taken are those taken before plus those outstanding, and none outstanding means that nothing changed. |
| KernelSetup.UnusableFrames | kernel/loko-kernel/src/main.rs:211-215 | On a validated map a region that is not usable has no usable frame. |
| KernelSetup.InUseMeaning | kernel/loko-kernel/src/main.rs:204-219 | A frame counts as in use exactly when it is frame 0 or one of its bytes belongs to the kernel image or the framebuffer. |
| KernelSetup.ReserveBootloader | kernel/loko-kernel/src/main.rs:211-215 | Reserving the bootloader's regions changes nothing. |
| KernelSetup.SetupMemory | kernel/loko-kernel/src/main.rs:164-227 | A managed frame is free exactly when it lies in a usable region, is not frame 0 and overlaps neither kernel image nor framebuffer; neither failure branch, the audit's included, can be reached. |
| KernelSetup.SetupHeap | kernel/loko-kernel/src/main.rs:230-252 | Fails exactly when no free run of 256 frames exists; otherwise the heap is such a run, now taken. |
| KernelSetup.StartKernel | kernel/loko-kernel/src/main.rs:72-160 | Rejected exactly for maps that fail the check; the heap's frames are usable and overlap nothing in use, and none such exist when memory is reported short. |
| Handover.UsableIsRam | boot/loko-boot/src/main.rs:426-441 | A managed usable frame lies below the RAM the bootloader mapped, if conventional memory of the final map was installed memory earlier. |
| Handover.RamUnique | boot/loko-boot/src/main.rs:426-441 | What `highest_ram_address` answers is determined by the map. |
| Handover.WindowShows | boot/loko-boot/src/main.rs:159-166 | The window shows every RAM frame read-write at its own offset. |
| Handover.WindowByte | boot/loko-boot/src/main.rs:159-187 | Every byte of RAM and of the framebuffer is translated read-write at its place in the window. |
| Handover.IdentityByte | boot/loko-boot/src/main.rs:189-202 | Every byte of the low 4 GiB is translated to itself, read-execute. |
| Handover.HeapIsMapped | kernel/loko-kernel/src/main.rs:230-252 | Every byte of the heap lies in a Usable region, outside the first frame, the kernel image and the framebuffer, and is translated read-write to the frame the allocator returned. |
| Handover.StartFrom | boot/loko-boot/src/main.rs:510-575 | From any final firmware map: rejected exactly when its converted regions are not acceptable to the kernel, never for a sound map within capacity; otherwise the heap is placed, or no place exists. |
| Handover.Boot | boot/loko-boot/src/main.rs:99-202 | The whole boot: it stops in the bootloader exactly when the file cannot be loaded at that place on that machine, in the kernel's check exactly when the final map is not acceptable, and otherwise only when no place for the heap exists; success means both that the kernel reads back exactly through its tables, with no page writable and executable, and that its heap is ready. |
| LkoRoot.ParseRootMeaning | filesystem/lkofs-core/src/root.rs:207-215 | A text names a root exactly when it is that root's name up to ASCII case. |
| LkoRoot.RootNamesDistinct | filesystem/lkofs-core/src/root.rs:172-194 | No two roots share a name up to case. |
| LkoRoot.ParseRootFolds | filesystem/lkofs-core/src/root.rs:207-215 | Changing ASCII case does not change which root is named. |
| LkoRoot.LowerMeaning | filesystem/lkofs-core/src/root.rs:207-215 | Two characters fold alike exactly when they are equal or the two cases of one ASCII letter. |
| LkoPath.ComponentAccepted | filesystem/lkofs-core/src/path.rs:118-159 | The ordered checks accept exactly the names of 1 to 255 bytes without separators, without forbidden code points (listed by number) and without a trailing space or dot. |
| LkoPath.FirstFaultMeaning | filesystem/lkofs-core/src/path.rs:134-150 | The fault reported is that of the first character that is a control, a separator or one of the eleven reordering code points. |
| LkoPath.ComponentFault | filesystem/lkofs-core/src/path.rs:118-159 | Which fault of a name is reported, for each error. |
| LkoPath.Utf8Length | filesystem/lkofs-core/src/path.rs:122-123 | A character counts as many bytes as its UTF-8 form, which reads back as the character. |
| LkoPath.SplitOfJoin | filesystem/lkofs-core/src/path.rs:249-253 | Splitting undoes joining for names without separators. |
| LkoPath.JoinOfSplit | filesystem/lkofs-core/src/path.rs:249-253 | Joining undoes splitting for every text. |
| LkoPath.BodyOfSpelling | filesystem/lkofs-core/src/path.rs:473-481 | The canonical body of either spelling, with or without a trailing separator, is the joined components. |
| LkoPath.SliceInBounds | filesystem/lkofs-core/src/path.rs:291-309 | The offset arithmetic of `parent` never slices beyond the raw text, in either spelling. |
| PathLaws.ParseAccepts | filesystem/lkofs-core/src/path.rs:185-229 | `parse` accepts exactly the spellings of the volume root and of valid components under a known root, within the length limit. |
| PathLaws.ParsedIsWellFormed | filesystem/lkofs-core/src/path.rs:185-229 | A parsed path is the volume root or keeps its text, with valid components under its root. |
| PathLaws.SpellingParses | filesystem/lkofs-core/src/path.rs:185-229 | Every short enough spelling of valid components parses to them. |
| PathLaws.ParseRefuses | filesystem/lkofs-core/src/path.rs:185-207 | Exactly when a text is refused as too long or for want of a prefix, and that a backslash refuses any other. |
| PathLaws.UnknownRootRefused | filesystem/lkofs-core/src/path.rs:208-225 | Valid names under no known root are refused for the root, by whether it is ASCII. |
| PathLaws.PrintThenParse | filesystem/lkofs-core/src/path.rs:320-345 | Parsing the printed form gives the owned path with the same root and components exactly when it fits the limit, TooLong otherwise; printing is a fixed point. |
| PathLaws.PrintGrowsByThree | filesystem/lkofs-core/src/path.rs:335-345 | The printed form is at most three bytes longer than the input. |
| PathLaws.TooLongToPrint | filesystem/lkofs-core/src/path.rs:320-332 | A path of exactly 4096 bytes parses and its printed form does not. |
| PathLaws.ParentMeaning | filesystem/lkofs-core/src/path.rs:291-309 | In either spelling the parent has all components but the last; only the volume root has none. |
| PathLaws.AncestorMeaning | filesystem/lkofs-core/src/path.rs:291-309 | After `k` steps up the first components remain. |
| PathLaws.ChainLength | filesystem/lkofs-core/src/path.rs:291-309 | The chain of parents reaches the volume root in exactly `depth` steps. |
| PathLaws.JoinAccepts | filesystem/lkofs-core/src/path.rs:392-409 | `join` succeeds exactly for a valid name that fits and, at the volume root, names a root. |
| PathLaws.JoinRefuses | filesystem/lkofs-core/src/path.rs:392-409 | A name that is not joined is refused for its own fault, then for length, then for the root. |
| PathLaws.JoinMeaning | filesystem/lkofs-core/src/path.rs:392-409 | A joined path has the component appended, reparses to itself, and its parent has the original components. |
| PathLaws.CheckWithin | filesystem/lkofs-core/src/path.rs:276-285 | The loop over both iterators decides containment by components. |
| PathLaws.WithinIsLeads | filesystem/lkofs-core/src/path.rs:276-285 | Containment is being a leading part name by name up to case, never a string prefix. |
| PathLaws.WithinIsAncestry | filesystem/lkofs-core/src/path.rs:276-309 | `a.is_within(b)` exactly when some number of parent steps from `a` reaches `b` up to ASCII case. |
| PathLaws.WithinIsPreorder | filesystem/lkofs-core/src/path.rs:276-285 | Containment is reflexive and transitive with the volume root on top, and mutual only for the same place. |
| PathLaws.SamePlaceIsFolded | filesystem/lkofs-core/src/path.rs:276-285 | Two paths are the same place exactly when their case-folded components are equal. |
| Policy.SamePlaceFacts | filesystem/lkofs-core/src/policy.rs:233-268 | Paths with the same components up to case have the same root, tail names and covering grants. |
| Policy.EvaluateIgnoresCase | filesystem/lkofs-core/src/policy.rs:295-441 | Paths whose case-folded components are equal get the same decision, whatever their spelling. |
| Policy.GrantsOnlyLiftNoGrant | filesystem/lkofs-core/src/policy.rs:233-235 | Adding or widening grants changes nothing but a refusal for want of a grant; when there is such a refusal is `PolicyLaws.OwnedNeedsGrant`. |
| PolicyLaws.RootByName | filesystem/lkofs-core/src/root.rs:172-215 | The root of a path is the one its first component names, for each of the nineteen names. |
| PolicyLaws.ProtectionByName | filesystem/lkofs-core/src/policy.rs:244-268 | Exactly which names make a place immutable, owned by the user, scratch or managed by the system. |
| PolicyLaws.EvaluateByName | filesystem/lkofs-core/src/policy.rs:295-441 | For every role, place and operation the ordered rules give the verdict of a table by role and names: own places of drivers and sandboxed applications, grants for what users own, reasons of every refusal, prompts for AI, foreign applications and permission changes. |
| PolicyLaws.TextByName | filesystem/lkofs-core/src/policy.rs:295-441 | The same from any text that spells the names, in either spelling. |
| PolicyLaws.ImmutableText | filesystem/lkofs-core/src/policy.rs:305-316 | A text under immutable names parses, and changing it is allowed to the kernel and an open update transaction and refused to everyone else. |
| PolicyLaws.ImmutableExactly | filesystem/lkofs-core/src/policy.rs:305-316 | No other rule refuses a place as protected. |
| PolicyLaws.OwnedNeedsGrant | filesystem/lkofs-core/src/policy.rs:411-418 | What the user owns is refused for want of a grant exactly to the roles that need one when no grant leads to it. |
| PolicyLaws.GrantDecides | filesystem/lkofs-core/src/policy.rs:411-418 | In the user's own home an application or AI reads exactly what some grant's components lead to. |
| PolicyLaws.HomesAreSeparate | filesystem/lkofs-core/src/policy.rs:341-354 | Another user's home is refused as CrossUser whatever was granted, except to kernel, system roles and (as RoleForbidden) drivers. |
| PolicyLaws.AiAsksExceptInScratch | filesystem/lkofs-core/src/policy.rs:425-431 | Loko AI changes what exists without asking exactly under Temp and Cache; anywhere else it is asked or refused. |
| PolicyLaws.AiWritesScratch | filesystem/lkofs-core/src/policy.rs:356-361 | A text that parses and on which AI overwrites unasked. |
| PolicyLaws.PermissionChangeUnasked | filesystem/lkofs-core/src/policy.rs:420-423 | Exactly when a change of permissions is allowed without asking. |
| PolicyLaws.AppChangesScratchPermissions | filesystem/lkofs-core/src/policy.rs:356-361 | A text that parses and on which an application changes permissions unasked. |
| AppPermissions.Record.constructor | security/loko-security/src/permission.rs:304-313 | Declares exactly the manifest's permissions, with nothing asked. |
| AppPermissions.Record.DecideFor | security/loko-security/src/permission.rs:336-342 | A prompt sets only that permission, only if declared, capped at what a prompt may give. |
| AppPermissions.PromptCap | security/loko-security/src/permission.rs:177-183 | The cap on a prompt turns Always into WhileInUse for camera, microphone, location, screen capture and clipboard, and changes nothing else. |
| AppPermissions.Record.SetFromSettings | security/loko-security/src/permission.rs:349-354 | Settings sets only that permission, only if declared, uncapped. |
| AppPermissions.Record.RevokeNow | security/loko-security/src/permission.rs:361-363 | Revocation refuses that permission, declared or not, and no other. |
| AppPermissions.Record.EndTheSession | security/loko-security/src/permission.rs:366-372 | One-time grants are forgotten and nothing else. |
| AppPermissions.Record.Play | security/loko-security/src/permission.rs:301-372 | Any history of events leaves each permission as the per-permission history says. |
| AppPermissions.LastSetterDecides | security/loko-security/src/permission.rs:336-372 | Over every history the last event that set a permission fixes its state, one-time grants expiring with the session. |
| AppPermissions.UnsetIsUnchanged | security/loko-security/src/permission.rs:336-372 | A permission no event set is as it was, but for an expired one-time grant. |
| AppPermissions.CovertInBackground | security/loko-security/src/permission.rs:177-210 | Camera, microphone, location, screen capture and clipboard work in the background exactly when declared and their latest change was a Settings grant of Always. |
| AppPermissions.PromptedAlways | security/loko-security/src/permission.rs:336-401 | After a prompt answered with Always a permission works in the background exactly if it is not one of those five. |
| AppPermissions.StandingDecides | security/loko-security/src/permission.rs:336-372 | The state of a declared permission is what its standing event left, and is not asked exactly when there is none. |
| AppPermissions.UseAfter | security/loko-security/src/permission.rs:301-401 | A record made from a manifest, any history, then a use: NotDeclared exactly for what the manifest lacks; prompted exactly when declared, enabled and nothing stands; allowed in the foreground exactly when what stands is not a refusal and in the background exactly when it is Always, which for the five covert permissions takes a latest Settings grant. |
| AppPermissions.RefusalIsRemembered | security/loko-security/src/permission.rs:376-401 | After a refusal or a revocation the user is not prompted again until something sets the permission. |

## Left out

- Firmware calls (file reading, graphics and ACPI look-up, `exit_boot_services`), the `cr3` switch and the model-specific registers: their results are parameters.
- Fresh, disjoint, zeroed allocations from `allocate_pages`: the arena, the kernel's memory, the map array and the bitmap are separate arrays; disjointness of their physical addresses is assumed.
- `BootInfo::validate`'s magic, version, size and pointer checks: the model starts at its memory-map check.
- Overflow: the build enables overflow checks, so an overflowing addition stops the program. Where a caller can provoke it the model answers `Aborted` or `None`; elsewhere a `requires` says what the source needs (physical addresses below 2^52, `page_count * 4096` below 2^64, ranges that do not wrap).
- Loading.LoadAndStart: takes the kernel to be linked for the top 2 GiB and the framebuffer window to end below it, as the linker script and the protocol's constants have it; the stack, region and boot-information allocations are not modelled.
- Handover.Boot: takes conventional memory of the final map to lie within installed memory seen earlier, which firmware promises and nothing checks.
- Aliasing of physical memory: the RAM window and the identity map show the same frames by design, so write-xor-execute is stated per virtual page.
- Paging.PageTables.Descend: takes a `ghost` node naming the table it is given; the source reaches tables by pointer alone.
- The shared or nested loops of `map_page`, `map_huge_page`, `allocate_contiguous`, `free_contiguous` and `from_memory_map` are separate methods here.
- PathLaws.ParentMeaning: is for paths that `parse`, `join` or `parent` produced; the source's fields are private, so there are no others.
- UTF-8: names are sequences of characters with a byte-length function; decoding of malformed bytes is not modelled.
- GDT, IDT, serial port, logging, heap internals, painting and the stop screen: output or foreign code.
- Error texts, labels, descriptions, storage categories, `indexed_by_default`, capability and syscall tables, install evaluation: finite tables that would add only easy members.
- `kernel/loko-kernel/src/syscall.rs`: every call answers NotImplemented.
- Build tools and scripts.
