/**
 Across the handover: the addresses the kernel computes in the physical-memory window are mapped, by
 the tables the bootloader built earlier, to the frames its own allocator chose.
 */
module Handover {
  import opened Results
  import opened Words
  import opened Arithmetic
  import opened PageEntry
  import opened PageTree
  import opened PageSteps
  import opened Paging
  import opened Elf
  import opened KernelImage
  import opened AddressSpace
  import opened BootProtocol
  import opened MemoryMap
  import opened Frames
  import opened KernelSetup
  import opened Loading

  /** `ram` is what `highest_ram_address` answered for the map `seen`. */
  ghost predicate RamOf(seen: seq<Descriptor>, ram: nat) {
    && ram <= MAX_MAPPED_PHYSICAL
    && (forall d :: d in seen && InstalledType(d.ty) ==> DescriptorEnd(d) <= ram || ram == MAX_MAPPED_PHYSICAL)
    && (ram == 0 || exists d :: d in seen && InstalledType(d.ty) && ram == Capped(DescriptorEnd(d)))
  }

  function Capped(end: nat): nat { if end < MAX_MAPPED_PHYSICAL then end else MAX_MAPPED_PHYSICAL }

  /** There is one such answer. */
  lemma RamUnique(seen: seq<Descriptor>, a: nat, b: nat)
    requires RamOf(seen, a) && RamOf(seen, b)
    ensures a == b
  {
  }

  /** Conventional memory in the final map reaches no higher than installed memory seen earlier. */
  ghost predicate RamSeen(seen: seq<Descriptor>, final: seq<Descriptor>) {
    forall d :: d in final && d.ty == CONVENTIONAL ==>
                  exists e :: e in seen && InstalledType(e.ty) && DescriptorEnd(d) <= DescriptorEnd(e)
  }

  /** A usable frame of the converted map lies in conventional memory of the firmware map. */
  lemma UsableIsConventional(final: seq<Descriptor>, capacity: nat, f: nat)
    requires InUsable(SortByStart(Fitting(Converted(final), capacity)), f)
    ensures exists d :: d in final && d.ty == CONVENTIONAL
              && d.physStart / FRAME_SIZE <= f < d.physStart / FRAME_SIZE + d.pageCount
  {
    var kept := Fitting(Converted(final), capacity);
    var regions := SortByStart(kept);
    var k :| 0 <= k < |regions| && InRegion(regions[k], f);
    SortMembers(kept);
    assert regions[k] in kept;
    assert regions[k] in Converted(final);
    ConvertedMembers(final);
    var d :| d in final && RegionOf(d) == regions[k];
    assert d.Bytes() / FRAME_SIZE == d.pageCount;
  }

  /** A managed usable frame is below the RAM the bootloader mapped. */
  lemma UsableIsRam(seen: seq<Descriptor>, final: seq<Descriptor>, capacity: nat, ram: nat, f: nat)
    requires RamOf(seen, ram) && RamSeen(seen, final)
    requires InUsable(SortByStart(Fitting(Converted(final), capacity)), f) && f < MAX_MANAGED_MEMORY / FRAME_SIZE
    ensures f * FRAME_SIZE < ram
  {
    hide InUsable, SortByStart, Converted;
    UsableIsConventional(final, capacity, f);
    var d :| d in final && d.ty == CONVENTIONAL
        && d.physStart / FRAME_SIZE <= f < d.physStart / FRAME_SIZE + d.pageCount;
    assert f * FRAME_SIZE < DescriptorEnd(d);
  }

  /** The window shows frame `f` of RAM at page `WINDOW + f`, read-write. */
  lemma WindowShows(b: Arena, segments: seq<Segment>, low: nat, physical: nat, ram: nat, fb: Framebuffer, f: nat)
    requires HighSegments(segments, low) && AllMappable(segments, low, physical)
    requires BootSpace(b, segments, low, physical, ram, fb)
    requires f * FRAME_SIZE < ram <= MAX_MAPPED_PHYSICAL
    ensures WINDOW + f < PAGES && Walk(b, WINDOW + f) == Some(Mapping(FRAME_SIZE * f, Permissions(true, false)))
  {
    hide Walk, BothRights, PageOf, PagesOf, PagesDisjoint, InSegment;
    var q := WINDOW + f;
    forall s | s in segments
      ensures !InSegment(s, q)
    {
      assert Mappable(s, low, physical);
      HighSegment(s);
    }
    assert Walk(b, q) == Outside(q, ram, fb);
  }

  lemma WindowAddress(f: nat, i: nat)
    requires f < WINDOW && i < FRAME_SIZE && PHYSICAL_OFFSET + f * FRAME_SIZE + i < WORD
    ensures PageOf(PHYSICAL_OFFSET + f * FRAME_SIZE + i) == WINDOW + f
    ensures (PHYSICAL_OFFSET + f * FRAME_SIZE + i) % PAGE_SIZE == i
  {
    var v := 0xF_FFF8_0000_0000 + f;
    assert PHYSICAL_OFFSET + f * FRAME_SIZE + i == PAGE_SIZE * v + i;
    QuotientUnique(PAGE_SIZE * v + i, PAGE_SIZE, v, i);
    QuotientUnique(v, PAGES, 0xFFFF, WINDOW + f);
  }

  /** Address `address` is translated to `x` with exactly the rights `p`. */
  predicate ShownAs(b: Arena, address: nat, x: nat, p: Permissions) {
    && Translate(b, address) == Some(x)
    && Walk(b, PageOf(address)).Some? && Walk(b, PageOf(address)).value.permissions == p
  }

  /** A page below the kernel translates as the window and the identity map say. */
  lemma BelowKernel(b: Arena, segments: seq<Segment>, low: nat, physical: nat, ram: nat, fb: Framebuffer, q: nat)
    requires HighSegments(segments, low) && AllMappable(segments, low, physical)
    requires BootSpace(b, segments, low, physical, ram, fb) && q < WINDOW + WINDOW_BYTES / PAGE_SIZE
    ensures q < PAGES && Walk(b, q) == Outside(q, ram, fb)
  {
    hide Walk, BothRights, PageOf, PagesOf, PagesDisjoint, InSegment;
    forall s | s in segments
      ensures !InSegment(s, q)
    {
      assert Mappable(s, low, physical);
      HighSegment(s);
    }
  }

  /** Every byte of RAM and of the framebuffer is read-write at its place in the window. */
  lemma WindowByte(b: Arena, segments: seq<Segment>, low: nat, physical: nat, ram: nat, fb: Framebuffer, x: nat)
    requires HighSegments(segments, low) && AllMappable(segments, low, physical)
    requires BootSpace(b, segments, low, physical, ram, fb)
    requires ram <= MAX_MAPPED_PHYSICAL && (fb.IsPresent() ==> ScreenFits(fb))
    requires x < ram || (fb.base != 0 && fb.base <= x < fb.base + fb.size)
    ensures ShownAs(b, PHYSICAL_OFFSET + x, x, Permissions(true, false))
  {
    hide Walk, BootSpace, AllMappable, HighSegments, PageOf;
    var f, i := x / FRAME_SIZE, x % FRAME_SIZE;
    assert x == f * FRAME_SIZE + i && x < WINDOW_BYTES;
    assert BlockTouches(f, 0, ram) || (fb.base != 0 && fb.size != 0 && BlockTouches(f, fb.base, fb.size)) by {
      BlockAround(x);
    }
    BelowKernel(b, segments, low, physical, ram, fb, WINDOW + f);
    WindowAddress(f, i);
  }

  lemma BlockAround(x: nat)
    ensures x / FRAME_SIZE / 512 * HUGE_PAGE_SIZE <= x < x / FRAME_SIZE / 512 * HUGE_PAGE_SIZE + HUGE_PAGE_SIZE
  {
  }

  /** Every byte of the low 4 GiB is at its own address, read-execute. */
  lemma IdentityByte(b: Arena, segments: seq<Segment>, low: nat, physical: nat, ram: nat, fb: Framebuffer, x: nat)
    requires HighSegments(segments, low) && AllMappable(segments, low, physical)
    requires BootSpace(b, segments, low, physical, ram, fb) && x < 0x1_0000_0000
    ensures ShownAs(b, x, x, Permissions(false, true))
  {
    hide Walk, BootSpace, AllMappable, HighSegments;
    BelowKernel(b, segments, low, physical, ram, fb, x / PAGE_SIZE);
  }

  /**
   Every byte of the heap lies in usable memory and is translated, read-write, to the frame that the
   allocator returned.
   */
  lemma HeapIsMapped(b: Arena, segments: seq<Segment>, low: nat, physical: nat, ram: nat, fb: Framebuffer,
                     seen: seq<Descriptor>, final: seq<Descriptor>, capacity: nat, info: BootInfo, first: nat, k: nat)
    requires HighSegments(segments, low) && AllMappable(segments, low, physical)
    requires BootSpace(b, segments, low, physical, ram, fb)
    requires RamOf(seen, ram) && RamSeen(seen, final)
    requires info.regions == SortByStart(Fitting(Converted(final), capacity))
    requires info.physicalMemoryOffset == PHYSICAL_OFFSET
    requires HeapPlaced(info, BITMAP_WORDS, first) && k < HEAP_SIZE
    requires forall j :: 0 <= j < |info.regions| ==> WellFormed(info.regions[j])
    ensures
      var address := info.physicalMemoryOffset + first * FRAME_SIZE + k;
      && FreeByte(info, first * FRAME_SIZE + k)
      && Translate(b, address) == Some(first * FRAME_SIZE + k)
      && Walk(b, PageOf(address)).Some? && Walk(b, PageOf(address)).value.permissions == Permissions(true, false)
  {
    hide Walk, BootSpace, AllMappable, InUsable, InUse, SortByStart, Converted, Fitting, HighestEnd, RamOf, RamSeen;
    hide PageOf;
    var f, i := first + k / FRAME_SIZE, k % FRAME_SIZE;
    assert first * FRAME_SIZE + k == f * FRAME_SIZE + i;
    assert (first * FRAME_SIZE + k) / FRAME_SIZE == f by { QuotientUnique(f * FRAME_SIZE + i, FRAME_SIZE, f, i); }
    assert IsManaged(info.regions, BITMAP_WORDS, f) && InUsable(info.regions, f) && !InUse(info, f);
    assert f < MAX_MANAGED_MEMORY / FRAME_SIZE;
    UsableIsRam(seen, final, capacity, ram, f);
    RamCap(seen, ram);
    ByteOfFrame(info, f, i);
    WindowShows(b, segments, low, physical, ram, fb, f);
    WindowAddress(f, i);
  }

  /** The byte at physical address `x` is usable memory outside the first frame, the kernel and the framebuffer. */
  ghost predicate FreeByte(info: BootInfo, x: nat) {
    && (exists j :: && 0 <= j < |info.regions| && info.regions[j].kind == Usable
                    && info.regions[j].start <= x < info.regions[j].start + info.regions[j].len)
    && x >= FRAME_SIZE && !ByteInUse(info, x)
  }

  lemma ByteOfFrame(info: BootInfo, f: nat, i: nat)
    requires forall j :: 0 <= j < |info.regions| ==> WellFormed(info.regions[j])
    requires InUsable(info.regions, f) && !InUse(info, f) && i < FRAME_SIZE && f * FRAME_SIZE + i < WORD
    ensures FreeByte(info, f * FRAME_SIZE + i)
  {
    var j :| 0 <= j < |info.regions| && InRegion(info.regions[j], f);
    assert WellFormed(info.regions[j]);
    var x := f * FRAME_SIZE + i;
    assert info.regions[j].start <= x < info.regions[j].start + info.regions[j].len;
    NotInRange(f, i, info.kernelPhysicalBase, info.kernelSize);
    NotInRange(f, i, info.framebuffer.base, info.framebuffer.size);
  }

  lemma NotInRange(f: nat, i: nat, start: nat, len: nat)
    requires i < FRAME_SIZE && f * FRAME_SIZE + i < WORD
    ensures !Touches(f, start, len) ==> !(start <= f * FRAME_SIZE + i < start + len)
  {
  }

  lemma RamCap(seen: seq<Descriptor>, ram: nat)
    requires RamOf(seen, ram)
    ensures ram <= MAX_MAPPED_PHYSICAL
  {
  }

  datatype BootError = LoadFailed(load: LoadError) | StartFailed(start: StartError)

  /** The heap at `heap` is backed, read-write, by usable frames that overlap nothing in use. */
  ghost predicate HeapReady(b: Arena, info: BootInfo, first: nat, heap: nat) {
    forall k: nat :: k < HEAP_SIZE ==> HeapByte(b, info, first, heap, k)
  }

  ghost predicate HeapByte(b: Arena, info: BootInfo, first: nat, heap: nat, k: nat) {
    && FreeByte(info, first * FRAME_SIZE + k)
    && Translate(b, heap + k) == Some(first * FRAME_SIZE + k)
    && Walk(b, PageOf(heap + k)).Some? && Walk(b, PageOf(heap + k)).value.permissions == Permissions(true, false)
  }

  lemma HeapIsReady(b: Arena, data: seq<Byte>, memory: seq<Byte>, low: nat, physical: nat, ram: nat, fb: Framebuffer,
                    seen: seq<Descriptor>, final: seq<Descriptor>, capacity: nat, info: BootInfo, first: nat, heap: nat)
    requires |data| < WORD && Accepted(data) && Loaded(b, data, memory, low, physical, ram, fb)
    requires RamOf(seen, ram) && RamSeen(seen, final)
    requires info.regions == SortByStart(Fitting(Converted(final), capacity))
    requires info.physicalMemoryOffset == PHYSICAL_OFFSET && HeapPlaced(info, BITMAP_WORDS, first)
    requires heap == PHYSICAL_OFFSET + first * FRAME_SIZE && Acceptable(Fitting(Converted(final), capacity))
    ensures HeapReady(b, info, first, heap)
  {
    hide Accepted, SegmentsUpTo, BootSpace, AllMappable, RamOf, RamSeen, SortByStart, HeapPlaced, InUsable, InUse;
    hide Walk, Translate, FreeByte, Converted, Acceptable, Fitting;
    AcceptedTable(data);
    SortedIsValid(Fitting(Converted(final), capacity));
    forall k: nat | k < HEAP_SIZE
      ensures HeapByte(b, info, first, heap, k)
    {
      HeapIsMapped(b, Segments(ImageOf(data)), low, physical, ram, fb, seen, final, capacity, info, first, k);
    }
  }

  /** The image has an extent of `span` bytes. */
  ghost predicate SpanOf(data: seq<Byte>, span: nat) {
    && |data| < WORD && Accepted(data)
    && exists low: nat, high: nat :: Extent(Segments(ImageOf(data)), low, high) && high == low + span
  }

  lemma SpanFound(data: seq<Byte>, low: nat, span: nat)
    requires |data| < WORD && Accepted(data) && Extent(Segments(ImageOf(data)), low, low + span)
    ensures SpanOf(data, span)
  {
    hide Extent;
  }

  /** What the kernel is told. */
  function Information(final: seq<Descriptor>, capacity: nat, physical: nat, span: nat, fb: Framebuffer): BootInfo {
    BootInfo(SortByStart(Fitting(Converted(final), capacity)), PHYSICAL_OFFSET, physical, span, fb)
  }

  /** The second half of the boot: the final map is converted and checked, and the heap started. */
  method StartFrom(final: seq<Descriptor>, out: array<MemoryRegion>, bitmap: array<nat>, physical: nat, span: nat,
                   fb: Framebuffer)
    returns (r: Result<nat, StartError>, ghost first: nat)
    requires physical < WORD && fb.base < WORD && CountsFit(final, out.Length)
    modifies out, bitmap
    ensures r.Success? ==>
              && r.value == PHYSICAL_OFFSET + first * FRAME_SIZE
              && HeapPlaced(Information(final, out.Length, physical, span, fb), bitmap.Length, first)
    ensures r.Failure? && r.error.Rejected? <==> !Acceptable(Fitting(Converted(final), out.Length))
    ensures r.Failure? && !r.error.Rejected? ==>
              r.error == NotEnoughMemory
                  && forall f: nat :: !HeapPlaced(Information(final, out.Length, physical, span, fb), bitmap.Length, f)
    ensures SoundFirmwareMap(final) && |Converted(final)| <= out.Length ==> !(r.Failure? && r.error.Rejected?)
  {
    hide SortByStart, Converted, SoundFirmwareMap, ValidMap, HeapPlaced, Acceptable, Fitting;
    var count := ConvertMemoryMap(final, out);
    SortedIsValid(Fitting(Converted(final), out.Length));
    if SoundFirmwareMap(final) && |Converted(final)| <= out.Length { SoundMapAccepted(final, out.Length); }
    r, first := StartKernel(bitmap, BootInfo(out[..count], PHYSICAL_OFFSET, physical, span, fb));
  }

  /**
   The whole boot, from the kernel file and the two firmware maps (the one seen while building the
   page tables and the one left when boot services end) to the kernel's heap. `ram` is where installed
   memory ended in the first map. The boot stops in the bootloader exactly when the file cannot be
   loaded, in the kernel's check exactly when the final map is not acceptable, and otherwise only for
   want of a place for the heap.
   */
  method Boot(data: seq<Byte>, physical: nat, arena: array<nat>, arenaBase: nat, fb: Framebuffer, seen: seq<Descriptor>,
              final: seq<Descriptor>, out: array<MemoryRegion>, bitmap: array<nat>)
    returns (r: Result<Kernel, BootError>, heap: nat, ghost info: BootInfo, ghost first: nat, ghost ram: nat)
    requires |data| < WORD && LinkedHigh(data)
    requires 0 < physical < WORD && physical % PAGE_SIZE == 0
    requires arena.Length == ARENA_FRAMES * 512
    requires arenaBase % PAGE_SIZE == 0 && arenaBase + arena.Length * 8 <= PHYSICAL_LIMIT
    requires fb.base < WORD && (fb.IsPresent() ==> ScreenFits(fb))
    requires forall d :: d in seen && InstalledType(d.ty) ==> DescriptorEnd(d) < WORD
    requires CountsFit(final, out.Length) && RamSeen(seen, final)
    requires bitmap.Length == BITMAP_WORDS && bitmap != arena
    modifies arena, out, bitmap
    ensures RamOf(seen, ram)
    ensures r.Success? ==>
              && Loadable(data, physical, ram, fb) && r.value.tables.Valid()
              && Loaded(r.value.tables.State(), data, r.value.memory[..], r.value.low, physical, ram, fb)
              && heap == PHYSICAL_OFFSET + first * FRAME_SIZE
              && HeapReady(r.value.tables.State(), info, first, heap)
    ensures r.Success? || r.error.StartFailed? ==>
              SpanOf(data, info.kernelSize) && info == Information(final, out.Length, physical, info.kernelSize, fb)
    ensures r.Failure? && r.error.LoadFailed? <==> !Loadable(data, physical, ram, fb)
    ensures r.Failure? && r.error.LoadFailed? && r.error.load.BadImage? <==> !Accepted(data)
    ensures Modest(data, fb) ==> r != Failure(LoadFailed(Unmappable(ArenaExhausted)))
    ensures Accepted(data) && Roomy(Segments(ImageOf(data)), physical)
            && r != Failure(LoadFailed(Unmappable(ArenaExhausted))) ==>
              (r.Failure? && r.error.LoadFailed? <==> !Placeable(Segments(ImageOf(data)), physical))
    ensures r.Failure? && r.error.StartFailed? && r.error.start.Rejected? <==>
            Loadable(data, physical, ram, fb) && !Acceptable(Fitting(Converted(final), out.Length))
    ensures r.Failure? && r.error.StartFailed? && !r.error.start.Rejected? ==>
              r.error.start == NotEnoughMemory && forall f: nat :: !HeapPlaced(info, BITMAP_WORDS, f)
    ensures SoundFirmwareMap(final) && |Converted(final)| <= out.Length && r.Failure? && r.error.StartFailed? ==>
              r.error.start == NotEnoughMemory
  {
    hide Tree, Accepted, LinkedHigh, Loaded, RamOf, RamSeen, SortByStart, Converted, SoundFirmwareMap, ValidMap;
    hide HeapPlaced;
    hide HeapReady, Walk, PageTables.Valid, ScreenFits, Acceptable, Fitting, Extent, Roomy, Placeable, SpanOf, Loadable;
    hide Modest, Overflows;
    heap, first := 0, 0;
    info := BootInfo([], 0, 0, 0, fb);
    var highest := HighestRamAddress(seen, MAX_MAPPED_PHYSICAL);
    ram := highest;
    RamAnswered(seen, ram);
    LoadableIsAccepted(data, physical, ram, fb);
    var loaded := LoadAndStart(data, physical, arena, arenaBase, highest, fb);
    if loaded.Failure? {
      return Failure(LoadFailed(loaded.error)), 0, info, 0, ram;
    }
    var kernel := loaded.value;
    SpanFound(data, kernel.low, kernel.span);
    info := Information(final, out.Length, physical, kernel.span, fb);
    var started, at := StartFrom(final, out, bitmap, physical, kernel.span, fb);
    if started.Failure? {
      return Failure(StartFailed(started.error)), 0, info, 0, ram;
    }
    first, heap := at, started.value;
    HeapIsReady(kernel.tables.State(), data, kernel.memory[..], kernel.low, physical, ram, fb, seen, final, out.Length,
                info, first, heap);
    r := Success(kernel);
  }

  lemma LoadableIsAccepted(data: seq<Byte>, physical: nat, ram: nat, fb: Framebuffer)
    ensures Loadable(data, physical, ram, fb) ==> |data| < WORD && Accepted(data)
  {
  }

  lemma RamAnswered(seen: seq<Descriptor>, ram: nat)
    requires ram <= MAX_MAPPED_PHYSICAL
    requires forall d :: d in seen && InstalledType(d.ty) ==> DescriptorEnd(d) <= ram || ram == MAX_MAPPED_PHYSICAL
    requires ram == 0 || exists d :: d in seen && InstalledType(d.ty) && ram == Capped(DescriptorEnd(d))
    ensures RamOf(seen, ram)
  {
  }
}
