/**
 The kernel's first steps: taking ownership of physical memory and starting the heap.
 */
module KernelSetup {
  import opened Results
  import opened Words
  import opened Arithmetic
  import opened BootProtocol
  import opened Frames

  const MAX_MANAGED_MEMORY: nat := 16 * 1024 * 1024 * 1024
  /** Words in the static bitmap: one bit per managed frame. */
  const BITMAP_WORDS: nat := MAX_MANAGED_MEMORY / FRAME_SIZE / 64
  const HEAP_SIZE: nat := 1024 * 1024
  const HEAP_FRAMES: nat := 256

  /** What the kernel reads from the boot information. */
  datatype BootInfo = BootInfo(regions: seq<MemoryRegion>, physicalMemoryOffset: nat, kernelPhysicalBase: nat,
                               kernelSize: nat, framebuffer: Framebuffer)

  datatype StartError = Rejected(info: BootInfoError) | MemoryUnavailable | NotEnoughMemory

  /** Frame `f` overlaps something that is in use when the kernel starts. */
  ghost predicate InUse(info: BootInfo, f: nat) {
    || f == 0
    || Touches(f, info.kernelPhysicalBase, info.kernelSize)
    || (info.framebuffer.base != 0 && info.framebuffer.size != 0
        && Touches(f, info.framebuffer.base, info.framebuffer.size))
  }

  /** The byte at physical address `x` belongs to the kernel image or to the framebuffer. */
  predicate ByteInUse(info: BootInfo, x: nat) {
    || info.kernelPhysicalBase <= x < info.kernelPhysicalBase + info.kernelSize
    || (info.framebuffer.base != 0 && info.framebuffer.base <= x < info.framebuffer.base + info.framebuffer.size)
  }

  /** A frame is in use exactly when it is frame 0 or one of its bytes is. */
  lemma InUseMeaning(info: BootInfo, f: nat)
    requires info.kernelPhysicalBase + info.kernelSize <= WORD
    requires info.framebuffer.base + info.framebuffer.size <= WORD
    ensures InUse(info, f) <==> f == 0 || exists x: nat :: x / FRAME_SIZE == f && ByteInUse(info, x)
  {
    hide Touches;
    TouchesByte(f, info.kernelPhysicalBase, info.kernelSize);
    TouchesByte(f, info.framebuffer.base, info.framebuffer.size);
    if Touches(f, info.kernelPhysicalBase, info.kernelSize) {
      var x: nat :| x / FRAME_SIZE == f && info.kernelPhysicalBase <= x < info.kernelPhysicalBase + info.kernelSize;
      assert ByteInUse(info, x);
    }
    if info.framebuffer.base != 0 && Touches(f, info.framebuffer.base, info.framebuffer.size) {
      var x: nat :| && x / FRAME_SIZE == f
                    && info.framebuffer.base <= x < info.framebuffer.base + info.framebuffer.size;
      assert ByteInUse(info, x);
    }
  }

  lemma TouchesByte(f: nat, start: nat, len: nat)
    requires start + len <= WORD
    ensures Touches(f, start, len) <==> exists x: nat :: x / FRAME_SIZE == f && start <= x < start + len
    ensures Touches(f, start, len) ==> len > 0
  {
    if Touches(f, start, len) {
      var x := if f * FRAME_SIZE < start then start else f * FRAME_SIZE;
      assert x / FRAME_SIZE == f && start <= x < start + len;
    }
  }

  /** Regions of a validated map share no frame, so an unusable region has no usable frame. */
  lemma UnusableFrames(regions: seq<MemoryRegion>, k: nat, f: nat)
    requires ValidMap(regions) && k < |regions| && !regions[k].kind.UsableAtHandoff()
    requires Touches(f, regions[k].start, regions[k].len)
    ensures !InUsable(regions, f)
  {
    assert WellFormed(regions[k]);
    TouchesMeaning(f, regions[k].start, regions[k].len);
    forall j | 0 <= j < |regions|
      ensures !InRegion(regions[j], f)
    {
      assert WellFormed(regions[j]);
      if j < k {
        assert regions[j].start + regions[j].len <= regions[k].start;
      } else if k < j {
        assert regions[k].start + regions[k].len <= regions[j].start;
      }
    }
  }

  /** Reserves the bootloader's regions. On a validated map they were never released. */
  method ReserveBootloader(a: FrameAllocator, regions: seq<MemoryRegion>)
    requires a.Valid() && a.base == 0 && ValidMap(regions)
    requires forall i: nat :: i < a.frames && !InUsable(regions, i) ==> i in a.Taken()
    modifies a`allocatedCount, a.bitmap
    ensures a.Valid() && a.Taken() == old(a.Taken())
  {
    hide TakenIn, InUsable, Touches, ValidMap, FrameAllocator.Valid, FrameAllocator.WellFormed;
    a.ValidShape();
    ghost var taken := a.Taken();
    for k := 0 to |regions|
      invariant a.Valid() && a.frames <= 64 * a.bitmap.Length && a.Taken() == taken
    {
      var region := regions[k];
      if region.kind == BootloaderReclaimable {
        RegionStart(regions, k);
        forall f: nat | Touches(f, region.start, region.len)
          ensures !InUsable(regions, f)
        {
          UnusableFrames(regions, k, f);
        }
        a.TakenAreManaged();
        a.ReserveRange(region.start, region.len);
        assert a.Taken() == taken;
      }
    }
  }

  lemma RegionStart(regions: seq<MemoryRegion>, k: nat)
    requires ValidMap(regions) && k < |regions|
    ensures regions[k].start < WORD
  {
    assert WellFormed(regions[k]);
  }

  /**
   Builds the frame allocator and reserves everything in use. A managed frame ends up free exactly
   when it lies in a usable region and overlaps nothing in use; neither failure branch can be reached.
   */
  method SetupMemory(bitmap: array<nat>, info: BootInfo) returns (r: Result<FrameAllocator, StartError>)
    requires ValidMap(info.regions) && info.kernelPhysicalBase < WORD && info.framebuffer.base < WORD
    modifies bitmap
    ensures r.Success? && fresh(r.value) && r.value.bitmap == bitmap && r.value.base == 0
    ensures r.value.Valid() && r.value.frames == ManagedFrames(info.regions, bitmap.Length)
    ensures forall f: nat :: f < r.value.frames <==> IsManaged(info.regions, bitmap.Length, f)
    ensures forall i: nat :: i < r.value.frames ==>
              (i !in r.value.Taken() <==> InUsable(info.regions, i) && !InUse(info, i))
  {
    hide TakenIn, InUsable, Touches, ValidMap, ManagedFrames, FrameAllocator.Valid, IsManaged;
    var built := FromMemoryMap(bitmap, info.regions);
    if built.Failure? {
      return Failure(MemoryUnavailable);
    }
    var frames := built.value;
    frames.ValidShape();
    frames.ReserveRange(info.kernelPhysicalBase, info.kernelSize);
    if info.framebuffer.IsPresent() {
      frames.ReserveRange(info.framebuffer.base, info.framebuffer.size);
    }
    ReserveBootloader(frames, info.regions);
    var _ := frames.Reserve(0);
    frames.ValidShape();
    var ok := frames.Audit();
    if !ok {
      return Failure(MemoryUnavailable);
    }
    r := Success(frames);
  }

  /** Allocates the heap; `NotEnoughMemory` exactly when no free run of 256 frames exists. */
  method SetupHeap(a: FrameAllocator, physicalMemoryOffset: nat) returns (r: Result<nat, StartError>, ghost first: nat)
    requires a.Valid()
    modifies a`allocatedCount, a`cursor, a.bitmap
    ensures a.Valid()
    ensures r.Failure? <==> forall j: nat :: !FreeRun(old(a.Taken()), a.frames, j, HEAP_FRAMES)
    ensures r.Failure? ==> r.error == NotEnoughMemory
    ensures r.Success? ==>
              && r.value == physicalMemoryOffset + first * FRAME_SIZE && first >= a.base
              && FreeRun(old(a.Taken()), a.frames, first - a.base, HEAP_FRAMES)
              && a.Taken() == old(a.Taken()) + RunSet(first - a.base, HEAP_FRAMES)
  {
    hide TakenIn, RunSet, FrameAllocator.Valid, FrameAllocator.WellFormed;
    a.ValidShape();
    var needed := CeilDiv(HEAP_SIZE, FRAME_SIZE);
    var found := a.AllocateContiguous(needed);
    first := 0;
    if found.Failure? {
      return Failure(NotEnoughMemory), 0;
    }
    r, first := Success(physicalMemoryOffset + found.value * FRAME_SIZE), found.value;
  }

  /** From the boot information to a running heap. */
  method StartKernel(bitmap: array<nat>, info: BootInfo) returns (r: Result<nat, StartError>, ghost first: nat)
    requires info.kernelPhysicalBase < WORD && info.framebuffer.base < WORD
    modifies bitmap
    ensures r.Failure? && r.error.Rejected? <==> !ValidMap(info.regions)
    ensures r != Failure(MemoryUnavailable)
    ensures r.Success? ==>
              && r.value == info.physicalMemoryOffset + first * FRAME_SIZE
              && HeapPlaced(info, bitmap.Length, first)
    ensures r == Failure(NotEnoughMemory) ==> forall f: nat :: !HeapPlaced(info, bitmap.Length, f)
  {
    hide TakenIn, InUsable, InUse, ValidMap, ManagedFrames, FrameAllocator.Valid, FrameAllocator.WellFormed;
    hide FrameAllocator.Taken, HeapPlaced, FreeRun, RunSet, Touches;
    first := 0;
    var valid := ValidateMemoryMap(info.regions);
    if valid.Failure? {
      return Failure(Rejected(valid.error)), 0;
    }
    var memory := SetupMemory(bitmap, info);
    var frames := memory.value;
    frames.ValidShape();
    ghost var taken := frames.Taken();
    r, first := SetupHeap(frames, info.physicalMemoryOffset);
    FreeIsPlaced(info, bitmap.Length, taken);
  }

  /** After `SetupMemory` a free run long enough is a place for the heap. */
  lemma FreeIsPlaced(info: BootInfo, words: nat, taken: set<nat>)
    requires forall i: nat :: i < ManagedFrames(info.regions, words) ==>
               (i !in taken <==> InUsable(info.regions, i) && !InUse(info, i))
    ensures forall f: nat :: FreeRun(taken, ManagedFrames(info.regions, words), f, HEAP_FRAMES) <==>
              HeapPlaced(info, words, f)
  {
    hide InUsable, InUse, ManagedFrames, IsManaged;
    forall f: nat
      ensures f < ManagedFrames(info.regions, words) <==> IsManaged(info.regions, words, f)
    {
      ManagedMeaning(info.regions, words, f);
    }
    forall f: nat
      ensures FreeRun(taken, ManagedFrames(info.regions, words), f, HEAP_FRAMES) <==> HeapPlaced(info, words, f)
    {
      if HeapPlaced(info, words, f) { assert IsManaged(info.regions, words, f + HEAP_FRAMES - 1); }
    }
  }

  /** The heap's frames are managed, usable, and overlap nothing in use. */
  ghost predicate HeapPlaced(info: BootInfo, words: nat, first: nat) {
    forall f: nat :: first <= f < first + HEAP_FRAMES ==>
                       IsManaged(info.regions, words, f) && InUsable(info.regions, f) && !InUse(info, f)
  }
}
