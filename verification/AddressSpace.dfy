/**
 The address space the kernel starts in: its own segments, a window onto physical memory, and the
 low identity map, built in that order in one fresh page table.
 */
module AddressSpace {
  import opened Results
  import opened Words
  import opened Arithmetic
  import opened PageEntry
  import opened PageTree
  import opened PageSteps
  import opened Elf
  import opened KernelImage
  import opened BootProtocol

  const PHYSICAL_OFFSET: nat := 0xFFFF_8000_0000_0000
  const KERNEL_VIRTUAL_BASE: nat := 0xFFFF_FFFF_8000_0000
  const IDENTITY_MAPPED_BYTES: nat := 4 * 1024 * 1024 * 1024
  const MAX_MAPPED_PHYSICAL: nat := 64 * 1024 * 1024 * 1024

  /** The page at which the physical-memory window starts. */
  const WINDOW: nat := 0x8_0000_0000
  /** Pages in the identity map. */
  const IDENTITY_PAGES: nat := 0x10_0000
  /** Bytes of physical memory the window can show before it would reach the kernel. */
  const WINDOW_BYTES: nat := KERNEL_VIRTUAL_BASE - PHYSICAL_OFFSET

  /** The 2 MiB block that page `i` of the window shows overlaps `[start, start + size)`. */
  predicate BlockTouches(i: nat, start: nat, size: nat) {
    size > 0 && i / 512 * HUGE_PAGE_SIZE < start + size && start < i / 512 * HUGE_PAGE_SIZE + HUGE_PAGE_SIZE
  }

  /** The window shows the blocks that hold RAM and the blocks that hold the framebuffer. */
  predicate InWindow(q: nat, ram: nat, fb: Framebuffer) {
    && WINDOW <= q
    && (|| BlockTouches(q - WINDOW, 0, ram)
        || (fb.base != 0 && fb.size != 0 && BlockTouches(q - WINDOW, fb.base, fb.size)))
  }

  /** The translation of a page outside the kernel. */
  function Outside(q: nat, ram: nat, fb: Framebuffer): Option<Mapping> {
    if InWindow(q, ram, fb) then Some(Mapping(PAGE_SIZE * (q - WINDOW), Permissions(true, false)))
    else if q < IDENTITY_PAGES then Some(Mapping(PAGE_SIZE * q, Permissions(false, true)))
    else None
  }

  /** The whole translation: kernel segments, the window, the identity map, and nothing else. */
  ghost predicate BootSpace(b: Arena, segments: seq<Segment>, low: nat, physical: nat, ram: nat, fb: Framebuffer)
    requires forall s :: s in segments ==> low <= s.virtualAddress
  {
    && (forall s, q: nat :: s in segments && q < PAGES && InSegment(s, q) ==>
                              Walk(b, q) == Some(SegmentMapping(s, low, physical, q)))
    && (forall q: nat :: q < PAGES && (forall s :: s in segments ==> !InSegment(s, q)) ==>
                           Walk(b, q) == Outside(q, ram, fb))
  }

  /** Clearing the low 21 bits rounds down to a multiple of 2 MiB. */
  lemma RoundDown(x: nat)
    requires x < WORD
    ensures And(x, Not(HUGE_PAGE_SIZE - 1)) == x - x % HUGE_PAGE_SIZE
  {
    Powers();
    AndSplit(x, HUGE_PAGE_SIZE - 1, 64);
    var q := AndLowMask(x, 21);
    QuotientUnique(x, HUGE_PAGE_SIZE, q, And(x, HUGE_PAGE_SIZE - 1));
  }

  /** Pages of a range that starts on a block are those whose block the range touches. */
  lemma BlocksOfRange(i: nat, start: nat, size: nat)
    requires size > 0
    ensures
      var base := start - start % HUGE_PAGE_SIZE;
      var count := 512 * CeilDiv(size + (start - base), HUGE_PAGE_SIZE);
      && base % HUGE_PAGE_SIZE == 0 && base / PAGE_SIZE % 512 == 0
      && (base / PAGE_SIZE <= i < base / PAGE_SIZE + count <==> BlockTouches(i, start, size))
  {
    var d := HUGE_PAGE_SIZE;
    var block := start / d;
    var base := start - start % d;
    assert base == d * block;
    assert base / PAGE_SIZE == 512 * block;
    var c := CeilDiv(size + (start - base), d);
    CeilDivBounds(size + (start - base), d);
    var b := i / 512;
    if b >= block {
      assert b - block < c <==> d * (b - block) < size + (start - base);
    }
  }

  lemma RangeInWindow(ram: nat, i: nat)
    ensures i < 512 * CeilDiv(ram, HUGE_PAGE_SIZE) <==> BlockTouches(i, 0, ram)
  {
    CeilDivBounds(ram, HUGE_PAGE_SIZE);
    if ram > 0 { BlocksOfRange(i, 0, ram); }
  }

  // ----- the four stages

  /** After the RAM window: the kernel where it was, RAM read-write, the rest empty. */
  ghost predicate WithRam(b: Arena, k: Arena, ram: nat) {
    forall q: nat :: q < PAGES ==>
                       Walk(b, q) == if WINDOW <= q && BlockTouches(q - WINDOW, 0, ram)
                                     then Some(Mapping(PAGE_SIZE * (q - WINDOW), READ_WRITE)) else Walk(k, q)
  }

  ghost predicate WithFramebuffer(b: Arena, k: Arena, ram: nat, fb: Framebuffer) {
    forall q: nat :: q < PAGES ==>
                       Walk(b, q) == if InWindow(q, ram, fb)
                                     then Some(Mapping(PAGE_SIZE * (q - WINDOW), READ_WRITE)) else Walk(k, q)
  }

  /** In the kernel's part of the table nothing lies below its base. */
  ghost predicate KernelHigh(k: Arena) {
    forall q: nat :: q < WINDOW + WINDOW_BYTES / PAGE_SIZE ==> Walk(k, q).None?
  }

  lemma RamStage(k: Arena, b: Arena, ram: nat)
    requires ram <= MAX_MAPPED_PHYSICAL
    requires Extends(k, b, WINDOW, 512 * CeilDiv(ram, HUGE_PAGE_SIZE), 0, READ_WRITE)
    ensures WithRam(b, k, ram)
  {
    hide Walk, BlockTouches, CeilDiv;
    forall q: nat | q < PAGES
      ensures Walk(b, q) == if WINDOW <= q && BlockTouches(q - WINDOW, 0, ram)
                            then Some(Mapping(PAGE_SIZE * (q - WINDOW), READ_WRITE)) else Walk(k, q)
    {
      CeilDivBounds(ram, HUGE_PAGE_SIZE);
      if WINDOW <= q { RangeInWindow(ram, q - WINDOW); }
    }
  }

  /** A block of the window holds RAM throughout or not at all. */
  lemma RamBlock(k: Arena, b: Arena, ram: nat, q: nat)
    requires WithRam(b, k, ram) && KernelHigh(k) && WINDOW <= q < WINDOW + WINDOW_BYTES / PAGE_SIZE
    ensures BlockFree(b, q / 512) <==> !BlockTouches(q - WINDOW, 0, ram)
  {
    hide Walk;
    if BlockTouches(q - WINDOW, 0, ram) {
      assert Walk(b, q).Some?;
    } else {
      forall p: nat | q / 512 * 512 <= p < q / 512 * 512 + 512
        ensures Walk(b, p).None?
      {
        assert (p - WINDOW) / 512 == (q - WINDOW) / 512;
      }
    }
  }

  /** The framebuffer's base rounded down to 2 MiB, its first window page, and its length in blocks. */
  function ScreenBase(fb: Framebuffer): nat { fb.base - fb.base % HUGE_PAGE_SIZE }
  function ScreenFirst(fb: Framebuffer): nat { WINDOW + ScreenBase(fb) / PAGE_SIZE }
  function ScreenBlocks(fb: Framebuffer): nat { CeilDiv(fb.size + (fb.base - ScreenBase(fb)), HUGE_PAGE_SIZE) }

  /** The framebuffer is present and its window ends below the kernel. */
  predicate ScreenFits(fb: Framebuffer) { fb.IsPresent() && fb.base + fb.size <= WINDOW_BYTES }

  lemma ScreenBounds(fb: Framebuffer)
    requires ScreenFits(fb)
    ensures ScreenBase(fb) % HUGE_PAGE_SIZE == 0
    ensures WINDOW <= ScreenFirst(fb)
              && ScreenFirst(fb) + 512 * ScreenBlocks(fb) <= WINDOW + WINDOW_BYTES / PAGE_SIZE < PAGES
    ensures PAGE_SIZE * (ScreenFirst(fb) - WINDOW) == ScreenBase(fb)
    ensures ScreenBlocks(fb) > 0
  {
    var d := HUGE_PAGE_SIZE;
    var block, length := fb.base / d, fb.size + (fb.base - ScreenBase(fb));
    assert ScreenBase(fb) == d * block && ScreenBase(fb) / PAGE_SIZE == 512 * block;
    CeilDivBounds(length, d);
    assert WINDOW_BYTES == d * 0x3FF_FC00;
    assert d * (block + ScreenBlocks(fb) - 1) < d * 0x3FF_FC00;
  }

  /** Which pages the framebuffer's range covers, and what it maps them to. */
  lemma ScreenPage(fb: Framebuffer, q: nat)
    requires ScreenFits(fb) && q < PAGES && ScreenFirst(fb) < PAGES
    ensures Offset(q, ScreenFirst(fb)) < 512 * ScreenBlocks(fb) <==>
            WINDOW <= q && BlockTouches(q - WINDOW, fb.base, fb.size)
    ensures Offset(q, ScreenFirst(fb)) < 512 * ScreenBlocks(fb) ==>
              && WINDOW <= q < WINDOW + WINDOW_BYTES / PAGE_SIZE
              && ScreenBase(fb) + PAGE_SIZE * Offset(q, ScreenFirst(fb)) == PAGE_SIZE * (q - WINDOW)
  {
    hide BlockTouches, CeilDiv;
    ScreenBounds(fb);
    if WINDOW <= q { BlocksOfRange(q - WINDOW, fb.base, fb.size); }
  }

  /** Every conflict the lenient call swallows already maps the same physical address read-write. */
  lemma FramebufferStage(k: Arena, b: Arena, c: Arena, ram: nat, fb: Framebuffer)
    requires WithRam(b, k, ram) && KernelHigh(k) && ScreenFits(fb) && ScreenFirst(fb) < PAGES
    requires LenientlyExtends(b, c, ScreenFirst(fb), ScreenBlocks(fb), ScreenBase(fb), READ_WRITE)
    ensures WithFramebuffer(c, k, ram, fb)
  {
    hide Walk, BlockTouches, BlockFree, ScreenFirst, ScreenBlocks, ScreenBase, Offset;
    forall q: nat | q < PAGES
      ensures Walk(c, q) == if InWindow(q, ram, fb)
                            then Some(Mapping(PAGE_SIZE * (q - WINDOW), READ_WRITE)) else Walk(k, q)
    {
      ScreenPage(fb, q);
      if WINDOW <= q < WINDOW + WINDOW_BYTES / PAGE_SIZE { RamBlock(k, b, ram, q); }
    }
  }

  /** A segment in the top 2 GiB occupies a contiguous run of pages there. */
  lemma HighSegment(s: Segment)
    requires s.virtualAddress >= KERNEL_VIRTUAL_BASE && End(s) <= WORD
    requires s.memorySize > 0 ==> s.virtualAddress % PAGE_SIZE == 0
    requires s.virtualAddress < WORD
    ensures PageOf(s.virtualAddress) == s.virtualAddress / PAGE_SIZE - 0xF_FFF0_0000_0000
    ensures WINDOW + WINDOW_BYTES / PAGE_SIZE <= PageOf(s.virtualAddress)
    ensures PageOf(s.virtualAddress) + PagesOf(s) <= PAGES
    ensures forall q: nat :: q < PAGES && InSegment(s, q) ==>
                               PageOf(s.virtualAddress) <= q < PageOf(s.virtualAddress) + PagesOf(s)
  {
    var v := s.virtualAddress / PAGE_SIZE;
    assert v % PAGES == v - 0xF_FFF0_0000_0000 by {
      QuotientUnique(v, PAGES, 0xFFFF, v - 0xF_FFF0_0000_0000);
    }
    CeilDivBounds(s.memorySize, PAGE_SIZE);
    if s.memorySize > 0 {
      assert s.virtualAddress == PAGE_SIZE * v;
      assert PAGE_SIZE * (v + PagesOf(s) - 1) < WORD;
    }
  }

  /** Segments as the linker script lays them out: in the top 2 GiB, ending by the end of memory. */
  ghost predicate HighSegments(segments: seq<Segment>, low: nat) {
    forall s :: s in segments ==>
                  && KERNEL_VIRTUAL_BASE <= low <= s.virtualAddress < WORD && End(s) <= WORD
  }

  lemma KernelStaysHigh(a: Arena, k: Arena, segments: seq<Segment>, low: nat, physical: nat)
    requires HighSegments(segments, low) && KernelMapped(a, k, segments, low, physical)
    requires forall q: nat :: q < PAGES ==> Walk(a, q).None?
    ensures KernelHigh(k)
  {
    hide Walk, PageOf, PagesOf, BothRights;
    forall q: nat | q < WINDOW + WINDOW_BYTES / PAGE_SIZE
      ensures Walk(k, q).None?
    {
      forall s | s in segments
        ensures !InSegment(s, q)
      {
        assert Mappable(s, low, physical);
        HighSegment(s);
      }
      assert Walk(k, q) == Walk(a, q);
    }
  }

  lemma FinalStage(a: Arena, k: Arena, c: Arena, d: Arena, segments: seq<Segment>, low: nat, physical: nat, ram: nat,
                   fb: Framebuffer)
    requires HighSegments(segments, low) && KernelMapped(a, k, segments, low, physical)
    requires forall q: nat :: q < PAGES ==> Walk(a, q).None?
    requires ram <= MAX_MAPPED_PHYSICAL && (fb.IsPresent() ==> ScreenFits(fb))
    requires WithFramebuffer(c, k, ram, fb) && Extends(c, d, 0, IDENTITY_PAGES, 0, READ_EXECUTE)
    ensures BootSpace(d, segments, low, physical, ram, fb)
  {
    hide Walk, PageOf, PagesOf, BothRights, InWindow, Mappable, KernelHigh;
    forall s, q: nat | s in segments && q < PAGES && InSegment(s, q)
      ensures Walk(d, q) == Some(SegmentMapping(s, low, physical, q))
    {
      assert Walk(k, q) == Some(SegmentMapping(s, low, physical, q));
      SegmentBeyondWindow(s, low, physical, q, ram, fb);
    }
    forall q: nat | q < PAGES && (forall s :: s in segments ==> !InSegment(s, q))
      ensures Walk(d, q) == Outside(q, ram, fb)
    {
      assert Walk(k, q) == Walk(a, q);
      WindowIsHigh(q, ram, fb);
    }
  }

  lemma SegmentBeyondWindow(s: Segment, low: nat, physical: nat, q: nat, ram: nat, fb: Framebuffer)
    requires HighSegments([s], low) && low <= s.virtualAddress && Mappable(s, low, physical) && q < PAGES
              && InSegment(s, q)
    requires ram <= MAX_MAPPED_PHYSICAL && (fb.IsPresent() ==> ScreenFits(fb))
    ensures !InWindow(q, ram, fb) && q >= IDENTITY_PAGES
  {
    hide BothRights, InSegment, PageOf, PagesOf;
    assert s in [s];
    HighSegment(s);
    if fb.IsPresent() {
      ScreenBounds(fb);
      ScreenPage(fb, q);
    }
  }

  lemma WindowIsHigh(q: nat, ram: nat, fb: Framebuffer)
    ensures InWindow(q, ram, fb) ==> q >= IDENTITY_PAGES
  {
  }
}
