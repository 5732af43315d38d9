/**
 How many page tables a boot can need. Tables are counted by the distinct prefixes of the pages they
 lie above, and a contiguous run of pages has few of those.
 */
module ArenaBudget {
  import opened Arithmetic
  import opened Words
  import opened PageEntry
  import opened PageTree
  import opened PageSteps
  import opened Elf
  import opened KernelImage
  import opened AddressSpace
  import opened BootProtocol

  /** The largest kernel the budget allows for: 256 MiB. */
  const MAX_KERNEL_SPAN: nat := 256 * 1024 * 1024
  /** The largest framebuffer the budget allows for: 1 GiB. */
  const MAX_FRAMEBUFFER: nat := 1024 * 1024 * 1024

  ghost function Nodes(level: nat, lo: nat, hi: nat): set<Node> {
    set x: nat | lo <= x < hi :: Node(level, x)
  }

  lemma {:induction false} NodesSize(level: nat, lo: nat, hi: nat)
    requires lo <= hi
    ensures |Nodes(level, lo, hi)| == hi - lo
    decreases hi - lo
  {
    if lo == hi {
      assert Nodes(level, lo, hi) == {};
    } else {
      NodesSize(level, lo, hi - 1);
      assert Nodes(level, lo, hi) == Nodes(level, lo, hi - 1) + {Node(level, hi - 1)};
    }
  }

  /** The tables at `level` above the pages `[lo, hi)`. */
  ghost function Cover(level: nat, lo: nat, hi: nat): set<Node>
    requires lo < hi
  {
    Nodes(level, Prefix(level, lo), Prefix(level, hi - 1) + 1)
  }

  lemma CoverSize(level: nat, lo: nat, hi: nat)
    requires lo < hi
    ensures |Cover(level, lo, hi)| == Prefix(level, hi - 1) - Prefix(level, lo) + 1
  {
    NodesSize(level, Prefix(level, lo), Prefix(level, hi - 1) + 1);
  }

  lemma AboveInCover(level: nat, page: nat, lo: nat, hi: nat)
    requires lo <= page < hi
    ensures Above(level, page) in Cover(level, lo, hi)
  {
    assert Prefix(level, lo) <= Prefix(level, page) <= Prefix(level, hi - 1);
  }

  ghost function SmallCover(lo: nat, hi: nat): set<Node>
    requires lo < hi
  {
    Cover(3, lo, hi) + Cover(2, lo, hi) + Cover(1, lo, hi)
  }

  ghost function HugeCover(lo: nat, hi: nat): set<Node>
    requires lo < hi
  {
    Cover(3, lo, hi) + Cover(2, lo, hi)
  }

  lemma SmallTablesCovered(first: nat, count: nat, lo: nat, hi: nat)
    requires lo < hi <= PAGES && lo <= first && first + count <= hi
    ensures SmallTables(first, count) <= SmallCover(lo, hi)
  {
    hide Cover, Prefix;
    forall n | n in SmallTables(first, count)
      ensures n in SmallCover(lo, hi)
    {
      var i: nat :| i < count && n in SmallChain(PageAt(first, i));
      AboveInCover(3, first + i, lo, hi);
      AboveInCover(2, first + i, lo, hi);
      AboveInCover(1, first + i, lo, hi);
    }
  }

  lemma HugeTablesCovered(first: nat, blocks: nat, lo: nat, hi: nat)
    requires lo < hi <= PAGES && lo <= first && first + 512 * blocks <= hi
    ensures HugeTables(first, blocks) <= HugeCover(lo, hi)
  {
    hide Cover, Prefix;
    forall n | n in HugeTables(first, blocks)
      ensures n in HugeCover(lo, hi)
    {
      var i: nat :| i < blocks && n in HugeChain(PageAt(first, 512 * i));
      AboveInCover(3, first + 512 * i, lo, hi);
      AboveInCover(2, first + 512 * i, lo, hi);
    }
  }

  lemma UnionSize<T>(s: set<T>, t: set<T>)
    ensures |s + t| <= |s| + |t|
  {
    assert s + t == s + (t - s);
    SubsetSize(t - s, t);
  }

  lemma SmallCoverSize(lo: nat, hi: nat)
    requires lo < hi
    ensures |SmallCover(lo, hi)| <= (Prefix(3, hi - 1) - Prefix(3, lo)) + (Prefix(2, hi - 1) - Prefix(2, lo)) +
                                    (Prefix(1, hi - 1) - Prefix(1, lo)) + 3
  {
    hide Cover, Prefix;
    UnionSize(Cover(3, lo, hi) + Cover(2, lo, hi), Cover(1, lo, hi));
    UnionSize(Cover(3, lo, hi), Cover(2, lo, hi));
    CoverSize(3, lo, hi);
    CoverSize(2, lo, hi);
    CoverSize(1, lo, hi);
  }

  lemma HugeCoverSize(lo: nat, hi: nat)
    requires lo < hi
    ensures |HugeCover(lo, hi)| <= (Prefix(3, hi - 1) - Prefix(3, lo)) + (Prefix(2, hi - 1) - Prefix(2, lo)) + 2
  {
    hide Cover, Prefix;
    UnionSize(Cover(3, lo, hi), Cover(2, lo, hi));
    CoverSize(3, lo, hi);
    CoverSize(2, lo, hi);
  }

  /** A run of pages spans at most this many more prefixes at each level. */
  lemma PrefixSteps(lo: nat, m: nat)
    ensures Prefix(1, lo + m) - Prefix(1, lo) <= (m + 511) / 512
    ensures Prefix(2, lo + m) - Prefix(2, lo) <= ((m + 511) / 512 + 511) / 512
    ensures Prefix(3, lo + m) - Prefix(3, lo) <= (((m + 511) / 512 + 511) / 512 + 511) / 512
  {
    CeilStep(lo, lo + m, m);
    CeilStep(lo / 512, (lo + m) / 512, (m + 511) / 512);
    CeilStep(lo / 512 / 512, (lo + m) / 512 / 512, ((m + 511) / 512 + 511) / 512);
  }

  lemma CeilStep(a: nat, b: nat, m: nat)
    requires a <= b <= a + m
    ensures a / 512 <= b / 512 <= a / 512 + (m + 511) / 512
  {
  }

  // ----- the four regions

  /** Pages the kernel image can touch, starting from its lowest address. */
  function KernelEnd(low: nat): nat
    requires KERNEL_VIRTUAL_BASE <= low < WORD
  {
    var first := low / PAGE_SIZE - 0xF_FFF0_0000_0000;
    if first + 65537 <= PAGES then first + 65537 else PAGES
  }

  ghost function KernelCover(low: nat): set<Node>
    requires KERNEL_VIRTUAL_BASE <= low < WORD
  {
    SmallCover(low / PAGE_SIZE - 0xF_FFF0_0000_0000, KernelEnd(low))
  }

  lemma KernelCoverSize(low: nat)
    requires KERNEL_VIRTUAL_BASE <= low < WORD
    ensures |KernelCover(low)| <= 133
  {
    hide Prefix, SmallCover;
    var first := low / PAGE_SIZE - 0xF_FFF0_0000_0000;
    PrefixSteps(first, KernelEnd(low) - 1 - first);
    SmallCoverSize(low / PAGE_SIZE - 0xF_FFF0_0000_0000, KernelEnd(low));
  }

  ghost predicate SmallKernel(segments: seq<Segment>, low: nat) {
    && HighSegments(segments, low)
    && forall s :: s in segments ==> End(s) <= low + MAX_KERNEL_SPAN
  }

  lemma SegmentCovered(s: Segment, low: nat)
    requires SmallKernel([s], low) && KERNEL_VIRTUAL_BASE <= low < WORD
    requires s.memorySize > 0 ==> s.virtualAddress % PAGE_SIZE == 0
    ensures SmallTables(PageOf(s.virtualAddress), PagesOf(s)) <= KernelCover(low)
  {
    hide SmallTables, SmallCover;
    assert s in [s];
    HighSegment(s);
    CeilDivBounds(s.memorySize, PAGE_SIZE);
    if s.memorySize > 0 {
      assert s.virtualAddress == PAGE_SIZE * (s.virtualAddress / PAGE_SIZE);
      assert PageOf(s.virtualAddress) + PagesOf(s) <= KernelEnd(low);
      SmallTablesCovered(PageOf(s.virtualAddress), PagesOf(s), low / PAGE_SIZE - 0xF_FFF0_0000_0000, KernelEnd(low));
    } else {
      NoTables({}, PageOf(s.virtualAddress));
    }
  }

  lemma {:induction false} KernelCovered(segments: seq<Segment>, low: nat)
    requires SmallKernel(segments, low) && KERNEL_VIRTUAL_BASE <= low < WORD
    requires Aligned(segments)
    ensures KernelTables(segments) <= KernelCover(low)
  {
    hide SmallTables, KernelCover, PageOf, PagesOf;
    if segments != [] {
      var s := segments[|segments| - 1];
      assert s in segments;
      KernelCovered(segments[..|segments| - 1], low);
      SegmentCovered(s, low);
    }
  }

  lemma RamCovered(ram: nat)
    requires ram <= MAX_MAPPED_PHYSICAL
    ensures HugeTables(WINDOW, CeilDiv(ram, HUGE_PAGE_SIZE)) <= HugeCover(WINDOW, WINDOW + 0x100_0000)
    ensures |HugeCover(WINDOW, WINDOW + 0x100_0000)| <= 65
  {
    CeilDivBounds(ram, HUGE_PAGE_SIZE);
    HugeTablesCovered(WINDOW, CeilDiv(ram, HUGE_PAGE_SIZE), WINDOW, WINDOW + 0x100_0000);
    HugeCoverSize(WINDOW, WINDOW + 0x100_0000);
  }

  lemma IdentityCovered()
    ensures HugeTables(0, CeilDiv(IDENTITY_MAPPED_BYTES, HUGE_PAGE_SIZE)) <= HugeCover(0, IDENTITY_PAGES)
    ensures |HugeCover(0, IDENTITY_PAGES)| <= 5
  {
    HugeTablesCovered(0, CeilDiv(IDENTITY_MAPPED_BYTES, HUGE_PAGE_SIZE), 0, IDENTITY_PAGES);
    HugeCoverSize(0, IDENTITY_PAGES);
  }

  lemma FramebufferCovered(fb: Framebuffer)
    requires ScreenFits(fb) && fb.size <= MAX_FRAMEBUFFER
    ensures HugeTables(ScreenFirst(fb), ScreenBlocks(fb)) <= HugeCover(ScreenFirst(fb), ScreenFirst(fb) + 0x4_0200)
    ensures |HugeCover(ScreenFirst(fb), ScreenFirst(fb) + 0x4_0200)| <= 5
  {
    hide Prefix, HugeTables, HugeCover, CeilDiv;
    var first := ScreenFirst(fb);
    CeilDivBounds(fb.size + (fb.base - ScreenBase(fb)), HUGE_PAGE_SIZE);
    assert ScreenBlocks(fb) <= 513;
    ScreenBounds(fb);
    assert first + 0x4_0200 <= PAGES;
    HugeTablesCovered(first, ScreenBlocks(fb), first, first + 0x4_0200);
    PrefixSteps(first, 0x4_01FF);
    HugeCoverSize(first, first + 0x4_0200);
  }
}
