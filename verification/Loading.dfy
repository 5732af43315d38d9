/**
 From the bytes of the kernel file to what the kernel reads at its own addresses.
 */
module Loading {
  import opened Results
  import opened Words
  import opened Arithmetic
  import opened PageEntry
  import opened PageTree
  import opened PageSteps
  import opened Paging
  import opened Elf
  import opened KernelImage
  import opened AddressSpace
  import opened BootProtocol
  import opened ArenaBudget
  import opened Bootloader

  /** The physical address behind a virtual one. */
  function Translate(b: Arena, address: nat): Option<nat> {
    match Walk(b, PageOf(address))
    case None => None
    case Some(m) => Some(m.physical + address % PAGE_SIZE)
  }

  /** The byte read at a virtual address, when it lies in the memory allocated at `base`. */
  function ReadByte(b: Arena, memory: seq<Byte>, base: nat, address: nat): Option<Byte> {
    match Translate(b, address)
    case None => None
    case Some(p) => if base <= p < base + |memory| then Some(memory[p - base]) else None
  }

  /** Byte `i` of a segment lies on page `i / 4096` of it. */
  lemma SegmentAddress(s: Segment, i: nat)
    requires KERNEL_VIRTUAL_BASE <= s.virtualAddress < WORD && End(s) <= WORD
    requires s.virtualAddress % PAGE_SIZE == 0 && i < s.memorySize
    ensures Offset(PageOf(s.virtualAddress + i), PageOf(s.virtualAddress)) == i / PAGE_SIZE
    ensures InSegment(s, PageOf(s.virtualAddress + i))
    ensures (s.virtualAddress + i) % PAGE_SIZE == i % PAGE_SIZE
  {
    var v, n := s.virtualAddress / PAGE_SIZE, i / PAGE_SIZE;
    assert s.virtualAddress == PAGE_SIZE * v;
    assert (s.virtualAddress + i) / PAGE_SIZE == v + n;
    QuotientUnique(v, PAGES, 0xFFFF, v - 0xF_FFF0_0000_0000);
    QuotientUnique(v + n, PAGES, 0xFFFF, v + n - 0xF_FFF0_0000_0000);
    CeilDivBounds(s.memorySize, PAGE_SIZE);
  }

  /** Segments that share no page share no byte. */
  lemma DisjointBytes(segments: seq<Segment>, low: nat, physical: nat)
    requires HighSegments(segments, low) && AllMappable(segments, low, physical)
    ensures BytesDisjoint(segments)
  {
    hide PageOf, BothRights, InSegment;
    forall j, k, address: nat | 0 <= j < k < |segments|
      ensures !(Occupies(segments[j], address) && Occupies(segments[k], address))
    {
      var s, t := segments[j], segments[k];
      assert s in segments && t in segments;
      assert PagesDisjoint(s, t);
      if Occupies(s, address) && Occupies(t, address) {
        SegmentAddress(s, address - s.virtualAddress);
        SegmentAddress(t, address - t.virtualAddress);
      }
    }
  }

  /** Reading any address of a segment gives that segment's byte: file contents, then zeros. */
  lemma SegmentReads(b: Arena, data: seq<Byte>, segments: seq<Segment>, low: nat, physical: nat, ram: nat,
                     fb: Framebuffer, memory: seq<Byte>, m: nat, i: nat)
    requires HighSegments(segments, low) && AllMappable(segments, low, physical)
    requires BootSpace(b, segments, low, physical, ram, fb)
    requires forall s :: s in segments ==> InFile(data, s)
    requires Placed(segments, low, |memory|)
    requires forall k :: 0 <= k < |memory| ==> memory[k] == Copied(data, segments, low, k, 0)
    requires m < |segments| && i < segments[m].memorySize
    ensures ReadByte(b, memory, physical, segments[m].virtualAddress + i) == Some(ByteOf(data, segments[m], i))
  {
    hide Walk, BothRights, InSegment, PageOf, Outside, PagesDisjoint, BytesDisjoint;
    var s := segments[m];
    assert s in segments;
    SegmentAddress(s, i);
    var q := PageOf(s.virtualAddress + i);
    assert Walk(b, q) == Some(SegmentMapping(s, low, physical, q));
    DisjointBytes(segments, low, physical);
    CopiesIntact(data, segments, low, m, i, 0);
  }

  /** Every page of a segment is backed by a whole page of the kernel's allocation. */
  lemma PagesInsideAllocation(segments: seq<Segment>, low: nat, high: nat, physical: nat, s: Segment, q: nat)
    requires s in segments && low <= s.virtualAddress && End(s) <= high && Mappable(s, low, physical)
    requires physical % PAGE_SIZE == 0 && q < PAGES && InSegment(s, q)
    ensures physical <= SegmentMapping(s, low, physical, q).physical
    ensures SegmentMapping(s, low, physical, q).physical + PAGE_SIZE <=
              physical + PAGE_SIZE * CeilDiv(high - low, PAGE_SIZE)
    ensures SegmentMapping(s, low, physical, q).physical % PAGE_SIZE == 0
  {
    hide PageOf, BothRights, Offset;
    CeilDivBounds(s.memorySize, PAGE_SIZE);
    CeilDivBounds(high - low, PAGE_SIZE);
    var offset := s.virtualAddress - low;
    var k := offset / PAGE_SIZE;
    assert offset == PAGE_SIZE * k;
    var n := Offset(q, PageOf(s.virtualAddress));
    assert PAGE_SIZE * (k + n) < high - low;
  }

  /** Present, with the rights that the bits of `flags` ask for. */
  predicate RightsOf(m: Option<Mapping>, flags: nat) {
    && m.Some?
    && (m.value.permissions.executable <==> flags % 2 == 1)
    && (m.value.permissions.writable <==> flags / 2 % 2 == 1)
  }

  /** Not both writable and executable. */
  predicate NotBoth(m: Option<Mapping>) {
    m.Some? ==> !(m.value.permissions.writable && m.value.permissions.executable)
  }

  /** No virtual page is both writable and executable. */
  lemma WriteXorExecute(b: Arena, segments: seq<Segment>, low: nat, physical: nat, ram: nat, fb: Framebuffer, q: nat)
    requires forall s :: s in segments ==> low <= s.virtualAddress
    requires BootSpace(b, segments, low, physical, ram, fb) && AllMappable(segments, low, physical)
    requires q < PAGES
    ensures NotBoth(Walk(b, q))
  {
    hide Walk, InSegment, And;
    if s :| s in segments && InSegment(s, q) {
      assert Walk(b, q) == Some(SegmentMapping(s, low, physical, q));
    } else {
      assert Walk(b, q) == Outside(q, ram, fb);
    }
  }

  /** Every page of a segment has exactly the rights its flags ask for. */
  lemma SegmentRights(b: Arena, segments: seq<Segment>, low: nat, physical: nat, ram: nat, fb: Framebuffer, s: Segment,
                      q: nat)
    requires forall t :: t in segments ==> low <= t.virtualAddress
    requires BootSpace(b, segments, low, physical, ram, fb) && s in segments && q < PAGES && InSegment(s, q)
    ensures RightsOf(Walk(b, q), s.flags)
  {
    hide Walk, InSegment;
  }

  /** What the kernel finds when the bootloader has succeeded. */
  ghost predicate Loaded(b: Arena, data: seq<Byte>, memory: seq<Byte>, low: nat, physical: nat, ram: nat,
                         fb: Framebuffer)
    requires |data| < WORD && Accepted(data)
  {
    var segments := Segments(ImageOf(data));
    && HighSegments(segments, low) && AllMappable(segments, low, physical)
    && (forall s :: s in segments ==> InFile(data, s))
    && BootSpace(b, segments, low, physical, ram, fb)
    && (forall m: nat, i: nat :: m < |segments| && i < segments[m].memorySize ==>
          ReadByte(b, memory, physical, segments[m].virtualAddress + i) == Some(ByteOf(data, segments[m], i)))
    && (forall s, q: nat :: s in segments && q < PAGES && InSegment(s, q) ==>
          physical <= SegmentMapping(s, low, physical, q).physical <= physical + |memory| - PAGE_SIZE)
    && (forall s, q: nat :: s in segments && q < PAGES && InSegment(s, q) ==> RightsOf(Walk(b, q), s.flags))
    && (forall q: nat :: q < PAGES ==> NotBoth(Walk(b, q)))
  }

  /** The image is linked for the top 2 GiB, as the kernel's linker script has it. */
  ghost predicate LinkedHigh(data: seq<Byte>) {
    |data| < WORD && Accepted(data) ==>
      forall s :: s in Segments(ImageOf(data)) ==> KERNEL_VIRTUAL_BASE <= s.virtualAddress
  }

  /** An image whose segments lie within 256 MiB of each other. */
  ghost predicate ModestImage(data: seq<Byte>) {
    |data| < WORD && Accepted(data) ==>
      forall s, t :: s in Segments(ImageOf(data)) && t in Segments(ImageOf(data)) ==>
                       End(s) <= t.virtualAddress + MAX_KERNEL_SPAN
  }

  /** The lowest segment address and the end of the highest, as `virtual_extent` reports them. */
  ghost predicate Extent(segments: seq<Segment>, low: nat, high: nat) {
    Hull(segments, low, high) && !OnlyTopByte(segments) && high < WORD
  }

  /** The image has an extent, and physical memory at `physical` has room for it. */
  ghost predicate Roomy(segments: seq<Segment>, physical: nat) {
    exists low: nat, high: nat :: Extent(segments, low, high) && low <= high
                                  && physical + PAGE_SIZE * CeilDiv(high - low, PAGE_SIZE) <= PHYSICAL_LIMIT
  }

  /** Laid out from its lowest address at `physical`, every segment of the image can be mapped. */
  ghost predicate Placeable(segments: seq<Segment>, physical: nat) {
    exists low: nat, high: nat :: Extent(segments, low, high) && (forall s :: s in segments ==> low <= s.virtualAddress)
                                  && AllMappable(segments, low, physical)
  }

  lemma ExtentUnique(segments: seq<Segment>, a: nat, b: nat, c: nat, d: nat)
    requires Extent(segments, a, b) && Extent(segments, c, d)
    ensures a == c && b == d
  {
  }

  /** Room and placement, told for the extent that was found. */
  lemma AtExtent(segments: seq<Segment>, low: nat, high: nat, physical: nat)
    requires Extent(segments, low, high) && low <= high && |segments| > 0
    requires forall s :: s in segments ==> low <= s.virtualAddress && End(s) <= high
    ensures Placeable(segments, physical) <==> AllMappable(segments, low, physical)
    ensures Roomy(segments, physical) <==> physical + PAGE_SIZE * CeilDiv(high - low, PAGE_SIZE) <= PHYSICAL_LIMIT
    ensures Roomy(segments, physical) ==> physical + (segments[0].virtualAddress - low) < WORD
  {
    hide Extent, AllMappable;
    if l: nat, h: nat :| Extent(segments, l, h) && (forall s :: s in segments ==> l <= s.virtualAddress)
                         && AllMappable(segments, l, physical) {
      ExtentUnique(segments, low, high, l, h);
    }
    if l: nat, h: nat :| Extent(segments, l, h) && l <= h
                         && physical + PAGE_SIZE * CeilDiv(h - l, PAGE_SIZE) <= PHYSICAL_LIMIT {
      ExtentUnique(segments, low, high, l, h);
    }
    assert segments[0] in segments;
    CeilDivBounds(high - low, PAGE_SIZE);
  }

  /** Without an extent there is neither room nor placement. */
  lemma NoExtent(segments: seq<Segment>, physical: nat)
    requires OnlyTopByte(segments) || exists k :: 0 <= k < |segments| && End(segments[k]) >= WORD
    ensures !Roomy(segments, physical) && !Placeable(segments, physical)
    ensures (exists k :: 0 <= k < |segments| && End(segments[k]) >= WORD) ==> Overflows(segments, physical)
  {
    forall low: nat, high: nat
      ensures !Extent(segments, low, high)
    {
    }
  }

  /** What stops the program before anything is allocated or copied. */
  ghost predicate Overflows(segments: seq<Segment>, physical: nat) {
    || (exists k :: 0 <= k < |segments| && End(segments[k]) >= WORD)
    || (OnlyTopByte(segments) && physical <= PHYSICAL_LIMIT)
  }

  /** The checks `load_and_start` makes on the extent decide room, overflow and placement. */
  lemma ExtentDecides(segments: seq<Segment>, low: nat, high: nat, physical: nat)
    requires |segments| > 0 && forall k :: 0 <= k < |segments| ==> End(segments[k]) < WORD
    requires if OnlyTopByte(segments) then low == 0 && high == 0 else Hull(segments, low, high)
    requires low <= high
    requires !OnlyTopByte(segments) ==> forall s :: s in segments ==> low <= s.virtualAddress && End(s) <= high
    ensures OnlyTopByte(segments) ==>
              !Roomy(segments, physical) && (Overflows(segments, physical) <==> physical <= PHYSICAL_LIMIT)
    ensures !OnlyTopByte(segments) ==>
              && Extent(segments, low, high) && !Overflows(segments, physical)
              && (Placeable(segments, physical) <==> AllMappable(segments, low, physical))
              && (Roomy(segments, physical) <==>
                  physical + PAGE_SIZE * CeilDiv(high - low, PAGE_SIZE) <= PHYSICAL_LIMIT)
              && (Roomy(segments, physical) ==> physical + (segments[0].virtualAddress - low) < WORD)
  {
    hide Roomy, Placeable, AllMappable;
    if OnlyTopByte(segments) {
      NoExtent(segments, physical);
    } else {
      AtExtent(segments, low, high, physical);
    }
  }

  lemma AllFit(image: Image)
    requires TableInBounds(image)
    ensures forall s :: s in Segments(image) ==> InFile(image.data, s) && s.virtualAddress < WORD && s.memorySize < WORD
  {
    hide SegmentsUpTo, InFile;
    forall s | s in Segments(image)
      ensures InFile(image.data, s) && s.virtualAddress < WORD && s.memorySize < WORD
    {
      var k :| 0 <= k < |Segments(image)| && Segments(image)[k] == s;
      SegmentsFit(image, image.programHeaderCount, k);
    }
  }

  lemma LoadedHolds(b: Arena, data: seq<Byte>, memory: seq<Byte>, low: nat, high: nat, physical: nat, ram: nat,
                    fb: Framebuffer)
    requires |data| < WORD && Accepted(data) && physical % PAGE_SIZE == 0 && low <= high
    requires
      var segments := Segments(ImageOf(data));
      && HighSegments(segments, low) && AllMappable(segments, low, physical)
      && (forall s :: s in segments ==> InFile(data, s) && End(s) <= high)
      && BootSpace(b, segments, low, physical, ram, fb)
      && (forall k :: 0 <= k < |memory| ==> memory[k] == Copied(data, segments, low, k, 0))
    requires |memory| == PAGE_SIZE * CeilDiv(high - low, PAGE_SIZE)
    ensures Loaded(b, data, memory, low, physical, ram, fb)
  {
    hide SegmentsUpTo, BootSpace, BothRights, InSegment, ReadByte, PageOf, Offset, InFile, Accepted, PagesDisjoint;
    hide Walk, NotBoth, RightsOf;
    AcceptedTable(data);
    var segments := Segments(ImageOf(data));
    CeilDivBounds(high - low, PAGE_SIZE);
    assert Placed(segments, low, |memory|);
    forall m: nat, i: nat | m < |segments| && i < segments[m].memorySize
      ensures ReadByte(b, memory, physical, segments[m].virtualAddress + i) == Some(ByteOf(data, segments[m], i))
    {
      SegmentReads(b, data, segments, low, physical, ram, fb, memory, m, i);
    }
    forall s, q: nat | s in segments && q < PAGES && InSegment(s, q)
      ensures physical <= SegmentMapping(s, low, physical, q).physical <= physical + |memory| - PAGE_SIZE
    {
      PagesInsideAllocation(segments, low, high, physical, s, q);
    }
    forall s, q: nat | s in segments && q < PAGES && InSegment(s, q)
      ensures RightsOf(Walk(b, q), s.flags)
    {
      SegmentRights(b, segments, low, physical, ram, fb, s, q);
    }
    forall q: nat | q < PAGES
      ensures NotBoth(Walk(b, q))
    {
      WriteXorExecute(b, segments, low, physical, ram, fb, q);
    }
  }

  /** What the bootloader hands over: the tables, the memory the image was copied to, and its extent. */
  datatype Kernel = Kernel(tables: PageTables, memory: array<Byte>, low: nat, span: nat)

  /** Everything the bootloader needs of a file, of where firmware puts it, and of the machine. */
  ghost predicate Loadable(data: seq<Byte>, physical: nat, ram: nat, fb: Framebuffer) {
    && |data| < WORD && Accepted(data)
    && var segments := Segments(ImageOf(data));
       && Roomy(segments, physical) && Placeable(segments, physical) && |AllTables(segments, ram, fb)| <= ARENA_FRAMES
  }

  /** A file and a framebuffer for which the arena is always large enough. */
  ghost predicate Modest(data: seq<Byte>, fb: Framebuffer) {
    ModestImage(data) && (fb.IsPresent() ==> fb.size <= MAX_FRAMEBUFFER)
  }

  /** The second half: an image with an extent is copied, and mapped into fresh tables. */
  method CopyAndMap(image: Image, segments: seq<Segment>, low: nat, high: nat, physical: nat, arena: array<nat>,
                    arenaBase: nat, ram: nat, fb: Framebuffer)
    returns (r: Result<Kernel, LoadError>)
    requires |image.data| < WORD && Accepted(image.data) && image == ImageOf(image.data) && segments == Segments(image)
    requires KERNEL_VIRTUAL_BASE <= low <= high < WORD
    requires forall s :: s in segments ==> InFile(image.data, s) && low <= s.virtualAddress < WORD && End(s) <= high
    requires physical % PAGE_SIZE == 0 && physical + PAGE_SIZE * CeilDiv(high - low, PAGE_SIZE) <= PHYSICAL_LIMIT
    requires arena.Length == ARENA_FRAMES * 512
    requires arenaBase % PAGE_SIZE == 0 && arenaBase + arena.Length * 8 <= PHYSICAL_LIMIT
    requires ram <= MAX_MAPPED_PHYSICAL && (fb.IsPresent() ==> ScreenFits(fb))
    modifies arena
    ensures r.Success? <==> AllMappable(segments, low, physical) && |AllTables(segments, ram, fb)| <= ARENA_FRAMES
    ensures r == Failure(Unmappable(ArenaExhausted)) ==> |AllTables(segments, ram, fb)| > ARENA_FRAMES
    ensures r != Failure(Unmappable(ArenaExhausted)) ==> (r.Success? <==> AllMappable(segments, low, physical))
    ensures r.Failure? ==> r.error == WritableAndExecutable || r.error.Unmappable?
    ensures ModestMachine(segments, low, fb) ==> r != Failure(Unmappable(ArenaExhausted))
    ensures r.Success? ==>
              && var Kernel(tables, memory, start, span) := r.value;
              && start == low && span == high - low
              && tables.Valid() && fresh(tables) && fresh(memory) && tables.arena == arena
              && memory.Length == PAGE_SIZE * CeilDiv(span, PAGE_SIZE)
              && Loaded(tables.State(), image.data, memory[..], low, physical, ram, fb)
  {
    hide Tree, Accepted, SegmentsUpTo, InFile, BootSpace, AllMappable, Copied, Loaded, PageTables.Valid, ModestMachine;
    hide Walk, CeilDiv, ScreenFits, AllTables;
    CeilDivBounds(high - low, PAGE_SIZE);
    var memory := new Byte[CeilDiv(high - low, PAGE_SIZE) * PAGE_SIZE](_ => 0);
    CopySegments(image, segments, low, memory);
    var tables := PageTables.New(arena, arenaBase);
    var built := BuildAddressSpace(tables.value, segments, low, physical, ram, fb);
    if built.Failure? {
      return Failure(built.error);
    }
    LoadedHolds(tables.value.State(), image.data, memory[..], low, high, physical, ram, fb);
    r := Success(Kernel(tables.value, memory, low, high - low));
  }

  /** In a modest image the kernel spans at most what the arena allows for. */
  lemma ModestSpan(data: seq<Byte>, fb: Framebuffer, low: nat)
    requires |data| < WORD && Accepted(data) && Modest(data, fb) && KERNEL_VIRTUAL_BASE <= low < WORD
    requires HighSegments(Segments(ImageOf(data)), low)
    requires exists t :: t in Segments(ImageOf(data)) && t.virtualAddress == low
    ensures ModestMachine(Segments(ImageOf(data)), low, fb)
  {
    hide SegmentsUpTo, Accepted, TableInBounds;
  }

  /**
   Parse, place, copy and map. `physical` is where firmware allocates the kernel's pages (never
   address zero) and `arena` the page-table arena; `Aborted` stands for an overflow check that stops
   the program, and `NoMemory` for firmware having no physical memory left.
   */
  method LoadAndStart(data: seq<Byte>, physical: nat, arena: array<nat>, arenaBase: nat, ram: nat, fb: Framebuffer)
    returns (r: Result<Kernel, LoadError>)
    requires |data| < WORD && LinkedHigh(data)
    requires 0 < physical && physical % PAGE_SIZE == 0
    requires arena.Length == ARENA_FRAMES * 512
    requires arenaBase % PAGE_SIZE == 0 && arenaBase + arena.Length * 8 <= PHYSICAL_LIMIT
    requires ram <= MAX_MAPPED_PHYSICAL && (fb.IsPresent() ==> ScreenFits(fb))
    modifies arena
    ensures r.Success? <==> Loadable(data, physical, ram, fb)
    ensures r.Failure? && r.error.BadImage? <==> !Accepted(data)
    ensures r == Failure(Aborted) <==> Accepted(data) && Overflows(Segments(ImageOf(data)), physical)
    ensures r == Failure(NoMemory) <==>
            && Accepted(data) && !Overflows(Segments(ImageOf(data)), physical)
            && !Roomy(Segments(ImageOf(data)), physical)
    ensures r == Failure(Unmappable(ArenaExhausted)) ==>
              Accepted(data) && |AllTables(Segments(ImageOf(data)), ram, fb)| > ARENA_FRAMES
    ensures Modest(data, fb) ==> r != Failure(Unmappable(ArenaExhausted))
    ensures Accepted(data) && Roomy(Segments(ImageOf(data)), physical) && r != Failure(Unmappable(ArenaExhausted)) ==>
              (r.Success? <==> Placeable(Segments(ImageOf(data)), physical))
    ensures r.Success? ==>
              && var Kernel(tables, memory, low, span) := r.value;
              && Accepted(data) && Extent(Segments(ImageOf(data)), low, low + span)
              && tables.Valid() && fresh(tables) && fresh(memory) && tables.arena == arena
              && memory.Length == PAGE_SIZE * CeilDiv(span, PAGE_SIZE)
              && Loaded(tables.State(), data, memory[..], low, physical, ram, fb)
  {
    hide Tree, Accepted, TableInBounds, SegmentsUpTo, InFile, Hull, OnlyTopByte, AllMappable, Loaded, PageTables.Valid;
    hide Walk, CeilDiv, ScreenFits, Roomy, Placeable, Extent, Overflows, AllTables, Modest, ModestMachine;
    var parsed := Parse(data);
    if parsed.Failure? {
      return Failure(BadImage(parsed.error));
    }
    var image := parsed.value;
    AcceptedTable(data);
    var segments := Segments(image);
    AllFit(image);
    AcceptedLoads(data);
    var extent := VirtualExtent(segments);
    if extent.None? {
      NoExtent(segments, physical);
      return Failure(Aborted);
    }
    var (low, high) := extent.value;
    ExtentIsHull(segments, low, high);
    ExtentDecides(segments, low, high, physical);
    CeilDivBounds(high - low, PAGE_SIZE);
    if physical + CeilDiv(high - low, PAGE_SIZE) * PAGE_SIZE > PHYSICAL_LIMIT {
      return Failure(NoMemory);
    }
    if physical + (segments[0].virtualAddress - low) >= WORD {
      return Failure(Aborted);
    }
    if Modest(data, fb) { ModestSpan(data, fb, low); }
    r := CopyAndMap(image, segments, low, high, physical, arena, arenaBase, ram, fb);
  }

  lemma AcceptedTable(data: seq<Byte>)
    requires |data| < WORD && Accepted(data)
    ensures |data| >= ELF_HEADER_SIZE && TableInBounds(ImageOf(data))
  {
  }

  /**
   The extent bounds every segment, except that segments that all sit on the last byte of the address
   space are reported as the empty range at zero.
   */
  lemma ExtentIsHull(segments: seq<Segment>, low: nat, high: nat)
    requires |segments| > 0 && forall k :: 0 <= k < |segments| ==> End(segments[k]) < WORD
    requires if OnlyTopByte(segments) then low == 0 && high == 0 else Hull(segments, low, high)
    requires forall s :: s in segments ==> KERNEL_VIRTUAL_BASE <= s.virtualAddress
    ensures low <= segments[0].virtualAddress && low <= high
    ensures OnlyTopByte(segments) ==> segments[0].virtualAddress - low == WORD - 1
    ensures !OnlyTopByte(segments) ==> exists t :: t in segments && t.virtualAddress == low
    ensures !OnlyTopByte(segments) ==> KERNEL_VIRTUAL_BASE <= low && forall s :: s in segments ==>
              low <= s.virtualAddress && End(s) <= high < WORD
  {
    assert segments[0] in segments;
    if !OnlyTopByte(segments) {
      var k :| 0 <= k < |segments| && segments[k].virtualAddress == low;
      assert segments[k] in segments;
    }
  }
}
