/**
 The bootloader's main sequence, from the bytes of the kernel file to the address space the kernel
 is entered in. Firmware services (file reading, page allocation, the framebuffer query) appear as
 parameters.
 */
module Bootloader {
  import opened Results
  import opened Words
  import opened Arithmetic
  import opened PageEntry
  import opened PageTree
  import opened PageSteps
  import opened Paging
  import opened Elf
  import opened KernelImage
  import opened AddressSpace
  import opened BootProtocol
  import opened ArenaBudget

  // ----- the mapping sequence

  ghost predicate EmptySpace(a: Arena) {
    a.tables == map[ROOT := 0] && forall q: nat :: q < PAGES ==> Walk(a, q).None?
  }

  /** Everything the four stages create. */
  ghost function AllTables(segments: seq<Segment>, ram: nat, fb: Framebuffer): set<Node> {
    {ROOT} + KernelTables(segments) + HugeTables(WINDOW, CeilDiv(ram, HUGE_PAGE_SIZE)) +
    ScreenTables(fb) +
    HugeTables(0, CeilDiv(IDENTITY_MAPPED_BYTES, HUGE_PAGE_SIZE))
  }

  ghost function ScreenTables(fb: Framebuffer): set<Node> {
    if fb.IsPresent() then HugeTables(ScreenFirst(fb), ScreenBlocks(fb)) else {}
  }

  /**
   One stage: success creates exactly its tables; the only failure is that the arena is full, and
   then those tables would not have fitted it.
   */
  ghost predicate StageTables(before: set<Node>, after: set<Node>, added: set<Node>, frames: nat,
                              r: Result<Done, PagingError>) {
    && before <= after <= before + added
    && (r.Success? ==> after == before + added)
    && (r.Failure? ==> r.error == ArenaExhausted && |after| == frames && |before + added| > frames)
  }

  lemma NoStage(keys: set<Node>, frames: nat)
    ensures StageTables(keys, keys, {}, frames, Success(Done))
  {
  }

  lemma StageEnds(before: set<Node>, after: set<Node>, added: set<Node>, frames: nat, r: Result<Done, PagingError>)
    requires before <= after <= before + added && (r.Success? ==> after == before + added)
    requires r.Failure? ==> r.error == ArenaExhausted && |after| == frames && |before + added| > frames
    ensures StageTables(before, after, added, frames, r)
  {
  }

  /** A kernel and a framebuffer small enough for the arena. */
  ghost predicate ModestMachine(segments: seq<Segment>, low: nat, fb: Framebuffer) {
    SmallKernel(segments, low) && KERNEL_VIRTUAL_BASE <= low < WORD && (fb.IsPresent() ==> fb.size <= MAX_FRAMEBUFFER)
  }

  /** A modest machine never needs more than 209 of the 256 arena frames. */
  lemma WithinBudget(segments: seq<Segment>, low: nat, ram: nat, fb: Framebuffer)
    requires ModestMachine(segments, low, fb) && Aligned(segments) && ram <= MAX_MAPPED_PHYSICAL
    requires fb.IsPresent() ==> ScreenFits(fb)
    ensures |AllTables(segments, ram, fb)| <= 209 < ARENA_FRAMES
  {
    hide HugeTables, KernelTables, HugeCover, KernelCover, CeilDiv, SmallKernel;
    var kernel := KernelTables(segments);
    var window := HugeTables(WINDOW, CeilDiv(ram, HUGE_PAGE_SIZE));
    var screen := ScreenTables(fb);
    var identity := HugeTables(0, CeilDiv(IDENTITY_MAPPED_BYTES, HUGE_PAGE_SIZE));
    assert |kernel| <= 133 by {
      KernelCovered(segments, low);
      KernelCoverSize(low);
      SubsetSize(kernel, KernelCover(low));
    }
    assert |window| <= 65 by {
      RamCovered(ram);
      SubsetSize(window, HugeCover(WINDOW, WINDOW + 0x100_0000));
    }
    assert |screen| <= 5 by {
      if fb.IsPresent() {
        FramebufferCovered(fb);
        SubsetSize(screen, HugeCover(ScreenFirst(fb), ScreenFirst(fb) + 0x4_0200));
      }
    }
    assert |identity| <= 5 by {
      IdentityCovered();
      SubsetSize(identity, HugeCover(0, IDENTITY_PAGES));
    }
    FiveSets({ROOT}, kernel, window, screen, identity);
  }

  lemma FiveSets<T>(a: set<T>, b: set<T>, c: set<T>, d: set<T>, e: set<T>)
    ensures |a + b + c + d + e| <= |a| + |b| + |c| + |d| + |e|
  {
    UnionSize(a, b);
    UnionSize(a + b, c);
    UnionSize(a + b + c, d);
    UnionSize(a + b + c + d, e);
  }

  /** Below the kernel nothing is mapped yet, so the RAM window cannot conflict. */
  lemma RamNeverConflicts(k: Arena, ram: nat, done: nat)
    requires KernelHigh(k) && ram <= MAX_MAPPED_PHYSICAL && done < CeilDiv(ram, HUGE_PAGE_SIZE)
    ensures 512 * done < PAGES && BlockFree(k, PageAt(WINDOW, 512 * done) / 512)
  {
    hide Walk;
    CeilDivBounds(ram, HUGE_PAGE_SIZE);
    assert PageAt(WINDOW, 512 * done) == WINDOW + 512 * done;
  }

  lemma IdentityNeverConflicts(k: Arena, c: Arena, ram: nat, fb: Framebuffer, done: nat)
    requires KernelHigh(k) && WithFramebuffer(c, k, ram, fb) && done < 2048
    ensures 512 * done < PAGES && BlockFree(c, PageAt(0, 512 * done) / 512)
  {
    hide Walk, InWindow;
    assert PageAt(0, 512 * done) == 512 * done;
    forall q: nat | PageAt(0, 512 * done) / 512 * 512 <= q < PageAt(0, 512 * done) / 512 * 512 + 512
      ensures Walk(c, q).None?
    {
      WindowIsHigh(q, ram, fb);
    }
  }

  lemma NoFramebuffer(b: Arena, k: Arena, ram: nat, fb: Framebuffer)
    requires WithRam(b, k, ram) && !fb.IsPresent()
    ensures WithFramebuffer(b, k, ram, fb)
  {
    hide Walk, BlockTouches;
  }

  lemma Constants()
    ensures PageOf(PHYSICAL_OFFSET) == WINDOW && PHYSICAL_OFFSET % HUGE_PAGE_SIZE == 0
    ensures CeilDiv(IDENTITY_MAPPED_BYTES, HUGE_PAGE_SIZE) == 2048 && PageOf(0) == 0
  {
  }

  /** The framebuffer stage: the window is extended over the framebuffer, if there is one. */
  method MapFramebuffer(tables: PageTables, fb: Framebuffer, ghost k: Arena, ram: nat)
    returns (r: Result<Done, PagingError>)
    requires tables.Valid() && WithRam(tables.State(), k, ram) && KernelHigh(k)
    requires fb.IsPresent() ==> ScreenFits(fb)
    modifies tables`nextFrame, tables`tables, tables.arena
    ensures tables.Valid()
    ensures r.Success? ==> WithFramebuffer(tables.State(), k, ram, fb)
    ensures StageTables(old(tables.tables).Keys, tables.tables.Keys, ScreenTables(fb), tables.arenaFrames, r)
  {
    hide WithRam, KernelHigh, WithFramebuffer, HugeTables, PageTables.Valid, ScreenFits, StageTables;
    if fb.IsPresent() {
      r := MapScreen(tables, fb, k, ram);
    } else {
      NoFramebuffer(tables.State(), k, ram, fb);
      NoStage(tables.tables.Keys, tables.arenaFrames);
      r := Success(Done);
    }
  }

  method MapScreen(tables: PageTables, fb: Framebuffer, ghost k: Arena, ghost ram: nat)
    returns (r: Result<Done, PagingError>)
    requires tables.Valid() && WithRam(tables.State(), k, ram) && KernelHigh(k) && ScreenFits(fb)
    modifies tables`nextFrame, tables`tables, tables.arena
    ensures tables.Valid()
    ensures r.Success? ==> WithFramebuffer(tables.State(), k, ram, fb)
    ensures StageTables(old(tables.tables).Keys, tables.tables.Keys, HugeTables(ScreenFirst(fb), ScreenBlocks(fb)),
                        tables.arenaFrames, r)
  {
    hide Tree, AllPopulated, WithRam, KernelHigh, WithFramebuffer, HugeTables, LenientlyExtends, CeilDiv, PageOf, And;
    hide PageTables.Valid, ScreenFirst, ScreenBase, ScreenBlocks, ScreenFits, Not, StageTables;
    ghost var b := tables.State();
    ScreenArguments(fb);
    var base := And(fb.base, Not(HUGE_PAGE_SIZE - 1));
    var length := fb.size + (fb.base - base);
    var step, done := tables.MapHugeRangeLenient(PHYSICAL_OFFSET + base, base, length, READ_WRITE);
    if step.Success? {
      FramebufferStage(k, b, tables.State(), ram, fb);
    }
    tables.FramesUsed();
    StageEnds(b.tables.Keys, tables.tables.Keys, HugeTables(ScreenFirst(fb), ScreenBlocks(fb)), tables.arenaFrames,
        step);
    r := step;
  }

  /** What the framebuffer stage passes on: a range of whole blocks inside the window. */
  lemma ScreenArguments(fb: Framebuffer)
    requires ScreenFits(fb)
    ensures fb.base < WORD && And(fb.base, Not(HUGE_PAGE_SIZE - 1)) == ScreenBase(fb) <= fb.base
    ensures
      var length := fb.size + (fb.base - ScreenBase(fb));
      && PHYSICAL_OFFSET + ScreenBase(fb) + length <= WORD && ScreenBase(fb) + length <= PHYSICAL_LIMIT
      && CeilDiv(length, HUGE_PAGE_SIZE) == ScreenBlocks(fb)
    ensures PageOf(PHYSICAL_OFFSET + ScreenBase(fb)) == ScreenFirst(fb) < PAGES
    ensures (PHYSICAL_OFFSET + ScreenBase(fb)) % HUGE_PAGE_SIZE == 0 && ScreenBase(fb) % HUGE_PAGE_SIZE == 0
  {
    hide And, Not, CeilDiv, PageOf, ScreenFirst;
    RoundDown(fb.base);
    WindowPage(fb);
  }

  lemma WindowPage(fb: Framebuffer)
    requires ScreenFits(fb)
    ensures PageOf(PHYSICAL_OFFSET + ScreenBase(fb)) == ScreenFirst(fb) < PAGES
    ensures (PHYSICAL_OFFSET + ScreenBase(fb)) % HUGE_PAGE_SIZE == 0 && ScreenBase(fb) % HUGE_PAGE_SIZE == 0
  {
    var d := HUGE_PAGE_SIZE;
    var block := fb.base / d;
    assert ScreenBase(fb) == d * block;
    var v := (PHYSICAL_OFFSET + d * block) / PAGE_SIZE;
    assert v == 0xF_FFF8_0000_0000 + 512 * block;
    QuotientUnique(v, PAGES, 0xFFFF, WINDOW + 512 * block);
  }

  /** The RAM stage: nothing lies below the kernel yet, so only the arena can stop it. */
  method MapWindow(tables: PageTables, ram: nat) returns (r: Result<Done, PagingError>)
    requires tables.Valid() && KernelHigh(tables.State()) && ram <= MAX_MAPPED_PHYSICAL
    modifies tables`nextFrame, tables`tables, tables.arena
    ensures tables.Valid()
    ensures r.Success? ==> WithRam(tables.State(), old(tables.State()), ram)
    ensures StageTables(old(tables.tables).Keys, tables.tables.Keys, HugeTables(WINDOW, CeilDiv(ram, HUGE_PAGE_SIZE)),
                        tables.arenaFrames, r)
  {
    hide Tree, Walk, HugeTables, Extends, WithRam, KernelHigh, CeilDiv, PageOf, PageAt, BlockFree, PageTables.Valid;
    Constants();
    ghost var k := tables.State();
    var step, shown := tables.MapHugeRange(PHYSICAL_OFFSET, 0, ram, READ_WRITE);
    if step.Success? {
      RamStage(k, tables.State(), ram);
    } else {
      RamNeverConflicts(k, ram, shown);
      assert step.error.ArenaExhausted?;
    }
    tables.FramesUsed();
    r := step;
  }

  /** The identity stage: the low 4 GiB are still empty, so only the arena can stop it. */
  method MapIdentity(tables: PageTables, ghost k: Arena, ghost ram: nat, ghost fb: Framebuffer)
    returns (r: Result<Done, PagingError>)
    requires tables.Valid() && KernelHigh(k) && WithFramebuffer(tables.State(), k, ram, fb)
    modifies tables`nextFrame, tables`tables, tables.arena
    ensures tables.Valid()
    ensures r.Success? ==> Extends(old(tables.State()), tables.State(), 0, IDENTITY_PAGES, 0, READ_EXECUTE)
    ensures StageTables(old(tables.tables).Keys, tables.tables.Keys,
                        HugeTables(0, CeilDiv(IDENTITY_MAPPED_BYTES, HUGE_PAGE_SIZE)), tables.arenaFrames, r)
  {
    hide Tree, Walk, HugeTables, Extends, WithFramebuffer, KernelHigh, CeilDiv, PageOf, PageAt, BlockFree;
    hide PageTables.Valid;
    Constants();
    ghost var c := tables.State();
    var step, covered := tables.MapHugeRange(0, 0, IDENTITY_MAPPED_BYTES, READ_EXECUTE);
    if step.Failure? {
      IdentityNeverConflicts(k, c, ram, fb, covered);
      assert step.error.ArenaExhausted?;
    }
    tables.FramesUsed();
    r := step;
  }

  /**
   The whole mapping sequence, in a fresh table. When it succeeds the translation is exactly the boot
   address space; it fails only for a kernel whose segments cannot all be mapped, or for want of
   arena frames, and a modest machine is never refused for the latter.
   */
  method BuildAddressSpace(tables: PageTables, segments: seq<Segment>, low: nat, physical: nat, ram: nat,
                           fb: Framebuffer)
    returns (r: Result<Done, LoadError>)
    requires tables.Valid() && EmptySpace(tables.State()) && tables.arenaFrames == ARENA_FRAMES
    requires HighSegments(segments, low) && ram <= MAX_MAPPED_PHYSICAL && (fb.IsPresent() ==> ScreenFits(fb))
    requires forall s :: s in segments ==> physical + (s.virtualAddress - low) + s.memorySize <= PHYSICAL_LIMIT
    modifies tables`nextFrame, tables`tables, tables.arena
    ensures tables.Valid()
    ensures r.Success? ==> BootSpace(tables.State(), segments, low, physical, ram, fb)
    ensures r.Success? <==> AllMappable(segments, low, physical) && |AllTables(segments, ram, fb)| <= ARENA_FRAMES
    ensures r == Failure(Unmappable(ArenaExhausted)) ==>
              tables.nextFrame == tables.arenaFrames && |AllTables(segments, ram, fb)| > ARENA_FRAMES
    ensures r != Failure(Unmappable(ArenaExhausted)) ==> (r.Success? <==> AllMappable(segments, low, physical))
    ensures r.Success? ==> tables.tables.Keys == AllTables(segments, ram, fb)
    ensures ModestMachine(segments, low, fb) ==> r != Failure(Unmappable(ArenaExhausted)) && tables.nextFrame <= 209
    ensures r.Failure? ==> r.error == WritableAndExecutable || r.error.Unmappable?
  {
    hide Tree, Walk, KernelMapped, KernelTables, HugeTables, Extends, AllMappable, BootSpace, WithRam, WithFramebuffer;
    hide KernelHigh, ModestMachine, CeilDiv, BlockFree, Mappable, Aligned, PageTables.Valid, ScreenTables, AllTables;
    hide Through;
    ghost var a, frames := tables.State(), tables.arenaFrames;
    assert a.tables.Keys == {ROOT};
    var kernel, attempted := MapKernel(tables, segments, low, physical);
    ghost var k := tables.State();
    tables.FramesUsed();
    KernelPart(segments, attempted, ram, fb, frames);
    BudgetKept(segments, attempted, low, ram, fb, tables.tables.Keys, frames);
    if kernel.Failure? {
      return kernel;
    }
    assert segments[..attempted] == segments;
    KernelStaysHigh(a, k, segments, low, physical);
    MappedIsMappable(a, k, segments, low, physical);
    r := MapWindows(tables, segments, low, physical, ram, fb, a);
    tables.FramesUsed();
    BudgetKept(segments, attempted, low, ram, fb, tables.tables.Keys, frames);
  }

  /** The three stages after the kernel is mapped. */
  method MapWindows(tables: PageTables, ghost segments: seq<Segment>, ghost low: nat, ghost physical: nat, ram: nat,
                    fb: Framebuffer, ghost a: Arena)
    returns (r: Result<Done, LoadError>)
    requires tables.Valid() && HighSegments(segments, low) && KernelHigh(tables.State())
    requires KernelMapped(a, tables.State(), segments, low, physical) && forall q: nat :: q < PAGES ==> Walk(a, q).None?
    requires ram <= MAX_MAPPED_PHYSICAL && (fb.IsPresent() ==> ScreenFits(fb))
    requires tables.tables.Keys == {ROOT} + KernelTables(segments)
    modifies tables`nextFrame, tables`tables, tables.arena
    ensures tables.Valid() && tables.tables.Keys <= AllTables(segments, ram, fb)
    ensures r.Success? ==>
              && BootSpace(tables.State(), segments, low, physical, ram, fb)
              && tables.tables.Keys == AllTables(segments, ram, fb)
    ensures r.Failure? ==>
              && r.error == Unmappable(ArenaExhausted) && tables.nextFrame == tables.arenaFrames
              && |AllTables(segments, ram, fb)| > tables.arenaFrames
  {
    hide Tree, Walk, KernelMapped, KernelTables, HugeTables, Extends, BootSpace, WithRam, WithFramebuffer, KernelHigh;
    hide CeilDiv, BlockFree, PageTables.Valid, ScreenTables, AllTables, Through, HighSegments, ScreenFits;
    ghost var k, frames := tables.State(), tables.arenaFrames;
    Stages(segments, ram, fb, frames);
    var window := MapWindow(tables, ram);
    tables.FramesUsed();
    if window.Failure? {
      return Failure(Unmappable(window.error));
    }
    var screen := MapFramebuffer(tables, fb, k, ram);
    tables.FramesUsed();
    if screen.Failure? {
      return Failure(Unmappable(screen.error));
    }
    ghost var c := tables.State();
    var identity := MapIdentity(tables, k, ram, fb);
    tables.FramesUsed();
    if identity.Failure? {
      return Failure(Unmappable(identity.error));
    }
    FinalStage(a, k, c, tables.State(), segments, low, physical, ram, fb);
    r := Success(Done);
  }

  /** The tables that exist once `stage` of the three later stages are done. */
  ghost function Through(segments: seq<Segment>, ram: nat, fb: Framebuffer, stage: nat): set<Node> {
    if stage == 0 then {ROOT} + KernelTables(segments)
    else if stage == 1 then Through(segments, ram, fb, 0) + HugeTables(WINDOW, CeilDiv(ram, HUGE_PAGE_SIZE))
    else if stage == 2 then Through(segments, ram, fb, 1) + ScreenTables(fb)
    else Through(segments, ram, fb, 2) + HugeTables(0, CeilDiv(IDENTITY_MAPPED_BYTES, HUGE_PAGE_SIZE))
  }

  /** Each stage adds its tables, and if those of one stage do not fit the arena, neither do all. */
  lemma Stages(segments: seq<Segment>, ram: nat, fb: Framebuffer, frames: nat)
    ensures Through(segments, ram, fb, 0) == {ROOT} + KernelTables(segments)
    ensures Through(segments, ram, fb, 1) ==
              Through(segments, ram, fb, 0) + HugeTables(WINDOW, CeilDiv(ram, HUGE_PAGE_SIZE))
    ensures Through(segments, ram, fb, 2) == Through(segments, ram, fb, 1) + ScreenTables(fb)
    ensures AllTables(segments, ram, fb) ==
            Through(segments, ram, fb, 2) + HugeTables(0, CeilDiv(IDENTITY_MAPPED_BYTES, HUGE_PAGE_SIZE))
    ensures forall i: nat :: i <= 2 ==>
              && Through(segments, ram, fb, i) <= AllTables(segments, ram, fb)
              && (|Through(segments, ram, fb, i)| > frames ==> |AllTables(segments, ram, fb)| > frames)
  {
    hide KernelTables, HugeTables, ScreenTables, CeilDiv;
    var t0, t1, t2 := Through(segments, ram, fb, 0), Through(segments, ram, fb, 1), Through(segments, ram, fb, 2);
    assert t1 == t0 + HugeTables(WINDOW, CeilDiv(ram, HUGE_PAGE_SIZE)) && t2 == t1 + ScreenTables(fb);
    assert t0 <= t1 <= t2 <= AllTables(segments, ram, fb);
    forall i: nat | i <= 2
      ensures Through(segments, ram, fb, i) <= AllTables(segments, ram, fb)
      ensures |Through(segments, ram, fb, i)| > frames ==> |AllTables(segments, ram, fb)| > frames
    {
      assert Through(segments, ram, fb, i) in {t0, t1, t2};
      SubsetSize(Through(segments, ram, fb, i), AllTables(segments, ram, fb));
    }
  }

  /** The same for the part of the kernel that was attempted. */
  lemma KernelPart(segments: seq<Segment>, attempted: nat, ram: nat, fb: Framebuffer, frames: nat)
    requires attempted <= |segments|
    ensures {ROOT} + KernelTables(segments[..attempted]) <= AllTables(segments[..attempted], ram, fb)
    ensures |{ROOT} + KernelTables(segments[..attempted])| > frames ==>
              && |AllTables(segments, ram, fb)| > frames && |AllTables(segments[..attempted], ram, fb)| > frames
  {
    hide KernelTables, HugeTables, ScreenTables, CeilDiv;
    KernelTablesMonotone(segments, attempted);
    SubsetSize({ROOT} + KernelTables(segments[..attempted]), AllTables(segments, ram, fb));
    SubsetSize({ROOT} + KernelTables(segments[..attempted]), AllTables(segments[..attempted], ram, fb));
  }

  lemma BudgetKept(segments: seq<Segment>, attempted: nat, low: nat, ram: nat, fb: Framebuffer, keys: set<Node>,
                   frames: nat)
    requires attempted <= |segments| && Aligned(segments[..attempted])
    requires ram <= MAX_MAPPED_PHYSICAL && (fb.IsPresent() ==> ScreenFits(fb)) && frames == ARENA_FRAMES
    ensures ModestMachine(segments, low, fb) && keys <= AllTables(segments[..attempted], ram, fb) ==>
              |keys| <= 209 < frames
  {
    hide AllTables, Aligned;
    if ModestMachine(segments, low, fb) && keys <= AllTables(segments[..attempted], ram, fb) {
      var some := segments[..attempted];
      assert forall s :: s in some ==> s in segments;
      WithinBudget(some, low, ram, fb);
      SubsetSize(keys, AllTables(some, ram, fb));
    }
  }
}
