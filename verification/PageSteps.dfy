/**
 What one mapping call may do to the arena, as a relation between the arena before and after: which
 calls are refused and why, which pages change translation, and which tables are created.
 */
module PageSteps {
  import opened Results
  import opened Words
  import opened Arithmetic
  import opened PageEntry
  import opened PageTree

  datatype PagingError = ArenaExhausted | Conflict | Misaligned

  const ARENA_FRAMES: nat := 256

  // ----- virtual addresses

  /** The virtual page of an address. The four index helpers see 48 bits of it. */
  function PageOf(address: nat): (page: nat)
    ensures page < PAGES
  {
    address / PAGE_SIZE % PAGES
  }

  function Pml4Index(address: nat): nat { And(address / 0x80_0000_0000, 0x1FF) }
  function PdptIndex(address: nat): nat { And(address / 0x4000_0000, 0x1FF) }
  function PdIndex(address: nat): nat { And(address / 0x20_0000, 0x1FF) }
  function PtIndex(address: nat): nat { And(address / 0x1000, 0x1FF) }

  lemma NineBits(x: nat)
    ensures And(x, 0x1FF) == x % 512
  {
    hide And, Pow2;
    Powers();
    var q := AndLowMask(x, 9);
  }

  /** Cutting a page number to 36 bits changes none of its four indices. */
  lemma IndexOfPage(p: nat)
    ensures Index(1, p % PAGES) == p % 512
    ensures Index(2, p % PAGES) == p / 512 % 512
    ensures Index(3, p % PAGES) == p / 512 / 512 % 512
    ensures Index(4, p % PAGES) == p / 512 / 512 / 512 % 512
  {
    var q := p % PAGES;
    DropNine(p, 0x800_0000);
    DropNine(p / 512, 0x4_0000);
    DropNine(p / 512 / 512, 512);
    assert Prefix(0, q) == q;
    assert Prefix(1, q) == p / 512 % 0x800_0000;
    assert Prefix(2, q) == p / 512 / 512 % 0x4_0000;
    assert Prefix(3, q) == p / 512 / 512 / 512 % 512;
  }

  /** Shifting right by whole groups of nine bits, after the twelve of the page offset. */
  lemma Shifts(address: nat)
    ensures address / 0x20_0000 == address / PAGE_SIZE / 512
    ensures address / 0x4000_0000 == address / PAGE_SIZE / 512 / 512
    ensures address / 0x80_0000_0000 == address / PAGE_SIZE / 512 / 512 / 512
  {
    DivideTwice(address, 0x1000, 512);
    DivideTwice(address, 0x20_0000, 512);
    DivideTwice(address, 0x4000_0000, 512);
  }

  /** The index helpers select the path of the address's page through the four levels. */
  lemma IndexHelpers(address: nat)
    ensures Pml4Index(address) == Index(4, PageOf(address))
    ensures PdptIndex(address) == Index(3, PageOf(address))
    ensures PdIndex(address) == Index(2, PageOf(address))
    ensures PtIndex(address) == Index(1, PageOf(address))
  {
    Shifts(address);
    IndexOfPage(address / PAGE_SIZE);
    NineBits(address / 0x80_0000_0000);
    NineBits(address / 0x4000_0000);
    NineBits(address / 0x20_0000);
    NineBits(address / 0x1000);
  }

  // ----- what a call needs and what it adds

  /** The tables between the PML4 and a 4 KiB page. */
  function SmallChain(page: nat): set<Node> { {Above(3, page), Above(2, page), Above(1, page)} }

  /** The tables between the PML4 and a 2 MiB page. */
  function HugeChain(page: nat): set<Node> { {Above(3, page), Above(2, page)} }

  /** How far page `q` lies after page `first`, going round at the end of the address space. */
  function Offset(q: nat, first: nat): nat
    requires q < PAGES && first < PAGES
  {
    if first <= q then q - first else q + PAGES - first
  }

  /** `b` translates as `a` does, plus `count` pages from `first`, backed from `physical` upwards. */
  ghost predicate Adds(a: Arena, b: Arena, first: nat, count: nat, physical: nat, p: Permissions)
    requires first < PAGES
  {
    forall q: nat :: q < PAGES ==>
                       Walk(b, q) == if Offset(q, first) < count
                                     then Some(Mapping(physical + PAGE_SIZE * Offset(q, first), p))
                                     else Walk(a, q)
  }

  /** No page of the 2 MiB block `block` translates. */
  ghost predicate BlockFree(a: Arena, block: nat) {
    forall q: nat :: block * 512 <= q < block * 512 + 512 ==> Walk(a, q).None?
  }

  ghost predicate AllPopulated(a: Arena)
    requires Indexed(a)
  {
    forall n :: n in a.tables && n.level == 1 ==> Populated(a, n)
  }

  /** `b` is `a` after linking in some empty tables: every entry and every translation is kept. */
  ghost predicate Grown(a: Arena, b: Arena) {
    && Tree(a) && Tree(b) && a.base == b.base && |a.words| == |b.words|
    && SameWalk(a, b)
    && (forall m :: m in a.tables ==> m in b.tables && b.tables[m] == a.tables[m])
    && (forall m, j: nat :: m in a.tables && j < 512 && At(a, m, j).Present? ==> At(b, m, j) == At(a, m, j))
  }

  lemma GrownReflexive(a: Arena)
    requires Tree(a)
    ensures Grown(a, a)
  {
  }

  lemma GrownTrees(a: Arena, b: Arena)
    requires Grown(a, b)
    ensures Tree(a) && Tree(b)
  {
  }

  lemma GrownByLink(a: Arena, n: Node, i: nat)
    requires CanLink(a, n, i)
    ensures Grown(a, WithTable(a, n, i))
  {
    LinkKeepsTree(a, n, i);
    LinkKeepsWalks(a, n, i);
    forall m, j: nat | m in a.tables && j < 512 && At(a, m, j).Present?
      ensures At(WithTable(a, n, i), m, j) == At(a, m, j)
    {
      WithTableEntry(a, n, i, m, j);
    }
  }

  lemma GrownTransitive(a: Arena, b: Arena, c: Arena)
    requires Grown(a, b) && Grown(b, c)
    ensures Grown(a, c)
  {
    forall page: nat | page < PAGES
      ensures Walk(c, page) == Walk(a, page)
    {
      assert Walk(b, page) == Walk(a, page);
    }
    forall m, j: nat | m in a.tables && j < 512 && At(a, m, j).Present?
      ensures At(c, m, j) == At(a, m, j)
    {
      assert At(b, m, j) == At(a, m, j);
    }
  }

  lemma GrownKeepsPopulated(a: Arena, b: Arena, n: Node)
    requires Grown(a, b) && n in a.tables && Populated(a, n)
    ensures Populated(b, n)
  {
    var i: nat :| i < 512 && At(a, n, i).Present?;
    assert At(b, n, i) == At(a, n, i);
  }

  /** A 2 MiB slot is taken exactly when some page under it translates. */
  lemma BlockTaken(a: Arena, page: nat)
    requires Tree(a) && AllPopulated(a) && page < PAGES
    ensures BlockFree(a, page / 512) <==>
            !(Above(2, page) in a.tables && At(a, Above(2, page), Index(2, page)).Present?)
  {
    var n, i, block := Above(2, page), Index(2, page), page / 512;
    ChildOfAbove(2, page);
    if n in a.tables && At(a, n, i).Present? {
      assert EntryOk(a, n, i);
      if Above(1, page) in a.tables {
        assert Populated(a, Above(1, page));
        var j: nat :| j < 512 && At(a, Above(1, page), j).Present?;
        var q := block * 512 + j;
        assert Above(1, q) == Above(1, page) && Index(1, q) == j;
        WalkIsLookup(a, q);
        assert Walk(a, q).Some?;
      } else {
        WalkIsLookup(a, page);
        assert Walk(a, page).Some?;
      }
    } else {
      forall q: nat | block * 512 <= q < block * 512 + 512
        ensures Walk(a, q).None?
      {
        SlotEmptyWalk(a, page, q);
      }
    }
  }

  lemma SlotEmptyWalk(a: Arena, page: nat, q: nat)
    requires Tree(a) && page < PAGES && q / 512 == page / 512
    requires !(Above(2, page) in a.tables && At(a, Above(2, page), Index(2, page)).Present?)
    ensures Walk(a, q).None?
  {
    ChildOfAbove(2, page);
    assert q < PAGES && Above(2, q) == Above(2, page) && Index(2, q) == Index(2, page) && Above(1, q) == Above(1, page);
    WalkIsLookup(a, q);
    if Above(1, q) in a.tables { LinkPresent(a, q); }
  }

  lemma LinkPresent(a: Arena, q: nat)
    requires Tree(a) && Above(1, q) in a.tables
    ensures Above(2, q) in a.tables && At(a, Above(2, q), Index(2, q)).Present?
  {
    ClosedUpward(a, 1, q);
    ChildOfAbove(2, q);
    assert EntryOk(a, Above(2, q), Index(2, q));
  }

  /** Running out leaves fewer frames than tables needed; finishing leaves enough. */
  lemma CountTables(before: set<Node>, after: set<Node>, chain: set<Node>, frames: nat)
    requires before <= after <= before + chain
    requires |after| <= frames
    ensures chain <= after ==> after == before + chain && |chain - before| <= frames - |before|
    ensures |after| == frames && !(chain <= after) ==> |chain - before| > frames - |before|
  {
    AddedSize(before, after);
    if chain <= after {
      assert after - before == chain - before;
    } else {
      var c :| c in chain && c !in after;
      SubsetSize((after - before) + {c}, chain - before);
    }
  }

  /** A chain that needs more frames than are left needs more than there are, together with what is used. */
  lemma Overfull(keys: set<Node>, chain: set<Node>, frames: nat)
    requires |chain - keys| > frames - |keys|
    ensures |keys + chain| > frames
  {
    AddedSize(keys, keys + chain);
    assert keys + chain - keys == chain - keys;
  }

  /** So does anything larger. */
  lemma StillOverfull(keys: set<Node>, s: set<Node>, t: set<Node>, frames: nat)
    requires |keys + s| > frames && s <= t
    ensures |keys + t| > frames
  {
    SubsetSize(keys + s, keys + t);
  }

  // ----- outcomes of mapping one page

  /**
   What `map_page` promises for aligned addresses. It is refused as a conflict exactly when the page
   already translates, otherwise as out of arena exactly when the missing tables outnumber the
   frames left; a refusal changes no translation, and success changes that of the one page.
   */
  ghost predicate SmallOutcome(a: Arena, b: Arena, frames: nat, page: nat, physical: nat, p: Permissions,
                               r: Result<Done, PagingError>)
    requires page < PAGES
  {
    && (r == Failure(Conflict) <==> Walk(a, page).Some?)
    && (r == Failure(ArenaExhausted) <==>
        Walk(a, page).None? && |SmallChain(page) - a.tables.Keys| > frames - |a.tables|)
    && r != Failure(Misaligned)
    && (if r.Success? then Adds(a, b, page, 1, physical, p) else SameWalk(a, b))
    && TablesGrow(a, b, SmallChain(page), frames, r)
  }

  /** What `map_huge_page` promises for aligned addresses: as above, for the 512 pages of a block. */
  ghost predicate HugeOutcome(a: Arena, b: Arena, frames: nat, page: nat, physical: nat, p: Permissions,
                              r: Result<Done, PagingError>)
    requires page < PAGES
  {
    && (r == Failure(Conflict) <==> !BlockFree(a, page / 512))
    && (r == Failure(ArenaExhausted) <==>
        BlockFree(a, page / 512) && |HugeChain(page) - a.tables.Keys| > frames - |a.tables|)
    && r != Failure(Misaligned)
    && (if r.Success? then Adds(a, b, page, 512, physical, p) else SameWalk(a, b))
    && TablesGrow(a, b, HugeChain(page), frames, r)
  }

  /** Only tables of the chain are created: all on success, none on conflict; running out uses every frame. */
  ghost predicate TablesGrow(a: Arena, b: Arena, chain: set<Node>, frames: nat, r: Result<Done, PagingError>) {
    && a.tables.Keys <= b.tables.Keys <= a.tables.Keys + chain
    && (r.Success? ==> b.tables.Keys == a.tables.Keys + chain)
    && (r == Failure(Conflict) ==> b.tables.Keys == a.tables.Keys)
    && (r == Failure(ArenaExhausted) ==> |b.tables| == frames)
  }

  lemma ThreeSteps(a: set<Node>, b: set<Node>, c: set<Node>, l: Node, m: Node, n: Node)
    ensures b == a + {l, m} && c == b + {n} ==> c == a + {l, m, n}
    ensures c == a + {l, m, n} && l in a && m in a && n in a ==> c == a
  {
  }

  lemma TwoSteps(a: set<Node>, b: set<Node>, c: set<Node>, m: Node, n: Node)
    ensures b == a + {m} && c == b + {n} ==> c == a + {m, n}
    ensures b == a + {m} && c == b ==> c <= a + {m, n}
    ensures c == a + {m, n} && m in a && n in a ==> c == a
  {
  }

  /** If the directory was there before the descent, the descent created nothing. */
  lemma ChainPresent(a: Arena, b: Arena, page: nat)
    requires Tree(a) && b.tables.Keys == a.tables.Keys + HugeChain(page) && Above(2, page) in a.tables
    ensures a.tables.Keys == b.tables.Keys
  {
    ClosedUpward(a, 2, page);
    TwoSteps(a.tables.Keys, {}, b.tables.Keys, Above(3, page), Above(2, page));
  }

  lemma StillPopulated(a: Arena, b: Arena)
    requires Grown(a, b) && AllPopulated(a)
    requires forall n :: n in b.tables && n.level == 1 ==> n in a.tables
    ensures AllPopulated(b)
  {
    forall n | n in b.tables && n.level == 1
      ensures Populated(b, n)
    {
      GrownKeepsPopulated(a, b, n);
    }
  }

  /** After a leaf is written, its table is populated and the others still are. */
  lemma LeafPopulates(a: Arena, b: Arena, n: Node, i: nat, entry: nat)
    requires Grown(a, b) && AllPopulated(a) && CanPlace(b, n, i, entry)
    requires forall m :: m in b.tables && m.level == 1 ==> m in a.tables || m == n
    ensures Tree(WithLeaf(b, n, i, entry)) && AllPopulated(WithLeaf(b, n, i, entry))
  {
    var c := WithLeaf(b, n, i, entry);
    PlaceKeepsTree(b, n, i, entry);
    WithLeafEntry(b, n, i, entry, n, i);
    forall m | m in c.tables && m.level == 1
      ensures Populated(c, m)
    {
      if m != n {
        GrownKeepsPopulated(a, b, m);
        var j: nat :| j < 512 && At(b, m, j).Present?;
        WithLeafEntry(b, n, i, entry, m, j);
      }
    }
  }

  /** Where a descent for `page` stood when the arena ran out above level 3, 2 or 1. */
  ghost predicate OutOfFrames(a: Arena, b: Arena, page: nat, chain: set<Node>, frames: nat) {
    && page < PAGES && Grown(a, b) && |b.tables| == frames
    && b.tables.Keys <= a.tables.Keys + chain && !(chain <= b.tables.Keys)
    && Above(1, page) !in b.tables
    && (Above(2, page) in b.tables ==> At(b, Above(2, page), Index(2, page)).Absent?)
  }

  lemma SmallRunsOut(a: Arena, b: Arena, page: nat, frames: nat, physical: nat, p: Permissions)
    requires OutOfFrames(a, b, page, SmallChain(page), frames) && AllPopulated(a)
    ensures AllPopulated(b)
    ensures SmallOutcome(a, b, frames, page, physical, p, Failure(ArenaExhausted))
  {
    hide Tree, EntryOk, WalkFrom, Populated, Decode;
    WalkIsLookup(b, page);
    CountTables(a.tables.Keys, b.tables.Keys, SmallChain(page), frames);
    StillPopulated(a, b);
  }

  lemma SmallConflicts(a: Arena, b: Arena, page: nat, frames: nat, physical: nat, p: Permissions)
    requires page < PAGES && Grown(a, b) && AllPopulated(a) && a.tables.Keys == b.tables.Keys && Walk(b, page).Some?
    ensures AllPopulated(b)
    ensures SmallOutcome(a, b, frames, page, physical, p, Failure(Conflict))
  {
    StillPopulated(a, b);
  }

  ghost predicate Descended(a: Arena, b: Arena, chain: set<Node>, frames: nat) {
    Grown(a, b) && |b.tables| <= frames && b.tables.Keys == a.tables.Keys + chain
  }

  lemma SmallSlotTaken(a: Arena, b: Arena, page: nat, frames: nat, physical: nat, p: Permissions)
    requires page < PAGES && Descended(a, b, SmallChain(page), frames) && AllPopulated(a)
    requires Above(1, page) in a.tables && At(b, Above(1, page), Index(1, page)).Present?
    ensures AllPopulated(b)
    ensures SmallOutcome(a, b, frames, page, physical, p, Failure(Conflict))
  {
    hide Tree, Walk, AllPopulated, SmallOutcome, Decode, Prefix;
    WalkIsLookup(b, page);
    ClosedUpward(a, 1, page);
    ClosedUpward(a, 2, page);
    ThreeSteps(a.tables.Keys, {}, b.tables.Keys, Above(3, page), Above(2, page), Above(1, page));
    SmallConflicts(a, b, page, frames, physical, p);
  }

  lemma SmallSucceeds(a: Arena, b: Arena, page: nat, frames: nat, physical: nat, p: Permissions)
    requires page < PAGES && Descended(a, b, SmallChain(page), frames) && PhysicalPage(physical)
    requires CanPlace(b, Above(1, page), Index(1, page), SmallEntry(physical, p))
    ensures SmallOutcome(a, WithLeaf(b, Above(1, page), Index(1, page), SmallEntry(physical, p)), frames, page,
                         physical, p, Success(Done))
  {
    hide Tree, EntryOk, Walk, WalkFrom, Decode, SmallEntry, Adds;
    var n, i, e := Above(1, page), Index(1, page), SmallEntry(physical, p);
    TreeIndexed(b);
    DecodeSmall(physical, p);
    CountTables(a.tables.Keys, b.tables.Keys, SmallChain(page), frames);
    WalkIsLookup(b, page);
    PlaceSmall(b, page, e);
    SmallAdds(a, b, WithLeaf(b, n, i, e), page, physical, p);
  }

  /** Writing the leaf into an empty slot is what success promises. */
  lemma SmallWrites(a: Arena, b: Arena, page: nat, frames: nat, physical: nat, p: Permissions)
    requires page < PAGES && Descended(a, b, SmallChain(page), frames) && AllPopulated(a) && PhysicalPage(physical)
    requires Tree(b) && Above(1, page) in b.tables && At(b, Above(1, page), Index(1, page)).Absent?
    ensures SmallEntry(physical, p) < WORD
    ensures
      var c := WithLeaf(b, Above(1, page), Index(1, page), SmallEntry(physical, p));
      Tree(c) && AllPopulated(c) && SmallOutcome(a, c, frames, page, physical, p, Success(Done))
  {
    hide Grown, SmallOutcome, SmallEntry, Decode, Prefix, EntryOk, Shape;
    DecodeSmall(physical, p);
    EntryBound(physical, p);
    LeafPopulates(a, b, Above(1, page), Index(1, page), SmallEntry(physical, p));
    SmallSucceeds(a, b, page, frames, physical, p);
  }

  lemma SmallAdds(a: Arena, b: Arena, c: Arena, page: nat, physical: nat, p: Permissions)
    requires page < PAGES && SameWalk(a, b)
    requires forall q: nat :: q < PAGES ==>
               Walk(c, q) == if q == page then Some(Mapping(physical, p)) else Walk(b, q)
    ensures Adds(a, c, page, 1, physical, p)
  {
  }

  // ----- outcomes of mapping one block

  lemma SameBlockFree(a: Arena, b: Arena, block: nat)
    requires SameWalk(a, b) && block * 512 + 512 <= PAGES
    ensures BlockFree(a, block) <==> BlockFree(b, block)
  {
    hide Walk;
    forall q: nat | block * 512 <= q < block * 512 + 512
      ensures Walk(b, q) == Walk(a, q)
    {
    }
  }

  lemma GrownBlock(a: Arena, b: Arena, page: nat)
    requires Grown(a, b) && AllPopulated(b) && page < PAGES
    ensures BlockFree(a, page / 512) <==>
            !(Above(2, page) in b.tables && At(b, Above(2, page), Index(2, page)).Present?)
  {
    hide Tree, AllPopulated, Walk, Decode, BlockFree;
    BlockTaken(b, page);
    SameBlockFree(a, b, page / 512);
  }

  lemma NoNewPageTable(a: Arena, b: Arena, page: nat)
    requires Grown(a, b) && AllPopulated(a) && b.tables.Keys <= a.tables.Keys + HugeChain(page)
    ensures AllPopulated(b)
  {
    hide Grown, AllPopulated;
    forall n | n in b.tables && n.level == 1
      ensures n in a.tables
    {
      assert n in b.tables.Keys;
    }
    StillPopulated(a, b);
  }

  lemma HugeRunsOut(a: Arena, b: Arena, page: nat, frames: nat, physical: nat, p: Permissions)
    requires OutOfFrames(a, b, page, HugeChain(page), frames) && AllPopulated(a)
    ensures AllPopulated(b)
    ensures HugeOutcome(a, b, frames, page, physical, p, Failure(ArenaExhausted))
  {
    hide Tree, AllPopulated, Walk, Decode, BlockFree;
    NoNewPageTable(a, b, page);
    GrownBlock(a, b, page);
    CountTables(a.tables.Keys, b.tables.Keys, HugeChain(page), frames);
  }

  lemma HugeSlotTaken(a: Arena, b: Arena, page: nat, frames: nat, physical: nat, p: Permissions)
    requires page < PAGES && Descended(a, b, HugeChain(page), frames) && AllPopulated(a)
    requires Above(2, page) in a.tables && At(b, Above(2, page), Index(2, page)).Present?
    ensures AllPopulated(b)
    ensures HugeOutcome(a, b, frames, page, physical, p, Failure(Conflict))
  {
    hide Tree, AllPopulated, Walk, Decode, BlockFree;
    NoNewPageTable(a, b, page);
    GrownBlock(a, b, page);
    ChainPresent(a, b, page);
  }

  lemma EmptySlotHasNoChild(a: Arena, page: nat)
    requires Tree(a) && Above(2, page) in a.tables && At(a, Above(2, page), Index(2, page)).Absent?
    ensures Child(Above(2, page), Index(2, page)) !in a.tables
  {
    ChildOfAbove(2, page);
    assert EntryOk(a, Above(2, page), Index(2, page));
  }

  lemma HugeSucceeds(a: Arena, b: Arena, page: nat, frames: nat, physical: nat, p: Permissions)
    requires page < PAGES && page % 512 == 0 && Descended(a, b, HugeChain(page), frames) && AllPopulated(a)
    requires PhysicalPage(physical) && physical % HUGE_PAGE_SIZE == 0
    requires CanPlace(b, Above(2, page), Index(2, page), HugeEntry(physical, p))
    ensures HugeOutcome(a, WithLeaf(b, Above(2, page), Index(2, page), HugeEntry(physical, p)), frames, page,
                        physical, p, Success(Done))
  {
    hide Tree, AllPopulated, Walk, Decode, BlockFree, HugeEntry, Adds;
    var n, i, e := Above(2, page), Index(2, page), HugeEntry(physical, p);
    TreeIndexed(b);
    NoNewPageTable(a, b, page);
    GrownBlock(a, b, page);
    DecodeHuge(physical, p);
    CountTables(a.tables.Keys, b.tables.Keys, HugeChain(page), frames);
    PlaceHuge(b, page, e);
    HugeAdds(a, b, WithLeaf(b, n, i, e), page, physical, p);
  }

  lemma HugeAdds(a: Arena, b: Arena, c: Arena, page: nat, physical: nat, p: Permissions)
    requires page < PAGES && page % 512 == 0 && SameWalk(a, b) && physical % HUGE_PAGE_SIZE == 0
    requires forall q: nat :: q < PAGES ==>
               Walk(c, q) == if q / 512 == page / 512
                             then Some(HugeMapping(physical, 2, q, p.writable, p.executable)) else Walk(b, q)
    ensures Adds(a, c, page, 512, physical, p)
  {
    hide Walk;
    forall q: nat | q < PAGES
      ensures Walk(c, q) == if Offset(q, page) < 512
                            then Some(Mapping(physical + PAGE_SIZE * Offset(q, page), p)) else Walk(a, q)
    {
      assert Offset(q, page) < 512 <==> q / 512 == page / 512;
      assert q / 512 == page / 512 ==> Offset(q, page) == q % 512;
    }
  }

  lemma HugeIsPage(physical: nat)
    requires physical % HUGE_PAGE_SIZE == 0
    ensures physical % PAGE_SIZE == 0
  {
  }

  lemma HugeAligned(virtual: nat)
    requires virtual % HUGE_PAGE_SIZE == 0
    ensures PageOf(virtual) % 512 == 0
  {
    var k := virtual / HUGE_PAGE_SIZE;
    assert virtual / PAGE_SIZE == 512 * k;
    DropNine(512 * k, 0x800_0000);
  }

  // ----- ranges

  /** The page `i` places after `first`. */
  function PageAt(first: nat, i: nat): (page: nat)
    ensures page < PAGES
  {
    (first + i) % PAGES
  }

  lemma NextPage(virtual: nat, i: nat)
    ensures PageOf(virtual + PAGE_SIZE * i) == PageAt(PageOf(virtual), i)
  {
    var v := virtual / PAGE_SIZE;
    assert (virtual + PAGE_SIZE * i) / PAGE_SIZE == v + i;
    assert v == PAGES * (v / PAGES) + v % PAGES;
    QuotientUnique(v + i, PAGES, v / PAGES + (v % PAGES + i) / PAGES, (v % PAGES + i) % PAGES);
  }

  lemma OffsetOfPageAt(first: nat, i: nat)
    requires first < PAGES && i < PAGES
    ensures Offset(PageAt(first, i), first) == i
  {
  }

  /** `count` pages from `first` were untranslated in `a` and are mapped in `b`; the rest is as it was. */
  ghost predicate Extends(a: Arena, b: Arena, first: nat, count: nat, physical: nat, p: Permissions)
    requires first < PAGES
  {
    && count <= PAGES
    && Adds(a, b, first, count, physical, p)
    && (forall q: nat :: q < PAGES && Offset(q, first) < count ==> Walk(a, q).None?)
  }

  lemma ExtendsNothing(a: Arena, first: nat, physical: nat, p: Permissions)
    requires first < PAGES
    ensures Extends(a, a, first, 0, physical, p)
  {
  }

  lemma ExtendsSame(a: Arena, b: Arena, c: Arena, first: nat, count: nat, physical: nat, p: Permissions)
    requires first < PAGES && Extends(a, b, first, count, physical, p) && SameWalk(b, c)
    ensures Extends(a, c, first, count, physical, p)
  {
    hide Walk;
  }

  /** A page that is free after `count` pages were added was free before, and lies beyond them. */
  lemma FreeBeyond(a: Arena, b: Arena, first: nat, count: nat, physical: nat, p: Permissions, q: nat)
    requires first < PAGES && q < PAGES && Adds(a, b, first, count, physical, p) && Walk(b, q).None?
    ensures Walk(a, q).None? && Offset(q, first) >= count
  {
    hide Walk;
  }

  lemma ExtendsMore(a: Arena, b: Arena, c: Arena, first: nat, count: nat, n: nat, physical: nat, p: Permissions)
    requires first < PAGES && Extends(a, b, first, count, physical, p) && count + n <= PAGES
    requires count < PAGES && Adds(b, c, PageAt(first, count), n, physical + PAGE_SIZE * count, p)
    requires forall q: nat :: q < PAGES && Offset(q, PageAt(first, count)) < n ==> Walk(b, q).None?
    ensures Extends(a, c, first, count + n, physical, p)
  {
    hide Walk;
    forall q: nat | q < PAGES
      ensures Walk(c, q) == if Offset(q, first) < count + n
                            then Some(Mapping(physical + PAGE_SIZE * Offset(q, first), p)) else Walk(a, q)
      ensures Offset(q, first) < count + n ==> Walk(a, q).None?
    {
      OffsetShift(q, first, count, n);
    }
  }

  lemma OffsetShift(q: nat, first: nat, count: nat, n: nat)
    requires q < PAGES && first < PAGES && count < PAGES && count + n <= PAGES
    ensures Offset(q, first) >= count ==> Offset(q, PageAt(first, count)) == Offset(q, first) - count
    ensures Offset(q, first) < count ==> Offset(q, PageAt(first, count)) >= n
  {
  }

  /** Every table a range of 4 KiB pages passes through. */
  ghost function SmallTables(first: nat, count: nat): set<Node> {
    set i: nat, n | i < count && n in SmallChain(PageAt(first, i)) :: n
  }

  /** Every table a range of 2 MiB pages passes through. */
  ghost function HugeTables(first: nat, blocks: nat): set<Node> {
    set i: nat, n | i < blocks && n in HugeChain(PageAt(first, 512 * i)) :: n
  }

  lemma NoTables(s: set<Node>, first: nat)
    ensures s == s + SmallTables(first, 0) == s + HugeTables(first, 0)
  {
  }

  lemma SmallTablesStep(first: nat, i: nat)
    ensures SmallTables(first, i + 1) == SmallTables(first, i) + SmallChain(PageAt(first, i))
  {
    hide SmallChain, PageAt;
  }

  lemma HugeTablesStep(first: nat, i: nat)
    ensures HugeTables(first, i + 1) == HugeTables(first, i) + HugeChain(PageAt(first, 512 * i))
  {
    hide HugeChain, PageAt;
  }

  lemma SmallTablesMonotone(first: nat, i: nat, j: nat)
    requires i <= j
    ensures SmallTables(first, i) <= SmallTables(first, j)
  {
    hide SmallChain, PageAt;
  }

  lemma HugeTablesMonotone(first: nat, i: nat, j: nat)
    requires i <= j
    ensures HugeTables(first, i) <= HugeTables(first, j)
  {
    hide HugeChain, PageAt;
  }

  /** The tables of a range after one more call, which passes through `chain`. */
  lemma ChainStep(a: set<Node>, b: Arena, c: Arena, before: set<Node>, chain: set<Node>, after: set<Node>, frames: nat,
                  r: Result<Done, PagingError>)
    requires b.tables.Keys == a + before && after == before + chain && TablesGrow(b, c, chain, frames, r)
    requires r == Failure(ArenaExhausted) ==> |chain - b.tables.Keys| > frames - |b.tables.Keys|
    ensures a <= c.tables.Keys <= a + after
    ensures r.Success? || (r == Failure(Conflict) && chain <= b.tables.Keys) ==> c.tables.Keys == a + after
    ensures r == Failure(ArenaExhausted) ==> |c.tables| == frames && |a + after| > frames
  {
    if r == Failure(ArenaExhausted) {
      Overfull(b.tables.Keys, chain, frames);
      assert b.tables.Keys + chain == a + after;
    }
  }

  /** Where a run of `map_page` calls over a range stands after one more call. */
  lemma SmallRangeStep(a: Arena, b: Arena, c: Arena, frames: nat, first: nat, i: nat, physical: nat, p: Permissions,
                       r: Result<Done, PagingError>)
    requires first < PAGES && Extends(a, b, first, i, physical, p)
    requires b.tables.Keys == a.tables.Keys + SmallTables(first, i)
    requires SmallOutcome(b, c, frames, PageAt(first, i), physical + PAGE_SIZE * i, p, r)
    ensures r.Success? ==> Extends(a, c, first, i + 1, physical, p)
    ensures r.Success? ==> c.tables.Keys == a.tables.Keys + SmallTables(first, i + 1)
    ensures r.Failure? ==> Extends(a, c, first, i, physical, p) && r.error != Misaligned
    ensures r == Failure(Conflict) ==> i == PAGES || Walk(a, PageAt(first, i)).Some?
    ensures r == Failure(ArenaExhausted) ==>
              |c.tables| == frames && |a.tables.Keys + SmallTables(first, i + 1)| > frames
    ensures a.tables.Keys <= c.tables.Keys <= a.tables.Keys + SmallTables(first, i + 1)
  {
    hide Walk, SmallChain, SmallTables, PageAt, Adds, Extends, TablesGrow;
    SmallTablesStep(first, i);
    ChainStep(a.tables.Keys, b, c, SmallTables(first, i), SmallChain(PageAt(first, i)), SmallTables(first, i + 1),
        frames, r);
    if r.Success? {
      SmallRangeGrows(a, b, c, first, i, physical, p);
    } else {
      ExtendsSame(a, b, c, first, i, physical, p);
      if r.error == Conflict { SmallRangeBlocked(a, b, first, i, physical, p); }
    }
  }

  lemma SmallRangeGrows(a: Arena, b: Arena, c: Arena, first: nat, i: nat, physical: nat, p: Permissions)
    requires first < PAGES && Extends(a, b, first, i, physical, p) && Walk(b, PageAt(first, i)).None?
    requires Adds(b, c, PageAt(first, i), 1, physical + PAGE_SIZE * i, p)
    ensures Extends(a, c, first, i + 1, physical, p)
  {
    hide Walk, PageAt;
    var page := PageAt(first, i);
    FreeBeyond(a, b, first, i, physical, p, page);
    forall q: nat | q < PAGES && Offset(q, page) < 1
      ensures q == page
    {
    }
    ExtendsMore(a, b, c, first, i, 1, physical, p);
  }

  lemma SmallRangeBlocked(a: Arena, b: Arena, first: nat, i: nat, physical: nat, p: Permissions)
    requires first < PAGES && Extends(a, b, first, i, physical, p) && Walk(b, PageAt(first, i)).Some?
    ensures i == PAGES || Walk(a, PageAt(first, i)).Some?
  {
    hide Walk, PageAt;
    if i < PAGES { OffsetOfPageAt(first, i); }
  }

  lemma BlockOfPage(page: nat, q: nat)
    requires page < PAGES && page % 512 == 0 && q < PAGES
    ensures Offset(q, page) < 512 <==> page / 512 * 512 <= q < page / 512 * 512 + 512
  {
  }

  lemma BlockPage(first: nat, i: nat)
    requires first < PAGES && first % 512 == 0
    ensures PageAt(first, 512 * i) % 512 == 0
  {
    DropNine(first + 512 * i, 0x800_0000);
  }

  lemma HugeRangeGrows(a: Arena, b: Arena, c: Arena, first: nat, i: nat, physical: nat, p: Permissions)
    requires first < PAGES && first % 512 == 0 && Extends(a, b, first, 512 * i, physical, p)
    requires BlockFree(b, PageAt(first, 512 * i) / 512)
    requires Adds(b, c, PageAt(first, 512 * i), 512, physical + PAGE_SIZE * (512 * i), p)
    ensures Extends(a, c, first, 512 * (i + 1), physical, p)
  {
    hide Walk, PageAt;
    var page := PageAt(first, 512 * i);
    BlockPage(first, i);
    FreeBeyond(a, b, first, 512 * i, physical, p, page);
    assert 512 * i < PAGES;
    forall q: nat | q < PAGES && Offset(q, page) < 512
      ensures Walk(b, q).None?
    {
      BlockOfPage(page, q);
    }
    ExtendsMore(a, b, c, first, 512 * i, 512, physical, p);
  }

  lemma HugeRangeBlocked(a: Arena, b: Arena, first: nat, i: nat, physical: nat, p: Permissions)
    requires first < PAGES && first % 512 == 0 && Extends(a, b, first, 512 * i, physical, p)
    requires 512 * i < PAGES && !BlockFree(b, PageAt(first, 512 * i) / 512)
    ensures !BlockFree(a, PageAt(first, 512 * i) / 512)
  {
    hide Walk, PageAt;
    var page := PageAt(first, 512 * i);
    BlockPage(first, i);
    var q: nat :| page / 512 * 512 <= q < page / 512 * 512 + 512 && !Walk(b, q).None?;
    BlockOfPage(page, q);
    OffsetShift(q, first, 512 * i, 512);
    assert Walk(a, q) == Walk(b, q);
  }

  /** Where a run of `map_huge_page` calls over a range stands after one more call. */
  lemma HugeRangeStep(a: Arena, b: Arena, c: Arena, frames: nat, first: nat, i: nat, physical: nat, p: Permissions,
                      r: Result<Done, PagingError>)
    requires first < PAGES && first % 512 == 0 && Extends(a, b, first, 512 * i, physical, p)
    requires b.tables.Keys == a.tables.Keys + HugeTables(first, i)
    requires HugeOutcome(b, c, frames, PageAt(first, 512 * i), physical + PAGE_SIZE * (512 * i), p, r)
    ensures r.Success? ==> Extends(a, c, first, 512 * (i + 1), physical, p)
    ensures r.Success? ==> c.tables.Keys == a.tables.Keys + HugeTables(first, i + 1)
    ensures r.Failure? ==> Extends(a, c, first, 512 * i, physical, p) && r.error != Misaligned
    ensures r == Failure(Conflict) ==> 512 * i == PAGES || !BlockFree(a, PageAt(first, 512 * i) / 512)
    ensures r == Failure(ArenaExhausted) ==> |c.tables| == frames && |a.tables.Keys + HugeTables(first, i + 1)| > frames
    ensures a.tables.Keys <= c.tables.Keys <= a.tables.Keys + HugeTables(first, i + 1)
  {
    hide Walk, HugeChain, HugeTables, PageAt, Adds, BlockFree, TablesGrow;
    HugeTablesStep(first, i);
    ChainStep(a.tables.Keys, b, c, HugeTables(first, i), HugeChain(PageAt(first, 512 * i)), HugeTables(first, i + 1),
        frames, r);
    if r.Success? {
      HugeRangeGrows(a, b, c, first, i, physical, p);
    } else {
      ExtendsSame(a, b, c, first, 512 * i, physical, p);
      if r.error == Conflict && 512 * i < PAGES { HugeRangeBlocked(a, b, first, i, physical, p); }
    }
  }

  /** As `Extends`, except that a block in which some page already translates is left as it is. */
  ghost predicate LenientlyExtends(a: Arena, b: Arena, first: nat, blocks: nat, physical: nat, p: Permissions)
    requires first < PAGES
  {
    forall q: nat :: q < PAGES ==>
                       Walk(b, q) == if Offset(q, first) < 512 * blocks && BlockFree(a, q / 512)
                                     then Some(Mapping(physical + PAGE_SIZE * Offset(q, first), p))
                                     else Walk(a, q)
  }

  lemma LenientNothing(a: Arena, first: nat, physical: nat, p: Permissions)
    requires first < PAGES
    ensures LenientlyExtends(a, a, first, 0, physical, p)
  {
  }

  /** The blocks a lenient range has not reached yet are free exactly when they were at the start. */
  lemma LenientAhead(a: Arena, b: Arena, first: nat, i: nat, physical: nat, p: Permissions)
    requires first < PAGES && first % 512 == 0 && LenientlyExtends(a, b, first, i, physical, p)
    ensures 512 * i < PAGES ==>
              (BlockFree(b, PageAt(first, 512 * i) / 512) <==> BlockFree(a, PageAt(first, 512 * i) / 512))
    ensures 512 * i >= PAGES ==> !BlockFree(b, PageAt(first, 512 * i) / 512)
  {
    hide Walk, PageAt;
    var page := PageAt(first, 512 * i);
    var block := page / 512;
    BlockPage(first, i);
    if 512 * i < PAGES {
      forall q: nat | block * 512 <= q < block * 512 + 512
        ensures Walk(b, q) == Walk(a, q)
      {
        BlockOfPage(page, q);
        OffsetShift(q, first, 512 * i, 512);
      }
    } else if BlockFree(a, block) {
      assert Walk(b, page).Some?;
    } else {
      var q: nat :| block * 512 <= q < block * 512 + 512 && !Walk(a, q).None?;
      assert Walk(b, q) == Walk(a, q);
    }
  }

  lemma LenientGrows(a: Arena, b: Arena, c: Arena, first: nat, i: nat, physical: nat, p: Permissions)
    requires first < PAGES && first % 512 == 0 && LenientlyExtends(a, b, first, i, physical, p)
    requires 512 * i < PAGES && BlockFree(a, PageAt(first, 512 * i) / 512)
    requires Adds(b, c, PageAt(first, 512 * i), 512, physical + PAGE_SIZE * (512 * i), p)
    ensures LenientlyExtends(a, c, first, i + 1, physical, p)
  {
    hide Walk, PageAt, BlockFree;
    var page := PageAt(first, 512 * i);
    BlockPage(first, i);
    forall q: nat | q < PAGES
      ensures Walk(c, q) == if Offset(q, first) < 512 * (i + 1) && BlockFree(a, q / 512)
                            then Some(Mapping(physical + PAGE_SIZE * Offset(q, first), p))
                            else Walk(a, q)
    {
      BlockOfPage(page, q);
      OffsetShift(q, first, 512 * i, 512);
      assert Offset(q, page) < 512 ==> q / 512 == page / 512;
    }
  }

  lemma LenientSkips(a: Arena, b: Arena, c: Arena, first: nat, i: nat, physical: nat, p: Permissions)
    requires first < PAGES && first % 512 == 0 && LenientlyExtends(a, b, first, i, physical, p)
    requires SameWalk(b, c) && (512 * i < PAGES ==> !BlockFree(a, PageAt(first, 512 * i) / 512))
    ensures LenientlyExtends(a, c, first, i + 1, physical, p)
  {
    hide Walk, PageAt, BlockFree;
    var page := PageAt(first, 512 * i);
    BlockPage(first, i);
    forall q: nat | q < PAGES
      ensures Walk(c, q) == if Offset(q, first) < 512 * (i + 1) && BlockFree(a, q / 512)
                            then Some(Mapping(physical + PAGE_SIZE * Offset(q, first), p))
                            else Walk(a, q)
    {
      assert Walk(c, q) == Walk(b, q);
      if 512 * i < PAGES {
        BlockOfPage(page, q);
        OffsetShift(q, first, 512 * i, 512);
        assert 512 * i <= Offset(q, first) < 512 * (i + 1) ==> q / 512 == page / 512;
      }
    }
  }

  /** Where a lenient run over a range stands after one more call. */
  lemma LenientRangeStep(a: Arena, b: Arena, c: Arena, frames: nat, first: nat, i: nat, physical: nat, p: Permissions,
                         r: Result<Done, PagingError>)
    requires first < PAGES && first % 512 == 0 && LenientlyExtends(a, b, first, i, physical, p)
    requires Tree(b) && b.tables.Keys == a.tables.Keys + HugeTables(first, i)
    requires HugeOutcome(b, c, frames, PageAt(first, 512 * i), physical + PAGE_SIZE * (512 * i), p, r)
    ensures r.Success? || r == Failure(Conflict) ==> LenientlyExtends(a, c, first, i + 1, physical, p)
    ensures r != Failure(Misaligned)
    ensures r == Failure(ArenaExhausted) ==> LenientlyExtends(a, c, first, i, physical, p) && |c.tables| == frames
    ensures r == Failure(ArenaExhausted) ==> |a.tables.Keys + HugeTables(first, i + 1)| > frames
    ensures a.tables.Keys <= c.tables.Keys <= a.tables.Keys + HugeTables(first, i + 1)
    ensures r.Success? || r == Failure(Conflict) ==> c.tables.Keys == a.tables.Keys + HugeTables(first, i + 1)
  {
    hide Tree, Walk, HugeChain, HugeTables, PageAt, BlockFree, Adds, LenientlyExtends, SameWalk, TablesGrow;
    HugeTablesStep(first, i);
    if r == Failure(Conflict) { TakenHasChain(b, PageAt(first, 512 * i)); }
    ChainStep(a.tables.Keys, b, c, HugeTables(first, i), HugeChain(PageAt(first, 512 * i)), HugeTables(first, i + 1),
        frames, r);
    LenientAhead(a, b, first, i, physical, p);
    if r.Success? {
      LenientGrows(a, b, c, first, i, physical, p);
    } else if r.error == Conflict {
      LenientSkips(a, b, c, first, i, physical, p);
    } else {
      LenientSame(a, b, c, first, i, physical, p);
    }
  }

  /** A block in which some page translates has its tables already. */
  lemma TakenHasChain(a: Arena, page: nat)
    requires Tree(a) && page < PAGES && !BlockFree(a, page / 512)
    ensures HugeChain(page) <= a.tables.Keys
  {
    hide Tree, Walk;
    var q: nat :| page / 512 * 512 <= q < page / 512 * 512 + 512 && !Walk(a, q).None?;
    TreeIndexed(a);
    WalkIsLookup(a, q);
    if Above(1, q) in a.tables { ClosedUpward(a, 1, q); }
    ClosedUpward(a, 2, q);
    assert Above(2, q) == Above(2, page) && Above(3, q) == Above(3, page);
  }

  lemma LenientSame(a: Arena, b: Arena, c: Arena, first: nat, i: nat, physical: nat, p: Permissions)
    requires first < PAGES && LenientlyExtends(a, b, first, i, physical, p) && SameWalk(b, c)
    ensures LenientlyExtends(a, c, first, i, physical, p)
  {
    hide Walk, BlockFree;
  }
}
