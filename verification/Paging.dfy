/**
 `PageTables`: the bootloader's table builder. Tables are carved out of one zeroed arena by bumping
 `nextFrame`, and entries are written in place. Every operation is specified by what it does to the
 processor's walk of the arena.
 */
module Paging {
  import opened Results
  import opened Words
  import opened Arithmetic
  import opened PageEntry
  import opened PageTree
  import opened PageSteps

  class PageTables {
    const arena: array<nat>
    const arenaBase: nat
    const arenaFrames: nat
    var pml4: nat
    var nextFrame: nat
    ghost var tables: map<Node, nat>

    ghost function State(): Arena
      reads this, arena
    {
      Arena(arena[..], arenaBase, tables)
    }

    /** The arena is a tree and `nextFrame` counts its tables. */
    ghost predicate Shaped()
      reads this, arena
    {
      && arena.Length == arenaFrames * 512
      && pml4 == arenaBase
      && nextFrame == |tables|
      && Tree(State())
    }

    ghost predicate Valid()
      reads this, arena
    {
      Shaped() && AllPopulated(State())
    }

    /** Frames used are tables created. */
    lemma FramesUsed()
      requires Valid()
      ensures nextFrame == |tables.Keys| <= arenaFrames
    {
      assert |tables| * 512 <= arena.Length;
    }

    /** The arena as `new` leaves it: zeroed by the caller below, nothing taken. */
    constructor (arena: array<nat>, arenaBase: nat)
      requires arena.Length % 512 == 0
      ensures this.arena == arena && this.arenaBase == arenaBase && arenaFrames == arena.Length / 512
      ensures nextFrame == 0 && pml4 == 0 && tables == map[]
    {
      this.arena := arena;
      this.arenaBase := arenaBase;
      this.arenaFrames := arena.Length / 512;
      pml4, nextFrame, tables := 0, 0, map[];
    }

    /**
     Takes ownership of an arena of whole frames that lies in physical memory. Everything in it is
     overwritten with zero, and one frame becomes the PML4.
     */
    static method New(arena: array<nat>, arenaBase: nat) returns (r: Result<PageTables, PagingError>)
      requires arena.Length % 512 == 0 && arenaBase + arena.Length * 8 <= PHYSICAL_LIMIT
      modifies arena
      ensures r.Failure? <==> arenaBase % PAGE_SIZE != 0 || arena.Length == 0
      ensures r.Failure? ==> r.error == Misaligned && arena[..] == old(arena[..])
      ensures r.Success? ==>
                && fresh(r.value) && r.value.arena == arena && r.value.arenaBase == arenaBase
                && r.value.arenaFrames == arena.Length / 512
                && r.value.Valid() && r.value.tables == map[ROOT := 0]
                && (forall page: nat :: page < PAGES ==> Walk(r.value.State(), page).None?)
    {
      if arenaBase % PAGE_SIZE != 0 || arena.Length == 0 {
        return Failure(Misaligned);
      }
      for k := 0 to arena.Length
        invariant forall j :: 0 <= j < k ==> arena[j] == 0
      {
        arena[k] := 0;
      }
      var t := new PageTables(arena, arenaBase);
      var frame := t.TakeFrame();
      t.pml4 := frame.value;
      t.tables := map[ROOT := 0];
      EmptyTree(t.State());
      r := Success(t);
    }

    method TakeFrame() returns (r: Result<nat, PagingError>)
      modifies this`nextFrame
      ensures nextFrame == old(nextFrame) + (if r.Success? then 1 else 0)
      ensures r == if old(nextFrame) >= arenaFrames then Failure(ArenaExhausted)
                   else Success(arenaBase + old(nextFrame) * PAGE_SIZE)
    {
      if nextFrame >= arenaFrames {
        return Failure(ArenaExhausted);
      }
      var address := arenaBase + nextFrame * PAGE_SIZE;
      nextFrame := nextFrame + 1;
      r := Success(address);
    }

    /** The arena word that entry `index` of the table at physical address `table` occupies. */
    function Slot(table: nat, index: nat): nat
      requires table >= arenaBase
    {
      (table - arenaBase) / 8 + index
    }

    /** A table pointer and an index that stay inside the arena. */
    ghost predicate InArena(table: nat, index: nat) {
      table >= arenaBase && index < 512 && Slot(table, index) < arena.Length
    }

    lemma SlotOfTable(n: Node, index: nat)
      requires Shaped() && n in tables && index < 512
      ensures InArena(TableAddress(State(), n), index)
      ensures Slot(TableAddress(State(), n), index) == tables[n] * 512 + index < arena.Length
    {
      SlotOf(State(), n, index);
    }

    function ReadEntry(table: nat, index: nat): nat
      requires InArena(table, index)
      reads this, arena
    {
      arena[Slot(table, index)]
    }

    method WriteEntry(table: nat, index: nat, value: nat)
      requires InArena(table, index) && value < WORD
      modifies arena
      ensures arena[..] == old(arena[..])[Slot(table, index) := value]
    {
      arena[Slot(table, index)] := value;
    }

    /** Returns the table linked at `index` of table `n`, linking in a fresh one if there is none. */
    method Descend(table: nat, index: nat, ghost n: Node) returns (r: Result<nat, PagingError>)
      requires Shaped() && n in tables && n.level >= 2 && index < 512
      requires table == TableAddress(State(), n)
      modifies this`nextFrame, this`tables, arena
      ensures Shaped() && Grown(old(State()), State())
      ensures r.Failure? ==> State() == old(State()) && Child(n, index) !in tables
      ensures r == Failure(Conflict) <==>
                n.level == 2 && Child(n, index) !in old(tables) && At(old(State()), n, index).Present?
      ensures r.Failure? && r.error != Conflict ==> r.error == ArenaExhausted && nextFrame == arenaFrames
      ensures r.Failure? && r.error != Conflict ==> At(State(), n, index).Absent?
      ensures r.Success? ==>
                && Child(n, index) in tables && r.value == TableAddress(State(), Child(n, index))
                && tables.Keys == old(tables.Keys) + {Child(n, index)}
                && (Child(n, index) !in old(tables) ==>
                      forall j: nat :: j < 512 ==> At(State(), Child(n, index), j).Absent?)
    {
      hide Tree, Grown, Decode, And, Slot;
      ghost var a := State();
      ghost var c := Child(n, index);
      TreeEntry(a, n, index);
      GrownReflexive(a);
      SlotOfTable(n, index);
      var entry := ReadEntry(table, index);
      DecodeTests(entry);
      assert Decode(entry) == At(a, n, index);
      if And(entry, PRESENT) != 0 {
        if And(entry, HUGE) != 0 {
          return Failure(Conflict);
        }
        assert c in tables;
        assert tables.Keys == tables.Keys + {c};
        return Success(And(entry, ADDRESS_MASK));
      }
      var frame := TakeFrame();
      if frame.Failure? {
        return Failure(frame.error);
      }
      assert CanLink(a, n, index);
      FrameBound(a);
      EntryBound(frame.value, READ_ONLY);
      WriteEntry(table, index, Or(Or(frame.value, PRESENT), WRITABLE));
      tables := tables[c := |tables|];
      assert State() == WithTable(a, n, index);
      GrownByLink(a, n, index);
      WithTableIndexed(a, n, index);
      forall j: nat | j < 512
        ensures At(State(), c, j).Absent?
      {
        WithTableEntry(a, n, index, c, j);
      }
      r := Success(frame.value);
    }

    /** The two descents that `map_page` and `map_huge_page` share: to the page directory of `page`. */
    method DescendToDirectory(virtual: nat, ghost page: nat) returns (r: Result<nat, PagingError>)
      requires Shaped() && page == PageOf(virtual)
      modifies this`nextFrame, this`tables, arena
      ensures Shaped() && Grown(old(State()), State())
      ensures tables.Keys <= old(tables).Keys + HugeChain(page)
      ensures r.Failure? ==> r.error == ArenaExhausted && nextFrame == arenaFrames && Above(2, page) !in tables
      ensures r.Success? ==>
                && tables.Keys == old(tables).Keys + HugeChain(page)
                && r.value == TableAddress(State(), Above(2, page))
                && (Above(2, page) !in old(tables) ==> At(State(), Above(2, page), Index(2, page)).Absent?)
    {
      hide Tree, Grown, Decode, And, Prefix;
      ghost var a := State();
      IndexHelpers(virtual);
      ChildOfAbove(4, page);
      ChildOfAbove(3, page);
      TreeRoot(a);
      var pdpt := Descend(pml4, Pml4Index(virtual), ROOT);
      if pdpt.Failure? {
        NothingBelow(State(), 3, page);
        return pdpt;
      }
      ghost var b := State();
      r := Descend(pdpt.value, PdptIndex(virtual), Above(3, page));
      GrownTransitive(a, b, State());
      TwoSteps(a.tables.Keys, b.tables.Keys, tables.Keys, Above(3, page), Above(2, page));
    }

    /** Maps one 4 KiB page. */
    method MapPage(virtual: nat, physical: nat, p: Permissions) returns (r: Result<Done, PagingError>)
      requires Valid() && physical < PHYSICAL_LIMIT
      modifies this`nextFrame, this`tables, arena
      ensures Valid()
      ensures if virtual % PAGE_SIZE == 0 && physical % PAGE_SIZE == 0
              then SmallOutcome(old(State()), State(), arenaFrames, PageOf(virtual), physical, p, r)
              else r == Failure(Misaligned) && State() == old(State())
    {
      hide Tree, Grown, AllPopulated, SmallOutcome, Walk, Decode, And, Prefix;
      if virtual % PAGE_SIZE != 0 || physical % PAGE_SIZE != 0 {
        return Failure(Misaligned);
      }
      ghost var a, page := State(), PageOf(virtual);
      var pd := DescendToDirectory(virtual, page);
      if pd.Failure? {
        NothingBelow(State(), 2, page);
        SmallRunsOut(a, State(), page, arenaFrames, physical, p);
        return Failure(pd.error);
      }
      IndexHelpers(virtual);
      ChildOfAbove(2, page);
      ghost var b := State();
      var pt := Descend(pd.value, PdIndex(virtual), Above(2, page));
      GrownTransitive(a, b, State());
      if pt.Failure? {
        if pt.error == Conflict {
          WalkIsLookup(b, page);
          ChainPresent(a, b, page);
          SmallConflicts(a, b, page, arenaFrames, physical, p);
        } else {
          SmallRunsOut(a, b, page, arenaFrames, physical, p);
        }
        return Failure(pt.error);
      }
      TreeIndexed(State());
      ThreeSteps(a.tables.Keys, b.tables.Keys, tables.Keys, Above(3, page), Above(2, page), Above(1, page));
      r := WriteSmall(pt.value, PtIndex(virtual), physical, p, a, page);
    }

    /** The last step of `map_page`: write the leaf unless the slot is taken. */
    method WriteSmall(pt: nat, index: nat, physical: nat, p: Permissions, ghost a: Arena, ghost page: nat)
      returns (r: Result<Done, PagingError>)
      requires Shaped() && page < PAGES && PhysicalPage(physical)
      requires Descended(a, State(), SmallChain(page), arenaFrames) && AllPopulated(a)
      requires pt == TableAddress(State(), Above(1, page)) && index == Index(1, page)
      requires Above(1, page) !in a.tables ==> At(State(), Above(1, page), Index(1, page)).Absent?
      modifies arena
      ensures Valid()
      ensures SmallOutcome(a, State(), arenaFrames, page, physical, p, r)
    {
      hide Tree, Grown, AllPopulated, SmallOutcome, SmallEntry, Decode, And, Prefix, Slot;
      ghost var b := State();
      GrownTrees(a, b);
      SlotOfTable(Above(1, page), index);
      var existing := ReadEntry(pt, index);
      DecodeTests(existing);
      if And(existing, PRESENT) != 0 {
        SmallSlotTaken(a, b, page, arenaFrames, physical, p);
        return Failure(Conflict);
      }
      SmallWrites(a, b, page, arenaFrames, physical, p);
      WriteEntry(pt, index, SmallEntry(physical, p));
      assert State() == WithLeaf(b, Above(1, page), index, SmallEntry(physical, p));
      r := Success(Done);
    }

    /** Maps one 2 MiB page. */
    method MapHugePage(virtual: nat, physical: nat, p: Permissions) returns (r: Result<Done, PagingError>)
      requires Valid() && physical < PHYSICAL_LIMIT
      modifies this`nextFrame, this`tables, arena
      ensures Valid()
      ensures if virtual % HUGE_PAGE_SIZE == 0 && physical % HUGE_PAGE_SIZE == 0
              then HugeOutcome(old(State()), State(), arenaFrames, PageOf(virtual), physical, p, r)
              else r == Failure(Misaligned) && State() == old(State())
    {
      hide Tree, Grown, AllPopulated, HugeOutcome, Decode, And, Prefix, Slot, HugeEntry, PageOf;
      if virtual % HUGE_PAGE_SIZE != 0 || physical % HUGE_PAGE_SIZE != 0 {
        return Failure(Misaligned);
      }
      ghost var a, page := State(), PageOf(virtual);
      var pd := DescendToDirectory(virtual, page);
      ghost var b := State();
      GrownTrees(a, b);
      TreeIndexed(b);
      if pd.Failure? {
        NothingBelow(b, 2, page);
        HugeRunsOut(a, b, page, arenaFrames, physical, p);
        return Failure(pd.error);
      }
      IndexHelpers(virtual);
      HugeAligned(virtual);
      HugeIsPage(physical);
      r := WriteHuge(pd.value, PdIndex(virtual), physical, p, a, page);
    }

    /** The last step of `map_huge_page`: write the leaf unless the slot is taken. */
    method WriteHuge(pd: nat, index: nat, physical: nat, p: Permissions, ghost a: Arena, ghost page: nat)
      returns (r: Result<Done, PagingError>)
      requires Shaped() && page < PAGES && page % 512 == 0
      requires PhysicalPage(physical) && physical % HUGE_PAGE_SIZE == 0
      requires Descended(a, State(), HugeChain(page), arenaFrames) && AllPopulated(a)
      requires pd == TableAddress(State(), Above(2, page)) && index == Index(2, page)
      requires Above(2, page) !in a.tables ==> At(State(), Above(2, page), Index(2, page)).Absent?
      modifies arena
      ensures Valid()
      ensures HugeOutcome(a, State(), arenaFrames, page, physical, p, r)
    {
      hide Tree, Grown, AllPopulated, HugeOutcome, HugeEntry, Decode, And, Prefix, Slot;
      ghost var b := State();
      GrownTrees(a, b);
      SlotOfTable(Above(2, page), index);
      var existing := ReadEntry(pd, index);
      DecodeTests(existing);
      if And(existing, PRESENT) != 0 {
        HugeSlotTaken(a, b, page, arenaFrames, physical, p);
        return Failure(Conflict);
      }
      DecodeHuge(physical, p);
      EntryBound(physical, p);
      EmptySlotHasNoChild(b, page);
      LeafPopulates(a, b, Above(2, page), index, HugeEntry(physical, p));
      HugeSucceeds(a, b, page, arenaFrames, physical, p);
      WriteEntry(pd, index, HugeEntry(physical, p));
      assert State() == WithLeaf(b, Above(2, page), index, HugeEntry(physical, p));
      r := Success(Done);
    }

    /**
     Maps `length` bytes, rounded up, with 4 KiB pages. Stops at the first page refused, with the
     `done` pages before it mapped.
     */
    method MapRange(virtual: nat, physical: nat, length: nat, p: Permissions)
      returns (r: Result<Done, PagingError>, ghost done: nat)
      requires Valid() && virtual + length <= WORD && physical + length <= PHYSICAL_LIMIT
      modifies this`nextFrame, this`tables, arena
      ensures Valid()
      ensures done <= CeilDiv(length, PAGE_SIZE) && (r.Success? <==> done == CeilDiv(length, PAGE_SIZE))
      ensures Extends(old(State()), State(), PageOf(virtual), done, physical, p)
      ensures old(tables).Keys <= tables.Keys <=
                old(tables).Keys + SmallTables(PageOf(virtual), CeilDiv(length, PAGE_SIZE))
      ensures r.Success? ==> tables.Keys == old(tables).Keys + SmallTables(PageOf(virtual), done)
      ensures r == Failure(Misaligned) <==> length > 0 && (virtual % PAGE_SIZE != 0 || physical % PAGE_SIZE != 0)
      ensures r == Failure(Misaligned) ==> State() == old(State())
      ensures r == Failure(Conflict) ==> done == PAGES || Walk(old(State()), PageAt(PageOf(virtual), done)).Some?
      ensures r == Failure(ArenaExhausted) ==>
                && nextFrame == arenaFrames
                && |old(tables).Keys + SmallTables(PageOf(virtual), CeilDiv(length, PAGE_SIZE))| > arenaFrames
    {
      hide Tree, AllPopulated, Extends, SmallTables, SmallOutcome, Walk, PageAt, PageOf, CeilDiv;
      CeilDivBounds(length, PAGE_SIZE);
      var pages := CeilDiv(length, PAGE_SIZE);
      ghost var a, first := State(), PageOf(virtual);
      ExtendsNothing(a, first, physical, p);
      NoTables(a.tables.Keys, first);
      done := 0;
      for i := 0 to pages
        invariant Valid() && done == i
        invariant Extends(a, State(), first, i, physical, p)
        invariant tables.Keys == a.tables.Keys + SmallTables(first, i)
        invariant i > 0 ==> virtual % PAGE_SIZE == 0 && physical % PAGE_SIZE == 0
        invariant i == 0 ==> State() == a
      {
        ghost var b := State();
        var offset := i * PAGE_SIZE;
        NextPage(virtual, i);
        StepOfRange(virtual, length, PAGE_SIZE, i);
        StepOfRange(physical, length, PAGE_SIZE, i);
        var step := MapPage(virtual + offset, physical + offset, p);
        SmallTablesMonotone(first, i, pages);
        SmallTablesMonotone(first, i + 1, pages);
        if virtual % PAGE_SIZE == 0 && physical % PAGE_SIZE == 0 {
          SmallRangeStep(a, b, State(), arenaFrames, first, i, physical, p, step);
          if step == Failure(ArenaExhausted) {
            StillOverfull(a.tables.Keys, SmallTables(first, i + 1), SmallTables(first, pages), arenaFrames);
          }
        }
        if step.Failure? {
          return step, i;
        }
        done := i + 1;
      }
      r := Success(Done);
    }

    /** The same with 2 MiB pages. */
    method MapHugeRange(virtual: nat, physical: nat, length: nat, p: Permissions)
      returns (r: Result<Done, PagingError>, ghost done: nat)
      requires Valid() && virtual + length <= WORD && physical + length <= PHYSICAL_LIMIT
      modifies this`nextFrame, this`tables, arena
      ensures Valid()
      ensures done <= CeilDiv(length, HUGE_PAGE_SIZE) && (r.Success? <==> done == CeilDiv(length, HUGE_PAGE_SIZE))
      ensures Extends(old(State()), State(), PageOf(virtual), 512 * done, physical, p)
      ensures old(tables).Keys <= tables.Keys <=
                old(tables).Keys + HugeTables(PageOf(virtual), CeilDiv(length, HUGE_PAGE_SIZE))
      ensures r.Success? ==> tables.Keys == old(tables).Keys + HugeTables(PageOf(virtual), done)
      ensures r == Failure(Misaligned) <==>
              length > 0 && (virtual % HUGE_PAGE_SIZE != 0 || physical % HUGE_PAGE_SIZE != 0)
      ensures r == Failure(Conflict) ==>
                512 * done == PAGES || !BlockFree(old(State()), PageAt(PageOf(virtual), 512 * done) / 512)
      ensures r == Failure(ArenaExhausted) ==>
                && nextFrame == arenaFrames
                && |old(tables).Keys + HugeTables(PageOf(virtual), CeilDiv(length, HUGE_PAGE_SIZE))| > arenaFrames
    {
      hide Tree, AllPopulated, Extends, HugeTables, HugeOutcome, Walk, PageAt, PageOf, CeilDiv, BlockFree;
      CeilDivBounds(length, HUGE_PAGE_SIZE);
      var pages := CeilDiv(length, HUGE_PAGE_SIZE);
      ghost var a, first := State(), PageOf(virtual);
      ExtendsNothing(a, first, physical, p);
      NoTables(a.tables.Keys, first);
      done := 0;
      for i := 0 to pages
        invariant Valid() && done == i
        invariant Extends(a, State(), first, 512 * i, physical, p)
        invariant tables.Keys == a.tables.Keys + HugeTables(first, i)
        invariant i > 0 ==> virtual % HUGE_PAGE_SIZE == 0 && physical % HUGE_PAGE_SIZE == 0
      {
        ghost var b := State();
        var offset := i * HUGE_PAGE_SIZE;
        NextPage(virtual, 512 * i);
        StepOfRange(virtual, length, HUGE_PAGE_SIZE, i);
        StepOfRange(physical, length, HUGE_PAGE_SIZE, i);
        var step := MapHugePage(virtual + offset, physical + offset, p);
        HugeTablesMonotone(first, i, pages);
        HugeTablesMonotone(first, i + 1, pages);
        if virtual % HUGE_PAGE_SIZE == 0 && physical % HUGE_PAGE_SIZE == 0 {
          HugeAligned(virtual);
          HugeRangeStep(a, b, State(), arenaFrames, first, i, physical, p, step);
          if step == Failure(ArenaExhausted) {
            StillOverfull(a.tables.Keys, HugeTables(first, i + 1), HugeTables(first, pages), arenaFrames);
          }
        }
        if step.Failure? {
          return step, i;
        }
        done := i + 1;
      }
      r := Success(Done);
    }

    /** The same with 2 MiB pages, treating an existing mapping as success. */
    method MapHugeRangeLenient(virtual: nat, physical: nat, length: nat, p: Permissions)
      returns (r: Result<Done, PagingError>, ghost done: nat)
      requires Valid() && virtual + length <= WORD && physical + length <= PHYSICAL_LIMIT
      modifies this`nextFrame, this`tables, arena
      ensures Valid()
      ensures done <= CeilDiv(length, HUGE_PAGE_SIZE) && (r.Success? <==> done == CeilDiv(length, HUGE_PAGE_SIZE))
      ensures LenientlyExtends(old(State()), State(), PageOf(virtual), done, physical, p)
      ensures old(tables).Keys <= tables.Keys <=
                old(tables).Keys + HugeTables(PageOf(virtual), CeilDiv(length, HUGE_PAGE_SIZE))
      ensures r.Success? ==> tables.Keys == old(tables).Keys + HugeTables(PageOf(virtual), done)
      ensures r != Failure(Conflict)
      ensures r == Failure(Misaligned) <==>
              length > 0 && (virtual % HUGE_PAGE_SIZE != 0 || physical % HUGE_PAGE_SIZE != 0)
      ensures r == Failure(ArenaExhausted) ==>
                && nextFrame == arenaFrames
                && |old(tables).Keys + HugeTables(PageOf(virtual), CeilDiv(length, HUGE_PAGE_SIZE))| > arenaFrames
    {
      hide Tree, AllPopulated, LenientlyExtends, HugeTables, HugeOutcome, PageAt, PageOf, CeilDiv;
      CeilDivBounds(length, HUGE_PAGE_SIZE);
      var pages := CeilDiv(length, HUGE_PAGE_SIZE);
      ghost var a, first := State(), PageOf(virtual);
      LenientNothing(a, first, physical, p);
      NoTables(a.tables.Keys, first);
      done := 0;
      for i := 0 to pages
        invariant Valid() && done == i
        invariant LenientlyExtends(a, State(), first, i, physical, p)
        invariant tables.Keys == a.tables.Keys + HugeTables(first, i)
        invariant i > 0 ==> virtual % HUGE_PAGE_SIZE == 0 && physical % HUGE_PAGE_SIZE == 0
      {
        ghost var b := State();
        var offset := i * HUGE_PAGE_SIZE;
        NextPage(virtual, 512 * i);
        StepOfRange(virtual, length, HUGE_PAGE_SIZE, i);
        StepOfRange(physical, length, HUGE_PAGE_SIZE, i);
        var step := MapHugePage(virtual + offset, physical + offset, p);
        HugeTablesMonotone(first, i, pages);
        HugeTablesMonotone(first, i + 1, pages);
        if virtual % HUGE_PAGE_SIZE == 0 && physical % HUGE_PAGE_SIZE == 0 {
          HugeAligned(virtual);
          LenientRangeStep(a, b, State(), arenaFrames, first, i, physical, p, step);
          if step == Failure(ArenaExhausted) {
            StillOverfull(a.tables.Keys, HugeTables(first, i + 1), HugeTables(first, pages), arenaFrames);
          }
        }
        if step.Failure? && step.error != Conflict {
          return step, i;
        }
        done := i + 1;
      }
      r := Success(Done);
    }
  }
}
