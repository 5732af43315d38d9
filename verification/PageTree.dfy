/**
 The four-level page table as a value: the words of the arena, the address they start at, and
 which table occupies which frame. `Walk` is what the processor does with those words; `Tree` is
 the shape the bootloader keeps them in; the lemmas say what adding a table or a leaf does to
 every translation.
 */
module PageTree {
  import opened Results
  import opened Words
  import opened PageEntry

  /** Virtual pages the four levels can distinguish: 36 bits of page number. */
  const PAGES: nat := 0x10_0000_0000

  /** A table position: its level (4 for the PML4 down to 1) and the page-number bits above it. */
  datatype Node = Node(level: nat, prefix: nat)

  const ROOT := Node(4, 0)

  /** The bits of `page` above the lowest `level` groups of nine. */
  function Prefix(level: nat, page: nat): nat {
    match level
    case 0 => page
    case 1 => page / 512
    case 2 => page / 512 / 512
    case 3 => page / 512 / 512 / 512
    case _ => page / 512 / 512 / 512 / 512
  }

  /** The table at `level` that a walk for `page` passes through. */
  function Above(level: nat, page: nat): Node {
    Node(level, Prefix(level, page))
  }

  function Index(level: nat, page: nat): (i: nat)
    requires 1 <= level <= 4
    ensures i < 512
  {
    Prefix(level - 1, page) % 512
  }

  function Child(n: Node, i: nat): Node
    requires n.level >= 1
  {
    Node(n.level - 1, n.prefix * 512 + i)
  }

  function Parent(n: Node): Node {
    Node(n.level + 1, n.prefix / 512)
  }

  datatype Mapping = Mapping(physical: nat, permissions: Permissions)

  datatype Arena = Arena(words: seq<nat>, base: nat, tables: map<Node, nat>)

  /** The processor's walk from the table at physical address `table`. */
  function WalkFrom(words: seq<nat>, base: nat, table: nat, level: nat, page: nat, w: bool, x: bool): Option<Mapping>
    requires 1 <= level <= 4
    decreases level
  {
    if !(base <= table && (table - base) % PAGE_SIZE == 0 && (table - base) / 8 + 512 <= |words|) then None
    else
      match Decode(words[(table - base) / 8 + Index(level, page)])
      case Absent => None
      case Present(address, writable, huge, noExecute) =>
        var w, x := w && writable, x && !noExecute;
        if level == 1 then Some(Mapping(address, Permissions(w, x)))
        else if huge && level == 4 then None
        else if huge then Some(HugeMapping(address, level, page, w, x))
        else WalkFrom(words, base, address, level - 1, page, w, x)
  }

  /** The page of a large mapping: the leaf gives the upper bits, the page number the rest. */
  function HugeMapping(address: nat, level: nat, page: nat, w: bool, x: bool): Mapping
    requires 2 <= level <= 3
  {
    var span := if level == 2 then 512 else 512 * 512;
    Mapping(address - address % (span * PAGE_SIZE) + page % span * PAGE_SIZE, Permissions(w, x))
  }

  /** The translation of a virtual page: a walk that starts at the PML4, the arena's first frame. */
  function Walk(a: Arena, page: nat): Option<Mapping> {
    WalkFrom(a.words, a.base, a.base, 4, page, true, true)
  }

  ghost predicate SameWalk(a: Arena, b: Arena) {
    forall page: nat :: page < PAGES ==> Walk(b, page) == Walk(a, page)
  }

  ghost predicate Indexed(a: Arena) {
    && (forall n :: n in a.tables ==> 1 <= n.level <= 4 && a.tables[n] < |a.tables|)
    && |a.tables| * 512 <= |a.words|
    && a.base % PAGE_SIZE == 0
    && a.base + |a.words| * 8 <= PHYSICAL_LIMIT
  }

  function At(a: Arena, n: Node, i: nat): Entry
    requires n in a.tables && a.tables[n] * 512 + i < |a.words|
  {
    Decode(a.words[a.tables[n] * 512 + i])
  }

  /** Entry `i` of table `n`: a link to the child table if there is one, else a leaf or nothing. */
  ghost predicate EntryOk(a: Arena, n: Node, i: nat)
    requires Indexed(a) && n in a.tables && i < 512
  {
    var e := At(a, n, i);
    if n.level == 1 then true
    else if Child(n, i) in a.tables then e == Present(a.base + PAGE_SIZE * a.tables[Child(n, i)], true, false, false)
    else e.Absent? || (n.level == 2 && e.huge)
  }

  /**
   The arena holds a tree: every table sits in a frame of its own, is linked from its parent and
   from nowhere else, and frames not yet taken are zero.
   */
  ghost predicate Tree(a: Arena) {
    && Indexed(a) && Shape(a)
    && (forall n, i: nat :: n in a.tables && i < 512 ==> EntryOk(a, n, i))
    && (forall k :: |a.tables| * 512 <= k < |a.words| ==> a.words[k] == 0)
    && AllWords(a)
  }

  /** The PML4 is the first frame, no two tables share a frame, and every other table has its parent. */
  ghost predicate Shape(a: Arena) {
    && ROOT in a.tables && a.tables[ROOT] == 0
    && (forall m, n :: m in a.tables && n in a.tables && a.tables[m] == a.tables[n] ==> m == n)
    && (forall n :: n in a.tables && n != ROOT ==> n.level <= 3 && Parent(n) in a.tables)
  }

  /** Every entry is a 64-bit word. */
  ghost predicate AllWords(a: Arena) {
    forall k :: 0 <= k < |a.words| ==> a.words[k] < WORD
  }

  /** Some entry of page table `n` is in use. */
  ghost predicate Populated(a: Arena, n: Node)
    requires Indexed(a) && n in a.tables
  {
    exists i: nat :: i < 512 && At(a, n, i).Present?
  }

  // ----- arithmetic of positions

  lemma ChildOfAbove(level: nat, page: nat)
    requires 1 <= level <= 4
    ensures Child(Above(level, page), Index(level, page)) == Above(level - 1, page)
    ensures level <= 3 ==> Parent(Above(level, page)) == Above(level + 1, page)
    ensures page < PAGES ==> Above(4, page) == ROOT
  {
  }

  lemma ParentOfChild(n: Node, i: nat)
    requires n.level >= 1 && i < 512
    ensures Parent(Child(n, i)) == n
  {
  }

  // ----- what a walk finds in a tree

  function Leaf(e: Entry): Option<Mapping> {
    match e
    case Absent => None
    case Present(address, w, _, nx) => Some(Mapping(address, Permissions(w, !nx)))
  }

  function HugeLeaf(e: Entry, page: nat): Option<Mapping> {
    match e
    case Absent => None
    case Present(address, w, _, nx) => Some(HugeMapping(address, 2, page, w, !nx))
  }

  /** The translation of `page`, found without walking: at most one table can hold it. */
  ghost function Lookup(a: Arena, page: nat): Option<Mapping>
    requires Indexed(a)
  {
    if Above(1, page) in a.tables then Leaf(At(a, Above(1, page), Index(1, page)))
    else if Above(2, page) in a.tables then HugeLeaf(At(a, Above(2, page), Index(2, page)), page)
    else None
  }

  function TableAddress(a: Arena, n: Node): nat
    requires n in a.tables
  {
    a.base + PAGE_SIZE * a.tables[n]
  }

  /** A table's address leads to its words. */
  lemma SlotOf(a: Arena, n: Node, i: nat)
    requires Indexed(a) && n in a.tables && i < 512
    ensures (TableAddress(a, n) - a.base) % PAGE_SIZE == 0
    ensures (TableAddress(a, n) - a.base) / 8 + i == a.tables[n] * 512 + i < |a.words|
  {
  }

  /** One step of the walk, at a table that is in the arena. */
  lemma WalkUnfold(a: Arena, n: Node, level: nat, page: nat)
    requires Indexed(a) && n in a.tables && 1 <= level <= 4
    ensures WalkFrom(a.words, a.base, TableAddress(a, n), level, page, true, true) ==
            match At(a, n, Index(level, page))
            case Absent => None
            case Present(address, w, huge, nx) =>
              if level == 1 then Some(Mapping(address, Permissions(w, !nx)))
              else if huge && level == 4 then None
              else if huge then Some(HugeMapping(address, level, page, w, !nx))
              else WalkFrom(a.words, a.base, address, level - 1, page, w, !nx)
  {
    hide HugeMapping, Decode;
    SlotOf(a, n, Index(level, page));
    SlotOf(a, n, 511);
  }

  lemma WalkStep(a: Arena, level: nat, page: nat)
    requires Tree(a) && 2 <= level <= 4 && Above(level, page) in a.tables
    ensures WalkFrom(a.words, a.base, TableAddress(a, Above(level, page)), level, page, true, true) ==
            if Above(level - 1, page) in a.tables
            then WalkFrom(a.words, a.base, TableAddress(a, Above(level - 1, page)), level - 1, page, true, true)
            else if level == 2 then HugeLeaf(At(a, Above(2, page), Index(2, page)), page)
            else None
  {
    hide Tree, HugeMapping, Decode, Prefix;
    var n := Above(level, page);
    ChildOfAbove(level, page);
    TreeEntry(a, n, Index(level, page));
    WalkUnfold(a, n, level, page);
  }

  lemma WalkLeaf(a: Arena, page: nat)
    requires Tree(a) && Above(1, page) in a.tables
    ensures WalkFrom(a.words, a.base, TableAddress(a, Above(1, page)), 1, page, true, true) ==
            Leaf(At(a, Above(1, page), Index(1, page)))
  {
    WalkUnfold(a, Above(1, page), 1, page);
  }

  lemma ClosedUpward(a: Arena, level: nat, page: nat)
    requires Tree(a) && 1 <= level <= 3 && Above(level, page) in a.tables
    ensures Above(level + 1, page) in a.tables
  {
    ChildOfAbove(level, page);
  }

  lemma NothingBelow(a: Arena, level: nat, page: nat)
    requires Tree(a) && 2 <= level <= 4 && Above(level, page) !in a.tables
    ensures Above(level - 1, page) !in a.tables
  {
    if Above(level - 1, page) in a.tables { ClosedUpward(a, level - 1, page); }
  }

  lemma TreeEntry(a: Arena, n: Node, i: nat)
    requires Tree(a) && n in a.tables && i < 512
    ensures Indexed(a) && EntryOk(a, n, i)
  {
  }

  lemma TreeRoot(a: Arena)
    requires Tree(a)
    ensures ROOT in a.tables && a.tables[ROOT] == 0
  {
  }

  lemma TreeIndexed(a: Arena)
    requires Tree(a)
    ensures Indexed(a)
  {
  }

  lemma WalkIsLookup(a: Arena, page: nat)
    requires Tree(a) && page < PAGES
    ensures Walk(a, page) == Lookup(a, page)
  {
    ChildOfAbove(4, page);
    WalkStep(a, 4, page);
    if Above(3, page) in a.tables {
      WalkStep(a, 3, page);
      if Above(2, page) in a.tables {
        WalkStep(a, 2, page);
        if Above(1, page) in a.tables { WalkLeaf(a, page); }
      }
    }
    if Above(1, page) in a.tables { ClosedUpward(a, 1, page); }
    if Above(2, page) in a.tables { ClosedUpward(a, 2, page); }
  }

  // ----- growing the tree

  /** A zeroed arena with only the PML4 taken. */
  lemma EmptyTree(a: Arena)
    requires a.tables == map[ROOT := 0]
    requires |a.words| >= 512 && (forall k :: 0 <= k < |a.words| ==> a.words[k] == 0)
    requires a.base % PAGE_SIZE == 0 && a.base + |a.words| * 8 <= PHYSICAL_LIMIT
    ensures Tree(a)
    ensures forall page: nat :: page < PAGES ==> Walk(a, page) == None
  {
    DecodeZero();
    forall page: nat | page < PAGES
      ensures Walk(a, page) == None
    {
      WalkIsLookup(a, page);
    }
  }

  /** The arena after linking the next free frame into slot `i` of table `n`. */
  function WithTable(a: Arena, n: Node, i: nat): Arena
    requires n in a.tables && n.level >= 1 && a.tables[n] * 512 + i < |a.words|
  {
    Arena(a.words[a.tables[n] * 512 + i := TableEntry(a.base + PAGE_SIZE * |a.tables|)], a.base,
          a.tables[Child(n, i) := |a.tables|])
  }

  ghost predicate CanLink(a: Arena, n: Node, i: nat) {
    && Tree(a) && n in a.tables && n.level >= 2 && i < 512
    && Child(n, i) !in a.tables
    && At(a, n, i).Absent?
    && (|a.tables| + 1) * 512 <= |a.words|
  }

  /** The next free frame lies in physical memory. */
  lemma FrameBound(a: Arena)
    requires Tree(a) && (|a.tables| + 1) * 512 <= |a.words|
    ensures a.base + PAGE_SIZE * |a.tables| < PHYSICAL_LIMIT
  {
  }

  lemma SlotsDiffer(a: Arena, m: Node, i: nat, n: Node, j: nat)
    requires Tree(a) && m in a.tables && n in a.tables && i < 512 && j < 512 && (m, i) != (n, j)
    ensures a.tables[m] * 512 + i != a.tables[n] * 512 + j
  {
    if m != n { assert a.tables[m] != a.tables[n]; }
  }

  lemma WithTableIndexed(a: Arena, n: Node, i: nat)
    requires CanLink(a, n, i)
    ensures Indexed(WithTable(a, n, i))
    ensures |WithTable(a, n, i).tables| == |a.tables| + 1
  {
  }

  lemma WithTableEntry(a: Arena, n: Node, i: nat, m: Node, j: nat)
    requires CanLink(a, n, i) && m in WithTable(a, n, i).tables && j < 512
    ensures Indexed(WithTable(a, n, i))
    ensures m == Child(n, i) ==> At(WithTable(a, n, i), m, j) == Absent
    ensures m != Child(n, i) && (m, j) != (n, i) ==> At(WithTable(a, n, i), m, j) == At(a, m, j)
    ensures (m, j) == (n, i) ==>
              At(WithTable(a, n, i), m, j) == Present(a.base + PAGE_SIZE * |a.tables|, true, false, false)
  {
    hide Tree, Decode, At;
    WithTableIndexed(a, n, i);
    if m == Child(n, i) {
      FreshEntry(a, n, i, j);
    } else if m == n && j == i {
      LinkEntry(a, n, i);
    } else {
      OtherEntry(a, n, i, m, j);
    }
  }

  lemma FreshEntry(a: Arena, n: Node, i: nat, j: nat)
    requires CanLink(a, n, i) && j < 512
    ensures Indexed(WithTable(a, n, i)) && At(WithTable(a, n, i), Child(n, i), j) == Absent
  {
    hide EntryOk, Decode, Shape;
    WithTableIndexed(a, n, i);
    DecodeZero();
    assert WithTable(a, n, i).words[|a.tables| * 512 + j] == 0;
  }

  lemma LinkEntry(a: Arena, n: Node, i: nat)
    requires CanLink(a, n, i)
    ensures Indexed(WithTable(a, n, i))
    ensures At(WithTable(a, n, i), n, i) == Present(a.base + PAGE_SIZE * |a.tables|, true, false, false)
  {
    hide EntryOk, Decode, Shape, TableEntry;
    WithTableIndexed(a, n, i);
    DecodeTable(a.base + PAGE_SIZE * |a.tables|);
  }

  lemma OtherEntry(a: Arena, n: Node, i: nat, m: Node, j: nat)
    requires CanLink(a, n, i) && m in a.tables && m != Child(n, i) && j < 512 && (m, j) != (n, i)
    ensures Indexed(WithTable(a, n, i)) && At(WithTable(a, n, i), m, j) == At(a, m, j)
  {
    hide EntryOk, Decode, TableEntry;
    WithTableIndexed(a, n, i);
    SlotsDiffer(a, n, i, m, j);
  }

  lemma LinkKeepsEntry(a: Arena, n: Node, i: nat, m: Node, j: nat)
    requires CanLink(a, n, i) && m in WithTable(a, n, i).tables && j < 512
    ensures Indexed(WithTable(a, n, i))
    ensures EntryOk(WithTable(a, n, i), m, j)
  {
    WithTableEntry(a, n, i, m, j);
    if m.level >= 2 {
      ParentOfChild(m, j);
      ParentOfChild(n, i);
      if m != Child(n, i) { assert EntryOk(a, m, j); }
    }
  }

  lemma LinkKeepsWords(a: Arena, n: Node, i: nat)
    requires CanLink(a, n, i)
    ensures AllWords(WithTable(a, n, i))
    ensures
      var b := WithTable(a, n, i);
      forall k :: |b.tables| * 512 <= k < |b.words| ==> b.words[k] == 0
  {
    hide TableEntry, EntryOk, Decode;
    EntryBound(a.base + PAGE_SIZE * |a.tables|, READ_ONLY);
  }

  lemma LinkKeepsShape(a: Arena, n: Node, i: nat)
    requires CanLink(a, n, i)
    ensures Shape(WithTable(a, n, i))
  {
    hide TableEntry, EntryOk, Decode;
    ParentOfChild(n, i);
  }

  lemma LinkKeepsTree(a: Arena, n: Node, i: nat)
    requires CanLink(a, n, i)
    ensures Tree(WithTable(a, n, i))
  {
    hide EntryOk, WithTable;
    LinkKeepsWords(a, n, i);
    LinkKeepsShape(a, n, i);
    var b := WithTable(a, n, i);
    WithTableIndexed(a, n, i);
    forall m, j: nat | m in b.tables && j < 512
      ensures EntryOk(b, m, j)
    {
      LinkKeepsEntry(a, n, i, m, j);
    }
  }

  lemma LinkLookup(a: Arena, n: Node, i: nat, page: nat)
    requires CanLink(a, n, i)
    ensures Indexed(WithTable(a, n, i))
    ensures Lookup(WithTable(a, n, i), page) == Lookup(a, page)
  {
    var c := Child(n, i);
    WithTableEntry(a, n, i, n, i);
    ParentOfChild(n, i);
    ChildOfAbove(1, page);
    ChildOfAbove(2, page);
    if Above(1, page) in a.tables {
      WithTableEntry(a, n, i, Above(1, page), Index(1, page));
    } else if Above(1, page) == c {
      WithTableEntry(a, n, i, c, Index(1, page));
      assert Above(2, page) == n && Index(2, page) == i;
    } else if Above(2, page) == c {
      WithTableEntry(a, n, i, c, Index(2, page));
    } else if Above(2, page) in a.tables {
      WithTableEntry(a, n, i, Above(2, page), Index(2, page));
    }
  }

  /** A fresh, empty table changes no translation. */
  lemma LinkKeepsWalks(a: Arena, n: Node, i: nat)
    requires CanLink(a, n, i)
    ensures SameWalk(a, WithTable(a, n, i))
  {
    LinkKeepsTree(a, n, i);
    forall page: nat | page < PAGES
      ensures Walk(WithTable(a, n, i), page) == Walk(a, page)
    {
      WalkIsLookup(a, page);
      WalkIsLookup(WithTable(a, n, i), page);
      LinkLookup(a, n, i, page);
    }
  }

  /** The arena after writing `entry` into slot `i` of table `n`. */
  function WithLeaf(a: Arena, n: Node, i: nat, entry: nat): Arena
    requires n in a.tables && a.tables[n] * 512 + i < |a.words|
  {
    Arena(a.words[a.tables[n] * 512 + i := entry], a.base, a.tables)
  }

  ghost predicate CanPlace(a: Arena, n: Node, i: nat, entry: nat) {
    && Tree(a) && n in a.tables && i < 512
    && At(a, n, i).Absent?
    && entry < WORD && Decode(entry).Present?
    && (n.level == 1 || (n.level == 2 && Child(n, i) !in a.tables && Decode(entry).huge))
  }

  lemma WithLeafEntry(a: Arena, n: Node, i: nat, entry: nat, m: Node, j: nat)
    requires CanPlace(a, n, i, entry) && m in a.tables && j < 512
    ensures Indexed(WithLeaf(a, n, i, entry))
    ensures At(WithLeaf(a, n, i, entry), m, j) == if (m, j) == (n, i) then Decode(entry) else At(a, m, j)
  {
    if (m, j) != (n, i) { SlotsDiffer(a, n, i, m, j); }
  }

  lemma PlaceKeepsTree(a: Arena, n: Node, i: nat, entry: nat)
    requires CanPlace(a, n, i, entry)
    ensures Tree(WithLeaf(a, n, i, entry))
  {
    var b := WithLeaf(a, n, i, entry);
    WithLeafEntry(a, n, i, entry, n, i);
    forall m, j: nat | m in b.tables && j < 512
      ensures EntryOk(b, m, j)
    {
      WithLeafEntry(a, n, i, entry, m, j);
      assert EntryOk(a, m, j);
    }
  }

  /** `b` is `a` with entry `e` in slot `i` of table `n`. */
  ghost predicate OneSlot(a: Arena, b: Arena, n: Node, i: nat, e: Entry) {
    && Indexed(a) && Indexed(b) && a.tables == b.tables && |a.words| == |b.words| && n in a.tables
    && (forall m, j: nat :: m in a.tables && j < 512 ==>
                              At(b, m, j) == if m == n && j == i then e else At(a, m, j))
  }

  lemma SmallLookup(a: Arena, b: Arena, page: nat, e: Entry, q: nat)
    requires OneSlot(a, b, Above(1, page), Index(1, page), e)
    ensures Lookup(b, q) == if q == page then Leaf(e) else Lookup(a, q)
  {
    var n, i := Above(1, q), Index(1, q);
    assert n == Above(1, page) && i == Index(1, page) ==> q == page;
    if n in a.tables {
      assert At(b, n, i) == if q == page then e else At(a, n, i);
    } else if Above(2, q) in a.tables {
      assert At(b, Above(2, q), Index(2, q)) == At(a, Above(2, q), Index(2, q));
    }
  }

  lemma HugeLookup(a: Arena, b: Arena, page: nat, e: Entry, q: nat)
    requires OneSlot(a, b, Above(2, page), Index(2, page), e) && Above(1, page) !in a.tables
    ensures Lookup(b, q) == if q / 512 == page / 512 then HugeLeaf(e, q) else Lookup(a, q)
  {
    var n, i := Above(2, q), Index(2, q);
    assert n == Above(2, page) && i == Index(2, page) <==> q / 512 == page / 512;
    if Above(1, q) in a.tables {
      assert At(b, Above(1, q), Index(1, q)) == At(a, Above(1, q), Index(1, q));
    } else if n in a.tables {
      assert At(b, n, i) == if q / 512 == page / 512 then e else At(a, n, i);
    }
  }

  lemma PlaceIsOneSlot(a: Arena, n: Node, i: nat, entry: nat)
    requires CanPlace(a, n, i, entry)
    ensures OneSlot(a, WithLeaf(a, n, i, entry), n, i, Decode(entry))
  {
    WithLeafEntry(a, n, i, entry, n, i);
    forall m, j: nat | m in a.tables && j < 512 {
      WithLeafEntry(a, n, i, entry, m, j);
    }
  }

  /** A 4 KiB leaf changes the translation of its own page and of no other. */
  lemma PlaceSmall(a: Arena, page: nat, entry: nat)
    requires page < PAGES && CanPlace(a, Above(1, page), Index(1, page), entry)
    ensures forall q: nat :: q < PAGES ==>
              Walk(WithLeaf(a, Above(1, page), Index(1, page), entry), q) ==
              if q == page then Leaf(Decode(entry)) else Walk(a, q)
  {
    var n, i := Above(1, page), Index(1, page);
    var b := WithLeaf(a, n, i, entry);
    PlaceKeepsTree(a, n, i, entry);
    PlaceIsOneSlot(a, n, i, entry);
    forall q: nat | q < PAGES
      ensures Walk(b, q) == if q == page then Leaf(Decode(entry)) else Walk(a, q)
    {
      WalkIsLookup(a, q);
      WalkIsLookup(b, q);
      SmallLookup(a, b, page, Decode(entry), q);
    }
  }

  /** A 2 MiB leaf changes the translation of its 512 pages and of no other. */
  lemma PlaceHuge(a: Arena, page: nat, entry: nat)
    requires page < PAGES && CanPlace(a, Above(2, page), Index(2, page), entry)
    ensures forall q: nat :: q < PAGES ==>
              Walk(WithLeaf(a, Above(2, page), Index(2, page), entry), q) ==
              if q / 512 == page / 512 then HugeLeaf(Decode(entry), q) else Walk(a, q)
  {
    var n, i := Above(2, page), Index(2, page);
    var b := WithLeaf(a, n, i, entry);
    PlaceKeepsTree(a, n, i, entry);
    PlaceIsOneSlot(a, n, i, entry);
    ChildOfAbove(2, page);
    forall q: nat | q < PAGES
      ensures Walk(b, q) == if q / 512 == page / 512 then HugeLeaf(Decode(entry), q) else Walk(a, q)
    {
      WalkIsLookup(a, q);
      WalkIsLookup(b, q);
      HugeLookup(a, b, page, Decode(entry), q);
    }
  }
}
