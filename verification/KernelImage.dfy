/**
 Placing the kernel: copying its segments into the memory allocated for it and mapping each at its
 linked address. Copying assumes nothing about how segments lie to each other; it is the success of
 the mapping that proves they share no page.
 */
module KernelImage {
  import opened Results
  import opened Words
  import opened Arithmetic
  import opened PageEntry
  import opened PageTree
  import opened PageSteps
  import opened Paging
  import opened Elf

  // ----- copying

  /** Byte `i` of a segment in memory: from the file as far as that goes, then zero. */
  function ByteOf(data: seq<Byte>, s: Segment, i: nat): Byte
    requires InFile(data, s) && i < s.memorySize
  {
    if i < s.fileSize then data[s.fileOffset + i] else 0
  }

  /** Segment `s` occupies the byte at a virtual address. */
  predicate Occupies(s: Segment, address: nat) {
    s.virtualAddress <= address < End(s)
  }

  /** Byte `k` of the kernel's memory once the segments have been copied in turn over `before`. */
  ghost function Copied(data: seq<Byte>, segments: seq<Segment>, low: nat, k: nat, before: Byte): Byte
    requires forall s :: s in segments ==> InFile(data, s)
  {
    if |segments| == 0 then before
    else
      var s := segments[|segments| - 1];
      if Occupies(s, low + k) then ByteOf(data, s, low + k - s.virtualAddress)
      else Copied(data, segments[..|segments| - 1], low, k, before)
  }

  /** Every segment lies in `[low, low + size)`. */
  ghost predicate Placed(segments: seq<Segment>, low: nat, size: nat) {
    forall s :: s in segments ==> low <= s.virtualAddress && End(s) <= low + size
  }

  method CopySegments(image: Image, segments: seq<Segment>, low: nat, memory: array<Byte>)
    requires forall s :: s in segments ==> InFile(image.data, s)
    requires Placed(segments, low, memory.Length)
    modifies memory
    ensures forall k :: 0 <= k < memory.Length ==> memory[k] == Copied(image.data, segments, low, k, old(memory[k]))
  {
    ghost var data := image.data;
    for j := 0 to |segments|
      invariant forall k :: 0 <= k < memory.Length ==> memory[k] == Copied(data, segments[..j], low, k, old(memory[k]))
    {
      var s := segments[j];
      assert s in segments;
      var destination := s.virtualAddress - low;
      var source := SegmentData(image, s);
      ghost var before := memory[..];
      forall i | 0 <= i < |source| {
        memory[destination + i] := source[i];
      }
      forall i | |source| <= i < s.memorySize {
        memory[destination + i] := 0;
      }
      assert segments[..j + 1][..j] == segments[..j];
      forall k | 0 <= k < memory.Length
        ensures memory[k] == Copied(data, segments[..j + 1], low, k, old(memory[k]))
      {
        if Occupies(s, low + k) {
          var i := k - destination;
          assert memory[destination + i] == ByteOf(data, s, i);
        } else {
          assert memory[k] == before[k];
        }
      }
    }
    assert segments[..|segments|] == segments;
  }

  /** No two segments share a byte. */
  ghost predicate BytesDisjoint(segments: seq<Segment>) {
    forall j, k, address: nat :: 0 <= j < k < |segments| ==>
                                   !(Occupies(segments[j], address) && Occupies(segments[k], address))
  }

  /** When no two segments share a byte, each of them is intact after the copy. */
  lemma {:induction false} CopiesIntact(data: seq<Byte>, segments: seq<Segment>, low: nat, m: nat, i: nat, before: Byte)
    requires forall s :: s in segments ==> InFile(data, s)
    requires m < |segments| && i < segments[m].memorySize && low <= segments[m].virtualAddress
    requires BytesDisjoint(segments)
    ensures Copied(data, segments, low, segments[m].virtualAddress - low + i, before) == ByteOf(data, segments[m], i)
  {
    var last := |segments| - 1;
    var k := segments[m].virtualAddress - low + i;
    if m < last {
      assert Occupies(segments[m], low + k);
      CopiesIntact(data, segments[..last], low, m, i, before);
    }
  }

  // ----- mapping

  datatype LoadError =
    | BadImage(elf: ElfError)
    | Unmappable(paging: PagingError)
    | WritableAndExecutable
    | Aborted
    | NoMemory

  function PagesOf(s: Segment): nat { CeilDiv(s.memorySize, PAGE_SIZE) }

  /** Virtual page `q` belongs to segment `s`. */
  ghost predicate InSegment(s: Segment, q: nat)
    requires q < PAGES
  {
    Offset(q, PageOf(s.virtualAddress)) < PagesOf(s)
  }

  /** Bit 0 of the flags asks for execution, bit 1 for writing (System V gABI, chapter 5, "Segment Permissions"). */
  predicate AsksExecute(s: Segment) { s.flags % 2 == 1 }

  predicate AsksWrite(s: Segment) { s.flags / 2 % 2 == 1 }

  /** The masks test those bits. */
  lemma FlagsMeaning(s: Segment)
    ensures s.IsWritable() <==> AsksWrite(s)
    ensures s.IsExecutable() <==> AsksExecute(s)
  {
    hide And;
    Powers();
    TestBit(s.flags, 0);
    TestBit(s.flags, 1);
    assert Bit(s.flags, 1) == Bit(s.flags / 2, 0);
  }

  predicate BothRights(s: Segment) { AsksWrite(s) && AsksExecute(s) }

  function SegmentPermissions(s: Segment): Permissions {
    Permissions(AsksWrite(s), AsksExecute(s))
  }

  /** Where page `q` of segment `s` must translate to. */
  function SegmentMapping(s: Segment, low: nat, physical: nat, q: nat): Mapping
    requires q < PAGES && low <= s.virtualAddress
  {
    Mapping(physical + (s.virtualAddress - low) + PAGE_SIZE * Offset(q, PageOf(s.virtualAddress)),
        SegmentPermissions(s))
  }

  ghost predicate PagesDisjoint(s: Segment, t: Segment) {
    forall q: nat :: q < PAGES ==> !(InSegment(s, q) && InSegment(t, q))
  }

  /** A segment `map_kernel` has nothing against: no W+X, aligned if it has pages, at most all of them. */
  ghost predicate Mappable(s: Segment, low: nat, physical: nat)
    requires low <= s.virtualAddress
  {
    && !BothRights(s)
    && (s.memorySize > 0 ==>
        s.virtualAddress % PAGE_SIZE == 0 && (physical + (s.virtualAddress - low)) % PAGE_SIZE == 0)
    && PagesOf(s) <= PAGES
  }

  /**
   `b` is `a` with every segment mapped: each page of each segment to its place in the kernel's
   memory with the segment's permissions, no page claimed twice, and no other page touched.
   */
  ghost predicate KernelMapped(a: Arena, b: Arena, segments: seq<Segment>, low: nat, physical: nat)
    requires forall s :: s in segments ==> low <= s.virtualAddress
  {
    && (forall s :: s in segments ==> Mappable(s, low, physical))
    && (forall s, q: nat :: s in segments && q < PAGES && InSegment(s, q) ==>
                              Walk(a, q).None? && Walk(b, q) == Some(SegmentMapping(s, low, physical, q)))
    && (forall j, k :: 0 <= j < k < |segments| ==> PagesDisjoint(segments[j], segments[k]))
    && (forall q: nat :: q < PAGES && (forall s :: s in segments ==> !InSegment(s, q)) ==> Walk(b, q) == Walk(a, q))
  }

  lemma KernelMappedStep(a: Arena, b: Arena, c: Arena, segments: seq<Segment>, s: Segment, low: nat, physical: nat)
    requires forall t :: t in segments ==> low <= t.virtualAddress
    requires low <= s.virtualAddress && Mappable(s, low, physical)
    requires KernelMapped(a, b, segments, low, physical)
    requires Extends(b, c, PageOf(s.virtualAddress), PagesOf(s), physical + (s.virtualAddress - low),
              SegmentPermissions(s))
    ensures KernelMapped(a, c, segments + [s], low, physical)
  {
    hide Walk, PageOf, PagesOf, SegmentPermissions;
    var all := segments + [s];
    forall t, q: nat | t in segments && q < PAGES && InSegment(t, q)
      ensures !InSegment(s, q) && Walk(c, q) == Walk(b, q)
    {
      assert Walk(b, q).Some?;
    }
    forall q: nat | q < PAGES && InSegment(s, q)
      ensures Walk(a, q).None?
    {
      assert Walk(b, q).None?;
      assert forall t :: t in segments ==> !InSegment(t, q);
    }
    forall j, k | 0 <= j < k < |all|
      ensures PagesDisjoint(all[j], all[k])
    {
      assert all[j] in segments;
    }
    forall q: nat | q < PAGES && (forall t :: t in all ==> !InSegment(t, q))
      ensures Walk(c, q) == Walk(a, q)
    {
      assert s in all;
      assert forall t :: t in segments ==> t in all;
      assert Walk(c, q) == Walk(b, q);
    }
  }

  ghost predicate NothingTranslates(a: Arena) {
    forall q: nat :: q < PAGES ==> Walk(a, q).None?
  }

  /** Every table the mapping of the segments may create. */
  ghost function KernelTables(segments: seq<Segment>): set<Node> {
    if segments == [] then {}
    else
      var s := segments[|segments| - 1];
      KernelTables(segments[..|segments| - 1]) + SmallTables(PageOf(s.virtualAddress), PagesOf(s))
  }

  /** The segments as a whole can be mapped into an empty address space. */
  ghost predicate AllMappable(segments: seq<Segment>, low: nat, physical: nat)
    requires forall s :: s in segments ==> low <= s.virtualAddress
  {
    && (forall s :: s in segments ==> Mappable(s, low, physical))
    && (forall j, k :: 0 <= j < k < |segments| ==> PagesDisjoint(segments[j], segments[k]))
  }

  /** A range refused for a conflict repeats a page of its own or hits an earlier segment. */
  lemma ConflictMeansOverlap(a: Arena, b: Arena, segments: seq<Segment>, s: Segment, done: nat, low: nat, physical: nat)
    requires forall t :: t in segments ==> low <= t.virtualAddress
    requires KernelMapped(a, b, segments, low, physical) && low <= s.virtualAddress
    requires forall q: nat :: q < PAGES ==> Walk(a, q).None?
    requires done < PagesOf(s) && done <= PAGES
    requires done == PAGES || Walk(b, PageAt(PageOf(s.virtualAddress), done)).Some?
    ensures !(PagesOf(s) <= PAGES) || exists j :: 0 <= j < |segments| && !PagesDisjoint(segments[j], s)
  {
    hide Walk, PageAt, PageOf, PagesOf;
    if done < PAGES {
      var first := PageOf(s.virtualAddress);
      var q := PageAt(first, done);
      OffsetOfPageAt(first, done);
      assert InSegment(s, q);
      assert Walk(b, q) != Walk(a, q);
      var t :| t in segments && InSegment(t, q);
      var j :| 0 <= j < |segments| && segments[j] == t;
      assert !PagesDisjoint(segments[j], s);
    }
  }

  lemma ConflictIsUnmappable(a: Arena, b: Arena, segments: seq<Segment>, j: nat, done: nat, low: nat, physical: nat)
    requires j < |segments| && forall s :: s in segments ==> low <= s.virtualAddress
    requires KernelMapped(a, b, segments[..j], low, physical) && NothingTranslates(a)
    requires done < PagesOf(segments[j]) && done <= PAGES
    requires done == PAGES || Walk(b, PageAt(PageOf(segments[j].virtualAddress), done)).Some?
    ensures !AllMappable(segments, low, physical)
  {
    hide KernelMapped, AllMappable, Walk, PageAt, PageOf, PagesOf, PagesDisjoint;
    assert segments[j] in segments;
    ConflictMeansOverlap(a, b, segments[..j], segments[j], done, low, physical);
    OverlapIsUnmappable(segments, j, low, physical);
  }

  /** Maps one segment; refuses one that asks to be both writable and executable. */
  method MapSegment(tables: PageTables, s: Segment, low: nat, physical: nat)
    returns (r: Result<Done, LoadError>, ghost done: nat)
    requires tables.Valid()
    requires low <= s.virtualAddress && End(s) <= WORD
              && physical + (s.virtualAddress - low) + s.memorySize <= PHYSICAL_LIMIT
    modifies tables`nextFrame, tables`tables, tables.arena
    ensures tables.Valid() && done <= PAGES
    ensures r.Success? ==>
              && Mappable(s, low, physical)
              && Extends(old(tables.State()), tables.State(), PageOf(s.virtualAddress), PagesOf(s),
                         physical + (s.virtualAddress - low), SegmentPermissions(s))
    ensures r.Failure? ==> r.error == WritableAndExecutable || r.error.Unmappable?
    ensures r == Failure(WritableAndExecutable) || r == Failure(Unmappable(Misaligned)) ==>
              !Mappable(s, low, physical) && tables.tables == old(tables.tables)
    ensures r == Failure(Unmappable(Conflict)) ==>
              done < PagesOf(s)
                  && (done == PAGES || Walk(old(tables.State()), PageAt(PageOf(s.virtualAddress), done)).Some?)
    ensures r.Success? ==>
              tables.tables.Keys == old(tables.tables).Keys + SmallTables(PageOf(s.virtualAddress), PagesOf(s))
    ensures r == Failure(Unmappable(ArenaExhausted)) ==>
              && tables.nextFrame == tables.arenaFrames
              && |old(tables.tables).Keys + SmallTables(PageOf(s.virtualAddress), PagesOf(s))| > tables.arenaFrames
    ensures old(tables.tables).Keys <= tables.tables.Keys
    ensures r != Failure(WritableAndExecutable) && r != Failure(Unmappable(Misaligned)) ==>
              && (s.memorySize > 0 ==> s.virtualAddress % PAGE_SIZE == 0)
              && tables.tables.Keys <= old(tables.tables).Keys + SmallTables(PageOf(s.virtualAddress), PagesOf(s))
  {
    hide Tree, AllPopulated, SmallTables, Walk, PageAt, PageOf, CeilDiv, And, PageTables.Valid;
    FlagsMeaning(s);
    if s.IsWritable() && s.IsExecutable() {
      return Failure(WritableAndExecutable), 0;
    }
    var offset := s.virtualAddress - low;
    var step;
    step, done := tables.MapRange(s.virtualAddress, physical + offset, s.memorySize,
                                  Permissions(s.IsWritable(), s.IsExecutable()));
    if step.Failure? {
      return Failure(Unmappable(step.error)), done;
    }
    r := Success(Done);
  }

  /**
   The loop over the segments, stopping at the first that is refused. From an empty address
   space, and unless the arena runs out, it succeeds exactly when the segments can all be mapped.
   */
  method MapKernel(tables: PageTables, segments: seq<Segment>, low: nat, physical: nat)
    returns (r: Result<Done, LoadError>, ghost attempted: nat)
    requires tables.Valid()
    requires forall s :: s in segments ==>
               low <= s.virtualAddress && End(s) <= WORD
                   && physical + (s.virtualAddress - low) + s.memorySize <= PHYSICAL_LIMIT
    modifies tables`nextFrame, tables`tables, tables.arena
    ensures tables.Valid()
    ensures r.Success? ==> KernelMapped(old(tables.State()), tables.State(), segments, low, physical)
    ensures attempted <= |segments| && (r.Success? ==> attempted == |segments|)
    ensures Aligned(segments[..attempted])
    ensures old(tables.tables).Keys <= tables.tables.Keys <=
              old(tables.tables).Keys + KernelTables(segments[..attempted])
    ensures r.Success? ==> tables.tables.Keys == old(tables.tables).Keys + KernelTables(segments)
    ensures r == Failure(Unmappable(ArenaExhausted)) ==>
              && tables.nextFrame == tables.arenaFrames
              && |old(tables.tables).Keys + KernelTables(segments[..attempted])| > tables.arenaFrames
    ensures NothingTranslates(old(tables.State())) ==>
              r == Failure(Unmappable(ArenaExhausted)) || (r.Success? <==> AllMappable(segments, low, physical))
    ensures r.Failure? ==> r.error == WritableAndExecutable || r.error.Unmappable?
  {
    hide Tree, Extends, KernelMapped, SmallTables, Walk, PageAt, PageOf, PagesOf, PagesDisjoint, Mappable;
    hide PageTables.Valid, AllMappable, KernelTables, Aligned, InSegment, NothingTranslates, SegmentPermissions;
    ghost var a := tables.State();
    NothingMapped(a, low, physical);
    for j := 0 to |segments|
      invariant tables.Valid()
      invariant KernelMapped(a, tables.State(), segments[..j], low, physical)
      invariant Aligned(segments[..j])
      invariant tables.tables.Keys == a.tables.Keys + KernelTables(segments[..j])
    {
      var s := segments[j];
      ghost var b := tables.State();
      PrefixStep(segments, j);
      KeysStep(a.tables.Keys, b.tables.Keys, segments, j);
      var step, done := MapSegment(tables, s, low, physical);
      if step.Failure? {
        if step.error == WritableAndExecutable || step.error == Unmappable(Misaligned) {
          BadIsUnmappable(segments, j, low, physical);
          return step, j;
        }
        assert step.error.paging == Conflict || step.error.paging == ArenaExhausted;
        if step.error == Unmappable(Conflict) && NothingTranslates(a) {
          ConflictIsUnmappable(a, b, segments, j, done, low, physical);
        }
        return step, j + 1;
      }
      KernelMappedStep(a, b, tables.State(), segments[..j], s, low, physical);
    }
    assert segments[..|segments|] == segments;
    MappedIsMappable(a, tables.State(), segments, low, physical);
    r, attempted := Success(Done), |segments|;
  }

  /** Segments that have pages start on a page. */
  predicate Aligned(segments: seq<Segment>) {
    forall s :: s in segments && s.memorySize > 0 ==> s.virtualAddress % PAGE_SIZE == 0
  }

  lemma PrefixStep(segments: seq<Segment>, j: nat)
    requires j < |segments|
    ensures segments[..j + 1] == segments[..j] + [segments[j]] && segments[j] in segments
    ensures forall s :: s in segments[..j] ==> s in segments
    ensures Aligned(segments[..j]) && (segments[j].memorySize > 0 ==> segments[j].virtualAddress % PAGE_SIZE == 0) ==>
              Aligned(segments[..j + 1])
  {
  }

  lemma KeysStep(a: set<Node>, b: set<Node>, segments: seq<Segment>, j: nat)
    requires j < |segments| && b == a + KernelTables(segments[..j])
    ensures b + SmallTables(PageOf(segments[j].virtualAddress), PagesOf(segments[j])) ==
              a + KernelTables(segments[..j + 1])
    ensures a <= b
  {
    hide SmallTables, PageOf, PagesOf;
    assert segments[..j + 1][..j] == segments[..j];
  }

  lemma {:induction false} KernelTablesMonotone(segments: seq<Segment>, j: nat)
    requires j <= |segments|
    ensures KernelTables(segments[..j]) <= KernelTables(segments)
  {
    hide SmallTables, PageOf, PagesOf;
    var n := |segments| - 1;
    if j <= n {
      KernelTablesMonotone(segments[..n], j);
      assert segments[..n][..j] == segments[..j];
    } else {
      assert segments[..j] == segments;
    }
  }

  lemma BadIsUnmappable(segments: seq<Segment>, j: nat, low: nat, physical: nat)
    requires forall s :: s in segments ==> low <= s.virtualAddress
    requires j < |segments| && segments[j] in segments && !Mappable(segments[j], low, physical)
    ensures !AllMappable(segments, low, physical)
  {
    hide Mappable;
  }

  lemma OverlapIsUnmappable(segments: seq<Segment>, j: nat, low: nat, physical: nat)
    requires forall s :: s in segments ==> low <= s.virtualAddress
    requires j < |segments|
    requires
      || !(PagesOf(segments[j]) <= PAGES)
      || exists i :: 0 <= i < |segments[..j]| && !PagesDisjoint(segments[..j][i], segments[j])
    ensures !AllMappable(segments, low, physical)
  {
    hide PagesDisjoint, PagesOf;
    if PagesOf(segments[j]) <= PAGES {
      var i :| 0 <= i < |segments[..j]| && !PagesDisjoint(segments[..j][i], segments[j]);
      assert segments[..j][i] == segments[i];
    } else {
      assert segments[j] in segments;
    }
  }

  lemma NothingMapped(a: Arena, low: nat, physical: nat)
    ensures KernelMapped(a, a, [], low, physical)
    ensures KernelTables([]) == {} && Aligned([])
  {
  }

  lemma MappedIsMappable(a: Arena, b: Arena, segments: seq<Segment>, low: nat, physical: nat)
    requires forall s :: s in segments ==> low <= s.virtualAddress
    requires KernelMapped(a, b, segments, low, physical)
    ensures AllMappable(segments, low, physical)
  {
    hide Walk;
  }
}
