/**
 Translating the firmware memory map (section 7.2 of the UEFI Specification 2.10, GetMemoryMap) into
 regions for the kernel: converted into a fixed array and insertion-sorted there.
 */
module MemoryMap {
  import opened Words
  import opened BootProtocol

  /** Memory types as firmware numbers them. */
  const LOADER_CODE: nat := 1
  const LOADER_DATA: nat := 2
  const BOOT_SERVICES_CODE: nat := 3
  const BOOT_SERVICES_DATA: nat := 4
  const RUNTIME_SERVICES_CODE: nat := 5
  const RUNTIME_SERVICES_DATA: nat := 6
  const CONVENTIONAL: nat := 7
  const UNUSABLE: nat := 8
  const ACPI_RECLAIM: nat := 9
  const ACPI_NON_VOLATILE: nat := 10
  const PERSISTENT_MEMORY: nat := 14

  datatype Descriptor = Descriptor(ty: nat, physStart: nat, pageCount: nat) {
    function Bytes(): (n: nat)
      ensures n == 4096 * pageCount
    {
      pageCount * FRAME_SIZE
    }
  }

  function KindOf(ty: nat): MemoryKind {
    if ty == CONVENTIONAL then Usable
    else if ty == LOADER_CODE || ty == LOADER_DATA || ty == BOOT_SERVICES_CODE || ty == BOOT_SERVICES_DATA
        then BootloaderReclaimable
    else if ty == ACPI_RECLAIM then AcpiReclaimable
    else if ty == ACPI_NON_VOLATILE then AcpiNvs
    else if ty == UNUSABLE then BadMemory
    else Reserved
  }

  /** The kinds by type number. */
  lemma KindMeaning(ty: nat)
    ensures KindOf(ty) == Usable <==> ty == 7
    ensures KindOf(ty) == BootloaderReclaimable <==> ty in {1, 2, 3, 4}
    ensures KindOf(ty) == BadMemory <==> ty == 8
    ensures KindOf(ty) == AcpiReclaimable <==> ty == 9
    ensures KindOf(ty) == AcpiNvs <==> ty == 10
    ensures KindOf(ty) == Reserved <==> ty !in {1, 2, 3, 4, 7, 8, 9, 10}
  {
  }

  function RegionOf(d: Descriptor): (r: MemoryRegion)
    ensures r.start == d.physStart && r.len == 4096 * d.pageCount
  {
    MemoryRegion(d.physStart, d.Bytes(), KindOf(d.ty))
  }

  /** The converted descriptors that describe any memory, in firmware order. */
  function Converted(map_: seq<Descriptor>): seq<MemoryRegion> {
    if map_ == [] then []
    else
      var rest, region := Converted(map_[..|map_| - 1]), RegionOf(map_[|map_| - 1]);
      if region.len == 0 then rest else rest + [region]
  }

  // ----- insertion sort

  /** `x` inserted after the last region that does not start above it. */
  function InsertSorted(s: seq<MemoryRegion>, x: MemoryRegion): seq<MemoryRegion> {
    if s == [] then [x]
    else
      var n := |s| - 1;
      if s[n].start <= x.start then s + [x] else InsertSorted(s[..n], x) + [s[n]]
  }

  function SortByStart(s: seq<MemoryRegion>): seq<MemoryRegion> {
    if s == [] then [] else InsertSorted(SortByStart(s[..|s| - 1]), s[|s| - 1])
  }

  predicate Ascending(s: seq<MemoryRegion>) {
    forall i, j :: 0 <= i < j < |s| ==> s[i].start <= s[j].start
  }

  lemma {:induction false} InsertKeeps(s: seq<MemoryRegion>, x: MemoryRegion)
    ensures multiset(InsertSorted(s, x)) == multiset(s) + multiset{x}
    ensures |InsertSorted(s, x)| == |s| + 1
  {
    if s != [] {
      var n := |s| - 1;
      assert s == s[..n] + [s[n]];
      if s[n].start > x.start { InsertKeeps(s[..n], x); }
    }
  }

  lemma {:induction false} InsertBound(s: seq<MemoryRegion>, x: MemoryRegion, bound: nat, i: nat)
    requires x.start <= bound && forall k :: 0 <= k < |s| ==> s[k].start <= bound
    requires i < |InsertSorted(s, x)|
    ensures InsertSorted(s, x)[i].start <= bound
  {
    if s != [] && s[|s| - 1].start > x.start && i < |InsertSorted(s[..|s| - 1], x)| {
      InsertBound(s[..|s| - 1], x, bound, i);
    }
  }

  lemma {:induction false} InsertMeaning(s: seq<MemoryRegion>, x: MemoryRegion)
    requires Ascending(s)
    ensures Ascending(InsertSorted(s, x))
  {
    if s != [] {
      var n := |s| - 1;
      if s[n].start > x.start {
        InsertMeaning(s[..n], x);
        forall i | 0 <= i < |InsertSorted(s[..n], x)|
          ensures InsertSorted(s[..n], x)[i].start <= s[n].start
        {
          InsertBound(s[..n], x, s[n].start, i);
        }
      }
    }
  }

  lemma NothingToSort()
    ensures Ascending([])
  {
  }

  /** Sorting loses nothing, invents nothing, and puts starts in order. */
  lemma {:induction false} SortMeaning(s: seq<MemoryRegion>)
    ensures Ascending(SortByStart(s)) && multiset(SortByStart(s)) == multiset(s) && |SortByStart(s)| == |s|
  {
    hide InsertSorted, Ascending;
    NothingToSort();
    if s != [] {
      var n := |s| - 1;
      SortMeaning(s[..n]);
      InsertMeaning(SortByStart(s[..n]), s[n]);
      InsertKeeps(SortByStart(s[..n]), s[n]);
      assert s == s[..n] + [s[n]];
    }
  }

  /** The regions that start at `x`, in order. */
  function Starting(s: seq<MemoryRegion>, x: nat): seq<MemoryRegion> {
    if s == [] then []
    else
      var n := |s| - 1;
      Starting(s[..n], x) + (if s[n].start == x then [s[n]] else [])
  }

  /** What one region more adds. */
  function OneStarting(r: MemoryRegion, x: nat): seq<MemoryRegion> { if r.start == x then [r] else [] }

  lemma StartingAppend(s: seq<MemoryRegion>, r: MemoryRegion, x: nat)
    ensures Starting(s + [r], x) == Starting(s, x) + OneStarting(r, x)
  {
    assert (s + [r])[..|s|] == s;
  }

  lemma {:induction false} InsertStable(s: seq<MemoryRegion>, y: MemoryRegion, x: nat)
    ensures Starting(InsertSorted(s, y), x) == Starting(s, x) + OneStarting(y, x)
  {
    hide Starting;
    if s == [] {
      StartingAppend(s, y, x);
      assert s + [y] == [y];
    } else {
      var n := |s| - 1;
      assert s == s[..n] + [s[n]];
      StartingAppend(s[..n], s[n], x);
      if s[n].start <= y.start {
        StartingAppend(s, y, x);
      } else {
        InsertStable(s[..n], y, x);
        StartingAppend(InsertSorted(s[..n], y), s[n], x);
      }
    }
  }

  /** Regions that start at the same address keep the order firmware gave them. */
  lemma {:induction false} SortStable(s: seq<MemoryRegion>, x: nat)
    ensures Starting(SortByStart(s), x) == Starting(s, x)
  {
    hide InsertSorted;
    if s != [] {
      var n := |s| - 1;
      SortStable(s[..n], x);
      InsertStable(SortByStart(s[..n]), s[n], x);
    }
  }

  /** The slot the inner loop finds is the insertion point. */
  lemma {:induction false} InsertAt(s: seq<MemoryRegion>, x: MemoryRegion, j: nat)
    requires j <= |s| && forall k :: j <= k < |s| ==> s[k].start > x.start
    requires j > 0 ==> s[j - 1].start <= x.start
    ensures InsertSorted(s, x) == s[..j] + [x] + s[j..]
  {
    if j < |s| {
      var n := |s| - 1;
      InsertAt(s[..n], x, j);
      assert s[..n][..j] == s[..j] && s[j..] == s[..n][j..] + [s[n]];
    } else if s != [] {
      assert s[..j] == s;
    }
  }

  /** Moves element `i` of the array down into the sorted prefix before it. */
  method InsertStep(out: array<MemoryRegion>, i: nat)
    requires 0 < i < out.Length
    modifies out
    ensures out[..i + 1] == InsertSorted(old(out[..i]), old(out[i]))
    ensures forall k :: i < k < out.Length ==> out[k] == old(out[k])
  {
    ghost var s := out[..i];
    var current := out[i];
    var j := i;
    while j > 0
      invariant 0 <= j <= i
      invariant out[..j] == s[..j]
      invariant forall k :: j < k <= i ==> out[k] == s[k - 1]
      invariant forall k :: j <= k < i ==> s[k].start > current.start
      invariant forall k :: i < k < out.Length ==> out[k] == old(out[k])
    {
      var previous := out[j - 1];
      assert previous == s[j - 1];
      if previous.start <= current.start {
        break;
      }
      out[j] := previous;
      j := j - 1;
    }
    out[j] := current;
    InsertAt(s, current, j);
    assert out[..i + 1] == s[..j] + [current] + s[j..];
  }

  /** The in-place sort of the first `count` elements. */
  method InsertionSort(out: array<MemoryRegion>, count: nat)
    requires count <= out.Length
    modifies out
    ensures out[..count] == SortByStart(old(out[..count]))
    ensures forall k :: count <= k < out.Length ==> out[k] == old(out[k])
  {
    hide InsertSorted;
    ghost var s := out[..count];
    if count == 0 {
      return;
    }
    SortOne(s);
    var i := 1;
    while i < count
      invariant 1 <= i <= count
      invariant out[..i] == SortByStart(s[..i])
      invariant forall k :: i <= k < count ==> out[k] == s[k]
      invariant forall k :: count <= k < out.Length ==> out[k] == old(out[k])
    {
      SortNext(s, i);
      InsertStep(out, i);
      i := i + 1;
    }
    assert s[..count] == s;
  }

  lemma SortOne(s: seq<MemoryRegion>)
    requires |s| > 0
    ensures SortByStart(s[..1]) == s[..1]
  {
    assert s[..1][..0] == [] && s[..1] == [s[0]];
  }

  lemma SortNext(s: seq<MemoryRegion>, i: nat)
    requires i < |s|
    ensures SortByStart(s[..i + 1]) == InsertSorted(SortByStart(s[..i]), s[i])
  {
    assert s[..i + 1][..i] == s[..i] && s[..i + 1][i] == s[i];
  }

  /** The most regions an array of `capacity` holds. */
  function Fitting(s: seq<MemoryRegion>, capacity: nat): seq<MemoryRegion> {
    if |s| <= capacity then s else s[..capacity]
  }

  /** No descriptor that is reached before the array is full overflows 64 bits in bytes. */
  predicate CountsFit(map_: seq<Descriptor>, capacity: nat) {
    forall k :: 0 <= k < |map_| && |Converted(map_[..k])| < capacity ==> map_[k].Bytes() < WORD
  }

  /**
   Converts the firmware map into `out`. Once the array is full the remaining descriptors are dropped.
   The page counts it multiplies must not overflow, or the overflow check stops the program.
   */
  method ConvertMemoryMap(map_: seq<Descriptor>, out: array<MemoryRegion>) returns (count: nat)
    requires CountsFit(map_, out.Length)
    modifies out
    ensures count == |Fitting(Converted(map_), out.Length)|
    ensures count <= out.Length && out[..count] == SortByStart(Fitting(Converted(map_), out.Length))
    ensures forall k :: count <= k < out.Length ==> out[k] == old(out[k])
  {
    count := 0;
    var k := 0;
    while k < |map_|
      invariant 0 <= k <= |map_| && count <= out.Length
      invariant out[..count] == Fitting(Converted(map_[..k]), out.Length)
      invariant forall j :: count <= j < out.Length ==> out[j] == old(out[j])
    {
      if count >= out.Length {
        break;
      }
      assert map_[k].Bytes() < WORD;
      var region := RegionOf(map_[k]);
      assert map_[..k + 1][..k] == map_[..k];
      if region.len != 0 {
        out[count] := region;
        count := count + 1;
        assert out[..count] == out[..count - 1] + [region];
      }
      k := k + 1;
    }
    ConvertedPrefix(map_, k);
    assert map_[..|map_|] == map_;
    FullPrefix(Converted(map_[..k]), Converted(map_), out.Length);
    InsertionSort(out, count);
  }

  /** A full array does not change when more regions would follow. */
  lemma FullPrefix(s: seq<MemoryRegion>, t: seq<MemoryRegion>, capacity: nat)
    requires s <= t
    ensures |s| >= capacity || s == t ==> Fitting(s, capacity) == Fitting(t, capacity)
  {
  }

  lemma {:induction false} ConvertedPrefix(map_: seq<Descriptor>, k: nat)
    requires k <= |map_|
    ensures Converted(map_[..k]) <= Converted(map_)
  {
    if k < |map_| {
      ConvertedPrefix(map_[..|map_| - 1], k);
      assert map_[..|map_| - 1][..k] == map_[..k];
    } else {
      assert map_[..k] == map_;
    }
  }

  // ----- acceptance by the kernel

  predicate Apart(r: MemoryRegion, s: MemoryRegion) {
    r.start + r.len <= s.start || s.start + s.len <= r.start
  }

  predicate PairwiseApart(s: seq<MemoryRegion>) {
    forall i, j :: 0 <= i < j < |s| ==> Apart(s[i], s[j])
  }

  predicate AllWellFormed(s: seq<MemoryRegion>) {
    forall r :: r in s ==> WellFormed(r)
  }

  lemma InsertMembers(s: seq<MemoryRegion>, x: MemoryRegion)
    ensures forall r :: r in InsertSorted(s, x) <==> r in s || r == x
  {
    InsertKeeps(s, x);
    assert forall r :: r in InsertSorted(s, x) <==> r in multiset(InsertSorted(s, x));
    assert forall r :: r in s <==> r in multiset(s);
  }

  /** Appending keeps order exactly when everything before ends by the new start. */
  lemma OrderedAppend(s: seq<MemoryRegion>, x: MemoryRegion)
    ensures Ordered(s + [x]) <==> Ordered(s) && forall r :: r in s ==> r.start + r.len <= x.start
  {
    var t := s + [x];
    if Ordered(t) {
      assert forall i :: 0 <= i < |s| ==> t[i] == s[i];
      forall i, j | 0 <= i < j < |s|
        ensures s[i].start + s[i].len <= s[j].start
      {
        assert t[i].start + t[i].len <= t[j].start;
      }
      forall r | r in s
        ensures r.start + r.len <= x.start
      {
        var i :| 0 <= i < |s| && s[i] == r;
        assert t[i].start + t[i].len <= t[|s|].start;
      }
    }
  }

  /** Of two regions the one that starts first ends before the other exactly when they are apart. */
  lemma ApartInOrder(r: MemoryRegion, x: MemoryRegion)
    requires WellFormed(r) && WellFormed(x) && r.start <= x.start
    ensures Apart(r, x) <==> r.start + r.len <= x.start
    ensures Apart(x, r) <==> r.start + r.len <= x.start
  {
  }

  /** Appending at the end of an ascending list. */
  lemma AppendOrdered(s: seq<MemoryRegion>, x: MemoryRegion)
    requires Ascending(s + [x]) && AllWellFormed(s) && WellFormed(x)
    ensures Ordered(s + [x]) <==> Ordered(s) && forall r :: r in s ==> Apart(r, x)
  {
    hide Ordered, Apart, WellFormed;
    OrderedAppend(s, x);
    forall r | r in s
      ensures Apart(r, x) <==> r.start + r.len <= x.start
    {
      var i :| 0 <= i < |s| && s[i] == r;
      assert (s + [x])[i].start <= (s + [x])[|s|].start;
      ApartInOrder(r, x);
    }
  }

  /** Inserting into an ordered list keeps it ordered exactly when the new region touches no other. */
  lemma {:induction false} InsertOrdered(s: seq<MemoryRegion>, x: MemoryRegion)
    requires Ascending(s) && AllWellFormed(s) && WellFormed(x)
    ensures Ordered(InsertSorted(s, x)) <==> Ordered(s) && forall r :: r in s ==> Apart(r, x)
  {
    hide Ordered, Apart, WellFormed;
    if s == [] {
      assert s + [x] == [x];
      AppendOrdered(s, x);
    } else {
      var n := |s| - 1;
      var last, rest := s[n], s[..n];
      assert s == rest + [last];
      if last.start <= x.start {
        assert Ascending(s + [x]);
        AppendOrdered(s, x);
      } else {
        InsertOrdered(rest, x);
        InsertMembers(rest, x);
        OrderedAppend(InsertSorted(rest, x), last);
        OrderedAppend(rest, last);
        ApartInOrder(x, last);
        assert forall r :: r in s <==> r in rest || r == last;
      }
    }
  }

  lemma NothingOverlaps()
    ensures Ordered([]) && PairwiseApart([])
  {
  }

  /** The sorted regions satisfy the kernel's order exactly when the regions were pairwise apart. */
  lemma {:induction false} SortOrdered(s: seq<MemoryRegion>)
    requires AllWellFormed(s)
    ensures Ordered(SortByStart(s)) <==> PairwiseApart(s)
  {
    hide InsertSorted, Ascending, Ordered, PairwiseApart, Apart, WellFormed;
    NothingOverlaps();
    if s != [] {
      var n := |s| - 1;
      var sorted := SortByStart(s[..n]);
      SortMeaning(s[..n]);
      SortOrdered(s[..n]);
      SortMembers(s[..n]);
      InsertOrdered(sorted, s[n]);
      PairwiseAppend(s[..n], s[n]);
      assert s == s[..n] + [s[n]];
    }
  }

  lemma SortMembers(s: seq<MemoryRegion>)
    ensures forall r :: r in SortByStart(s) <==> r in s
  {
    SortMeaning(s);
    assert forall r :: r in SortByStart(s) <==> r in multiset(SortByStart(s));
    assert forall r :: r in s <==> r in multiset(s);
  }

  lemma PairwiseAppend(s: seq<MemoryRegion>, x: MemoryRegion)
    ensures PairwiseApart(s + [x]) <==> PairwiseApart(s) && forall r :: r in s ==> Apart(r, x)
  {
    var t := s + [x];
    assert forall i :: 0 <= i < |s| ==> t[i] == s[i];
    if PairwiseApart(t) {
      forall i, j | 0 <= i < j < |s|
        ensures Apart(s[i], s[j])
      {
        assert Apart(t[i], t[j]);
      }
      forall r | r in s
        ensures Apart(r, x)
      {
        var i :| 0 <= i < |s| && s[i] == r;
        assert Apart(t[i], t[|s|]);
      }
    }
  }

  /** What the kernel's check needs of converted regions, whatever order firmware gave them in. */
  predicate Acceptable(s: seq<MemoryRegion>) {
    s != [] && AllWellFormed(s) && PairwiseApart(s) && exists r :: r in s && r.kind == Usable
  }

  /** The kernel accepts the sorted map exactly when the regions are acceptable. */
  lemma SortedIsValid(s: seq<MemoryRegion>)
    ensures ValidMap(SortByStart(s)) <==> Acceptable(s)
  {
    SortMembers(s);
    SortMeaning(s);
    var t := SortByStart(s);
    assert (forall i :: 0 <= i < |t| ==> WellFormed(t[i])) <==> AllWellFormed(s) by {
      assert forall r :: r in t <==> exists i :: 0 <= i < |t| && t[i] == r;
    }
    assert HasUsable(t) <==> exists r :: r in s && r.kind == Usable by {
      if r :| r in s && r.kind == Usable {
        assert r in t;
      }
      if HasUsable(t) {
        var i :| 0 <= i < |t| && t[i].kind == Usable;
        assert t[i] in s;
      }
    }
    if AllWellFormed(s) { SortOrdered(s); }
  }

  /** Two descriptors that describe no memory in common. */
  predicate Disjoint(d: Descriptor, e: Descriptor) {
    d.pageCount == 0 || e.pageCount == 0 || Apart(RegionOf(d), RegionOf(e))
  }

  /** A firmware map as the specification promises it: aligned, non-wrapping, pairwise disjoint. */
  predicate SoundFirmwareMap(map_: seq<Descriptor>) {
    && (forall d :: d in map_ && d.pageCount > 0 ==> d.physStart % FRAME_SIZE == 0 && d.physStart + d.Bytes() < WORD)
    && (forall i, j :: 0 <= i < j < |map_| ==> Disjoint(map_[i], map_[j]))
    && (exists d :: d in map_ && d.ty == CONVENTIONAL && d.pageCount > 0)
  }

  lemma {:induction false} ConvertedMembers(map_: seq<Descriptor>)
    ensures forall r :: r in Converted(map_) <==> exists d :: d in map_ && RegionOf(d) == r && r.len > 0
    ensures |Converted(map_)| <= |map_|
  {
    if map_ != [] {
      var n := |map_| - 1;
      ConvertedMembers(map_[..n]);
      assert map_ == map_[..n] + [map_[n]];
      var region := RegionOf(map_[n]);
      forall r
        ensures r in Converted(map_) <==> exists d :: d in map_ && RegionOf(d) == r && r.len > 0
      {
        if d :| d in map_ && RegionOf(d) == r && r.len > 0 {
          assert d in map_[..n] || d == map_[n];
        }
        if r == region && region.len > 0 { assert map_[n] in map_; }
      }
    }
  }

  lemma {:induction false} ConvertedApart(map_: seq<Descriptor>)
    requires forall i, j :: 0 <= i < j < |map_| ==> Disjoint(map_[i], map_[j])
    ensures PairwiseApart(Converted(map_))
  {
    if map_ != [] {
      var n := |map_| - 1;
      ConvertedApart(map_[..n]);
      ConvertedMembers(map_[..n]);
      PairwiseAppend(Converted(map_[..n]), RegionOf(map_[n]));
      if map_[n].pageCount > 0 {
        forall r | r in Converted(map_[..n])
          ensures Apart(r, RegionOf(map_[n]))
        {
          var d :| d in map_[..n] && RegionOf(d) == r && r.len > 0;
          var i :| 0 <= i < n && map_[i] == d;
          assert Disjoint(map_[i], map_[n]);
        }
      }
    }
  }

  /** Whatever order a sound firmware map comes in, within capacity the kernel accepts the result. */
  lemma SoundMapAccepted(map_: seq<Descriptor>, capacity: nat)
    requires SoundFirmwareMap(map_) && |Converted(map_)| <= capacity
    ensures ValidMap(SortByStart(Fitting(Converted(map_), capacity)))
  {
    hide Converted, Apart, PairwiseApart, ValidMap, WellFormed, SortByStart;
    var s := Converted(map_);
    ConvertedMembers(map_);
    ConvertedApart(map_);
    forall r | r in s
      ensures WellFormed(r)
    {
      var d :| d in map_ && RegionOf(d) == r && r.len > 0;
      SoundRegion(d);
    }
    var d :| d in map_ && d.ty == CONVENTIONAL && d.pageCount > 0;
    assert RegionOf(d) in s;
    SortedIsValid(s);
  }

  lemma SoundRegion(d: Descriptor)
    requires d.physStart % FRAME_SIZE == 0 && d.physStart + d.Bytes() < WORD && RegionOf(d).len > 0
    ensures WellFormed(RegionOf(d))
  {
  }

  // ----- how far installed memory reaches

  predicate IsInstalledRam(ty: nat) {
    || ty == CONVENTIONAL || ty == LOADER_CODE || ty == LOADER_DATA
    || ty == BOOT_SERVICES_CODE || ty == BOOT_SERVICES_DATA || ty == RUNTIME_SERVICES_CODE
        || ty == RUNTIME_SERVICES_DATA
    || ty == ACPI_RECLAIM || ty == ACPI_NON_VOLATILE || ty == PERSISTENT_MEMORY
  }

  /** Types that stand for installed memory: not reserved ranges, failed memory or device apertures. */
  predicate InstalledType(ty: nat) { ty in {1, 2, 3, 4, 5, 6, 7, 9, 10, 14} }

  /** The allow-list is those. */
  lemma InstalledMeaning(ty: nat)
    ensures IsInstalledRam(ty) <==> InstalledType(ty)
  {
  }

  function DescriptorEnd(d: Descriptor): (end: nat)
    ensures end == d.physStart + 4096 * d.pageCount
  {
    d.physStart + d.Bytes()
  }

  /** The highest address of installed memory, capped at `limit`. */
  method HighestRamAddress(map_: seq<Descriptor>, limit: nat) returns (r: nat)
    requires forall d :: d in map_ && InstalledType(d.ty) ==> DescriptorEnd(d) < WORD
    ensures r <= limit
    ensures forall d :: d in map_ && InstalledType(d.ty) ==> DescriptorEnd(d) <= r || r == limit
    ensures r == 0 ||
            exists d :: && d in map_ && InstalledType(d.ty)
                        && r == if DescriptorEnd(d) < limit then DescriptorEnd(d) else limit
  {
    var highest := 0;
    for i := 0 to |map_|
      invariant forall d :: d in map_[..i] && InstalledType(d.ty) ==> DescriptorEnd(d) <= highest
      invariant highest == 0 || exists d :: d in map_ && InstalledType(d.ty) && DescriptorEnd(d) == highest
    {
      var d := map_[i];
      assert map_[..i + 1] == map_[..i] + [d];
      assert d in map_;
      InstalledMeaning(d.ty);
      if IsInstalledRam(d.ty) && DescriptorEnd(d) > highest {
        highest := DescriptorEnd(d);
      }
    }
    assert map_[..|map_|] == map_;
    r := if highest < limit then highest else limit;
  }
}
