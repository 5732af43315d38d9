/** The memory map the bootloader hands to the kernel, and the kernel's check of it. */
module BootProtocol {
  import opened Results
  import opened Words

  const FRAME_SIZE: nat := 4096

  datatype MemoryKind =
    | Usable
    | Reserved
    | BootloaderReclaimable
    | KernelAndModules
    | AcpiReclaimable
    | AcpiNvs
    | BadMemory
    | FramebufferMemory
  {
    predicate UsableAtHandoff() { this == Usable }
  }

  datatype MemoryRegion = MemoryRegion(start: nat, len: nat, kind: MemoryKind) {
    /** One past the last byte, clamped to the top of the address space. */
    function End(): nat { if start + len < WORD then start + len else WORD - 1 }
  }

  /** The firmware's linear framebuffer; a base or size of zero means there is none. */
  datatype Framebuffer = Framebuffer(base: nat, size: nat) {
    predicate IsPresent() { base != 0 && size != 0 }
  }

  datatype BootInfoError = NoMemoryMap | MalformedRegion | UnsortedMemoryMap | NoUsableMemory

  /** Aligned, non-empty, and not wrapping the address space. */
  predicate WellFormed(r: MemoryRegion) {
    r.len > 0 && r.start % FRAME_SIZE == 0 && r.len % FRAME_SIZE == 0 && r.start + r.len < WORD
  }

  /** Every pair of regions is in ascending order and disjoint. */
  predicate Ordered(regions: seq<MemoryRegion>) {
    forall i, j :: 0 <= i < j < |regions| ==> regions[i].start + regions[i].len <= regions[j].start
  }

  /** The same for the first `n` regions. */
  predicate OrderedUpTo(regions: seq<MemoryRegion>, n: nat)
    requires n <= |regions|
  {
    forall i, j :: 0 <= i < j < n ==> regions[i].start + regions[i].len <= regions[j].start
  }

  predicate HasUsable(regions: seq<MemoryRegion>) {
    exists i :: 0 <= i < |regions| && regions[i].kind == Usable
  }

  /** What the kernel requires of a memory map. */
  predicate ValidMap(regions: seq<MemoryRegion>) {
    && |regions| > 0
    && (forall i :: 0 <= i < |regions| ==> WellFormed(regions[i]))
    && Ordered(regions)
    && HasUsable(regions)
  }

  /** Region `i` is the first at fault, and `e` says why. */
  ghost predicate FirstFault(regions: seq<MemoryRegion>, i: nat, e: BootInfoError) {
    && i < |regions|
    && (forall j :: 0 <= j < i ==> WellFormed(regions[j]))
    && OrderedUpTo(regions, i)
    && (if WellFormed(regions[i])
        then e == UnsortedMemoryMap && exists j :: 0 <= j < i && regions[i].start < regions[j].start + regions[j].len
        else e == MalformedRegion)
  }

  method ValidateMemoryMap(regions: seq<MemoryRegion>) returns (r: Result<Done, BootInfoError>)
    ensures r.Success? <==> ValidMap(regions)
    ensures r == Failure(NoMemoryMap) <==> regions == []
    ensures r == Failure(NoUsableMemory) <==>
            regions != [] && (forall i :: 0 <= i < |regions| ==> WellFormed(regions[i])) && Ordered(regions)
                && !HasUsable(regions)
    ensures r.Failure? && (r.error == MalformedRegion || r.error == UnsortedMemoryMap) ==>
              exists i: nat :: FirstFault(regions, i, r.error)
  {
    hide OrderedUpTo, Ordered, WellFormed, FirstFault;
    NothingYet(regions);
    if |regions| == 0 {
      return Failure(NoMemoryMap);
    }
    var previousEnd, anyUsable := 0, false;
    for i := 0 to |regions|
      invariant forall j :: 0 <= j < i ==> WellFormed(regions[j])
      invariant OrderedUpTo(regions, i)
      invariant anyUsable <==> exists j :: 0 <= j < i && regions[j].kind.UsableAtHandoff()
      invariant if i == 0 then previousEnd == 0 else previousEnd == regions[i - 1].start + regions[i - 1].len
      invariant forall j :: 0 <= j < i ==> regions[j].start + regions[j].len <= previousEnd
    {
      var region := regions[i];
      RegionCheck(regions, i, previousEnd);
      if region.len == 0 || region.start % FRAME_SIZE != 0 || region.len % FRAME_SIZE != 0 {
        return Failure(MalformedRegion);
      }
      if region.start + region.len >= WORD {
        return Failure(MalformedRegion);
      }
      if region.start < previousEnd {
        return Failure(UnsortedMemoryMap);
      }
      previousEnd := region.End();
      if region.kind.UsableAtHandoff() {
        anyUsable := true;
      }
    }
    if !anyUsable {
      return Failure(NoUsableMemory);
    }
    r := Success(Done);
  }

  lemma NothingYet(regions: seq<MemoryRegion>)
    ensures OrderedUpTo(regions, 0) && (OrderedUpTo(regions, |regions|) <==> Ordered(regions))
  {
  }

  /** What the three tests on region `i` mean when those before it are in order and end at `previousEnd`. */
  lemma RegionCheck(regions: seq<MemoryRegion>, i: nat, previousEnd: nat)
    requires i < |regions| && OrderedUpTo(regions, i) && forall j :: 0 <= j < i ==> WellFormed(regions[j])
    requires if i == 0 then previousEnd == 0 else previousEnd == regions[i - 1].start + regions[i - 1].len
    requires forall j :: 0 <= j < i ==> regions[j].start + regions[j].len <= previousEnd
    ensures
      var region := regions[i];
      && (WellFormed(region) <==> !(region.len == 0 || region.start % FRAME_SIZE != 0 || region.len % FRAME_SIZE != 0)
                                  && region.start + region.len < WORD)
      && (!WellFormed(region) ==> FirstFault(regions, i, MalformedRegion))
      && (WellFormed(region) && region.start < previousEnd ==>
            FirstFault(regions, i, UnsortedMemoryMap) && !Ordered(regions))
      && (region.start >= previousEnd ==> OrderedUpTo(regions, i + 1))
  {
    if regions[i].start < previousEnd {
      assert regions[i].start < regions[i - 1].start + regions[i - 1].len;
    }
  }

  // ----- usable bytes

  /** The sum of the lengths of the usable regions. */
  function UsableBytes(regions: seq<MemoryRegion>): nat {
    if regions == [] then 0
    else
      var last := regions[|regions| - 1];
      UsableBytes(regions[..|regions| - 1]) + (if last.kind.UsableAtHandoff() then last.len else 0)
  }

  /** On ordered regions the sum stays below the end of the last one, so 64 bits hold it. */
  lemma {:induction false} UsableBytesFit(regions: seq<MemoryRegion>)
    requires Ordered(regions) && forall i :: 0 <= i < |regions| ==> WellFormed(regions[i])
    ensures regions != [] ==> UsableBytes(regions) <= regions[|regions| - 1].start + regions[|regions| - 1].len
    ensures UsableBytes(regions) < WORD
  {
    if regions != [] {
      var n := |regions| - 1;
      UsableBytesFit(regions[..n]);
      if n > 0 {
        assert regions[..n][n - 1] == regions[n - 1];
        assert regions[n - 1].start + regions[n - 1].len <= regions[n].start;
      }
      assert WellFormed(regions[n]);
    }
  }

  /** A validated map's usable bytes are counted without overflow, and there are some. */
  lemma UsableBytesOfValidMap(regions: seq<MemoryRegion>)
    requires ValidMap(regions)
    ensures FRAME_SIZE <= UsableBytes(regions) < WORD
  {
    UsableBytesFit(regions);
    var i :| 0 <= i < |regions| && regions[i].kind.UsableAtHandoff();
    UsableBytesAtLeast(regions, i);
    assert WellFormed(regions[i]);
  }

  lemma {:induction false} UsableBytesAtLeast(regions: seq<MemoryRegion>, i: nat)
    requires i < |regions| && regions[i].kind.UsableAtHandoff()
    ensures UsableBytes(regions) >= regions[i].len
  {
    if i < |regions| - 1 {
      UsableBytesAtLeast(regions[..|regions| - 1], i);
    }
  }
}
