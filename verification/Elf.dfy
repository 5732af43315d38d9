/**
 The bootloader's ELF64 reader (System V gABI, chapter 5, "Program Header"). Every field is read
 little-endian out of a byte buffer that may hold anything.
 */
module Elf {
  import opened Results
  import opened Words

  type Byte = b: int | 0 <= b < 256

  const PT_LOAD: nat := 1
  const ELF_HEADER_SIZE: nat := 64
  const PROGRAM_HEADER_SIZE: nat := 56
  const ELFCLASS64: nat := 2
  const ELFDATA2LSB: nat := 1
  const ET_EXEC: nat := 2
  const EM_X86_64: nat := 0x3E
  const EXECUTE: nat := 1
  const WRITE: nat := 2

  datatype ElfError =
    | TooSmall
    | NotElf
    | WrongFormat
    | NotAnExecutable
    | TruncatedHeaders
    | TruncatedSegment
    | ImpossibleSegment
    | NothingToLoad

  datatype Segment = Segment(fileOffset: nat, fileSize: nat, virtualAddress: nat, memorySize: nat, flags: nat) {
    predicate IsExecutable() { And(flags, EXECUTE) != 0 }
    predicate IsWritable() { And(flags, WRITE) != 0 }
  }

  datatype Image = Image(data: seq<Byte>, entry: nat, programHeaderOffset: nat, programHeaderCount: nat,
                         programHeaderSize: nat)

  /** The `size` bytes at `offset`, least significant first. */
  function ReadLe(data: seq<Byte>, offset: nat, size: nat): nat
    requires offset + size <= |data|
    decreases size
  {
    if size == 0 then 0 else data[offset] + 256 * ReadLe(data, offset + 1, size - 1)
  }

  function ReadU16(data: seq<Byte>, offset: nat): nat
    requires offset + 2 <= |data|
  {
    ReadLe(data, offset, 2)
  }

  function ReadU32(data: seq<Byte>, offset: nat): nat
    requires offset + 4 <= |data|
  {
    ReadLe(data, offset, 4)
  }

  function ReadU64(data: seq<Byte>, offset: nat): (r: nat)
    requires offset + 8 <= |data|
  {
    ReadLe(data, offset, 8)
  }

  lemma {:induction false} ReadLeBound(data: seq<Byte>, offset: nat, size: nat)
    requires offset + size <= |data|
    ensures ReadLe(data, offset, size) < Pow2(8 * size)
    decreases size
  {
    if size > 0 {
      ReadLeBound(data, offset + 1, size - 1);
      PowerOfSum(8, 8 * (size - 1));
      assert Pow2(8) == 256 by { Powers(); PowerOfSum(1, 7); }
    }
  }

  lemma ReadU64Bound(data: seq<Byte>, offset: nat)
    requires offset + 8 <= |data|
    ensures ReadU64(data, offset) < WORD
  {
    ReadLeBound(data, offset, 8);
    Powers();
  }

  /** The program header table lies inside the file. */
  predicate TableInBounds(image: Image) {
    && image.programHeaderSize >= PROGRAM_HEADER_SIZE
    && image.programHeaderOffset + image.programHeaderSize * image.programHeaderCount <= |image.data|
  }

  function HeaderBase(image: Image, index: nat): (base: nat)
    requires TableInBounds(image) && index < image.programHeaderCount
    ensures base + PROGRAM_HEADER_SIZE <= |image.data|
  {
    assert image.programHeaderSize * (index + 1) <= image.programHeaderSize * image.programHeaderCount;
    image.programHeaderOffset + index * image.programHeaderSize
  }

  /** Header `index` is a `PT_LOAD` header. */
  predicate IsLoad(image: Image, index: nat)
    requires TableInBounds(image) && index < image.programHeaderCount
  {
    ReadU32(image.data, HeaderBase(image, index)) == PT_LOAD
  }

  /** The fields of header `index`, taken at face value. */
  function RawSegment(image: Image, index: nat): Segment
    requires TableInBounds(image) && index < image.programHeaderCount
  {
    var base := HeaderBase(image, index);
    Segment(ReadU64(image.data, base + 0x08), ReadU64(image.data, base + 0x20), ReadU64(image.data, base + 0x10),
            ReadU64(image.data, base + 0x28), ReadU32(image.data, base + 0x04))
  }

  /** Header `index` as a segment: `None` if it is not for loading, an error if it cannot be loaded. */
  function SegmentAt(image: Image, index: nat): (r: Result<Option<Segment>, ElfError>)
    requires TableInBounds(image) && index < image.programHeaderCount
  {
    var base := HeaderBase(image, index);
    if ReadU32(image.data, base) != PT_LOAD then Success(None)
    else
      var flags := ReadU32(image.data, base + 0x04);
      var fileOffset := ReadU64(image.data, base + 0x08);
      var virtualAddress := ReadU64(image.data, base + 0x10);
      var fileSize := ReadU64(image.data, base + 0x20);
      var memorySize := ReadU64(image.data, base + 0x28);
      if memorySize < fileSize then Failure(ImpossibleSegment)
      else if fileOffset + fileSize >= WORD then Failure(TruncatedSegment)
      else if fileOffset + fileSize > |image.data| then Failure(TruncatedSegment)
      else Success(Some(Segment(fileOffset, fileSize, virtualAddress, memorySize, flags)))
  }

  /** The loadable segments among the first `count` headers; headers in error are skipped. */
  function SegmentsUpTo(image: Image, count: nat): seq<Segment>
    requires TableInBounds(image) && count <= image.programHeaderCount
  {
    if count == 0 then []
    else
      var rest := SegmentsUpTo(image, count - 1);
      match SegmentAt(image, count - 1)
      case Success(Some(s)) => rest + [s]
      case _ => rest
  }

  function Segments(image: Image): seq<Segment>
    requires TableInBounds(image)
  {
    SegmentsUpTo(image, image.programHeaderCount)
  }

  /** What the file holds for a segment; the rest of its memory is zero. */
  function SegmentData(image: Image, s: Segment): seq<Byte>
    requires s.fileOffset + s.fileSize <= |image.data|
  {
    image.data[s.fileOffset..s.fileOffset + s.fileSize]
  }

  /** The headers of type `PT_LOAD` among the first `count`, in order and unchecked. */
  ghost function LoadHeaders(image: Image, count: nat): seq<Segment>
    requires TableInBounds(image) && count <= image.programHeaderCount
  {
    if count == 0 then []
    else LoadHeaders(image, count - 1) + (if IsLoad(image, count - 1) then [RawSegment(image, count - 1)] else [])
  }

  /** A segment that fits the file and is at least as large in memory. */
  predicate InFile(data: seq<Byte>, s: Segment) {
    s.fileOffset + s.fileSize <= |data| && s.fileSize <= s.memorySize
  }

  // ----- acceptance

  /** The checks on the fixed part of the header all pass. */
  predicate HeaderOk(data: seq<Byte>) {
    && |data| >= ELF_HEADER_SIZE
    && data[0..4] == [0x7F, 0x45, 0x4C, 0x46]
    && data[4] == ELFCLASS64 && data[5] == ELFDATA2LSB
    && ReadU16(data, 0x12) == EM_X86_64
    && ReadU16(data, 0x10) == ET_EXEC
    && ReadU16(data, 0x36) >= PROGRAM_HEADER_SIZE
  }

  function ImageOf(data: seq<Byte>): Image
    requires |data| >= ELF_HEADER_SIZE
  {
    Image(data, ReadU64(data, 0x18), ReadU64(data, 0x20), ReadU16(data, 0x38), ReadU16(data, 0x36))
  }

  /** Header `i` is the first that cannot be loaded, and `e` says why. */
  ghost predicate FirstBad(image: Image, i: nat, e: ElfError)
    requires TableInBounds(image)
  {
    && i < image.programHeaderCount
    && SegmentAt(image, i) == Failure(e)
    && forall j: nat :: j < i ==> SegmentAt(image, j).Success?
  }

  /** What `parse` accepts: a good header, a table inside the file, and load headers that all fit. */
  ghost predicate Accepted(data: seq<Byte>) {
    && HeaderOk(data)
    && var image := ImageOf(data);
       && TableInBounds(image)
       && (forall i: nat :: i < image.programHeaderCount && IsLoad(image, i) ==> InFile(data, RawSegment(image, i)))
       && exists i: nat :: i < image.programHeaderCount && IsLoad(image, i)
  }

  /** A header is refused exactly when it is a load header that does not fit. */
  lemma SegmentAtMeaning(image: Image, i: nat)
    requires TableInBounds(image) && i < image.programHeaderCount && |image.data| < WORD
    ensures SegmentAt(image, i) == Success(None) <==> !IsLoad(image, i)
    ensures SegmentAt(image, i) == Success(Some(RawSegment(image, i))) <==>
            IsLoad(image, i) && InFile(image.data, RawSegment(image, i))
    ensures SegmentAt(image, i) == Failure(ImpossibleSegment) <==>
            IsLoad(image, i) && RawSegment(image, i).memorySize < RawSegment(image, i).fileSize
    ensures SegmentAt(image, i).Success? && IsLoad(image, i) ==> SegmentAt(image, i).value == Some(RawSegment(image, i))
    ensures SegmentAt(image, i).Failure? <==> IsLoad(image, i) && !InFile(image.data, RawSegment(image, i))
  {
  }

  /** The validation pass over the program headers: stops at the first that cannot be loaded. */
  method CountLoadable(image: Image) returns (r: Result<nat, ElfError>)
    requires TableInBounds(image) && |image.data| < WORD
    ensures r.Success? <==>
            forall i: nat :: i < image.programHeaderCount && IsLoad(image, i) ==>
                InFile(image.data, RawSegment(image, i))
    ensures r.Success? ==> (r.value > 0 <==> exists i: nat :: i < image.programHeaderCount && IsLoad(image, i))
    ensures r.Failure? ==> exists i: nat :: FirstBad(image, i, r.error)
    ensures r.Failure? ==> r.error == ImpossibleSegment || r.error == TruncatedSegment
  {
    hide IsLoad, RawSegment, InFile;
    var loadable := 0;
    for index := 0 to image.programHeaderCount
      invariant forall i: nat :: i < index ==> SegmentAt(image, i).Success?
      invariant forall i: nat :: i < index && IsLoad(image, i) ==> InFile(image.data, RawSegment(image, i))
      invariant loadable > 0 <==> exists i: nat :: i < index && IsLoad(image, i)
      invariant loadable >= 0
    {
      SegmentAtMeaning(image, index);
      var header := SegmentAt(image, index);
      if header.Failure? {
        assert FirstBad(image, index, header.error);
        return Failure(header.error);
      }
      if header.value.Some? {
        loadable := loadable + 1;
      }
    }
    r := Success(loadable);
  }

  /** The header checks and then the validation pass, on a buffer of any content. */
  method Parse(data: seq<Byte>) returns (r: Result<Image, ElfError>)
    requires |data| < WORD
    ensures r.Success? <==> Accepted(data)
    ensures r.Success? ==> r.value == ImageOf(data)
    ensures r == Failure(TooSmall) <==> |data| < ELF_HEADER_SIZE
    ensures r == Failure(NotElf) <==> |data| >= ELF_HEADER_SIZE && data[0..4] != [0x7F, 0x45, 0x4C, 0x46]
    ensures r == Failure(WrongFormat) <==>
            && |data| >= ELF_HEADER_SIZE && data[0..4] == [0x7F, 0x45, 0x4C, 0x46]
            && (|| data[4] != ELFCLASS64 || data[5] != ELFDATA2LSB || ReadU16(data, 0x12) != EM_X86_64
                || (ReadU16(data, 0x10) == ET_EXEC && ReadU16(data, 0x36) < PROGRAM_HEADER_SIZE))
    ensures r == Failure(NotAnExecutable) <==>
            && |data| >= ELF_HEADER_SIZE && data[0..4] == [0x7F, 0x45, 0x4C, 0x46]
            && data[4] == ELFCLASS64 && data[5] == ELFDATA2LSB && ReadU16(data, 0x12) == EM_X86_64
            && ReadU16(data, 0x10) != ET_EXEC
    ensures r == Failure(TruncatedHeaders) <==> HeaderOk(data) && !TableInBounds(ImageOf(data))
    ensures HeaderOk(data) && TableInBounds(ImageOf(data)) && r.Failure? ==>
              || (r.error == NothingToLoad && forall i: nat :: i < ImageOf(data).programHeaderCount ==>
                  !IsLoad(ImageOf(data), i))
              || exists i: nat :: FirstBad(ImageOf(data), i, r.error)
  {
    hide ReadLe, SegmentAt, IsLoad, RawSegment, InFile, FirstBad;
    if |data| < ELF_HEADER_SIZE {
      return Failure(TooSmall);
    }
    if data[0..4] != [0x7F, 0x45, 0x4C, 0x46] {
      return Failure(NotElf);
    }
    if data[4] != ELFCLASS64 || data[5] != ELFDATA2LSB {
      return Failure(WrongFormat);
    }
    if ReadU16(data, 0x12) != EM_X86_64 {
      return Failure(WrongFormat);
    }
    if ReadU16(data, 0x10) != ET_EXEC {
      return Failure(NotAnExecutable);
    }
    var entry := ReadU64(data, 0x18);
    var offset := ReadU64(data, 0x20);
    var size := ReadU16(data, 0x36);
    var count := ReadU16(data, 0x38);
    if size < PROGRAM_HEADER_SIZE {
      return Failure(WrongFormat);
    }
    var tableSize := size * count;
    if tableSize >= WORD || offset + tableSize >= WORD || offset + tableSize > |data| {
      return Failure(TruncatedHeaders);
    }
    var image := Image(data, entry, offset, count, size);
    var loadable := CountLoadable(image);
    if loadable.Failure? {
      return Failure(loadable.error);
    }
    if loadable.value == 0 {
      return Failure(NothingToLoad);
    }
    r := Success(image);
  }

  // ----- after parsing

  /** Nothing is dropped: the iterator yields exactly the load headers, in order. */
  lemma SegmentsAreLoadHeaders(data: seq<Byte>, count: nat)
    requires |data| < WORD && Accepted(data) && count <= ImageOf(data).programHeaderCount
    ensures SegmentsUpTo(ImageOf(data), count) == LoadHeaders(ImageOf(data), count)
  {
    hide SegmentAt, RawSegment, IsLoad, InFile, ReadLe, SegmentsUpTo, LoadHeaders;
    NothingDropped(ImageOf(data), count);
  }

  lemma {:induction false} NothingDropped(image: Image, count: nat)
    requires TableInBounds(image) && |image.data| < WORD && count <= image.programHeaderCount
    requires forall i: nat :: i < count && IsLoad(image, i) ==> InFile(image.data, RawSegment(image, i))
    ensures SegmentsUpTo(image, count) == LoadHeaders(image, count)
  {
    hide SegmentAt, RawSegment, IsLoad, InFile;
    if count > 0 {
      NothingDropped(image, count - 1);
      SegmentAtMeaning(image, count - 1);
    }
  }

  /** Every segment the iterator yields fits the file and is made of 64-bit fields. */
  lemma {:induction false} SegmentsFit(image: Image, count: nat, k: nat)
    requires TableInBounds(image) && count <= image.programHeaderCount && k < |SegmentsUpTo(image, count)|
    ensures
      var s := SegmentsUpTo(image, count)[k];
      InFile(image.data, s) && s.virtualAddress < WORD && s.memorySize < WORD
  {
    var base := HeaderBase(image, count - 1);
    ReadU64Bound(image.data, base + 0x10);
    ReadU64Bound(image.data, base + 0x28);
    if k < |SegmentsUpTo(image, count - 1)| {
      SegmentsFit(image, count - 1, k);
    }
  }

  lemma {:induction false} SomeSegment(image: Image, count: nat, i: nat)
    requires TableInBounds(image) && i < count <= image.programHeaderCount && SegmentAt(image, i).Success?
    requires SegmentAt(image, i).value.Some?
    ensures |SegmentsUpTo(image, count)| > 0
  {
    if i < count - 1 { SomeSegment(image, count - 1, i); }
  }

  /** An accepted image has something to load. */
  lemma AcceptedLoads(data: seq<Byte>)
    requires |data| < WORD && Accepted(data)
    ensures |Segments(ImageOf(data))| > 0
  {
    var image := ImageOf(data);
    var i: nat :| i < image.programHeaderCount && IsLoad(image, i);
    SegmentAtMeaning(image, i);
    SomeSegment(image, image.programHeaderCount, i);
  }

  /** The end of a segment, as an unbounded number. */
  function End(s: Segment): nat { s.virtualAddress + s.memorySize }

  /** `low` and `high` are the tightest bounds on the addresses of the segments. */
  ghost predicate Hull(segments: seq<Segment>, low: nat, high: nat) {
    && (forall k :: 0 <= k < |segments| ==> low <= segments[k].virtualAddress && End(segments[k]) <= high)
    && (exists k :: 0 <= k < |segments| && segments[k].virtualAddress == low)
    && (exists k :: 0 <= k < |segments| && End(segments[k]) == high)
  }

  /** The only case in which the extent of non-wrapping segments is reported as empty. */
  predicate OnlyTopByte(segments: seq<Segment>) {
    forall k :: 0 <= k < |segments| ==> segments[k].virtualAddress == WORD - 1
  }

  /**
   Where the segments begin and end in virtual memory. `None` stands for the overflow
   check that stops the program when a segment's end does not fit 64 bits.
   */
  method VirtualExtent(segments: seq<Segment>) returns (r: Option<(nat, nat)>)
    requires forall k :: 0 <= k < |segments| ==> segments[k].virtualAddress < WORD
    ensures r.None? <==> exists k :: 0 <= k < |segments| && End(segments[k]) >= WORD
    ensures r.Some? && OnlyTopByte(segments) ==> r.value == (0, 0)
    ensures r.Some? && !OnlyTopByte(segments) ==> Hull(segments, r.value.0, r.value.1)
  {
    var lowest, highest := WORD - 1, 0;
    for i := 0 to |segments|
      invariant forall k :: 0 <= k < i ==> End(segments[k]) < WORD
      invariant forall k :: 0 <= k < i ==> lowest <= segments[k].virtualAddress && End(segments[k]) <= highest
      invariant lowest <= WORD - 1
      invariant lowest < WORD - 1 ==> exists k :: 0 <= k < i && segments[k].virtualAddress == lowest
      invariant lowest == WORD - 1 <==> OnlyTopByte(segments[..i])
      invariant (i == 0 && highest == 0) || exists k :: 0 <= k < i && End(segments[k]) == highest
    {
      var s := segments[i];
      if s.virtualAddress < lowest { lowest := s.virtualAddress; }
      if End(s) >= WORD {
        return None;
      }
      if End(s) > highest { highest := End(s); }
      assert segments[..i + 1] == segments[..i] + [s];
      if highest == 0 { assert End(segments[0]) == 0; }
    }
    assert segments[..|segments|] == segments;
    if lowest == WORD - 1 {
      return Some((0, 0));
    }
    r := Some((lowest, highest));
  }

  // ----- a file whose extent is not its hull

  /** A header, and one program header: an empty readable segment at the last byte of the address space. */
  function TopByteAt(i: nat): Byte {
    match i
    case 0 => 0x7F
    case 1 => 0x45
    case 2 => 0x4C
    case 3 => 0x46
    case 4 => 2
    case 5 => 1
    case 16 => 2
    case 18 => 0x3E
    case 32 => 64
    case 54 => 56
    case 56 => 1
    case 64 => 1
    case 68 => 4
    case _ => if 80 <= i < 88 then 255 else 0
  }

  function TopByteFile(): (data: seq<Byte>)
    ensures |data| == 120 && forall i :: 0 <= i < 120 ==> data[i] == TopByteAt(i)
  {
    seq(120, i requires 0 <= i < 120 => TopByteAt(i))
  }

  /** Two bytes, read out. */
  lemma ReadTwo(data: seq<Byte>, offset: nat)
    requires offset + 2 <= |data|
    ensures ReadU16(data, offset) == data[offset] as int + 256 * (data[offset + 1] as int)
  {
    assert ReadLe(data, offset + 1, 1) == data[offset + 1] + 256 * ReadLe(data, offset + 2, 0);
  }

  /** Four bytes are two groups of two. */
  lemma ReadFour(data: seq<Byte>, offset: nat)
    requires offset + 4 <= |data|
    ensures ReadU32(data, offset) == ReadU16(data, offset) + 0x1_0000 * ReadU16(data, offset + 2)
  {
    ReadTwo(data, offset);
    assert ReadLe(data, offset + 2, 2) == data[offset + 2] + 256 * ReadLe(data, offset + 3, 1);
    assert ReadLe(data, offset + 1, 3) == data[offset + 1] + 256 * ReadLe(data, offset + 2, 2);
  }

  /** Eight bytes are two groups of four. */
  lemma ReadEight(data: seq<Byte>, offset: nat)
    requires offset + 8 <= |data|
    ensures ReadU64(data, offset) == ReadU32(data, offset) + 0x1_0000_0000 * ReadU32(data, offset + 4)
  {
    assert ReadLe(data, offset + 3, 5) == data[offset + 3] + 256 * ReadLe(data, offset + 4, 4);
    assert ReadLe(data, offset + 2, 6) == data[offset + 2] + 256 * ReadLe(data, offset + 3, 5);
    assert ReadLe(data, offset + 1, 7) == data[offset + 1] + 256 * ReadLe(data, offset + 2, 6);
    assert ReadLe(data, offset + 3, 1) == data[offset + 3] + 256 * ReadLe(data, offset + 4, 0);
    assert ReadLe(data, offset + 2, 2) == data[offset + 2] + 256 * ReadLe(data, offset + 3, 1);
    assert ReadLe(data, offset + 1, 3) == data[offset + 1] + 256 * ReadLe(data, offset + 2, 2);
  }

  /** Eight equal bytes. */
  lemma ReadSame(data: seq<Byte>, offset: nat, b: Byte)
    requires offset + 8 <= |data| && forall i :: offset <= i < offset + 8 ==> data[i] == b
    ensures ReadU64(data, offset) == b * 0x101_0101_0101_0101
  {
    hide ReadLe;
    ReadEight(data, offset);
    ReadFour(data, offset);
    ReadFour(data, offset + 4);
    ReadTwo(data, offset);
    ReadTwo(data, offset + 2);
    ReadTwo(data, offset + 4);
    ReadTwo(data, offset + 6);
  }

  lemma TopByteHeader()
    ensures HeaderOk(TopByteFile())
    ensures
      var image := ImageOf(TopByteFile());
      image.programHeaderOffset == 64 && image.programHeaderCount == 1 && image.programHeaderSize == 56
  {
    hide ReadLe, TopByteFile;
    var data := TopByteFile();
    ReadTwo(data, 0x10);
    ReadTwo(data, 0x12);
    ReadTwo(data, 0x36);
    ReadTwo(data, 0x38);
    ReadEight(data, 0x20);
    ReadFour(data, 0x20);
    ReadFour(data, 0x24);
    ReadTwo(data, 0x20);
    ReadTwo(data, 0x22);
    ReadTwo(data, 0x24);
    ReadTwo(data, 0x26);
    assert data[0..4] == [data[0], data[1], data[2], data[3]];
  }

  lemma TopByteSegment()
    ensures TableInBounds(ImageOf(TopByteFile())) && ImageOf(TopByteFile()).programHeaderCount == 1
    ensures IsLoad(ImageOf(TopByteFile()), 0) && RawSegment(ImageOf(TopByteFile()), 0) == Segment(0, 0, WORD - 1, 0, 4)
  {
    hide ReadLe, TopByteFile;
    var data := TopByteFile();
    TopByteHeader();
    assert HeaderBase(ImageOf(data), 0) == 64;
    ReadFour(data, 64);
    ReadTwo(data, 64);
    ReadTwo(data, 66);
    ReadFour(data, 68);
    ReadTwo(data, 68);
    ReadTwo(data, 70);
    ReadSame(data, 64 + 0x08, 0);
    ReadSame(data, 64 + 0x10, 255);
    ReadSame(data, 64 + 0x20, 0);
    ReadSame(data, 64 + 0x28, 0);
  }

  /**
   An accepted file whose only segment sits on the last byte: the hull of its segments is that byte's
   address, not the empty range at zero that the extent is reported as.
   */
  lemma TopByteAccepted()
    ensures Accepted(TopByteFile())
    ensures
      var segments := Segments(ImageOf(TopByteFile()));
      && segments == [Segment(0, 0, WORD - 1, 0, 4)] && OnlyTopByte(segments)
      && Hull(segments, WORD - 1, WORD - 1) && !Hull(segments, 0, 0)
  {
    hide ReadLe, RawSegment, IsLoad, SegmentAt, HeaderOk, TopByteFile;
    TopByteHeader();
    TopByteSegment();
    var image := ImageOf(TopByteFile());
    SegmentAtMeaning(image, 0);
    assert SegmentsUpTo(image, 0) == [];
    var segments := Segments(image);
    assert segments == [Segment(0, 0, WORD - 1, 0, 4)];
    assert segments[0].virtualAddress == WORD - 1 && End(segments[0]) == WORD - 1;
  }

  /** Parsing that file and taking its extent. */
  method ExtentOfTopByte() returns (image: Result<Image, ElfError>, extent: Option<(nat, nat)>)
    ensures image.Success? && TableInBounds(image.value) && extent == Some((0, 0)) && !Hull(Segments(image.value), 0, 0)
  {
    hide ReadLe, RawSegment, IsLoad, SegmentAt, HeaderOk, Accepted, OnlyTopByte, Hull;
    TopByteAccepted();
    TopByteSegment();
    image := Parse(TopByteFile());
    extent := VirtualExtent(Segments(image.value));
  }
}
