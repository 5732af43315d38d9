/**
 The ELF64 file layout, written rather than read: the bytes of a file header and of a program header
 from their fields (System V gABI, chapter 4, "ELF Header", and chapter 5, "Program Header"). The
 reader is proved to get back exactly the fields that were written.
 */
module ElfLayout {
  import opened Results
  import opened Words
  import opened Elf

  // ----- fields in a row

  /** Fields that follow each other, each a number and its size in bytes. */
  datatype Layout = Last | Field(value: nat, size: nat, rest: Layout)

  /** A number in `size` bytes, least significant first. */
  function WriteLe(value: nat, size: nat): (b: seq<Byte>)
    ensures |b| == size
  {
    if size == 0 then [] else [value % 256] + WriteLe(value / 256, size - 1)
  }

  function Bytes(l: Layout): seq<Byte> {
    match l case Last => [] case Field(value, size, rest) => WriteLe(value, size) + Bytes(rest)
  }

  /** Every field fits its size. */
  predicate Fits(l: Layout) {
    match l case Last => true case Field(value, size, rest) => value < Pow2(8 * size) && Fits(rest)
  }

  /** The bytes at `offset` are those of the layout. */
  predicate Holds(data: seq<Byte>, offset: nat, l: Layout) {
    offset + |Bytes(l)| <= |data| && data[offset..offset + |Bytes(l)|] == Bytes(l)
  }

  lemma ByteStep(value: nat, size: nat)
    requires size > 0 && value < Pow2(8 * size)
    ensures value / 256 < Pow2(8 * (size - 1))
  {
    PowerOfSum(8, 8 * (size - 1));
    assert Pow2(8) == 256 by { Powers(); PowerOfSum(1, 7); }
  }

  /** What was written is what is read. */
  lemma {:induction false} WriteThenRead(data: seq<Byte>, offset: nat, value: nat, size: nat)
    requires offset + size <= |data| && value < Pow2(8 * size)
    requires data[offset..offset + size] == WriteLe(value, size)
    ensures ReadLe(data, offset, size) == value
    decreases size
  {
    if size > 0 {
      ByteStep(value, size);
      var b := data[offset..offset + size];
      assert b[0] == data[offset] && b[1..] == data[offset + 1..offset + size];
      WriteThenRead(data, offset + 1, value / 256, size - 1);
    }
  }

  /** What was read is what is written. */
  lemma {:induction false} ReadThenWrite(data: seq<Byte>, offset: nat, size: nat)
    requires offset + size <= |data|
    ensures WriteLe(ReadLe(data, offset, size), size) == data[offset..offset + size]
    ensures ReadLe(data, offset, size) < Pow2(8 * size)
    decreases size
  {
    ReadLeBound(data, offset, size);
    if size > 0 {
      ReadThenWrite(data, offset + 1, size - 1);
      assert data[offset..offset + size] == [data[offset]] + data[offset + 1..offset + size];
    }
  }

  /** The first field is at the offset, and the others follow. */
  lemma FieldHeld(data: seq<Byte>, offset: nat, l: Layout)
    requires Holds(data, offset, l) && Fits(l) && l.Field?
    ensures offset + l.size <= |data| && ReadLe(data, offset, l.size) == l.value
    ensures Holds(data, offset + l.size, l.rest) && Fits(l.rest)
  {
    var b := data[offset..offset + |Bytes(l)|];
    assert b[..l.size] == WriteLe(l.value, l.size) && b[l.size..] == Bytes(l.rest);
    assert data[offset..offset + l.size] == b[..l.size];
    assert data[offset + l.size..offset + |Bytes(l)|] == b[l.size..];
    WriteThenRead(data, offset, l.value, l.size);
  }

  /** A field that reads back before fields that are held. */
  lemma HoldField(data: seq<Byte>, offset: nat, size: nat, rest: Layout)
    requires offset + size <= |data| && Holds(data, offset + size, rest) && Fits(rest)
    ensures Holds(data, offset, Field(ReadLe(data, offset, size), size, rest))
    ensures Fits(Field(ReadLe(data, offset, size), size, rest))
  {
    ReadThenWrite(data, offset, size);
    var n := size + |Bytes(rest)|;
    assert data[offset..offset + n] == data[offset..offset + size] + data[offset + size..offset + n];
  }

  // ----- program headers

  datatype ProgramHeader = ProgramHeader(kind: nat, flags: nat, offset: nat, virtualAddress: nat, physicalAddress: nat,
                                         fileSize: nat, memorySize: nat, alignment: nat)

  /** The 56 bytes of a program header. */
  function HeaderLayout(h: ProgramHeader): Layout {
    Field(h.kind, 4, Field(h.flags, 4, HeaderTail(h)))
  }

  function HeaderTail(h: ProgramHeader): Layout {
    Field(h.offset, 8, Field(h.virtualAddress, 8, Field(h.physicalAddress, 8, HeaderSizes(h))))
  }

  function HeaderSizes(h: ProgramHeader): Layout {
    Field(h.fileSize, 8, Field(h.memorySize, 8, Field(h.alignment, 8, Last)))
  }

  /** What the header asks to be loaded. */
  function SegmentOf(h: ProgramHeader): Segment {
    Segment(h.offset, h.fileSize, h.virtualAddress, h.memorySize, h.flags)
  }

  /** The bytes at `base` are those of header `h`, whose fields fit their sizes. */
  predicate HeaderAt(data: seq<Byte>, base: nat, h: ProgramHeader) {
    Holds(data, base, HeaderLayout(h)) && Fits(HeaderLayout(h))
  }

  /** Each field is read from where it was written. */
  lemma HeaderReads(data: seq<Byte>, base: nat, h: ProgramHeader)
    requires HeaderAt(data, base, h)
    ensures base + 56 <= |data| && ReadU32(data, base) == h.kind && ReadU32(data, base + 4) == h.flags
    ensures ReadU64(data, base + 8) == h.offset && ReadU64(data, base + 16) == h.virtualAddress
    ensures ReadU64(data, base + 32) == h.fileSize && ReadU64(data, base + 40) == h.memorySize
    ensures h.fileSize < WORD && h.memorySize < WORD && h.offset < WORD && h.virtualAddress < WORD
  {
    hide ReadLe, Bytes, Holds, Fits;
    FieldHeld(data, base, HeaderLayout(h));
    FieldHeld(data, base + 4, Field(h.flags, 4, HeaderTail(h)));
    FieldHeld(data, base + 8, HeaderTail(h));
    FieldHeld(data, base + 16, HeaderTail(h).rest);
    FieldHeld(data, base + 24, HeaderTail(h).rest.rest);
    FieldHeld(data, base + 32, HeaderSizes(h));
    FieldHeld(data, base + 40, HeaderSizes(h).rest);
    FieldHeld(data, base + 48, HeaderSizes(h).rest.rest);
    ReadU64Bound(data, base + 8);
    ReadU64Bound(data, base + 16);
    ReadU64Bound(data, base + 32);
    ReadU64Bound(data, base + 40);
  }

  /** Where header `index` of a table begins. */
  function HeaderStart(image: Image, index: nat): nat {
    image.programHeaderOffset + index * image.programHeaderSize
  }

  /** The segment of a header is read from its bytes; it is refused exactly when it does not fit. */
  lemma HeaderRoundTrip(image: Image, i: nat, h: ProgramHeader)
    requires TableInBounds(image) && i < image.programHeaderCount && |image.data| < WORD
    requires HeaderAt(image.data, HeaderStart(image, i), h)
    ensures SegmentAt(image, i) ==
            if h.kind != 1 then Success(None)
            else if h.memorySize < h.fileSize then Failure(ImpossibleSegment)
            else if h.offset + h.fileSize > |image.data| then Failure(TruncatedSegment)
            else Success(Some(SegmentOf(h)))
    ensures (IsLoad(image, i) <==> h.kind == 1) && RawSegment(image, i) == SegmentOf(h)
  {
    hide ReadLe, HeaderAt;
    HeaderReads(image.data, HeaderStart(image, i), h);
    assert HeaderBase(image, i) == HeaderStart(image, i);
  }

  /** Any 56 bytes are those of some header. */
  lemma SomeHeader(data: seq<Byte>, base: nat) returns (h: ProgramHeader)
    requires base + 56 <= |data|
    ensures HeaderAt(data, base, h)
  {
    hide ReadLe, Bytes, Holds, Fits;
    h := ProgramHeader(ReadU32(data, base), ReadU32(data, base + 4), ReadU64(data, base + 8), ReadU64(data, base + 16),
                       ReadU64(data, base + 24), ReadU64(data, base + 32), ReadU64(data, base + 40),
                           ReadU64(data, base + 48));
    EndHeld(data, base + 56);
    HoldField(data, base + 48, 8, Last);
    HoldField(data, base + 40, 8, HeaderSizes(h).rest.rest);
    HoldField(data, base + 32, 8, HeaderSizes(h).rest);
    HoldField(data, base + 24, 8, HeaderSizes(h));
    HoldField(data, base + 16, 8, HeaderTail(h).rest.rest);
    HoldField(data, base + 8, 8, HeaderTail(h).rest);
    HoldField(data, base + 4, 4, HeaderTail(h));
    HoldField(data, base, 4, HeaderLayout(h).rest);
  }

  lemma EndHeld(data: seq<Byte>, offset: nat)
    requires offset <= |data|
    ensures Holds(data, offset, Last) && Fits(Last)
  {
  }

  // ----- the table

  /** `hs` are the first headers of the table, as bytes. */
  predicate Listed(image: Image, hs: seq<ProgramHeader>) {
    |hs| <= image.programHeaderCount && forall i :: 0 <= i < |hs| ==> HeaderAt(image.data, HeaderStart(image, i), hs[i])
  }

  /** Every table lists some headers. */
  lemma {:induction false} SomeHeaders(image: Image, count: nat) returns (hs: seq<ProgramHeader>)
    requires TableInBounds(image) && count <= image.programHeaderCount
    ensures Listed(image, hs) && |hs| == count
  {
    hide HeaderAt;
    hs := [];
    if count > 0 {
      var rest := SomeHeaders(image, count - 1);
      assert HeaderBase(image, count - 1) == HeaderStart(image, count - 1);
      var h := SomeHeader(image.data, HeaderStart(image, count - 1));
      hs := rest + [h];
    }
  }

  /** The segments of the headers of kind 1, in order. */
  function Loadable(hs: seq<ProgramHeader>): seq<Segment> {
    if hs == [] then []
    else
      var n := |hs| - 1;
      Loadable(hs[..n]) + (if hs[n].kind == 1 then [SegmentOf(hs[n])] else [])
  }

  /** A header that is not to be loaded, or whose segment fits the file and its memory. */
  predicate HeaderFits(size: nat, h: ProgramHeader) {
    h.kind == 1 ==> h.fileSize <= h.memorySize && h.offset + h.fileSize <= size
  }

  /** Nothing is dropped: the iterator yields the segments of exactly the load headers, as written. */
  lemma {:induction false} SegmentsAreWritten(image: Image, hs: seq<ProgramHeader>)
    requires TableInBounds(image) && |image.data| < WORD && Listed(image, hs)
    requires forall i :: 0 <= i < |hs| ==> HeaderFits(|image.data|, hs[i])
    ensures SegmentsUpTo(image, |hs|) == Loadable(hs)
    decreases |hs|
  {
    hide HeaderAt, SegmentAt, IsLoad, RawSegment;
    if hs != [] {
      var n := |hs| - 1;
      SegmentsAreWritten(image, hs[..n]);
      HeaderRoundTrip(image, n, hs[n]);
    }
  }

  // ----- the file header

  datatype FileHeader = FileHeader(ident: seq<Byte>, kind: nat, machine: nat, version: nat, entry: nat,
                                   programHeaders: nat, sectionHeaders: nat, flags: nat, headerSize: nat,
                                   programHeaderSize: nat, programHeaderCount: nat, sectionHeaderSize: nat,
                                   sectionHeaderCount: nat, sectionNames: nat)

  /** The 48 bytes after the identification. */
  function FileLayout(h: FileHeader): Layout {
    Field(h.kind, 2, Field(h.machine, 2, Field(h.version, 4, FileAddresses(h))))
  }

  function FileAddresses(h: FileHeader): Layout {
    Field(h.entry, 8, Field(h.programHeaders, 8, Field(h.sectionHeaders, 8, FileSizes(h))))
  }

  function FileSizes(h: FileHeader): Layout {
    Field(h.flags, 4,
        Field(h.headerSize, 2, Field(h.programHeaderSize, 2, Field(h.programHeaderCount, 2, FileSections(h)))))
  }

  function FileSections(h: FileHeader): Layout {
    Field(h.sectionHeaderSize, 2, Field(h.sectionHeaderCount, 2, Field(h.sectionNames, 2, Last)))
  }

  /** The file begins with header `h`: sixteen bytes of identification and then the fields. */
  predicate Begins(data: seq<Byte>, h: FileHeader) {
    |h.ident| == 16 <= |data| && data[..16] == h.ident && Holds(data, 16, FileLayout(h)) && Fits(FileLayout(h))
  }

  /** Each field of the file header is read from where it was written. */
  lemma FileReads(data: seq<Byte>, h: FileHeader)
    requires Begins(data, h)
    ensures |data| >= 64 && ReadU16(data, 0x10) == h.kind && ReadU16(data, 0x12) == h.machine
    ensures ReadU64(data, 0x18) == h.entry && ReadU64(data, 0x20) == h.programHeaders
    ensures ReadU16(data, 0x36) == h.programHeaderSize && ReadU16(data, 0x38) == h.programHeaderCount
  {
    hide ReadLe, Bytes, Holds, Fits;
    FieldHeld(data, 16, FileLayout(h));
    FieldHeld(data, 18, FileLayout(h).rest);
    FieldHeld(data, 20, FileLayout(h).rest.rest);
    FieldHeld(data, 24, FileAddresses(h));
    FieldHeld(data, 32, FileAddresses(h).rest);
    FieldHeld(data, 40, FileAddresses(h).rest.rest);
    FieldHeld(data, 48, FileSizes(h));
    FieldHeld(data, 52, FileSizes(h).rest);
    FieldHeld(data, 54, FileSizes(h).rest.rest);
    FieldHeld(data, 56, FileSizes(h).rest.rest.rest);
    FieldHeld(data, 58, FileSections(h));
    FieldHeld(data, 60, FileSections(h).rest);
    FieldHeld(data, 62, FileSections(h).rest.rest);
  }

  /** Any file long enough begins with some header. */
  lemma SomeFileHeader(data: seq<Byte>) returns (h: FileHeader)
    requires |data| >= 64
    ensures Begins(data, h)
  {
    hide ReadLe, Bytes, Holds, Fits;
    h := FileHeader(data[..16], ReadU16(data, 16), ReadU16(data, 18), ReadU32(data, 20), ReadU64(data, 24),
                    ReadU64(data, 32), ReadU64(data, 40), ReadU32(data, 48), ReadU16(data, 52), ReadU16(data, 54),
                    ReadU16(data, 56), ReadU16(data, 58), ReadU16(data, 60), ReadU16(data, 62));
    EndHeld(data, 64);
    HoldField(data, 62, 2, Last);
    HoldField(data, 60, 2, FileSections(h).rest.rest);
    HoldField(data, 58, 2, FileSections(h).rest);
    HoldField(data, 56, 2, FileSections(h));
    HoldField(data, 54, 2, FileSizes(h).rest.rest.rest);
    HoldField(data, 52, 2, FileSizes(h).rest.rest);
    HoldField(data, 48, 4, FileSizes(h).rest);
    HoldField(data, 40, 8, FileSizes(h));
    HoldField(data, 32, 8, FileAddresses(h).rest.rest);
    HoldField(data, 24, 8, FileAddresses(h).rest);
    HoldField(data, 20, 4, FileAddresses(h));
    HoldField(data, 18, 2, FileLayout(h).rest.rest);
    HoldField(data, 16, 2, FileLayout(h).rest);
  }

  /** A 64-bit little-endian x86-64 executable with program headers of at least 56 bytes. */
  predicate Executable(h: FileHeader) {
    && |h.ident| == 16 && h.ident[0] == 0x7F && h.ident[1] == 'E' as int && h.ident[2] == 'L' as int
        && h.ident[3] == 'F' as int
    && h.ident[4] == 2 && h.ident[5] == 1 && h.machine == 62 && h.kind == 2 && h.programHeaderSize >= 56
  }

  /** The image is the file header's, entry point included. */
  lemma ImageRoundTrip(data: seq<Byte>, h: FileHeader)
    requires Begins(data, h)
    ensures |data| >= 64
    ensures ImageOf(data) == Image(data, h.entry, h.programHeaders, h.programHeaderCount, h.programHeaderSize)
    ensures HeaderOk(data) <==> Executable(h)
  {
    hide ReadLe, Holds, Fits;
    FileReads(data, h);
    assert forall i :: 0 <= i < 16 ==> data[i] == data[..16][i];
    assert data[0..4] == [data[0], data[1], data[2], data[3]];
  }

  /**
   Acceptance, from what was written: an executable's header, a table inside the file, load headers
   that fit, and at least one of them. The segments are then those of the load headers, in order.
   */
  lemma AcceptedAsWritten(data: seq<Byte>, h: FileHeader, hs: seq<ProgramHeader>)
    requires |data| < WORD && Begins(data, h) && |hs| == h.programHeaderCount
    requires h.programHeaderSize >= 56 && h.programHeaders + h.programHeaderSize * h.programHeaderCount <= |data|
    requires forall i :: 0 <= i < |hs| ==> HeaderAt(data, h.programHeaders + i * h.programHeaderSize, hs[i])
    ensures Accepted(data) <==>
            && Executable(h) && (forall i :: 0 <= i < |hs| ==> HeaderFits(|data|, hs[i]))
            && exists i :: 0 <= i < |hs| && hs[i].kind == 1
    ensures Accepted(data) ==> ImageOf(data).entry == h.entry && Segments(ImageOf(data)) == Loadable(hs)
  {
    hide HeaderAt, SegmentAt, IsLoad, RawSegment, HeaderOk, Executable, ImageOf, SegmentsUpTo, Begins, Loadable;
    ImageRoundTrip(data, h);
    var image := ImageOf(data);
    assert TableInBounds(image) && Listed(image, hs);
    forall i: nat | i < |hs|
      ensures (IsLoad(image, i) <==> hs[i].kind == 1) && RawSegment(image, i) == SegmentOf(hs[i])
    {
      HeaderRoundTrip(image, i, hs[i]);
    }
    if Accepted(data) {
      forall i | 0 <= i < |hs|
        ensures HeaderFits(|data|, hs[i])
      {
        assert IsLoad(image, i) ==> InFile(data, RawSegment(image, i));
      }
      SegmentsAreWritten(image, hs);
    }
  }
}
