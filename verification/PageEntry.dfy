/**
 The 64-bit page-table entry: how the bootloader composes one with bitwise OR, and how the
 processor takes one apart (sections 4.5 and 4.6 of the Intel SDM, Volume 3A).
 */
module PageEntry {
  import opened Words

  const PRESENT: nat := 0x1
  const WRITABLE: nat := 0x2
  const HUGE: nat := 0x80
  const NO_EXECUTE: nat := 0x8000_0000_0000_0000
  const ADDRESS_MASK: nat := 0x000F_FFFF_FFFF_F000

  const PAGE_SIZE: nat := 4096
  const HUGE_PAGE_SIZE: nat := 2 * 1024 * 1024

  /** Physical addresses have at most 52 bits. */
  const PHYSICAL_LIMIT: nat := 0x10_0000_0000_0000

  datatype Permissions = Permissions(writable: bool, executable: bool)

  const READ_ONLY := Permissions(false, false)
  const READ_WRITE := Permissions(true, false)
  const READ_EXECUTE := Permissions(false, true)

  function ToBits(p: Permissions): nat {
    var flags := PRESENT;
    var flags := if p.writable then Or(flags, WRITABLE) else flags;
    if !p.executable then Or(flags, NO_EXECUTE) else flags
  }

  /** The entry `descend` writes when it links in a new table. */
  function TableEntry(frame: nat): nat {
    Or(Or(frame, PRESENT), WRITABLE)
  }

  /** The entry `map_page` writes. */
  function SmallEntry(physical: nat, p: Permissions): nat {
    Or(physical, ToBits(p))
  }

  /** The entry `map_huge_page` writes. */
  function HugeEntry(physical: nat, p: Permissions): nat {
    Or(Or(physical, ToBits(p)), HUGE)
  }

  /** What the processor reads out of an entry. */
  datatype Entry = Absent | Present(address: nat, writable: bool, huge: bool, noExecute: bool)

  function Decode(e: nat): Entry {
    if And(e, PRESENT) == 0 then Absent
    else Present(And(e, ADDRESS_MASK), And(e, WRITABLE) != 0, And(e, HUGE) != 0, And(e, NO_EXECUTE) != 0)
  }

  /** The tests the bootloader makes on an entry read what the processor reads. */
  lemma DecodeTests(e: nat)
    ensures Decode(e).Present? <==> And(e, PRESENT) != 0
    ensures Decode(e).Present? ==> Decode(e).address == And(e, ADDRESS_MASK) && (Decode(e).huge <==> And(e, HUGE) != 0)
  {
  }

  lemma DecodeZero()
    ensures Decode(0) == Absent
  {
  }

  predicate PhysicalPage(address: nat) {
    address % PAGE_SIZE == 0 && address < PHYSICAL_LIMIT
  }

  /** The bits of the address mask are exactly bits 12 to 51. */
  lemma MaskBits(i: nat)
    ensures Bit(ADDRESS_MASK, i) == (12 <= i < 52)
  {
    Powers();
    if i < 52 {
      BitComplement(Pow2(12) - 1, 52, i);
      if i < 12 {
        BitComplement(0, 12, i);
        BitOfZero(i);
      } else {
        HighBitsClear(Pow2(12) - 1, 12, i);
      }
    } else {
      HighBitsClear(ADDRESS_MASK, 52, i);
    }
  }

  lemma PageBits(address: nat, i: nat)
    requires PhysicalPage(address)
    ensures Bit(address, i) ==> 12 <= i < 52
  {
    Powers();
    if i < 12 {
      LowBitsClear(address / PAGE_SIZE, 12, i);
    } else if i >= 52 {
      HighBitsClear(address, 52, i);
    }
  }

  /** An entry whose bits are an address plus flags decodes to that address and those flags. */
  lemma DecodeBits(e: nat, address: nat, w: bool, h: bool, nx: bool)
    requires PhysicalPage(address)
    requires forall i: nat ::
               Bit(e, i) == (Bit(address, i) || i == 0 || (w && i == 1) || (h && i == 7) || (nx && i == 63))
    ensures Decode(e) == Present(address, w, h, nx)
  {
    Powers();
    TestBit(e, 0);
    TestBit(e, 1);
    TestBit(e, 7);
    TestBit(e, 63);
    PageBits(address, 0);
    PageBits(address, 1);
    PageBits(address, 7);
    PageBits(address, 63);
    forall i: nat
      ensures Bit(And(e, ADDRESS_MASK), i) == Bit(address, i)
    {
      BitAnd(e, ADDRESS_MASK, i);
      MaskBits(i);
      PageBits(address, i);
    }
    SameBits(And(e, ADDRESS_MASK), address);
  }

  /** Bit `k` of a flag constant. */
  lemma FlagBits(i: nat)
    ensures Bit(PRESENT, i) == (i == 0)
    ensures Bit(WRITABLE, i) == (i == 1)
    ensures Bit(HUGE, i) == (i == 7)
    ensures Bit(NO_EXECUTE, i) == (i == 63)
  {
    Powers();
    BitPow2(0, i);
    BitPow2(1, i);
    BitPow2(7, i);
    BitPow2(63, i);
  }

  lemma PermissionBits(p: Permissions, i: nat)
    ensures Bit(ToBits(p), i) == (i == 0 || (p.writable && i == 1) || (!p.executable && i == 63))
  {
    FlagBits(i);
    BitOr(PRESENT, WRITABLE, i);
    BitOr(PRESENT, NO_EXECUTE, i);
    BitOr(Or(PRESENT, WRITABLE), NO_EXECUTE, i);
  }

  lemma DecodeTable(frame: nat)
    requires PhysicalPage(frame)
    ensures Decode(TableEntry(frame)) == Present(frame, true, false, false)
  {
    var e := TableEntry(frame);
    forall i: nat
      ensures Bit(e, i) == (Bit(frame, i) || i == 0 || i == 1)
    {
      FlagBits(i);
      BitOr(frame, PRESENT, i);
      BitOr(Or(frame, PRESENT), WRITABLE, i);
    }
    DecodeBits(e, frame, true, false, false);
  }

  lemma DecodeSmall(physical: nat, p: Permissions)
    requires PhysicalPage(physical)
    ensures Decode(SmallEntry(physical, p)) == Present(physical, p.writable, false, !p.executable)
  {
    var e := SmallEntry(physical, p);
    forall i: nat
      ensures Bit(e, i) == (Bit(physical, i) || i == 0 || (p.writable && i == 1) || (!p.executable && i == 63))
    {
      PermissionBits(p, i);
      BitOr(physical, ToBits(p), i);
    }
    DecodeBits(e, physical, p.writable, false, !p.executable);
  }

  lemma DecodeHuge(physical: nat, p: Permissions)
    requires PhysicalPage(physical)
    ensures Decode(HugeEntry(physical, p)) == Present(physical, p.writable, true, !p.executable)
  {
    var e := HugeEntry(physical, p);
    forall i: nat
      ensures Bit(e, i) ==
                (Bit(physical, i) || i == 0 || (p.writable && i == 1) || i == 7 || (!p.executable && i == 63))
    {
      PermissionBits(p, i);
      FlagBits(i);
      BitOr(physical, ToBits(p), i);
      BitOr(Or(physical, ToBits(p)), HUGE, i);
    }
    DecodeBits(e, physical, p.writable, true, !p.executable);
  }

  /** An entry is a 64-bit word. */
  lemma EntryBound(physical: nat, p: Permissions)
    requires physical < PHYSICAL_LIMIT
    ensures TableEntry(physical) < WORD && SmallEntry(physical, p) < WORD && HugeEntry(physical, p) < WORD
  {
    Powers();
    OrBound(PRESENT, WRITABLE, 64);
    OrBound(PRESENT, NO_EXECUTE, 64);
    OrBound(Or(PRESENT, WRITABLE), NO_EXECUTE, 64);
    OrBound(physical, PRESENT, 64);
    OrBound(Or(physical, PRESENT), WRITABLE, 64);
    OrBound(physical, ToBits(p), 64);
    OrBound(Or(physical, ToBits(p)), HUGE, 64);
  }
}
